/** Restoring the type URLs of packed messages after a JSON decoder has rewritten them. */
module AnyUrls {
  import opened Options
  import IntegerText

  datatype Json = Null | Str(text: string) | Atom(token: string) | Array(items: seq<Json>) | Object(entries: seq<Entry>)

  datatype Entry = Entry(key: string, value: Json)

  /** None is JavaScript's undefined. */
  function Get(entries: seq<Entry>, key: string): Option<Json> {
    if entries == [] then None
    else if entries[0].key == key then Some(entries[0].value)
    else Get(entries[1..], key)
  }

  ghost predicate DistinctKeys(entries: seq<Entry>) {
    forall i, j :: 0 <= i < j < |entries| ==> entries[i].key != entries[j].key
  }

  lemma {:induction false} GetDistinct(entries: seq<Entry>, i: nat)
    requires i < |entries| && DistinctKeys(entries)
    ensures Get(entries, entries[i].key) == Some(entries[i].value)
  {
    if i > 0 {
      GetDistinct(entries[1..], i - 1);
    }
  }

  /** The keys and values of an object, or of an array by index. */
  function Entries(json: Json): seq<Entry>
    requires json.Object? || json.Array?
  {
    if json.Object? then json.entries
    else seq(|json.items|, i requires 0 <= i < |json.items| => Entry(IntegerText.Print(i), json.items[i]))
  }

  // ----- Descriptors -----

  datatype Kind = MessageKind(message: string) | ListKind(message: string) | MapKind(message: string) | OtherKind

  datatype Field = Field(name: string, jsonName: string, localName: string, oneof: Option<string>, kind: Kind)

  /** All message descriptors by type name, and the names the registry resolves, none without a registry. */
  datatype Types = Types(messages: map<string, seq<Field>>, registered: set<string>)

  const ANY := "google.protobuf.Any"
  const DYNAMIC := {"google.protobuf.Struct", "google.protobuf.Value", "google.protobuf.ListValue"}
  const CUSTOM := DYNAMIC + {
      "google.protobuf.Any", "google.protobuf.Timestamp", "google.protobuf.Duration", "google.protobuf.FieldMask",
      "google.protobuf.DoubleValue", "google.protobuf.FloatValue", "google.protobuf.Int64Value",
      "google.protobuf.UInt64Value", "google.protobuf.Int32Value", "google.protobuf.UInt32Value",
      "google.protobuf.BoolValue", "google.protobuf.StringValue", "google.protobuf.BytesValue"
    }

  function Fields(types: Types, name: string): seq<Field> {
    if name in types.messages then types.messages[name] else []
  }

  /** Descriptors that Proto JSON can use: field names and JSON names are distinct, and none is the type key. */
  ghost predicate WellFormed(types: Types) {
    && (forall name, i, j :: name in types.messages && 0 <= i < j < |types.messages[name]| ==>
          DistinctFields(types.messages[name][i], types.messages[name][j]))
    && (forall name, field :: name in types.messages && field in types.messages[name] ==> field.jsonName != "@type")
  }

  predicate DistinctFields(a: Field, b: Field) {
    a.localName != b.localName && a.jsonName != b.jsonName
  }

  // ----- Messages -----

  /**
   * A packed message, a message known only by its JSON form, or an object with named properties.
   * Bytes carry the type they encode; form 0 is the encoder's own output, others encode the same message.
   */
  datatype Message = Any(url: string, value: Bytes) | Leaf(json: Json) | Plain(props: seq<Prop>)

  datatype Bytes = Encoding(typeName: string, payload: Message, form: nat) | Raw(raw: string)

  datatype Prop = Prop(name: string, value: Value)

  datatype Row = Row(key: string, message: Message)

  datatype Value =
    | Scalar(scalar: string)
    | One(message: Message)
    | Many(messages: seq<Message>)
    | Table(rows: seq<Row>)
    | Choice(selected: string, chosen: Value)

  function FromBinary(typeName: string, bytes: Bytes): (r: Option<Message>)
    ensures r.Some? ==> bytes.Encoding? && r.value == bytes.payload
  {
    if bytes.Encoding? && bytes.typeName == typeName then Some(bytes.payload) else None
  }

  function ToBinary(typeName: string, message: Message): Bytes {
    Encoding(typeName, message, 0)
  }

  /** The part of a type URL after its last slash. */
  function TypeName(url: string): string {
    if url == "" then ""
    else if url[|url| - 1] == '/' then ""
    else TypeName(url[..|url| - 1]) + [url[|url| - 1]]
  }

  predicate NoSlash(s: string) { '/' !in s }

  /** The URL is the type name, alone or after a prefix and a slash. */
  predicate NamesType(url: string, typeName: string) {
    && typeName != "" && NoSlash(typeName)
    && (url == typeName || (|url| > |typeName| && url[|url| - |typeName| - 1..] == "/" + typeName))
  }

  lemma {:induction false} AfterLastSlash(prefix: string, name: string)
    requires NoSlash(name)
    ensures TypeName(prefix + "/" + name) == name && TypeName(name) == name
  {
    if name == "" {
      assert prefix + "/" + name == prefix + "/";
    } else {
      var init, last := name[..|name| - 1], name[|name| - 1];
      assert last in name && forall c :: c in init ==> c in name;
      AfterLastSlash(prefix, init);
      assert (prefix + "/" + name)[..|prefix + "/" + name| - 1] == prefix + "/" + init;
    }
  }

  /** A URL that names a type is looked up under that type's plain name. */
  lemma NamedTypeIsFound(url: string, typeName: string)
    requires NamesType(url, typeName)
    ensures TypeName(url) == typeName
  {
    if url == typeName {
      AfterLastSlash("", typeName);
    } else {
      var prefix := url[..|url| - |typeName| - 1];
      assert url == prefix + "/" + typeName;
      AfterLastSlash(prefix, typeName);
    }
  }

  // ----- restore -----

  datatype Outcome<+T> = Threw | Done(changed: bool, value: T)

  /** Every element is processed; one that throws makes the whole throw. */
  function Gather<T>(outcomes: seq<Outcome<T>>): Outcome<seq<T>> {
    if exists i :: 0 <= i < |outcomes| && outcomes[i].Threw? then Threw
    else Done(exists i :: 0 <= i < |outcomes| && outcomes[i].changed,
              seq(|outcomes|, i requires 0 <= i < |outcomes| && outcomes[i].Done? => outcomes[i].value))
  }

  function Wrap<S, T>(outcome: Outcome<S>, wrap: S -> T): Outcome<T> {
    match outcome
    case Threw => Threw
    case Done(changed, value) => Done(changed, wrap(value))
  }

  /** The field that reads a property: by its own name, or as the selected case of its oneof. */
  predicate Reads(field: Field, prop: Prop) {
    if prop.value.Choice? then field.oneof == Some(prop.name) && field.localName == prop.value.selected
    else field.oneof == None && field.localName == prop.name
  }

  function Reader(fields: seq<Field>, prop: Prop): (r: Option<Field>)
    ensures r.Some? ==> r.value in fields && Reads(r.value, prop)
    ensures r.None? ==> forall f :: f in fields ==> !Reads(f, prop)
  {
    if fields == [] then None
    else if Reads(fields[0], prop) then Some(fields[0])
    else Reader(fields[1..], prop)
  }

  /** The JSON of a field: under its JSON name, or when that is absent or null, under its name. */
  function Source(entries: seq<Entry>, field: Field): Option<Json> {
    var json := Get(entries, field.jsonName);
    if json == None || json == Some(Null) then Get(entries, field.name) else json
  }

  function Restore(types: Types, name: string, message: Message, json: Json): Outcome<Message>
    decreases message, 1
  {
    if !json.Object? then Done(false, message)
    else if name == ANY then RestoreAny(types, message, json.entries)
    else if name in DYNAMIC || !message.Plain? then Done(false, message)
    else
      var props := message.props;
      Wrap(Gather(seq(|props|, i requires 0 <= i < |props| =>
        RestoreProp(types, Fields(types, name), props[i], json.entries))), ps => Plain(ps))
  }

  function RestoreAny(types: Types, message: Message, entries: seq<Entry>): Outcome<Message>
    decreases message, 0
  {
    var url := Get(entries, "@type");
    if !message.Any? || url.None? || !url.value.Str? then Done(false, message)
    else
      var changedUrl, restored := message.url != url.value.text, message.(url := url.value.text);
      var typeName := TypeName(url.value.text);
      if typeName !in types.registered then Done(changedUrl, restored)
      else
        match FromBinary(typeName, message.value)
        case None => Threw
        case Some(payload) =>
          var json := if typeName in CUSTOM then Get(entries, "value") else Some(Object(entries));
          if json.None? then Done(changedUrl, restored)
          else
            match Restore(types, typeName, payload, json.value)
            case Threw => Threw
            case Done(changed, fixed) =>
              Done(changedUrl || changed, if changed then restored.(value := ToBinary(typeName, fixed)) else restored)
  }

  function RestoreProp(types: Types, fields: seq<Field>, prop: Prop, entries: seq<Entry>): Outcome<Prop>
    decreases prop
  {
    var field := Reader(fields, prop);
    if field.None? then Done(false, prop)
    else
      var json := Source(entries, field.value);
      if json.None? then Done(false, prop)
      else if prop.value.Choice? then
        Wrap(RestoreValue(types, field.value.kind, prop.value.chosen, json.value),
             v => prop.(value := Choice(prop.value.selected, v)))
      else
        Wrap(RestoreValue(types, field.value.kind, prop.value, json.value), v => prop.(value := v))
  }

  /** A map row is restored from the JSON under its key; rows and array elements without JSON stay. */
  function RestoreValue(types: Types, kind: Kind, value: Value, json: Json): Outcome<Value>
    decreases value
  {
    match (kind, value)
    case (MessageKind(name), One(message)) => Wrap(Restore(types, name, message, json), m => One(m))
    case (ListKind(name), Many(messages)) =>
      if !json.Array? then Done(false, value)
      else
        Wrap(Gather(seq(|messages|, i requires 0 <= i < |messages| =>
          RestoreItem(types, name, messages[i], json.items, i))), ms => Many(ms))
    case (MapKind(name), Table(rows)) =>
      if !json.Array? && !json.Object? then Done(false, value)
      else
        Wrap(Gather(seq(|rows|, i requires 0 <= i < |rows| =>
          RestoreRow(types, name, rows[i], Entries(json)))), rs => Table(rs))
    case _ => Done(false, value)
  }

  function RestoreItem(types: Types, name: string, message: Message, items: seq<Json>, i: nat): Outcome<Message>
    decreases message, 2
  {
    if i < |items| then Restore(types, name, message, items[i]) else Done(false, message)
  }

  function RestoreRow(types: Types, name: string, row: Row, entries: seq<Entry>): Outcome<Row>
    decreases row
  {
    match Get(entries, row.key)
    case None => Done(false, row)
    case Some(item) => Wrap(Restore(types, name, row.message, item), m => Row(row.key, m))
  }

  // ----- Only URLs change -----

  function Concat<T>(parts: seq<seq<T>>): seq<T> {
    if parts == [] then [] else parts[0] + Concat(parts[1..])
  }

  /** All type URLs of a message, at any depth and inside packed payloads. */
  function Urls(message: Message): seq<string> {
    match message
    case Any(url, Encoding(_, payload, _)) => [url] + Urls(payload)
    case Any(url, Raw(_)) => [url]
    case Leaf(_) => []
    case Plain(props) =>
      Concat(seq(|props|, i requires 0 <= i < |props| => UrlsOf(props[i].value)))
  }

  function UrlsOf(value: Value): seq<string> {
    match value
    case Scalar(_) => []
    case One(message) => Urls(message)
    case Many(messages) => Concat(seq(|messages|, i requires 0 <= i < |messages| => Urls(messages[i])))
    case Table(rows) => Concat(seq(|rows|, i requires 0 <= i < |rows| => Urls(rows[i].message)))
    case Choice(_, chosen) => UrlsOf(chosen)
  }

  /** The message with the type URLs replaced, and payloads encoded by the encoder again. */
  function Rewrite(f: string -> string, message: Message): Message {
    match message
    case Any(url, Encoding(typeName, payload, _)) => Any(f(url), ToBinary(typeName, Rewrite(f, payload)))
    case Any(url, Raw(raw)) => Any(f(url), Raw(raw))
    case Leaf(_) => message
    case Plain(props) =>
      Plain(seq(|props|, i requires 0 <= i < |props| => Prop(props[i].name, RewriteValue(f, props[i].value))))
  }

  function RewriteValue(f: string -> string, value: Value): Value {
    match value
    case Scalar(_) => value
    case One(message) => One(Rewrite(f, message))
    case Many(messages) =>
      Many(seq(|messages|, i requires 0 <= i < |messages| => Rewrite(f, messages[i])))
    case Table(rows) =>
      Table(seq(|rows|, i requires 0 <= i < |rows| => Row(rows[i].key, Rewrite(f, rows[i].message))))
    case Choice(selected, chosen) => Choice(selected, RewriteValue(f, chosen))
  }

  /** Everything but the URLs. */
  function Shape(message: Message): Message { Rewrite(_ => "", message) }

  function ShapeOf(value: Value): Value { RewriteValue(_ => "", value) }

  function PropUrls(props: seq<Prop>): seq<seq<string>> {
    seq(|props|, i requires 0 <= i < |props| => UrlsOf(props[i].value))
  }

  function MessageUrls(messages: seq<Message>): seq<seq<string>> {
    seq(|messages|, i requires 0 <= i < |messages| => Urls(messages[i]))
  }

  function RowUrls(rows: seq<Row>): seq<seq<string>> {
    seq(|rows|, i requires 0 <= i < |rows| => Urls(rows[i].message))
  }

  lemma UrlsInParts(props: seq<Prop>, messages: seq<Message>, rows: seq<Row>)
    ensures Urls(Plain(props)) == Concat(PropUrls(props))
    ensures UrlsOf(Many(messages)) == Concat(MessageUrls(messages))
    ensures UrlsOf(Table(rows)) == Concat(RowUrls(rows))
  {
    assert PropUrls(props) == seq(|props|, i requires 0 <= i < |props| => UrlsOf(props[i].value));
    assert MessageUrls(messages) == seq(|messages|, i requires 0 <= i < |messages| => Urls(messages[i]));
    assert RowUrls(rows) == seq(|rows|, i requires 0 <= i < |rows| => Urls(rows[i].message));
  }

  lemma {:induction false} ConcatDiffers(a: seq<seq<string>>, b: seq<seq<string>>)
    requires |a| == |b| && forall i :: 0 <= i < |a| ==> |a[i]| == |b[i]|
    ensures |Concat(a)| == |Concat(b)|
    ensures Concat(a) == Concat(b) <==> a == b
  {
    if a != [] {
      ConcatDiffers(a[1..], b[1..]);
      var x, y := Concat(a), Concat(b);
      assert x[..|a[0]|] == a[0] && x[|a[0]|..] == Concat(a[1..]);
      assert y[..|b[0]|] == b[0] && y[|b[0]|..] == Concat(b[1..]);
      assert a == [a[0]] + a[1..] && b == [b[0]] + b[1..];
    }
  }

  /** Changed exactly when some URL is different, with everything else as it was. */
  ghost predicate Tells(message: Message, outcome: Outcome<Message>) {
    outcome.Done? ==>
      && |Urls(outcome.value)| == |Urls(message)|
      && (outcome.changed <==> Urls(outcome.value) != Urls(message))
      && (!outcome.changed ==> outcome.value == message)
      && Shape(outcome.value) == Shape(message)
  }

  ghost predicate TellsOf(value: Value, outcome: Outcome<Value>) {
    outcome.Done? ==>
      && |UrlsOf(outcome.value)| == |UrlsOf(value)|
      && (outcome.changed <==> UrlsOf(outcome.value) != UrlsOf(value))
      && (!outcome.changed ==> outcome.value == value)
      && ShapeOf(outcome.value) == ShapeOf(value)
  }

  ghost predicate TellsProp(prop: Prop, outcome: Outcome<Prop>) {
    outcome.Done? ==>
      && outcome.value.name == prop.name
      && TellsOf(prop.value, Done(outcome.changed, outcome.value.value))
  }

  /** Restoring reports a change exactly when some type URL changed, and changes nothing else. */
  lemma {:induction false} RestoreTells(types: Types, name: string, message: Message, json: Json)
    ensures Tells(message, Restore(types, name, message, json))
    decreases message, 1
  {
    if json.Object? {
      if name == ANY {
        RestoreAnyTells(types, message, json.entries);
      } else if name !in DYNAMIC && message.Plain? {
        var props := message.props;
        var fields := Fields(types, name);
        var outcomes := seq(|props|, i requires 0 <= i < |props| => RestoreProp(types, fields, props[i], json.entries));
        forall i | 0 <= i < |props| ensures TellsProp(props[i], outcomes[i]) {
          RestorePropTells(types, fields, props[i], json.entries);
        }
        PropsTell(props, outcomes);
      }
    }
  }

  lemma PropsTell(props: seq<Prop>, outcomes: seq<Outcome<Prop>>)
    requires |outcomes| == |props| && forall i :: 0 <= i < |props| ==> TellsProp(props[i], outcomes[i])
    ensures Tells(Plain(props), Wrap(Gather(outcomes), ps => Plain(ps)))
  {
    var all := Gather(outcomes);
    if all.Done? {
      UrlsInParts(props, [], []);
      UrlsInParts(all.value, [], []);
      ConcatDiffers(PropUrls(props), PropUrls(all.value));
      if all.changed {
        var i :| 0 <= i < |outcomes| && outcomes[i].changed;
        assert PropUrls(props)[i] != PropUrls(all.value)[i];
      } else {
        assert all.value == props;
      }
      assert Shape(Plain(props)).props == Shape(Plain(all.value)).props;
    }
  }

  lemma {:induction false} RestoreAnyTells(types: Types, message: Message, entries: seq<Entry>)
    ensures Tells(message, RestoreAny(types, message, entries))
    decreases message, 0
  {
    hide Restore, Rewrite, TypeName;
    var url := Get(entries, "@type");
    if message.Any? && url.Some? && url.value.Str? {
      var typeName := TypeName(url.value.text);
      var payload := FromBinary(typeName, message.value);
      UrlTells(message, url.value.text);
      if typeName in types.registered && payload.Some? {
        var json := if typeName in CUSTOM then Get(entries, "value") else Some(Object(entries));
        if json.Some? {
          RestoreTells(types, typeName, payload.value, json.value);
          PayloadTells(message, url.value.text, payload.value, Restore(types, typeName, payload.value, json.value));
        }
      }
    }
  }

  lemma UrlTells(message: Message, url: string)
    requires message.Any?
    ensures Tells(message, Done(message.url != url, message.(url := url)))
  {
    var was, now := Urls(message), Urls(message.(url := url));
    assert was[0] == message.url && now[0] == url && was[1..] == now[1..];
  }

  /** A repacked payload differs when its URLs do, whatever happened to the URL around it. */
  lemma PayloadTells(message: Message, url: string, payload: Message, outcome: Outcome<Message>)
    requires message.Any? && message.value.Encoding? && message.value.payload == payload && Tells(payload, outcome)
    ensures outcome.Done? ==>
      var value := if outcome.changed then ToBinary(message.value.typeName, outcome.value) else message.value;
      Tells(message, Done(message.url != url || outcome.changed, Any(url, value)))
  {
    hide Restore, RestoreAny;
    if outcome.Done? {
      var was, now := [message.url] + Urls(payload), [url] + Urls(outcome.value);
      assert was[0] == message.url && was[1..] == Urls(payload);
      assert now[0] == url && now[1..] == Urls(outcome.value);
    }
  }

  lemma {:induction false} RestorePropTells(types: Types, fields: seq<Field>, prop: Prop, entries: seq<Entry>)
    ensures TellsProp(prop, RestoreProp(types, fields, prop, entries))
    decreases prop
  {
    var field := Reader(fields, prop);
    if field.Some? && Source(entries, field.value).Some? {
      var json := Source(entries, field.value).value;
      RestoreValueTells(types, field.value.kind, if prop.value.Choice? then prop.value.chosen else prop.value, json);
    }
  }

  lemma {:induction false} RestoreValueTells(types: Types, kind: Kind, value: Value, json: Json)
    ensures TellsOf(value, RestoreValue(types, kind, value, json))
    decreases value
  {
    match (kind, value)
    case (MessageKind(name), One(message)) => RestoreTells(types, name, message, json);
    case (ListKind(name), Many(messages)) =>
      if json.Array? {
        var outcomes := seq(|messages|, i requires 0 <= i < |messages| =>
          RestoreItem(types, name, messages[i], json.items, i));
        forall i | 0 <= i < |messages| ensures Tells(messages[i], outcomes[i]) {
          if i < |json.items| { RestoreTells(types, name, messages[i], json.items[i]); }
        }
        MessagesTell(messages, outcomes);
      }
    case (MapKind(name), Table(rows)) =>
      if json.Array? || json.Object? {
        var outcomes := seq(|rows|, i requires 0 <= i < |rows| => RestoreRow(types, name, rows[i], Entries(json)));
        forall i | 0 <= i < |rows| ensures TellsRow(rows[i], outcomes[i]) {
          var item := Get(Entries(json), rows[i].key);
          if item.Some? { RestoreTells(types, name, rows[i].message, item.value); }
        }
        RowsTell(rows, outcomes);
      }
    case _ =>
  }

  lemma MessagesTell(messages: seq<Message>, outcomes: seq<Outcome<Message>>)
    requires |outcomes| == |messages| && forall i :: 0 <= i < |messages| ==> Tells(messages[i], outcomes[i])
    ensures TellsOf(Many(messages), Wrap(Gather(outcomes), ms => Many(ms)))
  {
    var all := Gather(outcomes);
    if all.Done? {
      UrlsInParts([], messages, []);
      UrlsInParts([], all.value, []);
      ConcatDiffers(MessageUrls(messages), MessageUrls(all.value));
      if all.changed {
        var i :| 0 <= i < |outcomes| && outcomes[i].changed;
        assert MessageUrls(messages)[i] != MessageUrls(all.value)[i];
      } else {
        assert all.value == messages;
      }
      assert ShapeOf(Many(messages)).messages == ShapeOf(Many(all.value)).messages;
    }
  }

  ghost predicate TellsRow(row: Row, outcome: Outcome<Row>) {
    outcome.Done? ==> outcome.value.key == row.key && Tells(row.message, Done(outcome.changed, outcome.value.message))
  }

  lemma RowsTell(rows: seq<Row>, outcomes: seq<Outcome<Row>>)
    requires |outcomes| == |rows| && forall i :: 0 <= i < |rows| ==> TellsRow(rows[i], outcomes[i])
    ensures TellsOf(Table(rows), Wrap(Gather(outcomes), rs => Table(rs)))
  {
    var all := Gather(outcomes);
    if all.Done? {
      UrlsInParts([], [], rows);
      UrlsInParts([], [], all.value);
      ConcatDiffers(RowUrls(rows), RowUrls(all.value));
      if all.changed {
        var i :| 0 <= i < |outcomes| && outcomes[i].changed;
        assert RowUrls(rows)[i] != RowUrls(all.value)[i];
      } else {
        assert all.value == rows;
      }
      assert ShapeOf(Table(rows)).rows == ShapeOf(Table(all.value)).rows;
    }
  }

  // ----- What restoring one Any and one property does -----

  /** The URL always becomes the one in the JSON, also of a type the registry does not know. */
  lemma UrlComesFromJson(types: Types, message: Message, entries: seq<Entry>)
    requires message.Any?
    ensures var r, url := RestoreAny(types, message, entries), Get(entries, "@type");
            && (url.None? || !url.value.Str? ==> r == Done(false, message))
            && (url.Some? && url.value.Str? && r.Done? ==> r.value.Any? && r.value.url == url.value.text)
            && (url.Some? && url.value.Str? && TypeName(url.value.text) !in types.registered
                ==> r == Done(message.url != url.value.text, Any(url.value.text, message.value)))
            && (r.Threw? ==> url.Some? && url.value.Str? && TypeName(url.value.text) in types.registered)
            && ((url.Some? && url.value.Str? && TypeName(url.value.text) in types.registered &&
                 (message.value.Raw? || message.value.typeName != TypeName(url.value.text))) ==> r.Threw?)
  {
    hide Restore, TypeName, Get;
  }

  /** A message throws exactly when one of its properties does. */
  lemma ThrowsByParts(types: Types, name: string, props: seq<Prop>, entries: seq<Entry>)
    requires name != "google.protobuf.Any" && name !in DYNAMIC
    ensures Restore(types, name, Plain(props), Object(entries)).Threw? <==>
              exists i :: 0 <= i < |props| && RestoreProp(types, Fields(types, name), props[i], entries).Threw?
  {
    hide RestoreProp, Fields;
    var outcomes := seq(|props|, i requires 0 <= i < |props| => RestoreProp(types, Fields(types, name), props[i], entries));
    assert Restore(types, name, Plain(props), Object(entries)) == Wrap(Gather(outcomes), ps => Plain(ps));
    assert forall i :: 0 <= i < |props| ==> outcomes[i] == RestoreProp(types, Fields(types, name), props[i], entries);
  }

  /** JSON under the declared name of a field restores the same as under its JSON name. */
  lemma DeclaredNameRestores(types: Types, fields: seq<Field>, prop: Prop, byJsonName: seq<Entry>, byName: seq<Entry>, json: Json)
    requires Reader(fields, prop).Some? && json != Null
    requires Get(byJsonName, Reader(fields, prop).value.jsonName) == Some(json)
    requires Get(byName, Reader(fields, prop).value.jsonName) in {None, Some(Null)}
    requires Get(byName, Reader(fields, prop).value.name) == Some(json)
    ensures RestoreProp(types, fields, prop, byName) == RestoreProp(types, fields, prop, byJsonName)
  {
    hide RestoreValue, Reader, Get;
  }
}
