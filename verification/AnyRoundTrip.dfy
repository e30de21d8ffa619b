/** Encoding to JSON, decoding with rewritten URLs and restoring gives the original message back. */
module AnyRoundTrip {
  import opened Options
  import opened AnyUrls

  // ----- The types Proto JSON writes in a form of their own -----

  predicate Wrapper(name: string) {
    || name == "google.protobuf.BoolValue" || name == "google.protobuf.StringValue" || name == "google.protobuf.BytesValue"
    || name == "google.protobuf.Int32Value" || name == "google.protobuf.UInt32Value"
    || name == "google.protobuf.Int64Value" || name == "google.protobuf.UInt64Value"
    || name == "google.protobuf.FloatValue" || name == "google.protobuf.DoubleValue"
  }

  predicate Textual(name: string) {
    name == "google.protobuf.Timestamp" || name == "google.protobuf.Duration" || name == "google.protobuf.FieldMask"
  }

  /** Any JSON can stand for these. */
  predicate AnyJson(name: string) {
    name == "google.protobuf.Struct" || name == "google.protobuf.Value" || name == "google.protobuf.ListValue"
  }

  predicate OwnJson(name: string) {
    Wrapper(name) || Textual(name) || AnyJson(name) || name == "google.protobuf.Any"
  }

  /**
   * The messages JSON can carry: packed payloads have registered types and the encoder's own bytes,
   * an Any without a URL is empty, and properties are those the descriptor declares.
   */
  ghost predicate Encodable(types: Types, name: string, message: Message)
    decreases message
  {
    match message
    case Any(url, value) =>
      && name == "google.protobuf.Any"
      && if url == "" then value == Raw("")
         else
           && value.Encoding? && NamesType(url, value.typeName) && value.form == 0
           && value.typeName in types.registered && Encodable(types, value.typeName, value.payload)
    case Leaf(json) =>
      OwnJson(name) && name != "google.protobuf.Any" && (AnyJson(name) || json.Str? || json.Atom?)
    case Plain(props) =>
      && name in types.messages && !OwnJson(name)
      && (forall i, j :: 0 <= i < j < |props| ==> props[i].name != props[j].name)
      && forall i :: 0 <= i < |props| ==>
           var field := Reader(types.messages[name], props[i]);
           field.Some? && EncodableValue(types, field.value.kind, props[i].value)
  }

  ghost predicate EncodableValue(types: Types, kind: Kind, value: Value)
    decreases value
  {
    match value
    case Scalar(_) => kind.OtherKind?
    case One(message) => kind.MessageKind? && Encodable(types, kind.message, message)
    case Many(messages) =>
      kind.ListKind? && forall i :: 0 <= i < |messages| ==> Encodable(types, kind.message, messages[i])
    case Table(rows) =>
      && kind.MapKind?
      && (forall i, j :: 0 <= i < j < |rows| ==> rows[i].key != rows[j].key)
      && forall i :: 0 <= i < |rows| ==> Encodable(types, kind.message, rows[i].message)
    case Choice(_, chosen) => (chosen.Scalar? || chosen.One?) && EncodableValue(types, kind, chosen)
  }

  // ----- Proto JSON -----

  /** The listed types are exactly those. */
  lemma CustomIsOwnJson(name: string)
    ensures name in CUSTOM <==> OwnJson(name)
    ensures name in DYNAMIC <==> AnyJson(name)
  {
  }

  function Present<T>(parts: seq<Option<T>>): seq<T> {
    if parts == [] then []
    else (if parts[0].Some? then [parts[0].value] else []) + Present(parts[1..])
  }

  /** A packed payload is merged with its type key, or put under a value key when its JSON is its own. */
  function Encode(types: Types, name: string, message: Message): Json
    decreases message
  {
    match message
    case Any(url, Raw(_)) => Object([])
    case Any(url, Encoding(typeName, payload, _)) =>
      var json := Encode(types, typeName, payload);
      if OwnJson(typeName) || !json.Object? then Object([Entry("value", json), Entry("@type", Str(url))])
      else Object(json.entries + [Entry("@type", Str(url))])
    case Leaf(json) => json
    case Plain(props) =>
      Object(Present(seq(|props|, i requires 0 <= i < |props| => EncodeProp(types, Fields(types, name), props[i]))))
  }

  /** Empty lists and maps are left out. */
  function EncodeProp(types: Types, fields: seq<Field>, prop: Prop): Option<Entry>
    decreases prop
  {
    match Reader(fields, prop)
    case None => None
    case Some(field) =>
      if Omitted(prop.value) then None
      else Some(Entry(field.jsonName, EncodeValue(types, field.kind, prop.value)))
  }

  predicate Omitted(value: Value) { value == Many([]) || value == Table([]) }

  function EncodeValue(types: Types, kind: Kind, value: Value): Json
    decreases value
  {
    match (kind, value)
    case (MessageKind(name), One(message)) => Encode(types, name, message)
    case (ListKind(name), Many(messages)) =>
      Array(seq(|messages|, i requires 0 <= i < |messages| => Encode(types, name, messages[i])))
    case (MapKind(name), Table(rows)) =>
      Object(seq(|rows|, i requires 0 <= i < |rows| => Entry(rows[i].key, Encode(types, name, rows[i].message))))
    case (_, Choice(_, chosen)) => EncodeValue(types, kind, chosen)
    case (_, Scalar(scalar)) => Atom(scalar)
    case _ => Null
  }

  // ----- Looking up what was encoded -----

  lemma {:induction false} GetAppended(a: seq<Entry>, b: seq<Entry>, key: string)
    ensures Get(a + b, key) == if Get(a, key).Some? then Get(a, key) else Get(b, key)
  {
    if a == [] {
      assert a + b == b;
    } else {
      assert (a + b)[1..] == a[1..] + b;
      GetAppended(a[1..], b, key);
    }
  }

  ghost predicate Keyed(parts: seq<Option<Entry>>, keys: seq<string>) {
    && |parts| == |keys|
    && (forall i :: 0 <= i < |parts| && parts[i].Some? ==> parts[i].value.key == keys[i])
    && (forall i, j :: 0 <= i < j < |keys| ==> keys[i] != keys[j])
  }

  lemma {:induction false} GetPresent(parts: seq<Option<Entry>>, keys: seq<string>, i: nat)
    requires Keyed(parts, keys) && i < |parts|
    ensures Get(Present(parts), keys[i]) == if parts[i].Some? then Some(parts[i].value.value) else None
  {
    var head := if parts[0].Some? then [parts[0].value] else [];
    assert Present(parts) == head + Present(parts[1..]);
    GetAppended(head, Present(parts[1..]), keys[i]);
    assert Get([], keys[i]) == None;
    if i > 0 {
      GetPresent(parts[1..], keys[1..], i - 1);
    } else {
      AbsentKey(parts[1..], keys[1..], keys[0]);
    }
  }

  lemma {:induction false} AbsentKey(parts: seq<Option<Entry>>, keys: seq<string>, key: string)
    requires Keyed(parts, keys) && key !in keys
    ensures Get(Present(parts), key) == None
  {
    if parts != [] {
      var head := if parts[0].Some? then [parts[0].value] else [];
      AbsentKey(parts[1..], keys[1..], key);
      GetAppended(head, Present(parts[1..]), key);
      assert Get([], key) == None;
      assert keys[0] in keys;
    }
  }

  /** Where the JSON of a property stands among the entries of its message. */
  ghost predicate Fed(types: Types, fields: seq<Field>, prop: Prop, entries: seq<Entry>) {
    var field := Reader(fields, prop);
    field.Some? && (Omitted(prop.value) || Get(entries, field.value.jsonName) == Some(EncodeValue(types, field.value.kind, prop.value)))
  }

  function JsonNames(fields: seq<Field>, props: seq<Prop>): seq<string>
    requires forall i :: 0 <= i < |props| ==> Reader(fields, props[i]).Some?
  {
    seq(|props|, i requires 0 <= i < |props| => Reader(fields, props[i]).value.jsonName)
  }

  function Parts(types: Types, fields: seq<Field>, props: seq<Prop>): seq<Option<Entry>> {
    seq(|props|, i requires 0 <= i < |props| => EncodeProp(types, fields, props[i]))
  }

  lemma DifferentReaders(types: Types, name: string, props: seq<Prop>, i: nat, j: nat)
    requires WellFormed(types) && Encodable(types, name, Plain(props)) && i < j < |props|
    ensures Reader(types.messages[name], props[i]).value.jsonName != Reader(types.messages[name], props[j]).value.jsonName
  {
    var fields := types.messages[name];
    var a :| 0 <= a < |fields| && fields[a] == Reader(fields, props[i]).value;
    var b :| 0 <= b < |fields| && fields[b] == Reader(fields, props[j]).value;
    assert Reads(fields[a], props[i]) && Reads(fields[b], props[j]);
    assert props[i].name != props[j].name;
    if a < b { assert DistinctFields(fields[a], fields[b]); } else { assert DistinctFields(fields[b], fields[a]); }
  }

  /** Properties of one message have different fields, hence different JSON names. */
  lemma PartsKeyed(types: Types, name: string, props: seq<Prop>)
    requires WellFormed(types) && Encodable(types, name, Plain(props))
    ensures Keyed(Parts(types, types.messages[name], props), JsonNames(types.messages[name], props))
    ensures "@type" !in JsonNames(types.messages[name], props)
  {
    var fields := types.messages[name];
    forall i, j | 0 <= i < j < |props|
      ensures Reader(fields, props[i]).value.jsonName != Reader(fields, props[j]).value.jsonName
    {
      DifferentReaders(types, name, props, i, j);
    }
  }

  /** The JSON given to restore: the encoding, with the type key added to a payload's own entries. */
  ghost predicate Given(types: Types, name: string, message: Message, json: Json) {
    || json == Encode(types, name, message)
    || (message.Plain? && json.Object? && json.entries != []
        && json.entries[|json.entries| - 1].key == "@type"
        && Object(json.entries[..|json.entries| - 1]) == Encode(types, name, message))
  }

  lemma EncodedParts(types: Types, name: string, props: seq<Prop>)
    requires name in types.messages
    ensures Encode(types, name, Plain(props)) == Object(Present(Parts(types, types.messages[name], props)))
  {
    assert Parts(types, types.messages[name], props)
        == seq(|props|, i requires 0 <= i < |props| => EncodeProp(types, Fields(types, name), props[i]));
  }

  lemma EntriesFeed(types: Types, name: string, props: seq<Prop>, json: Json, i: nat)
    requires WellFormed(types) && Encodable(types, name, Plain(props)) && Given(types, name, Plain(props), json)
    requires i < |props|
    ensures json.Object? && Fed(types, types.messages[name], props[i], json.entries)
  {
    hide Encode, WellFormed, Keyed, Present, Reader;
    var fields := types.messages[name];
    var parts, names := Parts(types, fields, props), JsonNames(fields, props);
    PartsKeyed(types, name, props);
    EncodedParts(types, name, props);
    GetPresent(parts, names, i);
    if json != Object(Present(parts)) {
      var last := json.entries[|json.entries| - 1];
      assert json.entries == Present(parts) + [last];
      GetAppended(Present(parts), [last], names[i]);
    }
  }

  lemma {:induction false} ReaderIgnoresUrls(f: string -> string, fields: seq<Field>, prop: Prop)
    ensures Reader(fields, Prop(prop.name, RewriteValue(f, prop.value))) == Reader(fields, prop)
  {
    if fields != [] {
      ReaderIgnoresUrls(f, fields[1..], prop);
    }
  }

  // ----- The round trip -----

  /** `r` is the original again. */
  ghost predicate Back<T(!new)>(r: Outcome<T>, original: T) {
    r.Done? && r.value == original
  }

  lemma {:induction false} RestoresMessage(types: Types, f: string -> string, name: string, message: Message, json: Json)
    requires WellFormed(types) && Encodable(types, name, message) && Given(types, name, message, json) && f("") == ""
    ensures Back(Restore(types, name, Rewrite(f, message), json), message)
    decreases message, 2
  {
    match message
    case Any(url, value) => RestoresAny(types, f, message, json);
    case Leaf(_) => CustomIsOwnJson(name);
    case Plain(_) => RestoresProps(types, f, name, message, json);
  }

  lemma {:induction false} RestoresProps(types: Types, f: string -> string, name: string, message: Message, json: Json)
    requires WellFormed(types) && Encodable(types, name, message) && Given(types, name, message, json) && f("") == ""
    requires message.Plain?
    ensures Back(Restore(types, name, Rewrite(f, message), json), message)
    decreases message, 1
  {
    hide RestoreProp, WellFormed, Given, Reader, Encode;
    var props := message.props;
    GivenObject(types, name, props, json);
    CustomIsOwnJson(name);
    var fields := types.messages[name];
    var rewritten := Rewrite(f, message).props;
    var outcomes := seq(|props|, i requires 0 <= i < |props| => RestoreProp(types, fields, rewritten[i], json.entries));
    forall i | 0 <= i < |props| ensures Back(outcomes[i], props[i]) {
      EntriesFeed(types, name, props, json, i);
      RestoresProp(types, f, fields, props[i], json.entries);
    }
    assert Gather(outcomes).Done? && Gather(outcomes).value == props;
    assert outcomes == seq(|rewritten|, i requires 0 <= i < |rewritten| =>
      RestoreProp(types, Fields(types, name), rewritten[i], json.entries));
  }

  /** The URL comes from the JSON, and the payload is re-encoded exactly when it was rewritten. */
  lemma AnyRestored(types: Types, url': string, rewritten: Message, url: string, payload: Message,
                    entries: seq<Entry>, inner: Json)
    requires Get(entries, "@type") == Some(Str(url)) && TypeName(url) in types.registered
    requires (if TypeName(url) in CUSTOM then Get(entries, "value") else Some(Object(entries))) == Some(inner)
    requires Back(Restore(types, TypeName(url), rewritten, inner), payload)
    requires !Restore(types, TypeName(url), rewritten, inner).changed ==> payload == rewritten
    ensures Back(RestoreAny(types, Any(url', ToBinary(TypeName(url), rewritten)), entries),
                 Any(url, ToBinary(TypeName(url), payload)))
  {
    hide Restore, TypeName, Get;
  }

  /** Where restoring finds the URL and the JSON of the payload. */
  lemma EncodedAny(types: Types, message: Message)
    requires WellFormed(types) && message.Any? && Encodable(types, ANY, message) && message.url != ""
    ensures var typeName, payload, json := message.value.typeName, message.value.payload, Encode(types, ANY, message);
            && json.Object? && Get(json.entries, "@type") == Some(Str(message.url))
            && (typeName in CUSTOM ==> Get(json.entries, "value") == Some(Encode(types, typeName, payload)))
            && (typeName !in CUSTOM ==> Given(types, typeName, payload, json))
  {
    hide WellFormed, TypeName, OwnJson;
    var typeName, payload := message.value.typeName, message.value.payload;
    CustomIsOwnJson(typeName);
    CustomIsOwnJson(ANY);
    if typeName !in CUSTOM {
      PlainUnlessOwn(types, typeName, payload);
      var inner, json := Encode(types, typeName, payload), Encode(types, ANY, message);
      assert json.entries[..|json.entries| - 1] == inner.entries;
      TypeKey(types, typeName, payload.props, Entry("@type", Str(message.url)));
    }
  }

  lemma PlainUnlessOwn(types: Types, name: string, message: Message)
    requires Encodable(types, name, message) && !OwnJson(name)
    ensures message.Plain? && Encode(types, name, message).Object?
  {
  }

  lemma {:induction false} RestoresAny(types: Types, f: string -> string, message: Message, json: Json)
    requires WellFormed(types) && message.Any? && Encodable(types, ANY, message) && f("") == ""
    requires json == Encode(types, ANY, message)
    ensures Back(Restore(types, ANY, Rewrite(f, message), json), message)
    decreases message, 1
  {
    if message.url != "" {
      RestoresPacked(types, f, message, json);
    }
  }

  lemma {:induction false} RestoresPacked(types: Types, f: string -> string, message: Message, json: Json)
    requires WellFormed(types) && message.Any? && Encodable(types, ANY, message) && f("") == "" && message.url != ""
    requires json == Encode(types, ANY, message)
    ensures json.Object? && Back(RestoreAny(types, Rewrite(f, message), json.entries), message)
    decreases message, 0
  {
    hide Restore, RestoreAny, Encode, Given, TypeName, WellFormed, Urls, Shape, Get, OwnJson, NamesType;
    EncodedAny(types, message);
    NamedTypeIsFound(message.url, message.value.typeName);
    var typeName, payload := message.value.typeName, message.value.payload;
    var rewritten := Rewrite(f, payload);
    var inner := if typeName in CUSTOM then Encode(types, typeName, payload) else json;
    GivenItself(types, typeName, payload);
    RestoresMessage(types, f, typeName, payload, inner);
    RestoreTells(types, typeName, rewritten, inner);
    AnyRestored(types, f(message.url), rewritten, message.url, payload, json.entries, inner);
  }

  lemma GivenObject(types: Types, name: string, props: seq<Prop>, json: Json)
    requires Given(types, name, Plain(props), json)
    ensures json.Object?
  {
  }

  lemma GivenItself(types: Types, name: string, message: Message)
    ensures Given(types, name, message, Encode(types, name, message))
  {
  }

  lemma TypeKey(types: Types, name: string, props: seq<Prop>, last: Entry)
    requires WellFormed(types) && Encodable(types, name, Plain(props)) && last.key == "@type"
    ensures Get(Encode(types, name, Plain(props)).entries + [last], "@type") == Some(last.value)
  {
    var fields := types.messages[name];
    var parts := Parts(types, fields, props);
    PartsKeyed(types, name, props);
    AbsentKey(parts, JsonNames(fields, props), "@type");
    EncodedParts(types, name, props);
    GetAppended(Present(parts), [last], "@type");
  }

  lemma {:induction false} RestoresProp(types: Types, f: string -> string, fields: seq<Field>, prop: Prop, entries: seq<Entry>)
    requires WellFormed(types) && f("") == "" && Fed(types, fields, prop, entries)
    requires EncodableValue(types, Reader(fields, prop).value.kind, prop.value)
    ensures Back(RestoreProp(types, fields, Prop(prop.name, RewriteValue(f, prop.value)), entries), prop)
    decreases prop
  {
    ReaderIgnoresUrls(f, fields, prop);
    var kind := Reader(fields, prop).value.kind;
    var json := Source(entries, Reader(fields, prop).value);
    var value := if prop.value.Choice? then prop.value.chosen else prop.value;
    if Omitted(prop.value) {
      assert RewriteValue(f, prop.value) == prop.value;
      if json.Some? { StaysEmpty(types, kind, prop.value, json.value); }
    } else if EncodeValue(types, kind, value) == Null {
      NullIsDynamic(types, kind, value, if json.Some? then json.value else Null);
    } else {
      RestoresValue(types, f, kind, value);
    }
  }

  /** A field left out of the JSON may be handed another field's JSON, which cannot matter. */
  lemma StaysEmpty(types: Types, kind: Kind, value: Value, json: Json)
    requires Omitted(value)
    ensures RestoreValue(types, kind, value, json) == Done(false, value)
  {
    GatherNone<Message>();
    GatherNone<Row>();
  }

  lemma GatherNone<T(!new)>()
    ensures forall outcomes: seq<Outcome<T>> :: outcomes == [] ==> Gather(outcomes) == Done(false, [])
  {
    forall outcomes: seq<Outcome<T>> | outcomes == [] ensures Gather(outcomes) == Done(false, []) {
      assert Gather(outcomes).value == [];
    }
  }

  /** A field whose JSON is null may be handed another field's JSON: its type is never descended into. */
  lemma NullIsDynamic(types: Types, kind: Kind, value: Value, json: Json)
    requires EncodableValue(types, kind, value) && EncodeValue(types, kind, value) == Null && !value.Choice?
    ensures value.One? && value.message.Leaf?
    ensures RestoreValue(types, kind, value, json) == Done(false, value)
  {
  }

  lemma {:induction false} RestoresValue(types: Types, f: string -> string, kind: Kind, value: Value)
    requires !value.Choice? && WellFormed(types) && EncodableValue(types, kind, value) && f("") == ""
    ensures Back(RestoreValue(types, kind, RewriteValue(f, value), EncodeValue(types, kind, value)), value)
    decreases value
  {
    var json := EncodeValue(types, kind, value);
    match value
    case One(message) => RestoresMessage(types, f, kind.message, message, json);
    case Many(messages) =>
      var rewritten := RewriteValue(f, value).messages;
      var outcomes := seq(|rewritten|, i requires 0 <= i < |rewritten| =>
        RestoreItem(types, kind.message, rewritten[i], json.items, i));
      forall i | 0 <= i < |messages| ensures Back(outcomes[i], messages[i]) {
        RestoresMessage(types, f, kind.message, messages[i], json.items[i]);
      }
      assert Gather(outcomes).Done? && Gather(outcomes).value == messages;
    case Table(rows) => RestoresRows(types, f, kind, rows);
    case _ =>
  }

  /** Rows that all come back make the table come back. */
  lemma TableBack(types: Types, name: string, rewritten: seq<Row>, rows: seq<Row>, entries: seq<Entry>)
    requires |rewritten| == |rows|
    requires forall i :: 0 <= i < |rows| ==> Back(RestoreRow(types, name, rewritten[i], entries), rows[i])
    ensures Back(RestoreValue(types, MapKind(name), Table(rewritten), Object(entries)), Table(rows))
  {
    hide RestoreRow;
    var outcomes := seq(|rewritten|, i requires 0 <= i < |rewritten| =>
      RestoreRow(types, name, rewritten[i], Entries(Object(entries))));
    forall i | 0 <= i < |rows| ensures Back(outcomes[i], rows[i]) {
      assert Back(RestoreRow(types, name, rewritten[i], entries), rows[i]);
    }
    assert Gather(outcomes).value == rows;
  }

  lemma {:induction false} RestoresRows(types: Types, f: string -> string, kind: Kind, rows: seq<Row>)
    requires WellFormed(types) && EncodableValue(types, kind, Table(rows)) && f("") == ""
    ensures Back(RestoreValue(types, kind, RewriteValue(f, Table(rows)), EncodeValue(types, kind, Table(rows))), Table(rows))
    decreases rows
  {
    hide RestoreValue, RestoreRow, WellFormed, Encodable, Encode, Rewrite, Back;
    var entries := EncodeValue(types, kind, Table(rows)).entries;
    var rewritten := RewriteValue(f, Table(rows)).rows;
    forall i | 0 <= i < |rows| ensures Back(RestoreRow(types, kind.message, rewritten[i], entries), rows[i]) {
      RestoresRow(types, f, kind.message, rows[i], entries, i);
    }
    TableBack(types, kind.message, rewritten, rows, entries);
  }

  lemma {:induction false} RestoresRow(types: Types, f: string -> string, name: string, row: Row, entries: seq<Entry>, i: nat)
    requires WellFormed(types) && Encodable(types, name, row.message) && f("") == "" && DistinctKeys(entries)
    requires i < |entries| && entries[i] == Entry(row.key, Encode(types, name, row.message))
    ensures Back(RestoreRow(types, name, Row(row.key, Rewrite(f, row.message)), entries), row)
    decreases row
  {
    hide Encode, Encodable, WellFormed, Restore, Rewrite;
    GetDistinct(entries, i);
    GivenItself(types, name, row.message);
    RestoresMessage(types, f, name, row.message, entries[i].value);
  }

  /**
   * Whatever a decoder does to the URLs of a message, restoring from the message's JSON returns the
   * message, and reports a change exactly when the decoder made one.
   */
  lemma {:induction false} RoundTrip(types: Types, f: string -> string, name: string, message: Message, json: Json)
    requires WellFormed(types) && Encodable(types, name, message) && f("") == ""
    requires json == Encode(types, name, message)
    ensures var decoded := Rewrite(f, message);
            Restore(types, name, decoded, json) == Done(decoded != message, message)
  {
    RestoresMessage(types, f, name, message, json);
    RestoreTells(types, name, Rewrite(f, message), json);
  }

  // ----- A packed message inside a packed message -----

  function Packed(prefix: string, typeName: string, payload: Message): Message {
    Any(prefix + "/" + typeName, Encoding(typeName, payload, 0))
  }

  /** A message of one type holds a packed message of the other, in its one field. */
  ghost predicate Nesting(types: Types, outer: string, inner: string, field: Field) {
    && outer != "" && inner != "" && NoSlash(outer) && NoSlash(inner) && !OwnJson(outer) && !OwnJson(inner)
    && {outer, inner} <= types.registered && outer in types.messages && inner in types.messages
    && types.messages[outer] == [field]
    && field.kind == MessageKind("google.protobuf.Any") && field.oneof == None && field.jsonName != "@type"
  }

  function Nested(field: Field, packed: Message): Message {
    Plain([Prop(field.localName, One(packed))])
  }

  lemma PackedNames(prefix: string, typeName: string)
    requires typeName != "" && NoSlash(typeName)
    ensures NamesType(prefix + "/" + typeName, typeName)
  {
    assert (prefix + "/" + typeName)[|prefix|..] == "/" + typeName;
  }

  lemma EmptyPacked(types: Types, prefix: string, inner: string)
    requires inner != "" && NoSlash(inner) && !OwnJson(inner) && inner in types.registered && inner in types.messages
    ensures Encodable(types, "google.protobuf.Any", Packed(prefix, inner, Plain([])))
    ensures Encode(types, "google.protobuf.Any", Packed(prefix, inner, Plain([])))
         == Object([Entry("@type", Str(prefix + "/" + inner))])
  {
    PackedNames(prefix, inner);
    assert Encodable(types, inner, Plain([]));
    assert Encode(types, inner, Plain([])) == Object([]);
    assert [] + [Entry("@type", Str(prefix + "/" + inner))] == [Entry("@type", Str(prefix + "/" + inner))];
  }

  lemma OnePart(types: Types, outer: string, inner: string, field: Field, packed: Message)
    requires Nesting(types, outer, inner, field) && Encodable(types, "google.protobuf.Any", packed)
    ensures Encodable(types, outer, Nested(field, packed))
    ensures Encode(types, outer, Nested(field, packed))
         == Object([Entry(field.jsonName, Encode(types, "google.protobuf.Any", packed))])
  {
    hide Encode;
    var prop := Prop(field.localName, One(packed));
    assert Reads(field, prop) && Reader([field], prop) == Some(field);
    assert EncodableValue(types, field.kind, prop.value);
    assert Encodable(types, outer, Nested(field, packed));
    OneEncoded(types, outer, field, packed);
  }

  lemma OneEncoded(types: Types, outer: string, field: Field, packed: Message)
    requires outer in types.messages && types.messages[outer] == [field] && field.kind == MessageKind("google.protobuf.Any")
    requires Reader([field], Prop(field.localName, One(packed))) == Some(field)
    ensures Encode(types, outer, Nested(field, packed))
         == Object([Entry(field.jsonName, Encode(types, "google.protobuf.Any", packed))])
  {
    hide Reader;
    var prop := Prop(field.localName, One(packed));
    assert EncodeValue(types, field.kind, One(packed)) == Encode(types, "google.protobuf.Any", packed);
    assert !Omitted(prop.value);
    var part := EncodeProp(types, [field], prop);
    assert part == Some(Entry(field.jsonName, Encode(types, "google.protobuf.Any", packed)));
    var parts := seq(1, i requires 0 <= i < 1 => EncodeProp(types, Fields(types, outer), [prop][i]));
    assert parts == [part];
    assert Present([part][1..]) == [] && Present([part]) == [part.value];
  }

  /**
   * The URL of a packed message and that of the message packed inside it are both restored, whatever
   * prefix they have and to whatever a decoder rewrote them.
   */
  lemma NestedRestored(types: Types, outer: string, inner: string, field: Field, prefix: string, wrong: string)
    requires WellFormed(types) && Nesting(types, outer, inner, field) && wrong != prefix + "/" + inner
    ensures var message := Packed(prefix, outer, Nested(field, Packed(prefix, inner, Plain([]))));
            var decoded := Any(wrong, Encoding(outer, Nested(field, Any(wrong, Encoding(inner, Plain([]), 0))), 0));
            var json := Object([Entry(field.jsonName, Object([Entry("@type", Str(prefix + "/" + inner))])),
                                Entry("@type", Str(prefix + "/" + outer))]);
            Restore(types, "google.protobuf.Any", decoded, json) == Done(true, message)
  {
    hide Restore, WellFormed, Encodable, Encode, NamesType;
    var f := (u: string) => if u == "" then "" else wrong;
    var packed := Packed(prefix, inner, Plain([]));
    EmptyPacked(types, prefix, inner);
    OnePart(types, outer, inner, field, packed);
    PackedNested(types, prefix, outer, inner, field, packed);
    var message := Packed(prefix, outer, Nested(field, packed));
    RoundTrip(types, f, "google.protobuf.Any", message, Encode(types, "google.protobuf.Any", message));
    assert Rewrite(f, packed) == Any(wrong, packed.value);
    assert Rewrite(f, Nested(field, packed)) == Nested(field, Any(wrong, packed.value));
    assert Nested(field, packed).props[0] != Nested(field, Any(wrong, packed.value)).props[0];
  }

  lemma PackedNested(types: Types, prefix: string, outer: string, inner: string, field: Field, packed: Message)
    requires Nesting(types, outer, inner, field) && Encodable(types, outer, Nested(field, packed))
    requires Encode(types, outer, Nested(field, packed))
          == Object([Entry(field.jsonName, Encode(types, "google.protobuf.Any", packed))])
    ensures var message := Packed(prefix, outer, Nested(field, packed));
            && Encodable(types, "google.protobuf.Any", message)
            && Encode(types, "google.protobuf.Any", message)
               == Object([Entry(field.jsonName, Encode(types, "google.protobuf.Any", packed)),
                          Entry("@type", Str(prefix + "/" + outer))])
  {
    PackedNames(prefix, outer);
  }
}
