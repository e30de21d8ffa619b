/** The restoring code in its own form: loops over fields, list items and map entries, updating as they go. */
module AnyRestore {
  import opened Options
  import opened AnyUrls
  import IntegerText

  /** Objects have each property once, maps each key once. */
  ghost predicate Tidy(message: Message)
    decreases message
  {
    match message
    case Any(_, Encoding(_, payload, _)) => Tidy(payload)
    case Plain(props) =>
      && (forall i, j :: 0 <= i < j < |props| ==> props[i].name != props[j].name)
      && forall i :: 0 <= i < |props| ==> TidyValue(props[i].value)
    case _ => true
  }

  ghost predicate TidyValue(value: Value)
    decreases value
  {
    match value
    case Scalar(_) => true
    case One(message) => Tidy(message)
    case Many(messages) => forall i :: 0 <= i < |messages| ==> Tidy(messages[i])
    case Table(rows) =>
      && (forall i, j :: 0 <= i < j < |rows| ==> rows[i].key != rows[j].key)
      && forall i :: 0 <= i < |rows| ==> Tidy(rows[i].message)
    case Choice(_, chosen) => TidyValue(chosen)
  }

  /** Parsed JSON has each key of an object once. */
  ghost predicate TidyJson(json: Json)
    decreases json
  {
    match json
    case Array(items) => forall i :: 0 <= i < |items| ==> TidyJson(items[i])
    case Object(entries) => TidyEntries(entries)
    case _ => true
  }

  ghost predicate TidyEntries(entries: seq<Entry>)
    decreases entries
  {
    && DistinctKeys(entries)
    && forall i :: 0 <= i < |entries| ==> TidyJson(entries[i].value)
  }

  lemma {:induction false} GetTidy(entries: seq<Entry>, key: string)
    requires forall i :: 0 <= i < |entries| ==> TidyJson(entries[i].value)
    ensures Get(entries, key).Some? ==> TidyJson(Get(entries, key).value)
  {
    if entries != [] {
      GetTidy(entries[1..], key);
    }
  }

  lemma EntriesTidy(json: Json)
    requires TidyJson(json) && (json.Array? || json.Object?)
    ensures TidyEntries(Entries(json))
  {
    if json.Array? {
      var entries := Entries(json);
      forall i, j | 0 <= i < j < |entries| ensures entries[i].key != entries[j].key {
        IntegerText.PrintIsCanonical(i);
        IntegerText.PrintIsCanonical(j);
      }
    }
  }

  // ----- Prefixes of a loop -----

  lemma {:induction false} ReaderExtended(fields: seq<Field>, field: Field, prop: Prop)
    ensures Reader(fields + [field], prop)
         == if Reader(fields, prop).Some? then Reader(fields, prop) else if Reads(field, prop) then Some(field) else None
  {
    if fields == [] {
      assert fields + [field] == [field];
      assert Reader([field][1..], prop) == None;
    } else {
      assert (fields + [field])[1..] == fields[1..] + [field];
      ReaderExtended(fields[1..], field, prop);
    }
  }

  lemma {:induction false} GetExtended(entries: seq<Entry>, entry: Entry, key: string)
    ensures Get(entries + [entry], key)
         == if Get(entries, key).Some? then Get(entries, key) else if entry.key == key then Some(entry.value) else None
  {
    if entries == [] {
      assert entries + [entry] == [entry];
      assert Get([entry][1..], key) == None;
    } else {
      assert (entries + [entry])[1..] == entries[1..] + [entry];
      GetExtended(entries[1..], entry, key);
    }
  }

  lemma {:induction false} GetFinds(entries: seq<Entry>, key: string)
    ensures Get(entries, key).Some? <==> exists i :: 0 <= i < |entries| && entries[i].key == key
  {
    if entries != [] {
      GetFinds(entries[1..], key);
      if i :| 0 <= i < |entries| && entries[i].key == key {
        if i > 0 { assert entries[1..][i - 1].key == key; }
      }
      if i :| 0 <= i < |entries[1..]| && entries[1..][i].key == key {
        assert entries[i + 1].key == key;
      }
    }
  }

  // ----- The loops -----

  /** The property a field reads: its own, or its oneof's when the field is the selected case. */
  method Selected(field: Field, props: seq<Prop>) returns (at: Option<nat>)
    ensures at.Some? ==> at.value < |props| && Reads(field, props[at.value])
    ensures at.None? ==> forall k :: 0 <= k < |props| ==> !Reads(field, props[k])
  {
    for k := 0 to |props|
      invariant forall j :: 0 <= j < k ==> !Reads(field, props[j])
    {
      if Reads(field, props[k]) { return Some(k); }
    }
    return None;
  }

  /** What the loop over fields has made of the properties. */
  ghost predicate Progress(types: Types, fields: seq<Field>, original: seq<Prop>, entries: seq<Entry>,
                           props: seq<Prop>, changed: bool) {
    && |props| == |original|
    && (forall k :: 0 <= k < |props| ==>
          Becomes(RestoreProp(types, fields, original[k], entries), props[k]))
    && (changed <==> exists k :: 0 <= k < |props| && RestoreProp(types, fields, original[k], entries).changed)
  }

  ghost predicate Becomes<T(!new)>(outcome: Outcome<T>, value: T) {
    outcome.Done? && outcome.value == value
  }

  lemma ValueKeepsForm(types: Types, kind: Kind, value: Value, json: Json)
    ensures var outcome := RestoreValue(types, kind, value, json);
            outcome.Done? ==>
              && (outcome.value.Choice? <==> value.Choice?)
              && (value.Choice? ==> outcome.value.selected == value.selected)
  {
  }

  lemma PropKeepsForm(types: Types, fields: seq<Field>, prop: Prop, entries: seq<Entry>)
    ensures var outcome := RestoreProp(types, fields, prop, entries);
            outcome.Done? ==> forall field :: Reads(field, outcome.value) <==> Reads(field, prop)
  {
    hide RestoreValue, Reader;
    var field := Reader(fields, prop);
    if field.Some? && Source(entries, field.value).Some? {
      ValueKeepsForm(types, field.value.kind, if prop.value.Choice? then prop.value.chosen else prop.value,
                     Source(entries, field.value).value);
    }
  }

  lemma PropUnread(types: Types, fields: seq<Field>, field: Field, prop: Prop, entries: seq<Entry>)
    requires !Reads(field, prop) || (Reader(fields, prop).None? && Source(entries, field).None?)
    ensures RestoreProp(types, fields + [field], prop, entries) == RestoreProp(types, fields, prop, entries)
  {
    hide RestoreValue;
    ReaderExtended(fields, field, prop);
  }

  /** No earlier field reads what this field reads. */
  lemma FirstReader(types: Types, name: string, i: nat, prop: Prop)
    requires WellFormed(types) && i < |Fields(types, name)| && Reads(Fields(types, name)[i], prop)
    ensures Reader(Fields(types, name)[..i], prop) == None
    ensures Reader(Fields(types, name)[..i + 1], prop) == Some(Fields(types, name)[i])
    ensures Reader(Fields(types, name), prop) == Some(Fields(types, name)[i])
  {
    var fields := Fields(types, name);
    forall j | 0 <= j < i ensures !Reads(fields[j], prop) {
      assert DistinctFields(fields[j], fields[i]);
    }
    assert fields[..i + 1] == fields[..i] + [fields[i]];
    ReaderExtended(fields[..i], fields[i], prop);
    if i + 1 < |fields| {
      ReaderPrefix(fields, i + 1, prop);
    } else {
      assert fields[..i + 1] == fields;
    }
  }

  lemma {:induction false} ReaderPrefix(fields: seq<Field>, n: nat, prop: Prop)
    requires n <= |fields| && Reader(fields[..n], prop).Some?
    ensures Reader(fields, prop) == Reader(fields[..n], prop)
    decreases |fields| - n
  {
    if n < |fields| {
      assert fields[..n + 1] == fields[..n] + [fields[n]];
      ReaderExtended(fields[..n], fields[n], prop);
      ReaderPrefix(fields, n + 1, prop);
    } else {
      assert fields[..n] == fields;
    }
  }

  lemma SameReads(types: Types, fields: seq<Field>, original: seq<Prop>, entries: seq<Entry>,
                  props: seq<Prop>, changed: bool, field: Field)
    requires Progress(types, fields, original, entries, props, changed)
    ensures forall j :: 0 <= j < |props| ==> (Reads(field, props[j]) <==> Reads(field, original[j]))
  {
    hide RestoreProp, Reads;
    forall j | 0 <= j < |props| ensures Reads(field, props[j]) <==> Reads(field, original[j]) {
      assert Becomes(RestoreProp(types, fields, original[j], entries), props[j]);
      PropKeepsForm(types, fields, original[j], entries);
    }
  }

  /** A field that is not set, or has no JSON, leaves the properties as they are. */
  lemma Skips(types: Types, name: string, i: nat, original: seq<Prop>, entries: seq<Entry>, props: seq<Prop>, changed: bool)
    requires WellFormed(types) && i < |Fields(types, name)|
    requires Progress(types, Fields(types, name)[..i], original, entries, props, changed)
    requires (forall k :: 0 <= k < |props| ==> !Reads(Fields(types, name)[i], props[k]))
             || Source(entries, Fields(types, name)[i]).None?
    ensures Progress(types, Fields(types, name)[..i + 1], original, entries, props, changed)
  {
    hide RestoreProp, Reads, WellFormed, Source;
    var fields, field := Fields(types, name)[..i], Fields(types, name)[i];
    assert Fields(types, name)[..i + 1] == fields + [field];
    SameReads(types, fields, original, entries, props, changed, field);
    forall k | 0 <= k < |props|
      ensures RestoreProp(types, fields + [field], original[k], entries) == RestoreProp(types, fields, original[k], entries)
    {
      if Reads(field, original[k]) { FirstReader(types, name, i, original[k]); }
      PropUnread(types, fields, field, original[k], entries);
    }
  }

  lemma NotYetRead(types: Types, name: string, i: nat, original: seq<Prop>, entries: seq<Entry>,
                   props: seq<Prop>, changed: bool, k: nat)
    requires WellFormed(types) && i < |Fields(types, name)| && k < |props| && Reads(Fields(types, name)[i], props[k])
    requires Progress(types, Fields(types, name)[..i], original, entries, props, changed)
    ensures props[k] == original[k] && Reader(Fields(types, name), original[k]) == Some(Fields(types, name)[i])
  {
    hide Reads, WellFormed, Reader, RestoreValue;
    SameReads(types, Fields(types, name)[..i], original, entries, props, changed, Fields(types, name)[i]);
    FirstReader(types, name, i, original[k]);
    assert Becomes(RestoreProp(types, Fields(types, name)[..i], original[k], entries), props[k]);
  }

  lemma Takes(types: Types, name: string, i: nat, original: seq<Prop>, entries: seq<Entry>,
              props: seq<Prop>, changed: bool, k: nat)
    requires WellFormed(types) && i < |Fields(types, name)| && k < |props| && Reads(Fields(types, name)[i], props[k])
    requires Progress(types, Fields(types, name)[..i], original, entries, props, changed)
    requires forall a, b :: 0 <= a < b < |original| ==> original[a].name != original[b].name
    requires RestoreProp(types, Fields(types, name), original[k], entries).Done?
    ensures var restored := RestoreProp(types, Fields(types, name), original[k], entries);
            Progress(types, Fields(types, name)[..i + 1], original, entries, props[k := restored.value], restored.changed || changed)
  {
    hide RestoreProp, WellFormed, Source, Reader;
    var fields, field := Fields(types, name)[..i], Fields(types, name)[i];
    assert Fields(types, name)[..i + 1] == fields + [field];
    SameReads(types, fields, original, entries, props, changed, field);
    NotYetRead(types, name, i, original, entries, props, changed, k);
    FirstReader(types, name, i, original[k]);
    SameReader(types, Fields(types, name), fields + [field], original[k], entries);
    Untouched(types, fields, original[k], entries);
    forall j | 0 <= j < |props| && j != k
      ensures RestoreProp(types, fields + [field], original[j], entries) == RestoreProp(types, fields, original[j], entries)
    {
      PropUnread(types, fields, field, original[j], entries);
    }
  }

  lemma NothingRead(types: Types, props: seq<Prop>, entries: seq<Entry>)
    ensures forall fields: seq<Field> :: fields == [] ==> Progress(types, fields, props, entries, props, false)
  {
  }

  /** What restoring the property its field reads amounts to. */
  lemma ReadProp(types: Types, fields: seq<Field>, field: Field, prop: Prop, entries: seq<Entry>)
    requires Reader(fields, prop) == Some(field) && Source(entries, field).Some?
    ensures var choice := prop.value.Choice?;
            var restored := RestoreValue(types, field.kind, if choice then prop.value.chosen else prop.value,
                                         Source(entries, field).value);
            RestoreProp(types, fields, prop, entries) ==
            if restored.Threw? then Threw
            else Done(restored.changed,
                      prop.(value := if choice then prop.value.(chosen := restored.value) else restored.value))
  {
    hide RestoreValue, Reader, Source;
  }

  lemma SameReader(types: Types, fields: seq<Field>, others: seq<Field>, prop: Prop, entries: seq<Entry>)
    requires Reader(fields, prop) == Reader(others, prop)
    ensures RestoreProp(types, fields, prop, entries) == RestoreProp(types, others, prop, entries)
  {
  }

  lemma Untouched(types: Types, fields: seq<Field>, prop: Prop, entries: seq<Entry>)
    requires Reader(fields, prop) == None
    ensures RestoreProp(types, fields, prop, entries) == Done(false, prop)
  {
  }

  lemma PropThrows(types: Types, name: string, props: seq<Prop>, entries: seq<Entry>, k: nat)
    requires k < |props| && RestoreProp(types, Fields(types, name), props[k], entries).Threw?
    requires name != ANY && name !in DYNAMIC
    ensures Restore(types, name, Plain(props), Object(entries)) == Threw
  {
    hide RestoreProp;
    var outcomes := seq(|props|, i requires 0 <= i < |props| => RestoreProp(types, Fields(types, name), props[i], entries));
    assert outcomes[k].Threw?;
  }

  lemma ProgressDone(types: Types, name: string, original: seq<Prop>, entries: seq<Entry>, props: seq<Prop>, changed: bool)
    requires Progress(types, Fields(types, name), original, entries, props, changed)
    requires name != ANY && name !in DYNAMIC
    ensures Restore(types, name, Plain(original), Object(entries)) == Done(changed, Plain(props))
  {
    hide RestoreProp;
    var outcomes := seq(|original|, i requires 0 <= i < |original| => RestoreProp(types, Fields(types, name), original[i], entries));
    forall i | 0 <= i < |original| ensures outcomes[i].Done? && outcomes[i].value == props[i] {
      assert Becomes(outcomes[i], props[i]);
    }
    var all := Gather(outcomes);
    assert all.value == props;
    if changed {
      var k :| 0 <= k < |props| && RestoreProp(types, Fields(types, name), original[k], entries).changed;
      assert outcomes[k].changed;
    }
  }

  method RestoreMessage(types: Types, name: string, message: Message, json: Json) returns (outcome: Outcome<Message>)
    requires WellFormed(types) && Tidy(message) && TidyJson(json)
    ensures outcome == Restore(types, name, message, json)
    decreases message, 1
  {
    if !json.Object? { return Done(false, message); }
    if name == ANY {
      outcome := RestorePacked(types, message, json.entries);
      return;
    }
    if name in DYNAMIC || !message.Plain? { return Done(false, message); }
    outcome := RestoreFields(types, name, message, json.entries);
  }

  method RestoreFields(types: Types, name: string, message: Message, entries: seq<Entry>)
      returns (outcome: Outcome<Message>)
    requires WellFormed(types) && message.Plain? && Tidy(message) && TidyEntries(entries)
    requires name != ANY && name !in DYNAMIC
    ensures outcome == Restore(types, name, message, Object(entries))
    decreases message, 0
  {
    hide Restore, RestoreProp, RestoreValue, Reader, WellFormed, TidyJson, Progress, Get;
    NothingRead(types, message.props, entries);
    var fields := Fields(types, name);
    var props, changed := message.props, false;
    for i := 0 to |fields|
      invariant |props| == |message.props|
      invariant Progress(types, fields[..i], message.props, entries, props, changed)
    {
      var field := fields[i];
      assert fields[..i + 1] == fields[..i] + [field];
      var json := Source(entries, field);
      var at := Selected(field, props);
      if at.None? || json.None? {
        Skips(types, name, i, message.props, entries, props, changed);
      } else {
        var k := at.value;
        var prop := props[k];
        NotYetRead(types, name, i, message.props, entries, props, changed, k);
        GetTidy(entries, field.jsonName);
        GetTidy(entries, field.name);
        var value := if prop.value.Choice? then prop.value.chosen else prop.value;
        var restored := RestoreField(types, field.kind, value, json.value);
        ReadProp(types, fields, field, prop, entries);
        if restored.Threw? {
          PropThrows(types, name, message.props, entries, k);
          return Threw;
        }
        Takes(types, name, i, message.props, entries, props, changed, k);
        props := props[k := prop.(value := if prop.value.Choice? then prop.value.(chosen := restored.value) else restored.value)];
        changed := restored.changed || changed;
      }
    }
    assert fields[..|fields|] == fields;
    ProgressDone(types, name, message.props, entries, props, changed);
    return Done(changed, Plain(props));
  }

  method RestorePacked(types: Types, message: Message, entries: seq<Entry>) returns (outcome: Outcome<Message>)
    requires WellFormed(types) && Tidy(message) && TidyEntries(entries)
    ensures outcome == RestoreAny(types, message, entries)
    decreases message, 0
  {
    var url := Get(entries, "@type");
    if !message.Any? || url.None? || !url.value.Str? { return Done(false, message); }
    var changedUrl, restored := message.url != url.value.text, message.(url := url.value.text);
    var typeName := TypeName(url.value.text);
    if typeName !in types.registered { return Done(changedUrl, restored); }
    var payload := FromBinary(typeName, message.value);
    if payload.None? { return Threw; }
    var json := if typeName in CUSTOM then Get(entries, "value") else Some(Object(entries));
    if json.None? { return Done(changedUrl, restored); }
    GetTidy(entries, "value");
    var inner := RestoreMessage(types, typeName, payload.value, json.value);
    if inner.Threw? { return Threw; }
    if inner.changed { restored := restored.(value := ToBinary(typeName, inner.value)); }
    return Done(changedUrl || inner.changed, restored);
  }

  method RestoreField(types: Types, kind: Kind, value: Value, json: Json) returns (outcome: Outcome<Value>)
    requires WellFormed(types) && TidyValue(value) && TidyJson(json)
    ensures outcome == RestoreValue(types, kind, value, json)
    decreases value, 1
  {
    if kind.MessageKind? && value.One? {
      var restored := RestoreMessage(types, kind.message, value.message, json);
      return Wrap(restored, m => One(m));
    }
    if kind.ListKind? && value.Many? && json.Array? {
      outcome := RestoreItems(types, kind.message, value, json.items);
      return;
    }
    if kind.MapKind? && value.Table? && (json.Object? || json.Array?) {
      EntriesTidy(json);
      ArrayAsObject(types, kind.message, value, json);
      outcome := RestoreRows(types, kind.message, value, Entries(json));
      return;
    }
    return Done(false, value);
  }

  lemma ArrayAsObject(types: Types, name: string, value: Value, json: Json)
    requires value.Table? && (json.Array? || json.Object?)
    ensures RestoreValue(types, MapKind(name), value, json) == RestoreValue(types, MapKind(name), value, Object(Entries(json)))
  {
    hide RestoreRow;
    var rows := value.rows;
    assert Entries(Object(Entries(json))) == Entries(json);
    assert seq(|rows|, i requires 0 <= i < |rows| => RestoreRow(types, name, rows[i], Entries(json)))
        == seq(|rows|, i requires 0 <= i < |rows| => RestoreRow(types, name, rows[i], Entries(Object(Entries(json)))));
  }

  method RestoreItems(types: Types, name: string, value: Value, items: seq<Json>) returns (outcome: Outcome<Value>)
    requires WellFormed(types) && value.Many? && TidyValue(value) && TidyJson(Array(items))
    ensures outcome == RestoreValue(types, ListKind(name), value, Array(items))
    decreases value, 0
  {
    var messages, changed := value.messages, false;
    ghost var outcomes := seq(|messages|, k requires 0 <= k < |messages| => RestoreItem(types, name, value.messages[k], items, k));
    for index := 0 to |items|
      invariant |messages| == |value.messages|
      invariant forall k :: 0 <= k < |messages| && k < index ==> Becomes(outcomes[k], messages[k])
      invariant forall k :: index <= k < |messages| ==> messages[k] == value.messages[k]
      invariant changed <==> exists k :: 0 <= k < |messages| && k < index && outcomes[k].changed
    {
      if index < |messages| {
        var restored := RestoreMessage(types, name, messages[index], items[index]);
        assert restored == outcomes[index];
        if restored.Threw? { return Threw; }
        messages := messages[index := restored.value];
        changed := restored.changed || changed;
      }
    }
    assert forall k :: 0 <= k < |messages| ==> Becomes(outcomes[k], messages[k]);
    assert Gather(outcomes).value == messages;
    return Done(changed, Many(messages));
  }

  /** What the loop over map entries has made of the rows. */
  ghost predicate RowProgress(types: Types, name: string, original: seq<Row>, entries: seq<Entry>, rows: seq<Row>, changed: bool) {
    && |rows| == |original|
    && (forall k :: 0 <= k < |rows| ==> Becomes(RestoreRow(types, name, original[k], entries), rows[k]))
    && (changed <==> exists k :: 0 <= k < |rows| && RestoreRow(types, name, original[k], entries).changed)
  }

  method RowAt(rows: seq<Row>, key: string) returns (at: Option<nat>)
    ensures at.Some? ==> at.value < |rows| && rows[at.value].key == key
    ensures at.None? ==> forall k :: 0 <= k < |rows| ==> rows[k].key != key
  {
    for k := 0 to |rows|
      invariant forall j :: 0 <= j < k ==> rows[j].key != key
    {
      if rows[k].key == key { return Some(k); }
    }
    return None;
  }

  /** One more entry concerns only the row under its key, which no earlier entry touched. */
  lemma RowsExtend(types: Types, name: string, entries: seq<Entry>, index: nat, row: Row)
    requires index < |entries| && DistinctKeys(entries)
    ensures row.key != entries[index].key ==>
      RestoreRow(types, name, row, entries[..index + 1]) == RestoreRow(types, name, row, entries[..index])
    ensures row.key == entries[index].key ==>
      && RestoreRow(types, name, row, entries[..index]) == Done(false, row)
      && RestoreRow(types, name, row, entries[..index + 1]) == RestoreRow(types, name, row, entries)
      && RestoreRow(types, name, row, entries) == EntryOutcome(row, Restore(types, name, row.message, entries[index].value))
  {
    hide Restore;
    assert entries[..index + 1] == entries[..index] + [entries[index]];
    GetExtended(entries[..index], entries[index], row.key);
    if row.key == entries[index].key {
      GetFinds(entries[..index], row.key);
      GetDistinct(entries, index);
    }
  }

  function EntryOutcome(row: Row, outcome: Outcome<Message>): Outcome<Row> {
    if outcome.Threw? then Threw else Done(outcome.changed, Row(row.key, outcome.value))
  }

  lemma RowsStep(types: Types, name: string, original: seq<Row>, entries: seq<Entry>, index: nat, rows: seq<Row>, changed: bool)
    requires index < |entries| && DistinctKeys(entries)
    requires forall i, j :: 0 <= i < j < |original| ==> original[i].key != original[j].key
    requires RowProgress(types, name, original, entries[..index], rows, changed)
    ensures forall k :: 0 <= k < |rows| ==> rows[k].key == original[k].key
    ensures (forall k :: 0 <= k < |rows| ==> rows[k].key != entries[index].key) ==>
      RowProgress(types, name, original, entries[..index + 1], rows, changed)
    ensures forall k :: 0 <= k < |rows| && rows[k].key == entries[index].key ==>
      && rows[k] == original[k]
      && RestoreRow(types, name, original[k], entries)
         == EntryOutcome(rows[k], Restore(types, name, rows[k].message, entries[index].value))
  {
    hide RestoreRow;
    forall k | 0 <= k < |rows|
      ensures rows[k].key == original[k].key
      ensures rows[k].key != entries[index].key ==>
        RestoreRow(types, name, original[k], entries[..index + 1]) == RestoreRow(types, name, original[k], entries[..index])
      ensures rows[k].key == entries[index].key ==>
        && rows[k] == original[k]
        && RestoreRow(types, name, original[k], entries)
           == EntryOutcome(rows[k], Restore(types, name, rows[k].message, entries[index].value))
    {
      assert Becomes(RestoreRow(types, name, original[k], entries[..index]), rows[k]);
      RowKeepsKey(types, name, original[k], entries[..index]);
      RowsExtend(types, name, entries, index, original[k]);
    }
  }

  lemma RowKeepsKey(types: Types, name: string, row: Row, entries: seq<Entry>)
    ensures var outcome := RestoreRow(types, name, row, entries);
            outcome.Done? ==> outcome.value.key == row.key
  {
  }

  lemma RowTaken(types: Types, name: string, original: seq<Row>, entries: seq<Entry>, index: nat,
                 rows: seq<Row>, changed: bool, k: nat)
    requires index < |entries| && DistinctKeys(entries)
    requires forall i, j :: 0 <= i < j < |original| ==> original[i].key != original[j].key
    requires RowProgress(types, name, original, entries[..index], rows, changed)
    requires k < |rows| && rows[k].key == entries[index].key && RestoreRow(types, name, original[k], entries).Done?
    ensures var restored := RestoreRow(types, name, original[k], entries);
            RowProgress(types, name, original, entries[..index + 1], rows[k := restored.value], restored.changed || changed)
  {
    hide RestoreRow;
    RowsStep(types, name, original, entries, index, rows, changed);
    forall j | 0 <= j < |rows|
      ensures j != k ==>
        RestoreRow(types, name, original[j], entries[..index + 1]) == RestoreRow(types, name, original[j], entries[..index])
      ensures j == k ==>
        && RestoreRow(types, name, original[j], entries[..index + 1]) == RestoreRow(types, name, original[j], entries)
        && RestoreRow(types, name, original[j], entries[..index]) == Done(false, original[j])
    {
      RowsExtend(types, name, entries, index, original[j]);
      assert j < k ==> original[j].key != original[k].key;
      assert k < j ==> original[k].key != original[j].key;
    }
  }

  lemma RowThrows(types: Types, name: string, rows: seq<Row>, entries: seq<Entry>, k: nat)
    requires k < |rows| && RestoreRow(types, name, rows[k], entries).Threw?
    ensures RestoreValue(types, MapKind(name), Table(rows), Object(entries)) == Threw
  {
    hide RestoreRow;
    var outcomes := seq(|rows|, i requires 0 <= i < |rows| => RestoreRow(types, name, rows[i], Entries(Object(entries))));
    assert outcomes[k].Threw?;
  }

  lemma RowsDone(types: Types, name: string, original: seq<Row>, entries: seq<Entry>, rows: seq<Row>, changed: bool)
    requires RowProgress(types, name, original, entries, rows, changed)
    ensures RestoreValue(types, MapKind(name), Table(original), Object(entries)) == Done(changed, Table(rows))
  {
    hide RestoreRow;
    var outcomes := seq(|original|, i requires 0 <= i < |original| => RestoreRow(types, name, original[i], Entries(Object(entries))));
    forall i | 0 <= i < |original| ensures outcomes[i].Done? && outcomes[i].value == rows[i] {
      assert Becomes(outcomes[i], rows[i]);
    }
    assert Gather(outcomes).value == rows;
    if changed {
      var k :| 0 <= k < |rows| && RestoreRow(types, name, original[k], entries).changed;
      assert outcomes[k].changed;
    }
  }

  method RestoreRows(types: Types, name: string, value: Value, entries: seq<Entry>) returns (outcome: Outcome<Value>)
    requires WellFormed(types) && value.Table? && TidyValue(value) && TidyEntries(entries)
    ensures outcome == RestoreValue(types, MapKind(name), value, Object(entries))
    decreases value, 0
  {
    hide RestoreRow, RestoreValue, RowProgress, Restore;
    var rows, changed := value.rows, false;
    NothingYet(types, name, rows);
    for index := 0 to |entries|
      invariant |rows| == |value.rows|
      invariant RowProgress(types, name, value.rows, entries[..index], rows, changed)
    {
      var entry := entries[index];
      var at := RowAt(rows, entry.key);
      RowsStep(types, name, value.rows, entries, index, rows, changed);
      if at.Some? {
        var k := at.value;
        var restored := RestoreMessage(types, name, rows[k].message, entry.value);
        if restored.Threw? {
          RowThrows(types, name, value.rows, entries, k);
          return Threw;
        }
        RowTaken(types, name, value.rows, entries, index, rows, changed, k);
        rows := rows[k := Row(rows[k].key, restored.value)];
        changed := restored.changed || changed;
      }
    }
    assert entries[..|entries|] == entries;
    RowsDone(types, name, value.rows, entries, rows, changed);
    return Done(changed, Table(rows));
  }

  lemma NothingYet(types: Types, name: string, rows: seq<Row>)
    ensures forall entries: seq<Entry> :: entries == [] ==> RowProgress(types, name, rows, entries, rows, false)
  {
  }
}
