/** The console's list of selectable fields of a JSON schema. */
module SchemaFields {
  import opened Texts
  import opened JsonPointer

  /** A JSON value as both sides hold it; object members keep their order. */
  datatype Value =
    | Null
    | Bool(b: bool)
    | Num(n: real)
    | Str(s: string)
    | Arr(items: seq<Value>)
    | Obj(fields: seq<(string, Value)>)

  type Entries = seq<(string, Value)>

  function FindKey(fields: Entries, key: string): (r: Option<nat>)
    ensures r.Some? ==> r.value < |fields| && fields[r.value].0 == key
    ensures r.None? ==> forall i :: 0 <= i < |fields| ==> fields[i].0 != key
  {
    if fields == [] then None
    else if fields[0].0 == key then Some(0)
    else
      var r := FindKey(fields[1..], key);
      assert forall i :: 1 <= i < |fields| ==> fields[i] == fields[1..][i - 1];
      if r.None? then None else Some(r.value + 1)
  }

  function Get(fields: Entries, key: string): Option<Value> {
    var r := FindKey(fields, key);
    if r.None? then None else Some(fields[r.value].1)
  }

  /** No object repeats a key. */
  predicate UniqueKeys(fields: Entries) {
    forall i, j :: 0 <= i < j < |fields| ==> fields[i].0 != fields[j].0
  }

  predicate WellFormed(v: Value)
    decreases v, 1
  {
    v.Obj? ==> UniqueKeys(v.fields) && WellFormedEntries(v.fields)
  }

  predicate WellFormedEntries(fields: Entries)
    decreases fields, 0
  {
    fields != [] ==> WellFormedEntry(fields[0]) && WellFormedEntries(fields[1..])
  }

  predicate WellFormedEntry(e: (string, Value))
    decreases e, 0
  {
    WellFormed(e.1)
  }

  // ---- the flattener -------------------------------------------------------------------------

  datatype Field = Field(path: string, title: string, kind: string)

  function ReadString(v: Option<Value>): Option<string> {
    if v.Some? && v.value.Str? && Strip(v.value.s, JsSpace) != "" then Some(v.value.s) else None
  }

  function KindOf(definition: Value): string
    requires definition.Obj?
  {
    var t := ReadString(Get(definition.fields, "type"));
    if t.Some? then t.value else "value"
  }

  function LabelOf(name: string, definition: Value): string
    requires definition.Obj?
  {
    var t := ReadString(Get(definition.fields, "title"));
    if t.Some? then t.value else ReplaceChar(name, '_', " ")
  }

  /** `Object.entries(schema.properties)`, or nothing when that is not an object. */
  function Properties(schema: Value): Entries
    requires schema.Obj?
  {
    var r := FindKey(schema.fields, "properties");
    if r.Some? && schema.fields[r.value].1.Obj? then schema.fields[r.value].1.fields else []
  }

  function Flatten(schema: Value, base: string): seq<Field>
    requires schema.Obj?
    decreases schema, 1
  {
    var r := FindKey(schema.fields, "properties");
    if r.Some? && schema.fields[r.value].1.Obj? then FlattenMembers(schema.fields[r.value], base) else []
  }

  function FlattenMembers(properties: (string, Value), base: string): seq<Field>
    requires properties.1.Obj?
    decreases properties, 1
  {
    FlattenEntries(properties.1.fields, base)
  }

  function FlattenEntries(entries: Entries, base: string): seq<Field>
    decreases entries, 0
  {
    if entries == [] then [] else FlattenEntry(entries[0], base) + FlattenEntries(entries[1..], base)
  }

  function FlattenEntry(entry: (string, Value), base: string): seq<Field>
    decreases entry, 2
  {
    var (name, definition) := entry;
    if !definition.Obj? then []
    else
      var path := base + "/" + EscapeToken(name);
      var kind := KindOf(definition);
      var nested := if kind == "object" then Flatten(definition, path) else [];
      if nested != [] then nested else [Field(path, LabelOf(name, definition), kind)]
  }

  /** A member that is a text and not blank. */
  predicate Says(definition: Value, key: string, t: string)
    requires definition.Obj?
  {
    (exists j :: 0 <= j < |t| && !JsSpace(t[j]))
    && exists i :: 0 <= i < |definition.fields| && definition.fields[i] == (key, Str(t))
  }

  lemma ReadStringExactly(definition: Value, key: string)
    requires definition.Obj? && UniqueKeys(definition.fields)
    ensures forall t :: ReadString(Get(definition.fields, key)) == Some(t) <==> Says(definition, key, t)
  {
    forall t ensures Strip(t, JsSpace) != "" <==> exists j :: 0 <= j < |t| && !JsSpace(t[j]) { StripIsTrimmed(t, JsSpace); }
    forall t ensures ReadString(Get(definition.fields, key)) == Some(t) <==> Says(definition, key, t) {
      if i :| 0 <= i < |definition.fields| && definition.fields[i] == (key, Str(t)) {
        assert FindKey(definition.fields, key) == Some(i);
      }
    }
  }

  lemma {:induction false} ReplacedAt(s: string, c: char, d: char, k: nat)
    requires k < |s|
    ensures |ReplaceChar(s, c, [d])| == |s| && ReplaceChar(s, c, [d])[k] == if s[k] == c then d else s[k]
  {
    if k > 0 {
      ReplacedAt(s[1..], c, d, k - 1);
    } else if |s| > 1 {
      ReplacedAt(s[1..], c, d, 0);
    }
  }

  /** The type is the definition's own, or "value"; the label is its title, or the name with its
      underscores turned into spaces. */
  lemma KindAndLabelExactly(name: string, definition: Value)
    requires definition.Obj? && UniqueKeys(definition.fields)
    ensures forall t :: Says(definition, "type", t) ==> KindOf(definition) == t
    ensures (forall t :: !Says(definition, "type", t)) ==> KindOf(definition) == "value"
    ensures forall t :: Says(definition, "title", t) ==> LabelOf(name, definition) == t
    ensures (forall t :: !Says(definition, "title", t)) ==>
              var shown := LabelOf(name, definition);
              |shown| == |name| && forall k :: 0 <= k < |name| ==> shown[k] == if name[k] == '_' then ' ' else name[k]
  {
    ReadStringExactly(definition, "type");
    ReadStringExactly(definition, "title");
    var shown := ReplaceChar(name, '_', " ");
    if name != "" { ReplacedAt(name, '_', ' ', 0); }
    forall k | 0 <= k < |name| ensures |shown| == |name| && shown[k] == if name[k] == '_' then ' ' else name[k] {
      ReplacedAt(name, '_', ' ', k);
    }
  }

  // ---- what a leaf is ------------------------------------------------------------------------

  predicate HasRecord(entries: Entries) {
    exists i :: 0 <= i < |entries| && entries[i].1.Obj?
  }

  /** A definition that is listed itself: it is not an object, or has no definitions below it. */
  predicate Terminal(definition: Value)
    requires definition.Obj?
  {
    KindOf(definition) != "object" || !HasRecord(Properties(definition))
  }

  /** The definition reached by following `properties` along the names. */
  function Walk(schema: Value, names: seq<string>): Option<Value>
    decreases |names|
  {
    if names == [] then Some(schema)
    else if !schema.Obj? then None
    else
      var next := Get(Properties(schema), names[0]);
      if next.None? then None else Walk(next.value, names[1..])
  }

  /** The names lead from these properties through object definitions to a terminal one. */
  predicate LeafBelow(entries: Entries, names: seq<string>)
    decreases |names|
  {
    names != [] &&
    var next := Get(entries, names[0]);
    next.Some? && next.value.Obj? &&
    if |names| == 1 then Terminal(next.value)
    else KindOf(next.value) == "object" && LeafBelow(Properties(next.value), names[1..])
  }

  predicate IsLeaf(schema: Value, names: seq<string>)
    requires schema.Obj?
  {
    LeafBelow(Properties(schema), names)
  }

  lemma {:induction false} LeafWalks(schema: Value, names: seq<string>)
    requires schema.Obj? && IsLeaf(schema, names)
    ensures Walk(schema, names).Some? && Walk(schema, names).value.Obj? && Terminal(Walk(schema, names).value)
    decreases |names|
  {
    var next := Get(Properties(schema), names[0]).value;
    if |names| == 1 {
      assert names[1..] == [];
    } else {
      LeafWalks(next, names[1..]);
    }
  }

  /** No leaf lies above another. */
  lemma {:induction false} LeavesArePrefixFree(entries: Entries, a: seq<string>, b: seq<string>)
    requires LeafBelow(entries, a) && LeafBelow(entries, b) && a <= b
    ensures a == b
    decreases |a|
  {
    assert a[0] == b[0];
    var next := Get(entries, a[0]).value;
    if |a| == 1 {
      if |b| > 1 {
        RecordBelow(Properties(next), b[1..]);
      }
    } else {
      assert a[1..] <= b[1..];
      LeavesArePrefixFree(Properties(next), a[1..], b[1..]);
      assert a == [a[0]] + a[1..] && b == [b[0]] + b[1..];
    }
  }

  // ---- the names behind each listed field -------------------------------------------------------

  ghost function Names(schema: Value): seq<seq<string>>
    requires schema.Obj?
    decreases schema, 1
  {
    var r := FindKey(schema.fields, "properties");
    if r.Some? && schema.fields[r.value].1.Obj? then NamesOfMembers(schema.fields[r.value]) else []
  }

  ghost function NamesOfMembers(properties: (string, Value)): seq<seq<string>>
    requires properties.1.Obj?
    decreases properties, 1
  {
    NamesOfEntries(properties.1.fields)
  }

  ghost function NamesOfEntries(entries: Entries): seq<seq<string>>
    decreases entries, 0
  {
    if entries == [] then [] else NamesOfEntry(entries[0]) + NamesOfEntries(entries[1..])
  }

  ghost function NamesOfEntry(entry: (string, Value)): seq<seq<string>>
    decreases entry, 2
  {
    if !entry.1.Obj? then []
    else
      var nested := if KindOf(entry.1) == "object" then Names(entry.1) else [];
      if nested != [] then Prefixed(entry.0, nested) else [[entry.0]]
  }

  ghost function Prefixed(name: string, lists: seq<seq<string>>): (r: seq<seq<string>>)
    ensures |r| == |lists|
    ensures forall i :: 0 <= i < |r| ==> r[i] == [name] + lists[i]
  {
    if lists == [] then [] else [[name] + lists[0]] + Prefixed(name, lists[1..])
  }

  /** Fields and names correspond one to one, and each field's type is that of its definition. */
  ghost predicate Corresponds(fields: seq<Field>, base: string, names: seq<seq<string>>) {
    |fields| == |names| && forall i :: 0 <= i < |fields| ==> fields[i].path == base + PathOf(names[i])
  }

  lemma {:induction false} FlattenNames(schema: Value, base: string)
    requires schema.Obj?
    ensures Corresponds(Flatten(schema, base), base, Names(schema))
    decreases schema, 1
  {
    var r := FindKey(schema.fields, "properties");
    if r.Some? && schema.fields[r.value].1.Obj? {
      MembersNames(schema.fields[r.value], base);
    }
  }

  lemma {:induction false} MembersNames(properties: (string, Value), base: string)
    requires properties.1.Obj?
    ensures Corresponds(FlattenMembers(properties, base), base, NamesOfMembers(properties))
    decreases properties, 1
  {
    EntriesNames(properties.1.fields, base);
  }

  lemma {:induction false} EntriesNames(entries: Entries, base: string)
    ensures Corresponds(FlattenEntries(entries, base), base, NamesOfEntries(entries))
    decreases entries, 0
  {
    if entries != [] {
      EntryNames(entries[0], base);
      EntriesNames(entries[1..], base);
    }
  }

  lemma {:induction false} EntryNames(entry: (string, Value), base: string)
    ensures Corresponds(FlattenEntry(entry, base), base, NamesOfEntry(entry))
    decreases entry, 2
  {
    if entry.1.Obj? {
      var path := base + "/" + EscapeToken(entry.0);
      assert [entry.0][1..] == [];
      assert path == base + PathOf([entry.0]);
      if KindOf(entry.1) == "object" {
        FlattenNames(entry.1, path);
        var nested := Names(entry.1);
        forall i | 0 <= i < |nested| ensures path + PathOf(nested[i]) == base + PathOf([entry.0] + nested[i]) {
          PathOfConcatenation([entry.0], nested[i]);
        }
      }
    }
  }

  // ---- the listed names are exactly the leaves ----------------------------------------------------

  ghost predicate Exact(entries: Entries, names: seq<seq<string>>) {
    && (forall i :: 0 <= i < |names| ==> LeafBelow(entries, names[i]))
    && (forall leaf :: LeafBelow(entries, leaf) ==> leaf in names)
    && (forall i, j :: 0 <= i < j < |names| ==> names[i] != names[j])
    && (names == [] <==> !HasRecord(entries))
  }

  lemma GetAcross(e: (string, Value), rest: Entries, key: string)
    ensures Get([e] + rest, key) == if e.0 == key then Some(e.1) else Get(rest, key)
  {
    assert ([e] + rest)[1..] == rest;
  }

  lemma LeafAcross(e: (string, Value), rest: Entries, leaf: seq<string>)
    requires forall i :: 0 <= i < |rest| ==> rest[i].0 != e.0
    ensures LeafBelow([e] + rest, leaf) <==> LeafBelow([e], leaf) || LeafBelow(rest, leaf)
    ensures !(LeafBelow([e], leaf) && LeafBelow(rest, leaf))
  {
    if leaf != [] {
      GetAcross(e, rest, leaf[0]);
      GetAcross(e, [], leaf[0]);
      assert [e] + [] == [e];
    }
  }

  lemma ExactAcross(e: (string, Value), rest: Entries, a: seq<seq<string>>, b: seq<seq<string>>)
    requires forall i :: 0 <= i < |rest| ==> rest[i].0 != e.0
    requires Exact([e], a) && Exact(rest, b)
    ensures Exact([e] + rest, a + b)
  {
    var entries, names := [e] + rest, a + b;
    forall leaf ensures LeafBelow(entries, leaf) <==> LeafBelow([e], leaf) || LeafBelow(rest, leaf) {
      LeafAcross(e, rest, leaf);
    }
    forall i, j | 0 <= i < j < |names| ensures names[i] != names[j] {
      if i < |a| && |a| <= j {
        LeafAcross(e, rest, names[i]);
      }
    }
    if HasRecord(rest) {
      var i :| 0 <= i < |rest| && rest[i].1.Obj?;
      assert entries[i + 1].1.Obj?;
    }
    if HasRecord([e]) {
      assert entries[0].1.Obj?;
    }
  }

  lemma {:induction false} NamesExact(schema: Value)
    requires schema.Obj? && WellFormed(schema)
    ensures Exact(Properties(schema), Names(schema))
    decreases schema, 1
  {
    var r := FindKey(schema.fields, "properties");
    if r.Some? && schema.fields[r.value].1.Obj? {
      EntryWellFormed(schema.fields, r.value);
      MembersExact(schema.fields[r.value]);
    }
  }

  lemma {:induction false} EntryWellFormed(fields: Entries, i: nat)
    requires WellFormedEntries(fields) && i < |fields|
    ensures WellFormedEntry(fields[i])
  {
    if i > 0 {
      EntryWellFormed(fields[1..], i - 1);
    }
  }

  lemma {:induction false} MembersExact(properties: (string, Value))
    requires properties.1.Obj? && WellFormedEntry(properties)
    ensures Exact(properties.1.fields, NamesOfMembers(properties))
    decreases properties, 1
  {
    EntriesExact(properties.1.fields);
  }

  lemma {:induction false} EntriesExact(entries: Entries)
    requires UniqueKeys(entries) && WellFormedEntries(entries)
    ensures Exact(entries, NamesOfEntries(entries))
    decreases entries, 0
  {
    if entries != [] {
      EntryExact(entries[0]);
      EntriesExact(entries[1..]);
      assert entries == [entries[0]] + entries[1..];
      ExactAcross(entries[0], entries[1..], NamesOfEntry(entries[0]), NamesOfEntries(entries[1..]));
    }
  }

  lemma {:induction false} EntryExact(entry: (string, Value))
    requires WellFormedEntry(entry)
    ensures Exact([entry], NamesOfEntry(entry))
    decreases entry, 2
  {
    forall leaf ensures LeafBelow([entry], leaf) ==> entry.1.Obj? {
      LeafOfEntry(entry, leaf);
    }
    if entry.1.Obj? {
      assert [entry][0].1.Obj?;
      if KindOf(entry.1) == "object" {
        NamesExact(entry.1);
      }
      if KindOf(entry.1) == "object" && Names(entry.1) != [] {
        NestedExact(entry, Names(entry.1));
      } else {
        SingleExact(entry);
      }
    }
  }

  lemma LeafOfEntry(entry: (string, Value), leaf: seq<string>)
    ensures LeafBelow([entry], leaf) <==>
              && leaf != [] && leaf[0] == entry.0 && entry.1.Obj?
              && (if |leaf| == 1 then Terminal(entry.1)
                  else KindOf(entry.1) == "object" && LeafBelow(Properties(entry.1), leaf[1..]))
  {
    if leaf != [] {
      GetAcross(entry, [], leaf[0]);
      assert [entry] + [] == [entry];
    }
  }

  lemma RecordBelow(entries: Entries, leaf: seq<string>)
    requires LeafBelow(entries, leaf)
    ensures HasRecord(entries)
  {
  }

  lemma SingleExact(entry: (string, Value))
    requires entry.1.Obj? && Terminal(entry.1)
    ensures Exact([entry], [[entry.0]])
  {
    assert [entry][0].1.Obj?;
    LeafOfEntry(entry, [entry.0]);
    forall leaf | LeafBelow([entry], leaf) ensures leaf in [[entry.0]] {
      LeafOfEntry(entry, leaf);
      if |leaf| > 1 {
        RecordBelow(Properties(entry.1), leaf[1..]);
      }
      assert leaf == [entry.0];
    }
  }

  lemma NestedLeafListed(entry: (string, Value), nested: seq<seq<string>>, leaf: seq<string>)
    requires entry.1.Obj? && !Terminal(entry.1) && LeafBelow([entry], leaf)
    requires LeafBelow(Properties(entry.1), leaf[1..]) ==> leaf[1..] in nested
    ensures leaf in Prefixed(entry.0, nested)
  {
    LeafOfEntry(entry, leaf);
    var i :| 0 <= i < |nested| && nested[i] == leaf[1..];
    assert leaf == [entry.0] + leaf[1..] == Prefixed(entry.0, nested)[i];
  }

  lemma ListedIsNestedLeaf(entry: (string, Value), below: seq<string>)
    requires entry.1.Obj? && !Terminal(entry.1) && LeafBelow(Properties(entry.1), below)
    ensures LeafBelow([entry], [entry.0] + below)
  {
    var leaf := [entry.0] + below;
    assert leaf[1..] == below;
    LeafOfEntry(entry, leaf);
  }

  lemma NestedExact(entry: (string, Value), nested: seq<seq<string>>)
    requires entry.1.Obj? && !Terminal(entry.1) && nested != []
    requires Exact(Properties(entry.1), nested)
    ensures Exact([entry], Prefixed(entry.0, nested))
  {
    var names := Prefixed(entry.0, nested);
    assert [entry][0].1.Obj?;
    forall leaf | LeafBelow([entry], leaf) ensures leaf in names {
      NestedLeafListed(entry, nested, leaf);
    }
    forall i | 0 <= i < |names| ensures LeafBelow([entry], names[i]) {
      ListedIsNestedLeaf(entry, nested[i]);
    }
    forall i, j | 0 <= i < j < |names| ensures names[i] != names[j] {
      assert names[i][1..] == nested[i] && names[j][1..] == nested[j];
    }
  }

  /** The flattened list: one field for each leaf and no other. Every path is that of a leaf whose
      names the provider reads back; distinct positions have paths of which neither token list is a
      prefix of the other. */
  lemma FlattenIsExactlyTheLeaves(schema: Value)
    requires schema.Obj? && WellFormed(schema)
    ensures var fields := Flatten(schema, "");
            && (forall i :: 0 <= i < |fields| ==>
                  IsLeaf(schema, Tokens(fields[i].path)) && fields[i].path == PathOf(Tokens(fields[i].path)))
            && (forall leaf :: IsLeaf(schema, leaf) ==> exists i :: 0 <= i < |fields| && fields[i].path == PathOf(leaf))
            && (forall i, j :: 0 <= i < |fields| && 0 <= j < |fields| && i != j ==>
                  !(Tokens(fields[i].path) <= Tokens(fields[j].path)))
  {
    var fields, names := Flatten(schema, ""), Names(schema);
    FlattenNames(schema, "");
    NamesExact(schema);
    forall i | 0 <= i < |fields| ensures fields[i].path == PathOf(names[i]) && Tokens(fields[i].path) == names[i] {
      assert "" + PathOf(names[i]) == PathOf(names[i]);
      PathRoundTrip(names[i]);
    }
    forall leaf | IsLeaf(schema, leaf) ensures exists i :: 0 <= i < |fields| && fields[i].path == PathOf(leaf) {
      var i :| 0 <= i < |names| && names[i] == leaf;
      assert fields[i].path == PathOf(leaf);
    }
    forall i, j | 0 <= i < |fields| && 0 <= j < |fields| && i != j
      ensures !(Tokens(fields[i].path) <= Tokens(fields[j].path))
    {
      if names[i] <= names[j] {
        LeavesArePrefixFree(Properties(schema), names[i], names[j]);
      }
    }
  }

  // ---- each field describes the definition at its path ---------------------------------------------

  ghost predicate Describes(entries: Entries, f: Field, names: seq<string>) {
    names != [] && Get(entries, names[0]).Some? &&
    var d := Walk(Get(entries, names[0]).value, names[1..]);
    d.Some? && d.value.Obj? && f.kind == KindOf(d.value) && f.title == LabelOf(names[|names| - 1], d.value)
  }

  ghost predicate DescribesAll(entries: Entries, fields: seq<Field>, names: seq<seq<string>>) {
    |fields| == |names| && forall i :: 0 <= i < |fields| ==> Describes(entries, fields[i], names[i])
  }

  lemma {:induction false} FlattenDescribes(schema: Value, base: string)
    requires schema.Obj? && WellFormed(schema)
    ensures DescribesAll(Properties(schema), Flatten(schema, base), Names(schema))
    decreases schema, 1
  {
    var r := FindKey(schema.fields, "properties");
    if r.Some? && schema.fields[r.value].1.Obj? {
      EntryWellFormed(schema.fields, r.value);
      MembersDescribe(schema.fields[r.value], base);
    }
  }

  lemma {:induction false} MembersDescribe(properties: (string, Value), base: string)
    requires properties.1.Obj? && WellFormedEntry(properties)
    ensures DescribesAll(properties.1.fields, FlattenMembers(properties, base), NamesOfMembers(properties))
    decreases properties, 1
  {
    EntriesDescribe(properties.1.fields, base);
  }

  lemma {:induction false} EntriesDescribe(entries: Entries, base: string)
    requires UniqueKeys(entries) && WellFormedEntries(entries)
    ensures DescribesAll(entries, FlattenEntries(entries, base), NamesOfEntries(entries))
    decreases entries, 0
  {
    if entries != [] {
      var e, rest := entries[0], entries[1..];
      EntryDescribes(e, base);
      EntriesDescribe(rest, base);
      assert entries == [e] + rest;
      forall f, names ensures Describes([e], f, names) || Describes(rest, f, names) ==> Describes(entries, f, names) {
        DescribesAcross(e, rest, f, names);
      }
    }
  }

  lemma DescribesAcross(e: (string, Value), rest: Entries, f: Field, names: seq<string>)
    requires forall i :: 0 <= i < |rest| ==> rest[i].0 != e.0
    ensures Describes([e], f, names) || Describes(rest, f, names) ==> Describes([e] + rest, f, names)
  {
    if names != [] {
      GetAcross(e, rest, names[0]);
      GetAcross(e, [], names[0]);
      assert [e] + [] == [e];
    }
  }

  lemma {:induction false} EntryDescribes(entry: (string, Value), base: string)
    requires WellFormedEntry(entry)
    ensures DescribesAll([entry], FlattenEntry(entry, base), NamesOfEntry(entry))
    decreases entry, 2
  {
    GetAcross(entry, [], entry.0);
    assert [entry] + [] == [entry];
    if entry.1.Obj? {
      var path := base + "/" + EscapeToken(entry.0);
      FlattenNames(entry.1, path);
      if KindOf(entry.1) == "object" && Names(entry.1) != [] {
        FlattenDescribes(entry.1, path);
        var nested, fields := Names(entry.1), Flatten(entry.1, path);
        forall i | 0 <= i < |fields| ensures Describes([entry], fields[i], [entry.0] + nested[i]) {
          DescribesBelow(entry, fields[i], nested[i]);
        }
      } else {
        assert [entry.0][1..] == [];
        assert Walk(entry.1, []) == Some(entry.1);
      }
    }
  }

  lemma DescribesBelow(entry: (string, Value), f: Field, below: seq<string>)
    requires entry.1.Obj? && Describes(Properties(entry.1), f, below)
    requires Get([entry], entry.0) == Some(entry.1)
    ensures Describes([entry], f, [entry.0] + below)
  {
    var names := [entry.0] + below;
    assert names[1..] == below;
    assert Walk(entry.1, below) == Walk(Get(Properties(entry.1), below[0]).value, below[1..]);
  }

  /** Walking `properties` along the tokens of a listed path reaches the definition whose type and
      title are listed. */
  lemma ListedFieldDescribesItsDefinition(schema: Value, i: nat)
    requires schema.Obj? && WellFormed(schema) && i < |Flatten(schema, "")|
    ensures var f := Flatten(schema, "")[i];
            var names := Tokens(f.path);
            && names != [] && Walk(schema, names).Some? && Walk(schema, names).value.Obj?
            && f.kind == KindOf(Walk(schema, names).value)
            && f.title == LabelOf(names[|names| - 1], Walk(schema, names).value)
  {
    FlattenNames(schema, "");
    FlattenDescribes(schema, "");
    var names := Names(schema)[i];
    assert "" + PathOf(names) == PathOf(names);
    PathRoundTrip(names);
  }

  lemma {:induction false} GetWellFormed(schema: Value, name: string)
    requires schema.Obj? && WellFormed(schema) && Get(Properties(schema), name).Some?
    ensures WellFormed(Get(Properties(schema), name).value)
  {
    var r := FindKey(schema.fields, "properties");
    EntryWellFormed(schema.fields, r.value);
    var properties := schema.fields[r.value].1;
    EntryWellFormed(properties.fields, FindKey(properties.fields, name).value);
  }

  lemma {:induction false} WalkWellFormed(schema: Value, names: seq<string>)
    requires WellFormed(schema) && Walk(schema, names).Some?
    ensures WellFormed(Walk(schema, names).value)
    decreases |names|
  {
    if names != [] {
      GetWellFormed(schema, names[0]);
      WalkWellFormed(Get(Properties(schema), names[0]).value, names[1..]);
    }
  }

  /** In the definition's own members: the listed type is its "type" text, or "value" without one; the
      label its "title" text, or else the last name with its underscores turned into spaces. */
  lemma ListedFieldSays(schema: Value, i: nat)
    requires schema.Obj? && WellFormed(schema) && i < |Flatten(schema, "")|
    ensures var f := Flatten(schema, "")[i];
            var names := Tokens(f.path);
            names != [] && Walk(schema, names).Some? && Walk(schema, names).value.Obj? &&
            var d, name := Walk(schema, names).value, names[|names| - 1];
            && (Says(d, "type", f.kind) || ((forall t :: !Says(d, "type", t)) && f.kind == "value"))
            && (Says(d, "title", f.title)
                || ((forall t :: !Says(d, "title", t)) && |f.title| == |name|
                    && forall k :: 0 <= k < |name| ==> f.title[k] == if name[k] == '_' then ' ' else name[k]))
  {
    ListedFieldDescribesItsDefinition(schema, i);
    var names := Tokens(Flatten(schema, "")[i].path);
    WalkWellFormed(schema, names);
    KindAndLabelExactly(names[|names| - 1], Walk(schema, names).value);
  }
}
