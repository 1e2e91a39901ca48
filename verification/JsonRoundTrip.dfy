/** What is printed, and reading it back. */
module JsonRoundTrip {
  import opened Texts
  import opened JsonText
  import opened JsonGrammar

  // ---- printed characters ---------------------------------------------------------------------------

  lemma HexPlaces(n: int)
    requires 0 <= n < 0x1_0000
    ensures n == n / 0x1000 * 0x1000 + n / 0x100 % 16 * 0x100 + n / 16 % 16 * 16 + n % 16
  {
    var x := n / 16;
    var y := x / 16;
    assert n / 0x100 == y;
    assert n / 0x1000 == y / 16;
  }

  lemma HexDigitSpelled(d: int)
    requires 0 <= d < 16
    ensures Nibble(HexDigit(d)) == d
  {
  }

  lemma UnitPrinted(n: int)
    requires 0 <= n < 0x1_0000
    ensures UnitSpelled(n, UnicodeEscape(n)) && AsciiOnly(UnicodeEscape(n))
  {
    var a, b, c, d := n / 0x1000, n / 0x100 % 16, n / 16 % 16, n % 16;
    var x := UnicodeEscape(n);
    HexPlaces(n);
    HexDigitSpelled(a);
    HexDigitSpelled(b);
    HexDigitSpelled(c);
    HexDigitSpelled(d);
    assert x[2] == HexDigit(a) && x[3] == HexDigit(b) && x[4] == HexDigit(c) && x[5] == HexDigit(d);
    assert n == 4096 * a + 256 * b + 16 * c + d;
  }

  /** Which spelling the printer chooses for a character: a short escape for quotes, backslashes and
      the five controls that have one, a unit for other controls; with `ensure_ascii` also a unit or a
      pair for everything past "~", so the text is ASCII; and the character itself otherwise. */
  lemma PrintedCharacter(c: CodePoint, ascii: bool)
    ensures c in {34, 92, 8, 9, 10, 12, 13} ==> ShortSpelled(c, Escape(c, ascii))
    ensures c < 32 && c !in {8, 9, 10, 12, 13} ==> UnitSpelled(c, Escape(c, ascii))
    ensures ascii && 126 < c < 0x1_0000 ==> UnitSpelled(c, Escape(c, ascii))
    ensures ascii && c >= 0x1_0000 ==> PairSpelled(c, Escape(c, ascii))
    ensures c >= 32 && c != 34 && c != 92 && (!ascii || c <= 126) ==> RawSpelled(c, Escape(c, ascii))
    ensures ascii ==> AsciiOnly(Escape(c, ascii))
  {
    if c < 0x1_0000 {
      UnitPrinted(c);
    } else {
      UnitPrinted(HighHalf(c));
      UnitPrinted(LowHalf(c));
      var x := UnicodeEscape(HighHalf(c)) + UnicodeEscape(LowHalf(c));
      assert x[..6] == UnicodeEscape(HighHalf(c)) && x[6..] == UnicodeEscape(LowHalf(c));
    }
  }

  // ---- printed strings ------------------------------------------------------------------------------

  /** A printed string begins with the escape of a low surrogate only when it is one. */
  lemma LowStarts(t: Text, ascii: bool)
    ensures LowUnitFollows(EscapeAll(t, ascii)) ==> ascii && t != [] && Low(t[0])
  {
    if t != [] { LowStartsCharacter(t[0], ascii, EscapeAll(t[1..], ascii)); }
  }

  lemma LowStartsCharacter(c: CodePoint, ascii: bool, r: Text)
    ensures LowUnitFollows(Escape(c, ascii) + r) ==> ascii && Low(c)
  {
    var x := Escape(c, ascii);
    var s := x + r;
    if LowUnitFollows(s) {
      LowUnitIsEscape(s);
      EscapeIsLong(c, ascii, r);
      assert s[..6] == x[..6];
      var first := FirstUnit(c, ascii);
    }
  }

  lemma EscapeIsLong(c: CodePoint, ascii: bool, r: Text)
    ensures EscapeFollows(Escape(c, ascii) + r) ==> |Escape(c, ascii)| >= 6
  {
    var x := Escape(c, ascii);
    assert (x + r)[0] == x[0];
    assert |x| >= 2 ==> (x + r)[1] == x[1];
  }

  /** The unit a long escape begins with. */
  lemma FirstUnit(c: CodePoint, ascii: bool) returns (first: CodePoint)
    requires |Escape(c, ascii)| >= 6
    ensures UnitSpelled(first, Escape(c, ascii)[..6])
    ensures Low(first) ==> ascii && first == c
  {
    first := if c < 0x1_0000 then c else HighHalf(c);
    UnitPrinted(first);
    assert Escape(c, ascii)[..6] == UnicodeEscape(first);
  }

  /** What stands between the quotes spells what is read back. */
  lemma {:induction false} PrintSpells(t: Text, ascii: bool)
    ensures StringSpelled(ReadBack(t, ascii), EscapeAll(t, ascii))
    decreases |t|
  {
    if t == [] {
    } else if ascii && |t| >= 2 && High(t[0]) && Low(t[1]) {
      PrintSpells(t[2..], ascii);
      PairPrinted(t);
    } else {
      PrintSpells(t[1..], ascii);
      PrintedCharacter(t[0], ascii);
      LowStarts(t[1..], ascii);
      StringExtends(t[0], Escape(t[0], ascii), ReadBack(t[1..], ascii), EscapeAll(t[1..], ascii));
      assert t == [t[0]] + t[1..];
    }
  }

  lemma PairPrinted(t: Text)
    requires |t| >= 2 && High(t[0]) && Low(t[1]) && StringSpelled(Fuse(t[2..]), EscapeAll(t[2..], true))
    ensures StringSpelled(Fuse(t), EscapeAll(t, true))
  {
    var x, y, r := UnicodeEscape(t[0]), UnicodeEscape(t[1]), EscapeAll(t[2..], true);
    UnitPrinted(t[0]);
    UnitPrinted(t[1]);
    assert (x + y)[..6] == x && (x + y)[6..] == y;
    PairBuilt(t[0], t[1], x + y);
    StringExtends(Combine(t[0], t[1]), x + y, Fuse(t[2..]), r);
    TwoEscapes(t);
    Regroup(x, y, r);
  }

  lemma TwoEscapes(t: Text)
    requires |t| >= 2 && High(t[0]) && Low(t[1])
    ensures EscapeAll(t, true) == UnicodeEscape(t[0]) + (UnicodeEscape(t[1]) + EscapeAll(t[2..], true))
    ensures Fuse(t) == [Combine(t[0], t[1])] + Fuse(t[2..])
  {
    assert t[1..][1..] == t[2..] && t[1..][0] == t[1];
  }

  /** Reading undoes writing for one string, up to the fusing of surrogate pairs. */
  lemma StringReadsBack(t: Text, ascii: bool, rest: Text)
    ensures ParseString(EscapeAll(t, ascii) + [QUOTE] + rest) == Done(ReadBack(t, ascii), rest)
  {
    PrintSpells(t, ascii);
    StringReads(ReadBack(t, ascii), EscapeAll(t, ascii), rest);
    Regroup(EscapeAll(t, ascii), [QUOTE], rest);
  }

  // ---- what a value reads back as ---------------------------------------------------------------------

  function ReadBackValue(v: Json, ascii: bool): Json
    decreases v, 1
  {
    match v
    case Literal(_) => v
    case Str(t) => Str(ReadBack(t, ascii))
    case Arr(items) => Arr(ReadBackItems(items, ascii))
    case Obj(fields) => Obj(ReadBackFields(fields, ascii))
  }

  function ReadBackItems(items: seq<Json>, ascii: bool): seq<Json>
    decreases items, 0
  {
    if items == [] then [] else [ReadBackValue(items[0], ascii)] + ReadBackItems(items[1..], ascii)
  }

  function ReadBackFields(fields: seq<(Text, Json)>, ascii: bool): seq<(Text, Json)>
    decreases fields, 0
  {
    if fields == [] then [] else [ReadBackField(fields[0], ascii)] + ReadBackFields(fields[1..], ascii)
  }

  function ReadBackField(field: (Text, Json), ascii: bool): (Text, Json)
    decreases field, 0
  {
    (ReadBack(field.0, ascii), ReadBackValue(field.1, ascii))
  }

  predicate KeyIn(fields: seq<(Text, Json)>, key: Text) {
    exists i :: 0 <= i < |fields| && fields[i].0 == key
  }

  predicate DistinctKeys(fields: seq<(Text, Json)>) {
    fields != [] ==> !KeyIn(fields[..|fields| - 1], fields[|fields| - 1].0) && DistinctKeys(fields[..|fields| - 1])
  }

  /** Numbers, constants, strings, arrays, and objects whose keys stay distinct when read back. */
  ghost predicate Writable(v: Json, ascii: bool)
    decreases v, 1
  {
    match v
    case Literal(lexeme) => Lexeme(lexeme)
    case Str(_) => true
    case Arr(items) => WritableItems(items, ascii)
    case Obj(fields) => DistinctKeys(ReadBackFields(fields, ascii)) && WritableFields(fields, ascii)
  }

  ghost predicate WritableItems(items: seq<Json>, ascii: bool)
    decreases items, 0
  {
    items != [] ==> Writable(items[0], ascii) && WritableItems(items[1..], ascii)
  }

  ghost predicate WritableFields(fields: seq<(Text, Json)>, ascii: bool)
    decreases fields, 0
  {
    fields != [] ==> WritableField(fields[0], ascii) && WritableFields(fields[1..], ascii)
  }

  ghost predicate WritableField(field: (Text, Json), ascii: bool)
    decreases field, 0
  {
    Writable(field.1, ascii)
  }

  lemma {:induction false} PutFresh(fields: seq<(Text, Json)>, key: Text, v: Json)
    requires !KeyIn(fields, key)
    ensures Put(fields, key, v) == fields + [(key, v)]
  {
    if fields != [] {
      assert fields[0].0 != key;
      forall i | 0 <= i < |fields| - 1 ensures fields[1..][i].0 != key { assert fields[i + 1].0 != key; }
      PutFresh(fields[1..], key, v);
    }
  }

  lemma {:induction false} FromDistinctPairs(pairs: seq<(Text, Json)>)
    requires DistinctKeys(pairs)
    ensures FromPairs(pairs) == pairs
  {
    if pairs != [] {
      var n := |pairs| - 1;
      FromDistinctPairs(pairs[..n]);
      PutFresh(pairs[..n], pairs[n].0, pairs[n].1);
    }
  }

  // ---- the spelling the printer chooses -----------------------------------------------------------------

  function Printed(v: Json, ascii: bool): Spelling
    decreases v, 1
  {
    match v
    case Literal(lexeme) => Lexical(lexeme)
    case Str(t) => Quoted(ReadBack(t, ascii), EscapeAll(t, ascii))
    case Arr(items) => if items == [] then EmptyArray([]) else Array(PrintedItems(items, ascii))
    case Obj(fields) => if fields == [] then EmptyObject([]) else Object(PrintedFields(fields, ascii))
  }

  function PrintedItems(items: seq<Json>, ascii: bool): Elements
    requires items != []
    decreases items, 0
  {
    var item := Printed(items[0], ascii);
    if |items| == 1 then LastElement([], item, []) else Element([], item, [], PrintedItems(items[1..], ascii))
  }

  function PrintedFields(fields: seq<(Text, Json)>, ascii: bool): Members
    requires fields != []
    decreases fields, 0
  {
    var member := PrintedField(fields[0], ascii);
    if |fields| == 1 then LastMember([], member, []) else NextMember([], member, [], PrintedFields(fields[1..], ascii))
  }

  function PrintedField(field: (Text, Json), ascii: bool): Member
    decreases field, 0
  {
    Member(ReadBack(field.0, ascii), EscapeAll(field.0, ascii), [], [], Printed(field.1, ascii))
  }

  lemma Nothing(s: Text)
    ensures [] + s == s
  {
  }

  lemma {:induction false} PrintedIsWritten(v: Json, ascii: bool, rest: Text)
    ensures Print(v, ascii) + rest == Write(Printed(v, ascii), rest)
    decreases v, 1
  {
    match v {
      case Literal(_) =>
      case Str(t) =>
        Regroup([QUOTE] + EscapeAll(t, ascii), [QUOTE], rest);
        Regroup([QUOTE], EscapeAll(t, ascii), [QUOTE] + rest);
      case Arr(items) =>
        if items == [] {
          Regroup([OPEN_BRACKET], [CLOSE_BRACKET], rest);
          Nothing([CLOSE_BRACKET] + rest);
        } else {
          ItemsAreWritten(items, ascii, rest);
          Regroup([OPEN_BRACKET], PrintItems(items, ascii), rest);
        }
      case Obj(fields) =>
        if fields == [] {
          Regroup([OPEN_BRACE], [CLOSE_BRACE], rest);
          Nothing([CLOSE_BRACE] + rest);
        } else {
          FieldsAreWritten(fields, ascii, rest);
          Regroup([OPEN_BRACE], PrintFields(fields, ascii), rest);
        }
    }
  }

  lemma {:induction false} ItemsAreWritten(items: seq<Json>, ascii: bool, rest: Text)
    requires items != []
    ensures PrintItems(items, ascii) + rest == WriteElements(PrintedItems(items, ascii), rest)
    decreases items, 0
  {
    var after := if |items| == 1 then [CLOSE_BRACKET] else [COMMA] + PrintItems(items[1..], ascii);
    Regroup(Print(items[0], ascii), after, rest);
    PrintedIsWritten(items[0], ascii, after + rest);
    Nothing(after + rest);
    Nothing(Write(Printed(items[0], ascii), after + rest));
    if |items| > 1 {
      ItemsAreWritten(items[1..], ascii, rest);
      Regroup([COMMA], PrintItems(items[1..], ascii), rest);
    }
  }

  lemma {:induction false} FieldIsWritten(field: (Text, Json), ascii: bool, rest: Text)
    ensures PrintField(field, ascii) + rest == WriteMember(PrintedField(field, ascii), rest)
    decreases field, 0
  {
    var body := EscapeAll(field.0, ascii);
    var value := Print(field.1, ascii) + rest;
    PrintedIsWritten(field.1, ascii, rest);
    Nothing(value);
    Nothing([COLON] + value);
    Regroup(PrintString(field.0, ascii) + [COLON], Print(field.1, ascii), rest);
    Regroup(PrintString(field.0, ascii), [COLON], value);
    Regroup([QUOTE] + body, [QUOTE], [COLON] + value);
    Regroup([QUOTE], body, [QUOTE] + ([COLON] + value));
  }

  lemma {:induction false} FieldsAreWritten(fields: seq<(Text, Json)>, ascii: bool, rest: Text)
    requires fields != []
    ensures PrintFields(fields, ascii) + rest == WriteMembers(PrintedFields(fields, ascii), rest)
    decreases fields, 0
  {
    var after := if |fields| == 1 then [CLOSE_BRACE] else [COMMA] + PrintFields(fields[1..], ascii);
    Regroup(PrintField(fields[0], ascii), after, rest);
    FieldIsWritten(fields[0], ascii, after + rest);
    Nothing(after + rest);
    Nothing(WriteMember(PrintedField(fields[0], ascii), after + rest));
    if |fields| > 1 {
      FieldsAreWritten(fields[1..], ascii, rest);
      Regroup([COMMA], PrintFields(fields[1..], ascii), rest);
    }
  }

  lemma {:induction false} PrintedIsValid(v: Json, ascii: bool)
    requires Writable(v, ascii)
    ensures Valid(Printed(v, ascii)) && ValueOf(Printed(v, ascii)) == ReadBackValue(v, ascii)
    decreases v, 1
  {
    match v {
      case Literal(_) =>
      case Str(t) => PrintSpells(t, ascii);
      case Arr(items) => if items != [] { ItemsAreValid(items, ascii); }
      case Obj(fields) =>
        if fields != [] {
          FieldsAreValid(fields, ascii);
          FromDistinctPairs(ReadBackFields(fields, ascii));
        }
    }
  }

  lemma {:induction false} ItemsAreValid(items: seq<Json>, ascii: bool)
    requires items != [] && WritableItems(items, ascii)
    ensures ValidElements(PrintedItems(items, ascii)) && ValuesOf(PrintedItems(items, ascii)) == ReadBackItems(items, ascii)
    decreases items, 0
  {
    PrintedIsValid(items[0], ascii);
    if |items| > 1 { ItemsAreValid(items[1..], ascii); } else { assert items[1..] == []; }
  }

  lemma {:induction false} FieldIsValid(field: (Text, Json), ascii: bool)
    requires WritableField(field, ascii)
    ensures ValidMember(PrintedField(field, ascii)) && PairOf(PrintedField(field, ascii)) == ReadBackField(field, ascii)
    decreases field, 0
  {
    PrintedIsValid(field.1, ascii);
    PrintSpells(field.0, ascii);
  }

  lemma {:induction false} FieldsAreValid(fields: seq<(Text, Json)>, ascii: bool)
    requires fields != [] && WritableFields(fields, ascii)
    ensures ValidMembers(PrintedFields(fields, ascii)) && PairsOf(PrintedFields(fields, ascii)) == ReadBackFields(fields, ascii)
    decreases fields, 0
  {
    FieldIsValid(fields[0], ascii);
    if |fields| > 1 { FieldsAreValid(fields[1..], ascii); } else { assert fields[1..] == []; }
  }

  // ---- round trips -----------------------------------------------------------------------------------------

  /** Reading undoes writing for every writable value, whatever text follows it; after a number or a
      constant, white space or punctuation. */
  lemma ValueReadsBack(v: Json, ascii: bool, rest: Text)
    requires Writable(v, ascii) && (Delimited(rest) || !v.Literal?)
    ensures ParseValue(Print(v, ascii) + rest) == Done(ReadBackValue(v, ascii), rest)
  {
    PrintedIsWritten(v, ascii, rest);
    PrintedIsValid(v, ascii);
    ValueReads(Printed(v, ascii), rest);
  }

  /** Printing gives one of the spellings. */
  lemma PrintIsDocument(v: Json, ascii: bool)
    requires Writable(v, ascii)
    ensures Document(ReadBackValue(v, ascii), Print(v, ascii))
  {
    PrintedIsWritten(v, ascii, []);
    PrintedIsValid(v, ascii);
    var s, w := Print(v, ascii), Printed(v, ascii);
    assert s + [] == s;
    Nothing(Write(w, []));
    assert Gap([]) && s == [] + Write(w, []);
  }

  /** `json.loads(json.dumps(v))`. */
  lemma LoadsDumps(v: Json, ascii: bool)
    requires Writable(v, ascii)
    ensures Loads(Print(v, ascii)) == Some(ReadBackValue(v, ascii))
  {
    PrintIsDocument(v, ascii);
    LoadsExactly(Print(v, ascii), ReadBackValue(v, ascii));
  }

  lemma {:induction false} UnescapedReadsBackItself(v: Json)
    requires Writable(v, false)
    ensures ReadBackValue(v, false) == v
    decreases v, 1
  {
    match v {
      case Literal(_) =>
      case Str(_) =>
      case Arr(items) => UnescapedItems(items);
      case Obj(fields) => UnescapedFields(fields);
    }
  }

  lemma {:induction false} UnescapedItems(items: seq<Json>)
    requires WritableItems(items, false)
    ensures ReadBackItems(items, false) == items
    decreases items, 0
  {
    if items != [] {
      UnescapedReadsBackItself(items[0]);
      UnescapedItems(items[1..]);
    }
  }

  lemma {:induction false} UnescapedFields(fields: seq<(Text, Json)>)
    requires WritableFields(fields, false)
    ensures ReadBackFields(fields, false) == fields
    decreases fields, 0
  {
    if fields != [] {
      UnescapedField(fields[0]);
      UnescapedFields(fields[1..]);
    }
  }

  lemma {:induction false} UnescapedField(field: (Text, Json))
    requires WritableField(field, false)
    ensures ReadBackField(field, false) == field
    decreases field, 0
  {
    UnescapedReadsBackItself(field.1);
  }

  /** Two code points go in, one comes out. */
  lemma SurrogatePairIsLost(high: CodePoint, low: CodePoint)
    requires High(high) && Low(low)
    ensures Loads(Print(Str([high, low]), true)) == Some(Str([Combine(high, low)]))
  {
    var t := [high, low];
    LoadsDumps(Str(t), true);
    assert t[2..] == [] && Fuse([]) == [];
    assert Fuse(t) == [Combine(high, low)];
  }

  /** A string survives `ensure_ascii` exactly when no high surrogate stands before a low one. */
  lemma AsciiStringSurvivesExactly(t: Text)
    ensures Loads(Print(Str(t), true)) == Some(Str(t)) <==> NoSurrogatePair(t)
  {
    LoadsDumps(Str(t), true);
    FuseKeepsExactlyPairFree(t);
  }
}
