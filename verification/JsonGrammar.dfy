/** The texts that spell a JSON value (RFC 8259, with the constants Python adds), and the proof that
    the reader accepts exactly those and gives exactly that value. */
module JsonGrammar {
  import opened Texts
  import opened JsonText

  // ---- strings -----------------------------------------------------------------------------------

  /** The value of a hexadecimal digit in either case; -1 for anything else. */
  function Nibble(h: CodePoint): int {
    if 48 <= h <= 57 then h - 48 else if 97 <= h <= 102 then h - 87 else if 65 <= h <= 70 then h - 55 else -1
  }

  /** A backslash, "u" and four hexadecimal digits. */
  predicate IsUnit(x: Text) {
    |x| == 6 && x[0] == 92 && x[1] == 117
    && Nibble(x[2]) >= 0 && Nibble(x[3]) >= 0 && Nibble(x[4]) >= 0 && Nibble(x[5]) >= 0
  }

  function UnitValue(x: Text): (n: CodePoint)
    requires IsUnit(x)
    ensures n < 0x1_0000
  {
    4096 * Nibble(x[2]) + 256 * Nibble(x[3]) + 16 * Nibble(x[4]) + Nibble(x[5])
  }

  predicate UnitSpelled(n: int, x: Text) { IsUnit(x) && UnitValue(x) == n }

  predicate RawSpelled(c: CodePoint, x: Text) { x == [c] && c >= 32 && c != 34 && c != 92 }

  predicate ShortSpelled(c: CodePoint, x: Text) {
    |x| == 2 && x[0] == 92
    && ((x[1] == 34 && c == 34) || (x[1] == 92 && c == 92) || (x[1] == 47 && c == 47) || (x[1] == 98 && c == 8)
        || (x[1] == 102 && c == 12) || (x[1] == 110 && c == 10) || (x[1] == 114 && c == 13) || (x[1] == 116 && c == 9))
  }

  /** A code point past the basic plane, as the escapes of its surrogates. */
  predicate PairSpelled(c: CodePoint, x: Text) {
    |x| == 12 && IsUnit(x[..6]) && IsUnit(x[6..]) &&
    var high, low := UnitValue(x[..6]), UnitValue(x[6..]);
    0xd800 <= high < 0xdc00 && 0xdc00 <= low < 0xe000 && c == 0x1_0000 + (high - 0xd800) * 0x400 + (low - 0xdc00)
  }

  predicate CharSpelled(c: CodePoint, x: Text) {
    RawSpelled(c, x) || ShortSpelled(c, x) || UnitSpelled(c, x) || PairSpelled(c, x)
  }

  predicate LowUnitFollows(r: Text) {
    |r| >= 6 && IsUnit(r[..6]) && 0xdc00 <= UnitValue(r[..6]) < 0xe000
  }

  /** What stands between the quotes. An escaped high surrogate does not stand before an escaped low
      one: together they spell one code point. */
  ghost predicate StringSpelled(t: Text, s: Text)
    decreases |t|
  {
    if t == [] then s == []
    else
      exists x, r :: s == x + r && CharSpelled(t[0], x) && StringSpelled(t[1..], r)
                     && !(0xd800 <= t[0] < 0xdc00 && UnitSpelled(t[0], x) && LowUnitFollows(r))
  }

  // ---- numbers and constants -------------------------------------------------------------------

  predicate Digits(t: Text) { t != [] && forall i :: 0 <= i < |t| ==> 48 <= t[i] <= 57 }

  predicate Whole(t: Text) { t == [48] || (Digits(t) && t[0] != 48) }

  predicate Fraction(t: Text) { t == [] || (t[0] == 46 && Digits(t[1..])) }

  predicate Exponent(t: Text) {
    t == [] || ((t[0] == 101 || t[0] == 69)
                && (Digits(t[1..]) || (|t| >= 2 && (t[1] == 43 || t[1] == 45) && Digits(t[2..]))))
  }

  predicate Sign(t: Text) { t == [] || t == [45] }

  ghost predicate NumberSpelled(t: Text) {
    exists sign, whole, fraction, exponent ::
      t == sign + (whole + (fraction + exponent)) && Sign(sign) && Whole(whole) && Fraction(fraction) && Exponent(exponent)
  }

  ghost predicate Lexeme(t: Text) {
    || t == Chars("null") || t == Chars("true") || t == Chars("false")
    || t == Chars("NaN") || t == Chars("Infinity") || t == Chars("-Infinity") || NumberSpelled(t)
  }

  // ---- values ----------------------------------------------------------------------------------

  /** White space between tokens: tab, line feed, carriage return and space. */
  predicate Gap(g: Text) { forall i :: 0 <= i < |g| ==> g[i] == 9 || g[i] == 10 || g[i] == 13 || g[i] == 32 }

  /** One way of writing a value: the spelling of its strings and the white space around its tokens. */
  datatype Spelling =
    | Lexical(lexeme: Text)
    | Quoted(text: Text, body: Text)
    | EmptyArray(gap: Text)
    | Array(elements: Elements)
    | EmptyObject(gap: Text)
    | Object(members: Members)

  datatype Elements =
    | LastElement(before: Text, item: Spelling, after: Text)
    | Element(before: Text, item: Spelling, after: Text, more: Elements)

  datatype Member = Member(key: Text, body: Text, beforeColon: Text, afterColon: Text, item: Spelling)

  datatype Members =
    | LastMember(before: Text, member: Member, after: Text)
    | NextMember(before: Text, member: Member, after: Text, more: Members)

  /** The spelling's text, followed by `rest`. */
  function Write(w: Spelling, rest: Text): Text {
    match w
    case Lexical(lexeme) => lexeme + rest
    case Quoted(_, body) => [34] + (body + ([34] + rest))
    case EmptyArray(gap) => [91] + (gap + ([93] + rest))
    case Array(elements) => [91] + WriteElements(elements, rest)
    case EmptyObject(gap) => [123] + (gap + ([125] + rest))
    case Object(members) => [123] + WriteMembers(members, rest)
  }

  function WriteElements(es: Elements, rest: Text): Text {
    match es
    case LastElement(before, item, after) => before + Write(item, after + ([93] + rest))
    case Element(before, item, after, more) => before + Write(item, after + ([44] + WriteElements(more, rest)))
  }

  function WriteMember(m: Member, rest: Text): Text {
    [34] + (m.body + ([34] + (m.beforeColon + ([58] + (m.afterColon + Write(m.item, rest))))))
  }

  function WriteMembers(ms: Members, rest: Text): Text {
    match ms
    case LastMember(before, member, after) => before + WriteMember(member, after + ([125] + rest))
    case NextMember(before, member, after, more) => before + WriteMember(member, after + ([44] + WriteMembers(more, rest)))
  }

  ghost predicate Valid(w: Spelling) {
    match w
    case Lexical(lexeme) => Lexeme(lexeme)
    case Quoted(text, body) => StringSpelled(text, body)
    case EmptyArray(gap) => Gap(gap)
    case Array(elements) => ValidElements(elements)
    case EmptyObject(gap) => Gap(gap)
    case Object(members) => ValidMembers(members)
  }

  ghost predicate ValidElements(es: Elements) {
    Gap(es.before) && Valid(es.item) && Gap(es.after) && (es.Element? ==> ValidElements(es.more))
  }

  ghost predicate ValidMember(m: Member) {
    StringSpelled(m.key, m.body) && Gap(m.beforeColon) && Gap(m.afterColon) && Valid(m.item)
  }

  ghost predicate ValidMembers(ms: Members) {
    Gap(ms.before) && ValidMember(ms.member) && Gap(ms.after) && (ms.NextMember? ==> ValidMembers(ms.more))
  }

  /** The value a spelling stands for. Of repeated keys the last value counts. */
  function ValueOf(w: Spelling): Json {
    match w
    case Lexical(lexeme) => Literal(lexeme)
    case Quoted(text, _) => Str(text)
    case EmptyArray(_) => Arr([])
    case Array(elements) => Arr(ValuesOf(elements))
    case EmptyObject(_) => Obj([])
    case Object(members) => Obj(FromPairs(PairsOf(members)))
  }

  function ValuesOf(es: Elements): seq<Json> {
    [ValueOf(es.item)] + (if es.Element? then ValuesOf(es.more) else [])
  }

  function PairOf(m: Member): (Text, Json) { (m.key, ValueOf(m.item)) }

  function PairsOf(ms: Members): seq<(Text, Json)> {
    [PairOf(ms.member)] + (if ms.NextMember? then PairsOf(ms.more) else [])
  }

  /** A whole text that spells the value, with white space around it. */
  ghost predicate Document(v: Json, s: Text) {
    exists g, w, h :: Gap(g) && Valid(w) && Gap(h) && ValueOf(w) == v && s == g + Write(w, h)
  }

  // ---- reading one character -----------------------------------------------------------------------

  predicate LowEscapeFollows(s: Text) {
    |s| >= 6 && s[0] == BACKSLASH && s[1] == LETTER_U && ReadHex4(s[2..]).Some? && Low(ReadHex4(s[2..]).value)
  }

  predicate EscapeFollows(s: Text) {
    |s| >= 2 && s[0] == BACKSLASH && s[1] == LETTER_U
  }

  lemma ItemRead(s: Text, c: CodePoint, rest: Text)
    requires NextItem(s) == Char(c, rest)
    ensures ParseString(s) == match ParseString(rest) case Fail => Fail case Done(t, after) => Done([c] + t, after)
  {
  }

  lemma PlainReads(c: CodePoint, after: Text)
    requires c >= 32 && c != QUOTE && c != BACKSLASH
    ensures NextItem([c] + after) == Char(c, after)
  {
    var s := [c] + after;
    assert s[0] == c && s[1..] == after;
  }

  lemma HexExactly(h: CodePoint)
    ensures HexValue(h) == if Nibble(h) >= 0 then Some(Nibble(h)) else None
  {
  }

  /** Reading four digits after "\u" is reading a unit. */
  lemma UnitExactly(s: Text)
    requires |s| >= 6 && s[0] == 92 && s[1] == 117
    ensures ReadHex4(s[2..]) == if IsUnit(s[..6]) then Some(UnitValue(s[..6])) else None
  {
    var x, q := s[..6], s[2..];
    assert q[0] == x[2] && q[1] == x[3] && q[2] == x[4] && q[3] == x[5];
    HexExactly(x[2]);
    HexExactly(x[3]);
    HexExactly(x[4]);
    HexExactly(x[5]);
  }

  lemma FollowsExactly(s: Text)
    ensures LowEscapeFollows(s) <==> LowUnitFollows(s)
  {
    if |s| >= 6 && s[0] == 92 && s[1] == 117 { UnitExactly(s); }
    if LowUnitFollows(s) { assert s[..6][0] == s[0] && s[..6][1] == s[1]; }
  }

  lemma UnitRead(n: CodePoint, x: Text, r: Text)
    requires UnitSpelled(n, x) && (EscapeFollows(r) ==> ReadHex4(r[2..]).Some?)
    requires !(High(n) && LowUnitFollows(r))
    ensures NextItem(x + r) == Char(n, r)
  {
    var s := x + r;
    assert s[0] == x[0] && s[1] == x[1] && s[..6] == x && s[6..] == r;
    UnitExactly(s);
    FollowsExactly(r);
    if EscapeFollows(r) && |s| >= 8 { assert s[8..] == r[2..]; }
  }

  lemma PairReads(c: CodePoint, x: Text, r: Text)
    requires PairSpelled(c, x)
    ensures NextItem(x + r) == Char(c, r)
  {
    var high, low := UnitValue(x[..6]), UnitValue(x[6..]);
    var q := x[6..] + r;
    UnitAtFront(high, x[..6], q);
    UnitAtFront(low, x[6..], r);
    assert Combine(high, low) == c;
    TwoUnits(x[..6] + q, high, low);
    assert x == x[..6] + x[6..];
    Regroup(x[..6], x[6..], r);
    assert (x + r)[12..] == r;
  }

  lemma UnitAtFront(n: CodePoint, x: Text, r: Text)
    requires UnitSpelled(n, x)
    ensures EscapeFollows(x + r) && ReadHex4((x + r)[2..]) == Some(n) && (x + r)[6..] == r
  {
    assert (x + r)[0] == x[0] && (x + r)[1] == x[1] && (x + r)[..6] == x;
    UnitExactly(x + r);
  }

  lemma TwoUnits(s: Text, high: CodePoint, low: CodePoint)
    requires EscapeFollows(s) && ReadHex4(s[2..]) == Some(high) && High(high)
    requires |s| >= 12 && EscapeFollows(s[6..]) && ReadHex4(s[6..][2..]) == Some(low) && Low(low)
    ensures NextItem(s) == Char(Combine(high, low), s[12..])
  {
    assert s[6] == s[6..][0] && s[7] == s[6..][1] && s[8..] == s[6..][2..];
  }

  lemma CharReads(c: CodePoint, x: Text, r: Text)
    requires CharSpelled(c, x) && (EscapeFollows(r) ==> ReadHex4(r[2..]).Some?)
    requires !(High(c) && UnitSpelled(c, x) && LowUnitFollows(r))
    ensures NextItem(x + r) == Char(c, r)
  {
    if RawSpelled(c, x) {
      PlainReads(c, r);
    } else if ShortSpelled(c, x) {
      assert (x + r)[0] == x[0] && (x + r)[1] == x[1] && (x + r)[2..] == r;
    } else if UnitSpelled(c, x) {
      UnitRead(c, x, r);
    } else {
      PairReads(c, x, r);
    }
  }

  /** The character an item was read from. */
  lemma CharSound(s: Text) returns (x: Text)
    requires NextItem(s).Char?
    ensures var c, r := NextItem(s).c, NextItem(s).rest;
            s == x + r && CharSpelled(c, x) && !(High(c) && UnitSpelled(c, x) && LowUnitFollows(r))
  {
    var c, r := NextItem(s).c, NextItem(s).rest;
    if s[0] != BACKSLASH {
      x := [s[0]];
    } else if s[1] != LETTER_U {
      x := s[..2];
    } else {
      x := UnitSound(s);
    }
  }

  lemma UnitSound(s: Text) returns (x: Text)
    requires NextItem(s).Char? && s[0] == BACKSLASH && s[1] == LETTER_U
    ensures var c, r := NextItem(s).c, NextItem(s).rest;
            s == x + r && CharSpelled(c, x) && !(High(c) && UnitSpelled(c, x) && LowUnitFollows(r))
  {
    var c, r, unit := NextItem(s).c, NextItem(s).rest, ReadHex4(s[2..]).value;
    UnitExactly(s);
    FollowsExactly(s[6..]);
    if |s| >= 8 && s[6] == BACKSLASH && s[7] == LETTER_U {
      assert s[6..][2..] == s[8..] && s[6..][0] == s[6] && s[6..][1] == s[7];
    }
    if High(unit) && LowEscapeFollows(s[6..]) {
      x := s[..12];
      var low := ReadHex4(s[8..]).value;
      UnitExactly(s[6..]);
      assert x[..6] == s[..6] && x[6..] == s[6..][..6];
      PairBuilt(unit, low, x);
    } else {
      x := s[..6];
    }
  }

  lemma PairBuilt(high: CodePoint, low: CodePoint, x: Text)
    requires |x| == 12 && High(high) && Low(low) && UnitSpelled(high, x[..6]) && UnitSpelled(low, x[6..])
    ensures CharSpelled(Combine(high, low), x) && !UnitSpelled(Combine(high, low), x)
  {
    assert PairSpelled(Combine(high, low), x);
  }

  // ---- reading a string ----------------------------------------------------------------------------

  lemma LowUnitIsEscape(s: Text)
    requires LowUnitFollows(s)
    ensures EscapeFollows(s)
  {
    assert s[..6][0] == s[0] && s[..6][1] == s[1];
  }

  /** After an escape that begins "\u" come four digits, also past the closing quote. */
  lemma SpelledStart(t: Text, s: Text, rest: Text)
    requires StringSpelled(t, s)
    ensures var after := s + ([34] + rest);
            && (EscapeFollows(after) ==> ReadHex4(after[2..]).Some?)
            && (LowUnitFollows(after) ==> LowUnitFollows(s))
  {
    var after := s + ([34] + rest);
    if t == [] {
      assert after[0] == 34;
    } else if EscapeFollows(after) {
      var x, r :| s == x + r && CharSpelled(t[0], x) && StringSpelled(t[1..], r);
      Regroup(x, r, [34] + rest);
      assert x <= after;
      SpelledEscape(t[0], x, after);
      assert after[..6] == s[..6];
    }
    if LowUnitFollows(after) { LowUnitIsEscape(after); }
  }

  lemma SpelledEscape(c: CodePoint, x: Text, after: Text)
    requires CharSpelled(c, x) && x <= after && EscapeFollows(after)
    ensures |x| >= 6 && ReadHex4(after[2..]).Some?
  {
    assert x[0] == after[0];
    assert |x| >= 2 ==> x[1] == after[1];
    if UnitSpelled(c, x) {
      assert after[..6] == x;
      UnitExactly(after);
    } else {
      assert after[..6] == x[..6];
      UnitExactly(after);
    }
  }

  lemma {:induction false} StringReads(t: Text, s: Text, rest: Text)
    requires StringSpelled(t, s)
    ensures ParseString(s + ([34] + rest)) == Done(t, rest)
    decreases |t|
  {
    var all := s + ([34] + rest);
    if t == [] {
      assert all[0] == 34 && all[1..] == rest;
    } else {
      var x, r :| s == x + r && CharSpelled(t[0], x) && StringSpelled(t[1..], r)
                  && !(0xd800 <= t[0] < 0xdc00 && UnitSpelled(t[0], x) && LowUnitFollows(r));
      SpelledStart(t[1..], r, rest);
      StringReads(t[1..], r, rest);
      NextCharReads(t[0], x, t[1..], r, rest);
      assert t == [t[0]] + t[1..];
    }
  }

  lemma NextCharReads(c: CodePoint, x: Text, t: Text, r: Text, rest: Text)
    requires CharSpelled(c, x) && !(High(c) && UnitSpelled(c, x) && LowUnitFollows(r))
    requires var after := r + ([34] + rest);
             && (EscapeFollows(after) ==> ReadHex4(after[2..]).Some?) && (LowUnitFollows(after) ==> LowUnitFollows(r))
             && ParseString(after) == Done(t, rest)
    ensures ParseString((x + r) + ([34] + rest)) == Done([c] + t, rest)
  {
    var after := r + ([34] + rest);
    Regroup(x, r, [34] + rest);
    CharReads(c, x, after);
    ItemRead(x + after, c, after);
  }

  lemma {:induction false} StringSound(s: Text) returns (body: Text)
    requires ParseString(s).Done?
    ensures s == body + ([34] + ParseString(s).rest) && StringSpelled(ParseString(s).value, body)
    decreases |s|
  {
    var item := NextItem(s);
    if item.End? {
      body := [];
      assert s == [34] + s[1..];
    } else {
      var x := CharSound(s);
      var b := StringSound(item.rest);
      var rest := ParseString(s).rest;
      body := x + b;
      Regroup(x, b, [34] + rest);
      if LowUnitFollows(b) { assert item.rest[..6] == b[..6]; }
      StringExtends(item.c, x, ParseString(item.rest).value, b);
    }
  }

  lemma StringExtends(c: CodePoint, x: Text, t: Text, r: Text)
    requires CharSpelled(c, x) && StringSpelled(t, r)
    requires !(0xd800 <= c < 0xdc00 && UnitSpelled(c, x) && LowUnitFollows(r))
    ensures StringSpelled([c] + t, x + r)
  {
    assert ([c] + t)[1..] == t;
  }

  // ---- reading numbers and constants -----------------------------------------------------------------

  /** What may stand after a value: nothing, white space or punctuation. */
  predicate Delimited(r: Text) {
    r == [] || r[0] == 9 || r[0] == 10 || r[0] == 13 || r[0] == 32 || r[0] == 44 || r[0] == 93 || r[0] == 125
  }

  lemma {:induction false} RunOfDigits(t: Text, r: Text)
    requires (forall i :: 0 <= i < |t| ==> 48 <= t[i] <= 57) && (r == [] || !DigitCode(r[0]))
    ensures DigitRun(t + r) == |t|
  {
    if t == [] {
      assert t + r == r;
    } else {
      assert (t + r)[0] == t[0] && (t + r)[1..] == t[1..] + r;
      RunOfDigits(t[1..], r);
    }
  }

  lemma {:induction false} DigitRunExactly(s: Text)
    ensures forall i :: 0 <= i < DigitRun(s) ==> 48 <= s[i] <= 57
    ensures DigitRun(s) < |s| ==> !DigitCode(s[DigitRun(s)])
  {
    if s != [] && DigitCode(s[0]) {
      DigitRunExactly(s[1..]);
      assert forall i :: 1 <= i < DigitRun(s) ==> s[i] == s[1..][i - 1];
    }
  }

  /** Nothing a number could go on with. */
  predicate Ends(r: Text) { r == [] || !(DigitCode(r[0]) || r[0] == 46 || r[0] == 101 || r[0] == 69) }

  lemma ExponentReads(e: Text, r: Text)
    requires Exponent(e) && Ends(r)
    ensures ExponentLength(e + r) == |e|
  {
    var s := e + r;
    if e == [] {
      assert s == r;
    } else if Digits(e[1..]) {
      assert s[1] == e[1..][0] && s[1..] == e[1..] + r;
      RunOfDigits(e[1..], r);
    } else {
      assert s[1] == e[1] && s[2..] == e[2..] + r;
      RunOfDigits(e[2..], r);
    }
  }

  lemma FractionReads(f: Text, r: Text)
    requires Fraction(f) && (r == [] || !(DigitCode(r[0]) || r[0] == 46))
    ensures FractionLength(f + r) == |f|
  {
    if f == [] {
      assert f + r == r;
    } else {
      assert (f + r)[1..] == f[1..] + r;
      RunOfDigits(f[1..], r);
    }
  }

  lemma WholeReads(w: Text, r: Text)
    requires Whole(w) && (r == [] || !DigitCode(r[0]))
    ensures WholeLength(w + r) == |w|
  {
    RunOfDigits(w, r);
    assert (w + r)[0] == w[0];
  }

  lemma TailReads(f: Text, e: Text, r: Text)
    requires Fraction(f) && Exponent(e) && Ends(r)
    ensures TailLength(f + (e + r)) == |f| + |e|
  {
    var after := e + r;
    assert after != [] ==> after[0] == (if e == [] then r[0] else e[0]);
    FractionReads(f, after);
    ExponentReads(e, r);
    assert (f + after)[|f|..] == after;
  }

  lemma UnsignedReads(w: Text, f: Text, e: Text, r: Text)
    requires Whole(w) && Fraction(f) && Exponent(e) && Ends(r)
    ensures UnsignedLength(w + (f + (e + r))) == |w| + |f| + |e|
  {
    var after := f + (e + r);
    assert after != [] ==> after[0] == (if f != [] then 46 else if e != [] then e[0] else r[0]);
    WholeReads(w, after);
    TailReads(f, e, r);
    assert (w + after)[|w|..] == after;
  }

  lemma SignedReads(g: Text, unsigned: Text)
    requires Sign(g) && UnsignedLength(unsigned) > 0 && DigitCode(unsigned[0])
    ensures NumberLength(g + unsigned) == |g| + UnsignedLength(unsigned)
  {
    assert (g + unsigned)[|g|..] == unsigned;
    assert (g + unsigned)[0] == (if g == [] then unsigned[0] else 45);
  }

  lemma NumberReads(t: Text, r: Text)
    requires NumberSpelled(t) && Ends(r)
    ensures NumberLength(t + r) == |t| > 0 && (t[0] == 45 || DigitCode(t[0]))
  {
    var g, w, f, e :| t == g + (w + (f + e)) && Sign(g) && Whole(w) && Fraction(f) && Exponent(e);
    UnsignedReads(w, f, e, r);
    Regroup(f, e, r);
    Regroup(w, f + e, r);
    Regroup(g, w + (f + e), r);
    SignedReads(g, w + (f + (e + r)));
    assert t[0] == (if g == [] then w[0] else 45);
  }

  lemma UnsignedSound(s: Text) returns (w: Text, f: Text, e: Text)
    requires UnsignedLength(s) > 0
    ensures s[..UnsignedLength(s)] == w + (f + e) && Whole(w) && Fraction(f) && Exponent(e)
  {
    var b := WholeLength(s);
    var tail := s[b..];
    var c := FractionLength(tail);
    var d := ExponentLength(tail[c..]);
    w, f, e := s[..b], tail[..c], tail[c..][..d];
    WholeSound(s);
    FractionSound(tail);
    ExponentSound(tail[c..]);
    TakeTwo(tail, c, d);
    TakeTwo(s, b, c + d);
  }

  lemma NumberSound(s: Text)
    requires NumberLength(s) > 0
    ensures NumberSpelled(s[..NumberLength(s)])
  {
    var a := SignLength(s);
    var w, f, e := UnsignedSound(s[a..]);
    TakeTwo(s, a, UnsignedLength(s[a..]));
    NumberBuilt(s[..a], w, f, e);
  }

  lemma NumberBuilt(g: Text, w: Text, f: Text, e: Text)
    requires Sign(g) && Whole(w) && Fraction(f) && Exponent(e)
    ensures NumberSpelled(g + (w + (f + e)))
  {
  }

  lemma TakeTwo(s: Text, m: nat, n: nat)
    requires m + n <= |s|
    ensures s[..m + n] == s[..m] + s[m..][..n]
  {
  }

  lemma WholeSound(s: Text)
    requires WholeLength(s) > 0
    ensures Whole(s[..WholeLength(s)])
  {
    DigitRunExactly(s);
  }

  lemma FractionSound(s: Text)
    ensures Fraction(s[..FractionLength(s)])
  {
    if FractionLength(s) > 0 {
      DigitRunExactly(s[1..]);
      assert s[..FractionLength(s)][1..] == s[1..][..DigitRun(s[1..])];
    }
  }

  lemma ExponentSound(s: Text)
    ensures Exponent(s[..ExponentLength(s)])
  {
    var n := ExponentLength(s);
    if n > 0 {
      var start := if 1 < |s| && (s[1] == 43 || s[1] == 45) then 2 else 1;
      DigitRunExactly(s[start..]);
      assert s[..n][start..] == s[start..][..n - start];
    }
  }

  lemma LiteralReads(t: Text, r: Text)
    requires Lexeme(t) && Delimited(r)
    ensures ParseLiteral(t + r) == Done(Literal(t), r)
    ensures t != [] && t[0] != 34 && t[0] != 91 && t[0] != 123 && !JsonSpace(t[0])
  {
    if NumberSpelled(t) {
      NumberLiteralReads(t, r);
    } else {
      ConstantReads(t, r);
    }
  }

  lemma NumberLiteralReads(t: Text, r: Text)
    requires NumberSpelled(t) && Ends(r)
    ensures ParseLiteral(t + r) == Done(Literal(t), r) && t != [] && (t[0] == 45 || DigitCode(t[0]))
  {
    NumberReads(t, r);
    NumberIsLiteral(t + r);
    assert (t + r)[..|t|] == t && (t + r)[|t|..] == r;
  }

  lemma NumberIsLiteral(s: Text)
    requires NumberLength(s) > 0 && (s[0] == 45 || DigitCode(s[0]))
    ensures ParseLiteral(s) == Done(Literal(s[..NumberLength(s)]), s[NumberLength(s)..])
  {
    ConstantHeads(s);
  }

  lemma ConstantHeads(s: Text)
    ensures NULL <= s ==> s[0] == 110
    ensures TRUE <= s ==> s[0] == 116
    ensures FALSE <= s ==> s[0] == 102
  {
    var n, t, f := NULL, TRUE, FALSE;
    assert n[0] == 110;
    assert t[0] == 116;
    assert f[0] == 102;
  }

  lemma ConstantsAreChars()
    ensures NULL == Chars("null") && TRUE == Chars("true") && FALSE == Chars("false")
    ensures NAN == Chars("NaN") && INFINITY == Chars("Infinity") && MINUS_INFINITY == Chars("-Infinity")
  {
  }

  lemma ConstantReads(t: Text, r: Text)
    requires t in {Chars("null"), Chars("true"), Chars("false"), Chars("NaN"), Chars("Infinity"), Chars("-Infinity")}
    ensures ParseLiteral(t + r) == Done(Literal(t), r)
    ensures t != [] && t[0] != 34 && t[0] != 91 && t[0] != 123 && !JsonSpace(t[0])
  {
    var s := t + r;
    ConstantsAreChars();
    assert s[..|t|] == t && s[|t|..] == r && s[0] == t[0];
    if s[0] == 45 || s[0] == 73 || s[0] == 78 {
      NoNumber(s);
    }
  }

  lemma NoNumber(s: Text)
    requires s != [] && !DigitCode(s[0]) && (s[0] == 45 ==> |s| == 1 || !DigitCode(s[1]))
    ensures NumberLength(s) == 0
  {
    if s[0] == 45 && |s| > 1 { assert s[1..][0] == s[1]; }
  }

  lemma LiteralSound(s: Text)
    requires ParseLiteral(s).Done?
    ensures ParseLiteral(s).value.Literal?
    ensures var t := ParseLiteral(s).value.lexeme;
            s == t + ParseLiteral(s).rest && Lexeme(t)
  {
    ConstantsAreChars();
    if NULL <= s { PrefixSplits(NULL, s); }
    else if TRUE <= s { PrefixSplits(TRUE, s); }
    else if FALSE <= s { PrefixSplits(FALSE, s); }
    else if NumberLength(s) > 0 { NumberSound(s); PrefixSplits(s[..NumberLength(s)], s); }
    else if NAN <= s { PrefixSplits(NAN, s); }
    else if INFINITY <= s { PrefixSplits(INFINITY, s); }
    else { PrefixSplits(MINUS_INFINITY, s); }
  }

  lemma PrefixSplits(t: Text, s: Text)
    requires t <= s
    ensures s == t + s[|t|..]
  {
  }

  // ---- white space -------------------------------------------------------------------------------

  lemma {:induction false} SkipGap(g: Text, y: Text)
    requires Gap(g)
    ensures SkipSpace(g + y) == SkipSpace(y)
  {
    if g == [] {
      assert g + y == y;
    } else {
      assert (g + y)[0] == g[0] && (g + y)[1..] == g[1..] + y;
      SkipGap(g[1..], y);
    }
  }

  lemma {:induction false} GapSkipped(s: Text) returns (g: Text)
    ensures s == g + SkipSpace(s) && Gap(g)
  {
    if s != [] && JsonSpace(s[0]) {
      var h := GapSkipped(s[1..]);
      g := [s[0]] + h;
      Regroup([s[0]], h, SkipSpace(s));
    } else {
      g := [];
    }
  }

  lemma GapDelimits(h: Text, c: CodePoint, r: Text)
    requires Gap(h) && !JsonSpace(c)
    ensures SkipSpace(h + ([c] + r)) == [c] + r && ([c] + r)[1..] == r
    ensures c == 44 || c == 93 || c == 125 ==> Delimited(h + ([c] + r))
  {
    SkipGap(h, [c] + r);
    assert h != [] ==> (h + ([c] + r))[0] == h[0];
  }

  // ---- every spelling is read --------------------------------------------------------------------

  /** A value starts with none of white space, a closing bracket or a byte order mark. */
  predicate Starts(s: Text) {
    s != [] && !JsonSpace(s[0]) && s[0] != 93 && s[0] != 125 && s[0] != BYTE_ORDER_MARK
  }

  lemma WriteStarts(w: Spelling, rest: Text)
    requires Valid(w)
    ensures Starts(Write(w, rest)) && SkipSpace(Write(w, rest)) == Write(w, rest)
  {
    if w.Lexical? {
      LexemeStarts(w.lexeme);
      assert Write(w, rest)[0] == w.lexeme[0];
    }
  }

  lemma LexemeStarts(t: Text)
    requires Lexeme(t)
    ensures Starts(t)
  {
    LiteralReads(t, []);
    if NumberSpelled(t) { NumberReads(t, []); }
  }

  lemma {:induction false} ValueReads(w: Spelling, rest: Text)
    requires Valid(w) && (Delimited(rest) || !w.Lexical?)
    ensures ParseValue(Write(w, rest)) == Done(ValueOf(w), rest)
  {
    var s := Write(w, rest);
    match w {
      case Lexical(lexeme) =>
        LiteralReads(lexeme, rest);
        assert s[0] == lexeme[0];
      case Quoted(text, body) =>
        StringReads(text, body, rest);
        assert s[1..] == body + ([34] + rest);
      case EmptyArray(gap) =>
        GapDelimits(gap, 93, rest);
        assert s[1..] == gap + ([93] + rest);
      case Array(elements) =>
        ElementsRead(elements, rest);
        assert s[1..] == WriteElements(elements, rest);
      case EmptyObject(gap) =>
        GapDelimits(gap, 125, rest);
        assert s[1..] == gap + ([125] + rest);
      case Object(members) =>
        MembersRead(members, rest);
        assert s[1..] == WriteMembers(members, rest);
    }
  }

  lemma {:induction false} ElementsRead(es: Elements, rest: Text)
    requires ValidElements(es)
    ensures var y := SkipSpace(WriteElements(es, rest));
            y != [] && y[0] != 93 && ParseItems(y) == Done(ValuesOf(es), rest)
  {
    var tail := es.after + (if es.Element? then [44] + WriteElements(es.more, rest) else [93] + rest);
    SkipGap(es.before, Write(es.item, tail));
    WriteStarts(es.item, tail);
    match es {
      case LastElement(_, item, after) =>
        GapDelimits(after, 93, rest);
        ValueReads(item, tail);
        assert ValuesOf(es) == [ValueOf(item)];
      case Element(_, item, after, more) =>
        GapDelimits(after, 44, WriteElements(more, rest));
        ValueReads(item, tail);
        ElementsRead(more, rest);
    }
  }

  lemma {:induction false} WrittenMemberReads(m: Member, rest: Text)
    requires ValidMember(m) && Delimited(rest)
    ensures ParseMember(WriteMember(m, rest)) == Done(PairOf(m), rest)
  {
    var value := Write(m.item, rest);
    var colon := [58] + (m.afterColon + value);
    var s := WriteMember(m, rest);
    assert s[0] == 34 && s[1..] == m.body + ([34] + (m.beforeColon + colon));
    StringReads(m.key, m.body, m.beforeColon + colon);
    GapDelimits(m.beforeColon, 58, m.afterColon + value);
    WriteStarts(m.item, rest);
    SkipGap(m.afterColon, value);
    ValueReads(m.item, rest);
  }

  lemma {:induction false} MembersRead(ms: Members, rest: Text)
    requires ValidMembers(ms)
    ensures var y := SkipSpace(WriteMembers(ms, rest));
            y != [] && y[0] != 125 && ParsePairs(y) == Done(PairsOf(ms), rest)
  {
    var tail := ms.after + (if ms.NextMember? then [44] + WriteMembers(ms.more, rest) else [125] + rest);
    SkipGap(ms.before, WriteMember(ms.member, tail));
    match ms {
      case LastMember(_, member, after) =>
        GapDelimits(after, 125, rest);
        WrittenMemberReads(member, tail);
        PairsStep(WriteMember(member, tail));
        assert PairsOf(ms) == [PairOf(member)];
      case NextMember(_, member, after, more) =>
        GapDelimits(after, 44, WriteMembers(more, rest));
        WrittenMemberReads(member, tail);
        MembersRead(more, rest);
        PairsStep(WriteMember(member, tail));
    }
  }

  /** One step of reading members, once a member is read. */
  lemma PairsStep(y: Text)
    ensures ParseMember(y).Done? ==>
              var pair, next := ParseMember(y).value, SkipSpace(ParseMember(y).rest);
              && (next != [] && next[0] == 125 ==> ParsePairs(y) == Done([pair], next[1..]))
              && (next != [] && next[0] == 44 && ParsePairs(SkipSpace(next[1..])).Done? ==>
                    var more := ParsePairs(SkipSpace(next[1..]));
                    ParsePairs(y) == Done([pair] + more.value, more.rest))
  {
  }

  // ---- whatever is read is a spelling ----------------------------------------------------------------

  lemma {:induction false} ValueSound(s: Text) returns (w: Spelling)
    requires ParseValue(s).Done?
    ensures Valid(w) && ValueOf(w) == ParseValue(s).value && s == Write(w, ParseValue(s).rest)
    decreases |s|, 1
  {
    if s[0] == 34 {
      var body := StringSound(s[1..]);
      w := Quoted(ParseString(s[1..]).value, body);
      HeadAndTail(s);
    } else if s[0] == 91 {
      w := ArraySound(s);
    } else if s[0] == 123 {
      w := ObjectSound(s);
    } else {
      LiteralSound(s);
      w := Lexical(ParseLiteral(s).value.lexeme);
    }
  }

  lemma HeadAndTail(s: Text)
    requires s != []
    ensures s == [s[0]] + s[1..]
  {
  }

  lemma {:induction false} ArraySound(s: Text) returns (w: Spelling)
    requires ParseValue(s).Done? && s[0] == 91
    ensures Valid(w) && ValueOf(w) == ParseValue(s).value && s == Write(w, ParseValue(s).rest)
    decreases |s|, 0
  {
    var g := GapSkipped(s[1..]);
    var inner := SkipSpace(s[1..]);
    HeadAndTail(s);
    HeadAndTail(inner);
    if inner[0] == 93 {
      w := EmptyArray(g);
    } else {
      var es := ElementsSound(g, inner);
      w := Array(es);
    }
  }

  lemma {:induction false} ObjectSound(s: Text) returns (w: Spelling)
    requires ParseValue(s).Done? && s[0] == 123
    ensures Valid(w) && ValueOf(w) == ParseValue(s).value && s == Write(w, ParseValue(s).rest)
    decreases |s|, 0
  {
    var g := GapSkipped(s[1..]);
    var inner := SkipSpace(s[1..]);
    HeadAndTail(s);
    HeadAndTail(inner);
    if inner[0] == 125 {
      w := EmptyObject(g);
    } else {
      var ms := MembersSound(g, inner);
      w := Object(ms);
    }
  }

  lemma {:induction false} ElementsSound(g: Text, s: Text) returns (es: Elements)
    requires Gap(g) && ParseItems(s).Done?
    ensures ValidElements(es) && ValuesOf(es) == ParseItems(s).value && g + s == WriteElements(es, ParseItems(s).rest)
    decreases |s|, 2
  {
    var item := ValueSound(s);
    var after := ParseValue(s).rest;
    var h := GapSkipped(after);
    var next := SkipSpace(after);
    HeadAndTail(next);
    if next[0] == 93 {
      es := LastElement(g, item, h);
    } else {
      var f := GapSkipped(next[1..]);
      var more := ElementsSound(f, SkipSpace(next[1..]));
      es := Element(g, item, h, more);
    }
  }

  lemma {:induction false} MemberSound(s: Text) returns (m: Member)
    requires ParseMember(s).Done?
    ensures ValidMember(m) && PairOf(m) == ParseMember(s).value && s == WriteMember(m, ParseMember(s).rest)
    decreases |s|, 2
  {
    var body := StringSound(s[1..]);
    var afterKey := ParseString(s[1..]).rest;
    var h := GapSkipped(afterKey);
    var colon := SkipSpace(afterKey);
    var g := GapSkipped(colon[1..]);
    var item := ValueSound(SkipSpace(colon[1..]));
    m := Member(ParseString(s[1..]).value, body, h, g, item);
    HeadAndTail(s);
    HeadAndTail(colon);
  }

  lemma {:induction false} MembersSound(g: Text, s: Text) returns (ms: Members)
    requires Gap(g) && ParsePairs(s).Done?
    ensures ValidMembers(ms) && PairsOf(ms) == ParsePairs(s).value && g + s == WriteMembers(ms, ParsePairs(s).rest)
    decreases |s|, 3
  {
    var member := MemberSound(s);
    var after := ParseMember(s).rest;
    var h := GapSkipped(after);
    var next := SkipSpace(after);
    HeadAndTail(next);
    if next[0] == 125 {
      ms := LastMember(g, member, h);
    } else {
      var f := GapSkipped(next[1..]);
      var more := MembersSound(f, SkipSpace(next[1..]));
      ms := NextMember(g, member, h, more);
    }
  }

  // ---- exactly the documents are read ------------------------------------------------------------------

  lemma DocumentReads(g: Text, w: Spelling, h: Text)
    requires Gap(g) && Valid(w) && Gap(h)
    ensures Loads(g + Write(w, h)) == Some(ValueOf(w))
  {
    var s := g + Write(w, h);
    WriteStarts(w, h);
    assert s[0] == (if g == [] then Write(w, h)[0] else g[0]);
    SkipGap(g, Write(w, h));
    SkipGap(h, []);
    assert h + [] == h;
    ValueReads(w, h);
  }

  lemma DocumentSound(s: Text)
    requires Loads(s).Some?
    ensures Document(Loads(s).value, s)
  {
    var g := GapSkipped(s);
    var w := ValueSound(SkipSpace(s));
    var h := GapSkipped(ParseValue(SkipSpace(s)).rest);
    assert h + [] == h;
  }

  /** `json.loads` accepts exactly the texts that spell a value, and gives exactly that value. */
  lemma LoadsExactly(s: Text, v: Json)
    ensures Loads(s) == Some(v) <==> Document(v, s)
  {
    if Document(v, s) {
      var g, w, h :| Gap(g) && Valid(w) && Gap(h) && ValueOf(w) == v && s == g + Write(w, h);
      DocumentReads(g, w, h);
    }
    if Loads(s) == Some(v) {
      DocumentSound(s);
    }
  }

  // ---- repeated keys -----------------------------------------------------------------------------------

  /** The value of the last pair with the key, if there is one. */
  function LastValue(pairs: seq<(Text, Json)>, key: Text): Option<Json> {
    if pairs == [] then None
    else if pairs[|pairs| - 1].0 == key then Some(pairs[|pairs| - 1].1)
    else LastValue(pairs[..|pairs| - 1], key)
  }

  lemma {:induction false} LookupAfterPut(fields: seq<(Text, Json)>, key: Text, v: Json, other: Text)
    ensures Lookup(Put(fields, key, v), other) == if other == key then Some(v) else Lookup(fields, other)
  {
    if fields != [] && fields[0].0 != key {
      LookupAfterPut(fields[1..], key, v, other);
    }
  }

  /** Of repeated keys the last value counts. */
  lemma {:induction false} LastValueWins(pairs: seq<(Text, Json)>, key: Text)
    ensures Lookup(FromPairs(pairs), key) == LastValue(pairs, key)
  {
    if pairs != [] {
      var n := |pairs| - 1;
      LastValueWins(pairs[..n], key);
      LookupAfterPut(FromPairs(pairs[..n]), pairs[n].0, pairs[n].1, key);
    }
  }
}
