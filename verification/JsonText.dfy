/** JSON as Python's `json` module reads and writes it, over texts of code points.

    A text may hold lone surrogates, as a Python `str` may. Numbers, `null`, booleans and the
    non-finite constants are kept as the lexeme they were read from. */
module JsonText {
  import opened Texts

  datatype Json =
    | Literal(lexeme: Text)
    | Str(text: Text)
    | Arr(items: seq<Json>)
    | Obj(fields: seq<(Text, Json)>)

  const QUOTE: CodePoint := 34
  const COMMA: CodePoint := 44
  const COLON: CodePoint := 58
  const BACKSLASH: CodePoint := 92
  const LETTER_U: CodePoint := 117
  const OPEN_BRACKET: CodePoint := 91
  const CLOSE_BRACKET: CodePoint := 93
  const OPEN_BRACE: CodePoint := 123
  const CLOSE_BRACE: CodePoint := 125
  const BYTE_ORDER_MARK: CodePoint := 0xfeff

  predicate High(c: CodePoint) { 0xd800 <= c < 0xdc00 }

  predicate Low(c: CodePoint) { 0xdc00 <= c < 0xe000 }

  function Combine(high: CodePoint, low: CodePoint): CodePoint
    requires High(high) && Low(low)
  {
    0x1_0000 + (high - 0xd800) * 0x400 + (low - 0xdc00)
  }

  // ---- writing -------------------------------------------------------------------------------

  function HexDigit(d: int): CodePoint
    requires 0 <= d < 16
  { if d < 10 then 48 + d else 87 + d }

  function Hex4(n: int): Text
    requires 0 <= n < 0x1_0000
  {
    [HexDigit(n / 0x1000), HexDigit(n / 0x100 % 16), HexDigit(n / 16 % 16), HexDigit(n % 16)]
  }

  function UnicodeEscape(n: int): Text
    requires 0 <= n < 0x1_0000
  {
    [BACKSLASH, LETTER_U] + Hex4(n)
  }

  function ShortEscape(c: CodePoint): Option<CodePoint> {
    if c == QUOTE || c == BACKSLASH then Some(c)
    else if c == 8 then Some(98)
    else if c == 12 then Some(102)
    else if c == 10 then Some(110)
    else if c == 13 then Some(114)
    else if c == 9 then Some(116)
    else None
  }

  function HighHalf(c: CodePoint): (h: CodePoint)
    requires c >= 0x1_0000
    ensures High(h)
  { 0xd800 + (c - 0x1_0000) / 0x400 }

  function LowHalf(c: CodePoint): (l: CodePoint)
    requires c >= 0x1_0000
    ensures Low(l) && Combine(HighHalf(c), l) == c
  { 0xdc00 + (c - 0x1_0000) % 0x400 }

  /** One character inside a written string; `ascii` is Python's `ensure_ascii`. */
  function Escape(c: CodePoint, ascii: bool): Text {
    if ShortEscape(c).Some? then [BACKSLASH, ShortEscape(c).value]
    else if c < 32 || (ascii && 126 < c < 0x1_0000) then UnicodeEscape(c)
    else if ascii && c >= 0x1_0000 then
      UnicodeEscape(HighHalf(c)) + UnicodeEscape(LowHalf(c))
    else [c]
  }

  function EscapeAll(t: Text, ascii: bool): Text {
    if t == [] then [] else Escape(t[0], ascii) + EscapeAll(t[1..], ascii)
  }

  function PrintString(t: Text, ascii: bool): Text {
    [QUOTE] + EscapeAll(t, ascii) + [QUOTE]
  }

  /** `json.dumps` with the separators "," and ":". */
  function Print(v: Json, ascii: bool): Text
    decreases v, 1
  {
    match v
    case Literal(lexeme) => lexeme
    case Str(t) => PrintString(t, ascii)
    case Arr(items) => [OPEN_BRACKET] + (if items == [] then [CLOSE_BRACKET] else PrintItems(items, ascii))
    case Obj(fields) => [OPEN_BRACE] + (if fields == [] then [CLOSE_BRACE] else PrintFields(fields, ascii))
  }

  /** The items up to and including the closing bracket. */
  function PrintItems(items: seq<Json>, ascii: bool): Text
    requires items != []
    decreases items, 0
  {
    Print(items[0], ascii)
    + (if |items| == 1 then [CLOSE_BRACKET] else [COMMA] + PrintItems(items[1..], ascii))
  }

  function PrintFields(fields: seq<(Text, Json)>, ascii: bool): Text
    requires fields != []
    decreases fields, 0
  {
    PrintField(fields[0], ascii)
    + (if |fields| == 1 then [CLOSE_BRACE] else [COMMA] + PrintFields(fields[1..], ascii))
  }

  function PrintField(field: (Text, Json), ascii: bool): Text
    decreases field, 0
  {
    PrintString(field.0, ascii) + [COLON] + Print(field.1, ascii)
  }

  // ---- reading -------------------------------------------------------------------------------

  datatype Parsed<+T> = Fail | Done(value: T, rest: Text)

  predicate JsonSpace(c: CodePoint) { c == 32 || c == 9 || c == 10 || c == 13 }

  function SkipSpace(s: Text): (r: Text)
    ensures |r| <= |s|
  {
    if s != [] && JsonSpace(s[0]) then SkipSpace(s[1..]) else s
  }

  function HexValue(c: CodePoint): (r: Option<int>)
    ensures r.Some? ==> 0 <= r.value < 16
  {
    if 48 <= c <= 57 then Some(c - 48)
    else if 97 <= c <= 102 then Some(c - 87)
    else if 65 <= c <= 70 then Some(c - 55)
    else None
  }

  function ReadHex4(s: Text): (r: Option<CodePoint>)
    ensures r.Some? ==> |s| >= 4 && r.value < 0x1_0000
  {
    if |s| < 4 then None
    else
      var a, b, c, d := HexValue(s[0]), HexValue(s[1]), HexValue(s[2]), HexValue(s[3]);
      if a.None? || b.None? || c.None? || d.None? then None
      else Some(a.value * 0x1000 + b.value * 0x100 + c.value * 16 + d.value)
  }

  function UnescapeShort(c: CodePoint): Option<CodePoint> {
    if c == QUOTE || c == BACKSLASH || c == 47 then Some(c)
    else if c == 98 then Some(8)
    else if c == 102 then Some(12)
    else if c == 110 then Some(10)
    else if c == 114 then Some(13)
    else if c == 116 then Some(9)
    else None
  }

  datatype Item = Bad | End(rest: Text) | Char(c: CodePoint, rest: Text)

  /** The next character of a string body, or its closing quote. */
  function NextItem(s: Text): (r: Item)
    ensures r.Char? ==> |r.rest| < |s|
    ensures r.End? ==> |r.rest| < |s|
  {
    if s == [] then Bad
    else if s[0] == QUOTE then End(s[1..])
    else if s[0] < 32 then Bad
    else if s[0] != BACKSLASH then Char(s[0], s[1..])
    else if |s| < 2 then Bad
    else if s[1] != LETTER_U then
      if UnescapeShort(s[1]).None? then Bad else Char(UnescapeShort(s[1]).value, s[2..])
    else
      var unit := ReadHex4(s[2..]);
      if unit.None? then Bad
      else if High(unit.value) && |s| >= 8 && s[6] == BACKSLASH && s[7] == LETTER_U then
        var second := ReadHex4(s[8..]);
        if second.None? then Bad
        else if Low(second.value) then Char(Combine(unit.value, second.value), s[12..])
        else Char(unit.value, s[6..])
      else Char(unit.value, s[6..])
  }

  /** A string body after its opening quote. */
  function ParseString(s: Text): (r: Parsed<Text>)
    ensures r.Done? ==> |r.rest| < |s|
    decreases |s|
  {
    match NextItem(s)
    case Bad => Fail
    case End(rest) => Done([], rest)
    case Char(c, rest) =>
      match ParseString(rest)
      case Fail => Fail
      case Done(t, after) => Done([c] + t, after)
  }

  predicate DigitCode(c: CodePoint) { 48 <= c <= 57 }

  function DigitRun(s: Text): (n: nat)
    ensures n <= |s|
  {
    if s != [] && DigitCode(s[0]) then 1 + DigitRun(s[1..]) else 0
  }

  function SignLength(s: Text): (n: nat)
    ensures n <= |s|
  {
    if s != [] && s[0] == 45 then 1 else 0
  }

  function WholeLength(s: Text): (n: nat)
    ensures n <= |s|
  {
    var digits := DigitRun(s);
    if digits == 0 then 0 else if s[0] == 48 then 1 else digits
  }

  function FractionLength(s: Text): (n: nat)
    ensures n <= |s|
  {
    var digits := if s != [] && s[0] == 46 then DigitRun(s[1..]) else 0;
    if digits == 0 then 0 else 1 + digits
  }

  function ExponentLength(s: Text): (n: nat)
    ensures n <= |s|
  {
    if s != [] && (s[0] == 101 || s[0] == 69) then
      var start := if 1 < |s| && (s[1] == 43 || s[1] == 45) then 2 else 1;
      var power := DigitRun(s[start..]);
      if power == 0 then 0 else start + power
    else 0
  }

  function TailLength(s: Text): (n: nat)
    ensures n <= |s|
  {
    FractionLength(s) + ExponentLength(s[FractionLength(s)..])
  }

  function UnsignedLength(s: Text): (n: nat)
    ensures n <= |s|
  {
    if WholeLength(s) == 0 then 0 else WholeLength(s) + TailLength(s[WholeLength(s)..])
  }

  /** How many characters of `s` the number grammar takes; zero when it does not match. */
  function NumberLength(s: Text): (n: nat)
    ensures n <= |s|
  {
    if UnsignedLength(s[SignLength(s)..]) == 0 then 0 else SignLength(s) + UnsignedLength(s[SignLength(s)..])
  }

  const NULL: Text := [110, 117, 108, 108]
  const TRUE: Text := [116, 114, 117, 101]
  const FALSE: Text := [102, 97, 108, 115, 101]
  const NAN: Text := [78, 97, 78]
  const INFINITY: Text := [73, 110, 102, 105, 110, 105, 116, 121]
  const MINUS_INFINITY: Text := [45, 73, 110, 102, 105, 110, 105, 116, 121]

  function ParseLiteral(s: Text): (r: Parsed<Json>)
    ensures r.Done? ==> |r.rest| < |s|
  {
    if NULL <= s then Done(Literal(NULL), s[4..])
    else if TRUE <= s then Done(Literal(TRUE), s[4..])
    else if FALSE <= s then Done(Literal(FALSE), s[5..])
    else if NumberLength(s) > 0 then Done(Literal(s[..NumberLength(s)]), s[NumberLength(s)..])
    else if NAN <= s then Done(Literal(NAN), s[3..])
    else if INFINITY <= s then Done(Literal(INFINITY), s[8..])
    else if MINUS_INFINITY <= s then Done(Literal(MINUS_INFINITY), s[9..])
    else Fail
  }

  function ParseValue(s: Text): (r: Parsed<Json>)
    ensures r.Done? ==> |r.rest| < |s|
    decreases |s|, 0
  {
    if s == [] then Fail
    else if s[0] == QUOTE then
      match ParseString(s[1..])
      case Fail => Fail
      case Done(t, rest) => Done(Str(t), rest)
    else if s[0] == OPEN_BRACKET then
      var body := SkipSpace(s[1..]);
      if body != [] && body[0] == CLOSE_BRACKET then Done(Arr([]), body[1..])
      else
        match ParseItems(body)
        case Fail => Fail
        case Done(items, rest) => Done(Arr(items), rest)
    else if s[0] == OPEN_BRACE then
      var body := SkipSpace(s[1..]);
      if body != [] && body[0] == CLOSE_BRACE then Done(Obj([]), body[1..])
      else
        match ParsePairs(body)
        case Fail => Fail
        case Done(pairs, rest) => Done(Obj(FromPairs(pairs)), rest)
    else ParseLiteral(s)
  }

  /** One or more comma-separated values and the closing bracket. */
  function ParseItems(s: Text): (r: Parsed<seq<Json>>)
    ensures r.Done? ==> |r.rest| < |s|
    decreases |s|, 1
  {
    match ParseValue(s)
    case Fail => Fail
    case Done(v, afterValue) =>
      var next := SkipSpace(afterValue);
      if next == [] then Fail
      else if next[0] == CLOSE_BRACKET then Done([v], next[1..])
      else if next[0] != COMMA then Fail
      else
        match ParseItems(SkipSpace(next[1..]))
        case Fail => Fail
        case Done(items, rest) => Done([v] + items, rest)
  }

  /** A key, a colon and a value. */
  function ParseMember(s: Text): (r: Parsed<(Text, Json)>)
    ensures r.Done? ==> |r.rest| < |s|
    decreases |s|, 1
  {
    if s == [] || s[0] != QUOTE then Fail
    else
      match ParseString(s[1..])
      case Fail => Fail
      case Done(key, afterKey) =>
        var colon := SkipSpace(afterKey);
        if colon == [] || colon[0] != COLON then Fail
        else
          match ParseValue(SkipSpace(colon[1..]))
          case Fail => Fail
          case Done(v, rest) => Done((key, v), rest)
  }

  /** One or more comma-separated members and the closing brace. */
  function ParsePairs(s: Text): (r: Parsed<seq<(Text, Json)>>)
    ensures r.Done? ==> |r.rest| < |s|
    decreases |s|, 2
  {
    match ParseMember(s)
    case Fail => Fail
    case Done(pair, afterPair) =>
      var next := SkipSpace(afterPair);
      if next == [] then Fail
      else if next[0] == CLOSE_BRACE then Done([pair], next[1..])
      else if next[0] != COMMA then Fail
      else
        match ParsePairs(SkipSpace(next[1..]))
        case Fail => Fail
        case Done(pairs, rest) => Done([pair] + pairs, rest)
  }

  /** A Python dict built from pairs: a repeated key keeps its first place and its last value. */
  function Put(fields: seq<(Text, Json)>, key: Text, v: Json): seq<(Text, Json)> {
    if fields == [] then [(key, v)]
    else if fields[0].0 == key then [(key, v)] + fields[1..]
    else [fields[0]] + Put(fields[1..], key, v)
  }

  function FromPairs(pairs: seq<(Text, Json)>): seq<(Text, Json)> {
    if pairs == [] then []
    else Put(FromPairs(pairs[..|pairs| - 1]), pairs[|pairs| - 1].0, pairs[|pairs| - 1].1)
  }

  /** A key's value. */
  function Lookup(fields: seq<(Text, Json)>, key: Text): Option<Json> {
    if fields == [] then None
    else if fields[0].0 == key then Some(fields[0].1)
    else Lookup(fields[1..], key)
  }

  /** `json.loads`; `None` is `JSONDecodeError`. */
  function Loads(s: Text): Option<Json> {
    if s != [] && s[0] == BYTE_ORDER_MARK then None
    else
      match ParseValue(SkipSpace(s))
      case Fail => None
      case Done(v, rest) => if SkipSpace(rest) == [] then Some(v) else None
  }

  // ---- surrogates --------------------------------------------------------------------------------

  /** What an ASCII-only string becomes when read back: adjacent high and low surrogates fuse. */
  function Fuse(t: Text): Text {
    if |t| >= 2 && High(t[0]) && Low(t[1]) then [Combine(t[0], t[1])] + Fuse(t[2..])
    else if t == [] then []
    else [t[0]] + Fuse(t[1..])
  }

  predicate NoSurrogatePair(t: Text) {
    forall i :: 0 <= i < |t| - 1 ==> !(High(t[i]) && Low(t[i + 1]))
  }

  lemma {:induction false} FuseKeepsExactlyPairFree(t: Text)
    ensures |Fuse(t)| <= |t|
    ensures Fuse(t) == t <==> NoSurrogatePair(t)
  {
    if |t| >= 2 && High(t[0]) && Low(t[1]) {
      FuseKeepsExactlyPairFree(t[2..]);
      assert |Fuse(t)| < |t|;
    } else if t != [] {
      FuseKeepsExactlyPairFree(t[1..]);
      if NoSurrogatePair(t[1..]) {
        forall i | 0 <= i < |t| - 1 ensures !(High(t[i]) && Low(t[i + 1])) {
          if i > 0 { assert t[1..][i - 1] == t[i] && t[1..][i] == t[i + 1]; }
        }
      }
      if NoSurrogatePair(t) {
        forall i | 0 <= i < |t| - 2 ensures !(High(t[1..][i]) && Low(t[1..][i + 1])) {
          assert !(High(t[i + 1]) && Low(t[i + 1 + 1]));
        }
      }
    }
  }

  function ReadBack(t: Text, ascii: bool): Text { if ascii then Fuse(t) else t }
}
