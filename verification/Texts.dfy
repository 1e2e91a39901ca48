/** Text helpers shared by the models: optional values, stripping, splitting and decimals. */
module Texts {
  import opened Sorting

  datatype Option<+T> = None | Some(value: T)

  // ---- Python texts ------------------------------------------------------------------------

  type CodePoint = c: int | 0 <= c < 0x11_0000

  /** A Python `str`: code points, lone surrogates included. */
  type Text = seq<CodePoint>

  predicate Surrogate(c: CodePoint) { 0xd800 <= c < 0xe000 }

  /** `str.encode()` succeeds: UTF-8 has no form for a surrogate. */
  predicate Encodable(t: Text) { forall i :: 0 <= i < |t| ==> !Surrogate(t[i]) }

  predicate AsciiOnly(t: Text) { forall i :: 0 <= i < |t| ==> t[i] < 128 }

  function Chars(s: string): (t: Text)
    requires forall i :: 0 <= i < |s| ==> s[i] < 128 as char
    ensures |t| == |s| && AsciiOnly(t)
    ensures forall i :: 0 <= i < |t| ==> t[i] == s[i] as int
  {
    seq(|s|, i requires 0 <= i < |s| => s[i] as int)
  }

  /** Python's order of texts, by code point. */
  predicate Leq(a: Text, b: Text) {
    if a == [] then true
    else if b == [] then false
    else a[0] < b[0] || (a[0] == b[0] && Leq(a[1..], b[1..]))
  }

  lemma {:induction false} LeqTotal(a: Text, b: Text)
    ensures Leq(a, b) || Leq(b, a)
    ensures Leq(a, b) && Leq(b, a) ==> a == b
  {
    if a != [] && b != [] {
      LeqTotal(a[1..], b[1..]);
      assert a == [a[0]] + a[1..] && b == [b[0]] + b[1..];
    }
  }

  lemma {:induction false} LeqTransitive(a: Text, b: Text, c: Text)
    requires Leq(a, b) && Leq(b, c)
    ensures Leq(a, c)
  {
    if a != [] && b != [] && c != [] && a[0] == b[0] == c[0] {
      LeqTransitive(a[1..], b[1..], c[1..]);
    }
  }

  /** A text comes before another when it begins it or has the smaller code point where they part. */
  lemma {:induction false} LeqExactly(a: Text, b: Text)
    ensures Leq(a, b) <==> a <= b || exists k :: PartAt(a, b, k)
  {
    if a != [] && b != [] {
      var x, y := a[1..], b[1..];
      LeqExactly(x, y);
      assert a == [a[0]] + x && b == [b[0]] + y;
      if a[0] < b[0] { assert PartAt(a, b, 0); }
      if k :| a[0] == b[0] && PartAt(x, y, k) {
        assert a[..k + 1] == [a[0]] + x[..k] && b[..k + 1] == [b[0]] + y[..k];
        assert PartAt(a, b, k + 1);
      }
      if k :| PartAt(a, b, k) && k > 0 {
        assert a[..k][0] == b[..k][0];
        assert x[..k - 1] == a[..k][1..] && y[..k - 1] == b[..k][1..];
        assert PartAt(x, y, k - 1);
      }
    }
  }

  predicate PartAt(a: Text, b: Text, k: int) { 0 <= k < |a| && k < |b| && a[..k] == b[..k] && a[k] < b[k] }

  lemma LeqOrdersTexts()
    ensures TotalPreorder(Leq) && Antisymmetric(Leq)
  {
    forall a, b ensures (Leq(a, b) || Leq(b, a)) && (Leq(a, b) && Leq(b, a) ==> a == b) { LeqTotal(a, b); }
    forall a, b, c | Leq(a, b) && Leq(b, c) ensures Leq(a, c) { LeqTransitive(a, b, c); }
  }

  lemma Regroup<T>(a: seq<T>, b: seq<T>, c: seq<T>)
    ensures (a + b) + c == a + (b + c)
  {
  }

  // ---- stripping -------------------------------------------------------------------------

  function StripLeft<T>(s: seq<T>, space: T -> bool): seq<T> {
    if s != [] && space(s[0]) then StripLeft(s[1..], space) else s
  }

  function StripRight<T>(s: seq<T>, space: T -> bool): seq<T> {
    if s != [] && space(s[|s| - 1]) then StripRight(s[..|s| - 1], space) else s
  }

  /** Python's `str.strip()` and JavaScript's `trim()`, for that language's white space. */
  function Strip<T>(s: seq<T>, space: T -> bool): seq<T> {
    StripRight(StripLeft(s, space), space)
  }

  predicate Trimmed<T>(s: seq<T>, space: T -> bool) {
    s == [] || (!space(s[0]) && !space(s[|s| - 1]))
  }

  predicate AllSpace<T>(s: seq<T>, space: T -> bool) { forall i :: 0 <= i < |s| ==> space(s[i]) }

  lemma {:induction false} StripRightKeepsFront<T>(s: seq<T>, space: T -> bool)
    requires s == [] || !space(s[0])
    ensures Trimmed(StripRight(s, space), space)
    ensures StripRight(s, space) <= s && AllSpace(s[|StripRight(s, space)|..], space)
    ensures s != [] ==> StripRight(s, space) != []
    decreases |s|
  {
    if s != [] && space(s[|s| - 1]) {
      StripRightKeepsFront(s[..|s| - 1], space);
      var n := |StripRight(s, space)|;
      assert s[n..] == s[..|s| - 1][n..] + [s[|s| - 1]];
    }
  }

  lemma {:induction false} StripLeftDrops<T>(s: seq<T>, space: T -> bool)
    ensures StripLeft(s, space) == [] || !space(StripLeft(s, space)[0])
    ensures |StripLeft(s, space)| <= |s|
    ensures StripLeft(s, space) == [] <==> forall i :: 0 <= i < |s| ==> space(s[i])
    ensures var n := |s| - |StripLeft(s, space)|; s[n..] == StripLeft(s, space) && AllSpace(s[..n], space)
  {
    if s != [] && space(s[0]) {
      StripLeftDrops(s[1..], space);
      assert s == [s[0]] + s[1..];
      var n := |s| - |StripLeft(s, space)|;
      assert s[..n] == [s[0]] + s[1..][..n - 1];
    }
  }

  /** A stripped text has no white space at either end, is no longer than the original, and is
      empty exactly when the original is blank. */
  lemma StripIsTrimmed<T>(s: seq<T>, space: T -> bool)
    ensures Trimmed(Strip(s, space), space)
    ensures |Strip(s, space)| <= |s|
    ensures Strip(s, space) == [] <==> forall i :: 0 <= i < |s| ==> space(s[i])
  {
    StripLeftDrops(s, space);
    StripRightKeepsFront(StripLeft(s, space), space);
  }

  /** Stripping takes white space from both ends and nothing else. */
  lemma StripDropsOnlySpace<T>(s: seq<T>, space: T -> bool)
    ensures exists a, b :: s == a + Strip(s, space) + b && AllSpace(a, space) && AllSpace(b, space)
  {
    StripLeftDrops(s, space);
    var t := StripLeft(s, space);
    StripRightKeepsFront(t, space);
    var r := Strip(s, space);
    var a, b := s[..|s| - |t|], t[|r|..];
    assert s == a + r + b;
  }

  /** The fixed points of stripping are exactly the trimmed texts. */
  lemma StripFixesExactlyTrimmed<T>(s: seq<T>, space: T -> bool)
    ensures Strip(s, space) == s <==> Trimmed(s, space)
  {
    StripIsTrimmed(s, space);
  }

  /** White space of Python's `str` methods. */
  predicate PySpaceCode(c: int) {
    9 <= c <= 13 || 28 <= c <= 32 || c == 0x85 || c == 0xa0 || c == 0x1680 || 0x2000 <= c <= 0x200a
    || c == 0x2028 || c == 0x2029 || c == 0x202f || c == 0x205f || c == 0x3000
  }

  predicate PySpace(c: char) { PySpaceCode(c as int) }

  predicate TextSpace(c: CodePoint) { PySpaceCode(c) }

  /** White space of JavaScript's `trim`. */
  predicate JsSpace(c: char) {
    var n := c as int;
    9 <= n <= 13 || n == 32 || n == 0xa0 || n == 0x1680 || 0x2000 <= n <= 0x200a
    || n == 0x2028 || n == 0x2029 || n == 0x202f || n == 0x205f || n == 0x3000 || n == 0xfeff
  }

  // ---- splitting -------------------------------------------------------------------------

  /** Cut a text at every separator; the pieces may be empty and there is always at least one. */
  function SplitOn<T>(s: seq<T>, separator: T -> bool): (pieces: seq<seq<T>>)
    ensures |pieces| >= 1
  {
    if s == [] then [[]]
    else
      var rest := SplitOn(s[1..], separator);
      if separator(s[0]) then [[]] + rest else [[s[0]] + rest[0]] + rest[1..]
  }

  lemma {:induction false} SplitUncut<T>(s: seq<T>, separator: T -> bool)
    requires forall i :: 0 <= i < |s| ==> !separator(s[i])
    ensures SplitOn(s, separator) == [s]
  {
    if s != [] {
      SplitUncut(s[1..], separator);
      assert s == [s[0]] + s[1..];
    }
  }

  lemma {:induction false} SplitAtSeparator<T>(a: seq<T>, c: T, b: seq<T>, separator: T -> bool)
    requires forall i :: 0 <= i < |a| ==> !separator(a[i])
    requires separator(c)
    ensures SplitOn(a + [c] + b, separator) == [a] + SplitOn(b, separator)
  {
    var s := a + [c] + b;
    if a == [] {
      assert s[0] == c && s[1..] == b;
    } else {
      SplitAtSeparator(a[1..], c, b, separator);
      assert s[1..] == a[1..] + [c] + b;
      assert a == [a[0]] + a[1..];
    }
  }

  lemma FirstOf<T>(x: seq<T>, y: seq<T>)
    requires x != []
    ensures (x + y)[0] == x[0] && (x + y)[1..] == x[1..] + y
  {
  }

  lemma {:induction false} SplitAtAny<T>(a: seq<T>, c: T, b: seq<T>, separator: T -> bool)
    requires separator(c)
    ensures SplitOn(a + ([c] + b), separator) == SplitOn(a, separator) + SplitOn(b, separator)
  {
    var s := a + ([c] + b);
    var y := SplitOn(b, separator);
    if a == [] {
      assert s[0] == c && s[1..] == b;
    } else {
      SplitAtAny(a[1..], c, b, separator);
      assert s[0] == a[0] && s[1..] == a[1..] + ([c] + b);
      var x := SplitOn(a[1..], separator);
      FirstOf(x, y);
      if separator(a[0]) {
        Regroup([[]], x, y);
      } else {
        Regroup([[a[0]] + x[0]], x[1..], y);
      }
    }
  }

  // ---- decimals --------------------------------------------------------------------------

  function Digit(d: nat): char
    requires d < 10
  { ('0' as int + d) as char }

  predicate IsDigit(c: char) { '0' <= c <= '9' }

  function Decimal(n: nat): (s: string)
    ensures |s| >= 1
    ensures forall i :: 0 <= i < |s| ==> IsDigit(s[i])
  {
    if n < 10 then [Digit(n)] else Decimal(n / 10) + [Digit(n % 10)]
  }

  function DecimalValue(s: string): int
    requires forall i :: 0 <= i < |s| ==> IsDigit(s[i])
  {
    if s == [] then 0 else 10 * DecimalValue(s[..|s| - 1]) + (s[|s| - 1] as int - '0' as int)
  }

  lemma {:induction false} DecimalRoundTrip(n: nat)
    ensures DecimalValue(Decimal(n)) == n
  {
    if n < 10 {
      assert Decimal(n)[..0] == "";
    } else {
      DecimalRoundTrip(n / 10);
      assert Decimal(n)[..|Decimal(n)| - 1] == Decimal(n / 10);
    }
  }
}
