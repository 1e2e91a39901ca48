/** The incident prompt: evidence detail chosen by length band, then numbered corroborating records
    until the whitespace-token estimate reaches the band's target. */
module PromptPadding {
  import opened Texts

  // ---- `str.split()` ---------------------------------------------------------------------------

  function WordLength(s: string): (n: nat)
    ensures n <= |s|
    ensures forall i :: 0 <= i < n ==> !PySpace(s[i])
    ensures n < |s| ==> PySpace(s[n])
  {
    if s == "" || PySpace(s[0]) then 0 else 1 + WordLength(s[1..])
  }

  function Words(s: string): seq<string>
    decreases |s|
  {
    if s == "" then []
    else if PySpace(s[0]) then Words(s[1..])
    else [s[..WordLength(s)]] + Words(s[WordLength(s)..])
  }

  lemma WordLengthUnique(s: string, n: nat)
    requires n <= |s| && (forall i :: 0 <= i < n ==> !PySpace(s[i])) && (n < |s| ==> PySpace(s[n]))
    ensures WordLength(s) == n
  {
  }

  /** Words do not run together across white space. */
  lemma {:induction false} WordsOfConcatenation(a: string, b: string)
    requires b == "" || PySpace(b[0])
    ensures Words(a + b) == Words(a) + Words(b)
    decreases |a|
  {
    if a == "" {
      assert a + b == b;
    } else if PySpace(a[0]) {
      WordsOfConcatenation(a[1..], b);
      assert (a + b)[1..] == a[1..] + b;
    } else {
      WordsOfConcatenation(a[WordLength(a)..], b);
      FirstWordOfConcatenation(a, b);
    }
  }

  lemma FirstWordOfConcatenation(a: string, b: string)
    requires a != "" && !PySpace(a[0]) && (b == "" || PySpace(b[0]))
    ensures var n := WordLength(a); Words(a + b) == [a[..n]] + Words(a[n..] + b)
  {
    var n := WordLength(a);
    WordLengthUnique(a + b, n);
    assert (a + b)[..n] == a[..n] && (a + b)[n..] == a[n..] + b;
  }

  // ---- records -----------------------------------------------------------------------------------

  const LEDGER := " Evidence ledger "

  /** Record `n`: the templates are taken cyclically and the number is filled in. */
  function Record(templates: seq<string>, n: nat): (r: string)
    requires templates != [] && n >= 1
    ensures |r| >= 2 && PySpace(r[0]) && |Words(r)| >= 1
  {
    var r := LEDGER + Decimal(n) + ": " + templates[(n - 1) % |templates|];
    assert r[0] == ' ' && r[1] == 'E';
    RecordHasWord(r);
    r
  }

  lemma RecordHasWord(r: string)
    requires |r| >= 2 && PySpace(r[0]) && !PySpace(r[1])
    ensures |Words(r)| >= 1
  {
    assert r[1..][0] == r[1];
  }

  /** The templates are taken in their order, again and again. */
  lemma RecordsCycle(templates: seq<string>, round: nat, k: nat)
    requires k < |templates|
    ensures var n := round * |templates| + k + 1;
            Record(templates, n) == " Evidence ledger " + Decimal(n) + ": " + templates[k]
  {
    var n, m := round * |templates| + k + 1, |templates|;
    RemainderOf(round, m, k);
    assert (n - 1) % m == k;
  }

  lemma RemainderOf(q: nat, m: nat, k: nat)
    requires k < m
    ensures (q * m + k) % m == k
  {
    var n := q * m + k;
    var x := n / m - q;
    assert x * m == k - n % m;
    Multiples(x, m);
  }

  lemma Multiples(x: int, m: nat)
    ensures x >= 1 ==> x * m >= m
    ensures x <= -1 ==> x * m <= 0 - m as int
  {
  }

  function DigitsLength(s: string): (n: nat)
    ensures n <= |s|
  {
    if s == "" || !IsDigit(s[0]) then 0 else 1 + DigitsLength(s[1..])
  }

  lemma {:induction false} DigitsEnd(d: string, t: string)
    requires forall i :: 0 <= i < |d| ==> IsDigit(d[i])
    requires t != "" && !IsDigit(t[0])
    ensures DigitsLength(d + t) == |d|
  {
    if d == "" {
      assert d + t == t;
    } else {
      assert (d + t)[1..] == d[1..] + t;
      DigitsEnd(d[1..], t);
    }
  }

  /** No two records have the same text, even where they share a template. */
  lemma RecordsAreDistinct(templates: seq<string>, m: nat, n: nat)
    requires templates != [] && m >= 1 && n >= 1
    ensures Record(templates, m) == Record(templates, n) <==> m == n
  {
    if Record(templates, m) == Record(templates, n) {
      var s, t := templates[(m - 1) % |templates|], templates[(n - 1) % |templates|];
      NumberedTextsAgree(m, s, n, t);
    }
  }

  lemma NumberedTextsAgree(m: nat, s: string, n: nat, t: string)
    requires LEDGER + Decimal(m) + ": " + s == LEDGER + Decimal(n) + ": " + t
    ensures m == n
  {
    var a, b := Decimal(m) + (": " + s), Decimal(n) + (": " + t);
    assert LEDGER + Decimal(m) + ": " + s == LEDGER + a;
    assert LEDGER + Decimal(n) + ": " + t == LEDGER + b;
    assert a == (LEDGER + a)[|LEDGER|..] == (LEDGER + b)[|LEDGER|..] == b;
    DigitsEnd(Decimal(m), ": " + s);
    DigitsEnd(Decimal(n), ": " + t);
    assert Decimal(m) == a[..|Decimal(m)|] == b[..|Decimal(n)|] == Decimal(n);
    DecimalRoundTrip(m);
    DecimalRoundTrip(n);
  }

  // ---- padding ------------------------------------------------------------------------------------

  /** The prompt followed by records 1 to `k`. */
  function Padded(templates: seq<string>, prompt: string, k: nat): (r: string)
    requires templates != []
    ensures prompt <= r
  {
    if k == 0 then prompt else Padded(templates, prompt, k - 1) + Record(templates, k)
  }

  function WordCount(s: string): nat { |Words(s)| }

  lemma {:induction false} PaddedWords(templates: seq<string>, prompt: string, k: nat)
    requires templates != [] && k >= 1
    ensures WordCount(Padded(templates, prompt, k)) == WordCount(Padded(templates, prompt, k - 1)) + WordCount(Record(templates, k))
  {
    WordsOfConcatenation(Padded(templates, prompt, k - 1), Record(templates, k));
  }

  lemma {:induction false} PaddingGrows(templates: seq<string>, prompt: string, j: nat, k: nat)
    requires templates != [] && j < k
    ensures WordCount(Padded(templates, prompt, j)) < WordCount(Padded(templates, prompt, k))
    decreases k
  {
    PaddedWords(templates, prompt, k);
    if j < k - 1 {
      PaddingGrows(templates, prompt, j, k - 1);
    }
  }

  /** `k` is the least number of records with which the prompt reaches the target. */
  ghost predicate LeastPadding(templates: seq<string>, prompt: string, target: nat, k: nat)
    requires templates != []
  {
    && WordCount(Padded(templates, prompt, k)) >= target
    && forall j: nat :: j < k ==> WordCount(Padded(templates, prompt, j)) < target
  }

  /** The least padding is unique, and overshoots the target by less than its last record. */
  lemma LeastPaddingBounds(templates: seq<string>, prompt: string, target: nat, j: nat, k: nat)
    requires templates != [] && LeastPadding(templates, prompt, target, k)
    ensures LeastPadding(templates, prompt, target, j) ==> j == k
    ensures k > 0 ==> WordCount(Padded(templates, prompt, k)) < target + WordCount(Record(templates, k))
    ensures forall more: nat :: more > k ==> WordCount(Padded(templates, prompt, more)) > target
  {
    if k > 0 {
      PaddedWords(templates, prompt, k);
    }
    forall more: nat | more > k ensures WordCount(Padded(templates, prompt, more)) > target {
      PaddingGrows(templates, prompt, k, more);
    }
  }

  method Pad(templates: seq<string>, base: string, target: nat) returns (prompt: string, records: nat)
    requires templates != []
    ensures prompt == Padded(templates, base, records)
    ensures LeastPadding(templates, base, target, records)
  {
    prompt := base;
    var record := 1;
    while |Words(prompt)| < target
      invariant record >= 1
      invariant prompt == Padded(templates, base, record - 1)
      invariant forall j: nat :: j < record - 1 ==> WordCount(Padded(templates, base, j)) < target
      decreases target - WordCount(prompt)
    {
      PaddedWords(templates, base, record);
      prompt := prompt + Record(templates, record);
      record := record + 1;
    }
    records := record - 1;
  }

  // ---- the whole prompt ---------------------------------------------------------------------------

  datatype Band = Short | Medium | Long | Extended | Xlong | Xxlong

  function Target(b: Band): nat {
    match b case Short => 50 case Medium => 250 case Long => 500 case Extended => 1000 case Xlong => 4600 case Xxlong => 10000
  }

  function DetailCount(b: Band): nat {
    match b case Short => 0 case Medium => 3 case Long => 6 case Extended => 8 case Xlong => 8 case Xxlong => 8
  }

  function Join(pieces: seq<string>): string {
    if pieces == [] then "" else pieces[0] + Join(pieces[1..])
  }

  predicate FullStop(c: char) { c == '.' }

  function EvidenceDetail(evidence: string, count: nat): string {
    var sentences := SplitOn(evidence, FullStop);
    Join(if |sentences| <= count then sentences else sentences[..count]) + "."
  }

  function WithoutStops(s: string): string {
    if s == "" then "" else (if s[0] == '.' then "" else [s[0]]) + WithoutStops(s[1..])
  }

  function Stops(s: string): nat { multiset(s)['.'] }

  /** The detail is the evidence up to its `count`-th full stop, or all of it when it has fewer, with
      the full stops dropped, and one full stop. */
  lemma DetailExactly(front: string, back: string, count: nat)
    ensures Stops(front) + 1 == count ==> EvidenceDetail(front + (['.'] + back), count) == WithoutStops(front) + "."
    ensures Stops(front) < count ==> EvidenceDetail(front, count) == WithoutStops(front) + "."
  {
    PiecesOf(front);
    JoinIsWithoutStops(front);
    SplitAtAny(front, '.', back, FullStop);
    var pieces, all := SplitOn(front, FullStop), SplitOn(front + (['.'] + back), FullStop);
    if Stops(front) + 1 == count {
      assert all[..count] == pieces;
      assert |all| <= count ==> all == pieces;
    }
  }

  lemma {:induction false} PiecesOf(s: string)
    ensures |SplitOn(s, FullStop)| == Stops(s) + 1
  {
    if s != "" {
      PiecesOf(s[1..]);
      assert s == [s[0]] + s[1..];
      assert multiset(s) == multiset{s[0]} + multiset(s[1..]);
    }
  }

  lemma {:induction false} JoinIsWithoutStops(s: string)
    ensures Join(SplitOn(s, FullStop)) == WithoutStops(s)
  {
    if s != "" {
      JoinIsWithoutStops(s[1..]);
      var rest := SplitOn(s[1..], FullStop);
      if s[0] == '.' {
        assert ([""] + rest)[1..] == rest;
      } else {
        assert ([[s[0]] + rest[0]] + rest[1..])[1..] == rest[1..];
        Regroup([s[0]], rest[0], Join(rest[1..]));
      }
    }
  }

  /** `_incident_prompt`, from its opening paragraph and its evidence sentences. The short band is
      closed with one sentence and never padded, whatever its length. */
  method IncidentPrompt(templates: seq<string>, opening: string, evidence: string, closing: string, band: Band)
    returns (prompt: string, records: nat)
    requires templates != []
    ensures opening <= prompt
    ensures band.Short? ==> prompt == opening + closing && records == 0
    ensures !band.Short? ==>
              var base := opening + EvidenceDetail(evidence, DetailCount(band));
              prompt == Padded(templates, base, records) && LeastPadding(templates, base, Target(band), records)
              && WordCount(prompt) >= Target(band)
              && (records > 0 ==> WordCount(prompt) < Target(band) + WordCount(Record(templates, records)))
    ensures (band.Medium? ==> WordCount(prompt) >= 250) && (band.Long? ==> WordCount(prompt) >= 500)
    ensures (band.Extended? ==> WordCount(prompt) >= 1000) && (band.Xlong? ==> WordCount(prompt) >= 4600)
    ensures band.Xxlong? ==> WordCount(prompt) >= 10000
    ensures !band.Short? ==>
              var count := if band.Medium? then 3 else if band.Long? then 6 else 8;
              opening + EvidenceDetail(evidence, count) <= prompt
  {
    if band.Short? {
      return opening + closing, 0;
    }
    var base := opening + EvidenceDetail(evidence, DetailCount(band));
    prompt, records := Pad(templates, base, Target(band));
    LeastPaddingBounds(templates, base, Target(band), records, records);
  }
}
