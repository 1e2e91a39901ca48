/** A stable sort by a comparison, as Python's `sorted` and JavaScript's `sort` do it. */
module Sorting {

  type Comparison<!T> = (T, T) -> bool

  function Insert<T>(leq: Comparison<T>, x: T, s: seq<T>): seq<T> {
    if s == [] || leq(x, s[0]) then [x] + s else [s[0]] + Insert(leq, x, s[1..])
  }

  function Sort<T>(leq: Comparison<T>, s: seq<T>): seq<T> {
    if s == [] then [] else Insert(leq, s[0], Sort(leq, s[1..]))
  }

  // ---- the same items ----------------------------------------------------------------------------

  lemma {:induction false} InsertAdds<T>(leq: Comparison<T>, x: T, s: seq<T>)
    ensures multiset(Insert(leq, x, s)) == multiset(s) + multiset{x}
  {
    if s != [] && !leq(x, s[0]) {
      InsertAdds(leq, x, s[1..]);
      assert s == [s[0]] + s[1..];
    }
  }

  lemma {:induction false} SortPermutes<T>(leq: Comparison<T>, s: seq<T>)
    ensures multiset(Sort(leq, s)) == multiset(s)
  {
    if s != [] {
      SortPermutes(leq, s[1..]);
      InsertAdds(leq, s[0], Sort(leq, s[1..]));
      assert s == [s[0]] + s[1..];
    }
  }

  lemma SortMembers<T>(leq: Comparison<T>, s: seq<T>)
    ensures |Sort(leq, s)| == |s|
    ensures forall x :: x in Sort(leq, s) <==> x in s
  {
    SortPermutes(leq, s);
    assert |multiset(Sort(leq, s))| == |multiset(s)|;
    forall x ensures x in Sort(leq, s) <==> x in s {
      assert x in multiset(Sort(leq, s)) <==> x in multiset(s);
    }
  }

  predicate Distinct<T, K(==)>(key: T -> K, s: seq<T>) {
    forall i, j :: 0 <= i < j < |s| ==> key(s[i]) != key(s[j])
  }

  lemma {:induction false} InsertKeepsDistinct<T, K>(leq: Comparison<T>, key: T -> K, x: T, s: seq<T>)
    requires Distinct(key, s) && forall i :: 0 <= i < |s| ==> key(s[i]) != key(x)
    ensures Distinct(key, Insert(leq, x, s))
  {
    if s != [] && !leq(x, s[0]) {
      InsertKeepsDistinct(leq, key, x, s[1..]);
      var rest := Insert(leq, x, s[1..]);
      InsertAdds(leq, x, s[1..]);
      forall i | 0 <= i < |rest| ensures key(s[0]) != key(rest[i]) {
        assert rest[i] in multiset(rest);
      }
    }
  }

  lemma {:induction false} SortKeepsDistinct<T, K>(leq: Comparison<T>, key: T -> K, s: seq<T>)
    requires Distinct(key, s)
    ensures Distinct(key, Sort(leq, s))
  {
    if s != [] {
      var rest := Sort(leq, s[1..]);
      SortKeepsDistinct(leq, key, s[1..]);
      SortPermutes(leq, s[1..]);
      forall i | 0 <= i < |rest| ensures key(rest[i]) != key(s[0]) {
        assert rest[i] in multiset(rest) && rest[i] in multiset(s[1..]);
        var j :| 0 <= j < |s[1..]| && s[1..][j] == rest[i];
        assert s[j + 1] == rest[i];
      }
      InsertKeepsDistinct(leq, key, s[0], rest);
    }
  }

  // ---- in order ------------------------------------------------------------------------------------

  ghost predicate TotalPreorder<T(!new)>(leq: Comparison<T>) {
    && (forall a, b :: leq(a, b) || leq(b, a))
    && (forall a, b, c {:trigger leq(a, b), leq(b, c)} :: leq(a, b) && leq(b, c) ==> leq(a, c))
  }

  ghost predicate Ordered<T>(leq: Comparison<T>, s: seq<T>) {
    forall i, j :: 0 <= i < j < |s| ==> leq(s[i], s[j])
  }

  lemma {:induction false} InsertOrders<T(!new)>(leq: Comparison<T>, x: T, s: seq<T>)
    requires TotalPreorder(leq) && Ordered(leq, s)
    ensures Ordered(leq, Insert(leq, x, s))
  {
    if s != [] && leq(x, s[0]) {
      forall i | 1 <= i < |s| ensures leq(x, s[i]) {
        assert leq(x, s[0]) && leq(s[0], s[i]);
      }
    } else if s != [] {
      InsertOrders(leq, x, s[1..]);
      InsertAdds(leq, x, s[1..]);
      assert leq(s[0], x);
      var rest := Insert(leq, x, s[1..]);
      forall i | 0 <= i < |rest| ensures leq(s[0], rest[i]) {
        assert rest[i] in multiset(rest);
      }
    }
  }

  lemma {:induction false} SortOrders<T(!new)>(leq: Comparison<T>, s: seq<T>)
    requires TotalPreorder(leq)
    ensures Ordered(leq, Sort(leq, s))
  {
    if s != [] {
      SortOrders(leq, s[1..]);
      InsertOrders(leq, s[0], Sort(leq, s[1..]));
    }
  }

  ghost predicate Antisymmetric<T(!new)>(leq: Comparison<T>) {
    forall a, b :: leq(a, b) && leq(b, a) ==> a == b
  }

  lemma LeastIsFirst<T(!new)>(leq: Comparison<T>, s: seq<T>, x: T)
    requires TotalPreorder(leq) && Ordered(leq, s) && x in s
    ensures leq(s[0], x)
  {
    var k :| 0 <= k < |s| && s[k] == x;
    assert leq(x, x);
  }

  lemma {:induction false} OrderedIsUnique<T(!new)>(leq: Comparison<T>, a: seq<T>, b: seq<T>)
    requires TotalPreorder(leq) && Antisymmetric(leq) && Ordered(leq, a) && Ordered(leq, b)
    requires multiset(a) == multiset(b)
    ensures a == b
  {
    assert |a| == |multiset(a)| && |b| == |multiset(b)|;
    if a != [] {
      assert a[0] in multiset(a) && b[0] in multiset(b);
      LeastIsFirst(leq, a, b[0]);
      LeastIsFirst(leq, b, a[0]);
      assert a == [a[0]] + a[1..] && b == [b[0]] + b[1..];
      assert multiset(a[1..]) == multiset(a) - multiset{a[0]};
      assert multiset(b[1..]) == multiset(b) - multiset{b[0]};
      OrderedIsUnique(leq, a[1..], b[1..]);
    }
  }

  /** For an order in which only equals tie, sorted lists agree exactly for equal multisets. */
  lemma SortsAgreeExactly<T(!new)>(leq: Comparison<T>, a: seq<T>, b: seq<T>)
    requires TotalPreorder(leq) && Antisymmetric(leq)
    ensures Sort(leq, a) == Sort(leq, b) <==> multiset(a) == multiset(b)
  {
    SortPermutes(leq, a);
    SortPermutes(leq, b);
    SortOrders(leq, a);
    SortOrders(leq, b);
    if multiset(a) == multiset(b) {
      OrderedIsUnique(leq, Sort(leq, a), Sort(leq, b));
    }
  }

  // ---- stably --------------------------------------------------------------------------------------

  function Select<T>(keep: T -> bool, s: seq<T>): seq<T> {
    if s == [] then [] else (if keep(s[0]) then [s[0]] else []) + Select(keep, s[1..])
  }

  lemma SelectCons<T>(keep: T -> bool, x: T, s: seq<T>)
    ensures Select(keep, [x] + s) == (if keep(x) then [x] else []) + Select(keep, s)
  {
    assert ([x] + s)[1..] == s;
  }

  lemma {:induction false} InsertIsStable<T(!new)>(leq: Comparison<T>, keep: T -> bool, x: T, s: seq<T>)
    requires forall a, b :: keep(a) && keep(b) ==> leq(a, b)
    ensures Select(keep, Insert(leq, x, s)) == (if keep(x) then [x] else []) + Select(keep, s)
  {
    if s == [] || leq(x, s[0]) {
      SelectCons(keep, x, s);
    } else {
      InsertIsStable(leq, keep, x, s[1..]);
      SelectCons(keep, s[0], Insert(leq, x, s[1..]));
      assert !(keep(x) && keep(s[0]));
    }
  }

  /** Items that tie keep their order. */
  lemma {:induction false} SortIsStable<T(!new)>(leq: Comparison<T>, keep: T -> bool, s: seq<T>)
    requires forall a, b :: keep(a) && keep(b) ==> leq(a, b)
    ensures Select(keep, Sort(leq, s)) == Select(keep, s)
  {
    if s != [] {
      SortIsStable(leq, keep, s[1..]);
      InsertIsStable(leq, keep, s[0], Sort(leq, s[1..]));
    }
  }

  lemma {:induction false} FirstSelected<T>(keep: T -> bool, s: seq<T>) returns (i: nat)
    requires Select(keep, s) != []
    ensures i < |s| && s[i] == Select(keep, s)[0] && keep(s[i]) && forall j :: 0 <= j < i ==> !keep(s[j])
  {
    if keep(s[0]) {
      i := 0;
    } else {
      var k := FirstSelected(keep, s[1..]);
      i := k + 1;
      forall j | 0 <= j < i ensures !keep(s[j]) {
        if j > 0 { assert s[j] == s[1..][j - 1]; }
      }
    }
  }

  /** The head of the sorted list is the earliest item that none comes before. */
  lemma SortHead<T(!new)>(leq: Comparison<T>, s: seq<T>) returns (i: nat)
    requires TotalPreorder(leq) && s != []
    ensures Sort(leq, s) != [] && i < |s| && s[i] == Sort(leq, s)[0]
    ensures forall j :: 0 <= j < |s| ==> leq(s[i], s[j])
    ensures forall j :: 0 <= j < i ==> !leq(s[j], s[i])
  {
    var r := Sort(leq, s);
    SortMembers(leq, s);
    SortOrders(leq, s);
    var head := r[0];
    forall x | x in s ensures leq(head, x) {
      LeastIsFirst(leq, r, x);
    }
    var ties := x => leq(x, head) && leq(head, x);
    assert forall a, b :: ties(a) && ties(b) ==> leq(a, head) && leq(head, b);
    SortIsStable(leq, ties, s);
    assert leq(head, head);
    SelectCons(ties, head, r[1..]);
    assert r == [head] + r[1..];
    i := FirstSelected(ties, s);
    forall j | 0 <= j < i ensures !leq(s[j], s[i]) {
      assert !ties(s[j]) && s[j] in s;
    }
  }
}
