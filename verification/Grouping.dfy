/** Grouping by a key into a map that keeps its keys in insertion order, as JavaScript's `Map` does. */
module Grouping {

  /** The keys in order of first appearance. */
  function Keys<T, K(==)>(key: T -> K, items: seq<T>): seq<K> {
    if items == [] then []
    else
      var n := |items| - 1;
      var before := Keys(key, items[..n]);
      if key(items[n]) in before then before else before + [key(items[n])]
  }

  /** The items with one key, in their order. */
  function Members<T, K(==)>(key: T -> K, items: seq<T>, k: K): seq<T> {
    if items == [] then []
    else
      var n := |items| - 1;
      Members(key, items[..n], k) + (if key(items[n]) == k then [items[n]] else [])
  }

  lemma {:induction false} MembersHaveKey<T, K>(key: T -> K, items: seq<T>, k: K)
    ensures forall x :: x in Members(key, items, k) <==> x in items && key(x) == k
  {
    if items != [] {
      var n := |items| - 1;
      MembersHaveKey(key, items[..n], k);
      assert items == items[..n] + [items[n]];
    }
  }

  lemma {:induction false} KeysAreDistinct<T, K>(key: T -> K, items: seq<T>)
    ensures forall i, j :: 0 <= i < j < |Keys(key, items)| ==> Keys(key, items)[i] != Keys(key, items)[j]
  {
    if items != [] { KeysAreDistinct(key, items[..|items| - 1]); }
  }

  lemma {:induction false} KeyHasMembers<T, K>(key: T -> K, items: seq<T>, k: K)
    ensures k in Keys(key, items) <==> Members(key, items, k) != []
  {
    if items != [] { KeyHasMembers(key, items[..|items| - 1], k); }
  }

  lemma {:induction false} KeyOccurs<T, K>(key: T -> K, items: seq<T>, k: K)
    ensures k in Keys(key, items) <==> exists x :: x in items && key(x) == k
  {
    if items != [] {
      var n := |items| - 1;
      KeyOccurs(key, items[..n], k);
      assert items == items[..n] + [items[n]];
      if k in Keys(key, items[..n]) {
        var x :| x in items[..n] && key(x) == k;
        assert x in items;
      } else if k == key(items[n]) {
        assert items[n] in items;
      }
    }
  }

  function Add<T, K(==)>(groups: map<K, seq<T>>, k: K, x: T): map<K, seq<T>> {
    groups[k := (if k in groups then groups[k] else []) + [x]]
  }

  ghost predicate Grouped<T, K(!new)>(key: T -> K, items: seq<T>, groups: map<K, seq<T>>, keys: seq<K>) {
    && keys == Keys(key, items)
    && (forall k :: k in groups <==> k in keys)
    && (forall k :: k in groups ==> groups[k] == Members(key, items, k))
  }

  lemma GroupedNext<T, K(!new)>(key: T -> K, items: seq<T>, i: nat, groups: map<K, seq<T>>, keys: seq<K>)
    requires i < |items| && Grouped(key, items[..i], groups, keys)
    ensures var k := key(items[i]);
            Grouped(key, items[..i + 1], Add(groups, k, items[i]), if k in groups then keys else keys + [k])
  {
    var next := items[..i + 1];
    assert next[..i] == items[..i];
    KeyHasMembers(key, items[..i], key(items[i]));
  }

  method GroupBy<T, K(==, !new)>(key: T -> K, items: seq<T>) returns (groups: map<K, seq<T>>, keys: seq<K>)
    ensures Grouped(key, items, groups, keys)
  {
    groups, keys := map[], [];
    for i := 0 to |items|
      invariant Grouped(key, items[..i], groups, keys)
    {
      GroupedNext(key, items, i, groups, keys);
      var k := key(items[i]);
      keys := if k in groups then keys else keys + [k];
      groups := Add(groups, k, items[i]);
    }
    assert items[..|items|] == items;
  }
}
