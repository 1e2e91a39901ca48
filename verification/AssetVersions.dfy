/** The catalog's choice of one version for each logical asset.

    Dates are millisecond counts. The locale-aware comparison of version texts is the parameter
    `collate`, assumed to be a total preorder. */
module AssetVersions {
  import opened Sorting
  import opened Grouping

  datatype Asset = Asset(key: string, status: string, createdAt: int, version: string, id: string)

  type Collation = (string, string) -> int

  ghost predicate Collates(collate: Collation) {
    && (forall a, b :: collate(a, b) <= 0 <==> collate(b, a) >= 0)
    && (forall a, b, c {:trigger collate(a, b), collate(b, c)} :: collate(a, b) <= 0 && collate(b, c) <= 0 ==> collate(a, c) <= 0)
  }

  function StatusRank(status: string): int {
    if status == "ACTIVE" then 0
    else if status == "FROZEN" then 1
    else if status == "DRAFT" then 2
    else if status == "DEPRECATED" then 3
    else 4
  }

  /** Negative when `left` is listed before `right`: better status, then newer, then higher version. */
  function Compare(collate: Collation, left: Asset, right: Asset): int {
    var byStatus := StatusRank(left.status) - StatusRank(right.status);
    if byStatus != 0 then byStatus
    else
      var byDate := right.createdAt - left.createdAt;
      if byDate != 0 then byDate else collate(right.version, left.version)
  }

  lemma CompareIsTotalPreorder(collate: Collation, a: Asset, b: Asset, c: Asset)
    requires Collates(collate)
    ensures Compare(collate, a, b) <= 0 <==> Compare(collate, b, a) >= 0
    ensures Compare(collate, a, b) <= 0 && Compare(collate, b, c) <= 0 ==> Compare(collate, a, c) <= 0
    ensures Compare(collate, a, b) <= 0 && Compare(collate, b, c) < 0 ==> Compare(collate, a, c) < 0
    ensures Compare(collate, a, b) < 0 && Compare(collate, b, c) <= 0 ==> Compare(collate, a, c) < 0
  {
    assert collate(c.version, b.version) <= 0 && collate(b.version, a.version) <= 0 ==> collate(c.version, a.version) <= 0;
    assert collate(a.version, c.version) <= 0 && collate(c.version, b.version) <= 0 ==> collate(a.version, b.version) <= 0;
    assert collate(b.version, a.version) <= 0 && collate(a.version, c.version) <= 0 ==> collate(b.version, c.version) <= 0;
  }

  function NotAfter(collate: Collation): Comparison<Asset> { (a, b) => Compare(collate, a, b) <= 0 }

  lemma NotAfterIsTotalPreorder(collate: Collation)
    requires Collates(collate)
    ensures TotalPreorder(NotAfter(collate))
  {
    var leq := NotAfter(collate);
    forall a, b ensures leq(a, b) || leq(b, a) { CompareIsTotalPreorder(collate, a, b, a); }
    forall a, b, c | leq(a, b) && leq(b, c) ensures leq(a, c) { CompareIsTotalPreorder(collate, a, b, c); }
  }

  // ---- the best of one group -------------------------------------------------------------------------

  /** `x` is the earliest member that no member beats. */
  ghost predicate EarliestUnbeaten(collate: Collation, s: seq<Asset>, x: Asset) {
    exists i :: EarliestUnbeatenAt(collate, s, x, i)
  }

  ghost predicate EarliestUnbeatenAt(collate: Collation, s: seq<Asset>, x: Asset, i: int) {
    && 0 <= i < |s| && s[i] == x
    && (forall j :: 0 <= j < |s| ==> Compare(collate, s[j], x) >= 0)
    && (forall j :: 0 <= j < i ==> Compare(collate, x, s[j]) < 0)
  }

  lemma HeadIsEarliestUnbeaten(collate: Collation, s: seq<Asset>)
    requires Collates(collate) && s != []
    ensures Sort(NotAfter(collate), s) != [] && EarliestUnbeaten(collate, s, Sort(NotAfter(collate), s)[0])
  {
    NotAfterIsTotalPreorder(collate);
    var i := SortHead(NotAfter(collate), s);
    forall j | 0 <= j < |s|
      ensures Compare(collate, s[j], s[i]) >= 0 && (j < i ==> Compare(collate, s[i], s[j]) < 0)
    {
      assert NotAfter(collate)(s[i], s[j]);
      CompareIsTotalPreorder(collate, s[i], s[j], s[i]);
      CompareIsTotalPreorder(collate, s[j], s[i], s[j]);
    }
    assert EarliestUnbeatenAt(collate, s, s[i], i);
  }

  lemma EarliestUnbeatenIsUnique(collate: Collation, s: seq<Asset>, x: Asset, y: Asset)
    requires EarliestUnbeaten(collate, s, x) && EarliestUnbeaten(collate, s, y)
    ensures x == y
  {
    var i :| EarliestUnbeatenAt(collate, s, x, i);
    var j :| EarliestUnbeatenAt(collate, s, y, j);
  }

  function KeyOf(x: Asset): string { x.key }

  // ---- the selection ---------------------------------------------------------------------------------

  /** One item for each key, in the given order of keys: the earliest unbeaten of the key's group. */
  ghost predicate Selects(collate: Collation, items: seq<Asset>, keys: seq<string>, r: seq<Asset>) {
    |r| == |keys| && forall k :: 0 <= k < |r| ==> EarliestUnbeaten(collate, Members(KeyOf, items, keys[k]), r[k])
  }

  method SelectLogicalAssets(collate: Collation, items: seq<Asset>) returns (r: seq<Asset>)
    requires Collates(collate)
    ensures Selects(collate, items, Keys(KeyOf, items), r)
  {
    var groups, keys := GroupBy(KeyOf, items);
    r := [];
    for k := 0 to |keys|
      invariant Selects(collate, items, keys[..k], r)
    {
      assert keys[k] in keys;
      var versions := groups[keys[k]];
      KeyHasMembers(KeyOf, items, keys[k]);
      HeadIsEarliestUnbeaten(collate, versions);
      r := r + [Sort(NotAfter(collate), versions)[0]];
      assert keys[..k + 1] == keys[..k] + [keys[k]];
    }
    assert keys[..|keys|] == keys;
  }

  lemma SelectedKeys(collate: Collation, items: seq<Asset>, r: seq<Asset>, k: nat)
    requires Selects(collate, items, Keys(KeyOf, items), r) && k < |r|
    ensures r[k].key == Keys(KeyOf, items)[k] && r[k] in items
  {
    MembersHaveKey(KeyOf, items, Keys(KeyOf, items)[k]);
    var s := Members(KeyOf, items, Keys(KeyOf, items)[k]);
    var i :| EarliestUnbeatenAt(collate, s, r[k], i);
    assert s[i] in s;
  }

  /** What is selected, by the items themselves: no item of its key has a better status, none of equal
      status is newer, and none of equal status and date has a higher version. */
  lemma SelectedIsBest(collate: Collation, items: seq<Asset>, r: seq<Asset>, k: nat, y: Asset)
    requires Collates(collate) && Selects(collate, items, Keys(KeyOf, items), r) && k < |r|
    requires y in items && y.key == r[k].key
    ensures var x := r[k];
            && (y.status == "ACTIVE" ==> x.status == "ACTIVE")
            && (y.status == "FROZEN" ==> x.status in {"ACTIVE", "FROZEN"})
            && (y.status == "DRAFT" ==> x.status in {"ACTIVE", "FROZEN", "DRAFT"})
            && (y.status == "DEPRECATED" ==> x.status in {"ACTIVE", "FROZEN", "DRAFT", "DEPRECATED"})
            && (x.status == y.status ==> x.createdAt >= y.createdAt)
            && (x.status == y.status && x.createdAt == y.createdAt ==> collate(x.version, y.version) >= 0)
  {
    SelectedKeys(collate, items, r, k);
    var s := Members(KeyOf, items, Keys(KeyOf, items)[k]);
    MembersHaveKey(KeyOf, items, Keys(KeyOf, items)[k]);
    var i :| EarliestUnbeatenAt(collate, s, r[k], i);
    var j :| 0 <= j < |s| && s[j] == y;
    assert Compare(collate, y, r[k]) >= 0;
  }

  predicate SameStatusAndDate(x: Asset, y: Asset) { x.key == y.key && x.status == y.status && x.createdAt == y.createdAt }

  /** Of the items of its key, status and date, those before the selected one have lower versions. */
  lemma SelectedIsFirst(collate: Collation, items: seq<Asset>, r: seq<Asset>, k: nat) returns (n: nat)
    requires Collates(collate) && Selects(collate, items, Keys(KeyOf, items), r) && k < |r|
    ensures n < |items| && items[n] == r[k]
    ensures forall j :: 0 <= j < n && SameStatusAndDate(r[k], items[j]) ==> collate(items[j].version, r[k].version) < 0
  {
    SelectedKeys(collate, items, r, k);
    var key, x := Keys(KeyOf, items)[k], r[k];
    var s := Members(KeyOf, items, key);
    var i :| EarliestUnbeatenAt(collate, s, x, i);
    n := PlaceInItems(items, key, i);
    forall j | 0 <= j < n && SameStatusAndDate(x, items[j]) ensures collate(items[j].version, x.version) < 0 {
      var m :| 0 <= m < i && s[m] == items[j];
      assert Compare(collate, x, s[m]) < 0;
    }
  }

  /** A member's place among all items: the members before it are the items of the key before it. */
  lemma {:induction false} PlaceInItems(items: seq<Asset>, key: string, i: nat) returns (n: nat)
    requires i < |Members(KeyOf, items, key)|
    ensures n < |items| && items[n] == Members(KeyOf, items, key)[i]
    ensures forall j :: 0 <= j < n && items[j].key == key ==>
              exists m :: 0 <= m < i && Members(KeyOf, items, key)[m] == items[j]
  {
    var last := |items| - 1;
    var before := Members(KeyOf, items[..last], key);
    if i < |before| {
      n := PlaceInItems(items[..last], key, i);
      forall j | 0 <= j < n && items[j].key == key ensures exists m :: 0 <= m < i && Members(KeyOf, items, key)[m] == items[j] {
        assert items[..last][j] == items[j];
        var m :| 0 <= m < i && before[m] == items[..last][j];
        assert Members(KeyOf, items, key)[m] == items[j];
      }
    } else {
      n := last;
      forall j | 0 <= j < n && items[j].key == key ensures exists m :: 0 <= m < i && Members(KeyOf, items, key)[m] == items[j] {
        MembersHaveKey(KeyOf, items[..last], key);
        assert items[..last][j] in items[..last] && items[j] in before;
        var m :| 0 <= m < |before| && before[m] == items[j];
        assert Members(KeyOf, items, key)[m] == items[j];
      }
    }
  }

  /** The result is determined by the input. */
  lemma SelectionIsUnique(collate: Collation, items: seq<Asset>, keys: seq<string>, r: seq<Asset>, q: seq<Asset>)
    requires Selects(collate, items, keys, r) && Selects(collate, items, keys, q)
    ensures r == q
  {
    forall k | 0 <= k < |r| ensures r[k] == q[k] {
      EarliestUnbeatenIsUnique(collate, Members(KeyOf, items, keys[k]), r[k], q[k]);
    }
  }

  lemma {:induction false} DistinctKeysOfItems(s: seq<Asset>)
    requires forall i, j :: 0 <= i < j < |s| ==> s[i].key != s[j].key
    ensures |Keys(KeyOf, s)| == |s| && forall i :: 0 <= i < |s| ==> Keys(KeyOf, s)[i] == s[i].key
  {
    if s != [] {
      var n := |s| - 1;
      DistinctKeysOfItems(s[..n]);
      forall i | 0 <= i < n ensures Keys(KeyOf, s[..n])[i] != s[n].key {
        assert s[..n][i] == s[i];
      }
    }
  }

  lemma {:induction false} NoMembers(s: seq<Asset>, key: string)
    requires forall i :: 0 <= i < |s| ==> s[i].key != key
    ensures Members(KeyOf, s, key) == []
  {
    if s != [] { NoMembers(s[..|s| - 1], key); }
  }

  lemma {:induction false} SingletonGroup(s: seq<Asset>, i: nat)
    requires i < |s| && forall a, b :: 0 <= a < b < |s| ==> s[a].key != s[b].key
    ensures Members(KeyOf, s, s[i].key) == [s[i]]
    decreases |s|
  {
    var n := |s| - 1;
    if i < n {
      SingletonGroup(s[..n], i);
    } else {
      NoMembers(s[..n], s[n].key);
    }
  }

  /** Selecting again from a selection changes nothing. */
  lemma SelectionIsIdempotent(collate: Collation, items: seq<Asset>, r: seq<Asset>, again: seq<Asset>)
    requires Collates(collate)
    requires Selects(collate, items, Keys(KeyOf, items), r) && Selects(collate, r, Keys(KeyOf, r), again)
    ensures again == r
  {
    SelectionHasDistinctKeys(collate, items, r);
    DistinctKeysOfItems(r);
    forall k | 0 <= k < |r| ensures again[k] == r[k] {
      SingletonGroup(r, k);
      var i :| EarliestUnbeatenAt(collate, Members(KeyOf, r, Keys(KeyOf, r)[k]), again[k], i);
    }
  }

  lemma SelectionHasDistinctKeys(collate: Collation, items: seq<Asset>, r: seq<Asset>)
    requires Selects(collate, items, Keys(KeyOf, items), r)
    ensures forall i, j :: 0 <= i < j < |r| ==> r[i].key != r[j].key
  {
    KeysAreDistinct(KeyOf, items);
    forall i, j | 0 <= i < j < |r| ensures r[i].key != r[j].key {
      SelectedKeys(collate, items, r, i);
      SelectedKeys(collate, items, r, j);
    }
  }
}
