/** Which side of the root each entity of a graph is drawn on. */
module GraphSides {
  import opened Texts
  import opened Sorting
  import opened Grouping

  datatype Node = Node(id: string, kind: string, depth: nat)

  datatype Edge = Edge(source: string, target: string)

  datatype Subgraph = Subgraph(nodes: seq<Node>, edges: seq<Edge>)

  datatype Side = Left | Right

  function IdOf(n: Node): string { n.id }

  function LevelOf(n: Node): nat { n.depth }

  predicate UniqueIds(nodes: seq<Node>) {
    forall i, j :: 0 <= i < j < |nodes| ==> nodes[i].id != nodes[j].id
  }

  // ---- lookups -----------------------------------------------------------------------------------

  /** The first node at depth zero, or else the first node. */
  function RootId(g: Subgraph): string {
    var r := FirstAtRoot(g.nodes);
    if r.Some? then r.value else if g.nodes != [] then g.nodes[0].id else ""
  }

  predicate FirstOfDepthZero(nodes: seq<Node>, i: int) {
    0 <= i < |nodes| && nodes[i].depth == 0 && forall j :: 0 <= j < i ==> nodes[j].depth > 0
  }

  function FirstAtRoot(nodes: seq<Node>): Option<string> {
    if nodes == [] then None else if nodes[0].depth == 0 then Some(nodes[0].id) else FirstAtRoot(nodes[1..])
  }

  lemma {:induction false} FirstAtRootIs(nodes: seq<Node>, i: nat)
    requires FirstOfDepthZero(nodes, i)
    ensures FirstAtRoot(nodes) == Some(nodes[i].id)
  {
    if i > 0 {
      assert nodes[0].depth > 0;
      forall j | 0 <= j < i - 1 ensures nodes[1..][j].depth > 0 { assert nodes[j + 1].depth > 0; }
      FirstAtRootIs(nodes[1..], i - 1);
    }
  }

  lemma {:induction false} NoneAtRoot(nodes: seq<Node>)
    requires forall n :: n in nodes ==> n.depth > 0
    ensures FirstAtRoot(nodes) == None
  {
    if nodes != [] { NoneAtRoot(nodes[1..]); }
  }

  /** The root is the first node at depth zero; without one, the first node. */
  lemma RootIs(g: Subgraph, i: nat)
    requires i < |g.nodes|
    ensures FirstOfDepthZero(g.nodes, i) ==> RootId(g) == g.nodes[i].id
    ensures (forall n :: n in g.nodes ==> n.depth > 0) ==> RootId(g) == g.nodes[0].id
  {
    if FirstOfDepthZero(g.nodes, i) { FirstAtRootIs(g.nodes, i); }
    if forall n :: n in g.nodes ==> n.depth > 0 { NoneAtRoot(g.nodes); }
  }

  /** `nodeDepths.get`. */
  function DepthOf(nodes: seq<Node>, id: string): Option<nat> {
    if nodes == [] then None
    else if nodes[|nodes| - 1].id == id then Some(nodes[|nodes| - 1].depth)
    else DepthOf(nodes[..|nodes| - 1], id)
  }

  predicate IsDirect(root: string, id: string, e: Edge) {
    (e.source == root && e.target == id) || (e.target == root && e.source == id)
  }

  /** `find`: the first edge the test holds of. */
  function Find(edges: seq<Edge>, test: Edge -> bool): (r: Option<Edge>)
    ensures r.Some? ==> r.value in edges && test(r.value)
    ensures r.None? ==> forall e :: e in edges ==> !test(e)
  {
    if edges == [] then None else if test(edges[0]) then Some(edges[0]) else Find(edges[1..], test)
  }

  lemma {:induction false} FindIsFirst(edges: seq<Edge>, test: Edge -> bool, i: nat)
    requires FoundAt(edges, test, i)
    ensures Find(edges, test) == Some(edges[i])
  {
    if i > 0 {
      assert !test(edges[0]);
      forall j | 0 <= j < i - 1 ensures !test(edges[1..][j]) { assert !test(edges[j + 1]); }
      FindIsFirst(edges[1..], test, i - 1);
    }
  }

  predicate FoundAt(edges: seq<Edge>, test: Edge -> bool, i: int) {
    0 <= i < |edges| && test(edges[i]) && forall j :: 0 <= j < i ==> !test(edges[j])
  }

  function DirectTest(root: string, id: string): Edge -> bool { e => IsDirect(root, id, e) }

  function ParentTest(nodes: seq<Node>, id: string, depth: nat): Edge -> bool { e => LeadsShallower(nodes, id, depth, e) }

  /** The first edge between the root and the entity, in either direction. */
  function DirectEdge(edges: seq<Edge>, root: string, id: string): (r: Option<Edge>)
    ensures r.Some? ==> r.value in edges && IsDirect(root, id, r.value)
    ensures r.None? ==> forall e :: e in edges ==> !IsDirect(root, id, e)
  {
    Find(edges, DirectTest(root, id))
  }

  function OtherEnd(e: Edge, id: string): Option<string> {
    if e.source == id then Some(e.target) else if e.target == id then Some(e.source) else None
  }

  predicate LeadsShallower(nodes: seq<Node>, id: string, depth: nat, e: Edge) {
    OtherEnd(e, id).Some? && depth >= 1 && DepthOf(nodes, OtherEnd(e, id).value) == Some(depth - 1)
  }

  /** The first edge that joins the entity to one at the depth above it. */
  function ParentEdge(edges: seq<Edge>, nodes: seq<Node>, id: string, depth: nat): (r: Option<Edge>)
    ensures r.Some? ==> r.value in edges && LeadsShallower(nodes, id, depth, r.value)
  {
    Find(edges, ParentTest(nodes, id, depth))
  }

  // ---- the side, depth by depth -------------------------------------------------------------------

  /** The side given to an entity at a depth: that of the first edge shared with the root, or else
      that of the entity its parent edge points to, when that edge starts here. */
  function SideAt(g: Subgraph, id: string, depth: nat): Side
    decreases depth
  {
    var direct := DirectEdge(g.edges, RootId(g), id);
    if direct.Some? then (if direct.value.source == RootId(g) then Right else Left)
    else
      var parent := ParentEdge(g.edges, g.nodes, id, depth);
      if parent.Some? && parent.value.source == id && parent.value.target != "" && depth >= 2
      then SideAt(g, parent.value.target, depth - 1) else Left
  }

  lemma {:induction false} DepthOfNode(nodes: seq<Node>, n: Node)
    requires UniqueIds(nodes) && n in nodes
    ensures DepthOf(nodes, n.id) == Some(n.depth)
  {
    var last := nodes[|nodes| - 1];
    if n != last {
      assert n in nodes[..|nodes| - 1];
      DepthOfNode(nodes[..|nodes| - 1], n);
      var i :| 0 <= i < |nodes| - 1 && nodes[i] == n;
      assert nodes[i].id != last.id;
    }
  }

  lemma {:induction false} DepthIsOfNode(nodes: seq<Node>, id: string)
    requires DepthOf(nodes, id).Some?
    ensures exists n :: n in nodes && n.id == id && n.depth == DepthOf(nodes, id).value
  {
    var last := nodes[|nodes| - 1];
    if last.id == id {
      assert last in nodes;
    } else {
      DepthIsOfNode(nodes[..|nodes| - 1], id);
    }
  }

  // ---- grouping by depth ----------------------------------------------------------------------------

  function Group(nodes: seq<Node>, depth: nat): seq<Node> { Members(LevelOf, nodes, depth) }

  lemma GroupMembers(nodes: seq<Node>, depth: nat)
    ensures forall n :: n in Group(nodes, depth) <==> n in nodes && n.depth == depth
  {
    MembersHaveKey(LevelOf, nodes, depth);
  }

  lemma {:induction false} GroupUnique(nodes: seq<Node>, depth: nat)
    requires UniqueIds(nodes)
    ensures UniqueIds(Group(nodes, depth))
  {
    if nodes != [] {
      var before := nodes[..|nodes| - 1];
      GroupUnique(before, depth);
      var group := Group(before, depth);
      GroupMembers(before, depth);
      forall i | 0 <= i < |group| ensures group[i].id != nodes[|nodes| - 1].id {
        assert group[i] in group && group[i] in before;
        var k :| 0 <= k < |before| && before[k] == group[i];
        assert nodes[k].id != nodes[|nodes| - 1].id;
      }
    }
  }

  predicate Ascending(depths: seq<nat>) {
    forall i, j :: 0 <= i < j < |depths| ==> depths[i] < depths[j]
  }

  predicate AtMost(a: nat, b: nat) { a <= b }

  function Same(d: nat): nat { d }

  lemma SortedDepths(depths: seq<nat>)
    requires Distinct(Same, depths)
    ensures Ascending(Sort(AtMost, depths))
    ensures forall x :: x in Sort(AtMost, depths) <==> x in depths
  {
    var r := Sort(AtMost, depths);
    SortOrders(AtMost, depths);
    SortKeepsDistinct(AtMost, Same, depths);
    SortMembers(AtMost, depths);
    forall i, j | 0 <= i < j < |r| ensures r[i] < r[j] {
      assert AtMost(r[i], r[j]) && Same(r[i]) != Same(r[j]);
    }
  }

  /** The nodes of each depth in their original order, and the depths that occur, ascending. */
  ghost predicate Layered(g: Subgraph, groups: map<nat, seq<Node>>, depths: seq<nat>) {
    && Ascending(depths)
    && (forall d :: d in depths <==> d in groups)
    && (forall d :: d in groups <==> exists n :: n in g.nodes && n.depth == d)
    && (forall d :: d in groups ==> groups[d] == Group(g.nodes, d))
  }

  method GroupByDepth(g: Subgraph) returns (groups: map<nat, seq<Node>>, depths: seq<nat>)
    ensures Layered(g, groups, depths)
  {
    var keys;
    groups, keys := GroupBy(LevelOf, g.nodes);
    depths := Sort(AtMost, keys);
    GroupsAreLayers(g, groups, keys);
  }

  lemma GroupsAreLayers(g: Subgraph, groups: map<nat, seq<Node>>, keys: seq<nat>)
    requires Grouped(LevelOf, g.nodes, groups, keys)
    ensures Layered(g, groups, Sort(AtMost, keys))
  {
    KeysAreDistinct(LevelOf, g.nodes);
    SortedDepths(keys);
    forall d: nat ensures d in groups <==> exists n :: n in g.nodes && n.depth == d {
      KeyOccurs(LevelOf, g.nodes, d);
    }
  }

  // ---- the side map -----------------------------------------------------------------------------------

  /** Exactly the nodes in `done` have a side, and it is the one `SideAt` gives. */
  ghost predicate SidesOf(g: Subgraph, sides: map<string, Side>, done: set<Node>) {
    && (forall n :: n in done ==> n.id in sides && sides[n.id] == SideAt(g, n.id, n.depth))
    && (forall id :: id in sides ==> exists n :: n in done && n.id == id)
  }

  lemma SameIdSameNode(nodes: seq<Node>, m: Node, n: Node)
    requires UniqueIds(nodes) && m in nodes && n in nodes && m.id == n.id
    ensures m == n
  {
    var i :| 0 <= i < |nodes| && nodes[i] == m;
    var j :| 0 <= j < |nodes| && nodes[j] == n;
  }

  /** Looking the parent up in the map gives the side, because shallower sides are already set and
      the node's own is not. */
  lemma ParentLookup(g: Subgraph, sides: map<string, Side>, done: set<Node>, v: Node)
    requires UniqueIds(g.nodes) && SidesOf(g, sides, done)
    requires forall n :: n in done ==> n in g.nodes && n.depth > 0
    requires forall n :: n in g.nodes && 0 < n.depth < v.depth ==> n in done
    requires v in g.nodes && v !in done && v.depth > 0
    requires DirectEdge(g.edges, RootId(g), v.id).None?
    ensures var e := ParentEdge(g.edges, g.nodes, v.id, v.depth);
            var parentId := if e.None? then "" else e.value.target;
            SideAt(g, v.id, v.depth) == if parentId != "" && parentId in sides then sides[parentId] else Left
  {
    var e := ParentEdge(g.edges, g.nodes, v.id, v.depth);
    if e.Some? && e.value.target in sides {
      var m :| m in done && m.id == e.value.target;
      if e.value.source == v.id {
        DepthOfNode(g.nodes, m);
      } else {
        SameIdSameNode(g.nodes, m, v);
      }
    } else if e.Some? && e.value.source == v.id {
      DepthIsOfNode(g.nodes, e.value.target);
      var t :| t in g.nodes && t.id == e.value.target && t.depth == DepthOf(g.nodes, e.value.target).value;
      assert t.depth > 0 ==> t in done;
    }
  }

  /** The positive-depth nodes at the given depths. */
  ghost function NodesAt(g: Subgraph, depths: seq<nat>): set<Node> {
    set n | n in g.nodes && n.depth > 0 && n.depth in depths
  }

  method SideOfNode(g: Subgraph, sides: map<string, Side>, v: Node, ghost done: set<Node>) returns (side: Side)
    requires UniqueIds(g.nodes) && SidesOf(g, sides, done)
    requires forall n :: n in done ==> n in g.nodes && n.depth > 0
    requires forall n :: n in g.nodes && 0 < n.depth < v.depth ==> n in done
    requires v in g.nodes && v !in done && v.depth > 0
    ensures side == SideAt(g, v.id, v.depth)
  {
    var rootId := RootId(g);
    var direct := DirectEdge(g.edges, rootId, v.id);
    if direct.Some? {
      return if direct.value.source == rootId then Right else Left;
    }
    var relationship := ParentEdge(g.edges, g.nodes, v.id, v.depth);
    var parentId := "";
    if relationship.Some? {
      parentId := if relationship.value.source == v.id then relationship.value.target else relationship.value.target;
    }
    ParentLookup(g, sides, done, v);
    side := if parentId != "" && parentId in sides then sides[parentId] else Left;
  }

  lemma SidesExtended(g: Subgraph, sides: map<string, Side>, done: set<Node>, v: Node, side: Side)
    requires UniqueIds(g.nodes) && SidesOf(g, sides, done) && v in g.nodes && v !in done
    requires forall n :: n in done ==> n in g.nodes
    requires side == SideAt(g, v.id, v.depth)
    ensures SidesOf(g, sides[v.id := side], done + {v})
  {
    forall n | n in done ensures n.id != v.id {
      if n.id == v.id { SameIdSameNode(g.nodes, n, v); }
    }
    var extended := sides[v.id := side];
    forall id | id in extended ensures exists n :: n in done + {v} && n.id == id {
      if id == v.id {
        assert v in done + {v};
      } else {
        var n :| n in done && n.id == id;
        assert n in done + {v};
      }
    }
  }

  /** One depth: its nodes in their original order. */
  method SidesAtDepth(g: Subgraph, depths: seq<nat>, j: nat, group: seq<Node>, shallower: map<string, Side>)
    returns (sides: map<string, Side>)
    requires UniqueIds(g.nodes) && Ascending(depths) && j < |depths| && depths[j] > 0
    requires forall d :: d in depths <==> exists n :: n in g.nodes && n.depth == d
    requires group == Group(g.nodes, depths[j])
    requires SidesOf(g, shallower, NodesAt(g, depths[..j]))
    ensures SidesOf(g, sides, NodesAt(g, depths[..j + 1]))
  {
    sides := shallower;
    DepthDone(g, depths, j, group);
    for k := 0 to |group|
      invariant SidesOf(g, sides, DoneSoFar(g, depths, j, group, k))
    {
      var v := group[k];
      ghost var done := DoneSoFar(g, depths, j, group, k);
      NotYetDone(g, depths, j, group, k);
      var side := SideOfNode(g, sides, v, done);
      SidesExtended(g, sides, done, v, side);
      sides := sides[v.id := side];
    }
  }

  /** The nodes at shallower depths, and the first `k` of the group at this one. */
  ghost function DoneSoFar(g: Subgraph, depths: seq<nat>, j: nat, group: seq<Node>, k: nat): set<Node>
    requires j < |depths| && k <= |group|
  {
    NodesAt(g, depths[..j]) + set n | n in group[..k]
  }

  lemma DepthDone(g: Subgraph, depths: seq<nat>, j: nat, group: seq<Node>)
    requires j < |depths| && depths[j] > 0 && group == Group(g.nodes, depths[j])
    ensures DoneSoFar(g, depths, j, group, 0) == NodesAt(g, depths[..j])
    ensures DoneSoFar(g, depths, j, group, |group|) == NodesAt(g, depths[..j + 1])
  {
    GroupMembers(g.nodes, depths[j]);
    assert group[..|group|] == group;
    assert depths[..j + 1] == depths[..j] + [depths[j]];
  }

  method SidesByEntity(g: Subgraph, depths: seq<nat>, groups: map<nat, seq<Node>>) returns (sides: map<string, Side>)
    requires UniqueIds(g.nodes) && Layered(g, groups, depths)
    ensures SidesOf(g, sides, NodesAt(g, depths))
    ensures forall n :: n in g.nodes && n.depth > 0 ==> n in NodesAt(g, depths)
  {
    sides := map[];
    for j := 0 to |depths|
      invariant SidesOf(g, sides, NodesAt(g, depths[..j]))
    {
      var depth := depths[j];
      assert depth in depths;
      if depth != 0 {
        sides := SidesAtDepth(g, depths, j, groups[depth], sides);
      } else {
        assert depths[..j + 1] == depths[..j] + [depth];
        assert NodesAt(g, depths[..j + 1]) == NodesAt(g, depths[..j]);
      }
    }
    assert depths[..|depths|] == depths;
  }

  lemma NotYetDone(g: Subgraph, depths: seq<nat>, j: nat, group: seq<Node>, k: nat)
    requires UniqueIds(g.nodes) && Ascending(depths) && j < |depths| && k < |group| && depths[j] > 0
    requires forall d :: d in depths <==> exists n :: n in g.nodes && n.depth == d
    requires group == Group(g.nodes, depths[j])
    ensures var done := DoneSoFar(g, depths, j, group, k);
            && group[k] !in done && group[k] in g.nodes && group[k].depth == depths[j]
            && (forall n :: n in done ==> n in g.nodes && n.depth > 0)
            && (forall n :: n in g.nodes && 0 < n.depth < depths[j] ==> n in done)
            && DoneSoFar(g, depths, j, group, k + 1) == done + {group[k]}
  {
    var done := DoneSoFar(g, depths, j, group, k);
    assert group[k] in group;
    GroupMembers(g.nodes, depths[j]);
    forall n | n in done ensures n in g.nodes && n != group[k] && n.depth > 0 {
      if n in group[..k] {
        GroupUnique(g.nodes, depths[j]);
        assert n in group;
        var i :| 0 <= i < k && group[i] == n;
        assert group[i].id != group[k].id;
      } else {
        var i :| 0 <= i < j && depths[i] == n.depth;
      }
    }
    forall n | n in g.nodes && 0 < n.depth < depths[j] ensures n in done {
      ShallowerIsBefore(depths, j, n.depth);
    }
    assert group[..k + 1] == group[..k] + [group[k]];
  }

  lemma ShallowerIsBefore(depths: seq<nat>, j: nat, d: nat)
    requires Ascending(depths) && j < |depths| && d in depths && d < depths[j]
    ensures d in depths[..j]
  {
    var i :| 0 <= i < |depths| && depths[i] == d;
    assert i < j;
    assert depths[..j][i] == d;
  }

  // ---- right-side nodes have a witness chain -------------------------------------------------------------

  /** The root's first edge with the entity leads to it. */
  predicate RootLeadsTo(g: Subgraph, id: string) {
    DirectEdge(g.edges, RootId(g), id) == Some(Edge(RootId(g), id))
  }

  /** Each entity, having no edge with the root, has its parent edge to the next, one depth shallower;
      the root leads to the last. */
  predicate RightChain(g: Subgraph, chain: seq<string>, depth: nat)
    decreases |chain|
  {
    chain != [] &&
    if |chain| == 1 then RootLeadsTo(g, chain[0])
    else
      && depth >= 2 && chain[1] != "" && DirectEdge(g.edges, RootId(g), chain[0]).None?
      && ParentEdge(g.edges, g.nodes, chain[0], depth) == Some(Edge(chain[0], chain[1]))
      && RightChain(g, chain[1..], depth - 1)
  }

  lemma {:induction false} WitnessChain(g: Subgraph, id: string, depth: nat) returns (chain: seq<string>)
    requires SideAt(g, id, depth) == Right
    ensures RightChain(g, chain, depth) && chain[0] == id
    decreases depth
  {
    var direct := DirectEdge(g.edges, RootId(g), id);
    if direct.Some? {
      assert direct.value == Edge(RootId(g), id);
      chain := [id];
    } else {
      var parent := ParentEdge(g.edges, g.nodes, id, depth).value;
      var rest := WitnessChain(g, parent.target, depth - 1);
      chain := [id] + rest;
      assert parent == Edge(id, rest[0]) && chain[1..] == rest;
    }
  }

  lemma {:induction false} ChainIsRight(g: Subgraph, chain: seq<string>, depth: nat)
    requires RightChain(g, chain, depth)
    ensures SideAt(g, chain[0], depth) == Right
    decreases |chain|
  {
    if |chain| > 1 { ChainIsRight(g, chain[1..], depth - 1); }
  }

  /** An entity is on the right exactly when such a chain starts at it. */
  lemma RightHasChain(g: Subgraph, id: string, depth: nat)
    ensures SideAt(g, id, depth) == Right <==> exists chain :: RightChain(g, chain, depth) && chain[0] == id
  {
    if SideAt(g, id, depth) == Right {
      var chain := WitnessChain(g, id, depth);
    }
    if chain :| RightChain(g, chain, depth) && chain[0] == id {
      ChainIsRight(g, chain, depth);
    }
  }

  /** Along a chain every entity is on the right, each has an edge of the graph to the next, which
      lies one depth shallower, and the root has an edge to the last. */
  lemma {:induction false} ChainDescends(g: Subgraph, chain: seq<string>, depth: nat, k: nat)
    requires RightChain(g, chain, depth) && k < |chain|
    ensures k <= depth && SideAt(g, chain[k], depth - k) == Right
    ensures k + 1 < |chain| ==> Edge(chain[k], chain[k + 1]) in g.edges && depth - k >= 2
                                && DepthOf(g.nodes, chain[k + 1]) == Some(depth - k - 1)
    ensures k + 1 == |chain| ==> Edge(RootId(g), chain[k]) in g.edges
    decreases k
  {
    if k == 0 {
      ChainIsRight(g, chain, depth);
    } else {
      ChainDescends(g, chain[1..], depth - 1, k - 1);
    }
  }

  // ---- where a node's side differs from its parent's ------------------------------------------------------

  /** A node without an edge to the root shares the side of the entity at the other end of its
      parent edge exactly when the edge starts at the node (and the other id is not empty), or that
      entity is on the left anyway. */
  lemma SharesParentSideExactly(g: Subgraph, id: string, depth: nat)
    requires depth >= 2 && DirectEdge(g.edges, RootId(g), id).None?
    requires ParentEdge(g.edges, g.nodes, id, depth).Some?
    ensures var e := ParentEdge(g.edges, g.nodes, id, depth).value;
            var parent := OtherEnd(e, id).value;
            SideAt(g, id, depth) == SideAt(g, parent, depth - 1) <==>
              (e.source == id && e.target != "") || SideAt(g, parent, depth - 1) == Left
  {
  }

  /** A chain of edges leading away from the root: the first node is on the right, the second, which
      hangs on it, falls to the left. */
  lemma DescendingEdgeFallsLeft()
    ensures var g := Subgraph([Node("root", "", 0), Node("a", "", 1), Node("b", "", 2)], [Edge("root", "a"), Edge("a", "b")]);
            UniqueIds(g.nodes) && SideAt(g, "a", 1) == Right && SideAt(g, "b", 2) == Left
            && OtherEnd(ParentEdge(g.edges, g.nodes, "b", 2).value, "b") == Some("a")
  {
    var edges := [Edge("root", "a"), Edge("a", "b")];
    var nodes := [Node("root", "", 0), Node("a", "", 1), Node("b", "", 2)];
    var g := Subgraph(nodes, edges);
    assert nodes[..2] == [Node("root", "", 0), Node("a", "", 1)];
    assert DepthOf(nodes[..2], "a") == Some(1);
    assert DepthOf(nodes, "a") == Some(1);
    assert RootId(g) == "root";
    assert LeadsShallower(nodes, "b", 2, Edge("a", "b"));
    assert !LeadsShallower(nodes, "b", 2, Edge("root", "a"));
    assert edges[0] == Edge("root", "a") && edges[1] == Edge("a", "b");
    assert DirectEdge(edges, "root", "b").None?;
    assert DirectTest("root", "a")(edges[0]) && ParentTest(nodes, "b", 2)(edges[1]);
  }

  // ---- first edges and sides, by position ------------------------------------------------------------

  /** Edge `i` is the first between the root and the entity. */
  predicate FirstShared(g: Subgraph, id: string, i: nat) {
    i < |g.edges| && IsDirect(RootId(g), id, g.edges[i]) && forall j :: 0 <= j < i ==> !IsDirect(RootId(g), id, g.edges[j])
  }

  /** Edge `i` is the first that joins the entity to one at the depth above. */
  predicate FirstUp(g: Subgraph, id: string, depth: nat, i: nat) {
    i < |g.edges| && LeadsShallower(g.nodes, id, depth, g.edges[i])
    && forall j :: 0 <= j < i ==> !LeadsShallower(g.nodes, id, depth, g.edges[j])
  }

  /** The first edge an entity shares with the root decides its side. */
  lemma SideBySharedEdge(g: Subgraph, id: string, depth: nat, i: nat)
    requires FirstShared(g, id, i)
    ensures SideAt(g, id, depth) == Right <==> g.edges[i].source == RootId(g)
  {
    assert FoundAt(g.edges, DirectTest(RootId(g), id), i);
    FindIsFirst(g.edges, DirectTest(RootId(g), id), i);
  }

  /** Without one, the first edge to the depth above does, if it starts here and names an entity. */
  lemma SideByEdgeUp(g: Subgraph, id: string, depth: nat, i: nat)
    requires depth >= 2 && FirstUp(g, id, depth, i) && forall e :: e in g.edges ==> !IsDirect(RootId(g), id, e)
    ensures SideAt(g, id, depth)
         == if g.edges[i].source == id && g.edges[i].target != "" then SideAt(g, g.edges[i].target, depth - 1) else Left
  {
    assert FoundAt(g.edges, ParentTest(g.nodes, id, depth), i);
    FindIsFirst(g.edges, ParentTest(g.nodes, id, depth), i);
  }
}
