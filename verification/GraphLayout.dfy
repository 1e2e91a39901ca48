/** Integer coordinates of a layered graph drawing, and when two entities share a place. */
module GraphLayout {
  import opened Sorting
  import opened GraphSides

  datatype Point = Point(x: int, y: int)

  const COLUMN_SPACING := 320
  const OVERFLOW_SPACING := 220
  const ROW_SPACING := 116
  const WIDTH_OFFSET := 210
  const PER_COLUMN := 6

  // ---- order inside a layer -------------------------------------------------------------------

  const KIND_ORDER: seq<string> := [
    "GovernanceDecision", "Experiment", "EvaluationRun", "EvaluationResult", "Metric", "Candidate",
    "PromptVersion", "ModelVersion", "DatasetVersion", "EvaluationProvider", "Actor", "Policy"
  ]

  function IndexIn(order: seq<string>, kind: string): nat {
    if order == [] || order[0] == kind then 0 else 1 + IndexIn(order[1..], kind)
  }

  /** The place of the kind in the order, or the order's length when it has none. */
  function Weight(kind: string): nat { IndexIn(KIND_ORDER, kind) }

  lemma {:induction false} IndexOfItem(order: seq<string>, i: nat)
    requires i < |order| && forall j :: 0 <= j < i ==> order[j] != order[i]
    ensures IndexIn(order, order[i]) == i
  {
    if i > 0 {
      assert order[0] != order[i];
      forall j | 0 <= j < i - 1 ensures order[1..][j] != order[1..][i - 1] { assert order[j + 1] != order[i]; }
      IndexOfItem(order[1..], i - 1);
    }
  }

  lemma {:induction false} IndexOfOther(order: seq<string>, kind: string)
    requires kind !in order
    ensures IndexIn(order, kind) == |order|
  {
    if order != [] { IndexOfOther(order[1..], kind); }
  }

  /** The kinds from the first drawn to the last. */
  lemma KindsInOrder()
    ensures |KIND_ORDER| == 12
    ensures KIND_ORDER[0] == "GovernanceDecision" && KIND_ORDER[1] == "Experiment" && KIND_ORDER[2] == "EvaluationRun"
    ensures KIND_ORDER[3] == "EvaluationResult" && KIND_ORDER[4] == "Metric" && KIND_ORDER[5] == "Candidate"
    ensures KIND_ORDER[6] == "PromptVersion" && KIND_ORDER[7] == "ModelVersion" && KIND_ORDER[8] == "DatasetVersion"
    ensures KIND_ORDER[9] == "EvaluationProvider" && KIND_ORDER[10] == "Actor" && KIND_ORDER[11] == "Policy"
    ensures forall i, j :: 0 <= i < j < 12 ==> KIND_ORDER[i] != KIND_ORDER[j]
  {
  }

  /** In a layer, an earlier kind stands before a later one, and kinds not in the order come last. */
  lemma LayerFollowsKinds(nodes: seq<Node>, depth: nat, i: nat, j: nat)
    requires UniqueIds(nodes) && i < j < |Layer(nodes, depth)|
    ensures var m, n := Layer(nodes, depth)[i].kind, Layer(nodes, depth)[j].kind;
            n !in KIND_ORDER || exists a, b :: 0 <= a <= b < |KIND_ORDER| && KIND_ORDER[a] == m && KIND_ORDER[b] == n
  {
    LayerProperties(nodes, depth);
    var m, n := Layer(nodes, depth)[i], Layer(nodes, depth)[j];
    assert Lighter(m, n);
    KindPlace(m.kind);
    KindPlace(n.kind);
  }

  lemma KindPlace(kind: string)
    ensures if kind in KIND_ORDER then Weight(kind) < |KIND_ORDER| && KIND_ORDER[Weight(kind)] == kind
            else Weight(kind) == |KIND_ORDER|
  {
    KindsInOrder();
    if kind in KIND_ORDER {
      var i :| 0 <= i < |KIND_ORDER| && KIND_ORDER[i] == kind;
      IndexOfItem(KIND_ORDER, i);
    } else {
      IndexOfOther(KIND_ORDER, kind);
    }
  }

  predicate Lighter(m: Node, n: Node) { Weight(m.kind) <= Weight(n.kind) }

  function HasWeight(w: nat): Node -> bool { (n: Node) => Weight(n.kind) == w }

  /** A layer in drawing order holds the same nodes, by weight, and nodes of equal weight keep their
      order. */
  lemma SortProperties(s: seq<Node>)
    requires UniqueIds(s)
    ensures var r := Sort(Lighter, s);
            && |r| == |s| && UniqueIds(r) && Ordered(Lighter, r) && (forall m :: m in r <==> m in s)
            && forall w :: Select(HasWeight(w), r) == Select(HasWeight(w), s)
  {
    SortMembers(Lighter, s);
    SortOrders(Lighter, s);
    assert Distinct(IdOf, s);
    SortKeepsDistinct(Lighter, IdOf, s);
    var r := Sort(Lighter, s);
    forall i, j | 0 <= i < j < |r| ensures r[i].id != r[j].id { assert IdOf(r[i]) != IdOf(r[j]); }
    forall w ensures Select(HasWeight(w), r) == Select(HasWeight(w), s) {
      SortIsStable(Lighter, HasWeight(w), s);
    }
  }

  function Layer(nodes: seq<Node>, depth: nat): seq<Node> { Sort(Lighter, Group(nodes, depth)) }

  predicate HasSide(sides: map<string, Side>, n: Node, side: Side) { n.id in sides && sides[n.id] == side }

  function OnSide(sides: map<string, Side>, nodes: seq<Node>, side: Side): seq<Node> {
    if nodes == [] then []
    else
      var last := nodes[|nodes| - 1];
      OnSide(sides, nodes[..|nodes| - 1], side) + (if HasSide(sides, last, side) then [last] else [])
  }

  lemma {:induction false} OnSideProperties(sides: map<string, Side>, nodes: seq<Node>, side: Side)
    requires UniqueIds(nodes)
    ensures var r := OnSide(sides, nodes, side);
            |r| <= |nodes| && UniqueIds(r) && (forall m :: m in r <==> m in nodes && HasSide(sides, m, side))
  {
    if nodes != [] {
      var before, last := nodes[..|nodes| - 1], nodes[|nodes| - 1];
      OnSideProperties(sides, before, side);
      var r := OnSide(sides, before, side);
      assert nodes == before + [last];
      forall i | 0 <= i < |r| ensures r[i].id != last.id {
        assert r[i] in r && r[i] in before;
      }
    }
  }

  function SideNodes(nodes: seq<Node>, sides: map<string, Side>, depth: nat, side: Side): seq<Node> {
    OnSide(sides, Layer(nodes, depth), side)
  }

  lemma LayerProperties(nodes: seq<Node>, depth: nat)
    requires UniqueIds(nodes)
    ensures UniqueIds(Layer(nodes, depth)) && Ordered(Lighter, Layer(nodes, depth))
    ensures |Layer(nodes, depth)| == |Group(nodes, depth)|
    ensures forall m :: m in Layer(nodes, depth) <==> m in nodes && m.depth == depth
  {
    GroupUnique(nodes, depth);
    GroupMembers(nodes, depth);
    SortProperties(Group(nodes, depth));
  }

  lemma SideNodesProperties(nodes: seq<Node>, sides: map<string, Side>, depth: nat, side: Side)
    requires UniqueIds(nodes)
    ensures var r := SideNodes(nodes, sides, depth, side);
            && UniqueIds(r) && |r| <= |Group(nodes, depth)|
            && (forall m :: m in r <==> m in nodes && m.depth == depth && HasSide(sides, m, side))
  {
    LayerProperties(nodes, depth);
    OnSideProperties(sides, Layer(nodes, depth), side);
  }

  // ---- coordinates ---------------------------------------------------------------------------------

  function FindIndex(nodes: seq<Node>, id: string): nat {
    if nodes == [] || nodes[0].id == id then 0 else 1 + FindIndex(nodes[1..], id)
  }

  lemma {:induction false} FindIndexOf(nodes: seq<Node>, i: nat)
    requires UniqueIds(nodes) && i < |nodes|
    ensures FindIndex(nodes, nodes[i].id) == i
  {
    if i > 0 { FindIndexOf(nodes[1..], i - 1); }
  }

  function Min(a: int, b: int): int { if a <= b then a else b }

  function Max(a: int, b: int): int { if a <= b then b else a }

  function RootPlace(index: nat, count: nat): Point {
    Point(-WIDTH_OFFSET, index * ROW_SPACING - Max(0, (count - 1) * ROW_SPACING) / 2)
  }

  function SidePlace(side: Side, depth: nat, index: nat, count: nat): Point {
    var direction := if side == Right then 1 else -1;
    var height := Max(0, (Min(PER_COLUMN, count) - 1) * ROW_SPACING);
    Point(direction * (depth * COLUMN_SPACING + index / PER_COLUMN * OVERFLOW_SPACING) - WIDTH_OFFSET,
          index % PER_COLUMN * ROW_SPACING - height / 2)
  }

  /** Where the drawing puts an entity, given the side map. */
  function Place(nodes: seq<Node>, sides: map<string, Side>, n: Node): Point
    requires n.depth > 0 ==> n.id in sides
  {
    if n.depth == 0 then RootPlace(FindIndex(Layer(nodes, 0), n.id), |Layer(nodes, 0)|)
    else
      var sideNodes := SideNodes(nodes, sides, n.depth, sides[n.id]);
      SidePlace(sides[n.id], n.depth, FindIndex(sideNodes, n.id), |sideNodes|)
  }

  /** Every positive-depth entity has a side. */
  ghost predicate Sided(nodes: seq<Node>, sides: map<string, Side>) {
    forall n :: n in nodes && n.depth > 0 ==> n.id in sides
  }

  // ---- the layout loop -----------------------------------------------------------------------------

  ghost predicate PlacedAt(nodes: seq<Node>, sides: map<string, Side>, positions: map<string, Point>, depths: seq<nat>)
    requires Sided(nodes, sides)
  {
    && (forall n :: n in nodes && n.depth in depths ==> n.id in positions && positions[n.id] == Place(nodes, sides, n))
    && (forall id :: id in positions ==> exists n :: n in nodes && n.depth in depths && n.id == id)
  }

  /** The members of a layer that the side map puts on one side. */
  method FilterSide(sides: map<string, Side>, nodes: seq<Node>, side: Side) returns (r: seq<Node>)
    ensures r == OnSide(sides, nodes, side)
  {
    r := [];
    for i := 0 to |nodes|
      invariant r == OnSide(sides, nodes[..i], side)
    {
      assert nodes[..i + 1][..i] == nodes[..i];
      if nodes[i].id in sides && sides[nodes[i].id] == side {
        r := r + [nodes[i]];
      }
    }
    assert nodes[..|nodes|] == nodes;
  }

  method PlaceNode(nodes: seq<Node>, sides: map<string, Side>, depth: nat, layer: seq<Node>, index: nat,
                   leftNodes: seq<Node>, rightNodes: seq<Node>) returns (place: Point)
    requires UniqueIds(nodes) && Sided(nodes, sides) && layer == Layer(nodes, depth) && index < |layer|
    requires leftNodes == OnSide(sides, layer, Left) && rightNodes == OnSide(sides, layer, Right)
    requires layer[index].depth == depth && (depth > 0 ==> layer[index].id in sides)
    ensures place == Place(nodes, sides, layer[index])
  {
    var n := layer[index];
    if depth == 0 {
      LayerProperties(nodes, depth);
      FindIndexOf(layer, index);
      return RootPlace(index, |layer|);
    }
    var side := if n.id in sides then sides[n.id] else Left;
    var sideNodes := if side == Left then leftNodes else rightNodes;
    return SidePlace(side, depth, FindIndex(sideNodes, n.id), |sideNodes|);
  }

  /** The first `i` members of the layer are placed as wanted, everything else is as before. */
  ghost predicate LayerDone(layer: seq<Node>, i: nat, want: map<Node, Point>,
                            before: map<string, Point>, positions: map<string, Point>)
    requires i <= |layer|
  {
    && (forall k :: 0 <= k < i ==> layer[k] in want && layer[k].id in positions && positions[layer[k].id] == want[layer[k]])
    && (forall id :: id in positions ==> id in before || exists k :: 0 <= k < i && layer[k].id == id)
    && (forall id :: id in before ==> id in positions)
    && (forall id :: id in before && positions[id] != before[id] ==> exists k :: 0 <= k < i && layer[k].id == id)
  }

  lemma LayerStep(layer: seq<Node>, i: nat, want: map<Node, Point>, before: map<string, Point>, positions: map<string, Point>)
    requires i < |layer| && UniqueIds(layer) && layer[i] in want && LayerDone(layer, i, want, before, positions)
    ensures LayerDone(layer, i + 1, want, before, positions[layer[i].id := want[layer[i]]])
  {
    var after := positions[layer[i].id := want[layer[i]]];
    forall id | id in after ensures id in before || exists k :: 0 <= k < i + 1 && layer[k].id == id {
      if id == layer[i].id { assert layer[i].id == id; }
    }
    forall id | id in before && after[id] != before[id] ensures exists k :: 0 <= k < i + 1 && layer[k].id == id {
      if id == layer[i].id { assert layer[i].id == id; }
    }
  }

  ghost function Wanted(nodes: seq<Node>, sides: map<string, Side>, layer: seq<Node>): map<Node, Point>
    requires Sided(nodes, sides)
  {
    map n | n in layer && n in nodes :: Place(nodes, sides, n)
  }

  method PlaceLayer(nodes: seq<Node>, sides: map<string, Side>, depth: nat, layer: seq<Node>, before: map<string, Point>)
    returns (positions: map<string, Point>)
    requires UniqueIds(nodes) && Sided(nodes, sides) && layer == Layer(nodes, depth)
    ensures LayerDone(layer, |layer|, Wanted(nodes, sides, layer), before, positions)
  {
    LayerProperties(nodes, depth);
    var leftNodes := FilterSide(sides, layer, Left);
    var rightNodes := FilterSide(sides, layer, Right);
    ghost var want := Wanted(nodes, sides, layer);
    positions := before;
    for i := 0 to |layer|
      invariant LayerDone(layer, i, want, before, positions)
    {
      assert layer[i] in layer;
      var place := PlaceNode(nodes, sides, depth, layer, i, leftNodes, rightNodes);
      LayerStep(layer, i, want, before, positions);
      positions := positions[layer[i].id := place];
    }
  }

  lemma LayerPlaced(nodes: seq<Node>, sides: map<string, Side>, depths: seq<nat>, j: nat, layer: seq<Node>,
                    before: map<string, Point>, positions: map<string, Point>)
    requires UniqueIds(nodes) && Sided(nodes, sides) && Ascending(depths) && j < |depths|
    requires PlacedAt(nodes, sides, before, depths[..j])
    requires forall n :: n in layer <==> n in nodes && n.depth == depths[j]
    requires LayerDone(layer, |layer|, Wanted(nodes, sides, layer), before, positions)
    ensures PlacedAt(nodes, sides, positions, depths[..j + 1])
  {
    var more := depths[..j + 1];
    assert more == depths[..j] + [depths[j]];
    forall n | n in nodes && n.depth in more ensures n.id in positions && positions[n.id] == Place(nodes, sides, n) {
      if n.depth == depths[j] {
        assert n in layer;
        var k :| 0 <= k < |layer| && layer[k] == n;
      } else {
        forall k | 0 <= k < |layer| ensures layer[k].id != n.id {
          assert layer[k] in layer;
          if layer[k].id == n.id { SameIdSameNode(nodes, layer[k], n); }
        }
      }
    }
    forall id | id in positions ensures exists n :: n in nodes && n.depth in more && n.id == id {
      if id in before {
        var n :| n in nodes && n.depth in depths[..j] && n.id == id;
        assert n.depth in more;
      } else {
        var k :| 0 <= k < |layer| && layer[k].id == id;
        assert layer[k] in layer && layer[k].depth in more;
      }
    }
  }

  /** Every entity gets its place, and nothing else does. The sides are those of `SideAt`. */
  method LayoutNodes(g: Subgraph) returns (positions: map<string, Point>, sides: map<string, Side>)
    requires UniqueIds(g.nodes)
    ensures forall n :: n in g.nodes && n.depth > 0 ==> n.id in sides && sides[n.id] == SideAt(g, n.id, n.depth)
    ensures forall n :: n in g.nodes ==> n.id in positions && positions[n.id] == Place(g.nodes, sides, n)
    ensures forall id :: id in positions ==> exists n :: n in g.nodes && n.id == id
  {
    var groups, depths := GroupByDepth(g);
    sides := SidesByEntity(g, depths, groups);
    assert Sided(g.nodes, sides);
    positions := PlaceLayers(g, groups, depths, sides);
    forall n | n in g.nodes ensures n.depth in depths {}
  }

  method PlaceLayers(g: Subgraph, groups: map<nat, seq<Node>>, depths: seq<nat>, sides: map<string, Side>)
    returns (positions: map<string, Point>)
    requires UniqueIds(g.nodes) && Layered(g, groups, depths) && Sided(g.nodes, sides)
    ensures PlacedAt(g.nodes, sides, positions, depths)
  {
    positions := map[];
    for j := 0 to |depths|
      invariant PlacedAt(g.nodes, sides, positions, depths[..j])
    {
      var depth := depths[j];
      assert depth in depths;
      var layer := Sort(Lighter, groups[depth]);
      LayerProperties(g.nodes, depth);
      ghost var before := positions;
      positions := PlaceLayer(g.nodes, sides, depth, layer, positions);
      LayerPlaced(g.nodes, sides, depths, j, layer, before, positions);
    }
    assert depths[..|depths|] == depths;
  }

  // ---- the shape of the drawing -------------------------------------------------------------------

  lemma RootRow(i: nat, count: nat)
    requires i < count
    ensures RootPlace(i, count) == Point(-210, 58 * (2 * i - count + 1))
  {
    assert (count - 1) * 116 == 58 * (count - 1) * 2;
  }

  /** Roots stand in one column, 116 apart, centred on zero. */
  lemma RootsAreCentred(i: nat, count: nat)
    requires i < count
    ensures RootPlace(i, count).x == -210
    ensures RootPlace(0, count).y + RootPlace(count - 1, count).y == 0
    ensures i + 1 < count ==> RootPlace(i + 1, count).y - RootPlace(i, count).y == 116
  {
    RootRow(i, count);
    RootRow(0, count);
    RootRow(count - 1, count);
    if i + 1 < count { RootRow(i + 1, count); }
  }

  /** The two sides mirror each other about the root column; rows are centred on zero. */
  lemma SidesMirror(depth: nat, i: nat, count: nat)
    requires i < count
    ensures SidePlace(Left, depth, i, count).y == SidePlace(Right, depth, i, count).y
    ensures SidePlace(Left, depth, i, count).x + SidePlace(Right, depth, i, count).x == 2 * -210
    ensures SidePlace(Right, depth, 0, count).x == -210 + 320 * depth
    ensures SidePlace(Right, depth, 0, count).y + SidePlace(Right, depth, Min(6, count) - 1, count).y == 0
  {
    RowPlace(Left, depth, i, count);
    RowPlace(Right, depth, i, count);
    RowPlace(Right, depth, 0, count);
    RowPlace(Right, depth, Min(6, count) - 1, count);
    assert (Min(6, count) - 1) % 6 == Min(6, count) - 1 && (Min(6, count) - 1) / 6 == 0;
  }

  /** A layer fills columns of six, 220 apart, with rows 116 apart. */
  lemma LayerSteps(depth: nat, i: nat, count: nat)
    requires i < count
    ensures i % 6 != 5 && i + 1 < count ==>
              SidePlace(Right, depth, i + 1, count) == Point(SidePlace(Right, depth, i, count).x, SidePlace(Right, depth, i, count).y + 116)
    ensures i + 6 < count ==>
              SidePlace(Right, depth, i + 6, count) == Point(SidePlace(Right, depth, i, count).x + 220, SidePlace(Right, depth, i, count).y)
  {
    RowPlace(Right, depth, i, count);
    if i + 1 < count && i % 6 != 5 {
      RowPlace(Right, depth, i + 1, count);
      assert (i + 1) / 6 == i / 6 && (i + 1) % 6 == i % 6 + 1;
    }
    if i + 6 < count {
      RowPlace(Right, depth, i + 6, count);
      assert (i + 6) / 6 == i / 6 + 1 && (i + 6) % 6 == i % 6;
    }
  }

  // ---- when two entities share a place -----------------------------------------------------------

  lemma RowPlace(side: Side, depth: nat, index: nat, count: nat)
    requires index < count
    ensures SidePlace(side, depth, index, count)
         == Point((if side == Right then 1 else -1) * (320 * depth + 220 * (index / 6)) - 210,
                  58 * (2 * (index % 6) - Min(6, count) + 1))
  {
  }

  /** Different indices on one side of one layer. */
  lemma SameLayerApart(side: Side, depth: nat, i: nat, j: nat, count: nat)
    requires i < count && j < count && i != j
    ensures SidePlace(side, depth, i, count) != SidePlace(side, depth, j, count)
  {
    RowPlace(side, depth, i, count);
    RowPlace(side, depth, j, count);
  }

  /** A layer of `near` entities and one of `far` entities on the same side, 11k depths apart, are
      crowded: the near one overflows into the far one's columns, with rows that line up. */
  predicate Crowds(near: nat, far: nat, k: nat) {
    k >= 1 && far >= 1 && Min(6, far) % 2 == 0 && near > 96 * k + 3 - Min(6, far) / 2
  }

  lemma CollisionIsCrowded(side: Side, d: nat, i: nat, near: nat, e: nat, j: nat, far: nat)
    requires 1 <= d < e && i < near && j < far
    requires SidePlace(side, d, i, near) == SidePlace(side, e, j, far)
    ensures exists k: nat :: e == d + 11 * k && Crowds(near, far, k)
  {
    RowPlace(side, d, i, near);
    RowPlace(side, e, j, far);
    var columns := i / 6 - j / 6;
    var k := ColumnsPerDepth(e - d, columns);
    assert near > 96;
    assert 2 * (i % 6) - 6 == 2 * (j % 6) - Min(6, far);
    assert Crowds(near, far, k);
  }

  lemma ColumnsPerDepth(depths: nat, columns: int) returns (k: nat)
    requires depths > 0 && 320 * depths == 220 * columns
    ensures k >= 1 && columns == 16 * k && depths == 11 * k
  {
    k := 3 * depths - 2 * columns;
  }

  lemma CrowdedCollides(side: Side, d: nat, near: nat, e: nat, far: nat, k: nat) returns (i: nat)
    requires d >= 1 && e == d + 11 * k && Crowds(near, far, k)
    ensures d != e && i < near && SidePlace(side, d, i, near) == SidePlace(side, e, 0, far)
  {
    var r := 3 - Min(6, far) / 2;
    i := 96 * k + r;
    assert i / 6 == 16 * k && i % 6 == r;
    RowPlace(side, d, i, near);
    RowPlace(side, e, 0, far);
  }

  /** Two places off the root column coincide only on one side, and then only for the same index of
      the same layer or for crowded layers. */
  lemma PlacesCoincide(s: Side, d: nat, i: nat, near: nat, t: Side, e: nat, j: nat, far: nat)
    requires 1 <= d <= e && i < near && j < far
    requires SidePlace(s, d, i, near) == SidePlace(t, e, j, far)
    ensures s == t
    ensures d == e && near == far ==> i == j
    ensures d < e ==> exists k: nat :: e == d + 11 * k && Crowds(near, far, k)
  {
    RowPlace(s, d, i, near);
    RowPlace(t, e, j, far);
    assert s == t;
    if d < e {
      CollisionIsCrowded(s, d, i, near, e, j, far);
    } else if near == far && i != j {
      SameLayerApart(s, d, i, j, near);
    }
  }

  lemma OffRootColumn(s: Side, d: nat, i: nat, count: nat)
    requires d >= 1 && i < count
    ensures SidePlace(s, d, i, count).x != -WIDTH_OFFSET
  {
    RowPlace(s, d, i, count);
  }

  predicate CrowdedAt(nodes: seq<Node>, sides: map<string, Side>, side: Side, d: nat, k: nat) {
    d >= 1 && Crowds(|SideNodes(nodes, sides, d, side)|, |SideNodes(nodes, sides, d + 11 * k, side)|, k)
  }

  ghost predicate Crowded(nodes: seq<Node>, sides: map<string, Side>) {
    exists side, d: nat, k: nat :: CrowdedAt(nodes, sides, side, d, k)
  }

  ghost predicate Overlapping(nodes: seq<Node>, sides: map<string, Side>)
    requires Sided(nodes, sides)
  {
    exists m, n :: m in nodes && n in nodes && m != n && Place(nodes, sides, m) == Place(nodes, sides, n)
  }

  /** The place of the entity at an index of a side. */
  lemma PlaceOnSide(nodes: seq<Node>, sides: map<string, Side>, depth: nat, side: Side, i: nat)
    requires UniqueIds(nodes) && depth > 0 && i < |SideNodes(nodes, sides, depth, side)|
    ensures var s := SideNodes(nodes, sides, depth, side);
            && s[i] in nodes && s[i].depth == depth && s[i].id in sides
            && Place(nodes, sides, s[i]) == SidePlace(side, depth, i, |s|)
  {
    var s := SideNodes(nodes, sides, depth, side);
    SideNodesProperties(nodes, sides, depth, side);
    assert s[i] in s;
    FindIndexOf(s, i);
  }

  /** A positive-depth entity's index on its side. */
  lemma IndexOnSide(nodes: seq<Node>, sides: map<string, Side>, n: Node) returns (i: nat, count: nat)
    requires UniqueIds(nodes) && n in nodes && n.depth > 0 && n.id in sides
    ensures var s := SideNodes(nodes, sides, n.depth, sides[n.id]);
            i < count == |s| && s[i] == n && Place(nodes, sides, n) == SidePlace(sides[n.id], n.depth, i, count)
  {
    var s := SideNodes(nodes, sides, n.depth, sides[n.id]);
    SideNodesProperties(nodes, sides, n.depth, sides[n.id]);
    assert n in s;
    i :| 0 <= i < |s| && s[i] == n;
    count := |s|;
    PlaceOnSide(nodes, sides, n.depth, sides[n.id], i);
  }

  lemma RootsApart(nodes: seq<Node>, sides: map<string, Side>, m: Node, n: Node)
    requires UniqueIds(nodes) && m in nodes && n in nodes && m != n && m.depth == 0 && n.depth == 0
    ensures Place(nodes, sides, m) != Place(nodes, sides, n)
  {
    var layer := Layer(nodes, 0);
    LayerProperties(nodes, 0);
    assert m in layer && n in layer;
    var i :| 0 <= i < |layer| && layer[i] == m;
    var j :| 0 <= j < |layer| && layer[j] == n;
    FindIndexOf(layer, i);
    FindIndexOf(layer, j);
  }

  lemma SlotsCrowded(nodes: seq<Node>, sides: map<string, Side>, s: Side, d: nat, i: nat, t: Side, e: nat, j: nat)
    requires 1 <= d <= e && i < |SideNodes(nodes, sides, d, s)| && j < |SideNodes(nodes, sides, e, t)|
    requires SidePlace(s, d, i, |SideNodes(nodes, sides, d, s)|) == SidePlace(t, e, j, |SideNodes(nodes, sides, e, t)|)
    requires d == e && s == t ==> i != j
    ensures Crowded(nodes, sides)
  {
    var near, far := |SideNodes(nodes, sides, d, s)|, |SideNodes(nodes, sides, e, t)|;
    PlacesCoincide(s, d, i, near, t, e, j, far);
    var k: nat :| e == d + 11 * k && Crowds(near, far, k);
    assert CrowdedAt(nodes, sides, s, d, k);
  }

  lemma SharedPlaceIsCrowded(nodes: seq<Node>, sides: map<string, Side>, m: Node, n: Node)
    requires UniqueIds(nodes) && Sided(nodes, sides) && m in nodes && n in nodes && m != n
    requires Place(nodes, sides, m) == Place(nodes, sides, n) && m.depth <= n.depth
    ensures Crowded(nodes, sides)
  {
    if n.depth == 0 {
      RootsApart(nodes, sides, m, n);
    } else {
      var j, far := IndexOnSide(nodes, sides, n);
      OffRootColumn(sides[n.id], n.depth, j, far);
      if m.depth > 0 {
        var i, near := IndexOnSide(nodes, sides, m);
        SlotsCrowded(nodes, sides, sides[m.id], m.depth, i, sides[n.id], n.depth, j);
      }
    }
  }

  lemma CrowdedShares(nodes: seq<Node>, sides: map<string, Side>, side: Side, d: nat, k: nat)
    requires UniqueIds(nodes) && Sided(nodes, sides) && CrowdedAt(nodes, sides, side, d, k)
    ensures Overlapping(nodes, sides)
  {
    var e := d + 11 * k;
    var near, far := SideNodes(nodes, sides, d, side), SideNodes(nodes, sides, e, side);
    var i := CrowdedCollides(side, d, |near|, e, |far|, k);
    PlaceOnSide(nodes, sides, d, side, i);
    PlaceOnSide(nodes, sides, e, side, 0);
    var m, n := near[i], far[0];
    assert m in nodes && n in nodes && m != n && Place(nodes, sides, m) == Place(nodes, sides, n);
  }

  /** Two entities share a place exactly when some side is crowded. */
  lemma OverlapExactlyWhenCrowded(nodes: seq<Node>, sides: map<string, Side>)
    requires UniqueIds(nodes) && Sided(nodes, sides)
    ensures Overlapping(nodes, sides) <==> Crowded(nodes, sides)
  {
    if Overlapping(nodes, sides) {
      var m, n :| m in nodes && n in nodes && m != n && Place(nodes, sides, m) == Place(nodes, sides, n);
      if m.depth <= n.depth {
        SharedPlaceIsCrowded(nodes, sides, m, n);
      } else {
        SharedPlaceIsCrowded(nodes, sides, n, m);
      }
    }
    if Crowded(nodes, sides) {
      var side, d: nat, k: nat :| CrowdedAt(nodes, sides, side, d, k);
      CrowdedShares(nodes, sides, side, d, k);
    }
  }

  lemma {:induction false} TwoGroupsFit(nodes: seq<Node>, d: nat, e: nat)
    requires d != e
    ensures |Group(nodes, d)| + |Group(nodes, e)| <= |nodes|
  {
    if nodes != [] { TwoGroupsFit(nodes[..|nodes| - 1], d, e); }
  }

  /** Crowding takes an entity at depth 12 or more, and more than 100 entities. */
  lemma CrowdingNeeds(nodes: seq<Node>, sides: map<string, Side>, side: Side, d: nat, k: nat) returns (n: Node)
    requires UniqueIds(nodes) && CrowdedAt(nodes, sides, side, d, k)
    ensures n in nodes && n.depth >= 12 && |nodes| > 100
  {
    var far := SideNodes(nodes, sides, d + 11 * k, side);
    SideNodesProperties(nodes, sides, d, side);
    SideNodesProperties(nodes, sides, d + 11 * k, side);
    TwoGroupsFit(nodes, d, d + 11 * k);
    n := far[0];
    assert n in far;
  }

  lemma UncrowdedDoNotOverlap(nodes: seq<Node>, sides: map<string, Side>)
    requires UniqueIds(nodes) && Sided(nodes, sides)
    requires forall side, d: nat, k: nat :: !CrowdedAt(nodes, sides, side, d, k)
    ensures !Overlapping(nodes, sides)
  {
    OverlapExactlyWhenCrowded(nodes, sides);
  }

  /** No two entities share a place up to depth 11 (the console asks for at most five hops), nor in
      any graph within the console's query limit of 100 entities, whatever their depths. */
  lemma ConsoleGraphsDoNotOverlap(nodes: seq<Node>, sides: map<string, Side>)
    requires UniqueIds(nodes) && Sided(nodes, sides)
    requires (forall n :: n in nodes ==> n.depth <= 11) || |nodes| <= 100
    ensures !Overlapping(nodes, sides)
  {
    forall side, d: nat, k: nat ensures !CrowdedAt(nodes, sides, side, d, k) {
      if CrowdedAt(nodes, sides, side, d, k) {
        var n := CrowdingNeeds(nodes, sides, side, d, k);
      }
    }
    UncrowdedDoNotOverlap(nodes, sides);
  }
}
