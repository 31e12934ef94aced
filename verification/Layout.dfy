/** Laying out a diagram: levels assigned in one pass over the node order, then positions on a grid. */
module Layout {
  import opened Keyed
  import opened DiagramValues

  function Into(edges: seq<Edge>, id: string): seq<Edge> {
    if edges == [] then []
    else Into(edges[..|edges| - 1], id) + if edges[|edges| - 1].to == id then [edges[|edges| - 1]] else []
  }

  /** A level not assigned yet reads as 0. */
  function LevelOf(levels: map<string, nat>, id: string): nat {
    if id in levels then levels[id] else 0
  }

  /** One more than the greatest level among the sources; 0 without incoming edges. */
  function LevelFrom(levels: map<string, nat>, incoming: seq<Edge>): (l: nat)
    ensures forall e | e in incoming :: LevelOf(levels, e.from) + 1 <= l
    ensures incoming != [] ==> exists e :: e in incoming && l == LevelOf(levels, e.from) + 1
    ensures incoming == [] ==> l == 0
  {
    if incoming == [] then 0
    else
      var front, last := incoming[..|incoming| - 1], incoming[|incoming| - 1];
      assert incoming == front + [last];
      var rest, here := LevelFrom(levels, front), LevelOf(levels, last.from) + 1;
      if rest > here then rest else here
  }

  /** The levels once the first nodes of the order have been handled. */
  function Levels(g: Graph, order: seq<string>): map<string, nat> {
    if order == [] then map[]
    else
      var before, id := Levels(g, order[..|order| - 1]), order[|order| - 1];
      before[id := LevelFrom(before, Into(g.edges, id))]
  }

  /** The maximum over the incoming edges. */
  method MaxLevel(levels: map<string, nat>, incoming: seq<Edge>) returns (level: nat)
    ensures level == LevelFrom(levels, incoming)
  {
    level := 0;
    for j := 0 to |incoming|
      invariant level == LevelFrom(levels, incoming[..j])
    {
      assert incoming[..j + 1][..j] == incoming[..j];
      var here := LevelOf(levels, incoming[j].from) + 1;
      level := if level > here then level else here;
    }
    assert incoming[..|incoming|] == incoming;
  }

  method AssignLevels(g: Graph) returns (levels: map<string, nat>)
    ensures levels == Levels(g, g.order)
  {
    levels := map[];
    for i := 0 to |g.order|
      invariant levels == Levels(g, g.order[..i])
    {
      assert g.order[..i + 1][..i] == g.order[..i];
      var level := MaxLevel(levels, Into(g.edges, g.order[i]));
      levels := levels[g.order[i] := level];
    }
    assert g.order[..|g.order|] == g.order;
  }

  // ---------------------------------------------------------------------------------------------
  // Levels and paths
  // ---------------------------------------------------------------------------------------------

  /** `path` is a sequence of joined edges that ends at `end`. */
  ghost predicate IsPath(g: Graph, path: seq<Edge>, end: string) {
    path == [] ||
    var last := path[|path| - 1];
    last in g.edges && last.to == end && IsPath(g, path[..|path| - 1], last.from)
  }

  ghost predicate PathOfLength(g: Graph, end: string, n: nat) {
    exists path :: IsPath(g, path, end) && |path| == n
  }

  /** The edge's source comes before its target in the order. */
  ghost predicate RunsForward(g: Graph, e: Edge) {
    exists i, j :: 0 <= i < j < |g.order| && g.order[i] == e.from && g.order[j] == e.to
  }

  lemma {:induction false} IntoMembers(edges: seq<Edge>, id: string, e: Edge)
    ensures e in Into(edges, id) <==> e in edges && e.to == id
  {
    if edges != [] {
      IntoMembers(edges[..|edges| - 1], id, e);
      assert edges == edges[..|edges| - 1] + [edges[|edges| - 1]];
    }
  }

  lemma {:induction false} LevelsKeys(g: Graph, order: seq<string>)
    ensures forall id :: id in Levels(g, order) <==> id in order
  {
    if order != [] {
      LevelsKeys(g, order[..|order| - 1]);
      assert order == order[..|order| - 1] + [order[|order| - 1]];
    }
  }

  /** A node's level is settled when its turn comes and never changed afterwards. */
  lemma {:induction false} LevelSettled(g: Graph, k: nat, n: nat)
    requires Valid(g) && k < n <= |g.order|
    ensures g.order[k] in Levels(g, g.order[..n])
    ensures Levels(g, g.order[..n])[g.order[k]] == LevelFrom(Levels(g, g.order[..k]), Into(g.edges, g.order[k]))
    decreases n
  {
    assert g.order[..n][..n - 1] == g.order[..n - 1];
    if k < n - 1 {
      LevelSettled(g, k, n - 1);
      assert g.order[k] != g.order[n - 1];
    }
  }

  lemma LevelAt(g: Graph, k: nat)
    requires Valid(g) && k < |g.order|
    ensures g.order[k] in Levels(g, g.order)
    ensures Levels(g, g.order)[g.order[k]] == LevelFrom(Levels(g, g.order[..k]), Into(g.edges, g.order[k]))
  {
    assert g.order[..|g.order|] == g.order;
    LevelSettled(g, k, |g.order|);
  }

  /** Along every edge that runs forward the level rises. */
  lemma ForwardEdgesRise(g: Graph, e: Edge)
    requires Valid(g) && e in g.edges && RunsForward(g, e)
    ensures e.from in Levels(g, g.order) && e.to in Levels(g, g.order)
    ensures Levels(g, g.order)[e.from] + 1 <= Levels(g, g.order)[e.to]
  {
    var i, j :| 0 <= i < j < |g.order| && g.order[i] == e.from && g.order[j] == e.to;
    LevelAt(g, i);
    LevelAt(g, j);
    LevelSettled(g, i, j);
    IntoMembers(g.edges, e.to, e);
  }

  lemma LevelKept(g: Graph, i: nat, k: nat)
    requires Valid(g) && i < k <= |g.order|
    ensures LevelOf(Levels(g, g.order[..k]), g.order[i]) == LevelOf(Levels(g, g.order), g.order[i])
  {
    LevelAt(g, i);
    LevelSettled(g, i, k);
  }

  lemma OneMoreEdge(g: Graph, e: Edge, n: nat)
    requires e in g.edges && PathOfLength(g, e.from, n)
    ensures PathOfLength(g, e.to, n + 1)
  {
    var path :| IsPath(g, path, e.from) && |path| == n;
    assert (path + [e])[..|path|] == path;
    assert IsPath(g, path + [e], e.to) && |path + [e]| == n + 1;
  }

  lemma SteepestEdge(g: Graph, levels: map<string, nat>, id: string) returns (e: Edge)
    requires Into(g.edges, id) != []
    ensures e in g.edges && e.to == id && LevelFrom(levels, Into(g.edges, id)) == LevelOf(levels, e.from) + 1
  {
    var incoming := Into(g.edges, id);
    var level := LevelFrom(levels, incoming);
    e :| e in incoming && level == LevelOf(levels, e.from) + 1;
    IntoMembers(g.edges, id, e);
  }

  lemma IndexBefore(order: seq<string>, k: nat, id: string) returns (i: nat)
    requires k <= |order| && id in order[..k]
    ensures i < k && order[i] == id
  {
    i :| 0 <= i < k && order[..k][i] == id;
  }

  /** Each level is attained by some path. */
  lemma {:induction false} LevelIsPathLength(g: Graph, k: nat)
    requires Valid(g) && k < |g.order|
    ensures g.order[k] in Levels(g, g.order)
    ensures PathOfLength(g, g.order[k], Levels(g, g.order)[g.order[k]])
    decreases k
  {
    var id := g.order[k];
    var before, incoming := Levels(g, g.order[..k]), Into(g.edges, id);
    LevelAt(g, k);
    assert IsPath(g, [], id);
    if incoming != [] {
      var e := SteepestEdge(g, before, id);
      assert IsPath(g, [], e.from);
      LevelsKeys(g, g.order[..k]);
      if e.from in before {
        var i := IndexBefore(g.order, k, e.from);
        LevelIsPathLength(g, i);
        LevelKept(g, i, k);
      }
      OneMoreEdge(g, e, LevelOf(before, e.from));
    }
  }

  /** When every edge runs forward, no path is longer than the level of its end. */
  lemma {:induction false} NoLongerPath(g: Graph, path: seq<Edge>, end: string)
    requires Valid(g) && (forall e | e in g.edges :: RunsForward(g, e))
    requires IsPath(g, path, end) && end in g.nodes
    ensures end in Levels(g, g.order)
    ensures |path| <= Levels(g, g.order)[end]
  {
    LevelsKeys(g, g.order);
    if path != [] {
      var last := path[|path| - 1];
      NoLongerPath(g, path[..|path| - 1], last.from);
      ForwardEdgesRise(g, last);
    }
  }

  /** With forward edges only, the single pass finds the longest path to each node. */
  lemma LevelIsLongestPath(g: Graph, id: string)
    requires Valid(g) && (forall e | e in g.edges :: RunsForward(g, e))
    requires id in g.nodes
    ensures id in Levels(g, g.order)
    ensures PathOfLength(g, id, Levels(g, g.order)[id])
    ensures forall n | PathOfLength(g, id, n) :: n <= Levels(g, g.order)[id]
  {
    var k :| 0 <= k < |g.order| && g.order[k] == id;
    LevelIsPathLength(g, k);
    forall n | PathOfLength(g, id, n)
      ensures n <= Levels(g, g.order)[id]
    {
      var path :| IsPath(g, path, id) && |path| == n;
      NoLongerPath(g, path, id);
    }
  }

  // ---------------------------------------------------------------------------------------------
  // Positions
  // ---------------------------------------------------------------------------------------------

  datatype Settings = Settings(levelGap: real, laneGap: real, decisionLift: real, reviewLift: real)

  /** Where a node stands on the ground. */
  datatype Cell = Cell(x: real, z: real)

  datatype Position = Position(cell: Cell, y: real)

  /** What a node is about, inferred from its caption and its kind. */
  type Semantic = (string, NodeKind) -> string

  /** How high a node is lifted; one that is not in the graph is not. */
  function Lift(s: Settings, semantic: Semantic, g: Graph, id: string): real {
    if id !in g.nodes then 0.0
    else
      var n := g.nodes[id];
      var about := semantic(n.caption, n.kind);
      if about == "logic" || n.kind == DecisionNode then s.decisionLift
      else if about == "human" then s.reviewLift
      else 0.0
  }

  /** The nodes of one level, in order. */
  function AtLevel(levels: map<string, nat>, order: seq<string>, l: nat): seq<string> {
    if order == [] then []
    else
      var last := order[|order| - 1];
      AtLevel(levels, order[..|order| - 1], l) + if LevelOf(levels, last) == l then [last] else []
  }

  function CellOf(s: Settings, l: nat, i: nat, size: nat): Cell {
    Cell(l as real * s.levelGap, (i as real - (size as real - 1.0) / 2.0) * s.laneGap)
  }

  /** From a level, its size, an index in it and the node there to a position. */
  type Placing = (nat, nat, nat, string) -> Position

  /** Each node in its cell and at its height. */
  function PlacingOf(g: Graph, s: Settings, semantic: Semantic): Placing {
    (l: nat, size: nat, i: nat, id: string) => Position(CellOf(s, l, i, size), Lift(s, semantic, g, id))
  }

  /** Each node of a level by its index there. */
  function PlaceLevel(place: Placing, l: nat, ids: seq<string>, n: nat, positions: map<string, Position>)
    : map<string, Position>
    requires n <= |ids|
  {
    if n == 0 then positions
    else PlaceLevel(place, l, ids, n - 1, positions)[ids[n - 1] := place(l, |ids|, n - 1, ids[n - 1])]
  }

  /** The levels below `n`, one after the other. */
  function PlaceAll(place: Placing, levels: map<string, nat>, order: seq<string>, n: nat): map<string, Position> {
    if n == 0 then map[]
    else
      var ids := AtLevel(levels, order, n - 1);
      PlaceLevel(place, n - 1, ids, |ids|, PlaceAll(place, levels, order, n - 1))
  }

  /** One past the greatest level. */
  function LevelCount(levels: map<string, nat>, order: seq<string>): nat {
    if order == [] then 0
    else
      var rest, here := LevelCount(levels, order[..|order| - 1]), LevelOf(levels, order[|order| - 1]) + 1;
      if rest > here then rest else here
  }

  /** All nodes placed. */
  function Placed(g: Graph, s: Settings, semantic: Semantic): map<string, Position> {
    var levels := Levels(g, g.order);
    PlaceAll(PlacingOf(g, s, semantic), levels, g.order, LevelCount(levels, g.order))
  }

  /** The inner loop: one level, centred. */
  method PlaceNodesOf(g: Graph, s: Settings, semantic: Semantic, l: nat, ids: seq<string>,
                      before: map<string, Position>)
    returns (positions: map<string, Position>)
    ensures positions == PlaceLevel(PlacingOf(g, s, semantic), l, ids, |ids|, before)
  {
    positions := before;
    var center := (|ids| as real - 1.0) / 2.0;
    for i := 0 to |ids|
      invariant positions == PlaceLevel(PlacingOf(g, s, semantic), l, ids, i, before)
    {
      var cell := Cell(l as real * s.levelGap, (i as real - center) * s.laneGap);
      assert cell == CellOf(s, l, i, |ids|);
      positions := positions[ids[i] := Position(cell, Lift(s, semantic, g, ids[i]))];
    }
  }

  method PlaceNodes(g: Graph, s: Settings, semantic: Semantic) returns (positions: map<string, Position>)
    ensures positions == Placed(g, s, semantic)
  {
    var levels := AssignLevels(g);
    positions := map[];
    for l := 0 to LevelCount(levels, g.order)
      invariant positions == PlaceAll(PlacingOf(g, s, semantic), levels, g.order, l)
    {
      positions := PlaceNodesOf(g, s, semantic, l, AtLevel(levels, g.order, l), positions);
    }
  }

  lemma {:induction false} AtLevelMembers(levels: map<string, nat>, order: seq<string>, l: nat)
    ensures forall id :: id in AtLevel(levels, order, l) <==> id in order && LevelOf(levels, id) == l
  {
    if order != [] {
      AtLevelMembers(levels, order[..|order| - 1], l);
      assert order == order[..|order| - 1] + [order[|order| - 1]];
    }
  }

  lemma {:induction false} AtLevelDistinct(levels: map<string, nat>, order: seq<string>, l: nat)
    requires Distinct(order)
    ensures Distinct(AtLevel(levels, order, l))
  {
    if order != [] {
      var front := order[..|order| - 1];
      AtLevelDistinct(levels, front, l);
      AtLevelMembers(levels, front, l);
      assert forall i | 0 <= i < |AtLevel(levels, front, l)| :: AtLevel(levels, front, l)[i] in front;
    }
  }

  /** Placing a level leaves other nodes where they are. */
  lemma {:induction false} PlacedElsewhere(place: Placing, l: nat, ids: seq<string>, n: nat,
                                           positions: map<string, Position>, id: string)
    requires n <= |ids| && id !in ids[..n]
    ensures var r := PlaceLevel(place, l, ids, n, positions);
            (id in r <==> id in positions) && (id in r ==> r[id] == positions[id])
  {
    if n > 0 {
      assert ids[..n] == ids[..n - 1] + [ids[n - 1]];
      PlacedElsewhere(place, l, ids, n - 1, positions, id);
    }
  }

  /** Placing a level puts its `i`-th node in its own cell. */
  lemma {:induction false} PlacedHere(place: Placing, l: nat, ids: seq<string>, n: nat,
                                      positions: map<string, Position>, i: nat)
    requires i < n <= |ids| && Distinct(ids)
    ensures var r := PlaceLevel(place, l, ids, n, positions);
            ids[i] in r && r[ids[i]] == place(l, |ids|, i, ids[i])
  {
    if i < n - 1 {
      PlacedHere(place, l, ids, n - 1, positions, i);
    }
  }

  /** `id` is the `i`-th node of its level and is placed there. */
  ghost predicate StandsAt(place: Placing, levels: map<string, nat>, order: seq<string>, id: string, i: nat,
                           positions: map<string, Position>)
  {
    var ids := AtLevel(levels, order, LevelOf(levels, id));
    i < |ids| && ids[i] == id && id in positions && positions[id] == place(LevelOf(levels, id), |ids|, i, id)
  }

  lemma PlacedNow(place: Placing, levels: map<string, nat>, order: seq<string>, n: nat, id: string) returns (i: nat)
    requires Distinct(order) && id in order && LevelOf(levels, id) == n - 1
    ensures StandsAt(place, levels, order, id, i, PlaceAll(place, levels, order, n))
  {
    var ids, before := AtLevel(levels, order, n - 1), PlaceAll(place, levels, order, n - 1);
    AtLevelMembers(levels, order, n - 1);
    AtLevelDistinct(levels, order, n - 1);
    assert ids[..|ids|] == ids;
    i := IndexBefore(ids, |ids|, id);
    PlacedHere(place, n - 1, ids, |ids|, before, i);
    assert PlaceAll(place, levels, order, n) == PlaceLevel(place, n - 1, ids, |ids|, before);
  }

  /** Placing level `n - 1` leaves nodes of other levels where they are. */
  lemma PlacedBefore(place: Placing, levels: map<string, nat>, order: seq<string>, n: nat, id: string, i: nat)
    requires n > 0 && LevelOf(levels, id) != n - 1
    requires StandsAt(place, levels, order, id, i, PlaceAll(place, levels, order, n - 1))
    ensures StandsAt(place, levels, order, id, i, PlaceAll(place, levels, order, n))
  {
    var ids := AtLevel(levels, order, n - 1);
    AtLevelMembers(levels, order, n - 1);
    assert ids[..|ids|] == ids;
    PlacedElsewhere(place, n - 1, ids, |ids|, PlaceAll(place, levels, order, n - 1), id);
  }

  /** The cell of a node is that of its index within its level. */
  lemma {:induction false} PlacedAt(place: Placing, levels: map<string, nat>, order: seq<string>, n: nat, id: string)
    returns (i: nat)
    requires Distinct(order) && id in order && LevelOf(levels, id) < n
    ensures StandsAt(place, levels, order, id, i, PlaceAll(place, levels, order, n))
    decreases n
  {
    if LevelOf(levels, id) == n - 1 {
      i := PlacedNow(place, levels, order, n, id);
    } else {
      i := PlacedAt(place, levels, order, n - 1, id);
      PlacedBefore(place, levels, order, n, id, i);
    }
  }

  lemma {:induction false} LevelCounted(levels: map<string, nat>, order: seq<string>, id: string)
    requires id in order
    ensures LevelOf(levels, id) < LevelCount(levels, order)
  {
    var last := order[|order| - 1];
    if id != last {
      assert order == order[..|order| - 1] + [last];
      LevelCounted(levels, order[..|order| - 1], id);
    }
  }

  lemma CellsDiffer(s: Settings, l: nat, i: nat, size: nat, l': nat, i': nat, size': nat)
    requires s.levelGap != 0.0 && s.laneGap != 0.0
    requires CellOf(s, l, i, size) == CellOf(s, l', i', size')
    requires l == l' ==> size == size'
    ensures l == l' && i == i'
  {
  }

  /** Every node is placed at its own height, and no two nodes are placed in the same cell. */
  lemma NoSharedCell(g: Graph, s: Settings, semantic: Semantic, a: string, b: string)
    requires Valid(g) && s.levelGap != 0.0 && s.laneGap != 0.0
    requires a in g.nodes && b in g.nodes && a != b
    ensures var positions := Placed(g, s, semantic);
            && a in positions && b in positions
            && positions[a].y == Lift(s, semantic, g, a)
            && positions[a].cell != positions[b].cell
  {
    var levels, place := Levels(g, g.order), PlacingOf(g, s, semantic);
    var n := LevelCount(levels, g.order);
    LevelCounted(levels, g.order, a);
    LevelCounted(levels, g.order, b);
    var i := PlacedAt(place, levels, g.order, n, a);
    var j := PlacedAt(place, levels, g.order, n, b);
    var size, size' := |AtLevel(levels, g.order, LevelOf(levels, a))|, |AtLevel(levels, g.order, LevelOf(levels, b))|;
    if CellOf(s, LevelOf(levels, a), i, size) == CellOf(s, LevelOf(levels, b), j, size') {
      CellsDiffer(s, LevelOf(levels, a), i, size, LevelOf(levels, b), j, size');
    }
  }

  /** A decision, or a node about "logic", is lifted as decisions are; else one about "human" as reviews are. */
  lemma LiftExactly(s: Settings, semantic: Semantic, g: Graph, id: string)
    requires id in g.nodes
    ensures var n := g.nodes[id];
            && (n.kind == DecisionNode ==> Lift(s, semantic, g, id) == s.decisionLift)
            && (semantic(n.caption, n.kind) == "logic" ==> Lift(s, semantic, g, id) == s.decisionLift)
            && (n.kind != DecisionNode && semantic(n.caption, n.kind) == "human"
                ==> Lift(s, semantic, g, id) == s.reviewLift)
            && (n.kind != DecisionNode && semantic(n.caption, n.kind) !in {"logic", "human"}
                ==> Lift(s, semantic, g, id) == 0.0)
  {
    assert "logic"[0] != "human"[0];
  }

  lemma PlacedInLevel(place: Placing, levels: map<string, nat>, order: seq<string>, n: nat, l: nat, k: nat)
    requires Distinct(order) && k < |AtLevel(levels, order, l)| && l < n
    ensures var ids := AtLevel(levels, order, l);
            && ids[k] in PlaceAll(place, levels, order, n)
            && PlaceAll(place, levels, order, n)[ids[k]] == place(l, |ids|, k, ids[k])
  {
    var ids := AtLevel(levels, order, l);
    AtLevelMembers(levels, order, l);
    AtLevelDistinct(levels, order, l);
    assert ids[k] in ids;
    var i := PlacedAt(place, levels, order, n, ids[k]);
    assert ids[i] == ids[k];
  }

  lemma CellInLevel(g: Graph, s: Settings, semantic: Semantic, l: nat, k: nat)
    requires Valid(g) && k < |AtLevel(Levels(g, g.order), g.order, l)|
    ensures var ids := AtLevel(Levels(g, g.order), g.order, l);
            ids[k] in Placed(g, s, semantic) && Placed(g, s, semantic)[ids[k]].cell == CellOf(s, l, k, |ids|)
  {
    var levels := Levels(g, g.order);
    var ids := AtLevel(levels, g.order, l);
    AtLevelMembers(levels, g.order, l);
    assert ids[k] in ids;
    LevelCounted(levels, g.order, ids[k]);
    PlacedInLevel(PlacingOf(g, s, semantic), levels, g.order, LevelCount(levels, g.order), l, k);
  }

  lemma LaneCells(s: Settings, l: nat, i: nat, size: nat)
    requires i < size
    ensures i > 0 ==> CellOf(s, l, i, size).z == CellOf(s, l, i - 1, size).z + s.laneGap
    ensures CellOf(s, l, 0, size).z == -CellOf(s, l, size - 1, size).z
  {
    var middle := (size as real - 1.0) / 2.0;
    assert (0 as real - middle) * s.laneGap == -(((size - 1) as real - middle) * s.laneGap);
  }

  lemma CellDistance(s: Settings, l: nat, i: nat, size: nat, distance: real)
    requires distance == l as real * s.levelGap
    ensures CellOf(s, l, i, size).x == distance
  {
  }

  /** The nodes of a level stand at its distance along one axis. */
  lemma LevelInLine(g: Graph, s: Settings, semantic: Semantic, l: nat, i: nat, distance: real)
    requires Valid(g) && i < |AtLevel(Levels(g, g.order), g.order, l)| && distance == l as real * s.levelGap
    ensures var ids, positions := AtLevel(Levels(g, g.order), g.order, l), Placed(g, s, semantic);
            ids[i] in positions && positions[ids[i]].cell.x == distance
  {
    CellInLevel(g, s, semantic, l, i);
    CellDistance(s, l, i, |AtLevel(Levels(g, g.order), g.order, l)|, distance);
  }

  /** Along the other axis they stand one lane apart, in their order. */
  lemma LanesApart(g: Graph, s: Settings, semantic: Semantic, l: nat, i: nat)
    requires Valid(g) && 0 < i < |AtLevel(Levels(g, g.order), g.order, l)|
    ensures var ids, positions := AtLevel(Levels(g, g.order), g.order, l), Placed(g, s, semantic);
            && ids[i] in positions && ids[i - 1] in positions
            && positions[ids[i]].cell.z == positions[ids[i - 1]].cell.z + s.laneGap
  {
    CellInLevel(g, s, semantic, l, i);
    CellInLevel(g, s, semantic, l, i - 1);
    LaneCells(s, l, i, |AtLevel(Levels(g, g.order), g.order, l)|);
  }

  /** The middle of the level stands at 0. */
  lemma LanesCentred(g: Graph, s: Settings, semantic: Semantic, l: nat)
    requires Valid(g) && AtLevel(Levels(g, g.order), g.order, l) != []
    ensures var ids, positions := AtLevel(Levels(g, g.order), g.order, l), Placed(g, s, semantic);
            && ids[0] in positions && ids[|ids| - 1] in positions
            && positions[ids[0]].cell.z == -positions[ids[|ids| - 1]].cell.z
  {
    var n := |AtLevel(Levels(g, g.order), g.order, l)|;
    CellInLevel(g, s, semantic, l, 0);
    CellInLevel(g, s, semantic, l, n - 1);
    LaneCells(s, l, n - 1, n);
  }
}
