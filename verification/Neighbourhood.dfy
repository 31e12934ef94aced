/** What the graph viewer's filters keep: the order-sensitive neighbourhood that one pass over the edges grows. */
module Neighbourhood {
  import opened Results
  import opened Sorting
  import opened Texts
  import opened LetterCases

  datatype Edge = Edge(source: string, target: string, text: string)

  datatype Node = Node(id: string, text: string, zLayer: Option<string>, semanticType: Option<string>)

  datatype Graph = Graph(nodes: seq<Node>, edges: seq<Edge>)

  /** One edge of a walk: its list position, and whether it is taken from source to target. */
  datatype Step = Step(position: nat, forward: bool)

  function Tail(edges: seq<Edge>, step: Step): string
    requires step.position < |edges|
  {
    if step.forward then edges[step.position].source else edges[step.position].target
  }

  function Head(edges: seq<Edge>, step: Step): string
    requires step.position < |edges|
  {
    if step.forward then edges[step.position].target else edges[step.position].source
  }

  predicate IsWalk(edges: seq<Edge>, walk: seq<Step>, from: string, to: string) {
    if walk == [] then from == to
    else
      var last := walk[|walk| - 1];
      && last.position < |edges|
      && Head(edges, last) == to
      && IsWalk(edges, walk[..|walk| - 1], from, Tail(edges, last))
  }

  predicate Ascending(walk: seq<Step>) {
    forall i, j | 0 <= i < j < |walk| :: walk[i].position < walk[j].position
  }

  /** `walk` is an ascending walk from the match `m` to `v` over the first `n` edges. */
  predicate Leads(edges: seq<Edge>, matched: set<string>, n: nat, m: string, walk: seq<Step>, v: string) {
    && m in matched
    && IsWalk(edges, walk, m, v)
    && Ascending(walk)
    && forall i | 0 <= i < |walk| :: walk[i].position < n
  }

  ghost predicate Reached(edges: seq<Edge>, matched: set<string>, n: nat, v: string) {
    exists m, walk :: Leads(edges, matched, n, m, walk, v)
  }

  function Touches(ids: set<string>, e: Edge): bool { e.source in ids || e.target in ids }

  function Grow(edges: seq<Edge>, ids: set<string>): set<string> {
    if edges == [] then ids
    else
      var before := Grow(edges[..|edges| - 1], ids);
      var e := edges[|edges| - 1];
      if Touches(before, e) then before + {e.source, e.target} else before
  }

  lemma ReachedLater(edges: seq<Edge>, matched: set<string>, n: nat, v: string)
    requires Reached(edges, matched, n, v)
    ensures Reached(edges, matched, n + 1, v)
  {
    var m: string, walk: seq<Step> :| Leads(edges, matched, n, m, walk, v);
    assert Leads(edges, matched, n + 1, m, walk, v);
  }

  /** Taking edge `n` from an end already reached reaches its other end. */
  lemma TakeEdge(edges: seq<Edge>, matched: set<string>, n: nat, forward: bool)
    requires n < |edges| && Reached(edges, matched, n, Tail(edges, Step(n, forward)))
    ensures Reached(edges, matched, n + 1, Head(edges, Step(n, forward)))
  {
    var step := Step(n, forward);
    var m: string, walk: seq<Step> :| Leads(edges, matched, n, m, walk, Tail(edges, step));
    var longer := walk + [step];
    assert longer[..|walk|] == walk && longer[|walk|] == step;
    assert IsWalk(edges, longer, m, Head(edges, step));
    assert Leads(edges, matched, n + 1, m, longer, Head(edges, step));
  }

  /** A walk over the first `n + 1` edges does without edge `n`, or takes it last. */
  lemma LastEdge(edges: seq<Edge>, matched: set<string>, n: nat, v: string) returns (forward: bool)
    requires n < |edges| && Reached(edges, matched, n + 1, v)
    ensures || Reached(edges, matched, n, v)
            || (v == Head(edges, Step(n, forward)) && Reached(edges, matched, n, Tail(edges, Step(n, forward))))
  {
    var m: string, walk: seq<Step> :| Leads(edges, matched, n + 1, m, walk, v);
    if walk == [] || walk[|walk| - 1].position < n {
      assert Leads(edges, matched, n, m, walk, v);
      forward := true;
    } else {
      var front, last := walk[..|walk| - 1], walk[|walk| - 1];
      forward := last.forward;
      assert last == Step(n, forward);
      assert Leads(edges, matched, n, m, front, Tail(edges, last));
    }
  }

  /** The pass over the first `n` edges collects exactly what ascending walks over them reach. */
  lemma {:induction false} GrowReaches(edges: seq<Edge>, matched: set<string>, n: nat, v: string)
    requires n <= |edges|
    ensures v in Grow(edges[..n], matched) <==> Reached(edges, matched, n, v)
    decreases n
  {
    if n == 0 {
      assert v in matched ==> Leads(edges, matched, 0, v, [], v);
      if Reached(edges, matched, 0, v) {
        var m: string, walk: seq<Step> :| Leads(edges, matched, 0, m, walk, v);
        assert 0 < |walk| ==> walk[0].position < 0;
      }
    } else {
      var e := edges[n - 1];
      assert edges[..n][..n - 1] == edges[..n - 1];
      GrowReaches(edges, matched, n - 1, v);
      GrowReaches(edges, matched, n - 1, e.source);
      GrowReaches(edges, matched, n - 1, e.target);
      if v in Grow(edges[..n], matched) {
        if v in Grow(edges[..n - 1], matched) {
          ReachedLater(edges, matched, n - 1, v);
        } else {
          TakeEdge(edges, matched, n - 1, v == e.target);
        }
      }
      if Reached(edges, matched, n, v) {
        var forward := LastEdge(edges, matched, n - 1, v);
      }
    }
  }

  method ConnectedNodeIds(edges: seq<Edge>, matched: set<string>) returns (result: set<string>)
    ensures result == Grow(edges, matched)
    ensures forall v :: v in result <==> Reached(edges, matched, |edges|, v)
  {
    result := matched;
    for i := 0 to |edges|
      invariant result == Grow(edges[..i], matched)
    {
      assert edges[..i + 1][..i] == edges[..i];
      if edges[i].source in result || edges[i].target in result {
        result := result + {edges[i].source};
        result := result + {edges[i].target};
      }
    }
    assert edges[..|edges|] == edges;
    forall v
      ensures v in result <==> Reached(edges, matched, |edges|, v)
    {
      GrowReaches(edges, matched, |edges|, v);
    }
  }

  // ---------------------------------------------------------------------------------------------
  // Between one hop and the full closure
  // ---------------------------------------------------------------------------------------------

  /** Connected to a match by edges taken in any order. */
  ghost predicate Linked(edges: seq<Edge>, matched: set<string>, v: string) {
    exists m, walk :: m in matched && IsWalk(edges, walk, m, v)
  }

  lemma {:induction false} GrowKeeps(edges: seq<Edge>, ids: set<string>)
    ensures ids <= Grow(edges, ids)
    ensures forall e | e in edges && Touches(ids, e) :: e.source in Grow(edges, ids) && e.target in Grow(edges, ids)
  {
    if edges != [] {
      GrowKeeps(edges[..|edges| - 1], ids);
      assert edges == edges[..|edges| - 1] + [edges[|edges| - 1]];
    }
  }

  /** Every match, and both ends of every edge that touches one, are kept; nothing unconnected is. */
  lemma BetweenHopAndClosure(edges: seq<Edge>, matched: set<string>)
    ensures matched <= Grow(edges, matched)
    ensures forall e | e in edges && Touches(matched, e) ::
              e.source in Grow(edges, matched) && e.target in Grow(edges, matched)
    ensures forall v | v in Grow(edges, matched) :: Linked(edges, matched, v)
  {
    assert edges[..|edges|] == edges;
    GrowKeeps(edges, matched);
    forall v | v in Grow(edges, matched)
      ensures Linked(edges, matched, v)
    {
      GrowReaches(edges, matched, |edges|, v);
      var m: string, walk: seq<Step> :| Leads(edges, matched, |edges|, m, walk, v);
      assert m in matched && IsWalk(edges, walk, m, v);
    }
  }

  // ---------------------------------------------------------------------------------------------
  // When the order of the edges matters
  // ---------------------------------------------------------------------------------------------

  function Keep<T>(p: T -> bool, s: seq<T>): seq<T> {
    if s == [] then [] else Keep(p, s[..|s| - 1]) + if p(s[|s| - 1]) then [s[|s| - 1]] else []
  }

  lemma {:induction false} KeepMembers<T>(p: T -> bool, s: seq<T>, x: T)
    ensures x in Keep(p, s) <==> x in s && p(x)
  {
    if s != [] {
      KeepMembers(p, s[..|s| - 1], x);
      assert s == s[..|s| - 1] + [s[|s| - 1]];
    }
  }

  lemma {:induction false} KeepSplits<T>(p: T -> bool, q: T -> bool, s: seq<T>)
    requires forall x :: q(x) <==> !p(x)
    ensures multiset(Keep(p, s) + Keep(q, s)) == multiset(s)
  {
    if s != [] {
      var front, last := s[..|s| - 1], s[|s| - 1];
      var a, b := Keep(p, front), Keep(q, front);
      KeepSplits(p, q, front);
      assert s == front + [last];
      if p(last) {
        assert Keep(p, s) == a + [last] && Keep(q, s) == b;
      } else {
        assert Keep(p, s) == a && Keep(q, s) == b + [last];
      }
    }
  }

  lemma {:induction false} GrowAppend(a: seq<Edge>, b: seq<Edge>, ids: set<string>)
    ensures Grow(a + b, ids) == Grow(b, Grow(a, ids))
    decreases |b|
  {
    if b == [] {
      assert a + b == a;
    } else {
      assert (a + b)[..|a + b| - 1] == a + b[..|b| - 1];
      GrowAppend(a, b[..|b| - 1], ids);
    }
  }

  /** The matches and the other ends of the edges that touch them. */
  function OneHop(edges: seq<Edge>, ids: set<string>): set<string> {
    if edges == [] then ids
    else
      var e := edges[|edges| - 1];
      OneHop(edges[..|edges| - 1], ids) + if Touches(ids, e) then {e.source, e.target} else {}
  }

  /** No edge leads out of `ids`. */
  predicate Closed(edges: seq<Edge>, ids: set<string>) {
    forall e | e in edges && Touches(ids, e) :: e.source in ids && e.target in ids
  }

  lemma {:induction false} OneHopIff(edges: seq<Edge>, ids: set<string>, v: string)
    ensures v in OneHop(edges, ids)
       <==> v in ids || exists e :: e in edges && Touches(ids, e) && (v == e.source || v == e.target)
  {
    if edges != [] {
      OneHopIff(edges[..|edges| - 1], ids, v);
      assert edges == edges[..|edges| - 1] + [edges[|edges| - 1]];
    }
  }

  lemma {:induction false} GrowStaysIn(edges: seq<Edge>, ids: set<string>, all: set<string>)
    requires ids <= all && Closed(edges, all)
    ensures Grow(edges, ids) <= all
  {
    if edges != [] {
      var front := edges[..|edges| - 1];
      assert forall e | e in front :: e in edges;
      GrowStaysIn(front, ids, all);
    }
  }

  lemma ClosedGrowth(edges: seq<Edge>, ids: set<string>)
    requires Closed(edges, OneHop(edges, ids))
    ensures Grow(edges, ids) == OneHop(edges, ids)
  {
    GrowKeeps(edges, ids);
    forall v
      ensures v in OneHop(edges, ids)
         <==> v in ids || exists e :: e in edges && Touches(ids, e) && (v == e.source || v == e.target)
    {
      OneHopIff(edges, ids, v);
    }
    GrowStaysIn(edges, ids, OneHop(edges, ids));
  }

  /** Edges that do not touch a match do nothing when they come first. */
  lemma {:induction false} GrowNothing(edges: seq<Edge>, ids: set<string>)
    requires forall e | e in edges :: !Touches(ids, e)
    ensures Grow(edges, ids) == ids
  {
    if edges != [] {
      assert forall e | e in edges[..|edges| - 1] :: e in edges;
      GrowNothing(edges[..|edges| - 1], ids);
    }
  }

  lemma {:induction false} GrowOneHop(edges: seq<Edge>, ids: set<string>)
    requires forall e | e in edges :: Touches(ids, e)
    ensures Grow(edges, ids) == OneHop(edges, ids)
  {
    if edges != [] {
      assert forall e | e in edges[..|edges| - 1] :: e in edges;
      GrowOneHop(edges[..|edges| - 1], ids);
      GrowKeeps(edges[..|edges| - 1], ids);
    }
  }

  lemma OneHopPermuted(a: seq<Edge>, b: seq<Edge>, ids: set<string>)
    requires forall e | Touches(ids, e) :: e in a <==> e in b
    ensures OneHop(a, ids) == OneHop(b, ids)
  {
    forall v
      ensures v in OneHop(a, ids) <==> v in OneHop(b, ids)
    {
      OneHopIff(a, ids, v);
      OneHopIff(b, ids, v);
    }
  }

  /** Some arrangement of the edges keeps the one-hop neighbourhood and no more. */
  lemma LeastArrangement(edges: seq<Edge>, ids: set<string>) returns (other: seq<Edge>)
    ensures multiset(other) == multiset(edges)
    ensures Grow(other, ids) == OneHop(edges, ids)
  {
    var touching, apart := (e: Edge) => Touches(ids, e), (e: Edge) => !Touches(ids, e);
    var first, last := Keep(apart, edges), Keep(touching, edges);
    other := first + last;
    KeepSplits(apart, touching, edges);
    forall e
      ensures e in first <==> e in edges && !Touches(ids, e)
      ensures e in last <==> e in edges && Touches(ids, e)
    {
      KeepMembers(apart, edges, e);
      KeepMembers(touching, edges, e);
    }
    GrowNothing(first, ids);
    GrowOneHop(last, ids);
    GrowAppend(first, last, ids);
    OneHopPermuted(last, edges, ids);
  }

  lemma TwoToFront(edges: seq<Edge>, a: Edge, b: Edge) returns (other: seq<Edge>)
    requires a in edges && b in edges && a != b
    ensures |other| >= 2 && other[0] == a && other[1] == b
    ensures multiset(other) == multiset(edges)
  {
    var j :| 0 <= j < |edges| && edges[j] == b;
    var moved := MoveToFront(edges, j);
    MoveToFrontPermutes(edges, j);
    SameElements(edges, moved);
    var i :| 0 <= i < |moved| && moved[i] == a;
    other := MoveToFront(moved, i);
    MoveToFrontPermutes(moved, i);
    assert moved[..i][0] == b;
  }

  /** When some edge leads out of the one-hop neighbourhood, some arrangement follows it. */
  lemma LeavingArrangement(edges: seq<Edge>, ids: set<string>) returns (other: seq<Edge>)
    requires !Closed(edges, OneHop(edges, ids))
    ensures multiset(other) == multiset(edges)
    ensures !(Grow(other, ids) <= OneHop(edges, ids))
  {
    var near := OneHop(edges, ids);
    var out :| out in edges && Touches(near, out) && !(out.source in near && out.target in near);
    OneHopIff(edges, ids, out.source);
    OneHopIff(edges, ids, out.target);
    assert !Touches(ids, out);
    var x := if out.source in near then out.source else out.target;
    var hop :| hop in edges && Touches(ids, hop) && (x == hop.source || x == hop.target);
    other := TwoToFront(edges, hop, out);
    var rest := other[2..];
    assert other == [hop] + ([out] + rest);
    GrowAppend([hop], [out] + rest, ids);
    GrowAppend([out], rest, Grow([hop], ids));
    assert [hop][..0] == [] && [out][..0] == [];
    assert x in Grow([hop], ids);
    GrowKeeps(rest, Grow([out], Grow([hop], ids)));
  }

  /** The edges may come in any order. */
  ghost predicate OrderInsensitive(edges: seq<Edge>, ids: set<string>) {
    forall other | multiset(other) == multiset(edges) :: Grow(other, ids) == Grow(edges, ids)
  }

  /** The order of the edges does not matter iff no edge leads out of the one-hop neighbourhood of the matches. */
  lemma OrderInsensitiveExactly(edges: seq<Edge>, matched: set<string>)
    ensures OrderInsensitive(edges, matched) <==> Closed(edges, OneHop(edges, matched))
  {
    if Closed(edges, OneHop(edges, matched)) {
      forall other | multiset(other) == multiset(edges)
        ensures Grow(other, matched) == Grow(edges, matched)
      {
        SameElements(edges, other);
        OneHopPermuted(edges, other, matched);
        ClosedGrowth(edges, matched);
        ClosedGrowth(other, matched);
      }
    } else {
      var least := LeastArrangement(edges, matched);
      var leaving := LeavingArrangement(edges, matched);
      assert Grow(least, matched) != Grow(leaving, matched);
    }
  }

  /** The same edges in another order keep less: from `a`, only the second order reaches `c`. */
  lemma OrderMatters()
    ensures var ab, bc := Edge("a", "b", ""), Edge("b", "c", "");
            && Grow([bc, ab], {"a"}) == {"a", "b"}
            && Grow([ab, bc], {"a"}) == {"a", "b", "c"}
  {
    var ab, bc := Edge("a", "b", ""), Edge("b", "c", "");
    assert "a"[0] == 'a' && "b"[0] == 'b' && "c"[0] == 'c';
    assert [bc, ab][..1] == [bc] && [bc][..0] == [];
    assert [ab, bc][..1] == [ab] && [ab][..0] == [];
    assert Grow([bc], {"a"}) == {"a"};
    assert Grow([ab], {"a"}) == {"a", "b"};
  }

  // ---------------------------------------------------------------------------------------------
  // The filters
  // ---------------------------------------------------------------------------------------------

  function MatchesText(search: string): Node -> bool {
    (n: Node) => Contains(AsciiLower(n.text), AsciiLower(search)) || Contains(AsciiLower(n.id), AsciiLower(search))
  }

  function InZLayer(zLayer: string): Node -> bool {
    (n: Node) => n.zLayer == Some(zLayer)
  }

  function HasSemanticType(semanticType: string): Node -> bool {
    (n: Node) => n.semanticType == Some(semanticType)
  }

  function Matched(matches: Node -> bool, nodes: seq<Node>): set<string> {
    set n | n in nodes && matches(n) :: n.id
  }

  function AliveNode(alive: set<string>): Node -> bool { (n: Node) => n.id in alive }

  function AliveEdge(alive: set<string>): Edge -> bool { (e: Edge) => e.source in alive && e.target in alive }

  function Filtered(g: Graph, alive: set<string>): Graph {
    Graph(Keep(AliveNode(alive), g.nodes), Keep(AliveEdge(alive), g.edges))
  }

  /**
   The shared body of the three node filters, for the three tests above: a node survives iff an
   ascending walk leads to it from a matching node.
   */
  method FilterNodes(g: Graph, matches: Node -> bool) returns (r: Graph)
    ensures r == Filtered(g, Grow(g.edges, Matched(matches, g.nodes)))
    ensures forall n :: n in r.nodes <==> n in g.nodes && Reached(g.edges, Matched(matches, g.nodes), |g.edges|, n.id)
  {
    var matched := Matched(matches, g.nodes);
    var alive := ConnectedNodeIds(g.edges, matched);
    r := Graph(Keep(AliveNode(alive), g.nodes), Keep(AliveEdge(alive), g.edges));
    forall n
      ensures n in r.nodes <==> n in g.nodes && n.id in alive
    {
      KeepMembers(AliveNode(alive), g.nodes, n);
    }
  }

  /** Matches survive, so do edges that touch a match, and no surviving edge loses an end. */
  lemma FilterKeeps(g: Graph, matches: Node -> bool)
    ensures var matched := Matched(matches, g.nodes);
            var r := Filtered(g, Grow(g.edges, matched));
            && (forall n | n in g.nodes && matches(n) :: n in r.nodes)
            && (forall e | e in g.edges && Touches(matched, e) :: e in r.edges)
            && (forall e, n | e in r.edges && n in g.nodes && (n.id == e.source || n.id == e.target) :: n in r.nodes)
  {
    var matched := Matched(matches, g.nodes);
    var alive := Grow(g.edges, matched);
    BetweenHopAndClosure(g.edges, matched);
    forall n
      ensures n in Keep(AliveNode(alive), g.nodes) <==> n in g.nodes && n.id in alive
    {
      KeepMembers(AliveNode(alive), g.nodes, n);
    }
    forall e
      ensures e in Keep(AliveEdge(alive), g.edges) <==> e in g.edges && e.source in alive && e.target in alive
    {
      KeepMembers(AliveEdge(alive), g.edges, e);
    }
    assert forall n | n in g.nodes && matches(n) :: n.id in matched;
  }

  /** The ids of the nodes whose label or id holds the search text, up to the case of letters. */
  ghost function HoldingText(g: Graph, search: string): set<string> {
    set n | n in g.nodes && (OccursButCase(n.text, search) || OccursButCase(n.id, search)) :: n.id
  }

  lemma MatchedByText(g: Graph, search: string)
    ensures Matched(MatchesText(search), g.nodes) == HoldingText(g, search)
  {
    forall n: Node
      ensures MatchesText(search)(n) <==> OccursButCase(n.text, search) || OccursButCase(n.id, search)
    {
      LowerContainsExactly(n.text, search);
      LowerContainsExactly(n.id, search);
    }
  }

  method FilterNodesByText(g: Graph, search: string) returns (r: Graph)
    ensures r == Filtered(g, Grow(g.edges, HoldingText(g, search)))
    ensures forall n :: n in r.nodes <==> n in g.nodes && Reached(g.edges, HoldingText(g, search), |g.edges|, n.id)
  {
    MatchedByText(g, search);
    r := FilterNodes(g, MatchesText(search));
  }

  method FilterNodesByZLayer(g: Graph, zLayer: string) returns (r: Graph)
    ensures var inLayer := set n | n in g.nodes && n.zLayer == Some(zLayer) :: n.id;
            && r == Filtered(g, Grow(g.edges, inLayer))
            && forall n :: n in r.nodes <==> n in g.nodes && Reached(g.edges, inLayer, |g.edges|, n.id)
  {
    assert Matched(InZLayer(zLayer), g.nodes) == set n | n in g.nodes && n.zLayer == Some(zLayer) :: n.id;
    r := FilterNodes(g, InZLayer(zLayer));
  }

  method FilterNodesBySemanticType(g: Graph, semanticType: string) returns (r: Graph)
    ensures var ofType := set n | n in g.nodes && n.semanticType == Some(semanticType) :: n.id;
            && r == Filtered(g, Grow(g.edges, ofType))
            && forall n :: n in r.nodes <==> n in g.nodes && Reached(g.edges, ofType, |g.edges|, n.id)
  {
    assert Matched(HasSemanticType(semanticType), g.nodes)
        == set n | n in g.nodes && n.semanticType == Some(semanticType) :: n.id;
    r := FilterNodes(g, HasSemanticType(semanticType));
  }
}
