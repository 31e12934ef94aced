/** Compiling a group of threshold conditions on one expression into a chain of decisions, and walking it. */
module ThresholdChains {
  import opened Results
  import opened Keyed
  import opened Sorting
  import opened DiagramText
  import opened DiagramValues

  datatype Comparison = Greater | Less

  datatype Threshold = Threshold(value: real, target: string)

  function OpText(c: Comparison): string { if c == Greater then ">" else "<" }

  function OpWord(c: Comparison): string { if c == Greater then "gt" else "lt" }

  predicate Holds(c: Comparison, v: real, t: real) {
    if c == Greater then v > t else v < t
  }

  /** Greatest threshold first for `>`, least first for `<`. */
  function Tighter(c: Comparison): (Threshold, Threshold) -> bool {
    (a: Threshold, b: Threshold) => if c == Greater then a.value >= b.value else a.value <= b.value
  }

  function Arranged(c: Comparison, group: seq<Threshold>): seq<Threshold> { SortBy(Tighter(c), group) }

  /** Only the first dot is replaced. */
  function ValToSafe(value: string): string {
    if value == [] then [] else if value[0] == '.' then ['_'] + value[1..] else [value[0]] + ValToSafe(value[1..])
  }

  /** `show` is how the language writes a number. */
  function DecisionId(show: real -> string, lhs: string, c: Comparison, value: real): string {
    SanitizeId(lhs + "_" + OpWord(c) + "_" + ValToSafe(show(value)))
  }

  function Ids(show: real -> string, lhs: string, c: Comparison, ts: seq<Threshold>): seq<string> {
    seq(|ts|, i requires 0 <= i < |ts| => DecisionId(show, lhs, c, ts[i].value))
  }

  function Targets(ts: seq<Threshold>): seq<string> {
    seq(|ts|, i requires 0 <= i < |ts| => SanitizeId(ts[i].target))
  }

  const YES: Option<string> := Some("true")
  const NO: Option<string> := Some("false")

  /** Each decision leads to its target when true and to the next decision when false. */
  function ChainEdges(ids: seq<string>, targets: seq<string>): seq<Edge>
    requires |ids| == |targets|
  {
    if ids == [] then []
    else
      [Link(ids[0], targets[0], YES)]
      + (if |ids| > 1 then [Link(ids[0], ids[1], NO)] else [])
      + ChainEdges(ids[1..], targets[1..])
  }

  // ---------------------------------------------------------------------------------------------
  // Walking a chain
  // ---------------------------------------------------------------------------------------------

  datatype Outcome = Reached(target: string) | FellOff | StillWalking

  /** The end of the first edge that leaves `id` under a caption. */
  function Follow(edges: seq<Edge>, id: string, caption: Option<string>): Option<string> {
    if edges == [] then None
    else if edges[0].from == id && edges[0].caption == caption then Some(edges[0].to)
    else Follow(edges[1..], id, caption)
  }

  /** Decides at `id`: the true edge ends the walk at its target, the false edge leads on. */
  function Walk(edges: seq<Edge>, test: string -> bool, id: string, fuel: nat): Outcome
    decreases fuel
  {
    if fuel == 0 then StillWalking
    else if test(id) then
      match Follow(edges, id, YES)
      case Some(target) => Reached(target)
      case None => FellOff
    else
      match Follow(edges, id, NO)
      case Some(next) => Walk(edges, test, next, fuel - 1)
      case None => FellOff
  }

  function FirstAt(ids: seq<string>, id: string): (i: nat)
    ensures i <= |ids|
    ensures i < |ids| ==> ids[i] == id
    ensures forall k | 0 <= k < i :: ids[k] != id
  {
    if ids == [] || ids[0] == id then 0 else 1 + FirstAt(ids[1..], id)
  }

  /** What a decision node asks of `v`: the first node with an id is the one that was kept. */
  function TestOf(ids: seq<string>, ts: seq<Threshold>, c: Comparison, v: real): string -> bool
    requires |ids| == |ts|
  {
    (id: string) => var i := FirstAt(ids, id); i < |ids| && Holds(c, v, ts[i].value)
  }

  lemma SortLength(c: Comparison, group: seq<Threshold>)
    ensures |Arranged(c, group)| == |group|
    ensures Sorted(Tighter(c), Arranged(c, group))
  {
    SortBySorted(Tighter(c), group);
  }

  /** The walk along the chain compiled from `group`, from its first decision. */
  function WalkGroup(show: real -> string, lhs: string, c: Comparison, group: seq<Threshold>, v: real,
                     fuel: nat): Outcome
    requires group != []
  {
    SortLength(c, group);
    var ts := Arranged(c, group);
    var ids := Ids(show, lhs, c, ts);
    Walk(ChainEdges(ids, Targets(ts)), TestOf(ids, ts, c, v), ids[0], fuel)
  }

  // ---------------------------------------------------------------------------------------------
  // What the source lines mean, whatever their order
  // ---------------------------------------------------------------------------------------------

  /** `e` is the tightest of the conditions that hold of `v`. */
  ghost predicate IsTightest(c: Comparison, v: real, group: seq<Threshold>, e: Threshold) {
    && e in group && Holds(c, v, e.value)
    && forall d | d in group && Holds(c, v, d.value) :: if c == Greater then d.value <= e.value else e.value <= d.value
  }

  /** `o` is the outcome the lines ask for: the tightest condition's target, or none. */
  ghost predicate Means(c: Comparison, v: real, group: seq<Threshold>, o: Outcome) {
    match o
    case Reached(target) => exists e :: IsTightest(c, v, group, e) && target == SanitizeId(e.target)
    case FellOff => forall e | e in group :: !Holds(c, v, e.value)
    case StillWalking => false
  }

  /** Taking the first condition that holds, in the arranged order. */
  function FirstHolding(c: Comparison, v: real, ts: seq<Threshold>): Outcome {
    if ts == [] then FellOff
    else if Holds(c, v, ts[0].value) then Reached(SanitizeId(ts[0].target))
    else FirstHolding(c, v, ts[1..])
  }

  lemma {:induction false} FirstHoldingMeans(c: Comparison, v: real, ts: seq<Threshold>)
    requires Sorted(Tighter(c), ts)
    ensures Means(c, v, ts, FirstHolding(c, v, ts))
  {
    if ts == [] {
    } else if Holds(c, v, ts[0].value) {
      forall d | d in ts && Holds(c, v, d.value)
        ensures if c == Greater then d.value <= ts[0].value else ts[0].value <= d.value
      {
        var i :| 0 <= i < |ts| && ts[i] == d;
        assert i > 0 ==> Tighter(c)(ts[0], ts[i]);
      }
      assert IsTightest(c, v, ts, ts[0]);
    } else {
      FirstHoldingMeans(c, v, ts[1..]);
      assert forall d | d in ts :: d == ts[0] || d in ts[1..];
      if FirstHolding(c, v, ts).Reached? {
        var e :| IsTightest(c, v, ts[1..], e) && FirstHolding(c, v, ts).target == SanitizeId(e.target);
        assert IsTightest(c, v, ts, e);
      }
    }
  }

  lemma MeansOfArranged(c: Comparison, v: real, group: seq<Threshold>, o: Outcome)
    ensures Means(c, v, Arranged(c, group), o) <==> Means(c, v, group, o)
  {
    SameElements(group, Arranged(c, group));
    assert forall e :: IsTightest(c, v, Arranged(c, group), e) <==> IsTightest(c, v, group, e);
  }

  // ---------------------------------------------------------------------------------------------
  // Following the edges of a chain
  // ---------------------------------------------------------------------------------------------

  lemma {:induction false} FollowAfter(front: seq<Edge>, back: seq<Edge>, id: string, caption: Option<string>)
    requires forall e | e in front :: e.from != id
    ensures Follow(front + back, id, caption) == Follow(back, id, caption)
  {
    if front == [] {
      assert front + back == back;
    } else {
      assert front[0] in front;
      assert (front + back)[0] == front[0] && (front + back)[1..] == front[1..] + back;
      FollowAfter(front[1..], back, id, caption);
    }
  }

  lemma {:induction false} FollowBefore(front: seq<Edge>, back: seq<Edge>, id: string, caption: Option<string>)
    requires forall e | e in back :: e.from != id
    ensures Follow(front + back, id, caption) == Follow(front, id, caption)
  {
    if front == [] {
      assert front + back == back + [];
      FollowAfter(back, [], id, caption);
    } else {
      assert (front + back)[0] == front[0] && (front + back)[1..] == front[1..] + back;
      FollowBefore(front[1..], back, id, caption);
    }
  }

  function NextOf(ids: seq<string>, k: nat): Option<string> {
    if k + 1 < |ids| then Some(ids[k + 1]) else None
  }

  /** From the first decision with its id: true to its target, false to the next decision if any. */
  lemma {:induction false} FollowChain(ids: seq<string>, targets: seq<string>, k: nat)
    requires |ids| == |targets| && k < |ids| && ids[k] !in ids[..k]
    ensures Follow(ChainEdges(ids, targets), ids[k], YES) == Some(targets[k])
    ensures Follow(ChainEdges(ids, targets), ids[k], NO) == NextOf(ids, k)
  {
    var edges, rest := ChainEdges(ids, targets), ChainEdges(ids[1..], targets[1..]);
    var here := [Link(ids[0], targets[0], YES)] + (if |ids| > 1 then [Link(ids[0], ids[1], NO)] else []);
    assert edges == here + rest;
    if k == 0 {
      assert edges[0] == Link(ids[0], targets[0], YES);
      if |ids| > 1 {
        assert edges[1..][0] == Link(ids[0], ids[1], NO);
      } else {
        assert edges[1..] == [];
      }
    } else {
      assert ids[0] == ids[..k][0] && ids[1..][..k - 1] == ids[1..k];
      assert forall id | id in ids[1..k] :: id in ids[..k];
      assert forall e | e in here :: e.from == ids[0];
      FollowAfter(here, rest, ids[k], YES);
      FollowAfter(here, rest, ids[k], NO);
      FollowChain(ids[1..], targets[1..], k - 1);
    }
  }

  /** The captions are "true" and "false". */
  lemma ChainCaptions(ids: seq<string>, targets: seq<string>, k: nat, yes: string, no: string)
    requires |ids| == |targets| && k < |ids| && ids[k] !in ids[..k]
    requires yes == "true" && no == "false"
    ensures Follow(ChainEdges(ids, targets), ids[k], Some(yes)) == Some(targets[k])
    ensures Follow(ChainEdges(ids, targets), ids[k], Some(no)) == if k + 1 < |ids| then Some(ids[k + 1]) else None
  {
    FollowChain(ids, targets, k);
  }

  /** In `edges`, each decision leads to its target when true and to the next decision, if any, when false. */
  ghost predicate ChainIn(edges: seq<Edge>, ids: seq<string>, targets: seq<string>)
    requires |ids| == |targets|
  {
    forall k {:trigger Follow(edges, ids[k], YES)} {:trigger Follow(edges, ids[k], NO)} | 0 <= k < |ids| ::
      && Follow(edges, ids[k], YES) == Some(targets[k])
      && Follow(edges, ids[k], NO) == NextOf(ids, k)
  }

  /** Each decision asks its own threshold. */
  ghost predicate Asks(test: string -> bool, ids: seq<string>, ts: seq<Threshold>, c: Comparison, v: real)
    requires |ids| == |ts|
  {
    forall k | 0 <= k < |ids| :: test(ids[k]) == Holds(c, v, ts[k].value)
  }

  lemma {:induction false} WalkFrom(edges: seq<Edge>, test: string -> bool, ids: seq<string>, ts: seq<Threshold>,
                                    c: Comparison, v: real, k: nat, fuel: nat)
    requires |ids| == |ts| && k < |ids| && fuel >= |ids| - k
    requires ChainIn(edges, ids, Targets(ts)) && Asks(test, ids, ts, c, v)
    ensures Walk(edges, test, ids[k], fuel) == FirstHolding(c, v, ts[k..])
    decreases |ids| - k
  {
    assert k + 1 == |ts| ==> ts[k + 1..] == [];
    assert Follow(edges, ids[k], YES) == Some(Targets(ts)[k]);
    assert Follow(edges, ids[k], NO) == NextOf(ids, k);
    assert test(ids[k]) == Holds(c, v, ts[k].value);
    if !Holds(c, v, ts[k].value) && k + 1 < |ids| {
      WalkFrom(edges, test, ids, ts, c, v, k + 1, fuel - 1);
    }
  }

  lemma FollowInContext(before: seq<Edge>, chain: seq<Edge>, after: seq<Edge>, id: string, caption: Option<string>,
                        ids: seq<string>)
    requires id in ids && forall e | e in before + after :: e.from !in ids
    ensures Follow(before + chain + after, id, caption) == Follow(chain, id, caption)
  {
    assert forall e | e in before :: e in before + after;
    assert forall e | e in after :: e in before + after;
    FollowBefore(before + chain, after, id, caption);
    FollowAfter(before, chain, id, caption);
  }

  lemma DistinctChainIn(before: seq<Edge>, after: seq<Edge>, ids: seq<string>, targets: seq<string>)
    requires |ids| == |targets| && Distinct(ids)
    requires forall e | e in before + after :: e.from !in ids
    ensures ChainIn(before + ChainEdges(ids, targets) + after, ids, targets)
  {
    var chain := ChainEdges(ids, targets);
    forall k | 0 <= k < |ids|
      ensures Follow(before + chain + after, ids[k], YES) == Some(targets[k])
      ensures Follow(before + chain + after, ids[k], NO) == NextOf(ids, k)
    {
      FollowInContext(before, chain, after, ids[k], YES, ids);
      FollowInContext(before, chain, after, ids[k], NO, ids);
      FollowChain(ids, targets, k);
    }
  }

  lemma DistinctAsks(ids: seq<string>, ts: seq<Threshold>, c: Comparison, v: real)
    requires |ids| == |ts| && Distinct(ids)
    ensures Asks(TestOf(ids, ts, c, v), ids, ts, c, v)
  {
    assert forall k | 0 <= k < |ids| :: FirstAt(ids, ids[k]) == k;
  }

  /**
   With distinct ids the walk takes the first condition that holds, also inside a larger graph
   whose other edges do not leave the chain's decisions.
   */
  lemma WalkDistinct(before: seq<Edge>, after: seq<Edge>, ids: seq<string>, ts: seq<Threshold>, c: Comparison,
                     v: real, fuel: nat)
    requires |ids| == |ts| && Distinct(ids) && ids != [] && fuel >= |ids|
    requires forall e | e in before + after :: e.from !in ids
    ensures Walk(before + ChainEdges(ids, Targets(ts)) + after, TestOf(ids, ts, c, v), ids[0], fuel)
         == FirstHolding(c, v, ts)
  {
    var edges, test := before + ChainEdges(ids, Targets(ts)) + after, TestOf(ids, ts, c, v);
    DistinctChainIn(before, after, ids, Targets(ts));
    DistinctAsks(ids, ts, c, v);
    WalkFrom(edges, test, ids, ts, c, v, 0, fuel);
    assert ts[0..] == ts;
  }

  // ---------------------------------------------------------------------------------------------
  // Colliding ids
  // ---------------------------------------------------------------------------------------------

  /** The first decision whose id is already taken, and the decision that took it. */
  lemma {:induction false} FirstCollision(ids: seq<string>) returns (i: nat, j: nat)
    requires !Distinct(ids)
    ensures i < j < |ids| && ids[i] == ids[j] && Distinct(ids[..j])
  {
    var n := |ids| - 1;
    if Distinct(ids[..n]) {
      assert forall x | 0 <= x < n :: ids[x] == ids[..n][x];
      var a, b :| 0 <= a < b < |ids| && ids[a] == ids[b];
      i, j := a, b;
    } else {
      i, j := FirstCollision(ids[..n]);
      assert ids[..n][..j] == ids[..j];
    }
  }

  /** When no condition holds, a walk that meets a taken id goes round for ever. */
  lemma {:induction false} WalkLoops(ids: seq<string>, targets: seq<string>, test: string -> bool, i: nat, j: nat,
                                     k: nat, fuel: nat)
    requires |ids| == |targets| && i < j < |ids| && ids[i] == ids[j] && Distinct(ids[..j])
    requires forall id :: !test(id)
    requires k < j
    ensures Walk(ChainEdges(ids, targets), test, ids[k], fuel) == StillWalking
    decreases fuel
  {
    if fuel > 0 {
      assert ids[k] !in ids[..k] by {
        assert forall m | 0 <= m < k :: ids[..j][m] != ids[..j][k];
      }
      FollowChain(ids, targets, k);
      WalkLoops(ids, targets, test, i, j, if k + 1 == j then i else k + 1, fuel - 1);
    }
  }

  /** The compiled chain does what the lines say, for every value and whenever enough steps are allowed. */
  ghost predicate Faithful(show: real -> string, lhs: string, c: Comparison, group: seq<Threshold>)
    requires group != []
  {
    forall v, fuel: nat | fuel >= |group| :: Means(c, v, group, WalkGroup(show, lhs, c, group, v, fuel))
  }

  ghost predicate DistinctDecisions(show: real -> string, lhs: string, c: Comparison, group: seq<Threshold>) {
    Distinct(Ids(show, lhs, c, Arranged(c, group)))
  }

  lemma DistinctIsFaithful(show: real -> string, lhs: string, c: Comparison, group: seq<Threshold>, v: real, fuel: nat)
    requires group != [] && fuel >= |group| && DistinctDecisions(show, lhs, c, group)
    ensures Means(c, v, group, WalkGroup(show, lhs, c, group, v, fuel))
  {
    SortLength(c, group);
    var ts := Arranged(c, group);
    var ids := Ids(show, lhs, c, ts);
    WalkDistinct([], [], ids, ts, c, v, fuel);
    assert [] + ChainEdges(ids, Targets(ts)) + [] == ChainEdges(ids, Targets(ts));
    FirstHoldingMeans(c, v, ts);
    MeansOfArranged(c, v, group, FirstHolding(c, v, ts));
  }

  lemma LastPassesNothing(c: Comparison, ids: seq<string>, ts: seq<Threshold>, test: string -> bool)
    requires |ids| == |ts| && ts != [] && Sorted(Tighter(c), ts)
    requires test == TestOf(ids, ts, c, ts[|ts| - 1].value)
    ensures forall id :: !test(id)
  {
    var n := |ts| - 1;
    forall k | 0 <= k < |ts|
      ensures !Holds(c, ts[n].value, ts[k].value)
    {
      assert k < n ==> Tighter(c)(ts[k], ts[n]);
    }
  }

  /** The last threshold of the arrangement passes none of the tests, so a collision is never left. */
  lemma CollidingNeverEnds(show: real -> string, lhs: string, c: Comparison, group: seq<Threshold>) returns (v: real)
    requires group != [] && !DistinctDecisions(show, lhs, c, group)
    ensures WalkGroup(show, lhs, c, group, v, |group|) == StillWalking
  {
    SortLength(c, group);
    var ts := Arranged(c, group);
    var ids := Ids(show, lhs, c, ts);
    var i, j := FirstCollision(ids);
    v := ts[|ts| - 1].value;
    var test := TestOf(ids, ts, c, v);
    LastPassesNothing(c, ids, ts, test);
    WalkLoops(ids, Targets(ts), test, i, j, 0, |group|);
  }

  /** Compilation preserves meaning exactly when the decisions have distinct ids. */
  lemma CompilationFaithfulExactly(show: real -> string, lhs: string, c: Comparison, group: seq<Threshold>)
    requires group != []
    ensures Faithful(show, lhs, c, group) <==> DistinctDecisions(show, lhs, c, group)
  {
    if DistinctDecisions(show, lhs, c, group) {
      forall v, fuel: nat | fuel >= |group|
        ensures Means(c, v, group, WalkGroup(show, lhs, c, group, v, fuel))
      {
        DistinctIsFaithful(show, lhs, c, group, v, fuel);
      }
    } else {
      var v := CollidingNeverEnds(show, lhs, c, group);
      assert !Means(c, v, group, WalkGroup(show, lhs, c, group, v, |group|));
    }
  }

  /** Equal ids among the decisions of a group are a collision of its chain. */
  lemma EqualIdsCollide(show: real -> string, lhs: string, c: Comparison, x: Threshold, y: Threshold)
    requires DecisionId(show, lhs, c, x.value) == DecisionId(show, lhs, c, y.value)
    ensures !DistinctDecisions(show, lhs, c, [x, y])
  {
    SortLength(c, [x, y]);
    var ts := Arranged(c, [x, y]);
    SameElements([x, y], ts);
    assert ts[0] in ts && ts[1] in ts;
    assert Ids(show, lhs, c, ts)[0] == Ids(show, lhs, c, ts)[1];
  }

  lemma {:induction false} SanitizeAppend(a: string, b: string)
    ensures SanitizeId(a + b) == SanitizeId(a) + SanitizeId(b)
  {
    if a == [] {
      assert a + b == b;
    } else {
      assert (a + b)[0] == a[0] && (a + b)[1..] == a[1..] + b;
      SanitizeAppend(a[1..], b);
    }
  }

  /** Distinct thresholds can still collide: these two are written alike up to the sign of the exponent. */
  lemma ExponentsCollide(show: real -> string, lhs: string, c: Comparison, big: Threshold, small: Threshold)
    requires big.value == 1000000000000000000000.0 && show(big.value) == "1e+21"
    requires small.value == 0.000000000000000000001 && show(small.value) == "1e-21"
    ensures !Faithful(show, lhs, c, [big, small])
  {
    var front := lhs + "_" + OpWord(c) + "_";
    SanitizeAppend(front, ValToSafe("1e+21"));
    SanitizeAppend(front, ValToSafe("1e-21"));
    EqualIdsCollide(show, lhs, c, big, small);
    CompilationFaithfulExactly(show, lhs, c, [big, small]);
  }

  lemma DistinctIdsDistinctValues(ids: seq<string>, ts: seq<Threshold>, value: Threshold -> real)
    requires |ids| == |ts| && Distinct(ids)
    requires forall a, b | 0 <= a < b < |ts| && value(ts[a]) == value(ts[b]) :: ids[a] == ids[b]
    ensures DistinctKeys(value, ts)
  {
  }

  /** And so do any two lines with the same threshold. */
  lemma RepeatedThresholdCollides(show: real -> string, lhs: string, c: Comparison, group: seq<Threshold>, i: nat,
                                  j: nat)
    requires i < j < |group| && group[i].value == group[j].value
    ensures !Faithful(show, lhs, c, group)
  {
    CompilationFaithfulExactly(show, lhs, c, group);
    var ts := Arranged(c, group);
    var ids := Ids(show, lhs, c, ts);
    if Distinct(ids) {
      var value := (t: Threshold) => t.value;
      DistinctIdsDistinctValues(ids, ts, value);
      DistinctPermuted(value, ts, group);
    }
  }

  lemma SameDecision(ids: seq<string>, ts: seq<Threshold>, x: Threshold, y: Threshold)
    requires |ids| == |ts| && Distinct(ids)
    requires forall i, j | 0 <= i < |ts| && 0 <= j < |ts| && ts[i].value == ts[j].value :: ids[i] == ids[j]
    requires x in ts && y in ts && x.value == y.value
    ensures x == y
  {
    var i :| 0 <= i < |ts| && ts[i] == x;
    var j :| 0 <= j < |ts| && ts[j] == y;
    assert ids[i] == ids[j];
  }

  /** The chain does not depend on the order of the source lines. */
  lemma ChainIgnoresLineOrder(show: real -> string, lhs: string, c: Comparison, group: seq<Threshold>,
                              other: seq<Threshold>)
    requires DistinctDecisions(show, lhs, c, group)
    requires multiset(group) == multiset(other)
    ensures Arranged(c, group) == Arranged(c, other)
  {
    var ts := Arranged(c, group);
    var ids := Ids(show, lhs, c, ts);
    SameElements(group, ts);
    forall x, y | x in group && y in group && Tighter(c)(x, y) && Tighter(c)(y, x)
      ensures x == y
    {
      SameDecision(ids, ts, x, y);
    }
    SortCanonical(Tighter(c), group, other);
  }
}
