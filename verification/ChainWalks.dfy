/** When a walk through a larger graph takes a chain's decisions in turn: when it finds the chain's edges first. */
module ChainWalks {
  import opened Results
  import opened Keyed
  import opened Sorting
  import opened DiagramText
  import opened DiagramValues
  import opened ThresholdChains

  /** The decisions that a walk asks, in order. */
  function Asked(edges: seq<Edge>, test: string -> bool, id: string, fuel: nat): seq<string>
    decreases fuel
  {
    if fuel == 0 then []
    else if test(id) then [id]
    else
      match Follow(edges, id, NO)
      case Some(next) => [id] + Asked(edges, test, next, fuel - 1)
      case None => [id]
  }

  /** How many conditions are tried: up to and including the first that holds. */
  function Tried(c: Comparison, v: real, ts: seq<Threshold>): (n: nat)
    ensures n <= |ts|
  {
    if ts == [] then 0 else if Holds(c, v, ts[0].value) then 1 else 1 + Tried(c, v, ts[1..])
  }

  /** On `v` the walk asks the decisions in turn and ends as the first condition that holds says. */
  predicate TakesInTurn(edges: seq<Edge>, ids: seq<string>, ts: seq<Threshold>, c: Comparison, v: real, fuel: nat)
    requires |ids| == |ts| && ids != []
  {
    var test := TestOf(ids, ts, c, v);
    && Walk(edges, test, ids[0], fuel) == FirstHolding(c, v, ts)
    && Asked(edges, test, ids[0], fuel) == ids[..Tried(c, v, ts)]
  }

  ghost predicate AlwaysInTurn(edges: seq<Edge>, ids: seq<string>, ts: seq<Threshold>, c: Comparison)
    requires |ids| == |ts| && ids != []
  {
    forall v, fuel: nat | fuel >= |ids| :: TakesInTurn(edges, ids, ts, c, v, fuel)
  }

  // ---------------------------------------------------------------------------------------------
  // A chain whose edges come first is taken in turn
  // ---------------------------------------------------------------------------------------------

  /** `asked` is the `n` ids from index `k` on. */
  ghost predicate InTurnFrom(asked: seq<string>, ids: seq<string>, k: nat, n: nat)
    requires k <= |ids|
  {
    |asked| == n && k + n <= |ids| && forall m | 0 <= m < n :: asked[m] == ids[k + m]
  }

  lemma OneMoreInTurn(asked: seq<string>, ids: seq<string>, k: nat, n: nat)
    requires k < |ids| && InTurnFrom(asked, ids, k + 1, n)
    ensures InTurnFrom([ids[k]] + asked, ids, k, n + 1)
  {
  }

  /** The conditions tried all fail but for the last, which holds unless all were tried. */
  lemma {:induction false} TriedMeans(c: Comparison, v: real, ts: seq<Threshold>)
    requires ts != []
    ensures var n := Tried(c, v, ts);
            && 0 < n <= |ts|
            && (forall m | 0 <= m < n - 1 :: !Holds(c, v, ts[m].value))
            && (Holds(c, v, ts[n - 1].value) || n == |ts|)
  {
    if !Holds(c, v, ts[0].value) && |ts| > 1 {
      TriedMeans(c, v, ts[1..]);
    }
  }

  lemma AskedNext(edges: seq<Edge>, test: string -> bool, id: string, next: string, fuel: nat)
    requires fuel > 0 && !test(id) && Follow(edges, id, NO) == Some(next)
    ensures Asked(edges, test, id, fuel) == [id] + Asked(edges, test, next, fuel - 1)
  {
  }

  /** A walk along the chain asks its decisions up to the first that passes its test, or all of them. */
  lemma {:induction false} AskedFrom(edges: seq<Edge>, test: string -> bool, ids: seq<string>, k: nat, n: nat,
                                     fuel: nat)
    requires 0 < n <= fuel && k + n <= |ids|
    requires forall m | k <= m < k + n :: Follow(edges, ids[m], NO) == NextOf(ids, m)
    requires forall m | k <= m < k + n - 1 :: !test(ids[m])
    requires test(ids[k + n - 1]) || k + n == |ids|
    ensures InTurnFrom(Asked(edges, test, ids[k], fuel), ids, k, n)
    decreases n
  {
    if n > 1 {
      AskedFrom(edges, test, ids, k + 1, n - 1, fuel - 1);
      AskedNext(edges, test, ids[k], ids[k + 1], fuel);
      OneMoreInTurn(Asked(edges, test, ids[k + 1], fuel - 1), ids, k, n - 1);
    }
  }

  /** The chain determines its ids: no decision can have two successors. */
  lemma {:induction false} NoRepeats(edges: seq<Edge>, ids: seq<string>, i: nat, j: nat)
    requires forall k | 0 <= k < |ids| :: Follow(edges, ids[k], NO) == NextOf(ids, k)
    requires i < j < |ids|
    ensures ids[i] != ids[j]
    decreases |ids| - j
  {
    if ids[i] == ids[j] {
      assert NextOf(ids, i) == NextOf(ids, j);
      if j + 1 < |ids| {
        NoRepeats(edges, ids, i + 1, j + 1);
      }
    }
  }

  lemma AskedInTurn(edges: seq<Edge>, test: string -> bool, ids: seq<string>, ts: seq<Threshold>, c: Comparison,
                    v: real, fuel: nat)
    requires |ids| == |ts| && ids != [] && fuel >= |ids| && Asks(test, ids, ts, c, v)
    requires forall k | 0 <= k < |ids| :: Follow(edges, ids[k], NO) == NextOf(ids, k)
    ensures Asked(edges, test, ids[0], fuel) == ids[..Tried(c, v, ts)]
  {
    var n := Tried(c, v, ts);
    TriedMeans(c, v, ts);
    AskedFrom(edges, test, ids, 0, n, fuel);
  }

  lemma WalkInTurn(edges: seq<Edge>, ids: seq<string>, ts: seq<Threshold>, c: Comparison, v: real, fuel: nat)
    requires |ids| == |ts| && ids != [] && fuel >= |ids| && Distinct(ids)
    requires ChainIn(edges, ids, Targets(ts))
    ensures Walk(edges, TestOf(ids, ts, c, v), ids[0], fuel) == FirstHolding(c, v, ts)
  {
    DistinctAsks(ids, ts, c, v);
    WalkFrom(edges, TestOf(ids, ts, c, v), ids, ts, c, v, 0, fuel);
    assert ts[0..] == ts;
  }

  lemma InTurnIfChainIn(edges: seq<Edge>, ids: seq<string>, ts: seq<Threshold>, c: Comparison)
    requires |ids| == |ts| && ids != []
    requires ChainIn(edges, ids, Targets(ts))
    ensures AlwaysInTurn(edges, ids, ts, c)
  {
    forall k | 0 <= k < |ids|
      ensures Follow(edges, ids[k], NO) == NextOf(ids, k)
    {
    }
    forall i, j | 0 <= i < j < |ids|
      ensures ids[i] != ids[j]
    {
      NoRepeats(edges, ids, i, j);
    }
    forall v, fuel: nat | fuel >= |ids|
      ensures TakesInTurn(edges, ids, ts, c, v, fuel)
    {
      DistinctAsks(ids, ts, c, v);
      WalkInTurn(edges, ids, ts, c, v, fuel);
      AskedInTurn(edges, TestOf(ids, ts, c, v), ids, ts, c, v, fuel);
    }
  }

  // ---------------------------------------------------------------------------------------------
  // And only such a chain
  // ---------------------------------------------------------------------------------------------

  /** Different decisions have different thresholds. */
  ghost predicate OneEach(ids: seq<string>, ts: seq<Threshold>)
    requires |ids| == |ts|
  {
    forall i, j | 0 <= i < j < |ids| && ts[i].value == ts[j].value :: ids[i] == ids[j]
  }

  /** When nothing holds, the decisions asked show where the false edges lead. */
  lemma {:induction false} FalseEdges(edges: seq<Edge>, test: string -> bool, ids: seq<string>, k: nat)
    requires k < |ids| && forall id :: !test(id)
    requires Asked(edges, test, ids[k], |ids| - k) == ids[k..]
    requires Walk(edges, test, ids[k], |ids| - k) == FellOff
    ensures forall m | k <= m < |ids| :: Follow(edges, ids[m], NO) == NextOf(ids, m)
    decreases |ids| - k
  {
    match Follow(edges, ids[k], NO)
    case None =>
      assert |ids[k..]| == 1;
    case Some(next) =>
      assert k + 1 < |ids|;
      assert ids[k..][1..] == ids[k + 1..];
      assert Asked(edges, test, next, |ids| - k - 1) == ids[k + 1..];
      assert ids[k + 1..][0] == next;
      FalseEdges(edges, test, ids, k + 1);
  }

  /** With the false edges in place, a walk on which the first `k` conditions fail comes to decision `k`. */
  lemma {:induction false} WalkTo(edges: seq<Edge>, test: string -> bool, ids: seq<string>, k: nat, m: nat, fuel: nat)
    requires m <= k < |ids| && fuel >= k - m
    requires forall i | 0 <= i < k :: !test(ids[i]) && Follow(edges, ids[i], NO) == NextOf(ids, i)
    ensures Walk(edges, test, ids[m], fuel) == Walk(edges, test, ids[k], fuel - (k - m))
    decreases k - m
  {
    if m < k {
      assert !test(ids[m]) && Follow(edges, ids[m], NO) == Some(ids[m + 1]);
      WalkTo(edges, test, ids, k, m + 1, fuel - 1);
    }
  }

  /** A value for which condition `k` is the first that holds. */
  function FirstAtK(c: Comparison, ts: seq<Threshold>, k: nat): real
    requires k < |ts|
  {
    if k > 0 then ts[k - 1].value else if c == Greater then ts[0].value + 1.0 else ts[0].value - 1.0
  }

  lemma FirstHoldsAt(c: Comparison, ids: seq<string>, ts: seq<Threshold>, k: nat)
    requires |ids| == |ts| && k < |ts|
    requires Sorted(Tighter(c), ts) && Distinct(ids) && OneEach(ids, ts)
    ensures Holds(c, FirstAtK(c, ts, k), ts[k].value)
    ensures forall i | 0 <= i < k :: !Holds(c, FirstAtK(c, ts, k), ts[i].value)
  {
    if k > 0 {
      assert Tighter(c)(ts[k - 1], ts[k]) && ts[k - 1].value != ts[k].value;
      forall i | 0 <= i < k
        ensures !Holds(c, ts[k - 1].value, ts[i].value)
      {
        assert i < k - 1 ==> Tighter(c)(ts[i], ts[k - 1]);
      }
    }
  }

  lemma {:induction false} FirstHoldingAt(c: Comparison, v: real, ts: seq<Threshold>, k: nat)
    requires k < |ts| && Holds(c, v, ts[k].value) && forall i | 0 <= i < k :: !Holds(c, v, ts[i].value)
    ensures FirstHolding(c, v, ts) == Reached(SanitizeId(ts[k].target))
  {
    if k > 0 {
      FirstHoldingAt(c, v, ts[1..], k - 1);
    }
  }

  /** On such a value the walk does what the first true edge of decision `k` says. */
  lemma WalkDecides(edges: seq<Edge>, ids: seq<string>, ts: seq<Threshold>, c: Comparison, k: nat, fuel: nat)
    requires |ids| == |ts| && k < |ts| && fuel > k
    requires Sorted(Tighter(c), ts) && Distinct(ids) && OneEach(ids, ts)
    requires forall i | 0 <= i < k :: Follow(edges, ids[i], NO) == NextOf(ids, i)
    ensures Walk(edges, TestOf(ids, ts, c, FirstAtK(c, ts, k)), ids[0], fuel)
         == match Follow(edges, ids[k], YES) case Some(target) => Reached(target) case None => FellOff
  {
    var v := FirstAtK(c, ts, k);
    FirstHoldsAt(c, ids, ts, k);
    DistinctAsks(ids, ts, c, v);
    WalkTo(edges, TestOf(ids, ts, c, v), ids, k, 0, fuel);
  }

  lemma {:induction false} NoneHolds(c: Comparison, v: real, ts: seq<Threshold>)
    requires forall k | 0 <= k < |ts| :: !Holds(c, v, ts[k].value)
    ensures FirstHolding(c, v, ts) == FellOff && Tried(c, v, ts) == |ts|
  {
    if ts != [] {
      NoneHolds(c, v, ts[1..]);
    }
  }

  /** On the last threshold's own value, being taken in turn means that all decisions are asked in vain. */
  lemma NothingHeld(edges: seq<Edge>, ids: seq<string>, ts: seq<Threshold>, c: Comparison)
    requires |ids| == |ts| && ids != [] && Sorted(Tighter(c), ts)
    requires TakesInTurn(edges, ids, ts, c, ts[|ts| - 1].value, |ids|)
    ensures var test := TestOf(ids, ts, c, ts[|ts| - 1].value);
            && (forall id :: !test(id))
            && Walk(edges, test, ids[0], |ids| - 0) == FellOff
            && Asked(edges, test, ids[0], |ids| - 0) == ids[0..]
  {
    var v := ts[|ts| - 1].value;
    LastPassesNothing(c, ids, ts, TestOf(ids, ts, c, v));
    forall k | 0 <= k < |ts|
      ensures !Holds(c, v, ts[k].value)
    {
      assert k < |ts| - 1 ==> Tighter(c)(ts[k], ts[|ts| - 1]);
    }
    NoneHolds(c, v, ts);
    assert ids[0..] == ids && ids[..|ids|] == ids;
  }

  lemma FalseEdgesInTurn(edges: seq<Edge>, ids: seq<string>, ts: seq<Threshold>, c: Comparison)
    requires |ids| == |ts| && ids != [] && Sorted(Tighter(c), ts)
    requires AlwaysInTurn(edges, ids, ts, c)
    ensures forall k | 0 <= k < |ids| :: Follow(edges, ids[k], NO) == NextOf(ids, k)
    ensures Distinct(ids)
  {
    var n := |ids|;
    var v := ts[n - 1].value;
    assert TakesInTurn(edges, ids, ts, c, v, n);
    NothingHeld(edges, ids, ts, c);
    FalseEdges(edges, TestOf(ids, ts, c, v), ids, 0);
    forall i, j | 0 <= i < j < n
      ensures ids[i] != ids[j]
    {
      NoRepeats(edges, ids, i, j);
    }
  }

  /** A walk takes a chain's decisions in turn, whatever the value, iff the chain's edges are found first. */
  lemma InTurnExactly(edges: seq<Edge>, ids: seq<string>, ts: seq<Threshold>, c: Comparison)
    requires |ids| == |ts| && ids != []
    requires Sorted(Tighter(c), ts) && OneEach(ids, ts)
    ensures AlwaysInTurn(edges, ids, ts, c) <==> ChainIn(edges, ids, Targets(ts))
  {
    if ChainIn(edges, ids, Targets(ts)) {
      InTurnIfChainIn(edges, ids, ts, c);
    }
    if AlwaysInTurn(edges, ids, ts, c) {
      FalseEdgesInTurn(edges, ids, ts, c);
      forall k | 0 <= k < |ids|
        ensures Follow(edges, ids[k], YES) == Some(Targets(ts)[k])
      {
        var v := FirstAtK(c, ts, k);
        FirstHoldsAt(c, ids, ts, k);
        FirstHoldingAt(c, v, ts, k);
        WalkDecides(edges, ids, ts, c, k, |ids|);
        assert TakesInTurn(edges, ids, ts, c, v, |ids|);
      }
    }
  }
}
