/** When a walk through a larger graph reaches the targets that a chain's lines ask for. */
module ChainMeanings {
  import opened Results
  import opened DiagramText
  import opened DiagramValues
  import opened ThresholdChains

  /** The first decision that passes a test, going along the false edges. */
  function FirstPassing(next: string -> Option<string>, pass: string -> bool, id: string, steps: nat): Option<string>
    decreases steps
  {
    if steps == 0 then None
    else if pass(id) then Some(id)
    else
      match next(id)
      case Some(after) => FirstPassing(next, pass, after, steps - 1)
      case None => None
  }

  /** The false edges come to an end. */
  predicate Ends(next: string -> Option<string>, id: string, steps: nat)
    decreases steps
  {
    steps > 0 && match next(id) case Some(after) => Ends(next, after, steps - 1) case None => true
  }

  /** The decisions whose threshold is no tighter than `t`. */
  function NoTighter(ids: seq<string>, ts: seq<Threshold>, c: Comparison, t: real): string -> bool
    requires |ids| == |ts|
  {
    (id: string) => var i := FirstAt(ids, id); i < |ids| && !Holds(c, ts[i].value, t)
  }

  /** Some line with the threshold `t` asks for this target. */
  ghost predicate AskedFor(ts: seq<Threshold>, t: real, target: Option<string>) {
    exists u :: u in ts && u.value == t && target == Some(SanitizeId(u.target))
  }

  /** Of the decisions no tighter than the threshold `t`, the first on the way has a target that is asked for. */
  ghost predicate LeadsRight(next: string -> Option<string>, aim: string -> Option<string>, ids: seq<string>,
                             ts: seq<Threshold>, c: Comparison, t: real, steps: nat)
    requires |ids| == |ts| && ids != []
  {
    match FirstPassing(next, NoTighter(ids, ts, c, t), ids[0], steps)
    case Some(id) => AskedFor(ts, t, aim(id))
    case None => false
  }

  /**
   The false edges end, and every threshold is led to a target that is asked for. `next` gives the end of the
   first false edge of a decision and `aim` that of its first true edge. The decisions need not be taken in turn:
   one that another line has taken over does no harm on values for which the walk goes elsewhere.
   */
  ghost predicate RightlyLinked(next: string -> Option<string>, aim: string -> Option<string>, ids: seq<string>,
                                ts: seq<Threshold>, c: Comparison, steps: nat)
    requires |ids| == |ts| && ids != []
  {
    && Ends(next, ids[0], steps)
    && forall e | e in ts :: LeadsRight(next, aim, ids, ts, c, e.value, steps)
  }

  /** The walk does what the lines say, for every value and whenever at least so many steps are allowed. */
  ghost predicate MeansAlways(edges: seq<Edge>, ids: seq<string>, ts: seq<Threshold>, c: Comparison, steps: nat)
    requires |ids| == |ts| && ids != []
  {
    forall v, fuel: nat | fuel >= steps :: Means(c, v, ts, Walk(edges, TestOf(ids, ts, c, v), ids[0], fuel))
  }

  /** `next` and `aim` describe the false and the true edges. */
  ghost predicate Describes(edges: seq<Edge>, ids: seq<string>, next: string -> Option<string>,
                            aim: string -> Option<string>) {
    && (forall id :: Follow(edges, id, NO) == next(id))
    && forall id | id in ids :: Follow(edges, id, YES) == aim(id)
  }

  // ---------------------------------------------------------------------------------------------
  // Values for every case
  // ---------------------------------------------------------------------------------------------

  /** A value of which exactly the conditions no tighter than `t` hold. */
  function JustPast(c: Comparison, ts: seq<Threshold>, t: real): (v: real)
    ensures Holds(c, v, t)
    ensures forall e | e in ts :: Holds(c, v, e.value) <==> !Holds(c, e.value, t)
  {
    if ts == [] then (if c == Greater then t + 1.0 else t - 1.0)
    else
      var v := JustPast(c, ts[1..], t);
      if Holds(c, ts[0].value, t) && Holds(c, v, ts[0].value) then ts[0].value else v
  }

  /** A value of which no condition holds. */
  function PastNone(c: Comparison, ts: seq<Threshold>): (v: real)
    ensures forall e | e in ts :: !Holds(c, v, e.value)
  {
    if ts == [] then 0.0
    else
      var v := PastNone(c, ts[1..]);
      if Holds(c, v, ts[0].value) then ts[0].value else v
  }

  /** When some condition holds, one of those that hold is tightest. */
  lemma {:induction false} SomeTightest(c: Comparison, v: real, ts: seq<Threshold>, e: Threshold) returns (t: Threshold)
    requires e in ts && Holds(c, v, e.value)
    ensures IsTightest(c, v, ts, t)
  {
    if d :| d in ts[1..] && Holds(c, v, d.value) {
      t := SomeTightest(c, v, ts[1..], d);
      if Holds(c, v, ts[0].value) && Holds(c, ts[0].value, t.value) {
        t := ts[0];
      }
    } else {
      t := ts[0];
    }
    assert forall d | d in ts :: d == ts[0] || d in ts[1..];
  }

  // ---------------------------------------------------------------------------------------------
  // The walk
  // ---------------------------------------------------------------------------------------------

  lemma {:induction false} PassingAlike(next: string -> Option<string>, p: string -> bool, q: string -> bool,
                                        id: string, steps: nat)
    requires forall x :: p(x) == q(x)
    ensures FirstPassing(next, p, id, steps) == FirstPassing(next, q, id, steps)
    decreases steps
  {
    if steps > 0 && !p(id) && next(id).Some? {
      PassingAlike(next, p, q, next(id).value, steps - 1);
    }
  }

  /** A decision that is found passes; once the false edges have ended, more steps find no more. */
  lemma {:induction false} PassingEnds(next: string -> Option<string>, pass: string -> bool, id: string, steps: nat,
                                       more: nat)
    requires more >= steps
    ensures var found := FirstPassing(next, pass, id, steps); found.Some? ==> pass(found.value)
    ensures Ends(next, id, steps)
        ==> Ends(next, id, more) && FirstPassing(next, pass, id, more) == FirstPassing(next, pass, id, steps)
    decreases steps
  {
    if steps > 0 && next(id).Some? {
      PassingEnds(next, pass, next(id).value, steps - 1, more - 1);
    }
  }

  /** A walk ends at the first true edge of the first decision that passes, or where the false edges do. */
  lemma {:induction false} WalkPassing(edges: seq<Edge>, next: string -> Option<string>, test: string -> bool,
                                       id: string, fuel: nat)
    requires forall x :: Follow(edges, x, NO) == next(x)
    ensures Walk(edges, test, id, fuel)
         == match FirstPassing(next, test, id, fuel)
            case Some(x) =>
              (match Follow(edges, x, YES) case Some(target) => Reached(target) case None => FellOff)
            case None => if Ends(next, id, fuel) then FellOff else StillWalking
    decreases fuel
  {
    if fuel > 0 && !test(id) && next(id).Some? {
      WalkPassing(edges, next, test, next(id).value, fuel - 1);
    }
  }

  lemma {:induction false} NonePass(next: string -> Option<string>, pass: string -> bool, id: string, steps: nat)
    requires forall x :: !pass(x)
    ensures FirstPassing(next, pass, id, steps) == None
    decreases steps
  {
    if steps > 0 && next(id).Some? {
      NonePass(next, pass, next(id).value, steps - 1);
    }
  }

  lemma WalkOnNothing(edges: seq<Edge>, next: string -> Option<string>, ids: seq<string>, ts: seq<Threshold>,
                      c: Comparison, v: real, fuel: nat)
    requires |ids| == |ts| && ids != []
    requires forall x :: Follow(edges, x, NO) == next(x)
    requires forall e | e in ts :: !Holds(c, v, e.value)
    ensures Means(c, v, ts, Walk(edges, TestOf(ids, ts, c, v), ids[0], fuel)) <==> Ends(next, ids[0], fuel)
  {
    var test := TestOf(ids, ts, c, v);
    assert forall x :: !test(x);
    NonePass(next, test, ids[0], fuel);
    WalkPassing(edges, next, test, ids[0], fuel);
  }

  /** The walk meets the condition `t` as if it were asked for the decisions no tighter than it. */
  lemma WalkOn(edges: seq<Edge>, next: string -> Option<string>, aim: string -> Option<string>, ids: seq<string>,
               ts: seq<Threshold>, c: Comparison, v: real, t: Threshold, fuel: nat)
    requires |ids| == |ts| && ids != [] && Describes(edges, ids, next, aim)
    requires t in ts && forall e | e in ts :: Holds(c, v, e.value) <==> !Holds(c, e.value, t.value)
    ensures Means(c, v, ts, Walk(edges, TestOf(ids, ts, c, v), ids[0], fuel))
       <==> LeadsRight(next, aim, ids, ts, c, t.value, fuel)
  {
    var test, pass := TestOf(ids, ts, c, v), NoTighter(ids, ts, c, t.value);
    forall x
      ensures test(x) == pass(x)
    {
      var i := FirstAt(ids, x);
      assert i < |ids| ==> ts[i] in ts;
    }
    PassingAlike(next, test, pass, ids[0], fuel);
    PassingEnds(next, test, ids[0], fuel, fuel);
    WalkPassing(edges, next, test, ids[0], fuel);
    assert Holds(c, v, t.value);
    assert forall e | e in ts :: IsTightest(c, v, ts, e) <==> e.value == t.value;
  }

  // ---------------------------------------------------------------------------------------------
  // The theorem
  // ---------------------------------------------------------------------------------------------

  lemma LinkedMeans(edges: seq<Edge>, next: string -> Option<string>, aim: string -> Option<string>,
                    ids: seq<string>, ts: seq<Threshold>, c: Comparison, v: real, steps: nat, fuel: nat)
    requires |ids| == |ts| && ids != [] && Describes(edges, ids, next, aim)
    requires RightlyLinked(next, aim, ids, ts, c, steps) && fuel >= steps
    ensures Means(c, v, ts, Walk(edges, TestOf(ids, ts, c, v), ids[0], fuel))
  {
    PassingEnds(next, x => false, ids[0], steps, fuel);
    if e :| e in ts && Holds(c, v, e.value) {
      var t := SomeTightest(c, v, ts, e);
      PassingEnds(next, NoTighter(ids, ts, c, t.value), ids[0], steps, fuel);
      assert LeadsRight(next, aim, ids, ts, c, t.value, steps);
      WalkOn(edges, next, aim, ids, ts, c, v, t, fuel);
    } else {
      WalkOnNothing(edges, next, ids, ts, c, v, fuel);
    }
  }

  /** The walk does what the lines say iff every threshold is led to its target and the false edges end. */
  lemma MeansExactly(edges: seq<Edge>, next: string -> Option<string>, aim: string -> Option<string>,
                     ids: seq<string>, ts: seq<Threshold>, c: Comparison, steps: nat)
    requires |ids| == |ts| && ids != [] && Describes(edges, ids, next, aim)
    ensures MeansAlways(edges, ids, ts, c, steps) <==> RightlyLinked(next, aim, ids, ts, c, steps)
  {
    if MeansAlways(edges, ids, ts, c, steps) {
      WalkOnNothing(edges, next, ids, ts, c, PastNone(c, ts), steps);
      forall e | e in ts
        ensures LeadsRight(next, aim, ids, ts, c, e.value, steps)
      {
        WalkOn(edges, next, aim, ids, ts, c, JustPast(c, ts, e.value), e, steps);
      }
    }
    if RightlyLinked(next, aim, ids, ts, c, steps) {
      forall v, fuel: nat | fuel >= steps
        ensures Means(c, v, ts, Walk(edges, TestOf(ids, ts, c, v), ids[0], fuel))
      {
        LinkedMeans(edges, next, aim, ids, ts, c, v, steps, fuel);
      }
    }
  }

  // ---------------------------------------------------------------------------------------------
  // How many steps are enough
  // ---------------------------------------------------------------------------------------------

  function Sources(edges: seq<Edge>): (s: set<string>)
    ensures |s| <= |edges|
  {
    if edges == [] then {} else {edges[0].from} + Sources(edges[1..])
  }

  lemma {:induction false} FollowedIsSource(edges: seq<Edge>, id: string, caption: Option<string>)
    requires Follow(edges, id, caption).Some?
    ensures id in Sources(edges)
  {
    if edges[0].from != id {
      FollowedIsSource(edges[1..], id, caption);
    }
  }

  lemma {:induction false} EndsMonotone(next: string -> Option<string>, id: string, steps: nat, more: nat)
    requires Ends(next, id, steps) && more >= steps
    ensures Ends(next, id, more)
  {
    PassingEnds(next, x => false, id, steps, more);
  }

  /** The decisions on the way to an end are different sources. */
  lemma {:induction false} OnTheWay(edges: seq<Edge>, next: string -> Option<string>, id: string, steps: nat)
    returns (s: set<string>)
    requires forall x :: Follow(edges, x, NO) == next(x)
    requires Ends(next, id, steps + 1) && !Ends(next, id, steps)
    ensures s <= Sources(edges) && |s| == steps
    ensures forall x | x in s :: Ends(next, x, steps + 1)
    decreases steps
  {
    s := {};
    if steps > 0 {
      var after := next(id).value;
      s := OnTheWay(edges, next, after, steps - 1);
      assert id !in s;
      FollowedIsSource(edges, id, NO);
      forall x | x in s
        ensures Ends(next, x, steps + 1)
      {
        EndsMonotone(next, x, steps, steps + 1);
      }
      s := s + {id};
    }
  }

  lemma SubsetSize(a: set<string>, b: set<string>)
    requires a <= b
    ensures |a| <= |b|
  {
    assert b == a + (b - a);
  }

  /** If the false edges end, they do so within as many steps as there are edges, and one more. */
  lemma {:induction false} EndsSoon(edges: seq<Edge>, next: string -> Option<string>, id: string, steps: nat)
    requires forall x :: Follow(edges, x, NO) == next(x)
    requires Ends(next, id, steps)
    ensures Ends(next, id, |edges| + 1)
  {
    if Ends(next, id, steps - 1) {
      EndsSoon(edges, next, id, steps - 1);
    } else {
      var s := OnTheWay(edges, next, id, steps - 1);
      SubsetSize(s, Sources(edges));
      EndsMonotone(next, id, steps, |edges| + 1);
    }
  }

  /** Some number of steps is enough on every value iff the links are right within as many steps as there are edges. */
  lemma MeansEventuallyExactly(edges: seq<Edge>, next: string -> Option<string>, aim: string -> Option<string>,
                               ids: seq<string>, ts: seq<Threshold>, c: Comparison)
    requires |ids| == |ts| && ids != [] && Describes(edges, ids, next, aim)
    ensures (exists steps: nat :: MeansAlways(edges, ids, ts, c, steps))
       <==> RightlyLinked(next, aim, ids, ts, c, |edges| + 1)
  {
    MeansExactly(edges, next, aim, ids, ts, c, |edges| + 1);
    if steps: nat :| MeansAlways(edges, ids, ts, c, steps) {
      MeansExactly(edges, next, aim, ids, ts, c, steps);
      EndsSoon(edges, next, ids[0], steps);
      var both := steps + |edges| + 1;
      forall e | e in ts
        ensures LeadsRight(next, aim, ids, ts, c, e.value, |edges| + 1)
      {
        assert LeadsRight(next, aim, ids, ts, c, e.value, steps);
        PassingEnds(next, NoTighter(ids, ts, c, e.value), ids[0], steps, both);
        PassingEnds(next, NoTighter(ids, ts, c, e.value), ids[0], |edges| + 1, both);
      }
    }
  }
}
