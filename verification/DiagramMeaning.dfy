/** What a threshold chain means inside the whole diagram, where all lines share one graph. */
module DiagramMeaning {
  import opened Results
  import opened Keyed
  import opened Sorting
  import opened DiagramText
  import opened DiagramValues
  import opened ThresholdChains
  import opened ChainWalks
  import opened ChainMeanings
  import opened DiagramBuild

  /** What one line of a threshold group contributes: a decision, its target and the decision after it. */
  datatype Decision = Decision(id: string, target: string, next: Option<string>)

  function DecisionsOf(ids: seq<string>, targets: seq<string>): seq<Decision>
    requires |ids| == |targets|
  {
    if ids == [] then [] else [Decision(ids[0], targets[0], NextOf(ids, 0))] + DecisionsOf(ids[1..], targets[1..])
  }

  function GroupIds(num: Numerals, c: Comparison, g: Group<Threshold>): seq<string> {
    Ids(num.show, g.key, c, Arranged(c, g.items))
  }

  function GroupTargets(c: Comparison, g: Group<Threshold>): seq<string> { Targets(Arranged(c, g.items)) }

  function DecisionsIn(num: Numerals, c: Comparison, groups: seq<Group<Threshold>>): seq<Decision> {
    if groups == [] then []
    else
      var last := groups[|groups| - 1];
      DecisionsIn(num, c, groups[..|groups| - 1]) + DecisionsOf(GroupIds(num, c, last), GroupTargets(c, last))
  }

  /** All decisions of a source, in the order in which they are emitted. */
  function AllDecisions(num: Numerals, p: Parsed): seq<Decision> {
    DecisionsIn(num, Greater, GroupsOf(num, p, Greater)) + DecisionsIn(num, Less, GroupsOf(num, p, Less))
  }

  function OrElse<T>(a: Option<T>, b: Option<T>): Option<T> { if a.Some? then a else b }

  /** The target of the first decision with an id. */
  function FirstTarget(ds: seq<Decision>, id: string): Option<string> {
    if ds == [] then None else if ds[0].id == id then Some(ds[0].target) else FirstTarget(ds[1..], id)
  }

  /** The successor of the first decision with an id that has one. */
  function FirstNext(ds: seq<Decision>, id: string): Option<string> {
    if ds == [] then None
    else if ds[0].id == id && ds[0].next.Some? then ds[0].next
    else FirstNext(ds[1..], id)
  }

  /** The target of the first "false" arm. */
  function FirstFalse(arms: seq<Arm>): Option<string> {
    if arms == [] then None
    else if arms[0].arm == "false" then Some(SanitizeId(arms[0].target))
    else FirstFalse(arms[1..])
  }

  /** The target of the first "false" arm of a match with this id. */
  function FalseTarget(groups: seq<Group<Arm>>, id: string): Option<string> {
    if groups == [] then None
    else
      var front, last := groups[..|groups| - 1], groups[|groups| - 1];
      OrElse(FalseTarget(front, id), if MatchId(last.key) == id then FirstFalse(last.items) else None)
  }

  /** Where the false edge of a decision leads: to the successor given first, else where a "false" arm does. */
  function NextOn(num: Numerals, p: Parsed): string -> Option<string> {
    (id: string) => OrElse(FirstNext(AllDecisions(num, p), id), FalseTarget(ArmGroups(p.arms), id))
  }

  /** Where the true edge of a decision leads: to the target given first. */
  function AimOn(num: Numerals, p: Parsed): string -> Option<string> {
    (id: string) => FirstTarget(AllDecisions(num, p), id)
  }

  /** Some match arm written "false" belongs to a match with this id. */
  ghost predicate HasFalseArm(arms: seq<Arm>, id: string) {
    exists a :: a in arms && a.arm == "false" && MatchId(a.expr) == id
  }

  /**
   Of all decisions with the id of decision `k`, the first has its target and the first with a
   successor has its successor; and no "false" arm leaves it if it is the last.
   */
  ghost predicate ComesFirst(ds: seq<Decision>, arms: seq<Arm>, ids: seq<string>, targets: seq<string>, k: nat)
    requires k < |ids| == |targets|
  {
    && FirstTarget(ds, ids[k]) == Some(targets[k])
    && FirstNext(ds, ids[k]) == NextOf(ids, k)
    && (k == |ids| - 1 ==> !HasFalseArm(arms, ids[k]))
  }

  /** No line gets in first at a decision of the group. */
  ghost predicate Undisturbed(num: Numerals, p: Parsed, c: Comparison, g: Group<Threshold>) {
    var ids, targets := GroupIds(num, c, g), GroupTargets(c, g);
    && |ids| == |targets|
    && forall k | 0 <= k < |ids| :: ComesFirst(AllDecisions(num, p), p.arms, ids, targets, k)
  }

  // ---------------------------------------------------------------------------------------------
  // Following edges of the whole graph
  // ---------------------------------------------------------------------------------------------

  lemma {:induction false} FollowConcat(a: seq<Edge>, b: seq<Edge>, id: string, caption: Option<string>)
    ensures Follow(a + b, id, caption) == OrElse(Follow(a, id, caption), Follow(b, id, caption))
  {
    if a == [] {
      assert a + b == b;
    } else {
      assert (a + b)[0] == a[0] && (a + b)[1..] == a[1..] + b;
      FollowConcat(a[1..], b, id, caption);
    }
  }

  lemma {:induction false} FollowSome(edges: seq<Edge>, id: string, caption: Option<string>)
    ensures Follow(edges, id, caption).Some? <==> exists e :: e in edges && e.from == id && e.caption == caption
  {
    if edges != [] {
      FollowSome(edges[1..], id, caption);
      assert forall e :: e in edges <==> e == edges[0] || e in edges[1..];
    }
  }

  lemma {:induction false} DecisionsConcat(a: seq<Decision>, b: seq<Decision>, id: string)
    ensures FirstTarget(a + b, id) == OrElse(FirstTarget(a, id), FirstTarget(b, id))
    ensures FirstNext(a + b, id) == OrElse(FirstNext(a, id), FirstNext(b, id))
  {
    if a == [] {
      assert a + b == b;
    } else {
      assert (a + b)[0] == a[0] && (a + b)[1..] == a[1..] + b;
      DecisionsConcat(a[1..], b, id);
    }
  }

  lemma FollowOwn(ids: seq<string>, targets: seq<string>, id: string)
    requires |ids| == |targets| && ids != []
    ensures var here := [Link(ids[0], targets[0], YES)] + (if |ids| > 1 then [Link(ids[0], ids[1], NO)] else []);
            && Follow(here, id, YES) == (if id == ids[0] then Some(targets[0]) else None)
            && Follow(here, id, NO) == (if id == ids[0] then NextOf(ids, 0) else None)
  {
    var here := [Link(ids[0], targets[0], YES)] + (if |ids| > 1 then [Link(ids[0], ids[1], NO)] else []);
    assert YES.value[0] != NO.value[0];
    if |ids| > 1 {
      assert here[1..] == [Link(ids[0], ids[1], NO)] && here[1..][1..] == [];
      assert Follow(here[1..], id, YES) == None;
      assert Follow(here[1..], id, NO) == if id == ids[0] then Some(ids[1]) else None;
    } else {
      assert here[1..] == [];
    }
  }

  lemma {:induction false} FollowChainDecisions(ids: seq<string>, targets: seq<string>, id: string)
    requires |ids| == |targets|
    ensures Follow(ChainEdges(ids, targets), id, YES) == FirstTarget(DecisionsOf(ids, targets), id)
    ensures Follow(ChainEdges(ids, targets), id, NO) == FirstNext(DecisionsOf(ids, targets), id)
  {
    if ids != [] {
      var rest := ChainEdges(ids[1..], targets[1..]);
      var here := [Link(ids[0], targets[0], YES)] + (if |ids| > 1 then [Link(ids[0], ids[1], NO)] else []);
      FollowChainDecisions(ids[1..], targets[1..], id);
      assert ChainEdges(ids, targets) == here + rest;
      FollowConcat(here, rest, id, YES);
      FollowConcat(here, rest, id, NO);
      FollowOwn(ids, targets, id);
    }
  }

  lemma {:induction false} FollowChains(num: Numerals, c: Comparison, groups: seq<Group<Threshold>>, id: string)
    ensures Follow(Chains(num.show, c, groups), id, YES) == FirstTarget(DecisionsIn(num, c, groups), id)
    ensures Follow(Chains(num.show, c, groups), id, NO) == FirstNext(DecisionsIn(num, c, groups), id)
  {
    if groups != [] {
      var front, last := groups[..|groups| - 1], groups[|groups| - 1];
      var ids, targets := GroupIds(num, c, last), GroupTargets(c, last);
      FollowChains(num, c, front, id);
      FollowChainDecisions(ids, targets, id);
      FollowConcat(Chains(num.show, c, front), ChainEdges(ids, targets), id, YES);
      FollowConcat(Chains(num.show, c, front), ChainEdges(ids, targets), id, NO);
      DecisionsConcat(DecisionsIn(num, c, front), DecisionsOf(ids, targets), id);
    }
  }

  lemma FollowPipelines(ps: seq<(string, string)>, id: string, caption: Option<string>)
    requires caption.Some?
    ensures Follow(PipelineEdges(ps), id, caption) == None
  {
    FollowSome(PipelineEdges(ps), id, caption);
  }

  lemma FollowConditions(conds: seq<Condition>, id: string)
    ensures Follow(ConditionEdges(conds), id, NO) == None
  {
    FollowSome(ConditionEdges(conds), id, NO);
    assert YES.value[0] != NO.value[0];
  }

  lemma {:induction false} FollowArms(matchId: string, edges: seq<Edge>, arms: seq<Arm>, id: string)
    requires |edges| == |arms|
    requires forall i | 0 <= i < |arms| ::
               edges[i].from == matchId && edges[i].to == SanitizeId(arms[i].target)
               && edges[i].caption == Some(arms[i].arm)
    ensures Follow(edges, id, NO) == if matchId == id then FirstFalse(arms) else None
  {
    if arms != [] {
      FollowArms(matchId, edges[1..], arms[1..], id);
    }
  }

  lemma {:induction false} FollowMatches(groups: seq<Group<Arm>>, id: string)
    ensures Follow(MatchEdges(groups), id, NO) == FalseTarget(groups, id)
  {
    if groups != [] {
      var front, last := groups[..|groups| - 1], groups[|groups| - 1];
      var arms := ArmEdges(MatchId(last.key), last.items);
      FollowMatches(front, id);
      FollowConcat(MatchEdges(front), arms, id, NO);
      FollowArms(MatchId(last.key), arms, last.items, id);
    }
  }

  lemma {:induction false} SomeFalse(arms: seq<Arm>)
    ensures FirstFalse(arms).Some? <==> exists a :: a in arms && a.arm == "false"
  {
    if arms != [] {
      SomeFalse(arms[1..]);
      assert forall a :: a in arms <==> a == arms[0] || a in arms[1..];
    }
  }

  lemma {:induction false} FalseTargetKnown(groups: seq<Group<Arm>>, id: string)
    ensures FalseTarget(groups, id).Some?
       <==> exists g, a :: g in groups && a in g.items && a.arm == "false" && MatchId(g.key) == id
  {
    if groups != [] {
      var front, last := groups[..|groups| - 1], groups[|groups| - 1];
      FalseTargetKnown(front, id);
      SomeFalse(last.items);
      assert forall g :: g in groups <==> g in front || g == last;
    }
  }

  lemma {:induction false} PutMembers<T>(groups: seq<Group<T>>, key: string, item: T, k: string, x: T)
    ensures (exists g :: g in Put(groups, key, item) && g.key == k && x in g.items)
       <==> (exists g :: g in groups && g.key == k && x in g.items) || (k == key && x == item)
  {
    if groups == [] {
      assert Put(groups, key, item) == [Group(key, [item])];
      if k == key && x == item {
        assert Group(key, [item]) in Put(groups, key, item);
      }
    } else if groups[0].key == key {
      var more := Group(key, groups[0].items + [item]);
      assert forall g :: g in Put(groups, key, item) <==> g == more || g in groups[1..];
      assert forall g :: g in groups <==> g == groups[0] || g in groups[1..];
    } else {
      PutMembers(groups[1..], key, item, k, x);
      assert forall g :: g in Put(groups, key, item) <==> g == groups[0] || g in Put(groups[1..], key, item);
      assert forall g :: g in groups <==> g == groups[0] || g in groups[1..];
    }
  }

  /** The groups of arms hold the arms, each under its expression. */
  lemma {:induction false} ArmsGrouped(arms: seq<Arm>, expr: string, a: Arm)
    ensures (exists g :: g in ArmGroups(arms) && g.key == expr && a in g.items) <==> a in arms && a.expr == expr
  {
    if arms != [] {
      var front, last := arms[..|arms| - 1], arms[|arms| - 1];
      ArmsGrouped(front, expr, a);
      PutMembers(ArmGroups(front), last.expr, last, expr, a);
      assert arms == front + [last];
    }
  }

  // ---------------------------------------------------------------------------------------------
  // Where a group's own edges are
  // ---------------------------------------------------------------------------------------------

  lemma {:induction false} ChainAmongChains(show: real -> string, c: Comparison, groups: seq<Group<Threshold>>, q: nat)
    returns (before: seq<Edge>, after: seq<Edge>)
    requires q < |groups|
    ensures Chains(show, c, groups) == before + ChainOf(show, c, groups[q]) + after
  {
    var front := groups[..|groups| - 1];
    if q == |groups| - 1 {
      before, after := Chains(show, c, front), [];
      ConcatAssociative(before, ChainOf(show, c, groups[q]), []);
    } else {
      before, after := ChainAmongChains(show, c, front, q);
      var last := ChainOf(show, c, groups[|groups| - 1]);
      ConcatAssociative(before + ChainOf(show, c, groups[q]), after, last);
      after := after + last;
    }
  }

  lemma SingleOut<T>(whole: seq<T>, first: seq<T>, b: seq<T>, x: seq<T>, a: seq<T>, last: seq<T>)
    requires whole == first + (b + x + a) + last
    ensures whole == (first + b) + x + (a + last)
  {
  }

  /** The edges of the whole graph, with the chain of one group singled out. */
  lemma ChainInGraph(num: Numerals, p: Parsed, c: Comparison, q: nat) returns (before: seq<Edge>, after: seq<Edge>)
    requires q < |GroupsOf(num, p, c)|
    ensures Build(num, p).edges == before + ChainOf(num.show, c, GroupsOf(num, p, c)[q]) + after
  {
    BuildEdges(num, p);
    var first := PipelineEdges(p.pipeline);
    var last := ConditionEdges(PlainConditions(num, p.conditionals)) + MatchEdges(ArmGroups(p.arms));
    var gt := Chains(num.show, Greater, GroupsOf(num, p, Greater));
    var lt := Chains(num.show, Less, GroupsOf(num, p, Less));
    var b, a := ChainAmongChains(num.show, c, GroupsOf(num, p, c), q);
    var chain := ChainOf(num.show, c, GroupsOf(num, p, c)[q]);
    ConcatAssociative(first + gt + lt, ConditionEdges(PlainConditions(num, p.conditionals)),
                      MatchEdges(ArmGroups(p.arms)));
    if c == Greater {
      ConcatAssociative(first + gt, lt, last);
      SingleOut(Build(num, p).edges, first, b, chain, a, lt + last);
      before, after := first + b, a + (lt + last);
    } else {
      SingleOut(Build(num, p).edges, first + gt, b, chain, a, last);
      before, after := first + gt + b, a + last;
    }
  }

  lemma {:induction false} ItemsOfGroup<T>(groups: seq<Group<T>>, q: nat)
    requires q < |groups| && Grouped(groups)
    ensures ItemsOf(groups, groups[q].key) == groups[q].items
  {
    if q > 0 {
      assert KeysOf(groups)[0] != KeysOf(groups)[q];
      assert KeysOf(groups[1..]) == KeysOf(groups)[1..];
      ItemsOfGroup(groups[1..], q - 1);
    }
  }

  lemma {:induction false} OwnDecision(ids: seq<string>, targets: seq<string>, k: nat)
    requires |ids| == |targets| && k < |ids|
    ensures FirstTarget(DecisionsOf(ids, targets), ids[k]).Some?
    ensures k + 1 < |ids| ==> FirstNext(DecisionsOf(ids, targets), ids[k]).Some?
  {
    if k > 0 {
      OwnDecision(ids[1..], targets[1..], k - 1);
    }
  }

  lemma {:induction false} GroupDecision(num: Numerals, c: Comparison, groups: seq<Group<Threshold>>, q: nat, k: nat)
    requires q < |groups| && k < |GroupIds(num, c, groups[q])|
    ensures var ids := GroupIds(num, c, groups[q]);
            && FirstTarget(DecisionsIn(num, c, groups), ids[k]).Some?
            && (k + 1 < |ids| ==> FirstNext(DecisionsIn(num, c, groups), ids[k]).Some?)
  {
    var front, last := groups[..|groups| - 1], groups[|groups| - 1];
    var own := DecisionsOf(GroupIds(num, c, last), GroupTargets(c, last));
    if q < |front| {
      GroupDecision(num, c, front, q, k);
    } else {
      OwnDecision(GroupIds(num, c, last), GroupTargets(c, last), k);
    }
    DecisionsConcat(DecisionsIn(num, c, front), own, GroupIds(num, c, groups[q])[k]);
  }

  lemma KnownDecision(num: Numerals, p: Parsed, c: Comparison, q: nat, k: nat)
    requires q < |GroupsOf(num, p, c)| && k < |GroupIds(num, c, GroupsOf(num, p, c)[q])|
    ensures var ids := GroupIds(num, c, GroupsOf(num, p, c)[q]);
            && FirstTarget(AllDecisions(num, p), ids[k]).Some?
            && (k + 1 < |ids| ==> FirstNext(AllDecisions(num, p), ids[k]).Some?)
  {
    var id := GroupIds(num, c, GroupsOf(num, p, c)[q])[k];
    GroupDecision(num, c, GroupsOf(num, p, c), q, k);
    DecisionsConcat(DecisionsIn(num, Greater, GroupsOf(num, p, Greater)),
                    DecisionsIn(num, Less, GroupsOf(num, p, Less)), id);
  }

  lemma FollowSections(num: Numerals, p: Parsed, id: string, caption: Option<string>)
    requires caption == YES || caption == NO
    ensures Follow(Build(num, p).edges, id, caption)
         == OrElse(Follow(PipelineEdges(p.pipeline), id, caption),
                   OrElse(if caption == YES then FirstTarget(AllDecisions(num, p), id)
                          else FirstNext(AllDecisions(num, p), id),
                          OrElse(Follow(ConditionEdges(PlainConditions(num, p.conditionals)), id, caption),
                                 Follow(MatchEdges(ArmGroups(p.arms)), id, caption))))
  {
    var pipes, conds := PipelineEdges(p.pipeline), ConditionEdges(PlainConditions(num, p.conditionals));
    var gt := Chains(num.show, Greater, GroupsOf(num, p, Greater));
    var lt := Chains(num.show, Less, GroupsOf(num, p, Less));
    BuildEdges(num, p);
    FollowConcat(pipes + gt + lt + conds, MatchEdges(ArmGroups(p.arms)), id, caption);
    FollowConcat(pipes + gt + lt, conds, id, caption);
    FollowConcat(pipes + gt, lt, id, caption);
    FollowConcat(pipes, gt, id, caption);
    FollowChains(num, Greater, GroupsOf(num, p, Greater), id);
    FollowChains(num, Less, GroupsOf(num, p, Less), id);
    DecisionsConcat(DecisionsIn(num, Greater, GroupsOf(num, p, Greater)),
                    DecisionsIn(num, Less, GroupsOf(num, p, Less)), id);
  }

  /** The first true edge at an id is that of the first decision with the id, whatever comes later. */
  lemma FollowTrue(num: Numerals, p: Parsed, id: string)
    requires FirstTarget(AllDecisions(num, p), id).Some?
    ensures Follow(Build(num, p).edges, id, YES) == FirstTarget(AllDecisions(num, p), id)
  {
    FollowSections(num, p, id, YES);
    FollowPipelines(p.pipeline, id, YES);
  }

  lemma FalseArmsGrouped(arms: seq<Arm>, id: string)
    ensures HasFalseArm(arms, id) <==> FalseTarget(ArmGroups(arms), id).Some?
  {
    FalseTargetKnown(ArmGroups(arms), id);
    if a :| a in arms && a.arm == "false" && MatchId(a.expr) == id {
      ArmsGrouped(arms, a.expr, a);
    }
    if g, a :| g in ArmGroups(arms) && a in g.items && a.arm == "false" && MatchId(g.key) == id {
      ArmsGrouped(arms, g.key, a);
    }
  }

  /** The first false edge at an id is that of the first decision with a successor, else that of a "false" arm. */
  lemma FollowFalse(num: Numerals, p: Parsed, id: string)
    ensures Follow(Build(num, p).edges, id, NO) == NextOn(num, p)(id)
    ensures FalseTarget(ArmGroups(p.arms), id).Some? <==> HasFalseArm(p.arms, id)
  {
    FollowSections(num, p, id, NO);
    FollowPipelines(p.pipeline, id, NO);
    FollowConditions(PlainConditions(num, p.conditionals), id);
    FollowMatches(ArmGroups(p.arms), id);
    FalseArmsGrouped(p.arms, id);
  }

  // ---------------------------------------------------------------------------------------------
  // The theorems
  // ---------------------------------------------------------------------------------------------

  lemma GroupShape(num: Numerals, p: Parsed, c: Comparison, q: nat)
    requires q < |GroupsOf(num, p, c)|
    ensures var g := GroupsOf(num, p, c)[q];
            var ids, ts := GroupIds(num, c, g), Arranged(c, g.items);
            && g.items == ThresholdsOn(num, c, p.conditionals, g.key)
            && |ids| == |ts| == |g.items| && ids != []
            && Sorted(Tighter(c), ts) && OneEach(ids, ts)
  {
    var groups := GroupsOf(num, p, c);
    ThresholdGroupsExact(num, c, p.conditionals, groups[q].key);
    ItemsOfGroup(groups, q);
    SortLength(c, groups[q].items);
  }

  lemma ComesFirstIff(num: Numerals, p: Parsed, ids: seq<string>, targets: seq<string>, k: nat)
    requires k < |ids| == |targets|
    requires FirstTarget(AllDecisions(num, p), ids[k]).Some?
    requires k + 1 < |ids| ==> FirstNext(AllDecisions(num, p), ids[k]).Some?
    ensures ComesFirst(AllDecisions(num, p), p.arms, ids, targets, k)
       <==> (Follow(Build(num, p).edges, ids[k], YES) == Some(targets[k])
             && Follow(Build(num, p).edges, ids[k], NO) == NextOf(ids, k))
  {
    FollowTrue(num, p, ids[k]);
    FollowFalse(num, p, ids[k]);
  }

  /** A group is undisturbed iff its own edges are found first at each of its decisions. */
  lemma UndisturbedIsChainIn(num: Numerals, p: Parsed, c: Comparison, q: nat)
    requires q < |GroupsOf(num, p, c)|
    ensures var g := GroupsOf(num, p, c)[q];
            && |GroupIds(num, c, g)| == |GroupTargets(c, g)|
            && (ChainIn(Build(num, p).edges, GroupIds(num, c, g), GroupTargets(c, g)) <==> Undisturbed(num, p, c, g))
  {
    var g := GroupsOf(num, p, c)[q];
    var ids, targets, edges := GroupIds(num, c, g), GroupTargets(c, g), Build(num, p).edges;
    GroupShape(num, p, c, q);
    forall k | 0 <= k < |ids|
      ensures ComesFirst(AllDecisions(num, p), p.arms, ids, targets, k)
         <==> Follow(edges, ids[k], YES) == Some(targets[k]) && Follow(edges, ids[k], NO) == NextOf(ids, k)
    {
      KnownDecision(num, p, c, q, k);
      ComesFirstIff(num, p, ids, targets, k);
    }
  }

  /**
   In the whole diagram the walk from a group's first decision asks the group's decisions in turn and
   ends as its lines say, on every value, iff no line disturbs the group.
   */
  lemma DiagramInTurnExactly(num: Numerals, p: Parsed, c: Comparison, q: nat)
    requires q < |GroupsOf(num, p, c)|
    ensures var g := GroupsOf(num, p, c)[q];
            && |GroupIds(num, c, g)| == |Arranged(c, g.items)| && GroupIds(num, c, g) != []
            && (AlwaysInTurn(Build(num, p).edges, GroupIds(num, c, g), Arranged(c, g.items), c)
                <==> Undisturbed(num, p, c, g))
  {
    var g := GroupsOf(num, p, c)[q];
    GroupShape(num, p, c, q);
    UndisturbedIsChainIn(num, p, c, q);
    InTurnExactly(Build(num, p).edges, GroupIds(num, c, g), Arranged(c, g.items), c);
  }

  /** The outcome of an undisturbed group's walk is what the source lines on its expression mean. */
  lemma DiagramMeansItsLines(num: Numerals, p: Parsed, c: Comparison, q: nat, v: real, fuel: nat)
    requires q < |GroupsOf(num, p, c)| && Undisturbed(num, p, c, GroupsOf(num, p, c)[q])
    requires fuel >= |GroupsOf(num, p, c)[q].items|
    ensures var g := GroupsOf(num, p, c)[q];
            var ids, ts := GroupIds(num, c, g), Arranged(c, g.items);
            && g.items == ThresholdsOn(num, c, p.conditionals, g.key)
            && |ids| == |ts| && ids != []
            && Means(c, v, g.items, Walk(Build(num, p).edges, TestOf(ids, ts, c, v), ids[0], fuel))
  {
    var g := GroupsOf(num, p, c)[q];
    GroupShape(num, p, c, q);
    DiagramInTurnExactly(num, p, c, q);
    assert TakesInTurn(Build(num, p).edges, GroupIds(num, c, g), Arranged(c, g.items), c, v, fuel);
    FirstHoldingMeans(c, v, Arranged(c, g.items));
    MeansOfArranged(c, v, g.items, FirstHolding(c, v, Arranged(c, g.items)));
  }

  lemma LinksDescribed(num: Numerals, p: Parsed, c: Comparison, q: nat)
    requires q < |GroupsOf(num, p, c)|
    ensures Describes(Build(num, p).edges, GroupIds(num, c, GroupsOf(num, p, c)[q]), NextOn(num, p), AimOn(num, p))
  {
    var ids := GroupIds(num, c, GroupsOf(num, p, c)[q]);
    forall id
      ensures Follow(Build(num, p).edges, id, NO) == NextOn(num, p)(id)
    {
      FollowFalse(num, p, id);
    }
    forall id | id in ids
      ensures Follow(Build(num, p).edges, id, YES) == AimOn(num, p)(id)
    {
      var k :| 0 <= k < |ids| && ids[k] == id;
      KnownDecision(num, p, c, q, k);
      FollowTrue(num, p, id);
    }
  }

  /**
   From the group's first decision the walk ends as the group's lines say, on every value. Where it comes to a
   decision of another group, that one is taken not to hold.
   */
  ghost predicate DiagramMeans(num: Numerals, p: Parsed, c: Comparison, g: Group<Threshold>, steps: nat) {
    var ids, ts := GroupIds(num, c, g), Arranged(c, g.items);
    && |ids| == |ts| && ids != []
    && forall v, fuel: nat | fuel >= steps ::
         Means(c, v, g.items, Walk(Build(num, p).edges, TestOf(ids, ts, c, v), ids[0], fuel))
  }

  /** The lines of the group are led to their targets and the false edges end, in the whole diagram. */
  ghost predicate RightlyLinkedIn(num: Numerals, p: Parsed, c: Comparison, g: Group<Threshold>, steps: nat) {
    var ids, ts := GroupIds(num, c, g), Arranged(c, g.items);
    && |ids| == |ts| && ids != []
    && RightlyLinked(NextOn(num, p), AimOn(num, p), ids, ts, c, steps)
  }

  lemma DiagramMeansAlways(num: Numerals, p: Parsed, c: Comparison, q: nat, steps: nat)
    requires q < |GroupsOf(num, p, c)|
    ensures var g := GroupsOf(num, p, c)[q];
            var ids, ts := GroupIds(num, c, g), Arranged(c, g.items);
            && |ids| == |ts| && ids != []
            && (DiagramMeans(num, p, c, g, steps) <==> MeansAlways(Build(num, p).edges, ids, ts, c, steps))
  {
    var g := GroupsOf(num, p, c)[q];
    var ids, ts := GroupIds(num, c, g), Arranged(c, g.items);
    GroupShape(num, p, c, q);
    forall v, fuel: nat
      ensures Means(c, v, g.items, Walk(Build(num, p).edges, TestOf(ids, ts, c, v), ids[0], fuel))
         <==> Means(c, v, ts, Walk(Build(num, p).edges, TestOf(ids, ts, c, v), ids[0], fuel))
    {
      MeansOfArranged(c, v, g.items, Walk(Build(num, p).edges, TestOf(ids, ts, c, v), ids[0], fuel));
    }
  }

  /**
   In the whole diagram the walk from a group's first decision ends as the group's lines say, on every value
   and with any number of steps from `steps` on, iff within so many steps the false edges end and each line's
   threshold is led to a target that a line with this threshold asks for.
   */
  lemma DiagramMeansExactly(num: Numerals, p: Parsed, c: Comparison, q: nat, steps: nat)
    requires q < |GroupsOf(num, p, c)|
    ensures DiagramMeans(num, p, c, GroupsOf(num, p, c)[q], steps)
       <==> RightlyLinkedIn(num, p, c, GroupsOf(num, p, c)[q], steps)
  {
    var g := GroupsOf(num, p, c)[q];
    DiagramMeansAlways(num, p, c, q, steps);
    LinksDescribed(num, p, c, q);
    MeansExactly(Build(num, p).edges, NextOn(num, p), AimOn(num, p), GroupIds(num, c, g), Arranged(c, g.items), c,
                 steps);
  }

  /** Some number of steps is enough on every value iff the links are right within as many steps as there are edges. */
  lemma DiagramMeansEventuallyExactly(num: Numerals, p: Parsed, c: Comparison, q: nat)
    requires q < |GroupsOf(num, p, c)|
    ensures (exists steps: nat :: DiagramMeans(num, p, c, GroupsOf(num, p, c)[q], steps))
       <==> RightlyLinkedIn(num, p, c, GroupsOf(num, p, c)[q], |Build(num, p).edges| + 1)
  {
    var g := GroupsOf(num, p, c)[q];
    var ids, ts, edges := GroupIds(num, c, g), Arranged(c, g.items), Build(num, p).edges;
    forall steps: nat
      ensures |ids| == |ts| && ids != []
      ensures DiagramMeans(num, p, c, g, steps) <==> MeansAlways(edges, ids, ts, c, steps)
    {
      DiagramMeansAlways(num, p, c, q, steps);
    }
    GroupShape(num, p, c, q);
    LinksDescribed(num, p, c, q);
    MeansEventuallyExactly(edges, NextOn(num, p), AimOn(num, p), ids, ts, c);
  }

  /** On a value just past one line's threshold the walk ends right iff this threshold is led to such a target. */
  lemma LineMeansExactly(num: Numerals, p: Parsed, c: Comparison, q: nat, e: Threshold, fuel: nat)
    requires q < |GroupsOf(num, p, c)| && e in GroupsOf(num, p, c)[q].items
    ensures var g := GroupsOf(num, p, c)[q];
            var ids, ts := GroupIds(num, c, g), Arranged(c, g.items);
            && |ids| == |ts| && ids != []
            && (Means(c, JustPast(c, ts, e.value), g.items,
                      Walk(Build(num, p).edges, TestOf(ids, ts, c, JustPast(c, ts, e.value)), ids[0], fuel))
                <==> LeadsRight(NextOn(num, p), AimOn(num, p), ids, ts, c, e.value, fuel))
  {
    var g := GroupsOf(num, p, c)[q];
    var ids, ts, edges := GroupIds(num, c, g), Arranged(c, g.items), Build(num, p).edges;
    GroupShape(num, p, c, q);
    LinksDescribed(num, p, c, q);
    SameElements(g.items, ts);
    var v := JustPast(c, ts, e.value);
    WalkOn(edges, NextOn(num, p), AimOn(num, p), ids, ts, c, v, e, fuel);
    MeansOfArranged(c, v, g.items, Walk(edges, TestOf(ids, ts, c, v), ids[0], fuel));
  }

  // ---------------------------------------------------------------------------------------------
  // Lines that do not disturb, and lines that do
  // ---------------------------------------------------------------------------------------------

  lemma {:induction false} NotAmong(ids: seq<string>, targets: seq<string>, id: string)
    requires |ids| == |targets| && id !in ids
    ensures FirstTarget(DecisionsOf(ids, targets), id) == None && FirstNext(DecisionsOf(ids, targets), id) == None
  {
    if ids != [] {
      assert ids[0] in ids && forall x | x in ids[1..] :: x in ids;
      NotAmong(ids[1..], targets[1..], id);
    }
  }

  /** An id that at most the group at `q` uses leads where that group says, and nowhere when there is no such group. */
  lemma {:induction false} OnlyGroup(num: Numerals, c: Comparison, groups: seq<Group<Threshold>>, q: int, id: string)
    requires forall j | 0 <= j < |groups| && j != q :: id !in GroupIds(num, c, groups[j])
    ensures var ds := DecisionsIn(num, c, groups);
            if 0 <= q < |groups| then
              var own := DecisionsOf(GroupIds(num, c, groups[q]), GroupTargets(c, groups[q]));
              FirstTarget(ds, id) == FirstTarget(own, id) && FirstNext(ds, id) == FirstNext(own, id)
            else FirstTarget(ds, id) == None && FirstNext(ds, id) == None
  {
    if groups != [] {
      var n := |groups| - 1;
      var front := groups[..n];
      var own := DecisionsOf(GroupIds(num, c, groups[n]), GroupTargets(c, groups[n]));
      forall j | 0 <= j < |front| && j != q
        ensures id !in GroupIds(num, c, front[j])
      {
        assert front[j] == groups[j];
      }
      OnlyGroup(num, c, front, q, id);
      DecisionsConcat(DecisionsIn(num, c, front), own, id);
      assert DecisionsIn(num, c, groups) == DecisionsIn(num, c, front) + own;
      assert 0 <= q < n ==> front[q] == groups[q];
      if q != n {
        NotAmong(GroupIds(num, c, groups[n]), GroupTargets(c, groups[n]), id);
      }
    }
  }

  /** No other group makes a decision with this id. */
  ghost predicate OnlyHere(num: Numerals, p: Parsed, c: Comparison, q: nat, id: string) {
    forall d, j | 0 <= j < |GroupsOf(num, p, d)| && (d != c || j != q) ::
        id !in GroupIds(num, d, GroupsOf(num, p, d)[j])
  }

  lemma OwnFirst(num: Numerals, p: Parsed, c: Comparison, q: nat, id: string)
    requires q < |GroupsOf(num, p, c)| && OnlyHere(num, p, c, q, id)
    ensures var g := GroupsOf(num, p, c)[q];
            var own := DecisionsOf(GroupIds(num, c, g), GroupTargets(c, g));
            && FirstTarget(AllDecisions(num, p), id) == FirstTarget(own, id)
            && FirstNext(AllDecisions(num, p), id) == FirstNext(own, id)
  {
    var gts, lts := GroupsOf(num, p, Greater), GroupsOf(num, p, Less);
    var here, there := if c == Greater then q else -1, if c == Less then q else -1;
    assert forall j | 0 <= j < |gts| && j != here :: id !in GroupIds(num, Greater, gts[j]);
    assert forall j | 0 <= j < |lts| && j != there :: id !in GroupIds(num, Less, lts[j]);
    OnlyGroup(num, Greater, gts, here, id);
    OnlyGroup(num, Less, lts, there, id);
    DecisionsConcat(DecisionsIn(num, Greater, gts), DecisionsIn(num, Less, lts), id);
  }

  /**
   Pipelines, plain conditions and match arms other than "false" never disturb a group, and other
   groups only do when they share a decision id with it.
   */
  lemma UnsharedIsUndisturbed(num: Numerals, p: Parsed, c: Comparison, q: nat)
    requires q < |GroupsOf(num, p, c)|
    requires Distinct(GroupIds(num, c, GroupsOf(num, p, c)[q]))
    requires forall id | id in GroupIds(num, c, GroupsOf(num, p, c)[q]) ::
               OnlyHere(num, p, c, q, id) && !HasFalseArm(p.arms, id)
    ensures Undisturbed(num, p, c, GroupsOf(num, p, c)[q])
  {
    var g := GroupsOf(num, p, c)[q];
    var ids, targets := GroupIds(num, c, g), GroupTargets(c, g);
    forall k | 0 <= k < |ids|
      ensures ComesFirst(AllDecisions(num, p), p.arms, ids, targets, k)
    {
      assert ids[k] in ids;
      OwnFirst(num, p, c, q, ids[k]);
      FollowChain(ids, targets, k);
      FollowChainDecisions(ids, targets, ids[k]);
    }
  }
}
