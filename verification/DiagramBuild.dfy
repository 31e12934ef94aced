/**
 From parsed statements to the diagram graph: pipelines, threshold chains, other conditions and
 match arms, in that order.
 */
module DiagramBuild {
  import opened Results
  import opened Keyed
  import opened DiagramText
  import opened DiagramValues
  import opened ThresholdChains

  /** How the language reads a number (nothing when not finite) and writes one. */
  datatype Numerals = Numerals(read: string -> Option<real>, show: real -> string)

  /** Items under one key. A list of groups stands for a map in order of insertion. */
  datatype Group<T> = Group(key: string, items: seq<T>)

  function Put<T>(groups: seq<Group<T>>, key: string, item: T): seq<Group<T>> {
    if groups == [] then [Group(key, [item])]
    else if groups[0].key == key then [Group(key, groups[0].items + [item])] + groups[1..]
    else [groups[0]] + Put(groups[1..], key, item)
  }

  function Total<T>(groups: seq<Group<T>>): nat {
    if groups == [] then 0 else |groups[0].items| + Total(groups[1..])
  }

  /** The items under a key, in order of insertion. */
  function ItemsOf<T>(groups: seq<Group<T>>, key: string): seq<T> {
    if groups == [] then [] else if groups[0].key == key then groups[0].items else ItemsOf(groups[1..], key)
  }

  function KeysOf<T>(groups: seq<Group<T>>): seq<string> {
    seq(|groups|, i requires 0 <= i < |groups| => groups[i].key)
  }

  ghost predicate Grouped<T>(groups: seq<Group<T>>) {
    Distinct(KeysOf(groups)) && forall i | 0 <= i < |groups| :: groups[i].items != []
  }

  lemma {:induction false} PutCounts<T>(groups: seq<Group<T>>, key: string, item: T)
    ensures Total(Put(groups, key, item)) == Total(groups) + 1
  {
    if groups != [] && groups[0].key != key {
      PutCounts(groups[1..], key, item);
    }
  }

  lemma {:induction false} PutItems<T>(groups: seq<Group<T>>, key: string, item: T, k: string)
    ensures ItemsOf(Put(groups, key, item), k) == ItemsOf(groups, k) + if k == key then [item] else []
  {
    if groups != [] && groups[0].key != key {
      PutItems(groups[1..], key, item, k);
    }
  }

  lemma {:induction false} PutKeys<T>(groups: seq<Group<T>>, key: string, item: T)
    ensures KeysOf(Put(groups, key, item)) == KeysOf(groups) + if key in KeysOf(groups) then [] else [key]
  {
    if groups == [] {
    } else {
      assert KeysOf(groups) == [groups[0].key] + KeysOf(groups[1..]);
      if groups[0].key != key {
        PutKeys(groups[1..], key, item);
        var rest := Put(groups[1..], key, item);
        assert KeysOf([groups[0]] + rest) == [groups[0].key] + KeysOf(rest);
      }
    }
  }

  lemma {:induction false} PutFilled<T>(groups: seq<Group<T>>, key: string, item: T)
    requires forall i | 0 <= i < |groups| :: groups[i].items != []
    ensures forall i | 0 <= i < |Put(groups, key, item)| :: Put(groups, key, item)[i].items != []
  {
    if groups != [] && groups[0].key != key {
      PutFilled(groups[1..], key, item);
    }
  }

  lemma PutGrouped<T>(groups: seq<Group<T>>, key: string, item: T)
    requires Grouped(groups)
    ensures Grouped(Put(groups, key, item))
  {
    PutKeys(groups, key, item);
    PutFilled(groups, key, item);
  }

  // ---------------------------------------------------------------------------------------------
  // The four parts
  // ---------------------------------------------------------------------------------------------

  function AddPipelines(g: Graph, ps: seq<(string, string)>): Graph {
    if ps == [] then g
    else
      var (n, t) := ps[|ps| - 1];
      AddLinked(AddPipelines(g, ps[..|ps| - 1]), Plain(SanitizeId(n), n, StepNode), Plain(SanitizeId(t), t, StepNode),
                Link(SanitizeId(n), SanitizeId(t), None))
  }

  predicate IsThreshold(num: Numerals, c: Comparison, cond: Condition) {
    cond.op == OpText(c) && num.read(cond.rhs).Some?
  }

  function ThresholdGroups(num: Numerals, c: Comparison, conds: seq<Condition>): seq<Group<Threshold>> {
    if conds == [] then []
    else
      var front, last := ThresholdGroups(num, c, conds[..|conds| - 1]), conds[|conds| - 1];
      if !IsThreshold(num, c, last) then front
      else Put(front, last.lhs, Threshold(num.read(last.rhs).value, last.target))
  }

  function PlainConditions(num: Numerals, conds: seq<Condition>): seq<Condition> {
    if conds == [] then []
    else
      var last := conds[|conds| - 1];
      PlainConditions(num, conds[..|conds| - 1])
      + if IsThreshold(num, Greater, last) || IsThreshold(num, Less, last) then [] else [last]
  }

  function Caption(show: real -> string, lhs: string, c: Comparison, value: real): string {
    lhs + " " + OpText(c) + " " + show(value)
  }

  /** One decision: its node, its target, the true edge, and the false edge to the next decision if any. */
  function EmitOne(g: Graph, show: real -> string, lhs: string, c: Comparison, ts: seq<Threshold>): Graph
    requires ts != []
  {
    var id, targetId := DecisionId(show, lhs, c, ts[0].value), SanitizeId(ts[0].target);
    var decided := AddLinked(g, Plain(id, Caption(show, lhs, c, ts[0].value), DecisionNode),
                             Plain(targetId, ts[0].target, StepNode), Link(id, targetId, YES));
    if |ts| > 1 then AddEdge(decided, Link(id, DecisionId(show, lhs, c, ts[1].value), NO)) else decided
  }

  function EmitChain(g: Graph, show: real -> string, lhs: string, c: Comparison, ts: seq<Threshold>): Graph
    decreases |ts|
  {
    if ts == [] then g else EmitChain(EmitOne(g, show, lhs, c, ts), show, lhs, c, ts[1..])
  }

  function AddChains(g: Graph, show: real -> string, c: Comparison, groups: seq<Group<Threshold>>): Graph {
    if groups == [] then g
    else
      var last := groups[|groups| - 1];
      EmitChain(AddChains(g, show, c, groups[..|groups| - 1]), show, last.key, c, Arranged(c, last.items))
  }

  function AddCondition(g: Graph, cond: Condition): Graph {
    var targetId := SanitizeId(cond.target);
    if cond.op == "" then
      AddLinked(g, Plain(cond.lhs, cond.lhs, DecisionNode), Plain(targetId, cond.target, StepNode),
                Link(cond.lhs, targetId, None))
    else
      var caption := Written(cond.lhs, cond.op, cond.rhs);
      AddLinked(g, Plain(SanitizeId(caption), caption, DecisionNode), Plain(targetId, cond.target, StepNode),
                Link(SanitizeId(caption), targetId, YES))
  }

  function AddConditions(g: Graph, conds: seq<Condition>): Graph {
    if conds == [] then g else AddCondition(AddConditions(g, conds[..|conds| - 1]), conds[|conds| - 1])
  }

  function ArmGroups(arms: seq<Arm>): seq<Group<Arm>> {
    if arms == [] then []
    else
      var last := arms[|arms| - 1];
      Put(ArmGroups(arms[..|arms| - 1]), last.expr, last)
  }

  predicate IsDefaultArm(arm: string) {
    arm == "_" || arm == "else" || arm == "otherwise" || arm == "default"
  }

  function AddArms(g: Graph, matchId: string, arms: seq<Arm>): Graph {
    if arms == [] then g
    else
      var i := |arms| - 1;
      var (last, targetId) := (arms[i], SanitizeId(arms[i].target));
      AddEdge(AddNode(AddArms(g, matchId, arms[..i]),
                      Node(targetId, last.target, StepNode, Some(i), IsDefaultArm(last.arm))),
              Edge(matchId, targetId, Some(last.arm), Some(i), IsDefaultArm(last.arm)))
  }

  function MatchId(expr: string): string { "match_" + SanitizeId(expr) }

  function AddMatch(g: Graph, group: Group<Arm>): Graph {
    var id := MatchId(group.key);
    AddArms(AddNode(g, Plain(id, "match " + group.key, MatchNode)), id, group.items)
  }

  function AddMatches(g: Graph, groups: seq<Group<Arm>>): Graph {
    if groups == [] then g else AddMatch(AddMatches(g, groups[..|groups| - 1]), groups[|groups| - 1])
  }

  function Build(num: Numerals, p: Parsed): Graph {
    var piped := AddPipelines(EMPTY, p.pipeline);
    var above := AddChains(piped, num.show, Greater, ThresholdGroups(num, Greater, p.conditionals));
    var below := AddChains(above, num.show, Less, ThresholdGroups(num, Less, p.conditionals));
    AddMatches(AddConditions(below, PlainConditions(num, p.conditionals)), ArmGroups(p.arms))
  }

  // ---------------------------------------------------------------------------------------------
  // The graph is well formed
  // ---------------------------------------------------------------------------------------------

  /** Valid, but for edges to the decision that is emitted next. */
  ghost predicate ValidBut(g: Graph, pending: string) {
    && (forall i, j | 0 <= i < j < |g.order| :: g.order[i] != g.order[j])
    && (forall id :: id in g.order <==> id in g.nodes)
    && (forall id | id in g.nodes :: g.nodes[id].id == id)
    && (forall e | e in g.edges :: e.from in g.nodes && (e.to in g.nodes || e.to == pending))
  }

  lemma EmitOneValid(g: Graph, show: real -> string, lhs: string, c: Comparison, ts: seq<Threshold>)
    requires ts != [] && ValidBut(g, DecisionId(show, lhs, c, ts[0].value))
    ensures var r := EmitOne(g, show, lhs, c, ts);
            if |ts| == 1 then Valid(r) else ValidBut(r, DecisionId(show, lhs, c, ts[1].value))
  {
    var id, targetId := DecisionId(show, lhs, c, ts[0].value), SanitizeId(ts[0].target);
    var decision := Plain(id, Caption(show, lhs, c, ts[0].value), DecisionNode);
    var target := Plain(targetId, ts[0].target, StepNode);
    var first := AddNode(g, decision);
    assert Valid(first) && AddNode(first, decision) == first;
    AddLinkedValid(first, decision, target, Link(id, targetId, YES));
    assert AddLinked(first, decision, target, Link(id, targetId, YES))
        == AddLinked(g, decision, target, Link(id, targetId, YES));
  }

  lemma {:induction false} EmitChainValid(g: Graph, show: real -> string, lhs: string, c: Comparison,
                                          ts: seq<Threshold>)
    requires ts == [] ==> Valid(g)
    requires ts != [] ==> ValidBut(g, DecisionId(show, lhs, c, ts[0].value))
    ensures Valid(EmitChain(g, show, lhs, c, ts))
    decreases |ts|
  {
    if ts != [] {
      EmitOneValid(g, show, lhs, c, ts);
      EmitChainValid(EmitOne(g, show, lhs, c, ts), show, lhs, c, ts[1..]);
    }
  }

  lemma {:induction false} AddPipelinesValid(g: Graph, ps: seq<(string, string)>)
    requires Valid(g)
    ensures Valid(AddPipelines(g, ps))
  {
    if ps != [] {
      var (n, t) := ps[|ps| - 1];
      AddPipelinesValid(g, ps[..|ps| - 1]);
      AddLinkedValid(AddPipelines(g, ps[..|ps| - 1]),
                     Plain(SanitizeId(n), n, StepNode), Plain(SanitizeId(t), t, StepNode),
                     Link(SanitizeId(n), SanitizeId(t), None));
    }
  }

  lemma {:induction false} AddChainsValid(g: Graph, show: real -> string, c: Comparison, groups: seq<Group<Threshold>>)
    requires Valid(g)
    ensures Valid(AddChains(g, show, c, groups))
  {
    if groups != [] {
      var last := groups[|groups| - 1];
      AddChainsValid(g, show, c, groups[..|groups| - 1]);
      EmitChainValid(AddChains(g, show, c, groups[..|groups| - 1]), show, last.key, c, Arranged(c, last.items));
    }
  }

  lemma AddConditionValid(g: Graph, cond: Condition)
    requires Valid(g)
    ensures Valid(AddCondition(g, cond))
  {
    var targetId, caption := SanitizeId(cond.target), Written(cond.lhs, cond.op, cond.rhs);
    var target := Plain(targetId, cond.target, StepNode);
    AddLinkedValid(g, Plain(cond.lhs, cond.lhs, DecisionNode), target, Link(cond.lhs, targetId, None));
    AddLinkedValid(g, Plain(SanitizeId(caption), caption, DecisionNode), target,
                   Link(SanitizeId(caption), targetId, YES));
  }

  lemma {:induction false} AddConditionsValid(g: Graph, conds: seq<Condition>)
    requires Valid(g)
    ensures Valid(AddConditions(g, conds))
  {
    if conds != [] {
      AddConditionsValid(g, conds[..|conds| - 1]);
      AddConditionValid(AddConditions(g, conds[..|conds| - 1]), conds[|conds| - 1]);
    }
  }

  lemma {:induction false} AddArmsValid(g: Graph, matchId: string, arms: seq<Arm>)
    requires Valid(g) && matchId in g.nodes
    ensures Valid(AddArms(g, matchId, arms)) && matchId in AddArms(g, matchId, arms).nodes
  {
    if arms != [] {
      var i := |arms| - 1;
      var before := AddArms(g, matchId, arms[..i]);
      AddArmsValid(g, matchId, arms[..i]);
      AddNodeValid(before, Node(SanitizeId(arms[i].target), arms[i].target, StepNode, Some(i),
                                IsDefaultArm(arms[i].arm)));
    }
  }

  lemma {:induction false} AddMatchesValid(g: Graph, groups: seq<Group<Arm>>)
    requires Valid(g)
    ensures Valid(AddMatches(g, groups))
  {
    if groups != [] {
      var last := groups[|groups| - 1];
      var before := AddMatches(g, groups[..|groups| - 1]);
      var node := Plain(MatchId(last.key), "match " + last.key, MatchNode);
      AddMatchesValid(g, groups[..|groups| - 1]);
      AddNodeValid(before, node);
      AddArmsValid(AddNode(before, node), node.id, last.items);
    }
  }

  /** The parsed graph lists every node once and has no dangling edge. */
  lemma BuildValid(num: Numerals, p: Parsed)
    ensures Valid(Build(num, p))
  {
    var piped := AddPipelines(EMPTY, p.pipeline);
    var gts, lts := ThresholdGroups(num, Greater, p.conditionals), ThresholdGroups(num, Less, p.conditionals);
    var above := AddChains(piped, num.show, Greater, gts);
    var below := AddChains(above, num.show, Less, lts);
    AddPipelinesValid(EMPTY, p.pipeline);
    AddChainsValid(piped, num.show, Greater, gts);
    AddChainsValid(above, num.show, Less, lts);
    AddConditionsValid(below, PlainConditions(num, p.conditionals));
    AddMatchesValid(AddConditions(below, PlainConditions(num, p.conditionals)), ArmGroups(p.arms));
  }

  // ---------------------------------------------------------------------------------------------
  // The edges
  // ---------------------------------------------------------------------------------------------

  lemma EmitOneEdges(g: Graph, show: real -> string, lhs: string, c: Comparison, ts: seq<Threshold>)
    requires ts != []
    ensures var ids, targets := Ids(show, lhs, c, ts), Targets(ts);
            EmitOne(g, show, lhs, c, ts).edges
              == g.edges + ([Link(ids[0], targets[0], YES)] + (if |ids| > 1 then [Link(ids[0], ids[1], NO)] else []))
  {
  }

  lemma TailsOf(show: real -> string, lhs: string, c: Comparison, ts: seq<Threshold>)
    requires ts != []
    ensures Ids(show, lhs, c, ts)[1..] == Ids(show, lhs, c, ts[1..])
    ensures Targets(ts)[1..] == Targets(ts[1..])
  {
  }

  lemma ConcatAssociative<T>(a: seq<T>, b: seq<T>, c: seq<T>)
    ensures a + b + c == a + (b + c)
  {
  }

  /** The edges of a chain are those of `ChainEdges`, after what was there. */
  lemma {:induction false} EmitChainEdges(g: Graph, show: real -> string, lhs: string, c: Comparison,
                                          ts: seq<Threshold>)
    ensures EmitChain(g, show, lhs, c, ts).edges == g.edges + ChainEdges(Ids(show, lhs, c, ts), Targets(ts))
    decreases |ts|
  {
    if ts != [] {
      var ids, targets := Ids(show, lhs, c, ts), Targets(ts);
      var here := [Link(ids[0], targets[0], YES)] + (if |ids| > 1 then [Link(ids[0], ids[1], NO)] else []);
      EmitOneEdges(g, show, lhs, c, ts);
      EmitChainEdges(EmitOne(g, show, lhs, c, ts), show, lhs, c, ts[1..]);
      TailsOf(show, lhs, c, ts);
      ConcatAssociative(g.edges, here, ChainEdges(ids[1..], targets[1..]));
    }
  }

  function ChainOf(show: real -> string, c: Comparison, group: Group<Threshold>): seq<Edge> {
    var ts := Arranged(c, group.items);
    ChainEdges(Ids(show, group.key, c, ts), Targets(ts))
  }

  function Chains(show: real -> string, c: Comparison, groups: seq<Group<Threshold>>): seq<Edge> {
    if groups == [] then [] else Chains(show, c, groups[..|groups| - 1]) + ChainOf(show, c, groups[|groups| - 1])
  }

  lemma {:induction false} AddChainsEdges(g: Graph, show: real -> string, c: Comparison, groups: seq<Group<Threshold>>)
    ensures AddChains(g, show, c, groups).edges == g.edges + Chains(show, c, groups)
  {
    if groups != [] {
      var front, last := groups[..|groups| - 1], groups[|groups| - 1];
      AddChainsEdges(g, show, c, front);
      EmitChainEdges(AddChains(g, show, c, front), show, last.key, c, Arranged(c, last.items));
      ConcatAssociative(g.edges, Chains(show, c, front), ChainOf(show, c, last));
    }
  }

  lemma {:induction false} ChainLength(ids: seq<string>, targets: seq<string>)
    requires |ids| == |targets|
    ensures |ChainEdges(ids, targets)| == if ids == [] then 0 else 2 * |ids| - 1
  {
    if ids != [] {
      ChainLength(ids[1..], targets[1..]);
    }
  }

  /** Two edges per threshold, less one per group. */
  function ChainCount(groups: seq<Group<Threshold>>): int {
    if groups == [] then 0 else ChainCount(groups[..|groups| - 1]) + 2 * |groups[|groups| - 1].items| - 1
  }

  lemma {:induction false} ChainsLength(show: real -> string, c: Comparison, groups: seq<Group<Threshold>>)
    requires forall i | 0 <= i < |groups| :: groups[i].items != []
    ensures |Chains(show, c, groups)| == ChainCount(groups)
  {
    if groups != [] {
      var last := groups[|groups| - 1];
      ChainsLength(show, c, groups[..|groups| - 1]);
      SortLength(c, last.items);
      var ts := Arranged(c, last.items);
      ChainLength(Ids(show, last.key, c, ts), Targets(ts));
    }
  }

  function PipelineEdges(ps: seq<(string, string)>): seq<Edge> {
    seq(|ps|, i requires 0 <= i < |ps| => Link(SanitizeId(ps[i].0), SanitizeId(ps[i].1), None))
  }

  lemma {:induction false} AddPipelinesEdges(g: Graph, ps: seq<(string, string)>)
    ensures AddPipelines(g, ps).edges == g.edges + PipelineEdges(ps)
  {
    if ps != [] {
      var front, last := ps[..|ps| - 1], ps[|ps| - 1];
      AddPipelinesEdges(g, front);
      assert AddPipelines(g, ps).edges == AddPipelines(g, front).edges + [PipelineEdges(ps)[|ps| - 1]];
      assert PipelineEdges(ps) == PipelineEdges(front) + [PipelineEdges(ps)[|ps| - 1]];
    }
  }

  function ConditionEdge(cond: Condition): Edge {
    if cond.op == "" then Link(cond.lhs, SanitizeId(cond.target), None)
    else Link(SanitizeId(Written(cond.lhs, cond.op, cond.rhs)), SanitizeId(cond.target), YES)
  }

  function ConditionEdges(conds: seq<Condition>): seq<Edge> {
    seq(|conds|, i requires 0 <= i < |conds| => ConditionEdge(conds[i]))
  }

  lemma {:induction false} AddConditionsEdges(g: Graph, conds: seq<Condition>)
    ensures AddConditions(g, conds).edges == g.edges + ConditionEdges(conds)
  {
    if conds != [] {
      var front, last := conds[..|conds| - 1], conds[|conds| - 1];
      AddConditionsEdges(g, front);
      assert AddConditions(g, conds).edges == AddConditions(g, front).edges + [ConditionEdge(last)];
      assert ConditionEdges(conds) == ConditionEdges(front) + [ConditionEdge(last)];
    }
  }

  function ArmEdges(matchId: string, arms: seq<Arm>): seq<Edge> {
    seq(|arms|, i requires 0 <= i < |arms| =>
      Edge(matchId, SanitizeId(arms[i].target), Some(arms[i].arm), Some(i), IsDefaultArm(arms[i].arm)))
  }

  lemma {:induction false} AddArmsEdges(g: Graph, matchId: string, arms: seq<Arm>)
    ensures AddArms(g, matchId, arms).edges == g.edges + ArmEdges(matchId, arms)
  {
    if arms != [] {
      AddArmsEdges(g, matchId, arms[..|arms| - 1]);
    }
  }

  function MatchEdges(groups: seq<Group<Arm>>): seq<Edge> {
    if groups == [] then []
    else
      var last := groups[|groups| - 1];
      MatchEdges(groups[..|groups| - 1]) + ArmEdges(MatchId(last.key), last.items)
  }

  lemma {:induction false} TotalSnoc<T>(groups: seq<Group<T>>, last: Group<T>)
    ensures Total(groups + [last]) == Total(groups) + |last.items|
  {
    if groups == [] {
      assert groups + [last] == [last];
      assert [last][1..] == [];
    } else {
      assert (groups + [last])[1..] == groups[1..] + [last];
      TotalSnoc(groups[1..], last);
    }
  }

  lemma {:induction false} AddMatchesEdges(g: Graph, groups: seq<Group<Arm>>)
    ensures AddMatches(g, groups).edges == g.edges + MatchEdges(groups)
    ensures |MatchEdges(groups)| == Total(groups)
  {
    if groups != [] {
      var front, last := groups[..|groups| - 1], groups[|groups| - 1];
      var before := AddMatches(g, front);
      AddMatchesEdges(g, front);
      var withMatch := AddNode(before, Plain(MatchId(last.key), "match " + last.key, MatchNode));
      AddArmsEdges(withMatch, MatchId(last.key), last.items);
      ConcatAssociative(g.edges, MatchEdges(front), ArmEdges(MatchId(last.key), last.items));
      TotalSnoc(front, last);
      assert groups == front + [last];
    }
  }

  lemma {:induction false} ArmGroupsCount(arms: seq<Arm>)
    ensures Total(ArmGroups(arms)) == |arms|
  {
    if arms != [] {
      ArmGroupsCount(arms[..|arms| - 1]);
      PutCounts(ArmGroups(arms[..|arms| - 1]), arms[|arms| - 1].expr, arms[|arms| - 1]);
    }
  }

  function ThresholdsOn(num: Numerals, c: Comparison, conds: seq<Condition>, lhs: string): seq<Threshold> {
    if conds == [] then []
    else
      var last := conds[|conds| - 1];
      ThresholdsOn(num, c, conds[..|conds| - 1], lhs)
      + if IsThreshold(num, c, last) && last.lhs == lhs then [Threshold(num.read(last.rhs).value, last.target)] else []
  }

  /** Thresholds on an expression are exactly its numeric conditions under that operator, in source order. */
  lemma {:induction false} ThresholdGroupsExact(num: Numerals, c: Comparison, conds: seq<Condition>, lhs: string)
    ensures Grouped(ThresholdGroups(num, c, conds))
    ensures ItemsOf(ThresholdGroups(num, c, conds), lhs) == ThresholdsOn(num, c, conds, lhs)
  {
    if conds != [] {
      var front, last := conds[..|conds| - 1], conds[|conds| - 1];
      ThresholdGroupsExact(num, c, front, lhs);
      if IsThreshold(num, c, last) {
        var item := Threshold(num.read(last.rhs).value, last.target);
        PutGrouped(ThresholdGroups(num, c, front), last.lhs, item);
        PutItems(ThresholdGroups(num, c, front), last.lhs, item, lhs);
      }
    }
  }

  /** No condition is lost: each is a threshold of one of the two kinds, or plain. */
  lemma {:induction false} ConditionsConserved(num: Numerals, conds: seq<Condition>)
    ensures Total(ThresholdGroups(num, Greater, conds)) + Total(ThresholdGroups(num, Less, conds))
          + |PlainConditions(num, conds)|
         == |conds|
  {
    if conds != [] {
      var front, last := conds[..|conds| - 1], conds[|conds| - 1];
      ConditionsConserved(num, front);
      assert OpText(Greater)[0] != OpText(Less)[0];
      if IsThreshold(num, Greater, last) {
        PutCounts(ThresholdGroups(num, Greater, front), last.lhs, Threshold(num.read(last.rhs).value, last.target));
      } else if IsThreshold(num, Less, last) {
        PutCounts(ThresholdGroups(num, Less, front), last.lhs, Threshold(num.read(last.rhs).value, last.target));
      }
    }
  }

  function GroupsOf(num: Numerals, p: Parsed, c: Comparison): seq<Group<Threshold>> {
    ThresholdGroups(num, c, p.conditionals)
  }

  /** The edge list of the whole graph: pipelines, chains of both kinds, plain conditions, match arms. */
  lemma BuildEdges(num: Numerals, p: Parsed)
    ensures Build(num, p).edges
         == PipelineEdges(p.pipeline)
          + Chains(num.show, Greater, GroupsOf(num, p, Greater))
          + Chains(num.show, Less, GroupsOf(num, p, Less))
          + ConditionEdges(PlainConditions(num, p.conditionals))
          + MatchEdges(ArmGroups(p.arms))
  {
    var piped := AddPipelines(EMPTY, p.pipeline);
    var above := AddChains(piped, num.show, Greater, GroupsOf(num, p, Greater));
    var below := AddChains(above, num.show, Less, GroupsOf(num, p, Less));
    var plain := PlainConditions(num, p.conditionals);
    AddPipelinesEdges(EMPTY, p.pipeline);
    AddChainsEdges(piped, num.show, Greater, GroupsOf(num, p, Greater));
    AddChainsEdges(above, num.show, Less, GroupsOf(num, p, Less));
    AddConditionsEdges(below, plain);
    AddMatchesEdges(AddConditions(below, plain), ArmGroups(p.arms));
    assert [] + PipelineEdges(p.pipeline) == PipelineEdges(p.pipeline);
  }

  /** One edge per pipeline, plain condition and match arm, and 2n - 1 per group of n thresholds. */
  lemma BuildEdgeCount(num: Numerals, p: Parsed)
    ensures |Build(num, p).edges|
         == |p.pipeline| + |PlainConditions(num, p.conditionals)| + |p.arms|
          + ChainCount(GroupsOf(num, p, Greater)) + ChainCount(GroupsOf(num, p, Less))
  {
    BuildEdges(num, p);
    ThresholdGroupsExact(num, Greater, p.conditionals, "");
    ThresholdGroupsExact(num, Less, p.conditionals, "");
    ChainsLength(num.show, Greater, GroupsOf(num, p, Greater));
    ChainsLength(num.show, Less, GroupsOf(num, p, Less));
    AddMatchesEdges(EMPTY, ArmGroups(p.arms));
    ArmGroupsCount(p.arms);
  }
}
