/** The diagram under construction: an object that the parser's passes fill in place. */
module Diagrams {
  import opened Results
  import opened Sorting
  import opened DiagramText
  import opened DiagramValues
  import opened ThresholdChains
  import opened DiagramBuild

  class Diagram {
    var order: seq<string>
    var nodes: map<string, Node>
    var edges: seq<Edge>

    ghost function Value(): Graph
      reads this
    {
      Graph(order, nodes, edges)
    }

    constructor ()
      ensures Value() == EMPTY
    {
      order, nodes, edges := [], map[], [];
    }

    method AddNode(n: Node)
      modifies this
      ensures Value() == DiagramValues.AddNode(old(Value()), n)
    {
      if n.id !in nodes {
        order := order + [n.id];
        nodes := nodes[n.id := n];
      }
    }

    method AddEdge(e: Edge)
      modifies this
      ensures Value() == DiagramValues.AddEdge(old(Value()), e)
    {
      edges := edges + [e];
    }

    method AddLinked(a: Node, b: Node, e: Edge)
      modifies this
      ensures Value() == DiagramValues.AddLinked(old(Value()), a, b, e)
    {
      AddNode(a);
      AddNode(b);
      AddEdge(e);
    }

    /** The thresholds arrive arranged; the ids of all decisions are computed first. */
    method EmitThresholdChain(show: real -> string, lhs: string, c: Comparison, ts: seq<Threshold>)
      modifies this
      ensures Value() == EmitChain(old(Value()), show, lhs, c, ts)
    {
      var nodeIds := Ids(show, lhs, c, ts);
      for i := 0 to |ts|
        invariant EmitChain(Value(), show, lhs, c, ts[i..]) == EmitChain(old(Value()), show, lhs, c, ts)
      {
        assert ts[i..][1..] == ts[i + 1..];
        var targetId := SanitizeId(ts[i].target);
        AddLinked(Plain(nodeIds[i], Caption(show, lhs, c, ts[i].value), DecisionNode),
                  Plain(targetId, ts[i].target, StepNode), Link(nodeIds[i], targetId, YES));
        if i + 1 < |ts| {
          AddEdge(Link(nodeIds[i], nodeIds[i + 1], NO));
        }
      }
    }

    method AddPipelines(ps: seq<(string, string)>)
      modifies this
      ensures Value() == DiagramBuild.AddPipelines(old(Value()), ps)
    {
      for i := 0 to |ps|
        invariant Value() == DiagramBuild.AddPipelines(old(Value()), ps[..i])
      {
        assert ps[..i + 1][..i] == ps[..i];
        var (n, t) := ps[i];
        AddLinked(Plain(SanitizeId(n), n, StepNode), Plain(SanitizeId(t), t, StepNode),
                  Link(SanitizeId(n), SanitizeId(t), None));
      }
      assert ps[..|ps|] == ps;
    }

    method AddChains(show: real -> string, c: Comparison, groups: seq<Group<Threshold>>)
      modifies this
      ensures Value() == DiagramBuild.AddChains(old(Value()), show, c, groups)
    {
      for i := 0 to |groups|
        invariant Value() == DiagramBuild.AddChains(old(Value()), show, c, groups[..i])
      {
        assert groups[..i + 1][..i] == groups[..i];
        EmitThresholdChain(show, groups[i].key, c, SortBy(Tighter(c), groups[i].items));
      }
      assert groups[..|groups|] == groups;
    }

    method AddConditions(conds: seq<Condition>)
      modifies this
      ensures Value() == DiagramBuild.AddConditions(old(Value()), conds)
    {
      for i := 0 to |conds|
        invariant Value() == DiagramBuild.AddConditions(old(Value()), conds[..i])
      {
        assert conds[..i + 1][..i] == conds[..i];
        var cond, targetId := conds[i], SanitizeId(conds[i].target);
        if cond.op == "" {
          AddLinked(Plain(cond.lhs, cond.lhs, DecisionNode), Plain(targetId, cond.target, StepNode),
                    Link(cond.lhs, targetId, None));
        } else {
          var caption := Written(cond.lhs, cond.op, cond.rhs);
          AddLinked(Plain(SanitizeId(caption), caption, DecisionNode), Plain(targetId, cond.target, StepNode),
                    Link(SanitizeId(caption), targetId, YES));
        }
      }
      assert conds[..|conds|] == conds;
    }

    method AddArms(matchId: string, arms: seq<Arm>)
      modifies this
      ensures Value() == DiagramBuild.AddArms(old(Value()), matchId, arms)
    {
      for i := 0 to |arms|
        invariant Value() == DiagramBuild.AddArms(old(Value()), matchId, arms[..i])
      {
        assert arms[..i + 1][..i] == arms[..i];
        var targetId, default_ := SanitizeId(arms[i].target), IsDefaultArm(arms[i].arm);
        AddNode(Node(targetId, arms[i].target, StepNode, Some(i), default_));
        AddEdge(Edge(matchId, targetId, Some(arms[i].arm), Some(i), default_));
      }
      assert arms[..|arms|] == arms;
    }

    method AddMatches(groups: seq<Group<Arm>>)
      modifies this
      ensures Value() == DiagramBuild.AddMatches(old(Value()), groups)
    {
      for i := 0 to |groups|
        invariant Value() == DiagramBuild.AddMatches(old(Value()), groups[..i])
      {
        assert groups[..i + 1][..i] == groups[..i];
        var id := "match_" + SanitizeId(groups[i].key);
        AddNode(Plain(id, "match " + groups[i].key, MatchNode));
        AddArms(id, groups[i].items);
      }
      assert groups[..|groups|] == groups;
    }
  }

  /** Sorts the conditions into numeric `>` and `<` groups and the rest. */
  method GroupConditions(num: Numerals, conds: seq<Condition>)
    returns (gts: seq<Group<Threshold>>, lts: seq<Group<Threshold>>, plain: seq<Condition>)
    ensures gts == ThresholdGroups(num, Greater, conds)
    ensures lts == ThresholdGroups(num, Less, conds)
    ensures plain == PlainConditions(num, conds)
  {
    gts, lts, plain := [], [], [];
    for i := 0 to |conds|
      invariant gts == ThresholdGroups(num, Greater, conds[..i])
      invariant lts == ThresholdGroups(num, Less, conds[..i])
      invariant plain == PlainConditions(num, conds[..i])
    {
      assert conds[..i + 1][..i] == conds[..i];
      var cond, value := conds[i], num.read(conds[i].rhs);
      assert OpText(Greater)[0] != OpText(Less)[0];
      if cond.op == ">" && value.Some? {
        gts := Put(gts, cond.lhs, Threshold(value.value, cond.target));
      } else if cond.op == "<" && value.Some? {
        lts := Put(lts, cond.lhs, Threshold(value.value, cond.target));
      } else {
        plain := plain + [cond];
      }
    }
    assert conds[..|conds|] == conds;
  }

  method GroupArms(arms: seq<Arm>) returns (groups: seq<Group<Arm>>)
    ensures groups == ArmGroups(arms)
  {
    groups := [];
    for i := 0 to |arms|
      invariant groups == ArmGroups(arms[..i])
    {
      assert arms[..i + 1][..i] == arms[..i];
      groups := Put(groups, arms[i].expr, arms[i]);
    }
    assert arms[..|arms|] == arms;
  }

  method ParseRhaiDiagram(num: Numerals, space: char -> bool, source: string)
    returns (diagram: Diagram, diagnostics: seq<Diagnostic>)
    ensures fresh(diagram)
    ensures var p := FileAll(Statements(space, source));
            diagram.Value() == Build(num, p) && diagnostics == p.diagnostics
    ensures Valid(diagram.Value())
  {
    var p := ParseStatements(space, source);
    diagram := new Diagram();
    diagram.AddPipelines(p.pipeline);
    var gts, lts, plain := GroupConditions(num, p.conditionals);
    diagram.AddChains(num.show, Greater, gts);
    diagram.AddChains(num.show, Less, lts);
    diagram.AddConditions(plain);
    var groups := GroupArms(p.arms);
    diagram.AddMatches(groups);
    diagnostics := p.diagnostics;
    BuildValid(num, p);
  }
}
