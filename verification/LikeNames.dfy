/** Two lines that an id cannot tell apart, and a decision that is taken over without harm. */
module LikeNames {
  import opened Results
  import opened Keyed
  import opened DiagramText
  import opened DiagramValues
  import opened ThresholdChains
  import opened ChainMeanings
  import opened DiagramBuild
  import opened DiagramPrints
  import opened DiagramMeaning

  /** Two lines that ask different expressions for the same threshold. */
  predicate TwoLines(num: Numerals, p: Parsed, a: Condition, b: Condition, t: real) {
    && p.conditionals == [a, b] && a.op == ">" && b.op == ">" && a.lhs != b.lhs
    && num.read(a.rhs) == Some(t) && num.read(b.rhs) == Some(t)
  }

  lemma TwoGroups(num: Numerals, p: Parsed, a: Condition, b: Condition, t: real)
    requires TwoLines(num, p, a, b, t)
    ensures GroupsOf(num, p, Greater)
         == [Group(a.lhs, [Threshold(t, a.target)]), Group(b.lhs, [Threshold(t, b.target)])]
    ensures GroupsOf(num, p, Less) == []
  {
    var conds := p.conditionals;
    assert conds[..1] == [a] && [a][..0] == [];
    assert OpText(Greater)[0] != OpText(Less)[0];
    var first := Group(a.lhs, [Threshold(t, a.target)]);
    assert ThresholdGroups(num, Greater, [a]) == Put([], a.lhs, Threshold(t, a.target)) == [first];
    assert Put([first], b.lhs, Threshold(t, b.target)) == [first] + Put([], b.lhs, Threshold(t, b.target));
    assert ThresholdGroups(num, Less, [a]) == [];
  }

  lemma SameDecisionId(num: Numerals, a: string, b: string, t: real)
    requires SanitizeId(a) == SanitizeId(b)
    ensures DecisionId(num.show, a, Greater, t) == DecisionId(num.show, b, Greater, t)
  {
    var rest := "_" + OpWord(Greater) + "_" + ValToSafe(num.show(t));
    SanitizeAppend(a, rest);
    SanitizeAppend(b, rest);
    assert a + "_" + OpWord(Greater) + "_" + ValToSafe(num.show(t)) == a + rest;
    assert b + "_" + OpWord(Greater) + "_" + ValToSafe(num.show(t)) == b + rest;
  }

  lemma LoneDecision(num: Numerals, g: Group<Threshold>, t: Threshold)
    requires g.items == [t]
    ensures GroupIds(num, Greater, g) == [DecisionId(num.show, g.key, Greater, t.value)]
    ensures GroupTargets(Greater, g) == [SanitizeId(t.target)]
    ensures DecisionsOf(GroupIds(num, Greater, g), GroupTargets(Greater, g))
         == [Decision(DecisionId(num.show, g.key, Greater, t.value), SanitizeId(t.target), None)]
  {
    assert [t][1..] == [];
    assert Arranged(Greater, [t]) == [t];
    var ids, targets := GroupIds(num, Greater, g), GroupTargets(Greater, g);
    assert ids[1..] == [] && targets[1..] == [];
    assert DecisionsOf(ids[1..], targets[1..]) == [];
  }

  lemma TwoDecisions(num: Numerals, first: Group<Threshold>, second: Group<Threshold>, a: Threshold, b: Threshold)
    requires first.items == [a] && second.items == [b]
    ensures DecisionsIn(num, Greater, [first, second])
         == [Decision(DecisionId(num.show, first.key, Greater, a.value), SanitizeId(a.target), None),
             Decision(DecisionId(num.show, second.key, Greater, b.value), SanitizeId(b.target), None)]
  {
    LoneDecision(num, first, a);
    LoneDecision(num, second, b);
    assert [first, second][..1] == [first] && [first][..0] == [];
    assert DecisionsIn(num, Greater, []) == [];
    assert DecisionsIn(num, Greater, [first])
        == [Decision(DecisionId(num.show, first.key, Greater, a.value), SanitizeId(a.target), None)];
  }

  /**
   Two lines whose expressions are written alike once sanitised: the second is led to the target of the first.
   They make two groups of one decision each. Both decisions have the same id, whose first true edge is that of
   the line that comes first.
   */
  lemma LikeNamesCollide(num: Numerals, p: Parsed, a: Condition, b: Condition, t: real, fuel: nat)
    requires TwoLines(num, p, a, b, t) && fuel > 0
    requires SanitizeId(a.lhs) == SanitizeId(b.lhs) && SanitizeId(a.target) != SanitizeId(b.target)
    ensures |GroupsOf(num, p, Greater)| == 2 && GroupsOf(num, p, Greater)[1].key == b.lhs
    ensures var g := GroupsOf(num, p, Greater)[1];
            var ids, ts := GroupIds(num, Greater, g), Arranged(Greater, g.items);
            && !Undisturbed(num, p, Greater, g)
            && |ids| == |ts| && ids != []
            && exists v :: !Means(Greater, v, g.items,
                                  Walk(Build(num, p).edges, TestOf(ids, ts, Greater, v), ids[0], fuel))
  {
    var first, second := Group(a.lhs, [Threshold(t, a.target)]), Group(b.lhs, [Threshold(t, b.target)]);
    TwoGroups(num, p, a, b, t);
    SameDecisionId(num, a.lhs, b.lhs, t);
    TwoDecisions(num, first, second, first.items[0], second.items[0]);
    LoneDecision(num, second, second.items[0]);
    var id := DecisionId(num.show, b.lhs, Greater, t);
    var e := second.items[0];
    assert AimOn(num, p)(id) == Some(SanitizeId(a.target));
    assert !ComesFirst(AllDecisions(num, p), p.arms, [id], [SanitizeId(b.target)], 0);
    assert Arranged(Greater, [e]) == [e];
    assert FirstPassing(NextOn(num, p), NoTighter([id], [e], Greater, t), id, fuel) == Some(id);
    assert !AskedFor([e], t, AimOn(num, p)(id));
    LineMeansExactly(num, p, Greater, 1, e, fuel);
  }

  // ---------------------------------------------------------------------------------------------
  // The text
  // ---------------------------------------------------------------------------------------------

  /** A blank is no letter or digit of the two lines. */
  predicate PlainBlanks(space: char -> bool) {
    UsualBlanks(space) && !space('a') && !space('b') && !space('x') && !space('y') && !space('5')
  }

  /** The two expressions are written alike once sanitised, the two targets are not. */
  lemma DottedNamesAlike(dotted: Condition, plain: Condition)
    requires dotted == Condition("a.b", ">", "5", "x") && plain == Condition("a_b", ">", "5", "y")
    ensures dotted.lhs != plain.lhs
    ensures SanitizeId(dotted.lhs) == SanitizeId(plain.lhs) && SanitizeId(dotted.target) != SanitizeId(plain.target)
  {
    assert dotted.lhs[1] != plain.lhs[1];
    assert SanitizeId(dotted.target)[0] != SanitizeId(plain.target)[0];
  }

  lemma TwoLinesRead(space: char -> bool, a: Condition, b: Condition, first: string, second: string)
    requires UsualBlanks(space) && Writable(space, Conditional(a)) && Writable(space, Conditional(b))
    requires WriteLine(Conditional(a)) == first && WriteLine(Conditional(b)) == second
    ensures FileAll(Statements(space, first + "\n" + second)).conditionals == [a, b]
  {
    var sts := [Conditional(a), Conditional(b)];
    var lines := WrittenLines(sts);
    assert lines == [first, second] && lines[1..] == [second];
    assert WithFeeds(lines) == first + "\n" + WithFeeds(lines[1..]);
    ProgramReadsBack(space, sts);
    FileAllStep(sts, 0);
    FileAllStep(sts, 1);
    assert sts[..0] == [] && sts[..2] == sts;
  }

  lemma LetterIsPiece(space: char -> bool, s: string)
    requires |s| == 1 && !space(s[0]) && s[0] != '\n'
    ensures IsPiece(space, s)
  {
  }

  lemma NameIsPiece(space: char -> bool, s: string)
    requires s == "a.b" || s == "a_b"
    requires !space('a') && !space('b')
    ensures IsPiece(space, s) && OperatorFree(s)
  {
    assert |s| == 3 && s[0] == 'a' && (s[1] == '.' || s[1] == '_') && s[2] == 'b';
  }

  lemma DottedWritable(space: char -> bool, dotted: Condition, plain: Condition)
    requires PlainBlanks(space)
    requires dotted == Condition("a.b", ">", "5", "x") && plain == Condition("a_b", ">", "5", "y")
    ensures Writable(space, Conditional(dotted)) && Writable(space, Conditional(plain))
  {
    assert OPERATORS[3] == ">";
    NameIsPiece(space, dotted.lhs);
    NameIsPiece(space, plain.lhs);
    LetterIsPiece(space, dotted.rhs);
    LetterIsPiece(space, dotted.target);
    LetterIsPiece(space, plain.target);
  }

  lemma DottedWritten(dotted: Condition, plain: Condition, first: string, second: string)
    requires dotted == Condition("a.b", ">", "5", "x") && plain == Condition("a_b", ">", "5", "y")
    requires first == "if a.b > 5 -> x" && second == "if a_b > 5 -> y"
    ensures WriteLine(Conditional(dotted)) == first && WriteLine(Conditional(plain)) == second
  {
  }

  /** The text of the two lines reads as two such lines. */
  lemma DottedText(space: char -> bool, first: string, second: string, dotted: Condition, plain: Condition)
    requires PlainBlanks(space) && first == "if a.b > 5 -> x" && second == "if a_b > 5 -> y"
    requires dotted == Condition("a.b", ">", "5", "x") && plain == Condition("a_b", ">", "5", "y")
    ensures FileAll(Statements(space, first + "\n" + second)).conditionals == [dotted, plain]
  {
    DottedWritable(space, dotted, plain);
    DottedWritten(dotted, plain, first, second);
    TwoLinesRead(space, dotted, plain, first, second);
  }

  /** From the text of the two lines to the group that is led astray. */
  lemma DottedNamesMislead(num: Numerals, space: char -> bool, first: string, second: string, fuel: nat)
    requires PlainBlanks(space) && first == "if a.b > 5 -> x" && second == "if a_b > 5 -> y"
    requires num.read("5") == Some(5.0) && fuel > 0
    ensures var p := FileAll(Statements(space, first + "\n" + second));
            && |GroupsOf(num, p, Greater)| == 2 && GroupsOf(num, p, Greater)[1].key == "a_b"
            && !DiagramMeans(num, p, Greater, GroupsOf(num, p, Greater)[1], fuel)
  {
    var dotted, plain := Condition("a.b", ">", "5", "x"), Condition("a_b", ">", "5", "y");
    DottedText(space, first, second, dotted, plain);
    DottedNamesAlike(dotted, plain);
    LikeNamesCollide(num, FileAll(Statements(space, first + "\n" + second)), dotted, plain, 5.0, fuel);
  }

  // ---------------------------------------------------------------------------------------------
  // A decision taken over without harm
  // ---------------------------------------------------------------------------------------------

  lemma FollowSkipping(ids: seq<string>, targets: seq<string>, z: string)
    requires |ids| == |targets| == 3 && Distinct(ids)
    ensures var edges := ChainEdges([ids[0], ids[2]], [targets[0], targets[2]]) + ChainEdges([ids[1]], [z])
                       + ChainEdges(ids, targets);
            && Follow(edges, ids[0], YES) == Some(targets[0]) && Follow(edges, ids[0], NO) == Some(ids[2])
            && Follow(edges, ids[2], YES) == Some(targets[2]) && Follow(edges, ids[2], NO) == None
            && Follow(edges, ids[1], YES) == Some(z)
  {
    var skipping, taking := ChainEdges([ids[0], ids[2]], [targets[0], targets[2]]), ChainEdges([ids[1]], [z]);
    var own := ChainEdges(ids, targets);
    forall id, caption
      ensures Follow(skipping + taking + own, id, caption)
           == OrElse(Follow(skipping, id, caption), OrElse(Follow(taking, id, caption), Follow(own, id, caption)))
    {
      FollowConcat(skipping + taking, own, id, caption);
      FollowConcat(skipping, taking, id, caption);
    }
    FollowChain([ids[0], ids[2]], [targets[0], targets[2]], 0);
    FollowChain([ids[0], ids[2]], [targets[0], targets[2]], 1);
    FollowChain([ids[1]], [z], 0);
    FollowChain(ids, targets, 2);
    FollowChainDecisions([ids[0], ids[2]], [targets[0], targets[2]], ids[1]);
    NotAmong([ids[0], ids[2]], [targets[0], targets[2]], ids[1]);
    FollowChainDecisions([ids[1]], [z], ids[2]);
    NotAmong([ids[1]], [z], ids[2]);
  }

  lemma SkippingLeads(next: string -> Option<string>, aim: string -> Option<string>, ids: seq<string>,
                      ts: seq<Threshold>, e: Threshold)
    requires |ids| == 3 && Distinct(ids) && |ts| == 3 && e in ts
    requires ts[0].value == 9.0 && ts[1].value == 5.0 && ts[2].value == 1.0 && ts[1].target == ts[2].target
    requires next(ids[0]) == Some(ids[2]) && next(ids[2]) == None
    requires aim(ids[0]) == Some(SanitizeId(ts[0].target)) && aim(ids[2]) == Some(SanitizeId(ts[2].target))
    ensures Ends(next, ids[0], 2) && LeadsRight(next, aim, ids, ts, Greater, e.value, 2)
  {
    var pass := NoTighter(ids, ts, Greater, e.value);
    assert FirstAt(ids, ids[0]) == 0 && FirstAt(ids, ids[2]) == 2;
    assert pass(ids[0]) <==> e == ts[0];
    assert pass(ids[2]);
    assert Ends(next, ids[2], 1);
    assert FirstPassing(next, pass, ids[2], 1) == Some(ids[2]);
    assert ts[0] in ts && ts[1] in ts && ts[2] in ts;
  }

  /**
   Chains as of `if a.b > 9 -> p`, `if a.b > 1 -> q`; `if a-b > 5 -> z`; and `if a_b > 9 -> p`, `if a_b > 5 -> q`,
   `if a_b > 1 -> q`. The second decision of the last chain leads to z, but the walk goes past it.
   */
  lemma TakenWithoutHarm(edges: seq<Edge>, ids: seq<string>, ts: seq<Threshold>, z: string)
    requires |ids| == 3 && Distinct(ids) && |ts| == 3
    requires ts[0].value == 9.0 && ts[1].value == 5.0 && ts[2].value == 1.0 && ts[1].target == ts[2].target
    requires z != SanitizeId(ts[1].target)
    requires var targets := Targets(ts);
             edges == ChainEdges([ids[0], ids[2]], [targets[0], targets[2]]) + ChainEdges([ids[1]], [z])
                    + ChainEdges(ids, targets)
    ensures !ChainIn(edges, ids, Targets(ts))
    ensures MeansAlways(edges, ids, ts, Greater, 2)
  {
    var targets := Targets(ts);
    var next: string -> Option<string> := id => Follow(edges, id, NO);
    var aim: string -> Option<string> := id => Follow(edges, id, YES);
    FollowSkipping(ids, targets, z);
    forall e | e in ts
      ensures LeadsRight(next, aim, ids, ts, Greater, e.value, 2)
    {
      SkippingLeads(next, aim, ids, ts, e);
    }
    MeansExactly(edges, next, aim, ids, ts, Greater, 2);
  }
}
