/** What each kind of line reads as, well formed or not, told from the characters of the line. */
module DiagramSyntax {
  import opened Results
  import opened Texts
  import opened DiagramText
  import opened DiagramValues
  import opened DiagramPrints
  import opened ThresholdChains
  import opened DiagramBuild

  predicate PairIn(s: string, x: char, y: char, i: nat) { i + 1 < |s| && s[i] == x && s[i + 1] == y }

  /** `x` is directly followed by `y` at position `i` and nowhere else. */
  predicate OnlyPair(s: string, x: char, y: char, i: nat) {
    PairIn(s, x, y, i) && forall j | 0 <= j < |s| && PairIn(s, x, y, j) :: j == i
  }

  // ---------------------------------------------------------------------------------------------
  // Splitting
  // ---------------------------------------------------------------------------------------------

  lemma {:induction false} FirstPair(s: string, x: char, y: char) returns (i: nat)
    ensures i <= |s| && forall j | 0 <= j < i :: !PairIn(s, x, y, j)
    ensures i < |s| ==> PairIn(s, x, y, i)
  {
    if s == [] || PairIn(s, x, y, 0) {
      i := 0;
    } else {
      i := FirstPair(s[1..], x, y);
      forall j | 0 <= j < i + 1
        ensures !PairIn(s, x, y, j)
      {
        assert j > 0 ==> (PairIn(s, x, y, j) <==> PairIn(s[1..], x, y, j - 1));
      }
      i := i + 1;
    }
  }

  /** Splitting cuts at the first pair. */
  lemma SplitFirst(s: string, x: char, y: char, i: nat)
    requires i <= |s| && forall j | 0 <= j < i :: !PairIn(s, x, y, j)
    requires i < |s| ==> PairIn(s, x, y, i)
    ensures i < |s| ==> Split(s, [x, y]) == [s[..i]] + Split(s[i + 2..], [x, y])
    ensures i == |s| ==> Split(s, [x, y]) == [s]
  {
    forall j | 0 <= j < i
      ensures !StartsWith(s[j..], [x, y])
    {
      PairAt(s, j, x, y);
      assert !PairIn(s, x, y, j);
    }
    if i < |s| {
      assert s == s[..i] + [x, y] + s[i + 2..];
      SplitOnce(s[..i], [x, y], s[i + 2..]);
    } else {
      SplitNowhere(s, [x, y]);
    }
  }

  /** There are two pieces exactly when there is one pair, and then they are what is on its sides. */
  lemma TwoPieces(s: string, x: char, y: char)
    requires x != y
    ensures |Split(s, [x, y])| == 2 <==> exists i: nat :: OnlyPair(s, x, y, i)
    ensures forall i: nat | OnlyPair(s, x, y, i) :: Split(s, [x, y]) == [s[..i], s[i + 2..]]
  {
    var i := FirstPair(s, x, y);
    SplitFirst(s, x, y, i);
    if i < |s| {
      var rest := s[i + 2..];
      var k := FirstPair(rest, x, y);
      SplitFirst(rest, x, y, k);
      if k < |rest| {
        assert PairIn(s, x, y, i + 2 + k);
      } else {
        forall j | 0 <= j < |s| && PairIn(s, x, y, j)
          ensures j == i
        {
          assert j >= i + 2 ==> PairIn(rest, x, y, j - i - 2);
        }
        assert OnlyPair(s, x, y, i);
      }
    }
  }

  // ---------------------------------------------------------------------------------------------
  // The three kinds of lines
  // ---------------------------------------------------------------------------------------------

  /** An empty pair of parentheses at the end is dropped, and nothing else is. */
  lemma DropCallExactly(name: string)
    ensures if |name| >= 2 && name[|name| - 2] == '(' && name[|name| - 1] == ')' then DropCall(name) + "()" == name
            else DropCall(name) == name
  {
    if |name| >= 2 {
      assert name[|name| - 2..] == [name[|name| - 2], name[|name| - 1]];
    }
  }

  /** A pipeline has one arrow with something on both sides. */
  lemma PipelineExactly(space: char -> bool, body: string, line: string, message: string)
    requires message == "Malformed fn statement; expected `fn source() -> target`."
    ensures forall i: nat | OnlyPair(body, '-', '>', i) ::
              var n, t := DropCall(Trim(space, body[..i])), Trim(space, body[i + 2..]);
              ParsePipeline(space, body, line) == if n != [] && t != [] then Pipeline(n, t)
                  else Malformed(message, line)
    ensures (forall i: nat :: !OnlyPair(body, '-', '>', i)) ==>
              ParsePipeline(space, body, line) == Malformed(message, line)
  {
    TwoPieces(body, '-', '>');
    assert ['-', '>'] == "->";
  }

  predicate OccursAt(s: string, part: string, i: nat) { i + |part| <= |s| && s[i..i + |part|] == part }

  /** The operator first occurs at position `i` and has something other than blanks on both sides there. */
  predicate DividesAt(space: char -> bool, expr: string, op: string, i: nat) {
    && OccursAt(expr, op, i) && (forall j | 0 <= j < i :: !OccursAt(expr, op, j))
    && Trim(space, expr[..i]) != [] && Trim(space, expr[i + |op|..]) != []
  }

  ghost predicate Divides(space: char -> bool, expr: string, op: string) {
    exists i: nat :: DividesAt(space, expr, op, i)
  }

  lemma OccursStarts(s: string, part: string, i: nat)
    requires i <= |s|
    ensures OccursAt(s, part, i) <==> StartsWith(s[i..], part)
  {
    if i + |part| <= |s| {
      assert s[i..][..|part|] == s[i..i + |part|];
    }
  }

  lemma {:induction false} FirstOccurrence(s: string, part: string)
    requires part != []
    ensures var i := IndexOf(s, part);
            (i < |s| ==> OccursAt(s, part, i)) && forall j | 0 <= j < i :: !OccursAt(s, part, j)
  {
    OccursStarts(s, part, 0);
    assert s[0..] == s;
    if s != [] && !StartsWith(s, part) {
      FirstOccurrence(s[1..], part);
      forall j | 0 < j <= |s|
        ensures OccursAt(s, part, j) <==> OccursAt(s[1..], part, j - 1)
      {
        assert s[j..] == s[1..][j - 1..];
        OccursStarts(s, part, j);
        OccursStarts(s[1..], part, j - 1);
      }
    }
  }

  function Divided(space: char -> bool, expr: string, op: string, target: string, i: nat): Condition
    requires i + |op| <= |expr|
  {
    Condition(Trim(space, expr[..i]), op, Trim(space, expr[i + |op|..]), target)
  }

  lemma FirstOperator(space: char -> bool, expr: string, target: string, ops: seq<string>)
    requires ops != [] && ops[0] != []
    ensures forall i: nat | DividesAt(space, expr, ops[0], i) ::
              ParseWith(space, expr, target, ops) == Some(Divided(space, expr, ops[0], target, i))
    ensures !Divides(space, expr, ops[0]) ==>
              ParseWith(space, expr, target, ops) == ParseWith(space, expr, target, ops[1..])
  {
    var op, n := ops[0], IndexOf(expr, ops[0]);
    FirstOccurrence(expr, op);
    forall i: nat | DividesAt(space, expr, op, i)
      ensures i == n
    {
      assert OccursAt(expr, op, i);
    }
    if n < |expr| && Trim(space, expr[..n]) != [] && Trim(space, expr[n + |op|..]) != [] {
      assert DividesAt(space, expr, op, n);
    }
  }

  lemma {:induction false} OperatorAmong(space: char -> bool, expr: string, target: string, ops: seq<string>, k: nat)
    requires forall op | op in ops :: op != []
    requires k <= |ops| && forall m | 0 <= m < k :: !Divides(space, expr, ops[m])
    ensures k == |ops| ==> ParseWith(space, expr, target, ops) == None
    ensures k < |ops| ==> forall i: nat | DividesAt(space, expr, ops[k], i) ::
              ParseWith(space, expr, target, ops) == Some(Divided(space, expr, ops[k], target, i))
    decreases |ops|
  {
    if ops != [] {
      assert ops[0] in ops && forall op | op in ops[1..] :: op in ops;
      FirstOperator(space, expr, target, ops);
      if k > 0 {
        assert forall m | 0 <= m < k - 1 :: ops[1..][m] == ops[m + 1];
        OperatorAmong(space, expr, target, ops[1..], k - 1);
      }
    }
  }

  /**
   A comparison is cut at the first occurrence of the first of the six operators, in this order, that has something
   on both sides there; when there is none, the expression is no comparison.
   */
  lemma ComparisonExactly(space: char -> bool, expr: string, target: string, ops: seq<string>, k: nat)
    requires ops == [">=", "<=", "!=", ">", "<", "=="]
    requires k <= |ops| && forall m | 0 <= m < k :: !Divides(space, expr, ops[m])
    ensures k == |ops| ==> ParseCondition(space, expr, target) == None
    ensures k < |ops| ==> forall i: nat | DividesAt(space, expr, ops[k], i) ::
              ParseCondition(space, expr, target)
                == Some(Condition(Trim(space, expr[..i]), ops[k], Trim(space, expr[i + |ops[k]|..]), target))
  {
    assert OPERATORS == ops;
    assert forall op | op in ops :: op != [];
    OperatorAmong(space, expr, target, ops, k);
  }

  /** What is said of a line that is none of the three. */
  lemma IgnoredReported(line: string, message: string)
    requires message == "Ignored non-diagram Rhai line."
    ensures FileAll([Ignored(line)]).diagnostics == [Diagnostic(false, 1, message, line)]
  {
    assert [Ignored(line)][..0] == [];
  }

  /** So has a condition; without a comparison, it is sanitised. */
  lemma ConditionalExactly(space: char -> bool, body: string, line: string, message: string)
    requires message == "Malformed if statement; expected `if expression -> target`."
    ensures forall i: nat | OnlyPair(body, '-', '>', i) ::
              var e, t := Trim(space, body[..i]), Trim(space, body[i + 2..]);
              ParseConditional(space, body, line)
                == if e == [] || t == [] then Malformed(message, line)
                   else if ParseCondition(space, e, t).Some? then Conditional(ParseCondition(space, e, t).value)
                   else Conditional(Condition(SanitizeId(e), [], [], SanitizeId(t)))
    ensures (forall i: nat :: !OnlyPair(body, '-', '>', i)) ==>
              ParseConditional(space, body, line) == Malformed(message, line)
  {
    TwoPieces(body, '-', '>');
    assert ['-', '>'] == "->";
  }

  predicate ArmAt(body: string, i: nat, j: nat) {
    OnlyPair(body, '=', '>', i) && OnlyPair(body[i + 2..], '-', '>', j)
  }

  /** A match arm has one double arrow and one arrow after it; its parts may be empty. */
  lemma MatchArmExactly(space: char -> bool, body: string, line: string, message: string)
    requires message == "Malformed match statement; expected `match expr => Arm -> target`."
    ensures forall i: nat, j: nat | ArmAt(body, i, j) ::
              ParseMatchArm(space, body, line)
                == MatchArm(Arm(Trim(space, body[..i]), Trim(space, body[i + 2..][..j]),
                                Trim(space, body[i + 2..][j + 2..])))
    ensures (forall i: nat, j: nat :: !ArmAt(body, i, j)) ==>
              ParseMatchArm(space, body, line) == Malformed(message, line)
  {
    TwoPieces(body, '=', '>');
    assert ['-', '>'] == "->" && ['=', '>'] == "=>";
    if i: nat :| OnlyPair(body, '=', '>', i) {
      var rest := body[i + 2..];
      TwoPieces(rest, '-', '>');
      if j: nat :| OnlyPair(rest, '-', '>', j) {
        assert ArmAt(body, i, j);
      }
    }
  }

  lemma StartsWithThree(s: string, a: char, b: char, c: char)
    ensures StartsWith(s, [a, b, c]) <==> |s| > 2 && s[0] == a && s[1] == b && s[2] == c
  {
    if |s| > 2 {
      assert s[..3] == [s[0], s[1], s[2]];
    }
  }

  lemma StartsWithMatch(s: string)
    ensures StartsWith(s, "match ")
       <==> |s| > 5 && s[0] == 'm' && s[1] == 'a' && s[2] == 't' && s[3] == 'c' && s[4] == 'h' && s[5] == ' '
  {
    if |s| > 5 {
      assert s[..6] == [s[0], s[1], s[2], s[3], s[4], s[5]];
    }
  }

  /** What the first characters of a trimmed line without a comment decide. */
  lemma KeywordsExactly(space: char -> bool, line: string)
    requires Trimmed(space, line) && NoPair(line, '/', '/')
    ensures var r := ParseLine(space, line);
            if |line| > 2 && line[0] == 'f' && line[1] == 'n' && line[2] == ' ' then
              r == ParsePipeline(space, line[3..], line)
            else if |line| > 2 && line[0] == 'i' && line[1] == 'f' && line[2] == ' ' then
              r == ParseConditional(space, line[3..], line)
            else if |line| > 5 && line[0] == 'm' && line[1] == 'a' && line[2] == 't' && line[3] == 'c' && line[4] == 'h'
                    && line[5] == ' ' then
              r == ParseMatchArm(space, line[6..], line)
            else r == Ignored(line)
  {
    PairNowhere(line, '/', '/');
    assert ['/', '/'] == "//";
    SplitNowhere(line, "//");
    assert Trim(space, line) == line;
    StartsWithThree(line, 'f', 'n', ' ');
    StartsWithThree(line, 'i', 'f', ' ');
    StartsWithMatch(line);
    assert ['f', 'n', ' '] == "fn " && ['i', 'f', ' '] == "if ";
  }

  /** A comment is as if it were not there. */
  lemma CommentIgnored(space: char -> bool, line: string, comment: string)
    requires NoPair(line, '/', '/') && (line != [] ==> line[|line| - 1] != '/')
    ensures ParseLine(space, line + "//" + comment) == ParseLine(space, line)
  {
    var raw, n := line + "//" + comment, |line|;
    assert raw[n] == '/' && raw[n + 1] == '/';
    forall j | 0 <= j < n
      ensures !PairIn(raw, '/', '/', j)
    {
      assert raw[j] == line[j];
    }
    SplitFirst(raw, '/', '/', n);
    assert raw[..n] == line && ['/', '/'] == "//";
    PairNowhere(line, '/', '/');
    SplitNowhere(line, "//");
  }

  // ---------------------------------------------------------------------------------------------
  // What nodes and edges are called
  // ---------------------------------------------------------------------------------------------

  lemma OnePipeline(num: Numerals, p: Parsed, n: string, t: string)
    requires p == Parsed([(n, t)], [], [], [])
    ensures Build(num, p).edges == [Edge(SanitizeId(n), SanitizeId(t), None, None, false)]
  {
    BuildEdges(num, p);
    assert PipelineEdges(p.pipeline) == [Edge(SanitizeId(n), SanitizeId(t), None, None, false)];
    assert ConditionEdges(PlainConditions(num, p.conditionals)) == [] && MatchEdges(ArmGroups(p.arms)) == [];
    assert Chains(num.show, Greater, GroupsOf(num, p, Greater)) == [];
    assert Chains(num.show, Less, GroupsOf(num, p, Less)) == [];
  }

  lemma PipelineText(n: string, t: string, line: string)
    requires line == "fn " + n + "() -> " + t
    ensures WriteLine(Pipeline(n, t)) == line
  {
    assert "fn " + (n + "()" + " " + "->" + " " + t) == "fn " + n + ("()" + " " + "->" + " ") + t;
    assert "()" + " " + "->" + " " == "() -> ";
  }

  lemma PipelineFiled(n: string, t: string)
    ensures FileAll([Pipeline(n, t)]) == Parsed([(n, t)], [], [], [])
  {
    assert [Pipeline(n, t)][..0] == [];
  }

  /** `fn n() -> t` is drawn as one edge from n to t. */
  lemma PipelineDrawn(space: char -> bool, num: Numerals, n: string, t: string, line: string)
    requires UsualBlanks(space) && IsPiece(space, n) && IsPiece(space, t)
    requires line == "fn " + n + "() -> " + t
    ensures Build(num, FileAll([ParseLine(space, line)])).edges
         == [Edge(SanitizeId(n), SanitizeId(t), None, None, false)]
  {
    PipelineText(n, t, line);
    PipelineReadsBack(space, n, t);
    PipelineFiled(n, t);
    OnePipeline(num, FileAll([Pipeline(n, t)]), n, t);
  }

  /** The caption of a decision reads as the condition that it decides. */
  lemma CaptionReadsBack(space: char -> bool, show: real -> string, lhs: string, c: Comparison, value: real,
                         target: string, op: string)
    requires space(' ') && Trimmed(space, lhs) && Trimmed(space, show(value))
    requires OperatorFree(lhs) && OperatorFree(show(value))
    requires op == if c == Greater then ">" else "<"
    ensures ParseCondition(space, Caption(show, lhs, c, value), target)
         == Some(Condition(lhs, op, show(value), target))
  {
    ConditionReadsBack(space, lhs, op, show(value), target);
    assert Caption(show, lhs, c, value) == lhs + " " + op + " " + show(value);
  }

  /** The arms that are drawn as the default of a match. */
  lemma DefaultArms(arm: string)
    ensures IsDefaultArm(arm) <==> arm in ["_", "else", "otherwise", "default"]
  {
  }

  lemma {:induction false} SanitizedLength(s: string)
    ensures |SanitizeId(s)| == |s|
  {
    if s != [] {
      SanitizedLength(s[1..]);
    }
  }

  /** The id of a match is its expression, sanitised, behind the word "match". */
  lemma MatchIdParts(expr: string, id: string)
    requires id == MatchId(expr)
    ensures |id| == 6 + |expr| && id[..6] == ['m', 'a', 't', 'c', 'h', '_'] && id[6..] == SanitizeId(expr)
  {
    SanitizedLength(expr);
    assert id == "match_" + SanitizeId(expr);
  }
}
