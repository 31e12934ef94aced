/**
 Writing diagram statements out, one to a line. Reading the written text gives back the statements,
 whatever the names, operands and targets are made of, unless they contain a separator of the syntax.

 A piece of a statement is trimmed, fits on one line and contains neither a comment nor an arrow. The
 blanks that are written around arrows and operators keep the pieces apart, so that no separator can
 arise across their borders.
 */
module DiagramPrints {
  import opened Results
  import opened Texts
  import opened DiagramText

  /** What is assumed of blanks: the space is one, and none of these is. */
  predicate UsualBlanks(space: char -> bool) {
    space(' ') && !space('f') && !space('i') && !space('m') && !space(')')
  }

  /** `x` is nowhere directly followed by `y`. */
  predicate NoPair(s: string, x: char, y: char) {
    forall i | 0 <= i < |s| - 1 :: s[i] != x || s[i + 1] != y
  }

  /** A piece of a statement: trimmed, on one line, without a comment or an arrow. */
  predicate IsPiece(space: char -> bool, s: string) {
    Trimmed(space, s) && '\n' !in s && NoPair(s, '/', '/') && NoPair(s, '-', '>')
  }

  predicate Writable(space: char -> bool, st: Statement) {
    match st
    case Pipeline(n, t) => IsPiece(space, n) && IsPiece(space, t)
    case Conditional(c) =>
      && IsPiece(space, c.lhs) && OperatorFree(c.lhs) && IsPiece(space, c.target)
      && if c.op == "" then c.rhs == "" && SanitizeId(c.lhs) == c.lhs && SanitizeId(c.target) == c.target
         else c.op in OPERATORS && IsPiece(space, c.rhs) && OperatorFree(c.rhs)
    case MatchArm(a) =>
      && IsPiece(space, a.expr) && IsPiece(space, a.arm) && IsPiece(space, a.target)
      && NoPair(a.expr, '=', '>') && NoPair(a.arm, '=', '>') && NoPair(a.target, '=', '>')
    case _ => false
  }

  function Test(c: Condition): string {
    if c.op == "" then c.lhs else Written(c.lhs, c.op, c.rhs)
  }

  function Arrow(left: string, arrow: string, right: string): string { left + " " + arrow + " " + right }

  function WriteLine(st: Statement): string {
    match st
    case Pipeline(n, t) => "fn " + Arrow(n + "()", "->", t)
    case Conditional(c) => "if " + Arrow(Test(c), "->", c.target)
    case MatchArm(a) => "match " + Arrow(a.expr, "=>", Arrow(a.arm, "->", a.target))
    case _ => ""
  }

  function WrittenLines(sts: seq<Statement>): seq<string> {
    seq(|sts|, i requires 0 <= i < |sts| => WriteLine(sts[i]))
  }

  /** Lines with line feeds between them. */
  function WithFeeds(lines: seq<string>): string {
    if lines == [] then "" else if |lines| == 1 then lines[0] else lines[0] + "\n" + WithFeeds(lines[1..])
  }

  function WriteLines(sts: seq<Statement>): string { WithFeeds(WrittenLines(sts)) }

  // ---------------------------------------------------------------------------------------------
  // Splitting
  // ---------------------------------------------------------------------------------------------

  /** Splitting at a separator that occurs in one place only. */
  lemma {:induction false} SplitOnce(a: string, sep: string, b: string)
    requires sep != []
    requires forall j | 0 <= j < |a| :: !StartsWith((a + sep + b)[j..], sep)
    ensures Split(a + sep + b, sep) == [a] + Split(b, sep)
    decreases |a|
  {
    var s := a + sep + b;
    assert s[0..] == s;
    if a == [] {
      assert s == sep + b && s[|sep|..] == b;
    } else {
      assert !StartsWith(s[0..], sep);
      assert s[1..] == a[1..] + sep + b;
      forall j | 0 <= j < |a[1..]|
        ensures !StartsWith((a[1..] + sep + b)[j..], sep)
      {
        assert s[1..][j..] == s[j + 1..];
      }
      SplitOnce(a[1..], sep, b);
      var rest := [a[1..]] + Split(b, sep);
      assert Split(s, sep) == [[s[0]] + rest[0]] + rest[1..];
      assert rest[1..] == Split(b, sep) && [s[0]] + a[1..] == a;
    }
  }

  lemma {:induction false} SplitNowhere(s: string, sep: string)
    requires sep != []
    requires forall j | 0 <= j < |s| :: !StartsWith(s[j..], sep)
    ensures Split(s, sep) == [s]
  {
    if s != [] {
      assert s[0..] == s;
      assert !StartsWith(s[0..], sep);
      forall j | 0 <= j < |s[1..]|
        ensures !StartsWith(s[1..][j..], sep)
      {
        assert s[1..][j..] == s[j + 1..];
      }
      SplitNowhere(s[1..], sep);
      assert [s[0]] + s[1..] == s;
      assert Split(s, sep) == [[s[0]] + s[1..]] + [s[1..]][1..];
    }
  }

  lemma PairAt(s: string, j: nat, x: char, y: char)
    requires j < |s|
    ensures StartsWith(s[j..], [x, y]) <==> j + 1 < |s| && s[j] == x && s[j + 1] == y
  {
    if j + 1 < |s| {
      assert s[j..][0] == s[j] && s[j..][1] == s[j + 1];
      assert s[j..] == [s[j], s[j + 1]] + s[j + 2..];
    }
  }

  lemma PairNowhere(s: string, x: char, y: char)
    requires NoPair(s, x, y)
    ensures forall j | 0 <= j < |s| :: !StartsWith(s[j..], [x, y])
  {
    forall j | 0 <= j < |s|
      ensures !StartsWith(s[j..], [x, y])
    {
      PairAt(s, j, x, y);
    }
  }

  /** Splitting at an arrow with a blank on each side. */
  lemma SplitAtArrow(left: string, x: char, y: char, right: string)
    requires NoPair(left, x, y) && NoPair(right, x, y) && x != ' ' && y != ' '
    ensures Split(Arrow(left, [x, y], right), [x, y]) == [left + " ", " " + right]
  {
    var a, b, sep := left + " ", " " + right, [x, y];
    var s := a + sep + b;
    assert s == Arrow(left, sep, right);
    forall j | 0 <= j < |a|
      ensures !StartsWith(s[j..], sep)
    {
      PairAt(s, j, x, y);
      assert s[j] == a[j];
      if j < |left| {
        assert s[j + 1] == a[j + 1];
      }
    }
    SplitOnce(a, sep, b);
    assert NoPair(b, x, y);
    PairNowhere(b, x, y);
    SplitNowhere(b, sep);
  }

  lemma ArrowNoPair(left: string, arrow: string, right: string, x: char, y: char)
    requires NoPair(left, x, y) && NoPair(arrow, x, y) && NoPair(right, x, y) && x != ' ' && y != ' '
    ensures NoPair(Arrow(left, arrow, right), x, y)
  {
  }

  /** Trimming takes the blanks next to an arrow away. */
  lemma TrimAround(space: char -> bool, s: string)
    requires space(' ') && Trimmed(space, s)
    ensures Trim(space, s + " ") == s && Trim(space, " " + s) == s && Trim(space, " " + s + " ") == s
  {
    TrimPadded(space, s, ' ');
    assert (" " + s + " ")[1..] == s + " ";
    assert TrimStart(space, s + " ") == s + " ";
    assert (s + " ")[..|s|] == s;
  }

  // ---------------------------------------------------------------------------------------------
  // One line
  // ---------------------------------------------------------------------------------------------

  /** A line of a keyword and a body is neither commented nor padded. */
  lemma LineKept(space: char -> bool, keyword: string, body: string)
    requires keyword != [] && !space(keyword[0]) && NoPair(keyword, '/', '/') && NoPair(body, '/', '/')
    requires body != [] && !space(body[|body| - 1])
    ensures Trim(space, Split(keyword + " " + body, "//")[0]) == keyword + " " + body
  {
    var line := keyword + " " + body;
    PairNowhere(line, '/', '/');
    assert ['/', '/'] == "//";
    SplitNowhere(line, "//");
    assert TrimStart(space, line) == line;
    assert line[|line| - 1] == body[|body| - 1];
  }

  lemma CallDropped(n: string)
    ensures DropCall(n + "()") == n
  {
    var call := n + "()";
    assert call[|call| - 2..] == "()" && call[..|call| - 2] == n;
  }

  /** An arrow between trimmed pieces splits into them. */
  lemma ArrowSplits(space: char -> bool, left: string, right: string)
    requires space(' ') && Trimmed(space, left) && Trimmed(space, right)
    requires NoPair(left, '-', '>') && NoPair(right, '-', '>')
    ensures var p := Split(Arrow(left, "->", right), "->");
            |p| == 2 && Trim(space, p[0]) == left && Trim(space, p[1]) == right
  {
    SplitAtArrow(left, '-', '>', right);
    assert ['-', '>'] == "->";
    TrimAround(space, left);
    TrimAround(space, right);
  }

  lemma PipelineBody(space: char -> bool, n: string, t: string, line: string)
    requires UsualBlanks(space) && IsPiece(space, n) && IsPiece(space, t)
    ensures ParsePipeline(space, Arrow(n + "()", "->", t), line) == Pipeline(n, t)
  {
    ArrowSplits(space, n + "()", t);
    CallDropped(n);
  }

  lemma PipelineReadsBack(space: char -> bool, n: string, t: string)
    requires UsualBlanks(space) && IsPiece(space, n) && IsPiece(space, t)
    ensures ParseLine(space, WriteLine(Pipeline(n, t))) == Pipeline(n, t)
  {
    var body := Arrow(n + "()", "->", t);
    var line := WriteLine(Pipeline(n, t));
    ArrowNoPair(n + "()", "->", t, '/', '/');
    assert line == "fn" + " " + body;
    LineKept(space, "fn", body);
    assert line[3..] == body && StartsWith(line, "fn ");
    PipelineBody(space, n, t, line);
  }

  lemma {:induction false} NoOperator(space: char -> bool, expr: string, target: string, ops: seq<string>)
    requires OperatorFree(expr)
    requires forall op | op in ops :: op in OPERATORS
    ensures ParseWith(space, expr, target, ops) == None
    decreases |ops|
  {
    if ops != [] {
      var op := ops[0];
      assert op in OPERATORS;
      assert op != [] && !OperatorFree([op[0]]);
      forall j | 0 <= j < |expr|
        ensures !StartsWith(expr[j..], op)
      {
        assert expr[j..][0] == expr[j];
      }
      IndexOfNowhere(expr, op);
      NoOperator(space, expr, target, ops[1..]);
    }
  }

  lemma TestReadsBack(space: char -> bool, c: Condition)
    requires UsualBlanks(space) && Writable(space, Conditional(c))
    ensures var parsed := ParseCondition(space, Test(c), c.target);
            if c.op == "" then parsed == None else parsed == Some(c)
  {
    if c.op == "" {
      NoOperator(space, c.lhs, c.target, OPERATORS);
    } else {
      ConditionReadsBack(space, c.lhs, c.op, c.rhs, c.target);
    }
  }

  lemma TestIsPiece(space: char -> bool, c: Condition)
    requires space(' ') && Writable(space, Conditional(c))
    ensures Trimmed(space, Test(c)) && NoPair(Test(c), '-', '>')
  {
    if c.op != "" {
      assert NoPair(c.op, '-', '>') && Test(c) == Arrow(c.lhs, c.op, c.rhs);
      ArrowNoPair(c.lhs, c.op, c.rhs, '-', '>');
    }
  }

  lemma ConditionalBody(space: char -> bool, c: Condition, line: string)
    requires UsualBlanks(space) && Writable(space, Conditional(c))
    ensures ParseConditional(space, Arrow(Test(c), "->", c.target), line) == Conditional(c)
  {
    TestIsPiece(space, c);
    ArrowSplits(space, Test(c), c.target);
    TestReadsBack(space, c);
  }

  lemma ConditionalReadsBack(space: char -> bool, c: Condition)
    requires UsualBlanks(space) && Writable(space, Conditional(c))
    ensures ParseLine(space, WriteLine(Conditional(c))) == Conditional(c)
  {
    var body := Arrow(Test(c), "->", c.target);
    var line := WriteLine(Conditional(c));
    ArrowNoPair(Test(c), "->", c.target, '/', '/');
    assert line == "if" + " " + body;
    LineKept(space, "if", body);
    assert line[3..] == body && StartsWith(line, "if ") && line[0] == 'i';
    ConditionalBody(space, c, line);
  }

  lemma MatchBody(space: char -> bool, a: Arm, line: string)
    requires UsualBlanks(space) && Writable(space, MatchArm(a))
    ensures ParseMatchArm(space, Arrow(a.expr, "=>", Arrow(a.arm, "->", a.target)), line) == MatchArm(a)
  {
    var tail := Arrow(a.arm, "->", a.target);
    ArrowNoPair(a.arm, "->", a.target, '=', '>');
    SplitAtArrow(a.expr, '=', '>', tail);
    assert ['=', '>'] == "=>" && ['-', '>'] == "->";
    assert " " + tail == Arrow(" " + a.arm, "->", a.target);
    SplitAtArrow(" " + a.arm, '-', '>', a.target);
    TrimAround(space, a.expr);
    TrimAround(space, a.arm);
    TrimAround(space, a.target);
  }

  lemma MatchLine(space: char -> bool, line: string, body: string)
    requires line == "match" + " " + body
    requires Trim(space, Split(line, "//")[0]) == line
    ensures ParseLine(space, line) == ParseMatchArm(space, body, line)
  {
    assert line[6..] == body && line[0] == 'm';
  }

  lemma MatchReadsBack(space: char -> bool, a: Arm)
    requires UsualBlanks(space) && Writable(space, MatchArm(a))
    ensures ParseLine(space, WriteLine(MatchArm(a))) == MatchArm(a)
  {
    var tail := Arrow(a.arm, "->", a.target);
    var body := Arrow(a.expr, "=>", tail);
    var line := WriteLine(MatchArm(a));
    ArrowNoPair(a.arm, "->", a.target, '/', '/');
    ArrowNoPair(a.expr, "=>", tail, '/', '/');
    assert line == "match" + " " + body;
    LineKept(space, "match", body);
    MatchLine(space, line, body);
    MatchBody(space, a, line);
  }

  /** A written statement reads back as itself. */
  lemma LineReadsBack(space: char -> bool, st: Statement)
    requires UsualBlanks(space) && Writable(space, st)
    ensures ParseLine(space, WriteLine(st)) == st
  {
    match st
    case Pipeline(n, t) => PipelineReadsBack(space, n, t);
    case Conditional(c) => ConditionalReadsBack(space, c);
    case MatchArm(a) => MatchReadsBack(space, a);
  }

  // ---------------------------------------------------------------------------------------------
  // The whole text
  // ---------------------------------------------------------------------------------------------

  lemma WrittenOnOneLine(space: char -> bool, st: Statement)
    requires Writable(space, st)
    ensures '\n' !in WriteLine(st)
  {
    assert forall op | op in OPERATORS :: '\n' !in op;
  }

  lemma FeedNowhere(s: string)
    requires '\n' !in s
    ensures forall j | 0 <= j < |s| :: !StartsWith(s[j..], "\n")
  {
    forall j | 0 <= j < |s|
      ensures !StartsWith(s[j..], "\n")
    {
      assert s[j..][0] == s[j];
    }
  }

  lemma FeedComesFirst(line: string, rest: string)
    requires '\n' !in line
    ensures forall j | 0 <= j < |line| :: !StartsWith((line + "\n" + rest)[j..], "\n")
  {
    forall j | 0 <= j < |line|
      ensures !StartsWith((line + "\n" + rest)[j..], "\n")
    {
      assert (line + "\n" + rest)[j..][0] == line[j];
    }
  }

  lemma {:induction false} LinesApart(lines: seq<string>)
    requires lines != [] && forall line | line in lines :: '\n' !in line
    ensures Split(WithFeeds(lines), "\n") == lines
    decreases |lines|
  {
    var line, rest := lines[0], WithFeeds(lines[1..]);
    FeedNowhere(line);
    if |lines| == 1 {
      SplitNowhere(line, "\n");
    } else {
      FeedComesFirst(line, rest);
      SplitOnce(line, "\n", rest);
      LinesApart(lines[1..]);
    }
  }

  /** Reading the written text gives back the statements, in order. */
  lemma ProgramReadsBack(space: char -> bool, sts: seq<Statement>)
    requires UsualBlanks(space) && sts != []
    requires forall st | st in sts :: Writable(space, st)
    ensures Statements(space, WriteLines(sts)) == sts
  {
    forall line | line in WrittenLines(sts)
      ensures '\n' !in line
    {
      var i :| 0 <= i < |sts| && line == WriteLine(sts[i]);
      assert sts[i] in sts;
      WrittenOnOneLine(space, sts[i]);
    }
    LinesApart(WrittenLines(sts));
    forall i | 0 <= i < |sts|
      ensures ParseLine(space, WrittenLines(sts)[i]) == sts[i]
    {
      LineReadsBack(space, sts[i]);
    }
  }
}
