/**
 Reading diagram statements from source text: every line is a statement, a diagnostic, or blank,
 and a condition written out is read back as the same condition.

 A line is cut at the first comment and trimmed. What starts with `fn`, `if` or `match` is a pipeline,
 a condition or a match arm, or malformed; anything else is ignored. A condition without a comparison
 keeps its expression, sanitised, and has an empty operator.
 */
module DiagramText {
  import opened Results
  import opened Texts

  /** A condition; `op` is empty when the expression has no comparison. */
  datatype Condition = Condition(lhs: string, op: string, rhs: string, target: string)

  datatype Arm = Arm(expr: string, arm: string, target: string)

  datatype Statement =
    | Pipeline(source: string, dest: string)
    | Conditional(condition: Condition)
    | MatchArm(arm: Arm)
    | Malformed(message: string, line: string)
    | Ignored(line: string)
    | Blank

  function SanitizeChar(c: char): char {
    if 'A' <= c <= 'Z' || 'a' <= c <= 'z' || '0' <= c <= '9' || c == '_' then c else '_'
  }

  /** The text with every character outside letters, digits and underscore replaced. */
  function SanitizeId(raw: string): string {
    if raw == [] then [] else [SanitizeChar(raw[0])] + SanitizeId(raw[1..])
  }

  /** The operators in the order in which they are looked for. */
  const OPERATORS: seq<string> := [">=", "<=", "!=", ">", "<", "=="]

  /** The first operator that occurs with something on both sides. */
  function ParseWith(space: char -> bool, expr: string, target: string, ops: seq<string>): Option<Condition> {
    if ops == [] then None
    else
      var i := IndexOf(expr, ops[0]);
      if i < |expr| && i + |ops[0]| <= |expr| then
        var lhs, rhs := Trim(space, expr[..i]), Trim(space, expr[i + |ops[0]|..]);
        if lhs != [] && rhs != [] then Some(Condition(lhs, ops[0], rhs, target))
        else ParseWith(space, expr, target, ops[1..])
      else ParseWith(space, expr, target, ops[1..])
  }

  function ParseCondition(space: char -> bool, expr: string, target: string): Option<Condition> {
    ParseWith(space, expr, target, OPERATORS)
  }

  /** A function name without the empty parentheses of its call. */
  function DropCall(name: string): string {
    if |name| >= 2 && name[|name| - 2..] == "()" then name[..|name| - 2] else name
  }

  const BAD_FN := "Malformed fn statement; expected `fn source() -> target`."
  const BAD_IF := "Malformed if statement; expected `if expression -> target`."
  const BAD_MATCH := "Malformed match statement; expected `match expr => Arm -> target`."
  const NOT_DIAGRAM := "Ignored non-diagram Rhai line."

  /** `body` is what follows the keyword of `line`. */
  function ParsePipeline(space: char -> bool, body: string, line: string): Statement {
    var p := Split(body, "->");
    if |p| != 2 then Malformed(BAD_FN, line)
    else
      var n, t := DropCall(Trim(space, p[0])), Trim(space, p[1]);
      if n != [] && t != [] then Pipeline(n, t) else Malformed(BAD_FN, line)
  }

  function ParseConditional(space: char -> bool, body: string, line: string): Statement {
    var p := Split(body, "->");
    if |p| != 2 then Malformed(BAD_IF, line)
    else
      var e, t := Trim(space, p[0]), Trim(space, p[1]);
      if e == [] || t == [] then Malformed(BAD_IF, line)
      else
        match ParseCondition(space, e, t)
        case Some(c) => Conditional(c)
        case None => Conditional(Condition(SanitizeId(e), "", "", SanitizeId(t)))
  }

  function ParseMatchArm(space: char -> bool, body: string, line: string): Statement {
    var p := Split(body, "=>");
    if |p| != 2 then Malformed(BAD_MATCH, line)
    else
      var q := Split(p[1], "->");
      if |q| != 2 then Malformed(BAD_MATCH, line)
      else MatchArm(Arm(Trim(space, p[0]), Trim(space, q[0]), Trim(space, q[1])))
  }

  function ParseLine(space: char -> bool, raw: string): Statement {
    var line := Trim(space, Split(raw, "//")[0]);
    if line == [] then Blank
    else if StartsWith(line, "fn ") then ParsePipeline(space, line[3..], line)
    else if StartsWith(line, "if ") then ParseConditional(space, line[3..], line)
    else if StartsWith(line, "match ") then ParseMatchArm(space, line[6..], line)
    else Ignored(line)
  }

  // ---------------------------------------------------------------------------------------------
  // Reading back a written condition
  // ---------------------------------------------------------------------------------------------

  predicate OperatorFree(s: string) {
    forall i | 0 <= i < |s| :: s[i] != '<' && s[i] != '>' && s[i] != '=' && s[i] != '!'
  }

  function Written(lhs: string, op: string, rhs: string): string { lhs + " " + op + " " + rhs }

  /** No operator that is looked for earlier occurs anywhere in the text. */
  lemma OtherOperatorAbsent(lhs: string, k: nat, rhs: string, j: nat)
    requires j < k < 6 && OperatorFree(lhs) && OperatorFree(rhs)
    ensures IndexOf(Written(lhs, OPERATORS[k], rhs), OPERATORS[j]) == |Written(lhs, OPERATORS[k], rhs)|
  {
    var expr, n, op, other := Written(lhs, OPERATORS[k], rhs), |lhs| + 1, OPERATORS[k], OPERATORS[j];
    forall i | 0 <= i < |expr|
      ensures !StartsWith(expr[i..], other)
    {
      assert expr[i..][0] == expr[i];
      assert i + 1 < |expr| ==> expr[i..][1] == expr[i + 1];
      assert expr[n] == op[0] && (|op| == 2 ==> expr[n + 1] == op[1]);
      assert other[0] == '<' || other[0] == '>' || other[0] == '=' || other[0] == '!';
    }
    IndexOfNowhere(expr, other);
  }

  lemma OperatorFound(lhs: string, k: nat, rhs: string)
    requires k < 6 && OperatorFree(lhs) && OperatorFree(rhs)
    ensures IndexOf(Written(lhs, OPERATORS[k], rhs), OPERATORS[k]) == |lhs| + 1
  {
    var expr, n, op := Written(lhs, OPERATORS[k], rhs), |lhs| + 1, OPERATORS[k];
    assert expr[n..][..|op|] == op;
    forall j | 0 <= j < n
      ensures !StartsWith(expr[j..], op)
    {
      assert expr[j..][0] == expr[j];
      assert op[0] == '<' || op[0] == '>' || op[0] == '=' || op[0] == '!';
    }
    IndexOfFirst(expr, op, n);
  }

  lemma OperandTexts(lhs: string, op: string, rhs: string)
    ensures var expr, n := Written(lhs, op, rhs), |lhs| + 1;
            && n + |op| <= |expr|
            && expr[..n] == lhs + [' ']
            && expr[n + |op|..] == [' '] + rhs
  {
  }

  /** The texts before and after the operator, without the blank next to it, are the operands. */
  lemma OperandsTrimmed(space: char -> bool, lhs: string, op: string, rhs: string)
    requires space(' ') && Trimmed(space, lhs) && Trimmed(space, rhs)
    ensures var expr, n := Written(lhs, op, rhs), |lhs| + 1;
            && n + |op| <= |expr|
            && Trim(space, expr[..n]) == lhs
            && Trim(space, expr[n + |op|..]) == rhs
  {
    OperandTexts(lhs, op, rhs);
    TrimPadded(space, lhs, ' ');
    TrimPadded(space, rhs, ' ');
  }

  lemma ReadHere(space: char -> bool, lhs: string, op: string, rhs: string, target: string, ops: seq<string>)
    requires space(' ') && ops != [] && ops[0] == op
    requires Trimmed(space, lhs) && Trimmed(space, rhs)
    requires IndexOf(Written(lhs, op, rhs), op) == |lhs| + 1
    ensures ParseWith(space, Written(lhs, op, rhs), target, ops) == Some(Condition(lhs, op, rhs, target))
  {
    OperandsTrimmed(space, lhs, op, rhs);
  }

  lemma {:induction false} ReadsBackFrom(space: char -> bool, lhs: string, k: nat, rhs: string, target: string, j: nat)
    requires space(' ')
    requires j <= k < 6
    requires Trimmed(space, lhs) && Trimmed(space, rhs) && OperatorFree(lhs) && OperatorFree(rhs)
    ensures ParseWith(space, Written(lhs, OPERATORS[k], rhs), target, OPERATORS[j..])
         == Some(Condition(lhs, OPERATORS[k], rhs, target))
    decreases k - j
  {
    assert OPERATORS[j..][0] == OPERATORS[j] && OPERATORS[j..][1..] == OPERATORS[j + 1..];
    if j < k {
      OtherOperatorAbsent(lhs, k, rhs, j);
      ReadsBackFrom(space, lhs, k, rhs, target, j + 1);
    } else {
      OperatorFound(lhs, k, rhs);
      ReadHere(space, lhs, OPERATORS[k], rhs, target, OPERATORS[j..]);
    }
  }

  /** Any of the six conditions, over operands without operator characters, reads back as itself. */
  lemma ConditionReadsBack(space: char -> bool, lhs: string, op: string, rhs: string, target: string)
    requires space(' ')
    requires op == ">=" || op == "<=" || op == "!=" || op == ">" || op == "<" || op == "=="
    requires Trimmed(space, lhs) && Trimmed(space, rhs) && OperatorFree(lhs) && OperatorFree(rhs)
    ensures ParseCondition(space, lhs + " " + op + " " + rhs, target) == Some(Condition(lhs, op, rhs, target))
  {
    assert op in OPERATORS;
    var k :| 0 <= k < |OPERATORS| && OPERATORS[k] == op;
    assert OPERATORS[0..] == OPERATORS;
    ReadsBackFrom(space, lhs, k, rhs, target, 0);
  }

  // ---------------------------------------------------------------------------------------------
  // Reading a whole source
  // ---------------------------------------------------------------------------------------------

  datatype Diagnostic = Diagnostic(isError: bool, line: nat, message: string, source: string)

  datatype Parsed = Parsed(
    pipeline: seq<(string, string)>,
    conditionals: seq<Condition>,
    arms: seq<Arm>,
    diagnostics: seq<Diagnostic>)

  /** Files the statement of line `number`. */
  function File(p: Parsed, statement: Statement, number: nat): Parsed {
    match statement
    case Pipeline(n, t) => p.(pipeline := p.pipeline + [(n, t)])
    case Conditional(c) => p.(conditionals := p.conditionals + [c])
    case MatchArm(a) => p.(arms := p.arms + [a])
    case Malformed(message, line) => p.(diagnostics := p.diagnostics + [Diagnostic(true, number, message, line)])
    case Ignored(line) => p.(diagnostics := p.diagnostics + [Diagnostic(false, number, NOT_DIAGRAM, line)])
    case Blank => p
  }

  /** The statements filed so far, the i-th under line number i + 1. */
  function FileAll(statements: seq<Statement>): Parsed {
    if statements == [] then Parsed([], [], [], [])
    else File(FileAll(statements[..|statements| - 1]), statements[|statements| - 1], |statements|)
  }

  lemma FileAllStep(statements: seq<Statement>, i: nat)
    requires i < |statements|
    ensures FileAll(statements[..i + 1]) == File(FileAll(statements[..i]), statements[i], i + 1)
  {
    assert statements[..i + 1][..i] == statements[..i];
  }

  function Statements(space: char -> bool, source: string): seq<Statement> {
    var lines := Split(source, "\n");
    seq(|lines|, i requires 0 <= i < |lines| => ParseLine(space, lines[i]))
  }

  method ParseStatements(space: char -> bool, source: string) returns (r: Parsed)
    ensures r == FileAll(Statements(space, source))
  {
    var lines := Split(source, "\n");
    ghost var all := Statements(space, source);
    r := Parsed([], [], [], []);
    for i := 0 to |lines|
      invariant r == FileAll(all[..i])
    {
      FileAllStep(all, i);
      r := File(r, ParseLine(space, lines[i]), i + 1);
    }
    assert all[..|lines|] == all;
  }

  function CountBlank(statements: seq<Statement>): nat {
    if statements == [] then 0
    else CountBlank(statements[..|statements| - 1]) + if statements[|statements| - 1].Blank? then 1 else 0
  }

  /** The diagnostic that a line calls for, under its number. */
  predicate Reports(d: Diagnostic, statement: Statement) {
    match statement
    case Malformed(message, line) => d.isError && d.message == message && d.source == line
    case Ignored(line) => !d.isError && d.message == NOT_DIAGRAM && d.source == line
    case _ => false
  }

  /** Each line counts once: as a statement, as a diagnostic under its own number, or as blank. */
  lemma {:induction false} EveryLineAccountedFor(statements: seq<Statement>)
    ensures var r := FileAll(statements);
            && |r.pipeline| + |r.conditionals| + |r.arms| + |r.diagnostics| + CountBlank(statements) == |statements|
            && forall d :: d in r.diagnostics <==>
                 1 <= d.line <= |statements| && Reports(d, statements[d.line - 1])
  {
    if statements != [] {
      EveryLineAccountedFor(statements[..|statements| - 1]);
    }
  }

  /** Each statement is filed behind those of its kind that come before it. */
  lemma {:induction false} FiledInOrder(statements: seq<Statement>, i: nat)
    requires i < |statements|
    ensures var before, r := FileAll(statements[..i]), FileAll(statements);
            match statements[i]
            case Pipeline(n, t) =>
              |before.pipeline| < |r.pipeline| && r.pipeline[|before.pipeline|].0 == n
              && r.pipeline[|before.pipeline|].1 == t
            case Conditional(c) =>
              |before.conditionals| < |r.conditionals| && r.conditionals[|before.conditionals|] == c
            case MatchArm(a) => |before.arms| < |r.arms| && r.arms[|before.arms|] == a
            case _ => true
  {
    var n := |statements| - 1;
    if i < n {
      assert statements[..n][..i] == statements[..i];
      FiledInOrder(statements[..n], i);
    }
  }
}
