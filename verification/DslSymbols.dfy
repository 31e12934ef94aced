/** The symbol extractor: exactly the identifier runs in code, with their lines and columns. */
module DslSymbols {

  /** The Unicode character classes, as far as the extractor relies on them. */
  datatype Classes = Classes(alphabetic: char -> bool, alphanumeric: char -> bool)

  ghost predicate Sane(u: Classes) {
    && (forall c :: u.alphabetic(c) ==> u.alphanumeric(c))
    && !u.alphanumeric('\n') && !u.alphanumeric('/') && !u.alphanumeric('"') && !u.alphanumeric('\'')
  }

  datatype SymbolKind = FunctionCall | Variable | Keyword

  datatype DslSymbol = DslSymbol(kind: SymbolKind, name: string, line: nat, col: nat)

  const KEYWORDS: set<string> := {
    "let", "const", "if", "else", "match", "fn", "for", "while", "loop", "return", "break",
    "continue", "true", "false", "import", "export", "throw", "try", "catch", "in", "is"
  }

  predicate StartsIdent(u: Classes, c: char) { u.alphabetic(c) || c == '_' }

  predicate InIdent(u: Classes, c: char) { u.alphanumeric(c) || c == '_' }

  // ---------------------------------------------------------------------------------------------
  // Positions and modes
  // ---------------------------------------------------------------------------------------------

  /** One more than the line feeds before offset `i`. */
  function LineAt(s: string, i: nat): nat
    requires i <= |s|
  {
    if i == 0 then 1 else LineAt(s, i - 1) + if s[i - 1] == '\n' then 1 else 0
  }

  /** One more than the characters between the last line feed before offset `i` and `i`. */
  function ColAt(s: string, i: nat): nat
    requires i <= |s|
  {
    if i == 0 || s[i - 1] == '\n' then 1 else ColAt(s, i - 1) + 1
  }

  datatype Mode = Code | Comment | Quoted(quote: char)

  predicate OpensComment(s: string, i: nat) {
    i + 1 < |s| && s[i] == '/' && s[i + 1] == '/'
  }

  /** What the character at offset `i` is part of, given everything before it. */
  function ModeAt(s: string, i: nat): Mode
    requires i <= |s|
  {
    if i == 0 then Code
    else
      match ModeAt(s, i - 1)
      case Comment => if s[i - 1] == '\n' then Code else Comment
      case Quoted(q) => if s[i - 1] == q then Code else Quoted(q)
      case Code =>
        if OpensComment(s, i - 1) then Comment
        else if s[i - 1] == '"' || s[i - 1] == '\'' then Quoted(s[i - 1])
        else Code
  }

  // ---------------------------------------------------------------------------------------------
  // What a symbol list should be
  // ---------------------------------------------------------------------------------------------

  function AfterBlanks(s: string, i: nat): (j: nat)
    requires i <= |s|
    ensures i <= j <= |s|
    ensures forall k | i <= k < j :: s[k] == ' '
    ensures j < |s| ==> s[j] != ' '
    decreases |s| - i
  {
    if i < |s| && s[i] == ' ' then AfterBlanks(s, i + 1) else i
  }

  function KindOf(s: string, name: string, end: nat): SymbolKind
    requires end <= |s|
  {
    var j := AfterBlanks(s, end);
    if name in KEYWORDS then Keyword else if j < |s| && s[j] == '(' then FunctionCall else Variable
  }

  /**
   Identifiers start with an alphabetic character or an underscore and go on with alphanumeric ones
   or underscores.
   */
  lemma IdentifierChars(u: Classes, c: char)
    ensures StartsIdent(u, '_') && InIdent(u, '_')
    ensures c != '_' ==> (StartsIdent(u, c) <==> u.alphabetic(c)) && (InIdent(u, c) <==> u.alphanumeric(c))
  {
  }

  /**
   A keyword is one of these; of the other names, those with an open parenthesis after them, or after
   blanks, are calls.
   */
  lemma KindExactly(s: string, name: string, end: nat)
    requires end <= |s|
    ensures KindOf(s, name, end) == Keyword
       <==> name in ["let", "const", "if", "else", "match", "fn", "for", "while", "loop", "return", "break",
                     "continue", "true", "false", "import", "export", "throw", "try", "catch", "in", "is"]
    ensures KindOf(s, name, end) == FunctionCall
       <==> && KindOf(s, name, end) != Keyword
            && exists j :: end <= j < |s| && s[j] == '(' && forall k | end <= k < j :: s[k] == ' '
  {
    var j := AfterBlanks(s, end);
  }

  /** `symbol` is the identifier run at offset `o`, all of it in code, with its position and kind. */
  ghost predicate IsSymbolAt(u: Classes, s: string, symbol: DslSymbol, o: nat) {
    var end := o + |symbol.name|;
    && o < end <= |s|
    && symbol.name == s[o..end]
    && StartsIdent(u, s[o])
    && (forall k | o <= k < end :: InIdent(u, s[k]) && ModeAt(s, k) == Code)
    && (end < |s| ==> !InIdent(u, s[end]))
    && symbol.line == LineAt(s, o)
    && symbol.col == ColAt(s, o)
    && symbol.kind == KindOf(s, symbol.name, end)
  }

  ghost predicate InOrder(symbols: seq<DslSymbol>, starts: seq<nat>)
    requires |symbols| == |starts|
  {
    forall i, j | 0 <= i < j < |starts| :: starts[i] + |symbols[i].name| <= starts[j]
  }

  ghost predicate Covered(symbols: seq<DslSymbol>, starts: seq<nat>, p: nat)
    requires |symbols| == |starts|
  {
    exists k :: 0 <= k < |starts| && starts[k] <= p < starts[k] + |symbols[k].name|
  }

  ghost predicate AllSymbols(u: Classes, s: string, symbols: seq<DslSymbol>, starts: seq<nat>, n: nat)
    requires |symbols| == |starts|
  {
    forall k | 0 <= k < |starts| :: IsSymbolAt(u, s, symbols[k], starts[k]) && starts[k] + |symbols[k].name| <= n
  }

  /** Offset `p` starts or continues an identifier in code. */
  ghost predicate NeedsSymbol(u: Classes, s: string, p: nat) {
    p < |s| && ModeAt(s, p) == Code && StartsIdent(u, s[p])
  }

  ghost predicate Complete(u: Classes, s: string, symbols: seq<DslSymbol>, starts: seq<nat>, n: nat)
    requires |symbols| == |starts|
  {
    forall p | 0 <= p < n && NeedsSymbol(u, s, p) :: Covered(symbols, starts, p)
  }

  /** Sound, in order, and complete for the first `n` characters. */
  ghost predicate SymbolsUpTo(u: Classes, s: string, symbols: seq<DslSymbol>, starts: seq<nat>, n: nat) {
    && |symbols| == |starts|
    && AllSymbols(u, s, symbols, starts, n)
    && InOrder(symbols, starts)
    && Complete(u, s, symbols, starts, n)
  }

  // ---------------------------------------------------------------------------------------------
  // The extractor
  // ---------------------------------------------------------------------------------------------

  /**
   Where the main loop may stand: in code at a known position, at the line feed that ends a comment,
   or past the end.
   */
  ghost predicate AtBoundary(s: string, i: nat, line: nat, col: nat) {
    i < |s| ==>
      && line == LineAt(s, i)
      && ((ModeAt(s, i) == Code && col == ColAt(s, i)) || (ModeAt(s, i) == Comment && s[i] == '\n'))
  }

  method SkipComment(s: string, start: nat, line: nat) returns (i: nat)
    requires start < |s| && ModeAt(s, start) == Code && OpensComment(s, start) && line == LineAt(s, start)
    ensures start < i <= |s|
    ensures i < |s| ==> s[i] == '\n' && ModeAt(s, i) == Comment && line == LineAt(s, i)
    ensures forall p | start < p < i :: ModeAt(s, p) != Code
  {
    i := start + 1;
    while i < |s| && s[i] != '\n'
      invariant start < i <= |s|
      invariant ModeAt(s, i) == Comment && LineAt(s, i) == line
      invariant forall p | start < p < i :: ModeAt(s, p) != Code
    {
      i := i + 1;
    }
  }

  /** Through the closing quote; past the end of the text when the quote is never closed. */
  method SkipString(s: string, start: nat, line0: nat, col0: nat) returns (i: nat, line: nat, col: nat)
    requires start < |s| && ModeAt(s, start) == Code && !OpensComment(s, start) && (s[start] == '"' || s[start] == '\'')
    requires line0 == LineAt(s, start) && col0 == ColAt(s, start)
    ensures start < i <= |s| + 1
    ensures i <= |s| ==> ModeAt(s, i) == Code && line == LineAt(s, i) && col == ColAt(s, i)
    ensures forall p | start < p < i && p < |s| :: ModeAt(s, p) != Code
  {
    var quote := s[start];
    i, line, col := start + 1, line0, col0 + 1;
    while i < |s| && s[i] != quote
      invariant start < i <= |s|
      invariant ModeAt(s, i) == Quoted(quote) && line == LineAt(s, i) && col == ColAt(s, i)
      invariant forall p | start < p < i :: ModeAt(s, p) != Code
    {
      if s[i] == '\n' {
        line := line + 1;
        col := 1;
      } else {
        col := col + 1;
      }
      i := i + 1;
    }
    assert i < |s| ==> ModeAt(s, i + 1) == Code;
    i := i + 1;
    col := col + 1;
  }

  method ReadIdentifier(u: Classes, s: string, start: nat, line: nat, col0: nat) returns (i: nat, col: nat)
    requires Sane(u)
    requires start < |s| && ModeAt(s, start) == Code && StartsIdent(u, s[start])
    requires line == LineAt(s, start) && col0 == ColAt(s, start)
    ensures start < i <= |s|
    ensures forall k | start <= k < i :: InIdent(u, s[k]) && ModeAt(s, k) == Code
    ensures i < |s| ==> !InIdent(u, s[i])
    ensures ModeAt(s, i) == Code && LineAt(s, i) == line && ColAt(s, i) == col
  {
    i, col := start, col0;
    while i < |s| && InIdent(u, s[i])
      invariant start <= i <= |s|
      invariant i == start ==> InIdent(u, s[i])
      invariant forall k | start <= k < i :: InIdent(u, s[k]) && ModeAt(s, k) == Code
      invariant ModeAt(s, i) == Code && LineAt(s, i) == line && ColAt(s, i) == col
    {
      i := i + 1;
      col := col + 1;
    }
  }

  /** The branches of the main loop that yield no symbol: line feed, comment, string, anything else. */
  method SkipOther(u: Classes, s: string, start: nat, line0: nat, col0: nat) returns (i: nat, line: nat, col: nat)
    requires Sane(u) && start < |s| && AtBoundary(s, start, line0, col0) && !StartsIdent(u, s[start])
    ensures start < i <= |s| + 1
    ensures AtBoundary(s, i, line, col)
    ensures forall p | start <= p < i :: !NeedsSymbol(u, s, p)
  {
    i, line, col := start + 1, line0, col0;
    if s[start] == '\n' {
      line, col := line0 + 1, 1;
    } else if s[start] == '/' && start + 1 < |s| && s[start + 1] == '/' {
      i := SkipComment(s, start, line0);
    } else if s[start] == '"' || s[start] == '\'' {
      i, line, col := SkipString(s, start, line0, col0);
    } else {
      col := col0 + 1;
    }
  }

  lemma CoverageGrows(u: Classes, s: string, symbols: seq<DslSymbol>, starts: seq<nat>, symbol: DslSymbol, o: nat)
    requires |symbols| == |starts| && Complete(u, s, symbols, starts, o)
    ensures Complete(u, s, symbols + [symbol], starts + [o], o + |symbol.name|)
  {
    var symbols', starts' := symbols + [symbol], starts + [o];
    forall p | 0 <= p < o + |symbol.name| && NeedsSymbol(u, s, p)
      ensures Covered(symbols', starts', p)
    {
      if p < o {
        assert Covered(symbols, starts, p);
        var k :| 0 <= k < |starts| && starts[k] <= p < starts[k] + |symbols[k].name|;
        assert starts'[k] <= p < starts'[k] + |symbols'[k].name|;
      } else {
        var k := |starts|;
        assert starts'[k] <= p < starts'[k] + |symbols'[k].name|;
      }
    }
  }

  lemma OneMoreSymbol(u: Classes, s: string, symbols: seq<DslSymbol>, starts: seq<nat>, symbol: DslSymbol, o: nat)
    requires SymbolsUpTo(u, s, symbols, starts, o) && IsSymbolAt(u, s, symbol, o)
    ensures SymbolsUpTo(u, s, symbols + [symbol], starts + [o], o + |symbol.name|)
  {
    var symbols', starts' := symbols + [symbol], starts + [o];
    CoverageGrows(u, s, symbols, starts, symbol, o);
    assert forall k | 0 <= k < |starts| :: symbols'[k] == symbols[k] && starts'[k] == starts[k];
    assert AllSymbols(u, s, symbols', starts', o + |symbol.name|);
  }

  /** The symbols are exactly the identifier runs of the code, in order, at some offsets. */
  ghost predicate AreSymbolsOf(u: Classes, s: string, symbols: seq<DslSymbol>) {
    exists starts :: SymbolsUpTo(u, s, symbols, starts, |s|)
  }

  method ExtractDslSymbols(u: Classes, s: string) returns (symbols: seq<DslSymbol>)
    requires Sane(u)
    ensures AreSymbolsOf(u, s, symbols)
  {
    symbols := [];
    ghost var starts: seq<nat> := [];
    var i, line, col := 0, 1, 1;
    while i < |s|
      invariant i <= |s| + 1
      invariant AtBoundary(s, i, line, col)
      invariant SymbolsUpTo(u, s, symbols, starts, i)
      decreases |s| - i
    {
      // No identifier starts with a line feed, a slash or a quote, so the order of the tests is immaterial.
      if !StartsIdent(u, s[i]) {
        i, line, col := SkipOther(u, s, i, line, col);
      } else {
        var start, startCol := i, col;
        i, col := ReadIdentifier(u, s, i, line, col);
        var name := s[start..i];
        var symbol := DslSymbol(KindOf(s, name, i), name, line, startCol);
        OneMoreSymbol(u, s, symbols, starts, symbol, start);
        symbols := symbols + [symbol];
        starts := starts + [start];
      }
    }
    assert SymbolsUpTo(u, s, symbols, starts, |s|) by {
      forall k | 0 <= k < |starts|
        ensures starts[k] + |symbols[k].name| <= |s|
      {
        assert IsSymbolAt(u, s, symbols[k], starts[k]);
      }
    }
  }

  /** No symbol lies in a comment or a string, and no two overlap. */
  lemma SymbolsLieInCode(u: Classes, s: string, symbols: seq<DslSymbol>, starts: seq<nat>, i: nat, j: nat, p: nat)
    requires SymbolsUpTo(u, s, symbols, starts, |s|)
    requires i < j < |starts|
    requires starts[j] <= p < starts[j] + |symbols[j].name|
    ensures p < |s| && ModeAt(s, p) == Code
    ensures starts[i] < starts[j] && !(starts[i] <= p < starts[i] + |symbols[i].name|)
  {
    assert IsSymbolAt(u, s, symbols[i], starts[i]) && IsSymbolAt(u, s, symbols[j], starts[j]);
  }

  lemma PrefixesAgree(symbols: seq<DslSymbol>, starts: seq<nat>, symbols': seq<DslSymbol>, starts': seq<nat>, k: nat)
    requires |symbols| == |starts| && |symbols'| == |starts'| && k <= |symbols| && k <= |symbols'|
    requires symbols[..k] == symbols'[..k] && starts[..k] == starts'[..k]
    ensures forall i | 0 <= i < k :: symbols[i] == symbols'[i] && starts[i] == starts'[i]
  {
    forall i | 0 <= i < k
      ensures symbols[i] == symbols'[i] && starts[i] == starts'[i]
    {
      assert symbols[..k][i] == symbols'[..k][i] && starts[..k][i] == starts'[..k][i];
    }
  }

  lemma StartIsCovered(u: Classes, s: string, symbols: seq<DslSymbol>, starts: seq<nat>,
                       symbols': seq<DslSymbol>, starts': seq<nat>, k: nat)
    requires SymbolsUpTo(u, s, symbols, starts, |s|) && SymbolsUpTo(u, s, symbols', starts', |s|)
    requires k < |symbols|
    ensures Covered(symbols', starts', starts[k])
  {
    assert IsSymbolAt(u, s, symbols[k], starts[k]);
    assert NeedsSymbol(u, s, starts[k]);
  }

  lemma NotLater(u: Classes, s: string, symbols: seq<DslSymbol>, starts: seq<nat>,
                 symbols': seq<DslSymbol>, starts': seq<nat>, k: nat)
    requires SymbolsUpTo(u, s, symbols, starts, |s|) && SymbolsUpTo(u, s, symbols', starts', |s|)
    requires k < |symbols| && k < |symbols'|
    requires forall i | 0 <= i < k :: symbols[i] == symbols'[i] && starts[i] == starts'[i]
    ensures starts'[k] <= starts[k]
  {
    StartIsCovered(u, s, symbols, starts, symbols', starts', k);
    var m :| 0 <= m < |starts'| && starts'[m] <= starts[k] < starts'[m] + |symbols'[m].name|;
    if m > k {
      assert starts'[k] + |symbols'[k].name| <= starts'[m];
    }
  }

  /** After equal prefixes, the next starts are equal: each list must cover the other's next start. */
  lemma FirstFrom(u: Classes, s: string, symbols: seq<DslSymbol>, starts: seq<nat>,
                  symbols': seq<DslSymbol>, starts': seq<nat>, k: nat)
    requires SymbolsUpTo(u, s, symbols, starts, |s|) && SymbolsUpTo(u, s, symbols', starts', |s|)
    requires k < |symbols| && k < |symbols'|
    requires forall i | 0 <= i < k :: symbols[i] == symbols'[i] && starts[i] == starts'[i]
    ensures starts[k] == starts'[k]
  {
    NotLater(u, s, symbols, starts, symbols', starts', k);
    NotLater(u, s, symbols', starts', symbols, starts, k);
  }

  lemma SameStartSameSymbol(u: Classes, s: string, a: DslSymbol, b: DslSymbol, o: nat)
    requires IsSymbolAt(u, s, a, o) && IsSymbolAt(u, s, b, o)
    ensures a == b
  {
    assert |a.name| == |b.name|;
  }

  lemma OneMoreAlike<T>(a: seq<T>, b: seq<T>, k: nat)
    requires k < |a| && k < |b| && a[..k] == b[..k] && a[k] == b[k]
    ensures a[..k + 1] == b[..k + 1]
  {
    assert a[..k + 1] == a[..k] + [a[k]] && b[..k + 1] == b[..k] + [b[k]];
  }

  /** The symbol of one list that covers the next start of the other is the next one, and the same. */
  lemma SameRun(u: Classes, s: string, symbols: seq<DslSymbol>, starts: seq<nat>,
                symbols': seq<DslSymbol>, starts': seq<nat>, k: nat, m: nat)
    requires SymbolsUpTo(u, s, symbols, starts, |s|) && SymbolsUpTo(u, s, symbols', starts', |s|)
    requires k < |symbols| && k <= |symbols'| && symbols[..k] == symbols'[..k] && starts[..k] == starts'[..k]
    requires m < |symbols'| && starts'[m] <= starts[k] < starts'[m] + |symbols'[m].name|
    ensures k < |symbols'| && symbols[..k + 1] == symbols'[..k + 1] && starts[..k + 1] == starts'[..k + 1]
  {
    PrefixesAgree(symbols, starts, symbols', starts', k);
    assert m >= k;
    FirstFrom(u, s, symbols, starts, symbols', starts', k);
    SameStartSameSymbol(u, s, symbols[k], symbols'[k], starts[k]);
    OneMoreAlike(symbols, symbols', k);
    OneMoreAlike(starts, starts', k);
  }

  lemma {:induction false} SymbolsUnique(u: Classes, s: string, symbols: seq<DslSymbol>, starts: seq<nat>,
                                         symbols': seq<DslSymbol>, starts': seq<nat>, k: nat)
    requires SymbolsUpTo(u, s, symbols, starts, |s|) && SymbolsUpTo(u, s, symbols', starts', |s|)
    requires k <= |symbols|
    ensures k <= |symbols'| && symbols[..k] == symbols'[..k] && starts[..k] == starts'[..k]
  {
    if k > 0 {
      SymbolsUnique(u, s, symbols, starts, symbols', starts', k - 1);
      var o := starts[k - 1];
      assert IsSymbolAt(u, s, symbols[k - 1], o) && NeedsSymbol(u, s, o);
      assert Covered(symbols', starts', o);
      var m :| 0 <= m < |starts'| && starts'[m] <= o < starts'[m] + |symbols'[m].name|;
      assert IsSymbolAt(u, s, symbols'[m], starts'[m]);
      SameRun(u, s, symbols, starts, symbols', starts', k - 1, m);
    }
  }

  /** There is only one such list: the specification leaves the extractor no choice. */
  lemma SymbolsDetermined(u: Classes, s: string, symbols: seq<DslSymbol>, symbols': seq<DslSymbol>)
    requires AreSymbolsOf(u, s, symbols) && AreSymbolsOf(u, s, symbols')
    ensures symbols == symbols'
  {
    var starts :| SymbolsUpTo(u, s, symbols, starts, |s|);
    var starts' :| SymbolsUpTo(u, s, symbols', starts', |s|);
    SymbolsUnique(u, s, symbols, starts, symbols', starts', |symbols|);
    SymbolsUnique(u, s, symbols', starts', symbols, starts, |symbols'|);
    assert symbols[..|symbols|] == symbols && symbols'[..|symbols'|] == symbols';
  }
}
