/** The deterministic id of a transaction: a hash of four normalised fields, and the rows it tells apart. */
module TransactionIds {
  import opened Texts
  import opened LetterCases

  datatype TransactionInput = TransactionInput(
    accountId: string,
    date: string,
    amount: string,
    description: string,
    sourceRef: string)

  /** From a row to its transaction id. The ledger assumes nothing about it but that it is a function. */
  type IdOf = TransactionInput -> string

  datatype Fields = Fields(account: string, date: string, amount: string, description: string)

  /** What the id depends on: case and surrounding blanks do not matter, nor does where a row came from. */
  function FieldsOf(space: char -> bool, row: TransactionInput): Fields {
    Fields(AsciiUpper(Trim(space, row.accountId)), Trim(space, row.date), Trim(space, row.amount),
           AsciiLower(Trim(space, row.description)))
  }

  function Joined(f: Fields): string {
    f.account + "|" + f.date + "|" + f.amount + "|" + f.description
  }

  function Canonical(space: char -> bool, row: TransactionInput): string { Joined(FieldsOf(space, row)) }

  /** The id in use: a content hash of the canonical text. */
  function DeterministicTxId(space: char -> bool, hash: string -> string): IdOf {
    row => hash(Canonical(space, row))
  }

  // ---------------------------------------------------------------------------------------------
  // Cutting a canonical text
  // ---------------------------------------------------------------------------------------------

  /** Fields that normalising leaves as they are. */
  predicate Normal(space: char -> bool, f: Fields) {
    && Trim(space, f.account) == f.account && AsciiUpper(f.account) == f.account
    && Trim(space, f.date) == f.date
    && Trim(space, f.amount) == f.amount
    && Trim(space, f.description) == f.description && AsciiLower(f.description) == f.description
  }

  predicate AreBars(s: string, i: nat, j: nat, k: nat) {
    i < j < k < |s| && s[i] == '|' && s[j] == '|' && s[k] == '|'
  }

  /** The text between three of its bars. */
  function Cut(s: string, i: nat, j: nat, k: nat): Fields
    requires AreBars(s, i, j, k)
  {
    Fields(s[..i], s[i + 1..j], s[j + 1..k], s[k + 1..])
  }

  /** Whichever three bars `s` is cut at, the fields are not normal or they are `f`. */
  ghost predicate CutsOnlyInto(space: char -> bool, s: string, f: Fields) {
    forall i, j, k | AreBars(s, i, j, k) && Normal(space, Cut(s, i, j, k)) :: Cut(s, i, j, k) == f
  }

  lemma JoinOfCut(s: string, i: nat, j: nat, k: nat)
    requires AreBars(s, i, j, k)
    ensures Joined(Cut(s, i, j, k)) == s
  {
    assert s == s[..i] + "|" + s[i + 1..];
    assert s[i + 1..] == s[i + 1..j] + "|" + s[j + 1..];
    assert s[j + 1..] == s[j + 1..k] + "|" + s[k + 1..];
  }

  lemma CutOfJoin(f: Fields)
    ensures var i := |f.account|;
            var j := i + 1 + |f.date|;
            var k := j + 1 + |f.amount|;
            AreBars(Joined(f), i, j, k) && Cut(Joined(f), i, j, k) == f
  {
    var s, i := Joined(f), |f.account|;
    var j := i + 1 + |f.date|;
    var k := j + 1 + |f.amount|;
    assert s[i] == '|' && s[j] == '|' && s[k] == '|';
    assert s[..i] == f.account && s[i + 1..j] == f.date && s[j + 1..k] == f.amount && s[k + 1..] == f.description;
  }

  // ---------------------------------------------------------------------------------------------
  // Normalised fields are normal
  // ---------------------------------------------------------------------------------------------

  predicate IsLetter(c: char) { 'a' <= c <= 'z' || 'A' <= c <= 'Z' }

  lemma {:induction false} TrimStartFront(space: char -> bool, s: string)
    ensures TrimStart(space, s) == [] || !space(TrimStart(space, s)[0])
  {
    if s != [] && space(s[0]) {
      TrimStartFront(space, s[1..]);
    }
  }

  lemma {:induction false} TrimEndBack(space: char -> bool, s: string)
    ensures var t := TrimEnd(space, s);
            t == [] || (t[0] == s[0] && !space(t[|t| - 1]))
  {
    if s != [] && space(s[|s| - 1]) {
      TrimEndBack(space, s[..|s| - 1]);
    }
  }

  lemma {:induction false} TrimEnds(space: char -> bool, s: string)
    ensures Trim(space, s) == [] || Trimmed(space, Trim(space, s))
  {
    TrimStartFront(space, s);
    TrimEndBack(space, TrimStart(space, s));
  }

  /** Changing the case of letters changes neither the length nor anything but letters into letters. */
  lemma {:induction false} CaseChange(s: string, i: nat)
    ensures |AsciiUpper(s)| == |AsciiLower(s)| == |s|
    ensures i < |s| ==> AsciiUpper(s)[i] == s[i] || (IsLetter(s[i]) && IsLetter(AsciiUpper(s)[i]))
    ensures i < |s| ==> AsciiLower(s)[i] == s[i] || (IsLetter(s[i]) && IsLetter(AsciiLower(s)[i]))
  {
    if s != [] {
      CaseChange(s[1..], if i > 0 then i - 1 else 0);
    }
  }

  lemma {:induction false} CaseStays(s: string)
    ensures AsciiUpper(AsciiUpper(s)) == AsciiUpper(s)
    ensures AsciiLower(AsciiLower(s)) == AsciiLower(s)
  {
    if s != [] {
      CaseStays(s[1..]);
      assert AsciiUpper(s)[1..] == AsciiUpper(s[1..]) && AsciiLower(s)[1..] == AsciiLower(s[1..]);
    }
  }

  lemma TrimStays(space: char -> bool, s: string)
    requires s == [] || Trimmed(space, s)
    ensures Trim(space, s) == s
  {
  }

  /** No letter is blank. */
  ghost predicate LettersShow(space: char -> bool) { forall c | IsLetter(c) :: !space(c) }

  lemma TrimmedCase(space: char -> bool, s: string)
    requires LettersShow(space)
    ensures var t := Trim(space, s);
            && Trim(space, t) == t
            && Trim(space, AsciiUpper(t)) == AsciiUpper(t)
            && Trim(space, AsciiLower(t)) == AsciiLower(t)
  {
    var t := Trim(space, s);
    TrimEnds(space, s);
    CaseChange(t, 0);
    if t != [] {
      CaseChange(t, |t| - 1);
    }
    TrimStays(space, t);
    TrimStays(space, AsciiUpper(t));
    TrimStays(space, AsciiLower(t));
  }

  lemma FieldsAreNormal(space: char -> bool, row: TransactionInput)
    requires LettersShow(space)
    ensures Normal(space, FieldsOf(space, row))
  {
    TrimmedCase(space, row.accountId);
    TrimmedCase(space, row.date);
    TrimmedCase(space, row.amount);
    TrimmedCase(space, row.description);
    CaseStays(Trim(space, row.accountId));
    CaseStays(Trim(space, row.description));
  }

  // ---------------------------------------------------------------------------------------------
  // What an id identifies
  // ---------------------------------------------------------------------------------------------

  ghost predicate Injective(hash: string -> string) {
    forall x, y :: hash(x) == hash(y) ==> x == y
  }

  /** Only rows with the same fields share the id of `a`. */
  ghost predicate IdentifiesFields(space: char -> bool, hash: string -> string, a: TransactionInput) {
    forall b :: DeterministicTxId(space, hash)(b) == DeterministicTxId(space, hash)(a)
            ==> FieldsOf(space, b) == FieldsOf(space, a)
  }

  lemma IdOfRow(space: char -> bool, hash: string -> string, row: TransactionInput)
    ensures DeterministicTxId(space, hash)(row) == hash(Joined(FieldsOf(space, row)))
  {
    assert Canonical(space, row) == Joined(FieldsOf(space, row));
  }

  /** The row made of a normal cut of the canonical text has those fields and the same id. */
  lemma CutIsRow(space: char -> bool, hash: string -> string, a: TransactionInput, i: nat, j: nat, k: nat)
    requires AreBars(Canonical(space, a), i, j, k)
    requires Normal(space, Cut(Canonical(space, a), i, j, k))
    requires IdentifiesFields(space, hash, a)
    ensures Cut(Canonical(space, a), i, j, k) == FieldsOf(space, a)
  {
    var f := Cut(Canonical(space, a), i, j, k);
    var b := TransactionInput(f.account, f.date, f.amount, f.description, "");
    JoinOfCut(Canonical(space, a), i, j, k);
    assert FieldsOf(space, b) == f;
    IdOfRow(space, hash, a);
    IdOfRow(space, hash, b);
  }

  lemma OnlyCut(space: char -> bool, f: Fields, g: Fields)
    requires Normal(space, g) && CutsOnlyInto(space, Joined(g), f)
    ensures g == f
  {
    var s, i, j := Joined(g), |g.account|, |g.account| + 1 + |g.date|;
    CutOfJoin(g);
    assert AreBars(s, i, j, j + 1 + |g.amount|);
  }

  /** An id identifies the fields of a row iff its canonical text can be cut into normal fields in no other way. */
  lemma IdentifiesExactly(space: char -> bool, hash: string -> string, a: TransactionInput)
    requires Injective(hash) && LettersShow(space)
    ensures IdentifiesFields(space, hash, a) <==> CutsOnlyInto(space, Canonical(space, a), FieldsOf(space, a))
  {
    var s := Canonical(space, a);
    if IdentifiesFields(space, hash, a) {
      forall i, j, k | AreBars(s, i, j, k) && Normal(space, Cut(s, i, j, k))
        ensures Cut(s, i, j, k) == FieldsOf(space, a)
      {
        CutIsRow(space, hash, a, i, j, k);
      }
    }
    if CutsOnlyInto(space, s, FieldsOf(space, a)) {
      forall b | DeterministicTxId(space, hash)(b) == DeterministicTxId(space, hash)(a)
        ensures FieldsOf(space, b) == FieldsOf(space, a)
      {
        IdOfRow(space, hash, a);
        IdOfRow(space, hash, b);
        FieldsAreNormal(space, b);
        OnlyCut(space, FieldsOf(space, a), FieldsOf(space, b));
      }
    }
  }

  lemma BarSeparates(a: string, rest: string, b: string, rest': string)
    requires '|' !in a && '|' !in b
    requires a + "|" + rest == b + "|" + rest'
    ensures a == b && rest == rest'
  {
    var s, t := a + "|" + rest, b + "|" + rest';
    assert s[|a|] == '|' && t[|b|] == '|';
    assert forall i | 0 <= i < |a| :: s[i] == a[i] && a[i] in a;
    assert forall i | 0 <= i < |b| :: t[i] == b[i] && b[i] in b;
    assert s[..|a|] == a && t[..|b|] == b;
    assert s[|a| + 1..] == rest && t[|b| + 1..] == rest';
  }

  /** No field before the description has a bar. */
  predicate BarsAtEnd(f: Fields) { '|' !in f.account && '|' !in f.date && '|' !in f.amount }

  lemma JoinDetermines(f: Fields, g: Fields)
    requires BarsAtEnd(f) && BarsAtEnd(g) && Joined(f) == Joined(g)
    ensures f == g
  {
    var fa, ga := f.amount + "|" + f.description, g.amount + "|" + g.description;
    assert Joined(f) == f.account + "|" + (f.date + "|" + fa) && Joined(g) == g.account + "|" + (g.date + "|" + ga);
    BarSeparates(f.account, f.date + "|" + fa, g.account, g.date + "|" + ga);
    BarSeparates(f.date, fa, g.date, ga);
    BarSeparates(f.amount, f.description, g.amount, g.description);
  }

  /** Of two rows without a bar before the description, exactly those with the same fields have the same id. */
  lemma IdIdentifiesFields(space: char -> bool, hash: string -> string, a: TransactionInput, b: TransactionInput)
    requires Injective(hash)
    requires BarsAtEnd(FieldsOf(space, a)) && BarsAtEnd(FieldsOf(space, b))
    ensures DeterministicTxId(space, hash)(a) == DeterministicTxId(space, hash)(b)
       <==> FieldsOf(space, a) == FieldsOf(space, b)
  {
    IdOfRow(space, hash, a);
    IdOfRow(space, hash, b);
    if DeterministicTxId(space, hash)(a) == DeterministicTxId(space, hash)(b) {
      JoinDetermines(FieldsOf(space, a), FieldsOf(space, b));
    }
  }

  /** The rows agree up to blanks around the fields and the case of letters in account and description. */
  predicate SameFields(space: char -> bool, a: TransactionInput, b: TransactionInput) {
    && SameButCase(Trim(space, a.accountId), Trim(space, b.accountId))
    && Trim(space, a.date) == Trim(space, b.date)
    && Trim(space, a.amount) == Trim(space, b.amount)
    && SameButCase(Trim(space, a.description), Trim(space, b.description))
  }

  lemma SameFieldsExactly(space: char -> bool, a: TransactionInput, b: TransactionInput)
    ensures FieldsOf(space, a) == FieldsOf(space, b) <==> SameFields(space, a, b)
  {
    CaseTells(Trim(space, a.accountId), Trim(space, b.accountId));
    CaseTells(Trim(space, a.description), Trim(space, b.description));
  }

  /** Rows that agree up to blanks and case share their id, whatever the hash. */
  lemma LikeRowsShareId(space: char -> bool, hash: string -> string, a: TransactionInput, b: TransactionInput)
    requires SameFields(space, a, b)
    ensures DeterministicTxId(space, hash)(a) == DeterministicTxId(space, hash)(b)
  {
    SameFieldsExactly(space, a, b);
    IdOfRow(space, hash, a);
    IdOfRow(space, hash, b);
  }

  lemma NoBarAfterTrim(space: char -> bool, s: string)
    requires '|' !in s
    ensures '|' !in Trim(space, s) && '|' !in AsciiUpper(Trim(space, s))
  {
    var t := Trim(space, s);
    var i, j := TrimExactly(space, s);
    assert forall c | c in t :: c in s;
    UpperExactly(t);
    forall k | 0 <= k < |t|
      ensures AsciiUpper(t)[k] != '|'
    {
      assert t[k] in t;
    }
  }

  /** Rows without a bar before the description share their id exactly when they agree up to blanks and case. */
  lemma SameIdExactly(space: char -> bool, hash: string -> string, a: TransactionInput, b: TransactionInput)
    requires Injective(hash)
    requires '|' !in a.accountId && '|' !in a.date && '|' !in a.amount
    requires '|' !in b.accountId && '|' !in b.date && '|' !in b.amount
    ensures DeterministicTxId(space, hash)(a) == DeterministicTxId(space, hash)(b) <==> SameFields(space, a, b)
  {
    NoBarAfterTrim(space, a.accountId);
    NoBarAfterTrim(space, a.date);
    NoBarAfterTrim(space, a.amount);
    NoBarAfterTrim(space, b.accountId);
    NoBarAfterTrim(space, b.date);
    NoBarAfterTrim(space, b.amount);
    IdIdentifiesFields(space, hash, a, b);
    SameFieldsExactly(space, a, b);
  }

  lemma BarsOfJoin(f: Fields, n: nat)
    requires '|' !in f.account && '|' !in f.date && '|' !in f.amount && '|' !in f.description
    requires n < |Joined(f)| && Joined(f)[n] == '|'
    ensures var i := |f.account|;
            var j := i + 1 + |f.date|;
            n == i || n == j || n == j + 1 + |f.amount|
  {
    var s, i := Joined(f), |f.account|;
    var j := i + 1 + |f.date|;
    var k := j + 1 + |f.amount|;
    assert forall m | 0 <= m < i :: s[m] == f.account[m] && f.account[m] in f.account;
    assert forall m | i < m < j :: s[m] == f.date[m - i - 1] && f.date[m - i - 1] in f.date;
    assert forall m | j < m < k :: s[m] == f.amount[m - j - 1] && f.amount[m - j - 1] in f.amount;
    assert forall m | k < m < |s| :: s[m] == f.description[m - k - 1] && f.description[m - k - 1] in f.description;
  }

  lemma OneCut(f: Fields, i: nat, j: nat, k: nat)
    requires '|' !in f.account && '|' !in f.date && '|' !in f.amount && '|' !in f.description
    requires AreBars(Joined(f), i, j, k)
    ensures Cut(Joined(f), i, j, k) == f
  {
    CutOfJoin(f);
    BarsOfJoin(f, i);
    BarsOfJoin(f, j);
    BarsOfJoin(f, k);
  }

  /** A row without bars in its fields is identified: its canonical text has one cut. */
  lemma UnbarredIsIdentified(space: char -> bool, hash: string -> string, a: TransactionInput)
    requires Injective(hash) && LettersShow(space)
    requires var f := FieldsOf(space, a);
             '|' !in f.account && '|' !in f.date && '|' !in f.amount && '|' !in f.description
    ensures IdentifiesFields(space, hash, a)
  {
    var f := FieldsOf(space, a);
    forall i, j, k | AreBars(Joined(f), i, j, k)
      ensures Cut(Joined(f), i, j, k) == f
    {
      OneCut(f, i, j, k);
    }
    IdentifiesExactly(space, hash, a);
  }

  lemma ShortTexts(space: char -> bool)
    requires !space('a') && !space('b') && !space('B') && !space('c') && !space('d') && !space('1')
    ensures Trim(space, "a|b") == "a|b" && Trim(space, "a") == "a" && Trim(space, "B") == "B"
    ensures Trim(space, "c") == "c" && Trim(space, "d") == "d" && Trim(space, "1") == "1" && Trim(space, "1|d") == "1|d"
    ensures AsciiUpper("a|b") == "A|B" && AsciiUpper("a") == "A"
    ensures AsciiLower("d") == "d" && AsciiLower("1|d") == "1|d"
  {
  }

  /** Two rows that differ in all four fields and share an id, because of the bar in account "a|b". */
  lemma BarredRowsCollide(space: char -> bool, hash: string -> string, a: TransactionInput, b: TransactionInput)
    requires !space('a') && !space('b') && !space('B') && !space('c') && !space('d') && !space('1')
    requires a == TransactionInput("a|b", "c", "1", "d", "")
    requires b == TransactionInput("a", "B", "c", "1|d", "")
    ensures DeterministicTxId(space, hash)(a) == DeterministicTxId(space, hash)(b)
    ensures FieldsOf(space, a) == Fields("A|B", "c", "1", "d")
    ensures FieldsOf(space, b) == Fields("A", "B", "c", "1|d")
  {
    ShortTexts(space);
    assert Joined(Fields("A|B", "c", "1", "d")) == Joined(Fields("A", "B", "c", "1|d"));
    IdOfRow(space, hash, a);
    IdOfRow(space, hash, b);
  }
}
