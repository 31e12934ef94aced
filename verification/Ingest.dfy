/** Idempotent ingest: new rows are recorded, journalled and projected once. */
module Ingest {
  import opened Results
  import opened Keyed
  import opened Texts
  import opened Amounts
  import opened TransactionIds

  datatype IngestedTransaction = IngestedTransaction(txId: string, sourceRef: string)

  datatype JournalTransaction = JournalTransaction(
    date: string,
    payee: string,
    narration: string,
    assetAccount: string,
    counterpartyAccount: string,
    amount: string,
    currency: string,
    txId: string,
    sourceRef: string)

  datatype ProjectionRow = ProjectionRow(
    txId: string,
    accountId: string,
    date: string,
    amount: string,
    description: string,
    sourceRef: string)

  function FromInput(idOf: IdOf, row: TransactionInput): JournalTransaction {
    JournalTransaction(row.date, "Imported", row.description,
                       "Assets:Bank:" + row.accountId, "Equity:Suspense:Imported",
                       row.amount, "USD", idOf(row), row.sourceRef)
  }

  function ProjectionOf(idOf: IdOf, row: TransactionInput): ProjectionRow {
    ProjectionRow(idOf(row), row.accountId, row.date, row.amount, row.description, row.sourceRef)
  }

  datatype Posting = Posting(account: string, amount: string, currency: string)

  /** The two postings of a journal entry. */
  function Postings(space: char -> bool, t: JournalTransaction): (Posting, Posting) {
    (Posting(t.assetAccount, t.amount, t.currency),
     Posting(t.counterpartyAccount, InvertAmount(space, t.amount), t.currency))
  }

  /** The two postings of an entry are in one currency and sum to zero. */
  ghost predicate Balanced(space: char -> bool, t: JournalTransaction) {
    var (debit, credit) := Postings(space, t);
    && IsAmount(Trim(space, debit.amount)) && IsAmount(credit.amount)
    && debit.currency == credit.currency
    && Worth(Trim(space, debit.amount)) + Worth(credit.amount) == 0.0
  }

  /**
   A row with a well-formed amount makes a balanced entry: its amount goes to the bank account, and what is worth
   the opposite to the suspense account.
   */
  lemma PostingsBalance(space: char -> bool, idOf: IdOf, row: TransactionInput)
    requires IsAmount(Trim(space, row.amount))
    ensures Balanced(space, FromInput(idOf, row))
    ensures var (bank, suspense) := Postings(space, FromInput(idOf, row));
            && bank == Posting("Assets:Bank:" + row.accountId, row.amount, "USD")
            && suspense.account == "Equity:Suspense:Imported" && suspense.currency == "USD"
            && Worth(suspense.amount) == -Worth(Trim(space, row.amount))
  {
    InverseBalances(space, row.amount);
  }

  /** Entry and projection carry the row's own fields and its id. */
  lemma RowRecorded(idOf: IdOf, row: TransactionInput)
    ensures var t := FromInput(idOf, row);
            && t.date == row.date && t.payee == "Imported" && t.narration == row.description
            && t.txId == idOf(row) && t.sourceRef == row.sourceRef
    ensures var p := ProjectionOf(idOf, row);
            && p.txId == idOf(row) && p.accountId == row.accountId && p.date == row.date
            && p.amount == row.amount && p.description == row.description && p.sourceRef == row.sourceRef
  {
  }

  // ---------------------------------------------------------------------------------------------
  // New rows
  // ---------------------------------------------------------------------------------------------

  function IdsOf(idOf: IdOf, rows: seq<TransactionInput>): set<string> {
    if rows == [] then {} else {idOf(rows[0])} + IdsOf(idOf, rows[1..])
  }

  /** The first row of each id that is not in `seen`, in order. */
  function NewRows(idOf: IdOf, seen: set<string>, rows: seq<TransactionInput>): seq<TransactionInput>
    decreases |rows|
  {
    if rows == [] then []
    else
      var id := idOf(rows[0]);
      if id in seen then NewRows(idOf, seen, rows[1..]) else [rows[0]] + NewRows(idOf, seen + {id}, rows[1..])
  }

  function Ids(idOf: IdOf, rows: seq<TransactionInput>): seq<string> {
    seq(|rows|, i requires 0 <= i < |rows| => idOf(rows[i]))
  }

  function Ingested(idOf: IdOf, rows: seq<TransactionInput>): seq<IngestedTransaction> {
    seq(|rows|, i requires 0 <= i < |rows| => IngestedTransaction(idOf(rows[i]), rows[i].sourceRef))
  }

  function Entries(idOf: IdOf, rows: seq<TransactionInput>): seq<JournalTransaction> {
    seq(|rows|, i requires 0 <= i < |rows| => FromInput(idOf, rows[i]))
  }

  function FirstWith(idOf: IdOf, rows: seq<TransactionInput>, id: string): Option<TransactionInput> {
    if rows == [] then None else if idOf(rows[0]) == id then Some(rows[0]) else FirstWith(idOf, rows[1..], id)
  }

  function LastWith(idOf: IdOf, rows: seq<TransactionInput>, id: string): Option<TransactionInput> {
    if rows == [] then None
    else if idOf(rows[|rows| - 1]) == id then Some(rows[|rows| - 1])
    else LastWith(idOf, rows[..|rows| - 1], id)
  }

  /** The projection of the new rows: each from the last row of the batch with its id. */
  function Projected(idOf: IdOf, rows: seq<TransactionInput>, fresh_: seq<TransactionInput>): seq<ProjectionRow> {
    if fresh_ == [] then []
    else
      var last := fresh_[|fresh_| - 1];
      Projected(idOf, rows, fresh_[..|fresh_| - 1])
      + match LastWith(idOf, rows, idOf(last)) case Some(row) => [ProjectionOf(idOf, row)] case None => []
  }

  /** New rows have distinct unseen ids; with what was seen they cover the batch; each is the first with its id. */
  lemma {:induction false} NewRowsExact(idOf: IdOf, seen: set<string>, rows: seq<TransactionInput>)
    ensures var new_ := NewRows(idOf, seen, rows);
            && Distinct(Ids(idOf, new_))
            && (forall id :: id in Ids(idOf, new_) <==> id in IdsOf(idOf, rows) && id !in seen)
            && (forall row | row in new_ :: FirstWith(idOf, rows, idOf(row)) == Some(row))
    decreases |rows|
  {
    if rows != [] {
      var id := idOf(rows[0]);
      var seen' := if id in seen then seen else seen + {id};
      var rest := NewRows(idOf, seen', rows[1..]);
      NewRowsExact(idOf, seen', rows[1..]);
      forall row | row in rest
        ensures idOf(row) != id
      {
        var i :| 0 <= i < |rest| && rest[i] == row;
        assert Ids(idOf, rest)[i] in Ids(idOf, rest);
      }
      if id !in seen {
        assert Ids(idOf, [rows[0]] + rest) == [id] + Ids(idOf, rest);
      }
    }
  }

  /** `part` is taken from `rows` at the positions `at`, in order. */
  ghost predicate TakenAt(rows: seq<TransactionInput>, part: seq<TransactionInput>, at: seq<nat>) {
    && |at| == |part|
    && (forall i, j | 0 <= i < j < |at| :: at[i] < at[j])
    && (forall i | 0 <= i < |at| :: at[i] < |rows| && part[i] == rows[at[i]])
  }

  lemma TakenLater(rows: seq<TransactionInput>, part: seq<TransactionInput>, later: seq<nat>) returns (at: seq<nat>)
    requires rows != [] && TakenAt(rows[1..], part, later)
    ensures TakenAt(rows, part, at)
    ensures TakenAt(rows, [rows[0]] + part, [0] + at)
  {
    at := seq(|later|, i requires 0 <= i < |later| => later[i] + 1);
  }

  /** The new rows are reported in the order of the batch. */
  lemma {:induction false} NewRowsInOrder(idOf: IdOf, seen: set<string>, rows: seq<TransactionInput>)
    returns (at: seq<nat>)
    ensures TakenAt(rows, NewRows(idOf, seen, rows), at)
    decreases |rows|
  {
    if rows == [] {
      at := [];
    } else {
      var id := idOf(rows[0]);
      var seen' := if id in seen then seen else seen + {id};
      at := NewRowsInOrder(idOf, seen', rows[1..]);
      at := TakenLater(rows, NewRows(idOf, seen', rows[1..]), at);
      if id !in seen {
        at := [0] + at;
      }
    }
  }

  lemma {:induction false} IdsOfAppend(idOf: IdOf, xs: seq<TransactionInput>, ys: seq<TransactionInput>)
    ensures IdsOf(idOf, xs + ys) == IdsOf(idOf, xs) + IdsOf(idOf, ys)
  {
    if xs == [] {
      assert xs + ys == ys;
    } else {
      assert (xs + ys)[1..] == xs[1..] + ys;
      IdsOfAppend(idOf, xs[1..], ys);
    }
  }

  /** One call with two batches reports what two calls report. */
  lemma {:induction false} IngestSplits(idOf: IdOf, seen: set<string>, xs: seq<TransactionInput>,
                                        ys: seq<TransactionInput>)
    ensures NewRows(idOf, seen, xs + ys) == NewRows(idOf, seen, xs) + NewRows(idOf, seen + IdsOf(idOf, xs), ys)
    decreases |xs|
  {
    if xs == [] {
      assert xs + ys == ys && seen + IdsOf(idOf, xs) == seen;
    } else {
      var id := idOf(xs[0]);
      var seen' := if id in seen then seen else seen + {id};
      assert (xs + ys)[0] == xs[0] && (xs + ys)[1..] == xs[1..] + ys;
      IngestSplits(idOf, seen', xs[1..], ys);
      assert seen' + IdsOf(idOf, xs[1..]) == seen + IdsOf(idOf, xs);
    }
  }

  lemma {:induction false} NothingNew(idOf: IdOf, seen: set<string>, rows: seq<TransactionInput>)
    requires IdsOf(idOf, rows) <= seen
    ensures NewRows(idOf, seen, rows) == []
    decreases |rows|
  {
    if rows != [] {
      NothingNew(idOf, seen, rows[1..]);
    }
  }

  /** Ingesting a batch again reports nothing, and leaves the seen ids as they are. */
  lemma IngestTwice(idOf: IdOf, seen: set<string>, rows: seq<TransactionInput>)
    ensures NewRows(idOf, seen + IdsOf(idOf, rows), rows) == []
    ensures seen + IdsOf(idOf, rows) + IdsOf(idOf, rows) == seen + IdsOf(idOf, rows)
  {
    NothingNew(idOf, seen + IdsOf(idOf, rows), rows);
  }

  lemma {:induction false} LastWithFinds(idOf: IdOf, rows: seq<TransactionInput>, id: string)
    ensures LastWith(idOf, rows, id).Some? <==> id in IdsOf(idOf, rows)
    ensures LastWith(idOf, rows, id).Some? ==> idOf(LastWith(idOf, rows, id).value) == id
  {
    if rows != [] {
      var front, last := rows[..|rows| - 1], rows[|rows| - 1];
      LastWithFinds(idOf, front, id);
      IdsOfAppend(idOf, front, [last]);
      assert rows == front + [last] && IdsOf(idOf, [last]) == {idOf(last)};
    }
  }

  function ProjectedIds(rows: seq<ProjectionRow>): seq<string> {
    seq(|rows|, i requires 0 <= i < |rows| => rows[i].txId)
  }

  function JournalIds(entries: seq<JournalTransaction>): seq<string> {
    seq(|entries|, i requires 0 <= i < |entries| => entries[i].txId)
  }

  /** Each new row is projected once, under its id. */
  lemma {:induction false} ProjectedInOrder(idOf: IdOf, rows: seq<TransactionInput>, new_: seq<TransactionInput>)
    requires forall id | id in Ids(idOf, new_) :: id in IdsOf(idOf, rows)
    ensures |Projected(idOf, rows, new_)| == |new_|
    ensures ProjectedIds(Projected(idOf, rows, new_)) == Ids(idOf, new_)
  {
    if new_ != [] {
      var n := |new_| - 1;
      var front, last := new_[..n], new_[n];
      assert Ids(idOf, new_)[n] in Ids(idOf, new_);
      LastWithFinds(idOf, rows, idOf(last));
      forall id | id in Ids(idOf, front)
        ensures id in IdsOf(idOf, rows)
      {
        var i :| 0 <= i < |front| && Ids(idOf, front)[i] == id;
        assert Ids(idOf, new_)[i] in Ids(idOf, new_);
      }
      ProjectedInOrder(idOf, rows, front);
      var row := LastWith(idOf, rows, idOf(last)).value;
      assert Projected(idOf, rows, new_) == Projected(idOf, rows, front) + [ProjectionOf(idOf, row)];
      assert Ids(idOf, new_) == Ids(idOf, front) + [idOf(last)];
    }
  }

  // ---------------------------------------------------------------------------------------------
  // The ledger
  // ---------------------------------------------------------------------------------------------

  /** What is kept: the seen ids, the journal and the workbook projection. */
  datatype Book = Book(seen: set<string>, journal: seq<JournalTransaction>, projection: seq<ProjectionRow>)

  function Step(idOf: IdOf, b: Book, rows: seq<TransactionInput>): Book {
    var new_ := NewRows(idOf, b.seen, rows);
    Book(b.seen + IdsOf(idOf, rows), b.journal + Entries(idOf, new_), b.projection + Projected(idOf, rows, new_))
  }

  class IngestedLedger {
    const idOf: IdOf
    var seen: set<string>
    var projectionRows: seq<ProjectionRow>

    constructor (idOf: IdOf)
      ensures this.idOf == idOf && seen == {} && projectionRows == []
    {
      this.idOf := idOf;
      seen, projectionRows := {}, [];
    }

    method Ingest(rows: seq<TransactionInput>) returns (out: seq<IngestedTransaction>)
      modifies this`seen
      ensures out == Ingested(idOf, NewRows(idOf, old(seen), rows))
      ensures seen == old(seen) + IdsOf(idOf, rows)
    {
      out := [];
      for i := 0 to |rows|
        invariant seen == old(seen) + IdsOf(idOf, rows[..i])
        invariant out == Ingested(idOf, NewRows(idOf, old(seen), rows[..i]))
      {
        var id := idOf(rows[i]);
        assert rows[..i + 1] == rows[..i] + [rows[i]];
        IdsOfAppend(idOf, rows[..i], [rows[i]]);
        IngestSplits(idOf, old(seen), rows[..i], [rows[i]]);
        assert IdsOf(idOf, [rows[i]]) == {id};
        assert NewRows(idOf, seen, [rows[i]]) == if id in seen then [] else [rows[i]];
        if id !in seen {
          seen := seen + {id};
          out := out + [IngestedTransaction(id, rows[i].sourceRef)];
        }
      }
      assert rows[..|rows|] == rows;
    }

    /** The journal file is its list of entries, and appending to it succeeds. */
    method IngestToJournal(rows: seq<TransactionInput>, journal: seq<JournalTransaction>)
      returns (inserted: seq<IngestedTransaction>, journal': seq<JournalTransaction>)
      modifies this`seen
      ensures inserted == Ingested(idOf, NewRows(idOf, old(seen), rows))
      ensures seen == old(seen) + IdsOf(idOf, rows)
      ensures journal' == journal + Entries(idOf, NewRows(idOf, old(seen), rows))
    {
      ghost var new_ := NewRows(idOf, seen, rows);
      NewRowsExact(idOf, seen, rows);
      inserted := Ingest(rows);
      var entries := [];
      for i := 0 to |inserted|
        invariant entries == Entries(idOf, new_[..i])
      {
        assert new_[i] in new_;
        var row := FirstWith(idOf, rows, inserted[i].txId);
        assert row == Some(new_[i]);
        if row.Some? {
          entries := entries + [FromInput(idOf, row.value)];
        }
      }
      assert new_[..|inserted|] == new_;
      journal' := journal + entries;
    }

    /** Later rows replace earlier ones with the same id. */
    method IndexById(rows: seq<TransactionInput>) returns (byId: map<string, TransactionInput>)
      ensures forall id :: (if id in byId then Some(byId[id]) else None) == LastWith(idOf, rows, id)
    {
      byId := map[];
      for i := 0 to |rows|
        invariant forall id :: (if id in byId then Some(byId[id]) else None) == LastWith(idOf, rows[..i], id)
      {
        assert rows[..i + 1][..i] == rows[..i];
        byId := byId[idOf(rows[i]) := rows[i]];
      }
      assert rows[..|rows|] == rows;
    }

    method IngestToJournalAndWorkbook(rows: seq<TransactionInput>, journal: seq<JournalTransaction>)
      returns (inserted: seq<IngestedTransaction>, journal': seq<JournalTransaction>)
      modifies this
      ensures inserted == Ingested(idOf, NewRows(idOf, old(seen), rows))
      ensures Book(seen, journal', projectionRows) == Step(idOf, Book(old(seen), journal, old(projectionRows)), rows)
    {
      ghost var new_ := NewRows(idOf, seen, rows);
      inserted, journal' := IngestToJournal(rows, journal);
      if inserted == [] {
        return;
      }
      var byId := IndexById(rows);
      for i := 0 to |inserted|
        invariant seen == old(seen) + IdsOf(idOf, rows)
        invariant projectionRows == old(projectionRows) + Projected(idOf, rows, new_[..i])
      {
        assert new_[..i + 1][..i] == new_[..i];
        var id := inserted[i].txId;
        if id in byId {
          projectionRows := projectionRows + [ProjectionOf(idOf, byId[id])];
        }
      }
      assert new_[..|inserted|] == new_;
    }
  }

  // ---------------------------------------------------------------------------------------------
  // Runs of the full path
  // ---------------------------------------------------------------------------------------------

  function Run(idOf: IdOf, batches: seq<seq<TransactionInput>>): Book {
    if batches == [] then Book({}, [], []) else Step(idOf, Run(idOf, batches[..|batches| - 1]), batches[|batches| - 1])
  }

  /** Journal and projection list the same ids in the same order, each once, and they are the seen ids. */
  ghost predicate InStep(b: Book) {
    && JournalIds(b.journal) == ProjectedIds(b.projection)
    && Distinct(JournalIds(b.journal))
    && forall id :: id in b.seen <==> id in JournalIds(b.journal)
  }

  lemma IdsConcat(idOf: IdOf, b: Book, new_: seq<TransactionInput>, projected: seq<ProjectionRow>)
    ensures JournalIds(b.journal + Entries(idOf, new_)) == JournalIds(b.journal) + Ids(idOf, new_)
    ensures ProjectedIds(b.projection + projected) == ProjectedIds(b.projection) + ProjectedIds(projected)
  {
  }

  lemma DistinctConcat(a: seq<string>, b: seq<string>)
    requires Distinct(a) && Distinct(b)
    requires forall id | id in b :: id !in a
    ensures Distinct(a + b)
  {
    forall i, j | 0 <= i < j < |a + b|
      ensures (a + b)[i] != (a + b)[j]
    {
      if i < |a| <= j {
        assert a[i] in a && b[j - |a|] in b;
      }
    }
  }

  lemma StepKeepsInStep(idOf: IdOf, b: Book, rows: seq<TransactionInput>)
    requires InStep(b)
    ensures InStep(Step(idOf, b, rows))
  {
    var new_, next := NewRows(idOf, b.seen, rows), Step(idOf, b, rows);
    NewRowsExact(idOf, b.seen, rows);
    ProjectedInOrder(idOf, rows, new_);
    var before, ids := JournalIds(b.journal), Ids(idOf, new_);
    IdsConcat(idOf, b, new_, Projected(idOf, rows, new_));
    DistinctConcat(before, ids);
    assert forall id :: id in before + ids <==> id in before || id in ids;
  }

  /** Over every run of the full path, journal, projection and seen ids stay in step. */
  lemma {:induction false} RunInStep(idOf: IdOf, batches: seq<seq<TransactionInput>>)
    ensures InStep(Run(idOf, batches))
  {
    if batches != [] {
      RunInStep(idOf, batches[..|batches| - 1]);
      StepKeepsInStep(idOf, Run(idOf, batches[..|batches| - 1]), batches[|batches| - 1]);
    }
  }

  lemma {:induction false} NewRowsSubset(idOf: IdOf, seen: set<string>, rows: seq<TransactionInput>)
    ensures forall row | row in NewRows(idOf, seen, rows) :: row in rows
    decreases |rows|
  {
    if rows != [] {
      NewRowsSubset(idOf, seen, rows[1..]);
      NewRowsSubset(idOf, seen + {idOf(rows[0])}, rows[1..]);
    }
  }

  /** Over every run whose rows carry well-formed amounts, every journal entry balances. */
  lemma {:induction false} RunBalances(space: char -> bool, idOf: IdOf, batches: seq<seq<TransactionInput>>)
    requires forall rows, row | rows in batches && row in rows :: IsAmount(Trim(space, row.amount))
    ensures forall t | t in Run(idOf, batches).journal :: Balanced(space, t)
  {
    if batches != [] {
      var n := |batches| - 1;
      var before, rows := Run(idOf, batches[..n]), batches[n];
      RunBalances(space, idOf, batches[..n]);
      NewRowsSubset(idOf, before.seen, rows);
      forall t | t in Entries(idOf, NewRows(idOf, before.seen, rows))
        ensures Balanced(space, t)
      {
        var new_ := NewRows(idOf, before.seen, rows);
        var i :| 0 <= i < |new_| && t == FromInput(idOf, new_[i]);
        assert rows in batches && new_[i] in new_;
        PostingsBalance(space, idOf, new_[i]);
      }
    }
  }

  // ---------------------------------------------------------------------------------------------
  // Journal and projection contents
  // ---------------------------------------------------------------------------------------------

  lemma {:induction false} ProjectedAt(idOf: IdOf, rows: seq<TransactionInput>, new_: seq<TransactionInput>, i: nat)
    requires forall id | id in Ids(idOf, new_) :: id in IdsOf(idOf, rows)
    requires i < |new_|
    ensures |Projected(idOf, rows, new_)| == |new_|
    ensures LastWith(idOf, rows, idOf(new_[i])).Some?
    ensures Projected(idOf, rows, new_)[i] == ProjectionOf(idOf, LastWith(idOf, rows, idOf(new_[i])).value)
  {
    var n := |new_| - 1;
    var front := new_[..n];
    ProjectedInOrder(idOf, rows, new_);
    forall id | id in Ids(idOf, front)
      ensures id in IdsOf(idOf, rows)
    {
      var k :| 0 <= k < |front| && Ids(idOf, front)[k] == id;
      assert Ids(idOf, new_)[k] in Ids(idOf, new_);
    }
    ProjectedInOrder(idOf, rows, front);
    assert Ids(idOf, new_)[i] in Ids(idOf, new_);
    LastWithFinds(idOf, rows, idOf(new_[i]));
    if i < n {
      ProjectedAt(idOf, rows, front, i);
    } else {
      assert Ids(idOf, new_)[n] in Ids(idOf, new_);
    }
  }

  /** The entry and the row of the projection show the same row of the batch. */
  predicate ShowSameRow(t: JournalTransaction, p: ProjectionRow) {
    && t.txId == p.txId
    && t.assetAccount == "Assets:Bank:" + p.accountId
    && t.date == p.date
    && t.amount == p.amount
    && t.narration == p.description
    && t.sourceRef == p.sourceRef
  }

  ghost predicate ShowSameRows(journal: seq<JournalTransaction>, projection: seq<ProjectionRow>) {
    |journal| == |projection| && forall i | 0 <= i < |journal| :: ShowSameRow(journal[i], projection[i])
  }

  /** The first row of each new id is also the last one, or equal to it. */
  ghost predicate EndsAlike(idOf: IdOf, seen: set<string>, rows: seq<TransactionInput>) {
    forall id | id in IdsOf(idOf, rows) && id !in seen :: FirstWith(idOf, rows, id) == LastWith(idOf, rows, id)
  }

  lemma ShownRowsEqual(idOf: IdOf, a: TransactionInput, b: TransactionInput)
    requires idOf(a) == idOf(b)
    ensures ShowSameRow(FromInput(idOf, a), ProjectionOf(idOf, b)) <==> a == b
  {
    var prefix := "Assets:Bank:";
    assert (prefix + a.accountId)[|prefix|..] == a.accountId && (prefix + b.accountId)[|prefix|..] == b.accountId;
  }

  /** The `i`-th new row is the first with its id; what is projected for it is the last. */
  lemma NewRowShown(idOf: IdOf, seen: set<string>, rows: seq<TransactionInput>, i: nat)
    requires i < |NewRows(idOf, seen, rows)|
    ensures var new_ := NewRows(idOf, seen, rows);
            var id := idOf(new_[i]);
            && id in IdsOf(idOf, rows) && id !in seen
            && FirstWith(idOf, rows, id) == Some(new_[i])
            && |Projected(idOf, rows, new_)| == |new_|
            && (ShowSameRow(Entries(idOf, new_)[i], Projected(idOf, rows, new_)[i])
                <==> FirstWith(idOf, rows, id) == LastWith(idOf, rows, id))
  {
    var new_ := NewRows(idOf, seen, rows);
    NewRowsExact(idOf, seen, rows);
    assert new_[i] in new_ && Ids(idOf, new_)[i] in Ids(idOf, new_);
    ProjectedAt(idOf, rows, new_, i);
    LastWithFinds(idOf, rows, idOf(new_[i]));
    ShownRowsEqual(idOf, new_[i], LastWith(idOf, rows, idOf(new_[i])).value);
  }

  /**
   The journal records the first row of an id and the projection the last. A call leaves both showing
   the same rows iff the first and the last row of each new id of the batch are equal.
   */
  lemma ProjectionMatchesJournalExactly(idOf: IdOf, seen: set<string>, rows: seq<TransactionInput>)
    ensures var new_ := NewRows(idOf, seen, rows);
            ShowSameRows(Entries(idOf, new_), Projected(idOf, rows, new_)) <==> EndsAlike(idOf, seen, rows)
  {
    var new_ := NewRows(idOf, seen, rows);
    NewRowsExact(idOf, seen, rows);
    ProjectedInOrder(idOf, rows, new_);
    if EndsAlike(idOf, seen, rows) {
      forall i | 0 <= i < |new_|
        ensures ShowSameRow(Entries(idOf, new_)[i], Projected(idOf, rows, new_)[i])
      {
        NewRowShown(idOf, seen, rows, i);
      }
    }
    if ShowSameRows(Entries(idOf, new_), Projected(idOf, rows, new_)) {
      forall id | id in IdsOf(idOf, rows) && id !in seen
        ensures FirstWith(idOf, rows, id) == LastWith(idOf, rows, id)
      {
        var i :| 0 <= i < |Ids(idOf, new_)| && Ids(idOf, new_)[i] == id;
        NewRowShown(idOf, seen, rows, i);
      }
    }
  }

  lemma ShowConcat(a: seq<JournalTransaction>, p: seq<ProjectionRow>, b: seq<JournalTransaction>, q: seq<ProjectionRow>)
    requires |a| == |p| && |b| == |q|
    ensures ShowSameRows(a + b, p + q) <==> ShowSameRows(a, p) && ShowSameRows(b, q)
  {
    if ShowSameRows(a + b, p + q) {
      assert forall i | 0 <= i < |a| :: (a + b)[i] == a[i] && (p + q)[i] == p[i];
      assert forall i | 0 <= i < |b| :: (a + b)[|a| + i] == b[i] && (p + q)[|a| + i] == q[i];
    }
  }

  lemma StepMatches(idOf: IdOf, b: Book, rows: seq<TransactionInput>)
    requires InStep(b)
    ensures ShowSameRows(Step(idOf, b, rows).journal, Step(idOf, b, rows).projection)
       <==> ShowSameRows(b.journal, b.projection) && EndsAlike(idOf, b.seen, rows)
  {
    var new_ := NewRows(idOf, b.seen, rows);
    NewRowsExact(idOf, b.seen, rows);
    ProjectedInOrder(idOf, rows, new_);
    assert |JournalIds(b.journal)| == |ProjectedIds(b.projection)|;
    ShowConcat(b.journal, b.projection, Entries(idOf, new_), Projected(idOf, rows, new_));
    ProjectionMatchesJournalExactly(idOf, b.seen, rows);
  }

  /** The first and last rows of the ids that batch `i` is the first to bring are equal. */
  ghost predicate BatchEndsAlike(idOf: IdOf, batches: seq<seq<TransactionInput>>, i: nat)
    requires i < |batches|
  {
    EndsAlike(idOf, Run(idOf, batches[..i]).seen, batches[i])
  }

  ghost predicate AllEndAlike(idOf: IdOf, batches: seq<seq<TransactionInput>>) {
    forall i | 0 <= i < |batches| :: BatchEndsAlike(idOf, batches, i)
  }

  lemma OneMoreEndsAlike(idOf: IdOf, front: seq<seq<TransactionInput>>, rows: seq<TransactionInput>)
    ensures AllEndAlike(idOf, front + [rows])
       <==> AllEndAlike(idOf, front) && EndsAlike(idOf, Run(idOf, front).seen, rows)
  {
    var batches, n := front + [rows], |front|;
    assert batches[..n] == front;
    assert BatchEndsAlike(idOf, batches, n) <==> EndsAlike(idOf, Run(idOf, front).seen, rows);
    forall i | 0 <= i < n
      ensures BatchEndsAlike(idOf, batches, i) <==> BatchEndsAlike(idOf, front, i)
    {
      assert front[..i] == batches[..i];
    }
  }

  /** After a run journal and projection show the same rows iff that holds of every batch. */
  lemma {:induction false} RunMatchesExactly(idOf: IdOf, batches: seq<seq<TransactionInput>>)
    ensures ShowSameRows(Run(idOf, batches).journal, Run(idOf, batches).projection) <==> AllEndAlike(idOf, batches)
  {
    if batches != [] {
      var front, rows := batches[..|batches| - 1], batches[|batches| - 1];
      RunMatchesExactly(idOf, front);
      RunInStep(idOf, front);
      StepMatches(idOf, Run(idOf, front), rows);
      OneMoreEndsAlike(idOf, front, rows);
      assert batches == front + [rows];
    }
  }

  /** Two rows that differ in their source reference only: the journal shows the first, the projection the second. */
  lemma RepeatedRowsDisagree(space: char -> bool, hash: string -> string, a: TransactionInput, b: TransactionInput)
    requires b == a.(sourceRef := b.sourceRef) && a != b
    ensures var idOf := DeterministicTxId(space, hash);
            var book := Step(idOf, Book({}, [], []), [a, b]);
            && book.journal == [FromInput(idOf, a)]
            && book.projection == [ProjectionOf(idOf, b)]
            && !ShowSameRows(book.journal, book.projection)
  {
    var idOf := DeterministicTxId(space, hash);
    var rows := [a, b];
    IdOfRow(space, hash, a);
    IdOfRow(space, hash, b);
    assert rows[1..] == [b] && rows[..1] == [a] && [b][1..] == [];
    assert {} + {idOf(a)} == {idOf(a)} && NewRows(idOf, {idOf(a)}, [b]) == [];
    assert NewRows(idOf, {}, rows) == [a];
    assert LastWith(idOf, rows, idOf(a)) == Some(b);
    assert [a][..0] == [] && Projected(idOf, rows, [a]) == [ProjectionOf(idOf, b)];
    assert Entries(idOf, [a]) == [FromInput(idOf, a)];
    var book := Step(idOf, Book({}, [], []), rows);
    ShownRowsEqual(idOf, a, b);
    assert !ShowSameRow(book.journal[0], book.projection[0]);
  }
}
