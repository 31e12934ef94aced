/** What the evidence builder's calls make of a graph, and what every sequence of calls keeps. */
module BuilderModel {
  import opened EvidenceNodes
  import opened EvidenceValues
  import opened EvidenceReaders

  datatype Call =
    | EnsureDocument(doc: DocRecord)
    | EnsureExtractedRows(docId: NodeId, rows: seq<RowRecord>)
    | EnsureTransaction(tx: TxRecord, sourceRows: seq<NodeId>)
    | EnsureClassification(classification: ClassificationRecord)
    | EnsureProposal(proposal: ProposalRecord)
    | EnsureApproval(approval: ApprovalRecord)
    | EnsureWorkbookRow(workbookRow: WorkbookRecord)
    | EnsureValidationIssue(issue: IssueRecord)
    | BuildFullChain(fullDoc: DocRecord, fullRows: seq<RowRecord>, fullTx: TxRecord,
                     fullClassification: ClassificationRecord)

  function RowId(h: ContentHash, row: RowRecord): NodeId { IdOf(h, RowNode(row)) }

  function RowIds(h: ContentHash, rows: seq<RowRecord>): seq<NodeId> {
    if rows == [] then [] else [RowId(h, rows[0])] + RowIds(h, rows[1..])
  }

  /** A row, with the edge from its document. */
  function WithRow(h: ContentHash, g: Graph, docId: NodeId, row: RowRecord): Graph {
    EnsureEdge(h, WithNode(h, g, RowNode(row)), Edge(docId, RowId(h, row), ExtractedFrom))
  }

  /** Rows one by one. */
  function WithRows(h: ContentHash, g: Graph, docId: NodeId, rows: seq<RowRecord>): Graph
    decreases |rows|
  {
    if rows == [] then g else WithRows(h, WithRow(h, g, docId, rows[0]), docId, rows[1..])
  }

  function WithSources(h: ContentHash, g: Graph, txId: NodeId, sourceRows: seq<NodeId>): Graph
    decreases |sourceRows|
  {
    if sourceRows == [] then g
    else WithSources(h, EnsureEdge(h, g, Edge(sourceRows[0], txId, Produces)), txId, sourceRows[1..])
  }

  function WithTransaction(h: ContentHash, g: Graph, tx: TxRecord, sourceRows: seq<NodeId>): Graph {
    WithSources(h, WithNode(h, g, TxNode(tx)), TxNodeId(tx.txId), sourceRows)
  }

  /** A node about a transaction, with the edge from the transaction. */
  function Attach(h: ContentHash, g: Graph, node: EvidenceNode, txId: string, kind: EdgeType): Graph {
    EnsureEdge(h, WithNode(h, g, node), Edge(TxNodeId(txId), IdOf(h, node), kind))
  }

  function FullChain(h: ContentHash, g: Graph, doc: DocRecord, rows: seq<RowRecord>, tx: TxRecord,
                     c: ClassificationRecord): Graph {
    var withDoc := WithNode(h, g, DocNode(doc));
    var withRows := WithRows(h, withDoc, IdOf(h, DocNode(doc)), rows);
    var withTx := WithTransaction(h, withRows, tx, RowIds(h, rows));
    var owned := c.(txId := HashOf(TxNodeId(tx.txId)));
    Attach(h, withTx, ClassificationNode(owned), owned.txId, ClassifiedAs)
  }

  function Apply(h: ContentHash, g: Graph, call: Call): Graph {
    match call
    case EnsureDocument(doc) => WithNode(h, g, DocNode(doc))
    case EnsureExtractedRows(docId, rows) => WithRows(h, g, docId, rows)
    case EnsureTransaction(tx, sourceRows) => WithTransaction(h, g, tx, sourceRows)
    case EnsureClassification(c) => Attach(h, g, ClassificationNode(c), c.txId, ClassifiedAs)
    case EnsureProposal(p) => Attach(h, g, ProposalNode(p), p.txId, ProposedBy)
    case EnsureApproval(a) => Attach(h, g, ApprovalNode(a), a.txId, ApprovedBy)
    case EnsureWorkbookRow(w) => Attach(h, g, WorkbookNode(w), w.txId, ExportedTo)
    case EnsureValidationIssue(i) => Attach(h, g, IssueNode(i), i.txId, ValidatedAs)
    case BuildFullChain(doc, rows, tx, c) => FullChain(h, g, doc, rows, tx, c)
  }

  function Fold(step: (Graph, Call) -> Graph, g: Graph, calls: seq<Call>): Graph {
    if calls == [] then g else step(Fold(step, g, calls[..|calls| - 1]), calls[|calls| - 1])
  }

  function Step(h: ContentHash): (Graph, Call) -> Graph {
    (g: Graph, call: Call) => Apply(h, g, call)
  }

  /** One call after the other. */
  function Run(h: ContentHash, g: Graph, calls: seq<Call>): Graph {
    Fold(Step(h), g, calls)
  }

  // ---------------------------------------------------------------------------------------------
  // Every call keeps the graph well formed and only adds to it
  // ---------------------------------------------------------------------------------------------

  /** `later` is well formed, and is `g` with something added. */
  ghost predicate Sound(h: ContentHash, g: Graph, later: Graph) {
    WellFormed(h, later) && Grows(g, later)
  }

  lemma RowIdsStep(h: ContentHash, ids: seq<NodeId>, rows: seq<RowRecord>, i: nat)
    requires i < |rows|
    ensures ids + RowIds(h, rows[i..]) == ids + [RowId(h, rows[i])] + RowIds(h, rows[i + 1..])
  {
    assert rows[i..][1..] == rows[i + 1..];
  }

  lemma WithRowsStep(h: ContentHash, g: Graph, docId: NodeId, rows: seq<RowRecord>, i: nat)
    requires i < |rows|
    ensures WithRows(h, g, docId, rows[i..]) == WithRows(h, WithRow(h, g, docId, rows[i]), docId, rows[i + 1..])
  {
    assert rows[i..][1..] == rows[i + 1..];
  }

  lemma GrowsTransitive(a: Graph, b: Graph, c: Graph)
    requires Grows(a, b) && Grows(b, c)
    ensures Grows(a, c)
  {
  }

  lemma WithNodeSound(h: ContentHash, g: Graph, node: EvidenceNode)
    requires WellFormed(h, g)
    ensures Sound(h, g, WithNode(h, g, node))
    ensures HasNode(h, WithNode(h, g, node), IdOf(h, node))
  {
    WithNodeWellFormed(h, g, node);
  }

  lemma EnsureEdgeSound(h: ContentHash, g: Graph, e: Edge)
    requires WellFormed(h, g)
    ensures Sound(h, g, EnsureEdge(h, g, e))
    ensures HasEnds(h, g, e) ==> e in EnsureEdge(h, g, e).edges
  {
    var later := EnsureEdge(h, g, e);
    forall d | d in later.edges
      ensures HasEnds(h, later, d)
    {
      assert d in g.edges ==> HasEnds(h, g, d);
    }
  }

  lemma {:induction false} WithRowsSound(h: ContentHash, g: Graph, docId: NodeId, rows: seq<RowRecord>)
    requires WellFormed(h, g)
    ensures Sound(h, g, WithRows(h, g, docId, rows))
    ensures forall row | row in rows :: HasNode(h, WithRows(h, g, docId, rows), RowId(h, row))
    decreases |rows|
  {
    if rows != [] {
      var stored := WithNode(h, g, RowNode(rows[0]));
      var linked := EnsureEdge(h, stored, Edge(docId, RowId(h, rows[0]), ExtractedFrom));
      WithNodeSound(h, g, RowNode(rows[0]));
      EnsureEdgeSound(h, stored, Edge(docId, RowId(h, rows[0]), ExtractedFrom));
      WithRowsSound(h, linked, docId, rows[1..]);
      assert forall row | row in rows :: row == rows[0] || row in rows[1..];
    }
  }

  lemma {:induction false} WithSourcesSound(h: ContentHash, g: Graph, txId: NodeId, sourceRows: seq<NodeId>)
    requires WellFormed(h, g)
    ensures Sound(h, g, WithSources(h, g, txId, sourceRows))
    ensures WithSources(h, g, txId, sourceRows).nodes == g.nodes
    ensures forall id | id in sourceRows && HasNode(h, g, id) && HasNode(h, g, txId) ::
              Edge(id, txId, Produces) in WithSources(h, g, txId, sourceRows).edges
    decreases |sourceRows|
  {
    if sourceRows != [] {
      var linked := EnsureEdge(h, g, Edge(sourceRows[0], txId, Produces));
      EnsureEdgeSound(h, g, Edge(sourceRows[0], txId, Produces));
      WithSourcesSound(h, linked, txId, sourceRows[1..]);
      assert forall id | id in sourceRows :: id == sourceRows[0] || id in sourceRows[1..];
    }
  }

  lemma AttachSound(h: ContentHash, g: Graph, node: EvidenceNode, txId: string, kind: EdgeType)
    requires WellFormed(h, g)
    ensures Sound(h, g, Attach(h, g, node, txId, kind))
    ensures HasNode(h, g, TxNodeId(txId)) ==>
              Edge(TxNodeId(txId), IdOf(h, node), kind) in Attach(h, g, node, txId, kind).edges
  {
    var stored := WithNode(h, g, node);
    WithNodeSound(h, g, node);
    EnsureEdgeSound(h, stored, Edge(TxNodeId(txId), IdOf(h, node), kind));
  }

  lemma WithTransactionSound(h: ContentHash, g: Graph, tx: TxRecord, sourceRows: seq<NodeId>)
    requires WellFormed(h, g)
    ensures var later := WithTransaction(h, g, tx, sourceRows);
            && Sound(h, g, later)
            && HasNode(h, later, TxNodeId(tx.txId))
            && forall id | id in sourceRows && HasNode(h, g, id) :: Edge(id, TxNodeId(tx.txId), Produces) in later.edges
  {
    var stored := WithNode(h, g, TxNode(tx));
    WithNodeSound(h, g, TxNode(tx));
    WithSourcesSound(h, stored, TxNodeId(tx.txId), sourceRows);
  }

  lemma FullChainSound(h: ContentHash, g: Graph, doc: DocRecord, rows: seq<RowRecord>, tx: TxRecord,
                       c: ClassificationRecord)
    requires WellFormed(h, g)
    ensures Sound(h, g, FullChain(h, g, doc, rows, tx, c))
  {
    var withDoc := WithNode(h, g, DocNode(doc));
    var withRows := WithRows(h, withDoc, IdOf(h, DocNode(doc)), rows);
    var withTx := WithTransaction(h, withRows, tx, RowIds(h, rows));
    var owned := c.(txId := HashOf(TxNodeId(tx.txId)));
    WithNodeSound(h, g, DocNode(doc));
    WithRowsSound(h, withDoc, IdOf(h, DocNode(doc)), rows);
    WithTransactionSound(h, withRows, tx, RowIds(h, rows));
    AttachSound(h, withTx, ClassificationNode(owned), owned.txId, ClassifiedAs);
    GrowsTransitive(g, withDoc, withRows);
    GrowsTransitive(g, withRows, withTx);
    GrowsTransitive(g, withTx, FullChain(h, g, doc, rows, tx, c));
  }

  lemma ApplySound(h: ContentHash, g: Graph, call: Call)
    requires WellFormed(h, g)
    ensures Sound(h, g, Apply(h, g, call))
  {
    match call
    case EnsureDocument(doc) => WithNodeSound(h, g, DocNode(doc));
    case EnsureExtractedRows(docId, rows) => WithRowsSound(h, g, docId, rows);
    case EnsureTransaction(tx, sourceRows) => WithTransactionSound(h, g, tx, sourceRows);
    case EnsureClassification(c) => AttachSound(h, g, ClassificationNode(c), c.txId, ClassifiedAs);
    case EnsureProposal(p) => AttachSound(h, g, ProposalNode(p), p.txId, ProposedBy);
    case EnsureApproval(a) => AttachSound(h, g, ApprovalNode(a), a.txId, ApprovedBy);
    case EnsureWorkbookRow(w) => AttachSound(h, g, WorkbookNode(w), w.txId, ExportedTo);
    case EnsureValidationIssue(i) => AttachSound(h, g, IssueNode(i), i.txId, ValidatedAs);
    case BuildFullChain(doc, rows, tx, c) => FullChainSound(h, g, doc, rows, tx, c);
  }

  /**
   Along any sequence of calls the graph stays well formed, the transactions it had stay, and the
   missing list of none of them gains an element.
   */
  lemma {:induction false} RunOnlyAddsEvidence(h: ContentHash, g: Graph, calls: seq<Call>)
    requires WellFormed(h, g)
    ensures Sound(h, g, Run(h, g, calls))
    ensures forall id, m | m in Missing(Run(h, g, calls), id) :: m in Missing(g, id)
  {
    if calls != [] {
      var before := Run(h, g, calls[..|calls| - 1]);
      RunOnlyAddsEvidence(h, g, calls[..|calls| - 1]);
      ApplySound(h, before, calls[|calls| - 1]);
    }
    forall id, m | m in Missing(Run(h, g, calls), id)
      ensures m in Missing(g, id)
    {
      MissingNeverGains(g, Run(h, g, calls), id);
    }
  }

  // ---------------------------------------------------------------------------------------------
  // A full chain has no critical gap
  // ---------------------------------------------------------------------------------------------

  lemma {:induction false} RowIdMembers(h: ContentHash, rows: seq<RowRecord>)
    ensures forall row | row in rows :: RowId(h, row) in RowIds(h, rows)
  {
    if rows != [] {
      RowIdMembers(h, rows[1..]);
      assert forall row | row in rows :: row == rows[0] || row in rows[1..];
    }
  }

  /** When the document is stored, every row gets its edge. */
  lemma {:induction false} RowsLinked(h: ContentHash, g: Graph, docId: NodeId, rows: seq<RowRecord>)
    requires WellFormed(h, g) && HasNode(h, g, docId)
    ensures forall row | row in rows :: Edge(docId, RowId(h, row), ExtractedFrom) in WithRows(h, g, docId, rows).edges
    decreases |rows|
  {
    if rows != [] {
      var e := Edge(docId, RowId(h, rows[0]), ExtractedFrom);
      var stored := WithNode(h, g, RowNode(rows[0]));
      var linked := EnsureEdge(h, stored, e);
      WithNodeSound(h, g, RowNode(rows[0]));
      EnsureEdgeSound(h, stored, e);
      RowsLinked(h, linked, docId, rows[1..]);
      WithRowsSound(h, linked, docId, rows[1..]);
      assert forall row | row in rows :: row == rows[0] || row in rows[1..];
    }
  }

  lemma Evidenced(g: Graph, txId: NodeId, rowId: NodeId, extracted: Edge, classified: Edge)
    requires extracted in g.edges && extracted.to == rowId && extracted.kind == ExtractedFrom
    requires Edge(rowId, txId, Produces) in g.edges
    requires classified in g.edges && classified.from == txId && classified.kind == ClassifiedAs
    ensures !IsCritical(Missing(g, txId))
  {
    assert HasIn(g, rowId, ExtractedFrom);
    assert HasSource(g, txId) by {
      assert Edge(rowId, txId, Produces).from == rowId;
    }
    assert HasOut(g, txId, ClassifiedAs);
    CriticalList(HasSource(g, txId), HasIn(g, txId, Produces), HasOut(g, txId, ClassifiedAs),
                 HasOut(g, txId, ApprovedBy), HasOut(g, txId, ExportedTo));
  }

  /** With at least one row, the chain's transaction has a source and a classification. */
  lemma FullChainNotCritical(h: ContentHash, g: Graph, doc: DocRecord, rows: seq<RowRecord>, tx: TxRecord,
                             c: ClassificationRecord)
    requires WellFormed(h, g) && rows != []
    ensures HasNode(h, FullChain(h, g, doc, rows, tx, c), TxNodeId(tx.txId))
    ensures !IsCritical(Missing(FullChain(h, g, doc, rows, tx, c), TxNodeId(tx.txId)))
  {
    var docId, txId := IdOf(h, DocNode(doc)), TxNodeId(tx.txId);
    var rowId := RowId(h, rows[0]);
    var withDoc := WithNode(h, g, DocNode(doc));
    var withRows := WithRows(h, withDoc, docId, rows);
    var withTx := WithTransaction(h, withRows, tx, RowIds(h, rows));
    var owned := c.(txId := HashOf(txId));
    var chain := FullChain(h, g, doc, rows, tx, c);
    HashInvertsNew(Transaction, tx.txId);
    WithNodeSound(h, g, DocNode(doc));
    WithRowsSound(h, withDoc, docId, rows);
    RowsLinked(h, withDoc, docId, rows);
    RowIdMembers(h, rows);
    WithTransactionSound(h, withRows, tx, RowIds(h, rows));
    AttachSound(h, withTx, ClassificationNode(owned), owned.txId, ClassifiedAs);
    assert rows[0] in rows;
    var classified := Edge(txId, IdOf(h, ClassificationNode(owned)), ClassifiedAs);
    Evidenced(chain, txId, rowId, Edge(docId, rowId, ExtractedFrom), classified);
  }

  // ---------------------------------------------------------------------------------------------
  // Repeating a call
  // ---------------------------------------------------------------------------------------------

  /** An edge that `EnsureEdge` would not add: present, or with an end missing. */
  predicate Settled(h: ContentHash, g: Graph, e: Edge) {
    HasEnds(h, g, e) ==> e in g.edges
  }

  lemma {:induction false} WithRowsNothing(h: ContentHash, g: Graph, docId: NodeId, rows: seq<RowRecord>)
    requires forall row | row in rows ::
               HasNode(h, g, RowId(h, row)) && Settled(h, g, Edge(docId, RowId(h, row), ExtractedFrom))
    ensures WithRows(h, g, docId, rows) == g
  {
    if rows != [] {
      assert rows[0] in rows;
      WithRowsNothing(h, g, docId, rows[1..]);
    }
  }

  lemma {:induction false} WithSourcesNothing(h: ContentHash, g: Graph, txId: NodeId, sourceRows: seq<NodeId>)
    requires forall id | id in sourceRows :: Settled(h, g, Edge(id, txId, Produces))
    ensures WithSources(h, g, txId, sourceRows) == g
  {
    if sourceRows != [] {
      assert sourceRows[0] in sourceRows;
      WithSourcesNothing(h, g, txId, sourceRows[1..]);
    }
  }

  lemma WithTransactionTwice(h: ContentHash, g: Graph, tx: TxRecord, sourceRows: seq<NodeId>)
    requires WellFormed(h, g)
    ensures var once := WithTransaction(h, g, tx, sourceRows);
            WithTransaction(h, once, tx, sourceRows) == once
  {
    var stored := WithNode(h, g, TxNode(tx));
    var once := WithTransaction(h, g, tx, sourceRows);
    var txId := TxNodeId(tx.txId);
    WithNodeSound(h, g, TxNode(tx));
    WithSourcesSound(h, stored, txId, sourceRows);
    assert forall id | id in sourceRows :: Settled(h, once, Edge(id, txId, Produces));
    WithSourcesNothing(h, once, txId, sourceRows);
  }

  lemma AttachTwice(h: ContentHash, g: Graph, node: EvidenceNode, txId: string, kind: EdgeType)
    requires WellFormed(h, g)
    ensures var once := Attach(h, g, node, txId, kind);
            Attach(h, once, node, txId, kind) == once
  {
    var stored := WithNode(h, g, node);
    WithNodeSound(h, g, node);
    EnsureEdgeSound(h, stored, Edge(TxNodeId(txId), IdOf(h, node), kind));
  }

  ghost predicate FirstOwn(h: ContentHash, docId: NodeId, rows: seq<RowRecord>, p: int) {
    && 0 <= p < |rows| && RowId(h, rows[p]) == docId
    && forall j | 0 <= j < p :: RowId(h, rows[j]) != docId
  }

  /**
   The rows of a call are settled at once unless the call itself brings in its own "document": when
   `docId` is not stored beforehand and `rows[p]` is the first row with that id, every earlier row
   must come back from position `p` on.
   */
  ghost predicate RowsSettle(h: ContentHash, g: Graph, docId: NodeId, rows: seq<RowRecord>) {
    || HasNode(h, g, docId)
    || forall p | FirstOwn(h, docId, rows, p) ::
         forall j | 0 <= j < p :: RowId(h, rows[j]) in RowIds(h, rows[p..])
  }

  lemma NoEdgesYet(h: ContentHash, g: Graph, docId: NodeId)
    requires WellFormed(h, g) && !HasNode(h, g, docId)
    ensures forall e | e in g.edges :: e.from != docId
  {
    forall e | e in g.edges
      ensures e.from != docId
    {
      assert HasEnds(h, g, e);
    }
  }

  /** With the document stored, a call's new edges from it are exactly those to its rows. */
  lemma {:induction false} OwnEdges(h: ContentHash, g: Graph, docId: NodeId, rows: seq<RowRecord>)
    requires WellFormed(h, g) && HasNode(h, g, docId)
    ensures forall id :: Edge(docId, id, ExtractedFrom) in WithRows(h, g, docId, rows).edges
                    <==> Edge(docId, id, ExtractedFrom) in g.edges || id in RowIds(h, rows)
    decreases |rows|
  {
    if rows != [] {
      var e := Edge(docId, RowId(h, rows[0]), ExtractedFrom);
      var stored := WithNode(h, g, RowNode(rows[0]));
      WithNodeSound(h, g, RowNode(rows[0]));
      EnsureEdgeSound(h, stored, e);
      OwnEdges(h, EnsureEdge(h, stored, e), docId, rows[1..]);
    }
  }

  lemma EdgesFromFirstRow(h: ContentHash, g: Graph, docId: NodeId, rows: seq<RowRecord>)
    requires WellFormed(h, g) && !HasNode(h, g, docId)
    requires rows != [] && RowId(h, rows[0]) == docId
    ensures forall id :: Edge(docId, id, ExtractedFrom) in WithRows(h, g, docId, rows).edges <==> id in RowIds(h, rows)
    ensures HasNode(h, WithRows(h, g, docId, rows), docId)
  {
    var e := Edge(docId, docId, ExtractedFrom);
    var stored := WithNode(h, g, RowNode(rows[0]));
    var linked := EnsureEdge(h, stored, e);
    WithNodeSound(h, g, RowNode(rows[0]));
    NoEdgesYet(h, g, docId);
    EnsureEdgeSound(h, stored, e);
    OwnEdges(h, linked, docId, rows[1..]);
    WithRowsSound(h, linked, docId, rows[1..]);
  }

  /** The edges a call adds for a document that only its row `p` brings in: those from row `p` on. */
  lemma {:induction false} LateEdges(h: ContentHash, g: Graph, docId: NodeId, rows: seq<RowRecord>, p: nat)
    requires WellFormed(h, g) && !HasNode(h, g, docId)
    requires FirstOwn(h, docId, rows, p)
    ensures forall id :: Edge(docId, id, ExtractedFrom) in WithRows(h, g, docId, rows).edges
              <==> id in RowIds(h, rows[p..])
    ensures HasNode(h, WithRows(h, g, docId, rows), docId)
    decreases |rows|
  {
    if p == 0 {
      assert rows[0..] == rows;
      EdgesFromFirstRow(h, g, docId, rows);
    } else {
      var stored := WithNode(h, g, RowNode(rows[0]));
      WithNodeWellFormed(h, g, RowNode(rows[0]));
      assert EnsureEdge(h, stored, Edge(docId, RowId(h, rows[0]), ExtractedFrom)) == stored;
      LateEdges(h, stored, docId, rows[1..], p - 1);
      assert rows[1..][p - 1..] == rows[p..];
    }
  }

  lemma {:induction false} FindFirstOwn(h: ContentHash, docId: NodeId, rows: seq<RowRecord>) returns (p: int)
    requires exists k :: 0 <= k < |rows| && RowId(h, rows[k]) == docId
    ensures FirstOwn(h, docId, rows, p)
  {
    p := 0;
    while RowId(h, rows[p]) != docId
      invariant 0 <= p < |rows|
      invariant forall j | 0 <= j < p :: RowId(h, rows[j]) != docId
      decreases |rows| - p
    {
      assert exists k :: p < k < |rows| && RowId(h, rows[k]) == docId;
      p := p + 1;
    }
  }

  /** A document id that neither the graph nor the rows know stays unknown. */
  lemma {:induction false} StaysUnknown(h: ContentHash, g: Graph, docId: NodeId, rows: seq<RowRecord>)
    requires WellFormed(h, g) && !HasNode(h, g, docId)
    requires forall k | 0 <= k < |rows| :: RowId(h, rows[k]) != docId
    ensures !HasNode(h, WithRows(h, g, docId, rows), docId)
    decreases |rows|
  {
    if rows != [] {
      WithNodeWellFormed(h, g, RowNode(rows[0]));
      StaysUnknown(h, WithNode(h, g, RowNode(rows[0])), docId, rows[1..]);
    }
  }

  /** Repeating the rows changes nothing iff the first call left each of their edges settled. */
  lemma RowsTwiceBySettled(h: ContentHash, g: Graph, docId: NodeId, rows: seq<RowRecord>)
    requires WellFormed(h, g)
    ensures var once := WithRows(h, g, docId, rows);
            WithRows(h, once, docId, rows) == once <==>
            forall row | row in rows :: Settled(h, once, Edge(docId, RowId(h, row), ExtractedFrom))
  {
    var once := WithRows(h, g, docId, rows);
    WithRowsSound(h, g, docId, rows);
    if forall row | row in rows :: Settled(h, once, Edge(docId, RowId(h, row), ExtractedFrom)) {
      WithRowsNothing(h, once, docId, rows);
    }
    if WithRows(h, once, docId, rows) == once {
      forall row | row in rows
        ensures Settled(h, once, Edge(docId, RowId(h, row), ExtractedFrom))
      {
        if HasNode(h, once, docId) {
          RowsLinked(h, once, docId, rows);
        }
      }
    }
  }

  lemma LateSettled(h: ContentHash, once: Graph, docId: NodeId, rows: seq<RowRecord>, p: nat)
    requires p <= |rows| && HasNode(h, once, docId)
    requires forall row | row in rows :: HasNode(h, once, RowId(h, row))
    requires forall id :: Edge(docId, id, ExtractedFrom) in once.edges <==> id in RowIds(h, rows[p..])
    ensures (forall row | row in rows :: Settled(h, once, Edge(docId, RowId(h, row), ExtractedFrom)))
       <==> (forall j | 0 <= j < p :: RowId(h, rows[j]) in RowIds(h, rows[p..]))
  {
    forall j | 0 <= j < |rows|
      ensures Settled(h, once, Edge(docId, RowId(h, rows[j]), ExtractedFrom))
         <==> RowId(h, rows[j]) in RowIds(h, rows[p..])
    {
      assert rows[j] in rows;
    }
    RowIdMembers(h, rows[p..]);
    forall j | p <= j < |rows|
      ensures RowId(h, rows[j]) in RowIds(h, rows[p..])
    {
      assert rows[p..][j - p] in rows[p..];
    }
    assert forall j | 0 <= j < |rows| :: rows[j] in rows;
  }

  /** The one call that is not idempotent for every argument, with the exact condition. */
  lemma RowsTwiceExactly(h: ContentHash, g: Graph, docId: NodeId, rows: seq<RowRecord>)
    requires WellFormed(h, g)
    ensures var once := WithRows(h, g, docId, rows);
            WithRows(h, once, docId, rows) == once <==> RowsSettle(h, g, docId, rows)
  {
    var once := WithRows(h, g, docId, rows);
    RowsTwiceBySettled(h, g, docId, rows);
    WithRowsSound(h, g, docId, rows);
    if HasNode(h, g, docId) {
      RowsLinked(h, g, docId, rows);
    } else if exists k :: 0 <= k < |rows| && RowId(h, rows[k]) == docId {
      var p := FindFirstOwn(h, docId, rows);
      LateEdges(h, g, docId, rows, p);
      LateSettled(h, once, docId, rows, p);
      assert forall q | FirstOwn(h, docId, rows, q) :: q == p;
    } else {
      StaysUnknown(h, g, docId, rows);
    }
  }

  /** An id made for a document is never the id of a row, so such calls always settle. */
  lemma DocumentIdsSettle(h: ContentHash, g: Graph, doc: DocRecord, rows: seq<RowRecord>)
    ensures RowsSettle(h, g, IdOf(h, DocNode(doc)), rows)
  {
    forall row
      ensures RowId(h, row) != IdOf(h, DocNode(doc))
    {
      if RowId(h, row) == IdOf(h, DocNode(doc)) {
        NewIdInjective(ExtractedRow, IdHash(h, RowNode(row)), SourceDoc, IdHash(h, DocNode(doc)));
      }
    }
  }

  /** Two rows, the second posing as the document of both: the first call skips an edge that the second adds. */
  lemma RowsNotIdempotent(h: ContentHash, first: RowRecord, second: RowRecord)
    requires RowId(h, first) != RowId(h, second)
    ensures var docId := RowId(h, second);
            var once := WithRows(h, EMPTY, docId, [first, second]);
            WithRows(h, once, docId, [first, second]) != once
  {
    var docId, rows := RowId(h, second), [first, second];
    RowsTwiceExactly(h, EMPTY, docId, rows);
    assert FirstOwn(h, docId, rows, 1);
    assert rows[1..] == [second] && RowIds(h, [second]) == [docId] by { assert [second][1..] == []; }
    assert RowId(h, rows[0]) !in RowIds(h, rows[1..]);
  }

  lemma {:induction false} RowIdsKnown(h: ContentHash, g: Graph, rows: seq<RowRecord>)
    requires forall row | row in rows :: HasNode(h, g, RowId(h, row))
    ensures forall id | id in RowIds(h, rows) :: HasNode(h, g, id)
  {
    if rows != [] {
      assert rows[0] in rows;
      RowIdsKnown(h, g, rows[1..]);
    }
  }

  /** What the stages of a full chain leave behind in every graph that grows from it. */
  lemma ChainLeaves(h: ContentHash, g: Graph, doc: DocRecord, rows: seq<RowRecord>, tx: TxRecord, later: Graph)
    requires WellFormed(h, g)
    requires var withRows := WithRows(h, WithNode(h, g, DocNode(doc)), IdOf(h, DocNode(doc)), rows);
             Grows(WithTransaction(h, withRows, tx, RowIds(h, rows)), later)
    ensures HasNode(h, later, IdOf(h, DocNode(doc))) && HasNode(h, later, TxNodeId(tx.txId))
    ensures forall row | row in rows ::
              && HasNode(h, later, RowId(h, row))
              && Edge(IdOf(h, DocNode(doc)), RowId(h, row), ExtractedFrom) in later.edges
    ensures forall id | id in RowIds(h, rows) :: Edge(id, TxNodeId(tx.txId), Produces) in later.edges
  {
    var docId := IdOf(h, DocNode(doc));
    var withDoc := WithNode(h, g, DocNode(doc));
    var withRows := WithRows(h, withDoc, docId, rows);
    WithNodeSound(h, g, DocNode(doc));
    WithRowsSound(h, withDoc, docId, rows);
    RowsLinked(h, withDoc, docId, rows);
    WithTransactionSound(h, withRows, tx, RowIds(h, rows));
    RowIdsKnown(h, withRows, rows);
  }

  lemma FullChainTwice(h: ContentHash, g: Graph, doc: DocRecord, rows: seq<RowRecord>, tx: TxRecord,
                       c: ClassificationRecord)
    requires WellFormed(h, g)
    ensures var once := FullChain(h, g, doc, rows, tx, c);
            FullChain(h, once, doc, rows, tx, c) == once
  {
    var docId, txId := IdOf(h, DocNode(doc)), TxNodeId(tx.txId);
    var withRows := WithRows(h, WithNode(h, g, DocNode(doc)), docId, rows);
    var withTx := WithTransaction(h, withRows, tx, RowIds(h, rows));
    var owned := c.(txId := HashOf(txId));
    var once := FullChain(h, g, doc, rows, tx, c);
    WithNodeSound(h, g, DocNode(doc));
    WithRowsSound(h, WithNode(h, g, DocNode(doc)), docId, rows);
    WithTransactionSound(h, withRows, tx, RowIds(h, rows));
    AttachSound(h, withTx, ClassificationNode(owned), owned.txId, ClassifiedAs);
    ChainLeaves(h, g, doc, rows, tx, once);
    WithRowsNothing(h, once, docId, rows);
    WithSourcesNothing(h, once, txId, RowIds(h, rows));
    AttachTwice(h, withTx, ClassificationNode(owned), owned.txId, ClassifiedAs);
  }

  /** Immediately repeating a call changes nothing, rows under a stray document id excepted. */
  lemma ApplyTwiceExactly(h: ContentHash, g: Graph, call: Call)
    requires WellFormed(h, g)
    ensures var once := Apply(h, g, call);
            Apply(h, once, call) == once <==>
            (call.EnsureExtractedRows? ==> RowsSettle(h, g, call.docId, call.rows))
  {
    match call
    case EnsureDocument(doc) =>
      WithNodeSound(h, g, DocNode(doc));
    case EnsureExtractedRows(docId, rows) => RowsTwiceExactly(h, g, docId, rows);
    case EnsureTransaction(tx, sourceRows) => WithTransactionTwice(h, g, tx, sourceRows);
    case EnsureClassification(c) => AttachTwice(h, g, ClassificationNode(c), c.txId, ClassifiedAs);
    case EnsureProposal(p) => AttachTwice(h, g, ProposalNode(p), p.txId, ProposedBy);
    case EnsureApproval(a) => AttachTwice(h, g, ApprovalNode(a), a.txId, ApprovedBy);
    case EnsureWorkbookRow(w) => AttachTwice(h, g, WorkbookNode(w), w.txId, ExportedTo);
    case EnsureValidationIssue(i) => AttachTwice(h, g, IssueNode(i), i.txId, ValidatedAs);
    case BuildFullChain(doc, rows, tx, c) => FullChainTwice(h, g, doc, rows, tx, c);
  }
}
