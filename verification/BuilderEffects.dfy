/**
 The exact effect of the two calls that store several edges: a transaction with its source rows, and
 the rows of a document.
 */
module BuilderEffects {
  import opened EvidenceNodes
  import opened EvidenceValues
  import opened BuilderModel
  import opened BuilderProgress

  // ---------------------------------------------------------------------------------------------
  // A transaction and its source rows
  // ---------------------------------------------------------------------------------------------

  lemma {:induction false} SourceEdges(h: ContentHash, g: Graph, txId: NodeId, sourceRows: seq<NodeId>, e: Edge)
    ensures WithSources(h, g, txId, sourceRows).nodes == g.nodes
    ensures e in WithSources(h, g, txId, sourceRows).edges
       <==> e in g.edges || (e == Edge(e.from, txId, Produces) && e.from in sourceRows && HasEnds(h, g, e))
    decreases |sourceRows|
  {
    if sourceRows != [] {
      var linked := EnsureEdge(h, g, Edge(sourceRows[0], txId, Produces));
      SourceEdges(h, linked, txId, sourceRows[1..], e);
      assert e.from in sourceRows <==> e.from == sourceRows[0] || e.from in sourceRows[1..];
    }
  }

  /** A row that the call for `tx` names and the graph, with the transaction stored, knows. */
  ghost predicate IsSourceRow(h: ContentHash, g: Graph, tx: TxRecord, sourceRows: seq<NodeId>, id: NodeId) {
    id in sourceRows && HasNode(h, WithNode(h, g, TxNode(tx)), id)
  }

  lemma TransactionEdges(h: ContentHash, g: Graph, tx: TxRecord, sourceRows: seq<NodeId>, e: Edge)
    requires WellFormed(h, g)
    ensures e in WithTransaction(h, g, tx, sourceRows).edges
       <==> e in g.edges
            || (e == Edge(e.from, TxNodeId(tx.txId), Produces) && IsSourceRow(h, g, tx, sourceRows, e.from))
  {
    WithNodeSound(h, g, TxNode(tx));
    SourceEdges(h, WithNode(h, g, TxNode(tx)), TxNodeId(tx.txId), sourceRows, e);
  }

  /** More edges that produce `txId`, from the ids in `rows`. */
  lemma NewProducers(g: Graph, later: Graph, txId: NodeId, rows: NodeId -> bool, id: NodeId, m: MissingElement)
    requires forall e :: e in later.edges <==> e in g.edges || (e == Edge(e.from, txId, Produces) && rows(e.from))
    ensures Has(later, id, m) <==>
            || Has(g, id, m)
            || (id == txId && m == ExtractedRows && exists r :: rows(r))
            || (id == txId && m == SourceDocument && exists r :: rows(r) && HasIn(g, r, ExtractedFrom))
  {
    forall other, kind
      ensures kind != Produces ==> (HasIn(later, other, kind) <==> HasIn(g, other, kind))
      ensures kind != Produces ==> (HasOut(later, other, kind) <==> HasOut(g, other, kind))
    {
    }
    forall r | rows(r)
      ensures Edge(r, txId, Produces) in later.edges
    {
      assert Edge(r, txId, Produces).from == r;
    }
  }

  /**
   Storing a transaction takes "rows" off its own list iff it names a known row, and "source" iff it
   names a known row that was extracted from something. Nothing else changes.
   */
  lemma TransactionExactly(h: ContentHash, g: Graph, tx: TxRecord, sourceRows: seq<NodeId>, id: NodeId,
                           m: MissingElement)
    requires WellFormed(h, g)
    ensures m in Missing(WithTransaction(h, g, tx, sourceRows), id) <==>
            && m in Missing(g, id)
            && !(id == TxNodeId(tx.txId) && m == ExtractedRows
                 && exists r :: IsSourceRow(h, g, tx, sourceRows, r))
            && !(id == TxNodeId(tx.txId) && m == SourceDocument
                 && exists r :: IsSourceRow(h, g, tx, sourceRows, r) && HasIn(g, r, ExtractedFrom))
  {
    var later := WithTransaction(h, g, tx, sourceRows);
    MissingIff(g, id, m);
    MissingIff(later, id, m);
    forall e
      ensures e in later.edges
         <==> e in g.edges
              || (e == Edge(e.from, TxNodeId(tx.txId), Produces) && IsSourceRow(h, g, tx, sourceRows, e.from))
    {
      TransactionEdges(h, g, tx, sourceRows, e);
    }
    var rows := (r: NodeId) => IsSourceRow(h, g, tx, sourceRows, r);
    assert forall r :: rows(r) <==> IsSourceRow(h, g, tx, sourceRows, r);
    NewProducers(g, later, TxNodeId(tx.txId), rows, id, m);
    assert (exists r :: rows(r)) <==> (exists r :: IsSourceRow(h, g, tx, sourceRows, r));
    assert (exists r :: rows(r) && HasIn(g, r, ExtractedFrom))
      <==> (exists r :: IsSourceRow(h, g, tx, sourceRows, r) && HasIn(g, r, ExtractedFrom));
  }

  // ---------------------------------------------------------------------------------------------
  // The rows of a document
  // ---------------------------------------------------------------------------------------------

  /** The call adds edges from the document only. */
  lemma {:induction false} OnlyOwnEdges(h: ContentHash, g: Graph, docId: NodeId, rows: seq<RowRecord>, e: Edge)
    ensures e in g.edges ==> e in WithRows(h, g, docId, rows).edges
    ensures e in WithRows(h, g, docId, rows).edges ==> e in g.edges || e == Edge(docId, e.to, ExtractedFrom)
    decreases |rows|
  {
    if rows != [] {
      OnlyOwnEdges(h, WithRow(h, g, docId, rows[0]), docId, rows[1..], e);
    }
  }

  /** The rows that get an edge: all of them, or those from the row that brings the document's id in. */
  ghost predicate IsLinkedRow(h: ContentHash, g: Graph, docId: NodeId, rows: seq<RowRecord>, id: NodeId) {
    if HasNode(h, g, docId) then id in RowIds(h, rows)
    else exists p: nat :: FirstOwn(h, docId, rows, p) && id in RowIds(h, rows[p..])
  }

  lemma RowEdges(h: ContentHash, g: Graph, docId: NodeId, rows: seq<RowRecord>, e: Edge)
    requires WellFormed(h, g)
    ensures e in WithRows(h, g, docId, rows).edges
       <==> e in g.edges || (e == Edge(docId, e.to, ExtractedFrom) && IsLinkedRow(h, g, docId, rows, e.to))
  {
    OnlyOwnEdges(h, g, docId, rows, e);
    if HasNode(h, g, docId) {
      OwnEdges(h, g, docId, rows);
    } else if exists k :: 0 <= k < |rows| && RowId(h, rows[k]) == docId {
      var p := FindFirstOwn(h, docId, rows);
      LateEdges(h, g, docId, rows, p);
    } else {
      StaysUnknown(h, g, docId, rows);
      WithRowsSound(h, g, docId, rows);
    }
  }

  /** More edges that extract the ids in `rows` from `docId`. */
  lemma NewSources(g: Graph, later: Graph, docId: NodeId, rows: NodeId -> bool, id: NodeId, m: MissingElement)
    requires forall e :: e in later.edges <==> e in g.edges || (e == Edge(docId, e.to, ExtractedFrom) && rows(e.to))
    ensures Has(later, id, m) <==>
            || Has(g, id, m)
            || (m == SourceDocument && exists r :: Edge(r, id, Produces) in g.edges && rows(r))
  {
    forall other, kind
      ensures kind != ExtractedFrom ==> (HasIn(later, other, kind) <==> HasIn(g, other, kind))
      ensures kind != ExtractedFrom ==> (HasOut(later, other, kind) <==> HasOut(g, other, kind))
    {
    }
    forall r
      ensures HasIn(later, r, ExtractedFrom) <==> HasIn(g, r, ExtractedFrom) || rows(r)
    {
      assert Edge(docId, r, ExtractedFrom).to == r;
    }
    if m == SourceDocument && HasSource(later, id) && !HasSource(g, id) {
      var e :| e in later.edges && e.to == id && e.kind == Produces && HasIn(later, e.from, ExtractedFrom);
      assert e == Edge(e.from, id, Produces);
    }
  }

  /** Storing rows takes "source" off the lists of exactly the transactions that a linked row produces. */
  lemma RowsExactly(h: ContentHash, g: Graph, docId: NodeId, rows: seq<RowRecord>, id: NodeId, m: MissingElement)
    requires WellFormed(h, g)
    ensures m in Missing(WithRows(h, g, docId, rows), id) <==>
            && m in Missing(g, id)
            && !(m == SourceDocument
                 && exists r :: Edge(r, id, Produces) in g.edges && IsLinkedRow(h, g, docId, rows, r))
  {
    var later := WithRows(h, g, docId, rows);
    MissingIff(g, id, m);
    MissingIff(later, id, m);
    forall e
      ensures e in later.edges
         <==> e in g.edges || (e == Edge(docId, e.to, ExtractedFrom) && IsLinkedRow(h, g, docId, rows, e.to))
    {
      RowEdges(h, g, docId, rows, e);
    }
    var linked := (r: NodeId) => IsLinkedRow(h, g, docId, rows, r);
    assert forall r :: linked(r) <==> IsLinkedRow(h, g, docId, rows, r);
    NewSources(g, later, docId, linked, id, m);
  }
}
