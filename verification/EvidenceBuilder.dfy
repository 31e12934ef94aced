/** The fluent builder: it writes evidence into the graph it was given, one call per event. */
module EvidenceBuilders {
  import opened EvidenceNodes
  import opened EvidenceValues
  import opened EvidenceGraphs
  import opened BuilderModel

  class EvidenceBuilder {
    const graph: EvidenceGraph

    constructor (graph: EvidenceGraph)
      ensures this.graph == graph
    {
      this.graph := graph;
    }

    method EnsureDocument(doc: DocRecord) returns (id: NodeId)
      requires graph.Valid()
      modifies graph
      ensures graph.Valid() && graph.Value() == WithNode(graph.hash, old(graph.Value()), DocNode(doc))
      ensures id == IdOf(graph.hash, DocNode(doc))
    {
      id := IdOf(graph.hash, DocNode(doc));
      var _ := graph.EnsureNode(DocNode(doc));
    }

    /** The body of the row loop. */
    method StoreRow(docId: NodeId, row: RowRecord) returns (id: NodeId)
      requires graph.Valid()
      modifies graph
      ensures graph.Valid() && graph.Value() == WithRow(graph.hash, old(graph.Value()), docId, row)
      ensures id == RowId(graph.hash, row)
    {
      id := IdOf(graph.hash, RowNode(row));
      var _ := graph.EnsureNode(RowNode(row));
      var _ := graph.EnsureEdge(docId, id, ExtractedFrom);
    }

    method EnsureExtractedRows(docId: NodeId, rows: seq<RowRecord>) returns (ids: seq<NodeId>)
      requires graph.Valid()
      modifies graph
      ensures graph.Valid() && graph.Value() == WithRows(graph.hash, old(graph.Value()), docId, rows)
      ensures ids == RowIds(graph.hash, rows)
    {
      ids := [];
      ghost var done := WithRows(graph.hash, graph.Value(), docId, rows);
      for i := 0 to |rows|
        invariant graph.Valid()
        invariant WithRows(graph.hash, graph.Value(), docId, rows[i..]) == done
        invariant ids + RowIds(graph.hash, rows[i..]) == RowIds(graph.hash, rows)
      {
        RowIdsStep(graph.hash, ids, rows, i);
        WithRowsStep(graph.hash, graph.Value(), docId, rows, i);
        var rowId := StoreRow(docId, rows[i]);
        ids := ids + [rowId];
      }
      assert rows[|rows|..] == [];
    }

    method EnsureTransaction(tx: TxRecord, sourceRows: seq<NodeId>) returns (id: NodeId)
      requires graph.Valid()
      modifies graph
      ensures graph.Valid() && graph.Value() == WithTransaction(graph.hash, old(graph.Value()), tx, sourceRows)
      ensures id == TxNodeId(tx.txId)
    {
      id := IdOf(graph.hash, TxNode(tx));
      var _ := graph.EnsureNode(TxNode(tx));
      for i := 0 to |sourceRows|
        invariant graph.Valid()
        invariant WithSources(graph.hash, graph.Value(), id, sourceRows[i..])
               == WithTransaction(graph.hash, old(graph.Value()), tx, sourceRows)
      {
        assert sourceRows[i..][1..] == sourceRows[i + 1..];
        var _ := graph.EnsureEdge(sourceRows[i], id, Produces);
      }
      assert sourceRows[|sourceRows|..] == [];
    }

    /** What the five `ensure` methods below share: a node, and its edge from the transaction. */
    method Attach(node: EvidenceNode, txId: string, kind: EdgeType) returns (id: NodeId)
      requires graph.Valid()
      modifies graph
      ensures graph.Valid() && graph.Value() == BuilderModel.Attach(graph.hash, old(graph.Value()), node, txId, kind)
      ensures id == IdOf(graph.hash, node)
    {
      id := IdOf(graph.hash, node);
      var _ := graph.EnsureNode(node);
      var _ := graph.EnsureEdge(TxNodeId(txId), id, kind);
    }

    method EnsureClassification(c: ClassificationRecord) returns (id: NodeId)
      requires graph.Valid()
      modifies graph
      ensures graph.Valid() && graph.Value() == Apply(graph.hash, old(graph.Value()), Call.EnsureClassification(c))
      ensures id == IdOf(graph.hash, ClassificationNode(c))
    {
      id := Attach(ClassificationNode(c), c.txId, ClassifiedAs);
    }

    method EnsureProposal(p: ProposalRecord) returns (id: NodeId)
      requires graph.Valid()
      modifies graph
      ensures graph.Valid() && graph.Value() == Apply(graph.hash, old(graph.Value()), Call.EnsureProposal(p))
      ensures id == IdOf(graph.hash, ProposalNode(p))
    {
      id := Attach(ProposalNode(p), p.txId, ProposedBy);
    }

    method EnsureApproval(a: ApprovalRecord) returns (id: NodeId)
      requires graph.Valid()
      modifies graph
      ensures graph.Valid() && graph.Value() == Apply(graph.hash, old(graph.Value()), Call.EnsureApproval(a))
      ensures id == IdOf(graph.hash, ApprovalNode(a))
    {
      id := Attach(ApprovalNode(a), a.txId, ApprovedBy);
    }

    method EnsureWorkbookRow(w: WorkbookRecord) returns (id: NodeId)
      requires graph.Valid()
      modifies graph
      ensures graph.Valid() && graph.Value() == Apply(graph.hash, old(graph.Value()), Call.EnsureWorkbookRow(w))
      ensures id == IdOf(graph.hash, WorkbookNode(w))
    {
      id := Attach(WorkbookNode(w), w.txId, ExportedTo);
    }

    method EnsureValidationIssue(i: IssueRecord) returns (id: NodeId)
      requires graph.Valid()
      modifies graph
      ensures graph.Valid() && graph.Value() == Apply(graph.hash, old(graph.Value()), Call.EnsureValidationIssue(i))
      ensures id == IdOf(graph.hash, IssueNode(i))
    {
      id := Attach(IssueNode(i), i.txId, ValidatedAs);
    }

    /** The document half of the chain. */
    method BuildRows(doc: DocRecord, rows: seq<RowRecord>) returns (rowIds: seq<NodeId>)
      requires graph.Valid()
      modifies graph
      ensures graph.Valid()
      ensures var withDoc := WithNode(graph.hash, old(graph.Value()), DocNode(doc));
              graph.Value() == WithRows(graph.hash, withDoc, IdOf(graph.hash, DocNode(doc)), rows)
      ensures rowIds == RowIds(graph.hash, rows)
    {
      var docId := EnsureDocument(doc);
      rowIds := EnsureExtractedRows(docId, rows);
    }

    method BuildFullChain(doc: DocRecord, rows: seq<RowRecord>, tx: TxRecord, classification: ClassificationRecord)
      requires graph.Valid()
      modifies graph
      ensures graph.Valid() && graph.Value() == FullChain(graph.hash, old(graph.Value()), doc, rows, tx, classification)
    {
      var rowIds := BuildRows(doc, rows);
      var txId := EnsureTransaction(tx, rowIds);
      var cls := classification.(txId := HashOf(txId));
      var _ := EnsureClassification(cls);
    }
  }
}
