/** The readers of the evidence graph agree on every transaction of it. */
module EvidenceReaders {
  import opened Results
  import opened EvidenceNodes
  import opened EvidenceValues

  lemma IdKnown(h: ContentHash, g: Graph, id: NodeId)
    ensures At(h, g, id) == [] <==> !HasNode(h, g, id)
  {
    GetNodeFinds(h, g.nodes, id);
  }

  lemma SomeIncoming(h: ContentHash, g: Graph, id: NodeId, kind: EdgeType, f: Edge -> seq<EvidenceNode>)
    requires WellFormed(h, g)
    requires forall e :: f(e) == [] <==> e.kind != kind || At(h, g, e.from) == []
    ensures Collect(f, Incoming(g, id)) == [] <==> !HasIn(g, id, kind)
  {
    CollectEmpty(f, Incoming(g, id));
    forall e: Edge
      ensures e in Incoming(g, id) <==> e in g.edges && e.to == id
    {
      IncomingMembers(g, id, e);
      IdKnown(h, g, e.from);
    }
    assert forall e | e in g.edges :: HasEnds(h, g, e);
    forall e: Edge
      ensures At(h, g, e.from) == [] <==> !HasNode(h, g, e.from)
    {
      IdKnown(h, g, e.from);
    }
  }

  lemma SomeOutgoing(h: ContentHash, g: Graph, id: NodeId, kind: EdgeType)
    requires WellFormed(h, g)
    ensures Collect(TargetOf(h, g, kind), Outgoing(g, id)) == [] <==> !HasOut(g, id, kind)
  {
    CollectEmpty(TargetOf(h, g, kind), Outgoing(g, id));
    forall e: Edge
      ensures e in Outgoing(g, id) <==> e in g.edges && e.from == id
      ensures At(h, g, e.to) == [] <==> !HasNode(h, g, e.to)
    {
      OutgoingMembers(g, id, e);
      IdKnown(h, g, e.to);
    }
    assert forall e | e in g.edges :: HasEnds(h, g, e);
  }

  lemma SomeSource(h: ContentHash, g: Graph, id: NodeId)
    requires WellFormed(h, g)
    ensures Collect(DocsOf(h, g), Incoming(g, id)) == [] <==> !HasSource(g, id)
  {
    CollectEmpty(DocsOf(h, g), Incoming(g, id));
    forall e: Edge
      ensures e in Incoming(g, id) <==> e in g.edges && e.to == id
      ensures Collect(DocOf(h, g), Incoming(g, e.from)) == [] <==> !HasIn(g, e.from, ExtractedFrom)
      ensures GetNode(h, g.nodes, e.from).Some? <==> HasNode(h, g, e.from)
    {
      IncomingMembers(g, id, e);
      SomeIncoming(h, g, e.from, ExtractedFrom, DocOf(h, g));
      GetNodeFinds(h, g.nodes, e.from);
    }
    assert forall e | e in g.edges :: HasEnds(h, g, e);
  }

  /** The tracer's chain is empty exactly where the edges say so. */
  lemma ChainParts(h: ContentHash, g: Graph, txId: string)
    requires WellFormed(h, g) && HasNode(h, g, TxNodeId(txId))
    ensures Trace(h, g, txId).Some?
    ensures var c, id := Trace(h, g, txId).value, TxNodeId(txId);
            && (c.sourceDocuments == [] <==> !HasSource(g, id))
            && (c.extractedRows == [] <==> !HasIn(g, id, Produces))
            && (c.classifications == [] <==> !HasOut(g, id, ClassifiedAs))
            && (c.approvals == [] <==> !HasOut(g, id, ApprovedBy))
            && (c.workbookRows == [] <==> !HasOut(g, id, ExportedTo))
  {
    var id := TxNodeId(txId);
    GetNodeFinds(h, g.nodes, id);
    SomeSource(h, g, id);
    SomeIncoming(h, g, id, Produces, RowOf(h, g));
    SomeOutgoing(h, g, id, ClassifiedAs);
    SomeOutgoing(h, g, id, ApprovedBy);
    SomeOutgoing(h, g, id, ExportedTo);
  }

  lemma {:induction false} TextsAppend(a: seq<MissingElement>, b: seq<MissingElement>)
    ensures Texts(a + b) == Texts(a) + Texts(b)
  {
    if a == [] {
      assert a + b == b;
    } else {
      assert (a + b)[1..] == a[1..] + b;
      TextsAppend(a[1..], b);
    }
  }

  function Unless(present: bool, m: MissingElement): (r: seq<MissingElement>)
    ensures Texts(r) == if present then [] else [Text(m)]
  {
    if present then [] else
      assert [m][1..] == [];
      [m]
  }

  lemma TextsOfList(source: bool, rows: bool, classification: bool, approval: bool, export_: bool)
    ensures Texts(MissingList(source, rows, classification, approval, export_))
         == (if source then [] else ["source_document"])
          + (if rows then [] else ["extracted_rows"])
          + (if classification then [] else ["classification"])
          + (if approval then [] else ["operator_approval"])
          + (if export_ then [] else ["workbook_export"])
  {
    var a, b := Unless(source, SourceDocument), Unless(rows, ExtractedRows);
    var c := Unless(classification, MissingClassification);
    var d, e := Unless(approval, MissingApproval), Unless(export_, WorkbookExport);
    TextsAppend(a + b + c + d, e);
    TextsAppend(a + b + c, d);
    TextsAppend(a + b, c);
    TextsAppend(a, b);
  }

  /** The scanner's list and the tracer's list are the same, element for element. */
  lemma ReadersAgree(h: ContentHash, g: Graph, txId: string)
    requires WellFormed(h, g) && HasNode(h, g, TxNodeId(txId))
    ensures Trace(h, g, txId).Some?
    ensures MissingElements(Trace(h, g, txId).value) == Texts(Missing(g, TxNodeId(txId)))
  {
    var id := TxNodeId(txId);
    ChainParts(h, g, txId);
    TextsOfList(HasSource(g, id), HasIn(g, id, Produces), HasOut(g, id, ClassifiedAs),
                HasOut(g, id, ApprovedBy), HasOut(g, id, ExportedTo));
  }

  /** Without rows there is no source either. */
  lemma RowsBeforeSource(g: Graph, id: NodeId)
    ensures HasSource(g, id) ==> HasIn(g, id, Produces)
  {
  }

  lemma CriticalList(source: bool, rows: bool, classification: bool, approval: bool, export_: bool)
    ensures var missing := MissingList(source, rows, classification, approval, export_);
            && (IsCritical(missing) <==> !source || !classification)
            && (missing == [] <==> source && rows && classification && approval && export_)
  {
    var a, b := Unless(source, SourceDocument), Unless(rows, ExtractedRows);
    var c := Unless(classification, MissingClassification);
    var d, e := Unless(approval, MissingApproval), Unless(export_, WorkbookExport);
    assert MissingList(source, rows, classification, approval, export_) == a + b + c + d + e;
  }

  function Named(present: bool, name: string): seq<string> {
    if present then [] else [name]
  }

  lemma DifferentNames()
    ensures Critical()("operator_approval") == []
    ensures Critical()("workbook_export") == []
    ensures Critical()("source_document") != []
    ensures Critical()("extracted_rows") != []
    ensures Critical()("classification") != []
  {
    assert "operator_approval"[0] == 'o' && "workbook_export"[0] == 'w';
  }

  /** Of the five names, the first three are critical and the last two are not. */
  lemma CriticalNames(source: bool, rows: bool, classification: bool, approval: bool, export_: bool)
    ensures var names := Named(source, "source_document") + Named(rows, "extracted_rows")
                       + Named(classification, "classification")
                       + Named(approval, "operator_approval") + Named(export_, "workbook_export");
            && (Collect(Critical(), names) == [] <==> source && rows && classification)
            && (names == [] <==> source && rows && classification && approval && export_)
  {
    var a, b := Named(source, "source_document"), Named(rows, "extracted_rows");
    var c := Named(classification, "classification");
    var d, e := Named(approval, "operator_approval"), Named(export_, "workbook_export");
    var names := a + b + c + d + e;
    CollectEmpty(Critical(), names);
    DifferentNames();
    assert source || "source_document" in a;
    assert rows || "extracted_rows" in b;
    assert classification || "classification" in c;
  }

  lemma BadgeByParts(chain: Chain)
    ensures var core := chain.sourceDocuments != [] && chain.extractedRows != [] && chain.classifications != [];
            var rest := chain.approvals != [] && chain.workbookRows != [];
            && (BadgeOf(chain) == Complete <==> core && rest)
            && (BadgeOf(chain).Partial? <==> core && !rest)
            && (BadgeOf(chain).Partial? ==> BadgeOf(chain).missing == MissingElements(chain))
  {
    CriticalNames(chain.sourceDocuments != [], chain.extractedRows != [], chain.classifications != [],
                  chain.approvals != [], chain.workbookRows != []);
  }

  lemma CollectNamed(present: bool, name: string)
    ensures Collect(Critical(), Named(present, name)) == if present then [] else Critical()(name)
  {
    assert [name][..0] == [];
  }

  lemma {:induction false} CollectAppend<T, U>(f: T -> seq<U>, s: seq<T>, t: seq<T>)
    ensures Collect(f, s + t) == Collect(f, s) + Collect(f, t)
  {
    if t == [] {
      assert s + t == s;
    } else {
      var n := |t| - 1;
      assert (s + t)[..|s + t| - 1] == s + t[..n];
      CollectAppend(f, s, t[..n]);
    }
  }

  lemma CollectCore<T>(f: T -> seq<T>, a: seq<T>, b: seq<T>, c: seq<T>, d: seq<T>, e: seq<T>)
    requires Collect(f, a) == a && Collect(f, b) == b && Collect(f, c) == c
    requires Collect(f, d) == [] && Collect(f, e) == []
    ensures Collect(f, a + b + c + d + e) == a + b + c
  {
    CollectAppend(f, a + b + c + d, e);
    CollectAppend(f, a + b + c, d);
    CollectAppend(f, a + b, c);
    CollectAppend(f, a, b);
  }

  /** The critical names of a list, in its order. */
  lemma CriticalOf(source: bool, rows: bool, classification: bool, approval: bool, export_: bool)
    ensures var core := Named(source, "source_document") + Named(rows, "extracted_rows")
                      + Named(classification, "classification");
            Collect(Critical(), core + Named(approval, "operator_approval") + Named(export_, "workbook_export")) == core
  {
    DifferentNames();
    CollectNamed(source, "source_document");
    CollectNamed(rows, "extracted_rows");
    CollectNamed(classification, "classification");
    CollectNamed(approval, "operator_approval");
    CollectNamed(export_, "workbook_export");
    CollectCore(Critical(), Named(source, "source_document"), Named(rows, "extracted_rows"),
                Named(classification, "classification"), Named(approval, "operator_approval"),
                Named(export_, "workbook_export"));
  }

  lemma LackingParts(chain: Chain)
    requires BadgeOf(chain).Lacking?
    ensures BadgeOf(chain).missing
         == Named(chain.sourceDocuments != [], "source_document") + Named(chain.extractedRows != [], "extracted_rows")
          + Named(chain.classifications != [], "classification")
  {
    CriticalOf(chain.sourceDocuments != [], chain.extractedRows != [], chain.classifications != [],
               chain.approvals != [], chain.workbookRows != []);
  }

  /** The badge is a third reading of the same list. */
  lemma BadgeAgrees(h: ContentHash, g: Graph, txId: string)
    requires WellFormed(h, g) && HasNode(h, g, TxNodeId(txId))
    ensures Trace(h, g, txId).Some?
    ensures var badge, missing := BadgeOf(Trace(h, g, txId).value), Missing(g, TxNodeId(txId));
            && (badge == Complete <==> missing == [])
            && (badge.Partial? <==> missing != [] && !IsCritical(missing))
            && (badge.Lacking? || badge.NotFound? <==> IsCritical(missing))
            && (badge.Partial? ==> badge.missing == Texts(missing))
    ensures var badge, id := BadgeOf(Trace(h, g, txId).value), TxNodeId(txId);
            && (badge == NotFound <==> !HasSource(g, id) && !HasIn(g, id, Produces) && !HasOut(g, id, ClassifiedAs))
            && (badge.Lacking? ==>
                  badge.missing == Named(HasSource(g, id), "source_document")
                                 + Named(HasIn(g, id, Produces), "extracted_rows")
                                 + Named(HasOut(g, id, ClassifiedAs), "classification"))
  {
    var id := TxNodeId(txId);
    ChainParts(h, g, txId);
    ReadersAgree(h, g, txId);
    RowsBeforeSource(g, id);
    BadgeByParts(Trace(h, g, txId).value);
    if BadgeOf(Trace(h, g, txId).value).Lacking? {
      LackingParts(Trace(h, g, txId).value);
    }
    CriticalList(HasSource(g, id), HasIn(g, id, Produces), HasOut(g, id, ClassifiedAs),
                 HasOut(g, id, ApprovedBy), HasOut(g, id, ExportedTo));
  }

  lemma InUnless(present: bool, m: MissingElement)
    ensures forall x :: x in Unless(present, m) <==> !present && x == m
  {
  }

  lemma InFive<T>(a: seq<T>, b: seq<T>, c: seq<T>, d: seq<T>, e: seq<T>, x: T)
    ensures x in a + b + c + d + e <==> x in a || x in b || x in c || x in d || x in e
  {
  }

  lemma InMissing(source: bool, rows: bool, classification: bool, approval: bool, export_: bool)
    ensures var missing := MissingList(source, rows, classification, approval, export_);
            && (SourceDocument in missing <==> !source)
            && (ExtractedRows in missing <==> !rows)
            && (MissingClassification in missing <==> !classification)
            && (MissingApproval in missing <==> !approval)
            && (WorkbookExport in missing <==> !export_)
  {
    InUnless(source, SourceDocument);
    InUnless(rows, ExtractedRows);
    InUnless(classification, MissingClassification);
    InUnless(approval, MissingApproval);
    InUnless(export_, WorkbookExport);
    var missing := MissingList(source, rows, classification, approval, export_);
    forall m
      ensures m in missing
         <==> m in Unless(source, SourceDocument) || m in Unless(rows, ExtractedRows)
              || m in Unless(classification, MissingClassification) || m in Unless(approval, MissingApproval)
              || m in Unless(export_, WorkbookExport)
    {
      InFive(Unless(source, SourceDocument), Unless(rows, ExtractedRows), Unless(classification, MissingClassification),
             Unless(approval, MissingApproval), Unless(export_, WorkbookExport), m);
    }
  }

  /** What a gap suggests: to classify, else to approve, else to ingest, else to export. */
  lemma SuggestionExactly(g: Graph, id: NodeId)
    ensures Suggestion(Missing(g, id))
         == if !HasOut(g, id, ClassifiedAs) then Some("ledgerr_review { action: classify, tx_id: \"...\" }")
            else if !HasOut(g, id, ApprovedBy) then Some("ledgerr_review { action: approve, tx_id: \"...\" }")
            else if !HasSource(g, id) then Some("ledgerr_documents { action: ingest_pdf, pdf_path: \"...\" }")
            else if !HasOut(g, id, ExportedTo) then Some("ledgerr_audit { action: export, workbook_path: \"...\" }")
            else None
  {
    RowsBeforeSource(g, id);
    InMissing(HasSource(g, id), HasIn(g, id, Produces), HasOut(g, id, ClassifiedAs), HasOut(g, id, ApprovedBy),
              HasOut(g, id, ExportedTo));
  }

  // ---------------------------------------------------------------------------------------------
  // The work queue
  // ---------------------------------------------------------------------------------------------

  function CountIf<T>(p: T -> bool, s: seq<T>): nat {
    if s == [] then 0 else CountIf(p, s[..|s| - 1]) + if p(s[|s| - 1]) then 1 else 0
  }

  ghost function Blocked(): Gap -> bool { (gap: Gap) => IsCritical(gap.missing) }

  ghost function Ready(): Gap -> bool { (gap: Gap) => !IsCritical(gap.missing) }

  /** A transaction whose badge is Complete. */
  ghost function Done(h: ContentHash, g: Graph): EvidenceNode -> bool {
    (node: EvidenceNode) =>
      node.TxNode? && match Trace(h, g, node.tx.txId) case Some(chain) => BadgeOf(chain) == Complete case None => false
  }

  lemma {:induction false} CountIfAppend<T>(p: T -> bool, s: seq<T>, t: seq<T>)
    ensures CountIf(p, s + t) == CountIf(p, s) + CountIf(p, t)
  {
    if t == [] {
      assert s + t == s;
    } else {
      assert (s + t)[..|s + t| - 1] == s + t[..|t| - 1];
      CountIfAppend(p, s, t[..|t| - 1]);
    }
  }

  /** A transaction is done, or has one gap that is either ready or blocked. */
  lemma OneTransaction(h: ContentHash, g: Graph, tx: EvidenceNode)
    requires WellFormed(h, g) && tx.TxNode? && HasNode(h, g, TxNodeId(tx.tx.txId))
    ensures var here := GapsAt(g)(tx);
            (if Done(h, g)(tx) then 1 else 0) + CountIf(Ready(), here) + CountIf(Blocked(), here) == 1
  {
    var here := GapsAt(g)(tx);
    BadgeAgrees(h, g, tx.tx.txId);
    assert here != [] ==> here[..0] == [];
  }

  lemma StoredTransaction(h: ContentHash, g: Graph, node: EvidenceNode)
    requires node.TxNode? && node in g.nodes
    ensures HasNode(h, g, TxNodeId(node.tx.txId))
  {
    var i :| 0 <= i < |g.nodes| && g.nodes[i] == node;
    assert Key(h)(g.nodes[i]) == TxNodeId(node.tx.txId);
  }

  /** When each node counts once over the three tests, all nodes do. */
  lemma {:induction false} CountsAddUp(done: EvidenceNode -> bool, gapsAt: EvidenceNode -> seq<Gap>,
                                       ready: Gap -> bool, blocked: Gap -> bool, txs: seq<EvidenceNode>)
    requires forall node | node in txs ::
               (if done(node) then 1 else 0) + CountIf(ready, gapsAt(node)) + CountIf(blocked, gapsAt(node)) == 1
    ensures var gaps := Collect(gapsAt, txs);
            CountIf(done, txs) + CountIf(ready, gaps) + CountIf(blocked, gaps) == |txs|
  {
    if txs != [] {
      var front, last := txs[..|txs| - 1], txs[|txs| - 1];
      assert txs == front + [last] && last in txs && forall node | node in front :: node in txs;
      CountsAddUp(done, gapsAt, ready, blocked, front);
      CountIfAppend(ready, Collect(gapsAt, front), gapsAt(last));
      CountIfAppend(blocked, Collect(gapsAt, front), gapsAt(last));
    }
  }

  lemma QueueCounts(h: ContentHash, g: Graph, txs: seq<EvidenceNode>)
    requires WellFormed(h, g)
    requires forall node | node in txs :: node.TxNode? && node in g.nodes
    ensures var gaps := Collect(GapsAt(g), txs);
            CountIf(Done(h, g), txs) + CountIf(Ready(), gaps) + CountIf(Blocked(), gaps) == |txs|
  {
    var done, gapsAt, ready, blocked := Done(h, g), GapsAt(g), Ready(), Blocked();
    forall node | node in txs
      ensures (if done(node) then 1 else 0) + CountIf(ready, gapsAt(node)) + CountIf(blocked, gapsAt(node)) == 1
    {
      StoredTransaction(h, g, node);
      OneTransaction(h, g, node);
    }
    CountsAddUp(done, gapsAt, ready, blocked, txs);
  }

  lemma TransactionsOnly(g: Graph)
    ensures forall node | node in NodesOfType(g, Transaction) :: node.TxNode? && node in g.nodes
  {
    forall node | node in NodesOfType(g, Transaction)
      ensures node.TxNode? && node in g.nodes
    {
      CollectMembers(OfType(Transaction), g.nodes, node);
    }
  }

  /** Complete, ready and blocked transactions are all the transactions, each counted once. */
  lemma WorkQueueConserved(h: ContentHash, g: Graph)
    requires WellFormed(h, g)
    ensures var txs := NodesOfType(g, Transaction);
            CountIf(Done(h, g), txs) + CountIf(Ready(), Gaps(g)) + CountIf(Blocked(), Gaps(g)) == |txs|
  {
    TransactionsOnly(g);
    QueueCounts(h, g, NodesOfType(g, Transaction));
  }

  // ---------------------------------------------------------------------------------------------
  // Growth
  // ---------------------------------------------------------------------------------------------

  ghost predicate Grows(g: Graph, later: Graph) {
    g.nodes <= later.nodes && g.edges <= later.edges
  }

  /** What a transaction has, it keeps: its list never gains an element as the graph grows. */
  lemma MissingNeverGains(g: Graph, later: Graph, id: NodeId)
    requires Grows(g, later)
    ensures forall m | m in Missing(later, id) :: m in Missing(g, id)
    ensures IsCritical(Missing(later, id)) ==> IsCritical(Missing(g, id))
  {
    assert forall e | e in g.edges :: e in later.edges;
    assert HasSource(g, id) ==> HasSource(later, id) by {
      if HasSource(g, id) {
        var e :| e in g.edges && e.to == id && e.kind == Produces && HasIn(g, e.from, ExtractedFrom);
        assert HasIn(later, e.from, ExtractedFrom);
      }
    }
  }
}
