/**
 What the builder's calls achieve: the exact effect of each single-node call on the missing lists,
 what a trace then finds, and that a full chain, an approval and an export complete the evidence.
 */
module BuilderProgress {
  import opened Results
  import opened EvidenceNodes
  import opened EvidenceValues
  import opened EvidenceReaders
  import opened BuilderModel

  /** The calls that store one node: a document, or a node about a transaction. */
  predicate IsSingle(call: Call) {
    !call.EnsureExtractedRows? && !call.EnsureTransaction? && !call.BuildFullChain?
  }

  function NodeOf(call: Call): EvidenceNode
    requires IsSingle(call)
  {
    match call
    case EnsureDocument(doc) => DocNode(doc)
    case EnsureClassification(c) => ClassificationNode(c)
    case EnsureProposal(p) => ProposalNode(p)
    case EnsureApproval(a) => ApprovalNode(a)
    case EnsureWorkbookRow(w) => WorkbookNode(w)
    case EnsureValidationIssue(i) => IssueNode(i)
  }

  /** A single-node call about a transaction; its node, the transaction and the kind of its edge. */
  predicate IsAbout(call: Call, txId: string) {
    IsSingle(call) && TxIdOf(NodeOf(call)) == Some(txId)
  }

  function KindOf(call: Call): EdgeType
    requires IsSingle(call)
  {
    match call
    case EnsureProposal(_) => ProposedBy
    case EnsureApproval(_) => ApprovedBy
    case EnsureWorkbookRow(_) => ExportedTo
    case EnsureValidationIssue(_) => ValidatedAs
    case _ => ClassifiedAs
  }

  lemma SingleCallAttaches(h: ContentHash, g: Graph, call: Call, txId: string)
    requires IsAbout(call, txId)
    ensures Apply(h, g, call) == Attach(h, g, NodeOf(call), txId, KindOf(call))
    ensures !NodeOf(call).TxNode?
  {
  }

  /** The element of the missing list that the call supplies, if any. */
  function Supplies(call: Call): Option<MissingElement> {
    match call
    case EnsureClassification(_) => Some(MissingClassification)
    case EnsureApproval(_) => Some(MissingApproval)
    case EnsureWorkbookRow(_) => Some(WorkbookExport)
    case _ => None
  }

  ghost predicate Has(g: Graph, id: NodeId, m: MissingElement) {
    match m
    case SourceDocument => HasSource(g, id)
    case ExtractedRows => HasIn(g, id, Produces)
    case MissingClassification => HasOut(g, id, ClassifiedAs)
    case MissingApproval => HasOut(g, id, ApprovedBy)
    case WorkbookExport => HasOut(g, id, ExportedTo)
  }

  lemma MissingIff(g: Graph, id: NodeId, m: MissingElement)
    ensures m in Missing(g, id) <==> !Has(g, id, m)
  {
  }

  /** Storing a node that is no transaction does not make a transaction known. */
  lemma SameTransactions(h: ContentHash, g: Graph, node: EvidenceNode, txId: string)
    requires WellFormed(h, g) && !node.TxNode?
    ensures HasNode(h, WithNode(h, g, node), TxNodeId(txId)) <==> HasNode(h, g, TxNodeId(txId))
  {
    WithNodeWellFormed(h, g, node);
    if IdOf(h, node) == TxNodeId(txId) {
      NewIdInjective(NodeTypeOf(node), IdHash(h, node), Transaction, txId);
    }
  }

  /** An edge of this kind out of a transaction supplies `m`. */
  predicate Gives(kind: EdgeType, m: MissingElement) {
    || (m == MissingClassification && kind == ClassifiedAs)
    || (m == MissingApproval && kind == ApprovedBy)
    || (m == WorkbookExport && kind == ExportedTo)
  }

  /** One more edge out of a transaction, of a kind that does not lead from rows or documents. */
  lemma OneMoreEdge(g: Graph, e: Edge, id: NodeId, m: MissingElement)
    requires e.kind != Produces && e.kind != ExtractedFrom
    ensures Has(g.(edges := g.edges + [e]), id, m) <==>
            Has(g, id, m) || (id == e.from && Gives(e.kind, m))
  {
    var later := g.(edges := g.edges + [e]);
    assert forall d :: d in later.edges <==> d in g.edges || d == e;
    forall other, kind
      ensures HasIn(later, other, kind) <==> HasIn(g, other, kind) || (other == e.to && kind == e.kind)
      ensures HasOut(later, other, kind) <==> HasOut(g, other, kind) || (other == e.from && kind == e.kind)
    {
      assert e in later.edges;
    }
    assert HasSource(later, id) <==> HasSource(g, id);
  }

  lemma EnsureEdgeExactly(h: ContentHash, g: Graph, e: Edge, id: NodeId, m: MissingElement)
    requires e.kind != Produces && e.kind != ExtractedFrom
    ensures Has(EnsureEdge(h, g, e), id, m) <==> Has(g, id, m) || (HasEnds(h, g, e) && id == e.from && Gives(e.kind, m))
  {
    OneMoreEdge(g, e, id, m);
    assert e in g.edges ==> HasOut(g, e.from, e.kind);
  }

  lemma AttachExactly(h: ContentHash, g: Graph, node: EvidenceNode, txId: string, kind: EdgeType, id: NodeId,
                      m: MissingElement)
    requires WellFormed(h, g) && !node.TxNode?
    requires kind != Produces && kind != ExtractedFrom
    ensures Has(Attach(h, g, node, txId, kind), id, m)
       <==> Has(g, id, m) || (HasNode(h, g, TxNodeId(txId)) && id == TxNodeId(txId) && Gives(kind, m))
  {
    var stored := WithNode(h, g, node);
    WithNodeSound(h, g, node);
    SameTransactions(h, g, node, txId);
    EnsureEdgeExactly(h, stored, Edge(TxNodeId(txId), IdOf(h, node), kind), id, m);
  }

  lemma AttachMissing(h: ContentHash, g: Graph, call: Call, txId: string, id: NodeId, m: MissingElement)
    requires WellFormed(h, g) && IsAbout(call, txId)
    ensures m in Missing(Attach(h, g, NodeOf(call), txId, KindOf(call)), id) <==>
            m in Missing(g, id) && !(Supplies(call) == Some(m) && HasNode(h, g, id) && id == TxNodeId(txId))
  {
    MissingIff(g, id, m);
    MissingIff(Attach(h, g, NodeOf(call), txId, KindOf(call)), id, m);
    AttachExactly(h, g, NodeOf(call), txId, KindOf(call), id, m);
  }

  /**
   A single-node call takes exactly one element off exactly one list: what it supplies, from the list
   of the transaction it names, if that transaction is known. Every other list stays as it is.
   */
  lemma SingleCallExactly(h: ContentHash, g: Graph, call: Call, id: NodeId, m: MissingElement)
    requires WellFormed(h, g) && IsSingle(call)
    ensures m in Missing(Apply(h, g, call), id) <==>
            && m in Missing(g, id)
            && !(Supplies(call) == Some(m)
                 && HasNode(h, g, id)
                 && TxIdOf(NodeOf(call)).Some? && id == TxNodeId(TxIdOf(NodeOf(call)).value))
  {
    if call.EnsureDocument? {
      MissingIff(g, id, m);
      MissingIff(WithNode(h, g, DocNode(call.doc)), id, m);
    } else {
      var txId := TxIdOf(NodeOf(call)).value;
      AttachMissing(h, g, call, txId, id, m);
      SingleCallAttaches(h, g, call, txId);
    }
  }

  // ---------------------------------------------------------------------------------------------
  // What the tracer finds
  // ---------------------------------------------------------------------------------------------

  /** The part of a chain that lists nodes of this type. */
  function PartFor(chain: Chain, t: NodeType): seq<EvidenceNode> {
    match t
    case Classification => chain.classifications
    case ModelProposal => chain.proposals
    case OperatorApproval => chain.approvals
    case WorkbookRow => chain.workbookRows
    case _ => []
  }

  ghost predicate ListsId(h: ContentHash, nodes: seq<EvidenceNode>, id: NodeId) {
    exists node :: node in nodes && IdOf(h, node) == id
  }

  lemma TargetListed(h: ContentHash, g: Graph, e: Edge)
    requires WellFormed(h, g) && e in g.edges
    ensures ListsId(h, Collect(TargetOf(h, g, e.kind), Outgoing(g, e.from)), e.to)
  {
    OutgoingMembers(g, e.from, e);
    GetNodeFinds(h, g.nodes, e.to);
    var node := GetNode(h, g.nodes, e.to).value;
    CollectMembers(TargetOf(h, g, e.kind), Outgoing(g, e.from), node);
    assert node in TargetOf(h, g, e.kind)(e);
  }

  /** `chain` lists the node of the call, among its own kind. */
  ghost predicate Lists(h: ContentHash, chain: Option<Chain>, call: Call)
    requires IsSingle(call)
  {
    chain.Some? && ListsId(h, PartFor(chain.value, NodeTypeOf(NodeOf(call))), IdOf(h, NodeOf(call)))
  }

  lemma AttachTraced(h: ContentHash, g: Graph, node: EvidenceNode, txId: string, kind: EdgeType)
    requires WellFormed(h, g) && HasNode(h, g, TxNodeId(txId))
    ensures var later := Attach(h, g, node, txId, kind);
            && Trace(h, later, txId).Some?
            && ListsId(h, Collect(TargetOf(h, later, kind), Outgoing(later, TxNodeId(txId))), IdOf(h, node))
  {
    var later := Attach(h, g, node, txId, kind);
    AttachSound(h, g, node, txId, kind);
    GetNodeFinds(h, later.nodes, TxNodeId(txId));
    TargetListed(h, later, Edge(TxNodeId(txId), IdOf(h, node), kind));
  }

  lemma TraceParts(h: ContentHash, g: Graph, txId: string, id: NodeId)
    requires Trace(h, g, txId).Some? && id == TxNodeId(txId)
    ensures var chain := Trace(h, g, txId).value;
            && chain.classifications == Collect(TargetOf(h, g, ClassifiedAs), Outgoing(g, id))
            && chain.proposals == Collect(TargetOf(h, g, ProposedBy), Outgoing(g, id))
            && chain.approvals == Collect(TargetOf(h, g, ApprovedBy), Outgoing(g, id))
            && chain.workbookRows == Collect(TargetOf(h, g, ExportedTo), Outgoing(g, id))
  {
  }

  /** The tracer collects the nodes of each kind along the edges of the kind that the builder gives them. */
  lemma TracedPart(h: ContentHash, g: Graph, call: Call, txId: string)
    requires IsAbout(call, txId) && !call.EnsureValidationIssue?
    requires Trace(h, g, txId).Some?
    ensures PartFor(Trace(h, g, txId).value, NodeTypeOf(NodeOf(call)))
            == Collect(TargetOf(h, g, KindOf(call)), Outgoing(g, TxNodeId(txId)))
  {
    var chain := Trace(h, g, txId).value;
    TraceParts(h, g, txId, TxNodeId(txId));
    match call
    case EnsureClassification(_) => assert PartFor(chain, Classification) == chain.classifications;
    case EnsureProposal(_) => assert PartFor(chain, ModelProposal) == chain.proposals;
    case EnsureApproval(_) => assert PartFor(chain, OperatorApproval) == chain.approvals;
    case EnsureWorkbookRow(_) => assert PartFor(chain, WorkbookRow) == chain.workbookRows;
  }

  /** A classification, proposal, approval or export of a known transaction is then traced from it. */
  lemma AttachedIsTraced(h: ContentHash, g: Graph, call: Call, txId: string)
    requires WellFormed(h, g) && HasNode(h, g, TxNodeId(txId))
    requires IsAbout(call, txId) && !call.EnsureValidationIssue?
    ensures Lists(h, Trace(h, Apply(h, g, call), txId), call)
  {
    SingleCallAttaches(h, g, call, txId);
    AttachTraced(h, g, NodeOf(call), txId, KindOf(call));
    TracedPart(h, Attach(h, g, NodeOf(call), txId, KindOf(call)), call, txId);
  }

  // ---------------------------------------------------------------------------------------------
  // Complete evidence
  // ---------------------------------------------------------------------------------------------

  lemma {:induction false} FoldAppend(step: (Graph, Call) -> Graph, g: Graph, some: seq<Call>, more: seq<Call>)
    ensures Fold(step, g, some + more) == Fold(step, Fold(step, g, some), more)
    decreases |more|
  {
    if more == [] {
      assert some + more == some;
    } else {
      var n := |more| - 1;
      assert (some + more)[..|some| + n] == some + more[..n];
      FoldAppend(step, g, some, more[..n]);
    }
  }

  lemma SplitRun(h: ContentHash, g: Graph, calls: seq<Call>, n: nat)
    requires n <= |calls|
    ensures Run(h, Run(h, g, calls[..n]), calls[n..]) == Run(h, g, calls)
  {
    assert calls[..n] + calls[n..] == calls;
    FoldAppend(Step(h), g, calls[..n], calls[n..]);
  }

  /** What is there after the first `n` calls of a run is there after the run. */
  lemma StaysSupplied(h: ContentHash, g: Graph, calls: seq<Call>, n: nat, id: NodeId)
    requires WellFormed(h, g) && n <= |calls|
    ensures WellFormed(h, Run(h, g, calls[..n]))
    ensures HasNode(h, Run(h, g, calls[..n]), id) ==> HasNode(h, Run(h, g, calls), id)
    ensures forall m | m in Missing(Run(h, g, calls), id) :: m in Missing(Run(h, g, calls[..n]), id)
  {
    var after := Run(h, g, calls[..n]);
    RunOnlyAddsEvidence(h, g, calls[..n]);
    SplitRun(h, g, calls, n);
    RunOnlyAddsEvidence(h, after, calls[n..]);
  }

  lemma OneMoreCall(h: ContentHash, g: Graph, calls: seq<Call>, n: nat)
    requires n < |calls|
    ensures Run(h, g, calls[..n + 1]) == Apply(h, Run(h, g, calls[..n]), calls[n])
  {
    assert calls[..n + 1][..n] == calls[..n];
  }

  /** A list that is not critical lacks nothing but the approval and the export. */
  lemma UncriticalLacks(g: Graph, id: NodeId)
    requires !IsCritical(Missing(g, id))
    ensures forall m | m in Missing(g, id) :: m == MissingApproval || m == WorkbookExport
  {
    RowsBeforeSource(g, id);
    MissingIff(g, id, SourceDocument);
    MissingIff(g, id, ExtractedRows);
    MissingIff(g, id, MissingClassification);
  }

  lemma OneMoreChain(h: ContentHash, g: Graph, calls: seq<Call>, n: nat)
    requires n < |calls| && calls[n].BuildFullChain?
    ensures Run(h, g, calls[..n + 1])
         == FullChain(h, Run(h, g, calls[..n]), calls[n].fullDoc, calls[n].fullRows, calls[n].fullTx,
                      calls[n].fullClassification)
  {
    OneMoreCall(h, g, calls, n);
  }

  lemma ChainInRun(h: ContentHash, g: Graph, calls: seq<Call>, n: nat)
    requires WellFormed(h, g) && n < |calls|
    requires calls[n].BuildFullChain? && calls[n].fullRows != []
    ensures var id := TxNodeId(calls[n].fullTx.txId);
            && HasNode(h, Run(h, g, calls[..n + 1]), id) && HasNode(h, Run(h, g, calls), id)
            && forall m | m in Missing(Run(h, g, calls), id) :: m == MissingApproval || m == WorkbookExport
  {
    var call, id, before := calls[n], TxNodeId(calls[n].fullTx.txId), Run(h, g, calls[..n]);
    StaysSupplied(h, g, calls, n, id);
    StaysSupplied(h, g, calls, n + 1, id);
    OneMoreChain(h, g, calls, n);
    FullChainNotCritical(h, before, call.fullDoc, call.fullRows, call.fullTx, call.fullClassification);
    UncriticalLacks(Run(h, g, calls[..n + 1]), id);
  }

  lemma KnownLater(h: ContentHash, g: Graph, calls: seq<Call>, k: nat, n: nat, id: NodeId)
    requires WellFormed(h, g) && k <= n <= |calls|
    requires HasNode(h, Run(h, g, calls[..k]), id)
    ensures HasNode(h, Run(h, g, calls[..n]), id)
  {
    assert calls[..n][..k] == calls[..k];
    StaysSupplied(h, g, calls[..n], k, id);
  }

  lemma SuppliedNow(h: ContentHash, g: Graph, calls: seq<Call>, n: nat, id: NodeId)
    requires WellFormed(h, g) && n < |calls|
    requires HasNode(h, Run(h, g, calls[..n]), id)
    requires IsSingle(calls[n]) && Supplies(calls[n]).Some?
    requires TxIdOf(NodeOf(calls[n])).Some? && id == TxNodeId(TxIdOf(NodeOf(calls[n])).value)
    ensures Supplies(calls[n]).value !in Missing(Run(h, g, calls[..n + 1]), id)
  {
    StaysSupplied(h, g, calls, n, id);
    SingleCallExactly(h, Run(h, g, calls[..n]), calls[n], id, Supplies(calls[n]).value);
    OneMoreCall(h, g, calls, n);
  }

  /** A single-node call about a transaction that is known after the first `k` calls supplies its element for good. */
  lemma SuppliedLater(h: ContentHash, g: Graph, calls: seq<Call>, k: nat, n: nat, id: NodeId)
    requires WellFormed(h, g) && k <= n < |calls|
    requires HasNode(h, Run(h, g, calls[..k]), id)
    requires IsSingle(calls[n]) && Supplies(calls[n]).Some?
    requires TxIdOf(NodeOf(calls[n])).Some? && id == TxNodeId(TxIdOf(NodeOf(calls[n])).value)
    ensures Supplies(calls[n]).value !in Missing(Run(h, g, calls), id)
  {
    KnownLater(h, g, calls, k, n, id);
    SuppliedNow(h, g, calls, n, id);
    StaysSupplied(h, g, calls, n + 1, id);
  }

  lemma NothingMissing(h: ContentHash, g: Graph, txId: string)
    requires WellFormed(h, g) && HasNode(h, g, TxNodeId(txId))
    requires forall m :: m !in Missing(g, TxNodeId(txId))
    ensures Missing(g, TxNodeId(txId)) == []
    ensures Trace(h, g, txId).Some? && BadgeOf(Trace(h, g, txId).value) == Complete
  {
    forall m
      ensures Has(g, TxNodeId(txId), m)
    {
      MissingIff(g, TxNodeId(txId), m);
    }
    assert Has(g, TxNodeId(txId), SourceDocument) && Has(g, TxNodeId(txId), ExtractedRows);
    assert Has(g, TxNodeId(txId), MissingClassification) && Has(g, TxNodeId(txId), MissingApproval);
    assert Has(g, TxNodeId(txId), WorkbookExport);
    BadgeAgrees(h, g, txId);
  }

  /**
   In any run in which a transaction gets a full chain with at least one row, and later on, in either
   order, an approval and an export, whatever else is called in between, its evidence is complete.
   */
  lemma CompleteEvidence(h: ContentHash, g: Graph, calls: seq<Call>, chain: nat, approval: nat, export_: nat)
    requires WellFormed(h, g)
    requires chain < approval < |calls| && chain < export_ < |calls|
    requires calls[chain].BuildFullChain? && calls[chain].fullRows != []
    requires calls[approval].EnsureApproval? && calls[approval].approval.txId == calls[chain].fullTx.txId
    requires calls[export_].EnsureWorkbookRow? && calls[export_].workbookRow.txId == calls[chain].fullTx.txId
    ensures var txId, later := calls[chain].fullTx.txId, Run(h, g, calls);
            && Missing(later, TxNodeId(txId)) == []
            && Trace(h, later, txId).Some? && BadgeOf(Trace(h, later, txId).value) == Complete
  {
    var id := TxNodeId(calls[chain].fullTx.txId);
    ChainInRun(h, g, calls, chain);
    SuppliedLater(h, g, calls, chain + 1, approval, id);
    SuppliedLater(h, g, calls, chain + 1, export_, id);
    assert forall m | m in Missing(Run(h, g, calls), id) :: false;
    RunOnlyAddsEvidence(h, g, calls);
    NothingMissing(h, Run(h, g, calls), calls[chain].fullTx.txId);
  }
}
