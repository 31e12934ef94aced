/**
 The evidence graph as a value: what each operation makes of it, and what its two readers (the
 chain tracer and the gap scanner) see in it.

 The class that the repository updates in place is proved against these functions. Replaying stored
 lists is stated here too, so that loading is a function of what was stored. What a transaction has is
 stated on the edges alone, independently of both readers.
 */
module EvidenceValues {
  import opened Results
  import opened Keyed
  import opened EvidenceNodes

  datatype Graph = Graph(nodes: seq<EvidenceNode>, edges: seq<Edge>)

  const EMPTY := Graph([], [])

  function Key(h: ContentHash): EvidenceNode -> NodeId {
    node => IdOf(h, node)
  }

  predicate HasNode(h: ContentHash, g: Graph, id: NodeId) {
    HasKey(Key(h), g.nodes, id)
  }

  predicate HasEnds(h: ContentHash, g: Graph, e: Edge) {
    HasNode(h, g, e.from) && HasNode(h, g, e.to)
  }

  /** Ids are unique and no edge dangles. */
  ghost predicate WellFormed(h: ContentHash, g: Graph) {
    DistinctKeys(Key(h), g.nodes) && forall e | e in g.edges :: HasEnds(h, g, e)
  }

  function WithNode(h: ContentHash, g: Graph, node: EvidenceNode): Graph {
    g.(nodes := AddNew(Key(h), g.nodes, node))
  }

  /** A raw edge: parallel edges are kept, dangling ones are not. */
  function WithEdge(h: ContentHash, g: Graph, e: Edge): Graph {
    if HasEnds(h, g, e) then g.(edges := g.edges + [e]) else g
  }

  function EnsureEdge(h: ContentHash, g: Graph, e: Edge): Graph {
    if HasEnds(h, g, e) && e !in g.edges then g.(edges := g.edges + [e]) else g
  }

  lemma WithNodeWellFormed(h: ContentHash, g: Graph, node: EvidenceNode)
    requires WellFormed(h, g)
    ensures WellFormed(h, WithNode(h, g, node))
    ensures forall id :: HasNode(h, WithNode(h, g, node), id) <==> HasNode(h, g, id) || id == IdOf(h, node)
  {
    AddAllKeys(Key(h), g.nodes, [node]);
    assert AddAllNew(Key(h), g.nodes, [node]) == AddNew(Key(h), g.nodes, node) by { assert [node][1..] == []; }
    assert forall id :: HasKey(Key(h), [node], id) <==> Key(h)([node][0]) == id;
  }

  // ---------------------------------------------------------------------------------------------
  // Persistence: a graph is replayed from the lists that were saved
  // ---------------------------------------------------------------------------------------------

  function WithEdges(h: ContentHash, g: Graph, es: seq<Edge>): Graph
    decreases |es|
  {
    if es == [] then g else WithEdges(h, WithEdge(h, g, es[0]), es[1..])
  }

  function Replay(h: ContentHash, nodes: seq<EvidenceNode>, edges: seq<Edge>): Graph {
    WithEdges(h, Graph(AddAllNew(Key(h), [], nodes), []), edges)
  }

  function Connected(h: ContentHash, g: Graph, es: seq<Edge>): seq<Edge> {
    if es == [] then [] else (if HasEnds(h, g, es[0]) then [es[0]] else []) + Connected(h, g, es[1..])
  }

  lemma {:induction false} ConnectedByNodes(h: ContentHash, g: Graph, g': Graph, es: seq<Edge>)
    requires g.nodes == g'.nodes
    ensures Connected(h, g, es) == Connected(h, g', es)
  {
    if es != [] {
      ConnectedByNodes(h, g, g', es[1..]);
    }
  }

  lemma {:induction false} WithEdgesKeepsConnected(h: ContentHash, g: Graph, es: seq<Edge>)
    ensures WithEdges(h, g, es) == g.(edges := g.edges + Connected(h, g, es))
    decreases |es|
  {
    if es == [] {
      assert g.edges + [] == g.edges;
    } else {
      var next := WithEdge(h, g, es[0]);
      WithEdgesKeepsConnected(h, next, es[1..]);
      ConnectedByNodes(h, g, next, es[1..]);
      assert WithEdges(h, g, es).edges == g.edges + Connected(h, g, es);
    }
  }

  lemma {:induction false} ConnectedMembers(h: ContentHash, g: Graph, es: seq<Edge>)
    ensures forall e :: e in Connected(h, g, es) <==> e in es && HasEnds(h, g, e)
    ensures (forall e | e in es :: HasEnds(h, g, e)) ==> Connected(h, g, es) == es
  {
    if es != [] {
      ConnectedMembers(h, g, es[1..]);
      assert es == [es[0]] + es[1..];
    }
  }

  lemma {:induction false} ConnectedSameIds(h: ContentHash, g: Graph, g': Graph, es: seq<Edge>)
    requires forall id :: HasNode(h, g, id) <==> HasNode(h, g', id)
    ensures Connected(h, g, es) == Connected(h, g', es)
  {
    if es != [] {
      ConnectedSameIds(h, g, g', es[1..]);
    }
  }

  /**
   Whatever was stored, loading yields a well-formed graph: the first node of each id, and the edges
   between stored nodes.
   */
  lemma ReplayWellFormed(h: ContentHash, nodes: seq<EvidenceNode>, edges: seq<Edge>)
    ensures WellFormed(h, Replay(h, nodes, edges))
    ensures forall id :: HasNode(h, Replay(h, nodes, edges), id) <==> HasKey(Key(h), nodes, id)
    ensures forall z :: z in Replay(h, nodes, edges).nodes
              <==> exists i :: IsFirstNew(Key(h), [], nodes, i) && nodes[i] == z
    ensures Replay(h, nodes, edges).edges == Connected(h, Graph(nodes, edges), edges)
  {
    var bare := Graph(AddAllNew(Key(h), [], nodes), []);
    AddAllKeys(Key(h), [], nodes);
    WithEdgesKeepsConnected(h, bare, edges);
    ConnectedMembers(h, bare, edges);
    ConnectedSameIds(h, bare, Graph(nodes, edges), edges);
    forall z
      ensures z in bare.nodes <==> exists i :: IsFirstNew(Key(h), [], nodes, i) && nodes[i] == z
    {
      AddAllMembers(Key(h), [], nodes, z);
    }
  }

  /** Loading what was saved gives back the graph, parallel edges included. */
  lemma LoadAfterSave(h: ContentHash, g: Graph)
    requires WellFormed(h, g)
    ensures Replay(h, g.nodes, g.edges) == g
  {
    assert [] + g.nodes == g.nodes;
    AddAllEverything(Key(h), [], g.nodes);
    var bare := Graph(g.nodes, []);
    WithEdgesKeepsConnected(h, bare, g.edges);
    ConnectedByNodes(h, bare, g, g.edges);
    ConnectedMembers(h, g, g.edges);
    assert [] + g.edges == g.edges;
  }

  // ---------------------------------------------------------------------------------------------
  // Queries
  // ---------------------------------------------------------------------------------------------

  /** The concatenation of `f` over `s`. */
  function Collect<T, U>(f: T -> seq<U>, s: seq<T>): seq<U> {
    if s == [] then [] else Collect(f, s[..|s| - 1]) + f(s[|s| - 1])
  }

  lemma CollectStep<T, U>(f: T -> seq<U>, s: seq<T>, i: nat)
    requires i < |s|
    ensures Collect(f, s[..i + 1]) == Collect(f, s[..i]) + f(s[i])
  {
    assert s[..i + 1][..i] == s[..i];
  }

  lemma {:induction false} CollectMembers<T, U>(f: T -> seq<U>, s: seq<T>, u: U)
    ensures u in Collect(f, s) <==> exists t :: t in s && u in f(t)
  {
    if s != [] {
      var front, last := s[..|s| - 1], s[|s| - 1];
      assert s == front + [last];
      CollectMembers(f, front, u);
    }
  }

  lemma {:induction false} CollectEmpty<T, U>(f: T -> seq<U>, s: seq<T>)
    ensures Collect(f, s) == [] <==> forall t | t in s :: f(t) == []
  {
    if s != [] {
      var front, last := s[..|s| - 1], s[|s| - 1];
      assert s == front + [last];
      CollectEmpty(f, front);
    }
  }

  function To(id: NodeId): Edge -> seq<Edge> {
    (e: Edge) => if e.to == id then [e] else []
  }

  function From(id: NodeId): Edge -> seq<Edge> {
    (e: Edge) => if e.from == id then [e] else []
  }

  function OfType(t: NodeType): EvidenceNode -> seq<EvidenceNode> {
    (node: EvidenceNode) => if NodeTypeOf(node) == t then [node] else []
  }

  function Incoming(g: Graph, id: NodeId): seq<Edge> { Collect(To(id), g.edges) }

  function Outgoing(g: Graph, id: NodeId): seq<Edge> { Collect(From(id), g.edges) }

  function NodesOfType(g: Graph, t: NodeType): seq<EvidenceNode> { Collect(OfType(t), g.nodes) }

  lemma IncomingMembers(g: Graph, id: NodeId, e: Edge)
    ensures e in Incoming(g, id) <==> e in g.edges && e.to == id
  {
    CollectMembers(To(id), g.edges, e);
  }

  lemma OutgoingMembers(g: Graph, id: NodeId, e: Edge)
    ensures e in Outgoing(g, id) <==> e in g.edges && e.from == id
  {
    CollectMembers(From(id), g.edges, e);
  }

  /** The node with an id, found by scanning the list. */
  function GetNode(h: ContentHash, nodes: seq<EvidenceNode>, id: NodeId): Option<EvidenceNode> {
    if nodes == [] then None
    else if IdOf(h, nodes[0]) == id then Some(nodes[0])
    else GetNode(h, nodes[1..], id)
  }

  lemma {:induction false} GetNodeFinds(h: ContentHash, nodes: seq<EvidenceNode>, id: NodeId)
    ensures GetNode(h, nodes, id).Some? <==> HasKey(Key(h), nodes, id)
    ensures GetNode(h, nodes, id).Some? ==>
              GetNode(h, nodes, id).value in nodes && IdOf(h, GetNode(h, nodes, id).value) == id
  {
    if nodes != [] {
      GetNodeFinds(h, nodes[1..], id);
      assert nodes == [nodes[0]] + nodes[1..];
      HasKeyAppend(Key(h), [nodes[0]], nodes[1..], id);
      assert HasKey(Key(h), [nodes[0]], id) <==> Key(h)([nodes[0]][0]) == id;
    }
  }

  // ---------------------------------------------------------------------------------------------
  // What evidence a transaction has, stated on the edges alone
  // ---------------------------------------------------------------------------------------------

  ghost predicate HasIn(g: Graph, id: NodeId, kind: EdgeType) {
    exists e :: e in g.edges && e.to == id && e.kind == kind
  }

  ghost predicate HasOut(g: Graph, id: NodeId, kind: EdgeType) {
    exists e :: e in g.edges && e.from == id && e.kind == kind
  }

  /** Some row that produces the transaction was extracted from something. */
  ghost predicate HasSource(g: Graph, id: NodeId) {
    exists e :: e in g.edges && e.to == id && e.kind == Produces && HasIn(g, e.from, ExtractedFrom)
  }

  datatype MissingElement = SourceDocument | ExtractedRows | MissingClassification | MissingApproval | WorkbookExport

  function Text(m: MissingElement): string {
    match m
    case SourceDocument => "source_document"
    case ExtractedRows => "extracted_rows"
    case MissingClassification => "classification"
    case MissingApproval => "operator_approval"
    case WorkbookExport => "workbook_export"
  }

  function Texts(ms: seq<MissingElement>): seq<string> {
    if ms == [] then [] else [Text(ms[0])] + Texts(ms[1..])
  }

  function MissingList(source: bool, rows: bool, classification: bool, approval: bool,
                       export_: bool): seq<MissingElement> {
    (if source then [] else [SourceDocument])
    + (if rows then [] else [ExtractedRows])
    + (if classification then [] else [MissingClassification])
    + (if approval then [] else [MissingApproval])
    + (if export_ then [] else [WorkbookExport])
  }

  /** The elements that a transaction lacks, in the order in which both readers list them. */
  ghost function Missing(g: Graph, id: NodeId): seq<MissingElement> {
    MissingList(HasSource(g, id), HasIn(g, id, Produces), HasOut(g, id, ClassifiedAs),
                HasOut(g, id, ApprovedBy), HasOut(g, id, ExportedTo))
  }

  predicate IsCritical(missing: seq<MissingElement>) {
    SourceDocument in missing || MissingClassification in missing
  }

  // ---------------------------------------------------------------------------------------------
  // The chain tracer
  // ---------------------------------------------------------------------------------------------

  datatype Chain = Chain(
    txId: string,
    sourceDocuments: seq<EvidenceNode>,
    extractedRows: seq<EvidenceNode>,
    classifications: seq<EvidenceNode>,
    proposals: seq<EvidenceNode>,
    approvals: seq<EvidenceNode>,
    workbookRows: seq<EvidenceNode>)

  function At(h: ContentHash, g: Graph, id: NodeId): seq<EvidenceNode> {
    match GetNode(h, g.nodes, id)
    case Some(node) => [node]
    case None => []
  }

  function RowOf(h: ContentHash, g: Graph): Edge -> seq<EvidenceNode> {
    (e: Edge) => if e.kind == Produces then At(h, g, e.from) else []
  }

  function DocOf(h: ContentHash, g: Graph): Edge -> seq<EvidenceNode> {
    (e: Edge) => if e.kind == ExtractedFrom then At(h, g, e.from) else []
  }

  function DocsOf(h: ContentHash, g: Graph): Edge -> seq<EvidenceNode> {
    (e: Edge) =>
      if e.kind == Produces && GetNode(h, g.nodes, e.from).Some? then Collect(DocOf(h, g), Incoming(g, e.from)) else []
  }

  function TargetOf(h: ContentHash, g: Graph, kind: EdgeType): Edge -> seq<EvidenceNode> {
    (e: Edge) => if e.kind == kind then At(h, g, e.to) else []
  }

  function Trace(h: ContentHash, g: Graph, txId: string): Option<Chain> {
    var id := TxNodeId(txId);
    if GetNode(h, g.nodes, id).None? then None
    else
      var incoming, outgoing := Incoming(g, id), Outgoing(g, id);
      Some(Chain(txId,
                 Collect(DocsOf(h, g), incoming),
                 Collect(RowOf(h, g), incoming),
                 Collect(TargetOf(h, g, ClassifiedAs), outgoing),
                 Collect(TargetOf(h, g, ProposedBy), outgoing),
                 Collect(TargetOf(h, g, ApprovedBy), outgoing),
                 Collect(TargetOf(h, g, ExportedTo), outgoing)))
  }

  function MissingElements(chain: Chain): seq<string> {
    (if chain.sourceDocuments == [] then ["source_document"] else [])
    + (if chain.extractedRows == [] then ["extracted_rows"] else [])
    + (if chain.classifications == [] then ["classification"] else [])
    + (if chain.approvals == [] then ["operator_approval"] else [])
    + (if chain.workbookRows == [] then ["workbook_export"] else [])
  }

  // ---------------------------------------------------------------------------------------------
  // The badge
  // ---------------------------------------------------------------------------------------------

  datatype Badge = Complete | Partial(missing: seq<string>) | Lacking(missing: seq<string>) | NotFound

  function Critical(): string -> seq<string> {
    (m: string) => if m == "source_document" || m == "classification" || m == "extracted_rows" then [m] else []
  }

  function BadgeOf(chain: Chain): Badge {
    if chain.sourceDocuments == [] && chain.extractedRows == [] && chain.classifications == [] then NotFound
    else
      var missing := MissingElements(chain);
      if missing == [] then Complete
      else
        var critical := Collect(Critical(), missing);
        if critical != [] then Lacking(critical) else Partial(missing)
  }

  // ---------------------------------------------------------------------------------------------
  // The gap scanner
  // ---------------------------------------------------------------------------------------------

  datatype Gap = Gap(
    txId: string,
    missing: seq<MissingElement>,
    hasSource: bool,
    hasClassification: bool,
    hasApproval: bool,
    hasExport: bool,
    suggestedAction: Option<string>)

  function Suggestion(missing: seq<MissingElement>): Option<string> {
    if MissingClassification in missing then Some("ledgerr_review { action: classify, tx_id: \"...\" }")
    else if MissingApproval in missing then Some("ledgerr_review { action: approve, tx_id: \"...\" }")
    else if SourceDocument in missing || ExtractedRows in missing then
      Some("ledgerr_documents { action: ingest_pdf, pdf_path: \"...\" }")
    else if WorkbookExport in missing then Some("ledgerr_audit { action: export, workbook_path: \"...\" }")
    else None
  }

  ghost function GapOf(g: Graph, txId: string): Gap {
    var id := TxNodeId(txId);
    var missing := Missing(g, id);
    Gap(txId, missing, HasSource(g, id), HasOut(g, id, ClassifiedAs), HasOut(g, id, ApprovedBy),
        HasOut(g, id, ExportedTo), Suggestion(missing))
  }

  ghost function GapsAt(g: Graph): EvidenceNode -> seq<Gap> {
    (node: EvidenceNode) =>
      if node.TxNode? && Missing(g, TxNodeId(node.tx.txId)) != [] then [GapOf(g, node.tx.txId)] else []
  }

  /** One gap per transaction that lacks something, in the order of the nodes. */
  ghost function Gaps(g: Graph): seq<Gap> {
    Collect(GapsAt(g), NodesOfType(g, Transaction))
  }
}
