/**
 The evidence graph as the object that events update in place: the node and edge lists, the hash
 index and the parallel digraph, kept in step by every operation.
 */
module EvidenceGraphs {
  import opened Results
  import opened Keyed
  import opened EvidenceNodes
  import opened EvidenceValues
  import opened EvidenceReaders

  datatype GraphError = NodeNotFound(id: NodeId) | DuplicateNode(id: NodeId)

  /** An edge of the digraph, between node positions. */
  datatype Arc = Arc(source: nat, target: nat, weight: EdgeType)

  /** The persisted form. */
  datatype StoreData = StoreData(version: nat, nodes: seq<EvidenceNode>, edges: seq<Edge>)

  datatype StoreError = UnsupportedVersion(version: nat)

  datatype Summary = Summary(
    totalTransactions: nat,
    readyToReview: nat,
    blocked: nat,
    exported: nat,
    withValidationIssues: nat)

  ghost predicate Mirrors(nodeIndex: map<NodeId, nat>, e: Edge, arc: Arc) {
    && e.from in nodeIndex && nodeIndex[e.from] == arc.source
    && e.to in nodeIndex && nodeIndex[e.to] == arc.target
    && e.kind == arc.weight
  }

  method AnyOfKind(es: seq<Edge>, kind: EdgeType) returns (found: bool)
    ensures found <==> exists e :: e in es && e.kind == kind
  {
    found := false;
    for i := 0 to |es|
      invariant forall k | 0 <= k < i :: es[k].kind != kind
    {
      if es[i].kind == kind {
        return true;
      }
    }
  }

  lemma OutgoingHas(g: Graph, id: NodeId, kind: EdgeType)
    ensures var outgoing := Outgoing(g, id);
            HasOut(g, id, kind) <==> exists k :: 0 <= k < |outgoing| && outgoing[k].kind == kind
  {
    var outgoing := Outgoing(g, id);
    forall e: Edge
      ensures e in outgoing <==> e in g.edges && e.from == id
    {
      OutgoingMembers(g, id, e);
    }
    if k :| 0 <= k < |outgoing| && outgoing[k].kind == kind {
      assert outgoing[k] in outgoing;
    }
  }

  /** The names of the unset flags, pushed one after the other. */
  method ListMissing(hasSource: bool, hasRows: bool, hasClassification: bool, hasApproval: bool, hasExport: bool)
    returns (missing: seq<MissingElement>)
    ensures missing == MissingList(hasSource, hasRows, hasClassification, hasApproval, hasExport)
  {
    missing := if hasSource then [] else [SourceDocument];
    missing := missing + if hasRows then [] else [ExtractedRows];
    missing := missing + if hasClassification then [] else [MissingClassification];
    missing := missing + if hasApproval then [] else [MissingApproval];
    missing := missing + if hasExport then [] else [WorkbookExport];
  }

  method CountGaps(gaps: seq<Gap>) returns (ready: nat, blocked: nat)
    ensures ready == CountIf(Ready(), gaps) && blocked == CountIf(Blocked(), gaps)
  {
    ready, blocked := 0, 0;
    for i := 0 to |gaps|
      invariant ready == CountIf(Ready(), gaps[..i])
      invariant blocked == CountIf(Blocked(), gaps[..i])
    {
      assert gaps[..i + 1][..i] == gaps[..i];
      if IsCritical(gaps[i].missing) {
        blocked := blocked + 1;
      } else {
        ready := ready + 1;
      }
    }
    assert gaps[..|gaps|] == gaps;
  }

  /** The next edge adds its target if it is of the kind and the target is stored. */
  lemma TargetStep(h: ContentHash, g: Graph, kind: EdgeType, es: seq<Edge>, i: nat)
    requires i < |es|
    ensures Collect(TargetOf(h, g, kind), es[..i + 1])
         == Collect(TargetOf(h, g, kind), es[..i])
          + match EvidenceValues.GetNode(h, g.nodes, es[i].to)
            case Some(node) => if es[i].kind == kind then [node] else []
            case None => []
  {
    CollectStep(TargetOf(h, g, kind), es, i);
  }

  /** `index` finds each node at its position, and nothing else. */
  ghost predicate IsIndex(hash: ContentHash, nodes: seq<EvidenceNode>, index: map<NodeId, nat>) {
    && (forall i | 0 <= i < |nodes| :: IdOf(hash, nodes[i]) in index && index[IdOf(hash, nodes[i])] == i)
    && (forall id | id in index :: index[id] < |nodes| && IdOf(hash, nodes[index[id]]) == id)
  }

  ghost predicate AllMirror(index: map<NodeId, nat>, edges: seq<Edge>, arcs: seq<Arc>) {
    |arcs| == |edges| && forall i | 0 <= i < |edges| :: Mirrors(index, edges[i], arcs[i])
  }

  /** A node under a new id goes to the end, and no arc moves. */
  lemma IndexOneMore(hash: ContentHash, nodes: seq<EvidenceNode>, index: map<NodeId, nat>, node: EvidenceNode)
    requires IsIndex(hash, nodes, index) && IdOf(hash, node) !in index
    ensures IsIndex(hash, nodes + [node], index[IdOf(hash, node) := |nodes|])
  {
  }

  lemma ArcsStay(index: map<NodeId, nat>, edges: seq<Edge>, arcs: seq<Arc>, id: NodeId, n: nat)
    requires AllMirror(index, edges, arcs) && id !in index
    ensures AllMirror(index[id := n], edges, arcs)
  {
    forall i | 0 <= i < |edges|
      ensures Mirrors(index[id := n], edges[i], arcs[i])
    {
      assert Mirrors(index, edges[i], arcs[i]);
    }
  }

  class EvidenceGraph {
    const hash: ContentHash
    var nodes: seq<EvidenceNode>
    var edges: seq<Edge>
    var nodeIndex: map<NodeId, nat>
    var graphNodes: seq<EvidenceNode>
    var graphEdges: seq<Arc>

    ghost function Value(): Graph
      reads this
    {
      Graph(nodes, edges)
    }

    /** The index finds each node at its position, and the digraph mirrors both lists. */
    ghost predicate Valid()
      reads this
    {
      && graphNodes == nodes
      && IsIndex(hash, nodes, nodeIndex)
      && AllMirror(nodeIndex, edges, graphEdges)
    }

    constructor (hash: ContentHash)
      ensures Valid() && Value() == EMPTY && this.hash == hash
    {
      this.hash := hash;
      nodes, edges, nodeIndex, graphNodes, graphEdges := [], [], map[], [], [];
    }

    /** A valid graph is well formed, and its index knows exactly its nodes. */
    lemma ValidIsWellFormed()
      requires Valid()
      ensures WellFormed(hash, Value())
      ensures forall id :: id in nodeIndex <==> HasNode(hash, Value(), id)
    {
      forall id
        ensures id in nodeIndex <==> HasNode(hash, Value(), id)
      {
        if id in nodeIndex {
          assert Key(hash)(nodes[nodeIndex[id]]) == id;
        }
      }
      forall e | e in edges
        ensures HasEnds(hash, Value(), e)
      {
        var i :| 0 <= i < |edges| && edges[i] == e;
        assert Mirrors(nodeIndex, edges[i], graphEdges[i]);
      }
    }

    /** What both ways of adding a node do with one whose id is new. */
    method InsertNode(node: EvidenceNode)
      requires Valid() && IdOf(hash, node) !in nodeIndex
      modifies this
      ensures Valid() && Value() == old(Value()).(nodes := old(nodes) + [node])
    {
      IndexOneMore(hash, nodes, nodeIndex, node);
      ArcsStay(nodeIndex, edges, graphEdges, IdOf(hash, node), |nodes|);
      nodeIndex := nodeIndex[IdOf(hash, node) := |graphNodes|];
      graphNodes := graphNodes + [node];
      nodes := nodes + [node];
    }

    method AddNode(node: EvidenceNode) returns (r: Result<NodeId, GraphError>)
      requires Valid()
      modifies this
      ensures Valid() && Value() == WithNode(hash, old(Value()), node)
      ensures r == if HasNode(hash, old(Value()), IdOf(hash, node)) then Err(DuplicateNode(IdOf(hash, node)))
                   else Ok(IdOf(hash, node))
    {
      ValidIsWellFormed();
      var id := IdOf(hash, node);
      if id in nodeIndex {
        return Err(DuplicateNode(id));
      }
      InsertNode(node);
      r := Ok(id);
    }

    /** What both ways of adding an edge do with one whose ends are known. */
    method InsertEdge(from: NodeId, to: NodeId, kind: EdgeType)
      requires Valid() && from in nodeIndex && to in nodeIndex
      modifies this`graphEdges, this`edges
      ensures Valid() && Value() == old(Value()).(edges := old(edges) + [Edge(from, to, kind)])
    {
      graphEdges := graphEdges + [Arc(nodeIndex[from], nodeIndex[to], kind)];
      edges := edges + [Edge(from, to, kind)];
    }

    method AddEdge(from: NodeId, to: NodeId, kind: EdgeType) returns (r: Result<(), GraphError>)
      requires Valid()
      modifies this
      ensures Valid() && Value() == WithEdge(hash, old(Value()), Edge(from, to, kind))
      ensures r == if !HasNode(hash, old(Value()), from) then Err(NodeNotFound(from))
                   else if !HasNode(hash, old(Value()), to) then Err(NodeNotFound(to))
                   else Ok(())
    {
      ValidIsWellFormed();
      if from !in nodeIndex {
        return Err(NodeNotFound(from));
      }
      if to !in nodeIndex {
        return Err(NodeNotFound(to));
      }
      InsertEdge(from, to, kind);
      r := Ok(());
    }

    /** Scans the list. */
    method GetNode(id: NodeId) returns (r: Option<EvidenceNode>)
      ensures r == EvidenceValues.GetNode(hash, nodes, id)
    {
      r := None;
      for i := 0 to |nodes|
        invariant EvidenceValues.GetNode(hash, nodes[i..], id) == EvidenceValues.GetNode(hash, nodes, id)
      {
        assert nodes[i..][1..] == nodes[i + 1..];
        if IdOf(hash, nodes[i]) == id {
          return Some(nodes[i]);
        }
      }
    }

    /** The scan of the list and the index find the same node. */
    lemma IndexAgrees(id: NodeId)
      requires Valid()
      ensures EvidenceValues.GetNode(hash, nodes, id) == if id in nodeIndex then Some(nodes[nodeIndex[id]]) else None
    {
      ValidIsWellFormed();
      GetNodeFinds(hash, nodes, id);
      if id in nodeIndex {
        var node := nodes[nodeIndex[id]];
        assert node in nodes && Key(hash)(node) == id;
      }
    }

    method Clear()
      modifies this
      ensures Valid() && Value() == EMPTY
    {
      nodes, edges, nodeIndex, graphNodes, graphEdges := [], [], map[], [], [];
    }

    method EnsureNode(node: EvidenceNode) returns (inserted: bool)
      requires Valid()
      modifies this
      ensures Valid() && Value() == WithNode(hash, old(Value()), node)
      ensures inserted <==> !HasNode(hash, old(Value()), IdOf(hash, node))
    {
      ValidIsWellFormed();
      var id := IdOf(hash, node);
      if id in nodeIndex {
        return false;
      }
      InsertNode(node);
      inserted := true;
    }

    /** Looking for an arc between two positions is looking for an edge between two ids. */
    lemma ArcOfEdge(e: Edge)
      requires Valid() && e.from in nodeIndex && e.to in nodeIndex
      ensures Arc(nodeIndex[e.from], nodeIndex[e.to], e.kind) in graphEdges <==> e in edges
    {
      var arc := Arc(nodeIndex[e.from], nodeIndex[e.to], e.kind);
      if arc in graphEdges {
        var i :| 0 <= i < |graphEdges| && graphEdges[i] == arc;
        assert Mirrors(nodeIndex, edges[i], graphEdges[i]);
        assert IdOf(hash, nodes[nodeIndex[e.from]]) == e.from == edges[i].from;
        assert IdOf(hash, nodes[nodeIndex[e.to]]) == e.to == edges[i].to;
      }
      if e in edges {
        var i :| 0 <= i < |edges| && edges[i] == e;
        assert Mirrors(nodeIndex, edges[i], graphEdges[i]);
      }
    }

    method EnsureEdge(from: NodeId, to: NodeId, kind: EdgeType) returns (inserted: bool)
      requires Valid()
      modifies this
      ensures Valid() && Value() == EvidenceValues.EnsureEdge(hash, old(Value()), Edge(from, to, kind))
      ensures inserted <==> HasEnds(hash, old(Value()), Edge(from, to, kind)) && Edge(from, to, kind) !in old(edges)
    {
      ValidIsWellFormed();
      if from !in nodeIndex || to !in nodeIndex {
        return false;
      }
      var arc := Arc(nodeIndex[from], nodeIndex[to], kind);
      ArcOfEdge(Edge(from, to, kind));
      if arc in graphEdges {
        return false;
      }
      InsertEdge(from, to, kind);
      inserted := true;
    }

    method Save() returns (data: StoreData)
      ensures data == StoreData(1, nodes, edges)
    {
      data := StoreData(1, nodes, edges);
    }

    // -------------------------------------------------------------------------------------------
    // Readers
    // -------------------------------------------------------------------------------------------

    method DocumentsOf(row: NodeId) returns (docs: seq<EvidenceNode>)
      ensures docs == Collect(DocOf(hash, Value()), Incoming(Value(), row))
    {
      ghost var g := Value();
      docs := [];
      var incoming := Collect(To(row), edges);
      for i := 0 to |incoming|
        invariant docs == Collect(DocOf(hash, g), incoming[..i])
      {
        CollectStep(DocOf(hash, g), incoming, i);
        if incoming[i].kind == ExtractedFrom {
          var doc := GetNode(incoming[i].from);
          if doc.Some? {
            docs := docs + [doc.value];
          }
        }
      }
      assert incoming[..|incoming|] == incoming;
    }

    /** The backward half of the trace: rows that produce the node, and the documents behind them. */
    method TraceBack(id: NodeId) returns (docs: seq<EvidenceNode>, rows: seq<EvidenceNode>)
      ensures docs == Collect(DocsOf(hash, Value()), Incoming(Value(), id))
      ensures rows == Collect(RowOf(hash, Value()), Incoming(Value(), id))
    {
      ghost var g := Value();
      docs, rows := [], [];
      var incoming := Collect(To(id), edges);
      for i := 0 to |incoming|
        invariant docs == Collect(DocsOf(hash, g), incoming[..i])
        invariant rows == Collect(RowOf(hash, g), incoming[..i])
      {
        CollectStep(DocsOf(hash, g), incoming, i);
        CollectStep(RowOf(hash, g), incoming, i);
        if incoming[i].kind == Produces {
          var row := GetNode(incoming[i].from);
          if row.Some? {
            rows := rows + [row.value];
            var found := DocumentsOf(incoming[i].from);
            docs := docs + found;
          }
        }
      }
      assert incoming[..|incoming|] == incoming;
    }

    /** The forward half of the trace: what the node's outgoing edges lead to, by kind of edge. */
    method TraceForward(id: NodeId)
      returns (classifications: seq<EvidenceNode>, proposals: seq<EvidenceNode>, approvals: seq<EvidenceNode>,
               workbookRows: seq<EvidenceNode>)
      ensures classifications == Collect(TargetOf(hash, Value(), ClassifiedAs), Outgoing(Value(), id))
      ensures proposals == Collect(TargetOf(hash, Value(), ProposedBy), Outgoing(Value(), id))
      ensures approvals == Collect(TargetOf(hash, Value(), ApprovedBy), Outgoing(Value(), id))
      ensures workbookRows == Collect(TargetOf(hash, Value(), ExportedTo), Outgoing(Value(), id))
    {
      ghost var g := Value();
      classifications, proposals, approvals, workbookRows := [], [], [], [];
      var outgoing := Collect(From(id), edges);
      for i := 0 to |outgoing|
        invariant classifications == Collect(TargetOf(hash, g, ClassifiedAs), outgoing[..i])
        invariant proposals == Collect(TargetOf(hash, g, ProposedBy), outgoing[..i])
        invariant approvals == Collect(TargetOf(hash, g, ApprovedBy), outgoing[..i])
        invariant workbookRows == Collect(TargetOf(hash, g, ExportedTo), outgoing[..i])
      {
        TargetStep(hash, g, ClassifiedAs, outgoing, i);
        TargetStep(hash, g, ProposedBy, outgoing, i);
        TargetStep(hash, g, ApprovedBy, outgoing, i);
        TargetStep(hash, g, ExportedTo, outgoing, i);
        var target := GetNode(outgoing[i].to);
        if target.Some? {
          match outgoing[i].kind
          case ClassifiedAs => classifications := classifications + [target.value];
          case ProposedBy => proposals := proposals + [target.value];
          case ApprovedBy => approvals := approvals + [target.value];
          case ExportedTo => workbookRows := workbookRows + [target.value];
          case _ =>
        }
      }
      assert outgoing[..|outgoing|] == outgoing;
    }

    method TraceTransaction(txId: string) returns (r: Option<Chain>)
      ensures r == Trace(hash, Value(), txId)
    {
      var id := TxNodeId(txId);
      var tx := GetNode(id);
      if tx.None? {
        return None;
      }
      var sourceDocuments, extractedRows := TraceBack(id);
      var classifications, proposals, approvals, workbookRows := TraceForward(id);
      r := Some(Chain(txId, sourceDocuments, extractedRows, classifications, proposals, approvals, workbookRows));
    }

    method SourceFlags(id: NodeId) returns (hasSource: bool, hasRows: bool)
      ensures hasRows <==> HasIn(Value(), id, Produces)
      ensures hasSource <==> HasSource(Value(), id)
    {
      var incoming := Collect(To(id), edges);
      hasSource := false;
      hasRows := AnyOfKind(incoming, Produces);
      forall e: Edge
        ensures e in incoming <==> e in edges && e.to == id
      {
        IncomingMembers(Value(), id, e);
      }
      if hasRows {
        for i := 0 to |incoming|
          invariant !hasSource
          invariant forall k | 0 <= k < i && incoming[k].kind == Produces ::
                      !HasIn(Value(), incoming[k].from, ExtractedFrom)
        {
          if incoming[i].kind == Produces {
            var rowIncoming := Collect(To(incoming[i].from), edges);
            forall e: Edge
              ensures e in rowIncoming <==> e in edges && e.to == incoming[i].from
            {
              IncomingMembers(Value(), incoming[i].from, e);
            }
            var extracted := AnyOfKind(rowIncoming, ExtractedFrom);
            if extracted {
              assert incoming[i] in incoming;
              hasSource := true;
              break;
            }
          }
        }
      }
    }

    method ForwardFlags(id: NodeId) returns (hasClassification: bool, hasApproval: bool, hasExport: bool)
      ensures hasClassification <==> HasOut(Value(), id, ClassifiedAs)
      ensures hasApproval <==> HasOut(Value(), id, ApprovedBy)
      ensures hasExport <==> HasOut(Value(), id, ExportedTo)
    {
      var outgoing := Collect(From(id), edges);
      hasClassification, hasApproval, hasExport := false, false, false;
      for i := 0 to |outgoing|
        invariant hasClassification <==> exists k :: 0 <= k < i && outgoing[k].kind == ClassifiedAs
        invariant hasApproval <==> exists k :: 0 <= k < i && outgoing[k].kind == ApprovedBy
        invariant hasExport <==> exists k :: 0 <= k < i && outgoing[k].kind == ExportedTo
      {
        match outgoing[i].kind
        case ClassifiedAs => hasClassification := true;
        case ApprovedBy => hasApproval := true;
        case ExportedTo => hasExport := true;
        case _ =>
      }
      OutgoingHas(Value(), id, ClassifiedAs);
      OutgoingHas(Value(), id, ApprovedBy);
      OutgoingHas(Value(), id, ExportedTo);
    }

    /** The body of the scan: the flags of one transaction, the list made from them, and the gap if any. */
    method GapAt(tx: EvidenceNode) returns (gaps: seq<Gap>)
      requires tx.TxNode?
      ensures gaps == GapsAt(Value())(tx)
    {
      var id := IdOf(hash, tx);
      var hasSource, hasRows := SourceFlags(id);
      var hasClassification, hasApproval, hasExport := ForwardFlags(id);
      var missing := ListMissing(hasSource, hasRows, hasClassification, hasApproval, hasExport);
      assert missing == Missing(Value(), id);
      if missing == [] {
        return [];
      }
      gaps := [Gap(tx.tx.txId, missing, hasSource, hasClassification, hasApproval, hasExport, Suggestion(missing))];
    }

    method FindMissingProvenance() returns (gaps: seq<Gap>)
      ensures gaps == Gaps(Value())
    {
      ghost var g := Value();
      gaps := [];
      var txs := Collect(OfType(Transaction), nodes);
      TransactionsOnly(g);
      for i := 0 to |txs|
        invariant gaps == Collect(GapsAt(g), txs[..i])
      {
        CollectStep(GapsAt(g), txs, i);
        var found := GapAt(txs[i]);
        gaps := gaps + found;
      }
      assert txs[..|txs|] == txs;
    }

    method WorkQueueSummary() returns (s: Summary)
      requires Valid()
      ensures s.totalTransactions == |NodesOfType(Value(), Transaction)|
      ensures s.readyToReview == CountIf(Ready(), Gaps(Value()))
      ensures s.blocked == CountIf(Blocked(), Gaps(Value()))
      ensures s.exported == |NodesOfType(Value(), WorkbookRow)|
      ensures s.withValidationIssues == |NodesOfType(Value(), ValidationIssue)|
      ensures CountIf(Done(hash, Value()), NodesOfType(Value(), Transaction)) + s.readyToReview + s.blocked
                == s.totalTransactions
    {
      var gaps := FindMissingProvenance();
      var ready, blocked := CountGaps(gaps);
      ValidIsWellFormed();
      WorkQueueConserved(hash, Value());
      s := Summary(|Collect(OfType(Transaction), nodes)|, ready, blocked,
                   |Collect(OfType(WorkbookRow), nodes)|, |Collect(OfType(ValidationIssue), nodes)|);
    }
  }

  /**
   Loading replays the stored lists into a new graph; rejected nodes and edges are skipped. When nothing
   was stored the graph is empty.
   */
  method Load(hash: ContentHash, stored: Option<StoreData>) returns (r: Result<EvidenceGraph, StoreError>)
    ensures r.Err? <==> stored.Some? && stored.value.version != 1
    ensures r.Err? ==> r.error == UnsupportedVersion(stored.value.version)
    ensures r.Ok? ==>
              && fresh(r.value) && r.value.Valid() && r.value.hash == hash
              && r.value.Value() == match stored
                                    case Some(data) => Replay(hash, data.nodes, data.edges)
                                    case None => EMPTY
  {
    if stored.None? {
      var empty := new EvidenceGraph(hash);
      return Ok(empty);
    }
    var data := stored.value;
    if data.version != 1 {
      return Err(UnsupportedVersion(data.version));
    }
    var graph := new EvidenceGraph(hash);
    for i := 0 to |data.nodes|
      invariant fresh(graph) && graph.Valid() && graph.hash == hash
      invariant graph.Value() == Graph(AddAllNew(Key(hash), [], data.nodes[..i]), [])
    {
      AddAllStep(Key(hash), [], data.nodes, i);
      var _ := graph.AddNode(data.nodes[i]);
    }
    assert data.nodes[..|data.nodes|] == data.nodes;
    ghost var bare := graph.Value();
    for i := 0 to |data.edges|
      invariant fresh(graph) && graph.Valid() && graph.hash == hash
      invariant WithEdges(hash, graph.Value(), data.edges[i..]) == WithEdges(hash, bare, data.edges)
    {
      assert data.edges[i..][1..] == data.edges[i + 1..];
      var e := data.edges[i];
      var _ := graph.AddEdge(e.from, e.to, e.kind);
    }
    assert data.edges[|data.edges|..] == [];
    r := Ok(graph);
  }

  /** A graph that is saved and loaded again has the same nodes and the same edges. */
  method SaveThenLoad(graph: EvidenceGraph) returns (r: Result<EvidenceGraph, StoreError>)
    requires graph.Valid()
    ensures r.Ok? && r.value.Valid() && r.value.Value() == graph.Value()
  {
    var data := graph.Save();
    r := Load(graph.hash, Some(data));
    graph.ValidIsWellFormed();
    LoadAfterSave(graph.hash, graph.Value());
  }
}
