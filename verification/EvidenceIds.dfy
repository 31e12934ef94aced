/** Which records the ids of evidence nodes tell apart, and what is stored for a batch of rows. */
module EvidenceIds {
  import opened Keyed
  import opened EvidenceNodes
  import opened EvidenceValues
  import opened BuilderModel

  /** The records agree in the fields that make up their identity. */
  predicate SameIdentity(a: EvidenceNode, b: EvidenceNode) {
    match (a, b)
    case (DocNode(x), DocNode(y)) => x.filename == y.filename && x.contentHash == y.contentHash
    case (RowNode(x), RowNode(y)) =>
      x.accountId == y.accountId && x.date == y.date && x.amount == y.amount && x.description == y.description
    case (TxNode(x), TxNode(y)) => x.txId == y.txId
    case (ClassificationNode(x), ClassificationNode(y)) =>
      x.txId == y.txId && x.category == y.category && x.actor == y.actor && x.classifiedAt == y.classifiedAt
    case (ProposalNode(x), ProposalNode(y)) =>
      x.txId == y.txId && x.modelName == y.modelName && x.proposedCategory == y.proposedCategory
      && x.proposedAt == y.proposedAt
    case (ApprovalNode(x), ApprovalNode(y)) =>
      x.txId == y.txId && x.operatorId == y.operatorId && x.approved == y.approved && x.approvedAt == y.approvedAt
    case (WorkbookNode(x), WorkbookNode(y)) =>
      x.txId == y.txId && x.sheetName == y.sheetName && x.rowIndex == y.rowIndex && x.exportedAt == y.exportedAt
    case (IssueNode(x), IssueNode(y)) =>
      x.txId == y.txId && x.rule == y.rule && x.severity == y.severity && x.raisedAt == y.raisedAt
    case (RequirementNode(x), RequirementNode(y)) =>
      x.requirementId == y.requirementId && x.title == y.title && x.source.GetOr("") == y.source.GetOr("")
    case (DecisionNode(x), DecisionNode(y)) =>
      x.decisionId == y.decisionId && x.subject == y.subject && x.decidedBy == y.decidedBy
      && x.decidedAt == y.decidedAt
    case (CostNode(x), CostNode(y)) =>
      x.costId == y.costId && x.subject == y.subject && x.amount == y.amount && x.currency == y.currency
      && x.recordedAt == y.recordedAt
    case _ => false
  }

  ghost predicate TellsApart(h: ContentHash) {
    forall x, y :: h(x) == h(y) ==> x == y
  }

  lemma PartsTell(h: ContentHash, a: EvidenceNode, b: EvidenceNode)
    requires TellsApart(h) && NodeTypeOf(a) == NodeTypeOf(b)
    ensures IdHash(h, a) == IdHash(h, b) <==> SameIdentity(a, b)
  {
  }

  /** Two nodes have one id exactly when they are of one kind and agree in its identifying fields. */
  lemma IdsTellExactly(h: ContentHash, a: EvidenceNode, b: EvidenceNode)
    requires TellsApart(h)
    ensures IdOf(h, a) == IdOf(h, b) <==> SameIdentity(a, b)
  {
    if IdOf(h, a) == IdOf(h, b) {
      NewIdInjective(NodeTypeOf(a), IdHash(h, a), NodeTypeOf(b), IdHash(h, b));
    }
    if NodeTypeOf(a) == NodeTypeOf(b) {
      PartsTell(h, a, b);
    }
  }

  // ---------------------------------------------------------------------------------------------
  // The text that is hashed
  // ---------------------------------------------------------------------------------------------

  /** Every part, followed by a line feed. */
  function Fed(parts: seq<string>): string {
    if parts == [] then [] else parts[0] + "\n" + Fed(parts[1..])
  }

  function HashOfText(digest: string -> string): ContentHash {
    (parts: seq<string>) => digest(Fed(parts))
  }

  predicate OnOneLine(parts: seq<string>) {
    forall part | part in parts :: '\n' !in part
  }

  function Feeds(s: string): nat {
    if s == [] then 0 else (if s[0] == '\n' then 1 else 0) + Feeds(s[1..])
  }

  lemma {:induction false} FeedsConcat(s: string, t: string)
    ensures Feeds(s + t) == Feeds(s) + Feeds(t)
  {
    if s == [] {
      assert s + t == t;
    } else {
      assert (s + t)[0] == s[0] && (s + t)[1..] == s[1..] + t;
      FeedsConcat(s[1..], t);
    }
  }

  lemma {:induction false} NoFeeds(s: string)
    ensures Feeds(s) == 0 <==> '\n' !in s
  {
    if s != [] {
      NoFeeds(s[1..]);
      assert s == [s[0]] + s[1..];
    }
  }

  /** A list of parts on one line each is the one whose text has as many line feeds as parts. */
  lemma {:induction false} FeedsOfFed(parts: seq<string>)
    ensures Feeds(Fed(parts)) >= |parts|
    ensures Feeds(Fed(parts)) == |parts| <==> OnOneLine(parts)
  {
    if parts != [] {
      FeedsOfFed(parts[1..]);
      FeedsConcat(parts[0] + "\n", Fed(parts[1..]));
      FeedsConcat(parts[0], "\n");
      NoFeeds(parts[0]);
      assert Feeds("\n") == 1;
      assert parts == [parts[0]] + parts[1..];
    }
  }

  lemma {:induction false} FedTells(xs: seq<string>, ys: seq<string>)
    requires |xs| == |ys| && OnOneLine(xs) && OnOneLine(ys) && Fed(xs) == Fed(ys)
    ensures xs == ys
  {
    if xs != [] {
      var s, x, y := Fed(xs), xs[0], ys[0];
      assert x in xs && y in ys;
      assert s[|x|] == '\n' && s[|y|] == '\n';
      assert forall k | 0 <= k < |x| :: s[k] == x[k];
      assert forall k | 0 <= k < |y| :: s[k] == y[k];
      assert x == s[..|x|] && y == s[..|y|];
      assert Fed(xs[1..]) == s[|x| + 1..] && Fed(ys[1..]) == s[|y| + 1..];
      FedTells(xs[1..], ys[1..]);
    }
  }

  lemma {:induction false} FedConcat(xs: seq<string>, ys: seq<string>)
    ensures Fed(xs + ys) == Fed(xs) + Fed(ys)
  {
    if xs == [] {
      assert xs + ys == ys;
    } else {
      assert (xs + ys)[0] == xs[0] && (xs + ys)[1..] == xs[1..] + ys;
      FedConcat(xs[1..], ys);
    }
  }

  lemma FedPair(u: string, v: string)
    ensures Fed([u, v]) == u + "\n" + v + "\n"
  {
    assert [u, v][1..] == [v] && [v][1..] == [] && Fed([]) == [];
    assert Fed([v]) == v + "\n";
  }

  /** A line feed can change from one part to its neighbour. */
  lemma ShiftFeed(xs: seq<string>, i: nat, u: string, v: string) returns (ys: seq<string>)
    requires i + 1 < |xs|
    requires u != xs[i] && u + "\n" + v == xs[i] + "\n" + xs[i + 1]
    ensures |ys| == |xs| && ys != xs && Fed(ys) == Fed(xs)
  {
    var front, back := xs[..i], xs[i + 2..];
    ys := front + [u, v] + back;
    assert ys[i] == u && xs == front + [xs[i], xs[i + 1]] + back;
    FedPair(u, v);
    FedPair(xs[i], xs[i + 1]);
    FedConcat(front + [u, v], back);
    FedConcat(front, [u, v]);
    FedConcat(front + [xs[i], xs[i + 1]], back);
    FedConcat(front, [xs[i], xs[i + 1]]);
  }

  /** Another list with the same text. */
  lemma OtherCut(xs: seq<string>) returns (ys: seq<string>)
    requires |xs| >= 2 && !OnOneLine(xs)
    ensures |ys| == |xs| && ys != xs && Fed(ys) == Fed(xs)
  {
    var k :| 0 <= k < |xs| && '\n' in xs[k];
    var p :| 0 <= p < |xs[k]| && xs[k][p] == '\n';
    var u, v := xs[k][..p], xs[k][p + 1..];
    assert xs[k] == u + "\n" + v;
    if k + 1 < |xs| {
      ys := ShiftFeed(xs, k, u, v + "\n" + xs[k + 1]);
    } else {
      assert xs[k - 1] + "\n" + u != xs[k - 1] by { assert |xs[k - 1] + "\n" + u| > |xs[k - 1]|; }
      ys := ShiftFeed(xs, k - 1, xs[k - 1] + "\n" + u, v);
    }
  }

  ghost predicate Injective(digest: string -> string) {
    forall s, t :: digest(s) == digest(t) ==> s == t
  }

  /** With an injective digest, a list of parts is told from all others of its length iff none has a line feed. */
  lemma PartsIdentifiedExactly(digest: string -> string, xs: seq<string>)
    requires Injective(digest) && |xs| >= 2
    ensures (forall ys | |ys| == |xs| && HashOfText(digest)(ys) == HashOfText(digest)(xs) :: ys == xs)
       <==> OnOneLine(xs)
  {
    if OnOneLine(xs) {
      forall ys | |ys| == |xs| && HashOfText(digest)(ys) == HashOfText(digest)(xs)
        ensures ys == xs
      {
        FeedsOfFed(xs);
        FeedsOfFed(ys);
        FedTells(xs, ys);
      }
    } else {
      var ys := OtherCut(xs);
      assert HashOfText(digest)(ys) == HashOfText(digest)(xs);
    }
  }

  function KindWord(node: EvidenceNode): string {
    match node
    case DocNode(_) => "doc"
    case RowNode(_) => "row"
    case TxNode(_) => "tx"
    case ClassificationNode(_) => "cls"
    case ProposalNode(_) => "prop"
    case ApprovalNode(_) => "approval"
    case WorkbookNode(_) => "wb"
    case IssueNode(_) => "vi"
    case RequirementNode(_) => "req"
    case DecisionNode(_) => "dec"
    case CostNode(_) => "cost"
  }

  /** An id is written as a word for the kind of node, a colon and the hash. */
  lemma IdText(h: ContentHash, node: EvidenceNode)
    ensures IdOf(h, node).text == KindWord(node) + ":" + IdHash(h, node)
  {
  }

  function RowParts(row: RowRecord): seq<string> { [row.accountId, row.date, row.amount, row.description] }

  /** What is hashed for a row: its four fields in order, each followed by a line feed. */
  lemma RowIdText(digest: string -> string, row: RowRecord)
    ensures IdHash(HashOfText(digest), RowNode(row))
         == digest(row.accountId + "\n" + row.date + "\n" + row.amount + "\n" + row.description + "\n")
  {
    FedPair(row.accountId, row.date);
    FedPair(row.amount, row.description);
    FedConcat([row.accountId, row.date], [row.amount, row.description]);
    var text := row.accountId + "\n" + row.date + "\n" + row.amount + "\n" + row.description + "\n";
    assert RowParts(row) == [row.accountId, row.date] + [row.amount, row.description];
    assert Fed(RowParts(row)) == text;
  }

  /** A row's id is that of no other row exactly when none of its four fields has a line feed. */
  lemma RowIdentifiedExactly(digest: string -> string, a: RowRecord)
    requires Injective(digest)
    ensures (forall b | RowId(HashOfText(digest), b) == RowId(HashOfText(digest), a) :: b == a)
       <==> '\n' !in a.accountId && '\n' !in a.date && '\n' !in a.amount && '\n' !in a.description
  {
    var h, xs := HashOfText(digest), RowParts(a);
    PartsIdentifiedExactly(digest, xs);
    assert OnOneLine(xs) <==> '\n' !in xs[0] && '\n' !in xs[1] && '\n' !in xs[2] && '\n' !in xs[3];
    forall b
      ensures RowId(h, b) == RowId(h, a) <==> h(RowParts(b)) == h(xs)
      ensures RowParts(b) == xs <==> b == a
    {
      if RowId(h, b) == RowId(h, a) {
        NewIdInjective(ExtractedRow, h(RowParts(b)), ExtractedRow, h(xs));
      }
      assert RowParts(b)[0] == b.accountId && RowParts(b)[1] == b.date && RowParts(b)[2] == b.amount
          && RowParts(b)[3] == b.description;
    }
    if !OnOneLine(xs) {
      var ys :| |ys| == |xs| && h(ys) == h(xs) && ys != xs;
      var b := RowRecord(ys[0], ys[1], ys[2], ys[3]);
      assert RowParts(b) == ys;
    }
  }

  // ---------------------------------------------------------------------------------------------
  // What a batch of rows stores
  // ---------------------------------------------------------------------------------------------

  /** The id of each row is that of no other node at hand. */
  ghost predicate RowsApart(h: ContentHash, g: Graph, rows: seq<RowRecord>) {
    && (forall row, node | row in rows && node in g.nodes && IdOf(h, node) == RowId(h, row) :: node == RowNode(row))
    && (forall row, other | row in rows && other in rows && RowId(h, row) == RowId(h, other) :: row == other)
  }

  function RowEdge(h: ContentHash, docId: NodeId, row: RowRecord): Edge { Edge(docId, RowId(h, row), ExtractedFrom) }

  lemma WithNodeIds(h: ContentHash, g: Graph, node: EvidenceNode)
    ensures forall id :: HasNode(h, WithNode(h, g, node), id) <==> HasNode(h, g, id) || id == IdOf(h, node)
  {
    AddAllKeys(Key(h), g.nodes, [node]);
    assert [node][1..] == [] && AddAllNew(Key(h), g.nodes, [node]) == AddNew(Key(h), g.nodes, node);
    forall id
      ensures HasKey(Key(h), [node], id) <==> id == IdOf(h, node)
    {
      assert Key(h)([node][0]) == IdOf(h, node);
    }
  }

  lemma OneRowStored(h: ContentHash, g: Graph, docId: NodeId, row: RowRecord)
    requires HasNode(h, g, docId) && RowsApart(h, g, [row])
    ensures var r := WithRow(h, g, docId, row);
            && HasNode(h, r, docId)
            && r.nodes == g.nodes + (if RowNode(row) in g.nodes then [] else [RowNode(row)])
            && r.edges == g.edges + if RowEdge(h, docId, row) in g.edges then [] else [RowEdge(h, docId, row)]
  {
    assert row in [row];
    if RowNode(row) in g.nodes {
      var i :| 0 <= i < |g.nodes| && g.nodes[i] == RowNode(row);
      assert Key(h)(g.nodes[i]) == RowId(h, row);
    }
    if HasNode(h, g, RowId(h, row)) {
      var i :| 0 <= i < |g.nodes| && Key(h)(g.nodes[i]) == RowId(h, row);
      assert g.nodes[i] in g.nodes;
    }
    WithNodeIds(h, g, RowNode(row));
  }

  ghost function Lacking(rows: seq<RowRecord>, present: RowRecord -> bool): set<RowRecord> {
    set row | row in rows && !present(row)
  }

  function NodePresent(g: Graph): RowRecord -> bool { (row: RowRecord) => RowNode(row) in g.nodes }

  function EdgePresent(h: ContentHash, g: Graph, docId: NodeId): RowRecord -> bool {
    (row: RowRecord) => RowEdge(h, docId, row) in g.edges
  }

  lemma OneLess(rows: seq<RowRecord>, before: RowRecord -> bool, after: RowRecord -> bool)
    requires rows != [] && forall row | row in rows :: after(row) <==> before(row) || row == rows[0]
    ensures |Lacking(rows, before)| == |Lacking(rows[1..], after)| + if before(rows[0]) then 0 else 1
  {
    var rest := Lacking(rows[1..], after);
    assert forall row :: row in rows <==> row == rows[0] || row in rows[1..];
    assert rows[0] !in rest;
    assert Lacking(rows, before) == rest + if before(rows[0]) then {} else {rows[0]};
  }

  lemma RestApart(h: ContentHash, g: Graph, docId: NodeId, rows: seq<RowRecord>)
    requires HasNode(h, g, docId) && RowsApart(h, g, rows) && rows != []
    ensures RowsApart(h, g, [rows[0]]) && RowsApart(h, WithRow(h, g, docId, rows[0]), rows[1..])
  {
    assert rows[0] in rows && forall x | x in rows[1..] :: x in rows;
    OneRowStored(h, g, docId, rows[0]);
  }

  lemma {:induction false} RowNodesMembers(h: ContentHash, g: Graph, docId: NodeId, rows: seq<RowRecord>,
                                           node: EvidenceNode)
    requires HasNode(h, g, docId) && RowsApart(h, g, rows)
    ensures node in WithRows(h, g, docId, rows).nodes
       <==> node in g.nodes || exists row :: row in rows && node == RowNode(row)
    decreases |rows|
  {
    if rows != [] {
      var next := WithRow(h, g, docId, rows[0]);
      RestApart(h, g, docId, rows);
      OneRowStored(h, g, docId, rows[0]);
      RowNodesMembers(h, next, docId, rows[1..], node);
      assert forall row :: row in rows <==> row == rows[0] || row in rows[1..];
    }
  }

  lemma {:induction false} RowNodesCount(h: ContentHash, g: Graph, docId: NodeId, rows: seq<RowRecord>)
    requires HasNode(h, g, docId) && RowsApart(h, g, rows)
    ensures |WithRows(h, g, docId, rows).nodes| == |g.nodes| + |Lacking(rows, NodePresent(g))|
    decreases |rows|
  {
    if rows != [] {
      var next := WithRow(h, g, docId, rows[0]);
      RestApart(h, g, docId, rows);
      OneRowStored(h, g, docId, rows[0]);
      assert rows[0] in rows;
      OneLess(rows, NodePresent(g), NodePresent(next));
      RowNodesCount(h, next, docId, rows[1..]);
    }
  }

  lemma {:induction false} RowEdgesMembers(h: ContentHash, g: Graph, docId: NodeId, rows: seq<RowRecord>, e: Edge)
    requires HasNode(h, g, docId) && RowsApart(h, g, rows)
    ensures e in WithRows(h, g, docId, rows).edges
       <==> e in g.edges || exists row :: row in rows && e == RowEdge(h, docId, row)
    decreases |rows|
  {
    if rows != [] {
      var next := WithRow(h, g, docId, rows[0]);
      RestApart(h, g, docId, rows);
      OneRowStored(h, g, docId, rows[0]);
      RowEdgesMembers(h, next, docId, rows[1..], e);
      assert forall row :: row in rows <==> row == rows[0] || row in rows[1..];
    }
  }

  lemma {:induction false} RowEdgesCount(h: ContentHash, g: Graph, docId: NodeId, rows: seq<RowRecord>)
    requires HasNode(h, g, docId) && RowsApart(h, g, rows)
    ensures |WithRows(h, g, docId, rows).edges| == |g.edges| + |Lacking(rows, EdgePresent(h, g, docId))|
    decreases |rows|
  {
    if rows != [] {
      var next := WithRow(h, g, docId, rows[0]);
      RestApart(h, g, docId, rows);
      OneRowStored(h, g, docId, rows[0]);
      assert rows[0] in rows;
      OneLess(rows, EdgePresent(h, g, docId), EdgePresent(h, next, docId));
      RowEdgesCount(h, next, docId, rows[1..]);
    }
  }

  /**
   For a known document, every row of a batch is stored under its own node, once: as many nodes are added as
   there are different rows without one.
   */
  lemma RowNodesStored(h: ContentHash, g: Graph, docId: NodeId, rows: seq<RowRecord>)
    requires HasNode(h, g, docId) && RowsApart(h, g, rows)
    ensures var r := WithRows(h, g, docId, rows);
            && (forall node :: node in r.nodes
                  <==> node in g.nodes || exists row :: row in rows && node == RowNode(row))
            && |r.nodes| == |g.nodes| + |set row | row in rows && RowNode(row) !in g.nodes|
  {
    forall node
      ensures node in WithRows(h, g, docId, rows).nodes
         <==> node in g.nodes || exists row :: row in rows && node == RowNode(row)
    {
      RowNodesMembers(h, g, docId, rows, node);
    }
    RowNodesCount(h, g, docId, rows);
    assert Lacking(rows, NodePresent(g)) == set row | row in rows && RowNode(row) !in g.nodes;
  }

  /** And linked to the document by its own edge, once. */
  lemma RowEdgesStored(h: ContentHash, g: Graph, docId: NodeId, rows: seq<RowRecord>)
    requires HasNode(h, g, docId) && RowsApart(h, g, rows)
    ensures var r := WithRows(h, g, docId, rows);
            && (forall e :: e in r.edges
                  <==> e in g.edges || exists row :: row in rows && e == Edge(docId, RowId(h, row), ExtractedFrom))
            && |r.edges|
               == |g.edges| + |set row | row in rows && Edge(docId, RowId(h, row), ExtractedFrom) !in g.edges|
  {
    forall e
      ensures e in WithRows(h, g, docId, rows).edges
         <==> e in g.edges || exists row :: row in rows && e == Edge(docId, RowId(h, row), ExtractedFrom)
    {
      RowEdgesMembers(h, g, docId, rows, e);
    }
    RowEdgesCount(h, g, docId, rows);
    assert Lacking(rows, EdgePresent(h, g, docId))
        == set row | row in rows && Edge(docId, RowId(h, row), ExtractedFrom) !in g.edges;
  }

  lemma OnlyRows(h: ContentHash, row: RowRecord, node: EvidenceNode)
    requires IdOf(h, node) == RowId(h, row)
    ensures node.RowNode? && IdHash(h, node) == IdHash(h, RowNode(row))
  {
    NewIdInjective(NodeTypeOf(node), IdHash(h, node), ExtractedRow, IdHash(h, RowNode(row)));
  }

  /** With an injective digest that is so for all rows without line feeds, whatever the graph holds. */
  lemma PlainRowsApart(digest: string -> string, g: Graph, rows: seq<RowRecord>)
    requires Injective(digest)
    requires forall row | row in rows ::
               '\n' !in row.accountId && '\n' !in row.date && '\n' !in row.amount && '\n' !in row.description
    ensures RowsApart(HashOfText(digest), g, rows)
  {
    var h := HashOfText(digest);
    forall row, node | row in rows && IdOf(h, node) == RowId(h, row)
      ensures node == RowNode(row)
    {
      OnlyRows(h, row, node);
      RowIdentifiedExactly(digest, row);
      assert RowId(h, node.row) == RowId(h, row);
    }
    forall row, other | row in rows && other in rows && RowId(h, row) == RowId(h, other)
      ensures row == other
    {
      RowIdentifiedExactly(digest, row);
    }
  }

  /** Two rows of which the id cannot tell the one from the other, because of a line feed. */
  lemma FedRowsCollide(digest: string -> string, a: RowRecord, b: RowRecord)
    requires a == RowRecord("c\nd", "e", "1", "f") && b == RowRecord("c", "d\ne", "1", "f")
    ensures a != b && RowId(HashOfText(digest), a) == RowId(HashOfText(digest), b)
  {
    var h, xs, ys := HashOfText(digest), RowParts(a), RowParts(b);
    FedPair(a.accountId, a.date);
    FedPair(b.accountId, b.date);
    FedConcat([a.accountId, a.date], [a.amount, a.description]);
    FedConcat([b.accountId, b.date], [b.amount, b.description]);
    assert xs == [a.accountId, a.date] + [a.amount, a.description];
    assert ys == [b.accountId, b.date] + [b.amount, b.description];
    assert a.accountId + "\n" + a.date + "\n" == b.accountId + "\n" + b.date + "\n";
    assert |a.accountId| != |b.accountId|;
  }
}
