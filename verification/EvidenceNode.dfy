/**
 Nodes and edges of the evidence graph, and the ids of nodes: a type prefix, a colon and a hash.

 Nothing is assumed about the content hash, which is a parameter. Fields of a record that no modelled
 function reads are omitted, and amounts, instants and row numbers appear as the text that is hashed.
 Every type has a prefix of its own, and none contains a colon.
 */
module EvidenceNodes {
  import opened Results

  datatype NodeType =
    | SourceDoc
    | ExtractedRow
    | Transaction
    | Classification
    | ModelProposal
    | OperatorApproval
    | WorkbookRow
    | ValidationIssue
    | RndActivity
    | TaxOffset
    | Requirement
    | Decision
    | Cost
    | Unknown

  datatype NodeId = NodeId(text: string)

  type ContentHash = seq<string> -> string

  datatype DocRecord = DocRecord(filename: string, contentHash: string)
  datatype RowRecord = RowRecord(accountId: string, date: string, amount: string, description: string)
  datatype TxRecord = TxRecord(txId: string, sourceRows: seq<NodeId>)
  datatype ClassificationRecord = ClassificationRecord(txId: string, category: string, actor: string,
                                                       classifiedAt: string)
  datatype ProposalRecord = ProposalRecord(txId: string, modelName: string, proposedCategory: string,
                                           proposedAt: string)
  datatype ApprovalRecord = ApprovalRecord(txId: string, operatorId: string, approved: bool, approvedAt: string)
  datatype WorkbookRecord = WorkbookRecord(txId: string, sheetName: string, rowIndex: string, exportedAt: string)
  datatype IssueRecord = IssueRecord(txId: string, rule: string, severity: string, raisedAt: string)
  datatype RequirementRecord = RequirementRecord(requirementId: string, title: string, source: Option<string>)
  datatype DecisionRecord = DecisionRecord(decisionId: string, subject: string, decidedBy: string, decidedAt: string)
  datatype CostRecord = CostRecord(costId: string, subject: string, amount: string, currency: string,
                                   recordedAt: string)

  datatype EvidenceNode =
    | DocNode(doc: DocRecord)
    | RowNode(row: RowRecord)
    | TxNode(tx: TxRecord)
    | ClassificationNode(classification: ClassificationRecord)
    | ProposalNode(proposal: ProposalRecord)
    | ApprovalNode(approval: ApprovalRecord)
    | WorkbookNode(workbookRow: WorkbookRecord)
    | IssueNode(issue: IssueRecord)
    | RequirementNode(requirement: RequirementRecord)
    | DecisionNode(decision: DecisionRecord)
    | CostNode(cost: CostRecord)

  datatype EdgeType =
    | ExtractedFrom
    | Produces
    | ClassifiedAs
    | ProposedBy
    | ApprovedBy
    | ExportedTo
    | ValidatedAs
    | ExecutedBy
    | SatisfiesConstraint
    | RegisteredUnder

  datatype Edge = Edge(from: NodeId, to: NodeId, kind: EdgeType)

  function Prefix(t: NodeType): string {
    match t
    case SourceDoc => "doc"
    case ExtractedRow => "row"
    case Transaction => "tx"
    case Classification => "cls"
    case ModelProposal => "prop"
    case OperatorApproval => "approval"
    case WorkbookRow => "wb"
    case ValidationIssue => "vi"
    case RndActivity => "rnd"
    case TaxOffset => "tax"
    case Requirement => "req"
    case Decision => "dec"
    case Cost => "cost"
    case Unknown => "unknown"
  }

  function NewId(t: NodeType, hash: string): NodeId {
    NodeId(Prefix(t) + ":" + hash)
  }

  /** The position of the first colon, or the length of the text. */
  function ColonAt(text: string): nat {
    if text == [] || text[0] == ':' then 0 else 1 + ColonAt(text[1..])
  }

  lemma {:induction false} ColonInBounds(text: string)
    ensures ColonAt(text) <= |text|
  {
    if text != [] && text[0] != ':' {
      ColonInBounds(text[1..]);
    }
  }

  function TypeOf(id: NodeId): NodeType {
    ColonInBounds(id.text);
    var prefix := id.text[..ColonAt(id.text)];
    if prefix == "doc" then SourceDoc
    else if prefix == "row" then ExtractedRow
    else if prefix == "tx" then Transaction
    else if prefix == "cls" then Classification
    else if prefix == "prop" then ModelProposal
    else if prefix == "approval" then OperatorApproval
    else if prefix == "wb" then WorkbookRow
    else if prefix == "vi" then ValidationIssue
    else if prefix == "req" then Requirement
    else if prefix == "dec" then Decision
    else if prefix == "cost" then Cost
    else Unknown
  }

  /** What follows the first colon; the whole text when there is none. */
  function HashOf(id: NodeId): string {
    ColonInBounds(id.text);
    var c := ColonAt(id.text);
    if c < |id.text| then id.text[c + 1..] else id.text
  }

  lemma {:induction false} ColonAfter(front: string, back: string)
    requires ':' !in front
    ensures ColonAt(front + ":" + back) == |front|
  {
    var text := front + ":" + back;
    if front == [] {
      assert text[0] == ':';
    } else {
      assert text[0] == front[0] && text[1..] == front[1..] + ":" + back;
      ColonAfter(front[1..], back);
    }
  }

  /** `HashOf` inverts `NewId` for every hash text, also one that contains colons. */
  lemma HashInvertsNew(t: NodeType, hash: string)
    ensures HashOf(NewId(t, hash)) == hash
  {
    ColonAfter(Prefix(t), hash);
  }

  lemma PrefixOfNew(t: NodeType, hash: string)
    ensures ColonAt(NewId(t, hash).text) == |Prefix(t)| < |NewId(t, hash).text|
    ensures NewId(t, hash).text[..|Prefix(t)|] == Prefix(t)
  {
    ColonAfter(Prefix(t), hash);
  }

  /** Activity and offset ids begin with "rnd" and "tax". */
  lemma OtherPrefixes(hash: string)
    ensures NewId(RndActivity, hash).text == "rnd:" + hash && NewId(TaxOffset, hash).text == "tax:" + hash
  {
    assert "rnd" + ":" == "rnd:" && "tax" + ":" == "tax:";
  }

  /** The type read back from an id is the type it was made with, except for two types without a case. */
  lemma TypeInvertsNew(t: NodeType, hash: string)
    ensures TypeOf(NewId(t, hash)) == t <==> t != RndActivity && t != TaxOffset
  {
    PrefixOfNew(t, hash);
  }

  /** Different types or different hash texts make different ids. */
  lemma NewIdInjective(t: NodeType, hash: string, t': NodeType, hash': string)
    requires NewId(t, hash) == NewId(t', hash')
    ensures t == t' && hash == hash'
  {
    HashInvertsNew(t, hash);
    HashInvertsNew(t', hash');
    PrefixOfNew(t, hash);
    PrefixOfNew(t', hash');
  }

  function NodeTypeOf(node: EvidenceNode): NodeType {
    match node
    case DocNode(_) => SourceDoc
    case RowNode(_) => ExtractedRow
    case TxNode(_) => Transaction
    case ClassificationNode(_) => Classification
    case ProposalNode(_) => ModelProposal
    case ApprovalNode(_) => OperatorApproval
    case WorkbookNode(_) => WorkbookRow
    case IssueNode(_) => ValidationIssue
    case RequirementNode(_) => Requirement
    case DecisionNode(_) => Decision
    case CostNode(_) => Cost
  }

  /** The text after the prefix of a node's id: a transaction carries its own, the others are hashed. */
  function IdHash(h: ContentHash, node: EvidenceNode): string {
    match node
    case DocNode(d) => h([d.filename, d.contentHash])
    case RowNode(r) => h([r.accountId, r.date, r.amount, r.description])
    case TxNode(tx) => tx.txId
    case ClassificationNode(c) => h([c.txId, c.category, c.actor, c.classifiedAt])
    case ProposalNode(p) => h([p.txId, p.modelName, p.proposedCategory, p.proposedAt])
    case ApprovalNode(a) => h([a.txId, a.operatorId, if a.approved then "true" else "false", a.approvedAt])
    case WorkbookNode(w) => h([w.txId, w.sheetName, w.rowIndex, w.exportedAt])
    case IssueNode(i) => h([i.txId, i.rule, i.severity, i.raisedAt])
    case RequirementNode(r) => h([r.requirementId, r.title, r.source.GetOr("")])
    case DecisionNode(d) => h([d.decisionId, d.subject, d.decidedBy, d.decidedAt])
    case CostNode(c) => h([c.costId, c.subject, c.amount, c.currency, c.recordedAt])
  }

  function IdOf(h: ContentHash, node: EvidenceNode): NodeId {
    NewId(NodeTypeOf(node), IdHash(h, node))
  }

  function TxIdOf(node: EvidenceNode): Option<string> {
    match node
    case TxNode(tx) => Some(tx.txId)
    case ClassificationNode(c) => Some(c.txId)
    case ProposalNode(p) => Some(p.txId)
    case ApprovalNode(a) => Some(a.txId)
    case WorkbookNode(w) => Some(w.txId)
    case IssueNode(i) => Some(i.txId)
    case _ => None
  }

  function TxNodeId(txId: string): NodeId {
    NewId(Transaction, txId)
  }
}
