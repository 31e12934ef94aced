/**
 The ontology snapshot as a value: what an upsert makes of it, in what order its vectors are kept,
 and the invariants of every run of upserts.
 */
module OntologyModel {
  import opened Sorting
  import opened Keyed

  datatype ArtifactKind =
    | Document
    | Account
    | Institution
    | Transaction
    | TaxCategory
    | EvidenceReference
    | XeroContact
    | XeroBankAccount
    | XeroInvoice
    | WorkflowTag
    | ModelJob
    | ModelProposal
    | WorkbookRow
    | AuditEvent
    | ValidationIssue
    | DocumentChunk
    | ClassificationOutcome
    | Requirement
    | Decision
    | Cost

  /** The declaration order of the kinds, which is their sort order. */
  function Rank(kind: ArtifactKind): nat {
    match kind
    case Document => 0
    case Account => 1
    case Institution => 2
    case Transaction => 3
    case TaxCategory => 4
    case EvidenceReference => 5
    case XeroContact => 6
    case XeroBankAccount => 7
    case XeroInvoice => 8
    case WorkflowTag => 9
    case ModelJob => 10
    case ModelProposal => 11
    case WorkbookRow => 12
    case AuditEvent => 13
    case ValidationIssue => 14
    case DocumentChunk => 15
    case ClassificationOutcome => 16
    case Requirement => 17
    case Decision => 18
    case Cost => 19
  }

  type Attributes = map<string, string>

  datatype Artifact = Artifact(id: string, kind: ArtifactKind, attrs: Attributes)

  datatype Relation = Relation(id: string, from: string, to: string, relation: string, provenance: Attributes)

  datatype ArtifactInput = ArtifactInput(kind: ArtifactKind, attrs: Attributes)

  datatype RelationInput = RelationInput(from: string, to: string, relation: string, provenance: Attributes)

  /** The two content hashes, of which nothing is known but that they are functions. */
  datatype Hashes = Hashes(
    artifact: (ArtifactKind, Attributes) -> string,
    relation: (string, string, string, Attributes) -> string)

  datatype OntologyError = MissingRef

  datatype Snapshot = Snapshot(artifacts: seq<Artifact>, relations: seq<Relation>)

  const EMPTY := Snapshot([], [])

  function ArtifactId(a: Artifact): string { a.id }

  function RelationId(r: Relation): string { r.id }

  predicate ArtifactLeq(a: Artifact, b: Artifact) {
    Rank(a.kind) < Rank(b.kind) || (Rank(a.kind) == Rank(b.kind) && StringLeq(a.id, b.id))
  }

  predicate RelationLeq(a: Relation, b: Relation) {
    TupleLeq([a.relation, a.from, a.to, a.id], [b.relation, b.from, b.to, b.id])
  }

  function Sort(s: Snapshot): Snapshot {
    Snapshot(SortBy(ArtifactLeq, s.artifacts), SortBy(RelationLeq, s.relations))
  }

  // ---------------------------------------------------------------------------------------------
  // Upserts
  // ---------------------------------------------------------------------------------------------

  function ArtifactOf(h: Hashes, input: ArtifactInput): Artifact {
    var id := if "id" in input.attrs then input.attrs["id"] else h.artifact(input.kind, input.attrs);
    Artifact(id, input.kind, input.attrs)
  }

  function RelationOf(h: Hashes, input: RelationInput): Relation {
    var id := h.relation(input.from, input.to, input.relation, input.provenance);
    Relation(id, input.from, input.to, input.relation, input.provenance)
  }

  function ArtifactsOf(h: Hashes, inputs: seq<ArtifactInput>): seq<Artifact> {
    seq(|inputs|, i requires 0 <= i < |inputs| => ArtifactOf(h, inputs[i]))
  }

  function RelationsOf(h: Hashes, inputs: seq<RelationInput>): seq<Relation> {
    seq(|inputs|, i requires 0 <= i < |inputs| => RelationOf(h, inputs[i]))
  }

  function WithArtifacts(s: Snapshot, added: seq<Artifact>): Snapshot {
    Sort(s.(artifacts := AddAllNew(ArtifactId, s.artifacts, added)))
  }

  predicate EndpointsKnown(artifacts: seq<Artifact>, r: Relation) {
    HasKey(ArtifactId, artifacts, r.from) && HasKey(ArtifactId, artifacts, r.to)
  }

  /** How many relations precede the first one with an unknown endpoint. */
  function KnownPrefix(artifacts: seq<Artifact>, rs: seq<Relation>): (n: nat)
    ensures n <= |rs|
  {
    if rs == [] || !EndpointsKnown(artifacts, rs[0]) then 0 else 1 + KnownPrefix(artifacts, rs[1..])
  }

  /** Given that the first `i` relations have known endpoints, so has the next one or it is the culprit. */
  lemma {:induction false} KnownPrefixStep(artifacts: seq<Artifact>, rs: seq<Relation>, i: nat)
    requires i < |rs| && i <= KnownPrefix(artifacts, rs)
    ensures EndpointsKnown(artifacts, rs[i]) <==> i < KnownPrefix(artifacts, rs)
  {
    if i > 0 {
      KnownPrefixStep(artifacts, rs[1..], i - 1);
    }
  }

  /** A batch with an unknown endpoint stops there: what precedes it is kept, and left unsorted. */
  function WithRelations(s: Snapshot, added: seq<Relation>): Snapshot {
    var n := KnownPrefix(s.artifacts, added);
    var after := s.(relations := AddAllNew(RelationId, s.relations, added[..n]));
    if n == |added| then Sort(after) else after
  }

  function UpsertArtifacts(h: Hashes, s: Snapshot, inputs: seq<ArtifactInput>): Snapshot {
    WithArtifacts(s, ArtifactsOf(h, inputs))
  }

  function UpsertRelations(h: Hashes, s: Snapshot, inputs: seq<RelationInput>): Snapshot {
    WithRelations(s, RelationsOf(h, inputs))
  }

  // ---------------------------------------------------------------------------------------------
  // Invariants
  // ---------------------------------------------------------------------------------------------

  /** Ids are unique and no relation dangles. */
  ghost predicate Valid(s: Snapshot) {
    && DistinctKeys(ArtifactId, s.artifacts)
    && DistinctKeys(RelationId, s.relations)
    && forall r | r in s.relations :: EndpointsKnown(s.artifacts, r)
  }

  ghost predicate InOrder(s: Snapshot) {
    Sorted(ArtifactLeq, s.artifacts) && Sorted(RelationLeq, s.relations)
  }

  /** The same artifacts and relations, in whatever order. */
  ghost predicate SameContents(s: Snapshot, t: Snapshot) {
    multiset(s.artifacts) == multiset(t.artifacts) && multiset(s.relations) == multiset(t.relations)
  }

  lemma ArtifactOrder()
    ensures TotalPreorder(ArtifactLeq)
  {
    forall a, b
      ensures ArtifactLeq(a, b) || ArtifactLeq(b, a)
    {
      StringLeqTotal(a.id, b.id);
    }
    forall a, b, c | ArtifactLeq(a, b) && ArtifactLeq(b, c)
      ensures ArtifactLeq(a, c)
    {
      if StringLeq(a.id, b.id) && StringLeq(b.id, c.id) {
        StringLeqTransitive(a.id, b.id, c.id);
      }
    }
  }

  lemma RelationOrder()
    ensures TotalPreorder(RelationLeq)
  {
    forall a, b
      ensures RelationLeq(a, b) || RelationLeq(b, a)
    {
      TupleLeqTotal([a.relation, a.from, a.to, a.id], [b.relation, b.from, b.to, b.id]);
    }
    forall a, b, c | RelationLeq(a, b) && RelationLeq(b, c)
      ensures RelationLeq(a, c)
    {
      TupleLeqTransitive([a.relation, a.from, a.to, a.id], [b.relation, b.from, b.to, b.id],
                         [c.relation, c.from, c.to, c.id]);
    }
  }

  lemma ArtifactIdsSeparate(artifacts: seq<Artifact>)
    requires DistinctKeys(ArtifactId, artifacts)
    ensures Separates(ArtifactLeq, artifacts)
  {
    forall a, b | a in artifacts && b in artifacts && ArtifactLeq(a, b) && ArtifactLeq(b, a)
      ensures a == b
    {
      StringLeqAntisymmetric(a.id, b.id);
    }
  }

  lemma RelationIdsSeparate(relations: seq<Relation>)
    requires DistinctKeys(RelationId, relations)
    ensures Separates(RelationLeq, relations)
  {
    forall a, b | a in relations && b in relations && RelationLeq(a, b) && RelationLeq(b, a)
      ensures a == b
    {
      var ka, kb := [a.relation, a.from, a.to, a.id], [b.relation, b.from, b.to, b.id];
      TupleLeqAntisymmetric(ka, kb);
      assert ka[3] == kb[3];
    }
  }

  lemma SameContentsValid(s: Snapshot, t: Snapshot)
    requires SameContents(s, t) && Valid(s)
    ensures Valid(t)
  {
    DistinctPermuted(ArtifactId, s.artifacts, t.artifacts);
    DistinctPermuted(RelationId, s.relations, t.relations);
    SameElements(s.relations, t.relations);
  }

  /** Sorting changes neither the contents nor the validity, and puts both vectors in order. */
  lemma SortKeeps(s: Snapshot)
    ensures SameContents(s, Sort(s))
    ensures InOrder(Sort(s))
    ensures Valid(s) ==> Valid(Sort(s))
  {
    ArtifactOrder();
    RelationOrder();
    SortBySorted(ArtifactLeq, s.artifacts);
    SortBySorted(RelationLeq, s.relations);
    if Valid(s) {
      SameContentsValid(s, Sort(s));
    }
  }

  /** The sorted vectors are a canonical form of the contents. */
  lemma SortedFormCanonical(s: Snapshot, t: Snapshot)
    requires Valid(s) && SameContents(s, t)
    ensures Sort(s) == Sort(t)
  {
    ArtifactOrder();
    RelationOrder();
    ArtifactIdsSeparate(s.artifacts);
    RelationIdsSeparate(s.relations);
    SortCanonical(ArtifactLeq, s.artifacts, t.artifacts);
    SortCanonical(RelationLeq, s.relations, t.relations);
  }

  /** Kinds rank in the order of their declaration. */
  lemma KindsRank(kinds: seq<ArtifactKind>)
    requires kinds == [Document, Account, Institution, Transaction, TaxCategory, EvidenceReference, XeroContact,
                       XeroBankAccount, XeroInvoice, WorkflowTag, ModelJob, ModelProposal, WorkbookRow, AuditEvent,
                       ValidationIssue, DocumentChunk, ClassificationOutcome, Requirement, Decision, Cost]
    ensures forall kind :: kind in kinds
    ensures forall i, j | 0 <= i < j < |kinds| :: Rank(kinds[i]) < Rank(kinds[j])
  {
    forall kind
      ensures kind in kinds
    {
      assert kinds[Rank(kind)] == kind;
    }
    assert forall i | 0 <= i < |kinds| :: Rank(kinds[i]) == i;
  }

  /** Relations are ordered by name, then start, then end, then id, each as in a dictionary. */
  lemma RelationLeqExactly(a: Relation, b: Relation)
    ensures RelationLeq(a, b)
       <==> (Precedes(a.relation, b.relation)
             || (a.relation == b.relation && Precedes(a.from, b.from))
             || (a.relation == b.relation && a.from == b.from && Precedes(a.to, b.to))
             || (a.relation == b.relation && a.from == b.from && a.to == b.to
                 && (a.id == b.id || Precedes(a.id, b.id))))
  {
    TupleLeqExactly([a.relation, a.from, a.to, a.id], [b.relation, b.from, b.to, b.id]);
    TupleLeqExactly([a.from, a.to, a.id], [b.from, b.to, b.id]);
    TupleLeqExactly([a.to, a.id], [b.to, b.id]);
    TupleLeqExactly([a.id], [b.id]);
    assert [a.relation, a.from, a.to, a.id][1..] == [a.from, a.to, a.id];
    assert [b.relation, b.from, b.to, b.id][1..] == [b.from, b.to, b.id];
    assert [a.from, a.to, a.id][1..] == [a.to, a.id] && [b.from, b.to, b.id][1..] == [b.to, b.id];
    assert [a.to, a.id][1..] == [a.id] && [b.to, b.id][1..] == [b.id] && [a.id][1..] == [] && [b.id][1..] == [];
  }

  lemma RankTells(a: ArtifactKind, b: ArtifactKind)
    ensures Rank(a) == Rank(b) <==> a == b
  {
  }

  /** A sorted snapshot lists artifacts by kind and, within a kind, by id, as in a dictionary. */
  lemma SortedArtifacts(s: Snapshot, i: nat, j: nat)
    requires Valid(s) && i < j < |Sort(s).artifacts|
    ensures var a, b := Sort(s).artifacts[i], Sort(s).artifacts[j];
            if a.kind == b.kind then Precedes(a.id, b.id) else Rank(a.kind) < Rank(b.kind)
  {
    SortKeeps(s);
    var a, b := Sort(s).artifacts[i], Sort(s).artifacts[j];
    assert ArtifactLeq(a, b) && ArtifactId(a) != ArtifactId(b);
    StringLeqExactly(a.id, b.id);
    RankTells(a.kind, b.kind);
  }

  /** The same of artifacts without an "id" attribute; one that has it is known by that. */
  lemma ArtifactIdTells(h: Hashes, x: ArtifactInput, y: ArtifactInput)
    requires forall k, a, k', a' :: h.artifact(k, a) == h.artifact(k', a') ==> k == k' && a == a'
    ensures "id" !in x.attrs && "id" !in y.attrs ==> (ArtifactOf(h, x).id == ArtifactOf(h, y).id <==> x == y)
    ensures "id" in x.attrs ==> ArtifactOf(h, x).id == x.attrs["id"]
    ensures ArtifactOf(h, x).kind == x.kind && ArtifactOf(h, x).attrs == x.attrs
  {
  }

  /** With a hash that tells its arguments apart, relations have one id exactly when all their parts are equal. */
  lemma RelationIdTells(h: Hashes, x: RelationInput, y: RelationInput)
    requires forall a, b, c, p, a', b', c', p' ::
               h.relation(a, b, c, p) == h.relation(a', b', c', p') ==> a == a' && b == b' && c == c' && p == p'
    ensures RelationOf(h, x).id == RelationOf(h, y).id
       <==> x.from == y.from && x.to == y.to && x.relation == y.relation && x.provenance == y.provenance
    ensures var r := RelationOf(h, x);
            r.from == x.from && r.to == x.to && r.relation == x.relation && r.provenance == x.provenance
  {
  }

  lemma SortIdempotent(s: Snapshot)
    requires InOrder(s)
    ensures Sort(s) == s
  {
    ArtifactOrder();
    RelationOrder();
    SortOfSorted(ArtifactLeq, s.artifacts);
    SortOfSorted(RelationLeq, s.relations);
  }

  lemma WithArtifactsValid(s: Snapshot, added: seq<Artifact>)
    requires Valid(s)
    ensures Valid(s.(artifacts := AddAllNew(ArtifactId, s.artifacts, added)))
    ensures Valid(WithArtifacts(s, added)) && InOrder(WithArtifacts(s, added))
  {
    var after := s.(artifacts := AddAllNew(ArtifactId, s.artifacts, added));
    AddAllKeys(ArtifactId, s.artifacts, added);
    SortKeeps(after);
  }

  /** Also when the batch fails part-way. */
  lemma WithRelationsValid(s: Snapshot, added: seq<Relation>)
    requires Valid(s)
    ensures Valid(WithRelations(s, added))
    ensures KnownPrefix(s.artifacts, added) == |added| ==> InOrder(WithRelations(s, added))
  {
    var n := KnownPrefix(s.artifacts, added);
    var after := s.(relations := AddAllNew(RelationId, s.relations, added[..n]));
    AddAllKeys(RelationId, s.relations, added[..n]);
    forall r | r in after.relations
      ensures EndpointsKnown(after.artifacts, r)
    {
      AddAllMembers(RelationId, s.relations, added[..n], r);
      if r !in s.relations {
        var i :| IsFirstNew(RelationId, s.relations, added[..n], i) && added[..n][i] == r;
        KnownPrefixStep(s.artifacts, added, i);
      }
    }
    SortKeeps(after);
  }

  // ---------------------------------------------------------------------------------------------
  // Runs
  // ---------------------------------------------------------------------------------------------

  datatype Upsert = OfArtifacts(artifacts: seq<ArtifactInput>) | OfRelations(relations: seq<RelationInput>)

  function Apply(h: Hashes, s: Snapshot, u: Upsert): Snapshot {
    match u
    case OfArtifacts(inputs) => UpsertArtifacts(h, s, inputs)
    case OfRelations(inputs) => UpsertRelations(h, s, inputs)
  }

  predicate Succeeds(h: Hashes, s: Snapshot, u: Upsert) {
    u.OfRelations? ==> KnownPrefix(s.artifacts, RelationsOf(h, u.relations)) == |u.relations|
  }

  /** The snapshot after a run of upserts, failed ones included, from the default snapshot. */
  function Run(h: Hashes, run: seq<Upsert>): Snapshot {
    if run == [] then EMPTY else Apply(h, Run(h, run[..|run| - 1]), run[|run| - 1])
  }

  /** No run breaks the invariant, and each successful call leaves both vectors in order. */
  lemma {:induction false} RunKeepsInvariant(h: Hashes, run: seq<Upsert>)
    ensures Valid(Run(h, run))
    ensures run != [] && Succeeds(h, Run(h, run[..|run| - 1]), run[|run| - 1]) ==> InOrder(Run(h, run))
  {
    if run != [] {
      var before, last := Run(h, run[..|run| - 1]), run[|run| - 1];
      RunKeepsInvariant(h, run[..|run| - 1]);
      match last
      case OfArtifacts(inputs) => WithArtifactsValid(before, ArtifactsOf(h, inputs));
      case OfRelations(inputs) => WithRelationsValid(before, RelationsOf(h, inputs));
    }
  }
}
