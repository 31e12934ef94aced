/** In which order a path query lists what it finds, and which relation it attaches an artifact by. */
module AnswerOrders {
  import opened Results
  import opened Sorting
  import opened Keyed
  import opened OntologyModel
  import opened PathQuery

  predicate At(artifacts: seq<Artifact>, p: nat, id: string) {
    p < |artifacts| && artifacts[p].id == id
  }

  /** `a` leaves an artifact listed before that of `b`, or the same one and comes no later in the order of steps. */
  ghost predicate NoLater(artifacts: seq<Artifact>, a: Relation, b: Relation) {
    forall p: nat, q: nat | At(artifacts, p, a.from) && At(artifacts, q, b.from) :: p < q || (p == q && StepLeq(a, b))
  }

  /** Relations are listed as their starts are and, from one start, in the order of steps. */
  ghost predicate InStepOrder(artifacts: seq<Artifact>, found: seq<Relation>) {
    forall i, j | 0 <= i < j < |found| :: NoLater(artifacts, found[i], found[j])
  }

  /** No stored relation to the same artifact comes before the one that is listed. */
  ghost predicate FirstWays(relations: seq<Relation>, artifacts: seq<Artifact>, found: seq<Relation>) {
    forall i, r | 0 <= i < |found| && r in relations && r.to == found[i].to :: NoLater(artifacts, found[i], r)
  }

  /** Everything listed leaves one of the first `n` artifacts. */
  ghost predicate LeaveBelow(artifacts: seq<Artifact>, found: seq<Relation>, n: nat) {
    forall i, p: nat | 0 <= i < |found| && At(artifacts, p, found[i].from) :: p < n
  }

  ghost predicate Ordered(relations: seq<Relation>, st: Search, n: nat) {
    && InStepOrder(st.artifacts, st.relations)
    && FirstWays(relations, st.artifacts, st.relations)
    && LeaveBelow(st.artifacts, st.relations, n)
  }

  // ---------------------------------------------------------------------------------------------
  // The order of steps
  // ---------------------------------------------------------------------------------------------

  /** Steps are ordered by relation name, then target, then id, each as in a dictionary. */
  lemma StepLeqExactly(a: Relation, b: Relation)
    ensures StepLeq(a, b)
       <==> (Precedes(a.relation, b.relation)
             || (a.relation == b.relation && Precedes(a.to, b.to))
             || (a.relation == b.relation && a.to == b.to && (a.id == b.id || Precedes(a.id, b.id))))
  {
    TupleLeqExactly([a.relation, a.to, a.id], [b.relation, b.to, b.id]);
    TupleLeqExactly([a.to, a.id], [b.to, b.id]);
    TupleLeqExactly([a.id], [b.id]);
    assert [a.relation, a.to, a.id][1..] == [a.to, a.id] && [b.relation, b.to, b.id][1..] == [b.to, b.id];
    assert [a.to, a.id][1..] == [a.id] && [b.to, b.id][1..] == [b.id] && [a.id][1..] == [] && [b.id][1..] == [];
  }

  // ---------------------------------------------------------------------------------------------
  // The search keeps the order
  // ---------------------------------------------------------------------------------------------

  lemma OnePlace(lookup: map<string, Artifact>, st: Search, p: nat, q: nat, id: string)
    requires Listed(lookup, st) && At(st.artifacts, p, id) && At(st.artifacts, q, id)
    ensures p == q
  {
    assert ArtifactId(st.artifacts[p]) == ArtifactId(st.artifacts[q]);
  }

  /** A new artifact is not where anything listed leaves from. */
  lemma OldPlaces(lookup: map<string, Artifact>, relations: seq<Relation>, st: Search, x: Artifact, i: nat, p: nat)
    requires Listed(lookup, st) && IsTree(relations, st) && i < |st.relations|
    requires x.id !in st.visited && At(st.artifacts + [x], p, st.relations[i].from)
    ensures At(st.artifacts, p, st.relations[i].from)
  {
    assert TreeEdge(relations, st, i);
    var j :| 0 <= j <= i && st.artifacts[j].id == st.relations[i].from;
    assert ArtifactId(st.artifacts[j]) == st.relations[i].from;
  }

  /**
   Of the relations that leave `artifacts[c]`, those still to be visited lead on; the others lead to
   what was seen.
   */
  ghost predicate Rest(lookup: map<string, Artifact>, relations: seq<Relation>, st: Search, c: nat, rels: seq<Relation>)
    requires c < |st.artifacts|
  {
    && Sorted(StepLeq, rels)
    && (forall r | r in rels :: r in relations && r.from == st.artifacts[c].id)
    && (forall r | r in relations && r.from == st.artifacts[c].id && r.to in lookup ::
          r in rels || r.to in st.visited)
    && (forall i, r | 0 <= i < |st.relations| && r in rels && st.relations[i].from == r.from ::
          StepLeq(st.relations[i], r))
  }

  /** What the artifacts before `c` lead to has been seen. */
  ghost predicate SeenBefore(lookup: map<string, Artifact>, relations: seq<Relation>, st: Search, c: nat)
    requires c <= |st.artifacts|
  {
    forall q: nat, r | q < c && r in relations && At(st.artifacts, q, r.from) && r.to in lookup :: r.to in st.visited
  }

  lemma StepReflexive(r: Relation)
    ensures StepLeq(r, r)
  {
    TupleLeqTotal([r.relation, r.to, r.id], [r.relation, r.to, r.id]);
  }

  /** Of what leads to a new artifact, the head of the rest comes first. */
  lemma FirstOfRest(lookup: map<string, Artifact>, relations: seq<Relation>, st: Search, c: nat, rels: seq<Relation>,
                    way: Relation)
    requires Listed(lookup, st) && c < |st.artifacts| && rels != []
    requires rels[0].to in lookup && lookup[rels[0].to].id == rels[0].to && rels[0].to !in st.visited
    requires Rest(lookup, relations, st, c, rels) && SeenBefore(lookup, relations, st, c)
    requires way in relations && way.to == rels[0].to
    ensures NoLater(st.artifacts + [lookup[rels[0].to]], rels[0], way)
  {
    var rel, x := rels[0], lookup[rels[0].to];
    assert rel in rels && ArtifactId(st.artifacts[c]) == rel.from;
    forall p: nat, q: nat | At(st.artifacts + [x], p, rel.from) && At(st.artifacts + [x], q, way.from)
      ensures p < q || (p == q && StepLeq(rel, way))
    {
      OnePlace(lookup, st, if p < |st.artifacts| then p else c, c, rel.from);
      if q < c {
        assert At(st.artifacts, q, way.from);
      } else if q == c {
        assert way in rels;
        var k :| 0 <= k < |rels| && rels[k] == way;
        StepReflexive(rel);
      }
    }
  }

  /** Listing a relation that leaves `artifacts[c]` and leads to something new. */
  lemma AddKeepsOrder(lookup: map<string, Artifact>, relations: seq<Relation>, st: Search, c: nat, rels: seq<Relation>)
    requires Listed(lookup, st) && IsTree(relations, st) && c < |st.artifacts| && rels != []
    requires rels[0].to in lookup && lookup[rels[0].to].id == rels[0].to && rels[0].to !in st.visited
    requires Ordered(relations, st, c + 1)
    requires Rest(lookup, relations, st, c, rels) && SeenBefore(lookup, relations, st, c)
    ensures Ordered(relations, Visit(lookup, st.depths[c], rels[0], st), c + 1)
  {
    var rel, x := rels[0], lookup[rels[0].to];
    var r := Visit(lookup, st.depths[c], rel, st);
    var n := |st.relations|;
    assert rel in rels && ArtifactId(st.artifacts[c]) == rel.from;
    forall q: nat | At(r.artifacts, q, rel.from)
      ensures q == c
    {
      OnePlace(lookup, st, if q < |st.artifacts| then q else c, c, rel.from);
    }
    forall i, p: nat | 0 <= i < n && At(r.artifacts, p, st.relations[i].from)
      ensures At(st.artifacts, p, st.relations[i].from) && p <= c
    {
      OldPlaces(lookup, relations, st, x, i, p);
    }
    forall i, j | 0 <= i < j < |r.relations|
      ensures NoLater(r.artifacts, r.relations[i], r.relations[j])
    {
      assert j < n ==> NoLater(st.artifacts, st.relations[i], st.relations[j]);
    }
    forall i, way | 0 <= i < |r.relations| && way in relations && way.to == r.relations[i].to
      ensures NoLater(r.artifacts, r.relations[i], way)
    {
      if i < n {
        assert NoLater(st.artifacts, st.relations[i], way);
        forall p: nat, q: nat | At(r.artifacts, p, st.relations[i].from) && At(r.artifacts, q, way.from)
          ensures p < q || (p == q && StepLeq(st.relations[i], way))
        {
          assert q < |st.artifacts| ==> At(st.artifacts, q, way.from);
        }
      } else {
        FirstOfRest(lookup, relations, st, c, rels, way);
      }
    }
  }

  lemma VisitKeepsRest(lookup: map<string, Artifact>, relations: seq<Relation>, st: Search, c: nat, rels: seq<Relation>)
    requires c < |st.artifacts| == |st.depths| && rels != []
    requires Rest(lookup, relations, st, c, rels) && SeenBefore(lookup, relations, st, c)
    ensures var r := Visit(lookup, st.depths[c], rels[0], st);
            Rest(lookup, relations, r, c, rels[1..]) && SeenBefore(lookup, relations, r, c)
  {
    var r := Visit(lookup, st.depths[c], rels[0], st);
    assert forall x | x in rels :: x == rels[0] || x in rels[1..];
    assert forall x | x in rels[1..] :: x in rels;
    forall i, x | 0 <= i < |r.relations| && x in rels[1..] && r.relations[i].from == x.from
      ensures StepLeq(r.relations[i], x)
    {
      if i == |st.relations| {
        var k :| 1 <= k < |rels| && rels[k] == x;
      }
    }
    forall q: nat, x | q < c && x in relations && At(r.artifacts, q, x.from) && x.to in lookup
      ensures x.to in r.visited
    {
      assert At(st.artifacts, q, x.from);
    }
  }

  lemma {:induction false} VisitAllKeepsOrder(lookup: map<string, Artifact>, relations: seq<Relation>, start: string,
                                              limit: nat, st: Search, c: nat, rels: seq<Relation>)
    requires forall id | id in lookup :: lookup[id].id == id
    requires Core(lookup, relations, start, limit, st)
    requires c < |st.artifacts| && st.depths[c] < limit && Shallow(st, st.depths[c] + 1)
    requires Ordered(relations, st, c + 1)
    requires Rest(lookup, relations, st, c, rels) && SeenBefore(lookup, relations, st, c)
    ensures Ordered(relations, VisitAll(lookup, st.depths[c], rels, st), c + 1)
    decreases |rels|
  {
    if rels != [] {
      var next := Visit(lookup, st.depths[c], rels[0], st);
      assert rels[0] in rels;
      VisitKeepsCore(lookup, relations, start, limit, st, c, rels[0]);
      VisitKeepsRest(lookup, relations, st, c, rels);
      if rels[0].to in lookup && rels[0].to !in st.visited {
        AddKeepsOrder(lookup, relations, st, c, rels);
      }
      assert next.depths[c] == st.depths[c];
      VisitAllKeepsOrder(lookup, relations, start, limit, next, c, rels[1..]);
    }
  }

  lemma RestAtFirst(lookup: map<string, Artifact>, relations: seq<Relation>, start: string, limit: nat, st: Search,
                    c: nat)
    requires Core(lookup, relations, start, limit, st) && c < |st.artifacts| && st.depths[c] < limit
    requires ClosedBelow(lookup, relations, limit, st, c)
    requires Ordered(relations, st, c)
    ensures Rest(lookup, relations, st, c, Outgoing(relations, st.artifacts[c].id))
    ensures SeenBefore(lookup, relations, st, c)
  {
    var id := st.artifacts[c].id;
    StepOrder();
    SortBySorted(StepLeq, Leaving(relations, id));
    forall r
      ensures r in Outgoing(relations, id) <==> r in relations && r.from == id
    {
      OutgoingMembers(relations, id, r);
    }
    forall i | 0 <= i < |st.relations|
      ensures st.relations[i].from != id
    {
      assert At(st.artifacts, c, st.relations[i].from) ==> c < c;
    }
    forall q: nat, r | q < c && r in relations && At(st.artifacts, q, r.from) && r.to in lookup
      ensures r.to in st.visited
    {
      assert ClosedAt(lookup, relations, st, q);
      var j :| 0 <= j < |st.artifacts| && j < |st.depths| && st.artifacts[j].id == r.to
          && st.depths[j] <= st.depths[q] + 1;
      assert ArtifactId(st.artifacts[j]) == r.to;
    }
  }

  lemma ClosedPopped(lookup: map<string, Artifact>, relations: seq<Relation>, limit: nat, st: Search, popped: Search,
                     c: nat)
    requires c <= |st.artifacts| == |st.depths| && popped == st.(queue := popped.queue)
    requires ClosedBelow(lookup, relations, limit, st, c)
    ensures ClosedBelow(lookup, relations, limit, popped, c)
  {
    AllClosedStay(lookup, relations, limit, st, popped, c);
  }

  lemma AdvanceKeepsOrder(lookup: map<string, Artifact>, relations: seq<Relation>, start: string, limit: nat,
                          st: Search, c: nat)
    requires forall id | id in lookup :: lookup[id].id == id
    requires Inv(lookup, relations, start, limit, st) && st.queue != [] && c == |st.artifacts| - |st.queue|
    requires Ordered(relations, st, c)
    ensures Ordered(relations, Advance(lookup, relations, limit, st), c + 1)
  {
    var (id, depth) := st.queue[0];
    var popped := st.(queue := st.queue[1..]);
    assert id == st.artifacts[c].id && depth == st.depths[c];
    if depth < limit {
      PopKeepsCore(lookup, relations, start, limit, st);
      ClosedPopped(lookup, relations, limit, st, popped, c);
      RestAtFirst(lookup, relations, start, limit, popped, c);
      VisitAllKeepsOrder(lookup, relations, start, limit, popped, c, Outgoing(relations, id));
    }
  }

  lemma {:induction false} CompleteKeepsOrder(lookup: map<string, Artifact>, relations: seq<Relation>, start: string,
                                              limit: nat, st: Search)
    requires forall id | id in lookup :: lookup[id].id == id
    requires Inv(lookup, relations, start, limit, st)
    requires Ordered(relations, st, |st.artifacts| - |st.queue|)
    ensures var r := Complete(lookup, relations, limit, st);
            InStepOrder(r.artifacts, r.relations) && FirstWays(relations, r.artifacts, r.relations)
    decreases Work(lookup, st)
  {
    if st.queue != [] {
      var c := |st.artifacts| - |st.queue|;
      AdvanceWork(lookup, relations, limit, st);
      AdvanceKeepsInv(lookup, relations, start, limit, st);
      AdvanceCloses(lookup, relations, start, limit, st, c);
      AdvanceKeepsOrder(lookup, relations, start, limit, st, c);
      CompleteKeepsOrder(lookup, relations, start, limit, Advance(lookup, relations, limit, st));
    }
  }

  /**
   The relations of an answer are listed as their starts are and, from one start, in the order of steps; and each
   is the first, in this order, of all stored relations to its target that leave something listed.
   */
  lemma QueryOrdered(s: Snapshot, from: string, maxDepth: Option<nat>)
    requires HasKey(ArtifactId, s.artifacts, from)
    ensures Query(s, from, maxDepth).Ok?
    ensures var r := Query(s, from, maxDepth).value;
            InStepOrder(r.artifacts, r.relations) && FirstWays(s.relations, r.artifacts, r.relations)
  {
    var lookup, limit := Lookup(s.artifacts), maxDepth.GetOr(USIZE_MAX);
    var done := QuerySearch(s, from, maxDepth);
    LookupFinds(s.artifacts, from);
    forall id | id in lookup
      ensures lookup[id].id == id
    {
      LookupFinds(s.artifacts, id);
    }
    StartKeepsInv(lookup, s.relations, from, limit);
    CompleteKeepsOrder(lookup, s.relations, from, limit, Start(lookup[from]));
  }
}
