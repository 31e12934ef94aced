/** When order, batching and repetition of the inputs do not matter: exactly when those with one id are equal. */
module OntologyConfluence {
  import opened Sorting
  import opened Keyed
  import opened OntologyModel

  function Flatten<T>(batches: seq<seq<T>>): seq<T> {
    if batches == [] then [] else batches[0] + Flatten(batches[1..])
  }

  /** One artifact upsert per batch. */
  function UpsertBatches(s: Snapshot, batches: seq<seq<Artifact>>): Snapshot
    decreases |batches|
  {
    if batches == [] then s else UpsertBatches(WithArtifacts(s, batches[0]), batches[1..])
  }

  /** One relation upsert per batch. */
  function RelateBatches(s: Snapshot, batches: seq<seq<Relation>>): Snapshot
    decreases |batches|
  {
    if batches == [] then s else RelateBatches(WithRelations(s, batches[0]), batches[1..])
  }

  /** Adding to a permuted vector adds the same elements. */
  lemma {:induction false} AddAllPermuted<T, K>(key: T -> K, s: seq<T>, t: seq<T>, xs: seq<T>)
    requires DistinctKeys(key, s) && multiset(s) == multiset(t)
    ensures multiset(AddAllNew(key, s, xs)) == multiset(AddAllNew(key, t, xs))
    decreases |xs|
  {
    if xs != [] {
      DistinctPermuted(key, s, t);
      assert HasKey(key, s, key(xs[0])) <==> HasKey(key, t, key(xs[0]));
      var s1, t1 := AddNew(key, s, xs[0]), AddNew(key, t, xs[0]);
      AddAllKeys(key, s, [xs[0]]);
      assert s1 == AddAllNew(key, s, [xs[0]]) by { assert [xs[0]][1..] == []; }
      AddAllPermuted(key, s1, t1, xs[1..]);
    }
  }

  lemma SplitArtifactUpsert(s: Snapshot, xs: seq<Artifact>, ys: seq<Artifact>)
    requires Valid(s)
    ensures WithArtifacts(WithArtifacts(s, xs), ys) == WithArtifacts(s, xs + ys)
  {
    var t := s.(artifacts := AddAllNew(ArtifactId, s.artifacts, xs));
    var u := Sort(t);
    WithArtifactsValid(s, xs);
    SortKeeps(t);
    AddAllAppend(ArtifactId, s.artifacts, xs, ys);
    AddAllPermuted(ArtifactId, t.artifacts, u.artifacts, ys);
    WithArtifactsValid(t, ys);
    SortedFormCanonical(t.(artifacts := AddAllNew(ArtifactId, t.artifacts, ys)),
                        u.(artifacts := AddAllNew(ArtifactId, u.artifacts, ys)));
  }

  /** Any split of the same inputs into batches ends in the snapshot of the single batch. */
  lemma {:induction false} BatchingIrrelevant(s: Snapshot, batches: seq<seq<Artifact>>)
    requires Valid(s)
    requires batches != []
    ensures UpsertBatches(s, batches) == WithArtifacts(s, Flatten(batches))
    decreases |batches|
  {
    WithArtifactsValid(s, batches[0]);
    if |batches| == 1 {
      assert Flatten(batches[1..]) == [];
      assert Flatten(batches) == batches[0];
    } else {
      BatchingIrrelevant(WithArtifacts(s, batches[0]), batches[1..]);
      SplitArtifactUpsert(s, batches[0], Flatten(batches[1..]));
    }
  }

  lemma OrderIrrelevant(s: Snapshot, xs: seq<Artifact>, ys: seq<Artifact>)
    requires Valid(s)
    requires Consistent(ArtifactId, s.artifacts, xs)
    requires forall z :: z in xs <==> z in ys
    ensures WithArtifacts(s, xs) == WithArtifacts(s, ys)
  {
    AddAllConfluent(ArtifactId, s.artifacts, xs, ys);
    WithArtifactsValid(s, xs);
    SortedFormCanonical(s.(artifacts := AddAllNew(ArtifactId, s.artifacts, xs)),
                        s.(artifacts := AddAllNew(ArtifactId, s.artifacts, ys)));
  }

  /** Any order, any batching and any repetition of the same artifacts ends in the same snapshot. */
  lemma ArtifactUpsertsConfluent(s: Snapshot, some: seq<seq<Artifact>>, others: seq<seq<Artifact>>)
    requires Valid(s)
    requires some != [] && others != []
    requires Consistent(ArtifactId, s.artifacts, Flatten(some))
    requires forall z :: z in Flatten(some) <==> z in Flatten(others)
    ensures UpsertBatches(s, some) == UpsertBatches(s, others)
  {
    BatchingIrrelevant(s, some);
    BatchingIrrelevant(s, others);
    OrderIrrelevant(s, Flatten(some), Flatten(others));
  }

  /** With one of its elements moved to the front, a batch stores that element for its id. */
  lemma FrontWins(s: Snapshot, x: Artifact, rest: seq<Artifact>)
    requires Valid(s) && !HasKey(ArtifactId, s.artifacts, x.id)
    ensures forall y | y in WithArtifacts(s, [x] + rest).artifacts && y.id == x.id :: y == x
    ensures x in WithArtifacts(s, [x] + rest).artifacts
  {
    var after := AddAllNew(ArtifactId, s.artifacts, [x] + rest);
    FrontKept(ArtifactId, s.artifacts, x, rest);
    SameElements(after, WithArtifacts(s, [x] + rest).artifacts);
    assert forall y | y in after && ArtifactId(y) == ArtifactId(x) :: y == x;
  }

  /** A batch is insensitive to the order of its inputs. */
  ghost predicate OrderInsensitive(s: Snapshot, xs: seq<Artifact>) {
    forall ys | multiset(ys) == multiset(xs) :: WithArtifacts(s, ys) == WithArtifacts(s, xs)
  }

  /** The condition is exact: conflicting new inputs can be told apart by reordering the batch. */
  lemma ConfluentExactlyWhenConsistent(s: Snapshot, xs: seq<Artifact>)
    requires Valid(s)
    ensures OrderInsensitive(s, xs) <==> Consistent(ArtifactId, s.artifacts, xs)
  {
    if Consistent(ArtifactId, s.artifacts, xs) {
      forall ys | multiset(ys) == multiset(xs)
        ensures WithArtifacts(s, ys) == WithArtifacts(s, xs)
      {
        SameElements(xs, ys);
        OrderIrrelevant(s, xs, ys);
      }
    }
    if OrderInsensitive(s, xs) {
      forall x, y | x in xs && y in xs && ArtifactId(x) == ArtifactId(y)
                    && !HasKey(ArtifactId, s.artifacts, ArtifactId(x))
        ensures x == y
      {
        var i :| 0 <= i < |xs| && xs[i] == x;
        var j :| 0 <= j < |xs| && xs[j] == y;
        MoveToFrontPermutes(xs, i);
        MoveToFrontPermutes(xs, j);
        FrontWins(s, x, xs[..i] + xs[i + 1..]);
        FrontWins(s, y, xs[..j] + xs[j + 1..]);
        assert WithArtifacts(s, MoveToFront(xs, i)) == WithArtifacts(s, MoveToFront(xs, j));
      }
    }
  }

  /** Two inputs that claim the id "a" for different kinds: the first one wins, so their order shows. */
  lemma ClaimedIdsConflict(h: Hashes, x: ArtifactInput, y: ArtifactInput)
    requires x == ArtifactInput(Document, map["id" := "a"]) && y == ArtifactInput(Account, map["id" := "a"])
    ensures UpsertArtifacts(h, EMPTY, [x, y]) != UpsertArtifacts(h, EMPTY, [y, x])
  {
    var a, b := ArtifactOf(h, x), ArtifactOf(h, y);
    assert ArtifactsOf(h, [x, y]) == [a] + [b] && ArtifactsOf(h, [y, x]) == [b] + [a];
    FrontWins(EMPTY, a, [b]);
    FrontWins(EMPTY, b, [a]);
  }

  /** Repeating a batch stores nothing and changes nothing. */
  lemma RepeatedArtifactBatch(s: Snapshot, xs: seq<Artifact>)
    requires Valid(s)
    ensures var once := WithArtifacts(s, xs);
            && AddAllNew(ArtifactId, once.artifacts, xs) == once.artifacts
            && WithArtifacts(once, xs) == once
  {
    var once := WithArtifacts(s, xs);
    WithArtifactsValid(s, xs);
    AddAllKeys(ArtifactId, s.artifacts, xs);
    DistinctPermuted(ArtifactId, AddAllNew(ArtifactId, s.artifacts, xs), once.artifacts);
    AddAllNothing(ArtifactId, once.artifacts, xs);
    SortIdempotent(once);
  }

  // ---------------------------------------------------------------------------------------------
  // Relations
  // ---------------------------------------------------------------------------------------------

  ghost predicate AllKnown(artifacts: seq<Artifact>, rs: seq<Relation>) {
    forall r | r in rs :: EndpointsKnown(artifacts, r)
  }

  /** A batch whose endpoints all exist succeeds, and conversely. */
  lemma KnownBatch(artifacts: seq<Artifact>, rs: seq<Relation>)
    ensures AllKnown(artifacts, rs) <==> KnownPrefix(artifacts, rs) == |rs|
  {
    var n := KnownPrefix(artifacts, rs);
    forall i | 0 <= i < |rs| && i <= n
      ensures EndpointsKnown(artifacts, rs[i]) <==> i < n
    {
      KnownPrefixStep(artifacts, rs, i);
    }
    if n < |rs| {
      assert rs[n] in rs;
    }
  }

  lemma SortedArtifactsKnow(s: Snapshot, rs: seq<Relation>)
    requires Valid(s)
    ensures AllKnown(s.artifacts, rs) <==> AllKnown(Sort(s).artifacts, rs)
  {
    DistinctPermuted(ArtifactId, s.artifacts, Sort(s).artifacts);
  }

  lemma SplitRelationUpsert(s: Snapshot, xs: seq<Relation>, ys: seq<Relation>)
    requires Valid(s) && AllKnown(s.artifacts, xs + ys)
    ensures WithRelations(WithRelations(s, xs), ys) == WithRelations(s, xs + ys)
    ensures AllKnown(WithRelations(s, xs).artifacts, ys)
  {
    assert AllKnown(s.artifacts, xs) && AllKnown(s.artifacts, ys) by {
      assert forall r | r in xs :: r in xs + ys;
      assert forall r | r in ys :: r in xs + ys;
    }
    KnownBatch(s.artifacts, xs);
    KnownBatch(s.artifacts, ys);
    KnownBatch(s.artifacts, xs + ys);
    assert xs[..|xs|] == xs && ys[..|ys|] == ys && (xs + ys)[..|xs + ys|] == xs + ys;
    var t := s.(relations := AddAllNew(RelationId, s.relations, xs));
    var u := Sort(t);
    AddAllKeys(RelationId, s.relations, xs);
    WithRelationsValid(s, xs);
    assert WithRelations(s, xs) == u;
    SameContentsValid(u, t);
    SortedArtifactsKnow(t, ys);
    KnownBatch(u.artifacts, ys);
    AddAllAppend(RelationId, s.relations, xs, ys);
    AddAllPermuted(RelationId, t.relations, u.relations, ys);
    var whole := t.(relations := AddAllNew(RelationId, t.relations, ys));
    WithRelationsValid(s, xs + ys);
    SortKeeps(whole);
    SameContentsValid(Sort(whole), whole);
    SortedFormCanonical(whole, u.(relations := AddAllNew(RelationId, u.relations, ys)));
  }

  lemma {:induction false} RelationBatchingIrrelevant(s: Snapshot, batches: seq<seq<Relation>>)
    requires Valid(s) && AllKnown(s.artifacts, Flatten(batches))
    requires batches != []
    ensures RelateBatches(s, batches) == WithRelations(s, Flatten(batches))
    decreases |batches|
  {
    if |batches| == 1 {
      assert Flatten(batches[1..]) == [];
      assert Flatten(batches) == batches[0];
    } else {
      WithRelationsValid(s, batches[0]);
      SplitRelationUpsert(s, batches[0], Flatten(batches[1..]));
      RelationBatchingIrrelevant(WithRelations(s, batches[0]), batches[1..]);
    }
  }

  /** Relations between known artifacts are confluent on the same condition. */
  lemma RelationUpsertsConfluent(s: Snapshot, some: seq<seq<Relation>>, others: seq<seq<Relation>>)
    requires Valid(s)
    requires some != [] && others != []
    requires AllKnown(s.artifacts, Flatten(some))
    requires Consistent(RelationId, s.relations, Flatten(some))
    requires forall z :: z in Flatten(some) <==> z in Flatten(others)
    ensures RelateBatches(s, some) == RelateBatches(s, others)
  {
    var xs, ys := Flatten(some), Flatten(others);
    RelationBatchingIrrelevant(s, some);
    RelationBatchingIrrelevant(s, others);
    KnownBatch(s.artifacts, xs);
    KnownBatch(s.artifacts, ys);
    assert xs[..|xs|] == xs && ys[..|ys|] == ys;
    AddAllConfluent(RelationId, s.relations, xs, ys);
    var t := s.(relations := AddAllNew(RelationId, s.relations, xs));
    WithRelationsValid(s, xs);
    SortKeeps(t);
    SameContentsValid(Sort(t), t);
    SortedFormCanonical(t, s.(relations := AddAllNew(RelationId, s.relations, ys)));
  }

  lemma RelationOrderIrrelevant(s: Snapshot, xs: seq<Relation>, ys: seq<Relation>)
    requires Valid(s) && AllKnown(s.artifacts, xs)
    requires Consistent(RelationId, s.relations, xs)
    requires forall z :: z in xs <==> z in ys
    ensures WithRelations(s, xs) == WithRelations(s, ys)
  {
    assert Flatten([xs][1..]) == [] && Flatten([ys][1..]) == [];
    assert Flatten([xs]) == xs && Flatten([ys]) == ys;
    RelationUpsertsConfluent(s, [xs], [ys]);
    assert RelateBatches(s, [xs]) == RelateBatches(WithRelations(s, xs), []);
    assert RelateBatches(s, [ys]) == RelateBatches(WithRelations(s, ys), []);
  }

  lemma FrontRelationWins(s: Snapshot, x: Relation, rest: seq<Relation>)
    requires Valid(s) && !HasKey(RelationId, s.relations, x.id)
    requires AllKnown(s.artifacts, [x] + rest)
    ensures forall y | y in WithRelations(s, [x] + rest).relations && y.id == x.id :: y == x
    ensures x in WithRelations(s, [x] + rest).relations
  {
    var xs := [x] + rest;
    var after := AddAllNew(RelationId, s.relations, xs);
    KnownBatch(s.artifacts, xs);
    assert xs[..|xs|] == xs;
    FrontKept(RelationId, s.relations, x, rest);
    SameElements(after, WithRelations(s, xs).relations);
    assert forall y | y in after && RelationId(y) == RelationId(x) :: y == x;
  }

  ghost predicate RelationOrderInsensitive(s: Snapshot, xs: seq<Relation>) {
    forall ys | multiset(ys) == multiset(xs) :: WithRelations(s, ys) == WithRelations(s, xs)
  }

  lemma MovedRelationWins(s: Snapshot, xs: seq<Relation>, x: Relation)
    requires Valid(s) && AllKnown(s.artifacts, xs) && RelationOrderInsensitive(s, xs)
    requires x in xs && !HasKey(RelationId, s.relations, x.id)
    ensures forall y | y in WithRelations(s, xs).relations && y.id == x.id :: y == x
    ensures x in WithRelations(s, xs).relations
  {
    var i :| 0 <= i < |xs| && xs[i] == x;
    MoveToFrontPermutes(xs, i);
    SameElements(xs, MoveToFront(xs, i));
    FrontRelationWins(s, x, xs[..i] + xs[i + 1..]);
  }

  lemma AcceptedConfluentExactly(s: Snapshot, xs: seq<Relation>)
    requires Valid(s) && AllKnown(s.artifacts, xs)
    ensures RelationOrderInsensitive(s, xs) <==> Consistent(RelationId, s.relations, xs)
  {
    if Consistent(RelationId, s.relations, xs) {
      forall ys | multiset(ys) == multiset(xs)
        ensures WithRelations(s, ys) == WithRelations(s, xs)
      {
        SameElements(xs, ys);
        RelationOrderIrrelevant(s, xs, ys);
      }
    }
    if RelationOrderInsensitive(s, xs) {
      forall x, y | x in xs && y in xs && RelationId(x) == RelationId(y)
                    && !HasKey(RelationId, s.relations, RelationId(x))
        ensures x == y
      {
        MovedRelationWins(s, xs, x);
        MovedRelationWins(s, xs, y);
      }
    }
  }

  /** Every relation between known artifacts is stored already. */
  ghost predicate KnownAreStored(s: Snapshot, xs: seq<Relation>) {
    forall x | x in xs && EndpointsKnown(s.artifacts, x) :: HasKey(RelationId, s.relations, x.id)
  }

  lemma NothingKept(s: Snapshot, ys: seq<Relation>)
    requires !AllKnown(s.artifacts, ys) && KnownAreStored(s, ys)
    ensures WithRelations(s, ys) == s
  {
    var n := KnownPrefix(s.artifacts, ys);
    KnownBatch(s.artifacts, ys);
    forall x | x in ys[..n]
      ensures HasKey(RelationId, s.relations, RelationId(x))
    {
      var i :| 0 <= i < n && ys[i] == x;
      KnownPrefixStep(s.artifacts, ys, i);
      assert x in ys;
    }
    AddAllNothing(RelationId, s.relations, ys[..n]);
  }

  /** A failing batch keeps a new relation with known endpoints that comes first. */
  lemma FrontOfFailing(s: Snapshot, x: Relation, rest: seq<Relation>)
    requires Valid(s) && !AllKnown(s.artifacts, [x] + rest)
    requires EndpointsKnown(s.artifacts, x) && !HasKey(RelationId, s.relations, x.id)
    ensures x in WithRelations(s, [x] + rest).relations
  {
    var ys := [x] + rest;
    var n := KnownPrefix(s.artifacts, ys);
    KnownBatch(s.artifacts, ys);
    KnownPrefixStep(s.artifacts, ys, 0);
    assert ys[..n] == [x] + rest[..n - 1];
    FrontKept(RelationId, s.relations, x, rest[..n - 1]);
  }

  /** A batch that starts with an unknown endpoint keeps nothing. */
  lemma UnknownFirst(s: Snapshot, u: Relation, rest: seq<Relation>)
    requires !EndpointsKnown(s.artifacts, u)
    ensures WithRelations(s, [u] + rest) == s
  {
    assert ([u] + rest)[..0] == [];
  }

  lemma UnstoredIsFelt(s: Snapshot, xs: seq<Relation>, x: Relation)
    requires Valid(s) && !AllKnown(s.artifacts, xs) && x in xs && EndpointsKnown(s.artifacts, x)
    requires !HasKey(RelationId, s.relations, x.id)
    ensures !RelationOrderInsensitive(s, xs)
  {
    var u :| u in xs && !EndpointsKnown(s.artifacts, u);
    var i :| 0 <= i < |xs| && xs[i] == x;
    var j :| 0 <= j < |xs| && xs[j] == u;
    MoveToFrontPermutes(xs, i);
    MoveToFrontPermutes(xs, j);
    SameElements(xs, MoveToFront(xs, i));
    SameElements(xs, MoveToFront(xs, j));
    FrontOfFailing(s, x, xs[..i] + xs[i + 1..]);
    UnknownFirst(s, u, xs[..j] + xs[j + 1..]);
    assert x !in s.relations;
    assert WithRelations(s, MoveToFront(xs, i)) != WithRelations(s, MoveToFront(xs, j));
  }

  /**
   A batch of relations is insensitive to its order exactly when its new relations with one id are equal, if all
   endpoints are known; if some endpoint is unknown, exactly when those with known endpoints are stored already.
   */
  lemma RelationsConfluentExactlyWhenConsistent(s: Snapshot, xs: seq<Relation>)
    requires Valid(s)
    ensures RelationOrderInsensitive(s, xs)
       <==> if AllKnown(s.artifacts, xs) then Consistent(RelationId, s.relations, xs) else KnownAreStored(s, xs)
  {
    if AllKnown(s.artifacts, xs) {
      AcceptedConfluentExactly(s, xs);
    } else if KnownAreStored(s, xs) {
      forall ys | multiset(ys) == multiset(xs)
        ensures WithRelations(s, ys) == WithRelations(s, xs)
      {
        SameElements(xs, ys);
        NothingKept(s, xs);
        NothingKept(s, ys);
      }
    } else {
      var x :| x in xs && EndpointsKnown(s.artifacts, x) && !HasKey(RelationId, s.relations, x.id);
      UnstoredIsFelt(s, xs, x);
    }
  }

  /** A new relation and one to an unknown artifact: the first is kept only when it comes first. */
  lemma UnknownEndpointShows(h: Hashes, s: Snapshot, known: RelationInput, unknown: RelationInput)
    requires Valid(s) && !HasKey(RelationId, s.relations, RelationOf(h, known).id)
    requires EndpointsKnown(s.artifacts, RelationOf(h, known)) && !EndpointsKnown(s.artifacts, RelationOf(h, unknown))
    ensures RelationOf(h, known) in UpsertRelations(h, s, [known, unknown]).relations
    ensures UpsertRelations(h, s, [unknown, known]) == s
  {
    var x, u := RelationOf(h, known), RelationOf(h, unknown);
    assert RelationsOf(h, [known, unknown]) == [x] + [u] && RelationsOf(h, [unknown, known]) == [u] + [x];
    assert u in [x] + [u];
    FrontOfFailing(s, x, [u]);
    UnknownFirst(s, u, [x]);
  }

  /** Repeating a successful batch of relations changes nothing. */
  lemma RepeatedRelationBatch(s: Snapshot, xs: seq<Relation>)
    requires Valid(s) && AllKnown(s.artifacts, xs)
    ensures var once := WithRelations(s, xs);
            && AddAllNew(RelationId, once.relations, xs) == once.relations
            && WithRelations(once, xs) == once
  {
    var once := WithRelations(s, xs);
    KnownBatch(s.artifacts, xs);
    assert xs[..|xs|] == xs;
    WithRelationsValid(s, xs);
    var t := s.(relations := AddAllNew(RelationId, s.relations, xs));
    AddAllKeys(RelationId, s.relations, xs);
    DistinctPermuted(RelationId, t.relations, once.relations);
    AddAllNothing(RelationId, once.relations, xs);
    SortedArtifactsKnow(s, xs);
    KnownBatch(once.artifacts, xs);
    SortIdempotent(once);
  }
}
