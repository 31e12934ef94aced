/** The ontology snapshot as the object that upserts change in place and queries read. */
module Ontology {
  import opened Results
  import opened Sorting
  import opened Keyed
  import opened OntologyModel
  import opened PathQuery

  datatype UpsertResult = UpsertResult(insertedCount: nat, ids: seq<string>)

  function ArtifactIds(h: Hashes, inputs: seq<ArtifactInput>): seq<string> {
    seq(|inputs|, i requires 0 <= i < |inputs| => ArtifactOf(h, inputs[i]).id)
  }

  function RelationIds(h: Hashes, inputs: seq<RelationInput>): seq<string> {
    seq(|inputs|, i requires 0 <= i < |inputs| => RelationOf(h, inputs[i]).id)
  }

  lemma TakeOneMore<T>(s: seq<T>, i: nat)
    requires i < |s|
    ensures s[..i + 1] == s[..i] + [s[i]]
  {
  }

  function IdSet(artifacts: seq<Artifact>): set<string> {
    if artifacts == [] then {} else {artifacts[0].id} + IdSet(artifacts[1..])
  }

  lemma {:induction false} KnownIds(artifacts: seq<Artifact>, id: string)
    ensures id in IdSet(artifacts) <==> HasKey(ArtifactId, artifacts, id)
  {
    if artifacts != [] {
      KnownIds(artifacts[1..], id);
      assert artifacts == [artifacts[0]] + artifacts[1..];
      HasKeyAppend(ArtifactId, [artifacts[0]], artifacts[1..], id);
      assert HasKey(ArtifactId, [artifacts[0]], id) <==> ArtifactId([artifacts[0]][0]) == id;
    }
  }

  class OntologySnapshot {
    const hashes: Hashes
    var artifacts: seq<Artifact>
    var relations: seq<Relation>

    ghost function Value(): Snapshot
      reads this
    {
      Snapshot(artifacts, relations)
    }

    constructor (hashes: Hashes)
      ensures Value() == EMPTY && this.hashes == hashes
    {
      this.hashes := hashes;
      artifacts, relations := [], [];
    }

    method SortDeterministic()
      modifies this
      ensures Value() == Sort(old(Value()))
    {
      artifacts := SortBy(ArtifactLeq, artifacts);
      relations := SortBy(RelationLeq, relations);
    }

    /** The body of the loop: stores the artifact, under its own id or its content hash, unless the id is taken. */
    method InsertArtifact(input: ArtifactInput) returns (id: string, inserted: nat)
      modifies this`artifacts
      ensures artifacts == AddNew(ArtifactId, old(artifacts), ArtifactOf(hashes, input))
      ensures id == ArtifactOf(hashes, input).id
      ensures inserted == |artifacts| - |old(artifacts)|
    {
      id := if "id" in input.attrs then input.attrs["id"] else hashes.artifact(input.kind, input.attrs);
      if HasKey(ArtifactId, artifacts, id) {
        return id, 0;
      }
      artifacts := artifacts + [Artifact(id, input.kind, input.attrs)];
      inserted := 1;
    }

    method UpsertArtifacts(inputs: seq<ArtifactInput>) returns (r: UpsertResult)
      modifies this
      ensures Value() == OntologyModel.UpsertArtifacts(hashes, old(Value()), inputs)
      ensures r.insertedCount == |artifacts| - |old(artifacts)|
      ensures r.ids == ArtifactIds(hashes, inputs)
    {
      ghost var all, allIds := ArtifactsOf(hashes, inputs), ArtifactIds(hashes, inputs);
      var insertedCount := 0;
      var ids := [];
      for i := 0 to |inputs|
        invariant relations == old(relations)
        invariant artifacts == AddAllNew(ArtifactId, old(artifacts), all[..i])
        invariant insertedCount == |artifacts| - |old(artifacts)|
        invariant ids == allIds[..i]
      {
        TakeOneMore(allIds, i);
        AddAllStep(ArtifactId, old(artifacts), all, i);
        var id, inserted := InsertArtifact(inputs[i]);
        ids := ids + [id];
        insertedCount := insertedCount + inserted;
      }
      assert all[..|inputs|] == all && allIds[..|inputs|] == allIds;
      SameElements(artifacts, SortBy(ArtifactLeq, artifacts));
      SortDeterministic();
      r := UpsertResult(insertedCount, ids);
    }

    /** The part of the loop after the endpoint check: stores the relation unless its id is taken. */
    method InsertRelation(input: RelationInput) returns (id: string, inserted: nat)
      modifies this`relations
      ensures relations == AddNew(RelationId, old(relations), RelationOf(hashes, input))
      ensures id == RelationOf(hashes, input).id
      ensures inserted == |relations| - |old(relations)|
    {
      id := hashes.relation(input.from, input.to, input.relation, input.provenance);
      if HasKey(RelationId, relations, id) {
        return id, 0;
      }
      relations := relations + [Relation(id, input.from, input.to, input.relation, input.provenance)];
      inserted := 1;
    }

    /** The loop over the inputs; it stops at the first input with an unknown endpoint. */
    method InsertKnown(inputs: seq<RelationInput>) returns (ids: seq<string>, insertedCount: nat)
      modifies this`relations
      ensures |ids| == KnownPrefix(artifacts, RelationsOf(hashes, inputs))
      ensures relations == AddAllNew(RelationId, old(relations), RelationsOf(hashes, inputs)[..|ids|])
      ensures insertedCount == |relations| - |old(relations)|
      ensures |ids| <= |inputs| && ids == RelationIds(hashes, inputs)[..|ids|]
    {
      ghost var all, allIds := RelationsOf(hashes, inputs), RelationIds(hashes, inputs);
      var knownIds := IdSet(artifacts);
      insertedCount := 0;
      ids := [];
      for i := 0 to |inputs|
        invariant i <= KnownPrefix(artifacts, all)
        invariant relations == AddAllNew(RelationId, old(relations), all[..i])
        invariant insertedCount == |relations| - |old(relations)|
        invariant ids == allIds[..i]
      {
        TakeOneMore(allIds, i);
        KnownIds(artifacts, inputs[i].from);
        KnownIds(artifacts, inputs[i].to);
        KnownPrefixStep(artifacts, all, i);
        if inputs[i].from !in knownIds || inputs[i].to !in knownIds {
          return;
        }
        AddAllStep(RelationId, old(relations), all, i);
        var id, inserted := InsertRelation(inputs[i]);
        ids := ids + [id];
        insertedCount := insertedCount + inserted;
      }
    }

    method UpsertRelations(inputs: seq<RelationInput>) returns (r: Result<UpsertResult, OntologyError>)
      modifies this
      ensures Value() == OntologyModel.UpsertRelations(hashes, old(Value()), inputs)
      ensures r.Ok? <==> KnownPrefix(old(artifacts), RelationsOf(hashes, inputs)) == |inputs|
      ensures r.Ok? ==>
                && r.value.insertedCount == |relations| - |old(relations)|
                && r.value.ids == RelationIds(hashes, inputs)
    {
      var ids, insertedCount := InsertKnown(inputs);
      if |ids| < |inputs| {
        return Err(MissingRef);
      }
      assert RelationsOf(hashes, inputs)[..|inputs|] == RelationsOf(hashes, inputs);
      assert RelationIds(hashes, inputs)[..|inputs|] == RelationIds(hashes, inputs);
      SameElements(relations, SortBy(RelationLeq, relations));
      SortDeterministic();
      r := Ok(UpsertResult(insertedCount, ids));
    }

    method IndexById() returns (lookup: map<string, Artifact>)
      ensures lookup == Lookup(artifacts)
    {
      lookup := map[];
      for i := 0 to |artifacts|
        invariant lookup == Lookup(artifacts[..i])
      {
        assert artifacts[..i + 1][..i] == artifacts[..i];
        lookup := lookup[artifacts[i].id := artifacts[i]];
      }
      assert artifacts[..|artifacts|] == artifacts;
    }

    /** The inner loop of the search: enqueues what `outgoing` reaches for the first time. */
    static method Follow(lookup: map<string, Artifact>, depth: nat, outgoing: seq<Relation>, before: Search)
      returns (st: Search)
      ensures st == VisitAll(lookup, depth, outgoing, before)
    {
      st := before;
      for i := 0 to |outgoing|
        invariant VisitAll(lookup, depth, outgoing[i..], st) == VisitAll(lookup, depth, outgoing, before)
      {
        var rel := outgoing[i];
        assert outgoing[i..][1..] == outgoing[i + 1..];
        if rel.to in st.visited {
          continue;
        }
        if rel.to in lookup {
          st := Search(st.queue + [(rel.to, depth + 1)], st.visited + {rel.to}, st.artifacts + [lookup[rel.to]],
                       st.relations + [rel], st.depths + [depth + 1]);
        }
      }
      assert outgoing[|outgoing|..] == [];
    }

    method QueryPath(from: string, maxDepth: Option<nat>) returns (r: Result<PathResult, OntologyError>)
      ensures r == Query(Value(), from, maxDepth)
    {
      var lookup := IndexById();
      if from !in lookup {
        return Err(MissingRef);
      }
      LookupFinds(artifacts, from);
      var depthLimit := maxDepth.GetOr(USIZE_MAX);
      var st := Search([(from, 0)], {from}, [lookup[from]], [], [0]);
      while st.queue != []
        invariant Complete(lookup, relations, depthLimit, st)
               == Complete(lookup, relations, depthLimit, Start(lookup[from]))
        decreases Work(lookup, st)
      {
        AdvanceWork(lookup, relations, depthLimit, st);
        var (current, depth) := st.queue[0];
        st := st.(queue := st.queue[1..]);
        if depth >= depthLimit {
          continue;
        }
        st := Follow(lookup, depth, SortBy(StepLeq, Leaving(relations, current)), st);
      }
      r := Ok(PathResult(st.artifacts, st.relations));
    }
  }
}
