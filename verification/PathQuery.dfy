/** The depth-limited breadth-first query: exact, a shortest-path tree, and independent of the arrangement. */
module PathQuery {
  import opened Results
  import opened Sorting
  import opened Keyed
  import opened OntologyModel

  const USIZE_MAX: nat := 0xFFFF_FFFF_FFFF_FFFF

  datatype PathResult = PathResult(artifacts: seq<Artifact>, relations: seq<Relation>)

  /** The id index; with repeated ids the last artifact is the one that is found. */
  function Lookup(artifacts: seq<Artifact>): map<string, Artifact> {
    if artifacts == [] then map[]
    else
      var last := artifacts[|artifacts| - 1];
      Lookup(artifacts[..|artifacts| - 1])[last.id := last]
  }

  predicate StepLeq(a: Relation, b: Relation) {
    TupleLeq([a.relation, a.to, a.id], [b.relation, b.to, b.id])
  }

  function Leaving(relations: seq<Relation>, id: string): seq<Relation> {
    if relations == [] then []
    else (if relations[0].from == id then [relations[0]] else []) + Leaving(relations[1..], id)
  }

  /** The relations leaving `id`, in the order in which they are followed. */
  function Outgoing(relations: seq<Relation>, id: string): seq<Relation> {
    SortBy(StepLeq, Leaving(relations, id))
  }

  /** The state of the search. `depths[i]` is the depth at which `artifacts[i]` was enqueued. */
  datatype Search = Search(
    queue: seq<(string, nat)>,
    visited: set<string>,
    artifacts: seq<Artifact>,
    relations: seq<Relation>,
    depths: seq<nat>)

  function Start(start: Artifact): Search {
    Search([(start.id, 0)], {start.id}, [start], [], [0])
  }

  function Visit(lookup: map<string, Artifact>, depth: nat, rel: Relation, st: Search): Search {
    if rel.to in st.visited || rel.to !in lookup then st
    else Search(st.queue + [(rel.to, depth + 1)], st.visited + {rel.to}, st.artifacts + [lookup[rel.to]],
                st.relations + [rel], st.depths + [depth + 1])
  }

  function VisitAll(lookup: map<string, Artifact>, depth: nat, rels: seq<Relation>, st: Search): Search
    decreases |rels|
  {
    if rels == [] then st else VisitAll(lookup, depth, rels[1..], Visit(lookup, depth, rels[0], st))
  }

  /** Handles the head of the queue. */
  function Advance(lookup: map<string, Artifact>, relations: seq<Relation>, limit: nat, st: Search): Search
    requires st.queue != []
  {
    var (id, depth) := st.queue[0];
    var popped := st.(queue := st.queue[1..]);
    if depth >= limit then popped else VisitAll(lookup, depth, Outgoing(relations, id), popped)
  }

  /** What is left to do: ids not yet seen and ids waiting. Visiting moves work, popping does it. */
  ghost function Work(lookup: map<string, Artifact>, st: Search): nat {
    |lookup.Keys - st.visited| + |st.queue|
  }

  lemma VisitWork(lookup: map<string, Artifact>, depth: nat, rel: Relation, st: Search)
    ensures Work(lookup, Visit(lookup, depth, rel, st)) == Work(lookup, st)
  {
    if rel.to in lookup && rel.to !in st.visited {
      assert lookup.Keys - st.visited == (lookup.Keys - (st.visited + {rel.to})) + {rel.to};
    }
  }

  lemma {:induction false} VisitAllWork(lookup: map<string, Artifact>, depth: nat, rels: seq<Relation>, st: Search)
    ensures Work(lookup, VisitAll(lookup, depth, rels, st)) == Work(lookup, st)
    decreases |rels|
  {
    if rels != [] {
      VisitWork(lookup, depth, rels[0], st);
      VisitAllWork(lookup, depth, rels[1..], Visit(lookup, depth, rels[0], st));
    }
  }

  lemma AdvanceWork(lookup: map<string, Artifact>, relations: seq<Relation>, limit: nat, st: Search)
    requires st.queue != []
    ensures Work(lookup, Advance(lookup, relations, limit, st)) < Work(lookup, st)
  {
    var (id, depth) := st.queue[0];
    VisitAllWork(lookup, depth, Outgoing(relations, id), st.(queue := st.queue[1..]));
  }

  function Complete(lookup: map<string, Artifact>, relations: seq<Relation>, limit: nat, st: Search): Search
    decreases Work(lookup, st)
  {
    if st.queue == [] then st
    else
      AdvanceWork(lookup, relations, limit, st);
      Complete(lookup, relations, limit, Advance(lookup, relations, limit, st))
  }

  function Query(s: Snapshot, from: string, maxDepth: Option<nat>): Result<PathResult, OntologyError> {
    var lookup := Lookup(s.artifacts);
    if from !in lookup then Err(MissingRef)
    else
      var done := Complete(lookup, s.relations, maxDepth.GetOr(USIZE_MAX), Start(lookup[from]));
      Ok(PathResult(done.artifacts, done.relations))
  }

  // ---------------------------------------------------------------------------------------------
  // Walks: the independent definition of what a query should find
  // ---------------------------------------------------------------------------------------------

  /** `w` leads from `start` to `end` along stored relations whose targets are stored artifacts. */
  ghost predicate IsWalk(s: Snapshot, start: string, w: seq<Relation>, end: string) {
    if w == [] then start == end
    else
      var last := w[|w| - 1];
      && last in s.relations
      && last.to == end
      && HasKey(ArtifactId, s.artifacts, end)
      && IsWalk(s, start, w[..|w| - 1], last.from)
  }

  ghost predicate Within(s: Snapshot, start: string, end: string, n: nat) {
    exists w :: IsWalk(s, start, w, end) && |w| <= n
  }

  ghost predicate Reachable(s: Snapshot, start: string, end: string) {
    exists w :: IsWalk(s, start, w, end)
  }

  ghost predicate IsDistance(s: Snapshot, start: string, end: string, d: nat) {
    && (exists w :: IsWalk(s, start, w, end) && |w| == d)
    && (forall w | IsWalk(s, start, w, end) :: d <= |w|)
  }

  // ---------------------------------------------------------------------------------------------
  // The search invariant
  // ---------------------------------------------------------------------------------------------

  lemma {:induction false} LookupFinds(artifacts: seq<Artifact>, id: string)
    ensures id in Lookup(artifacts) <==> HasKey(ArtifactId, artifacts, id)
    ensures id in Lookup(artifacts) ==> Lookup(artifacts)[id] in artifacts && Lookup(artifacts)[id].id == id
  {
    if artifacts != [] {
      var front, last := artifacts[..|artifacts| - 1], artifacts[|artifacts| - 1];
      LookupFinds(front, id);
      assert artifacts == front + [last];
      HasKeyAppend(ArtifactId, front, [last], id);
      assert HasKey(ArtifactId, [last], id) <==> ArtifactId([last][0]) == id;
    }
  }

  lemma {:induction false} LeavingMembers(relations: seq<Relation>, id: string, r: Relation)
    ensures r in Leaving(relations, id) <==> r in relations && r.from == id
  {
    if relations != [] {
      LeavingMembers(relations[1..], id, r);
      assert relations == [relations[0]] + relations[1..];
    }
  }

  lemma OutgoingMembers(relations: seq<Relation>, id: string, r: Relation)
    ensures r in Outgoing(relations, id) <==> r in relations && r.from == id
  {
    LeavingMembers(relations, id, r);
    SameElements(Outgoing(relations, id), Leaving(relations, id));
  }

  /** `id` has been found at depth `d` or less. */
  ghost predicate Found(st: Search, id: string, d: int) {
    exists j :: 0 <= j < |st.artifacts| && j < |st.depths| && st.artifacts[j].id == id && st.depths[j] <= d
  }

  ghost predicate TreeEdge(relations: seq<Relation>, st: Search, i: nat)
    requires |st.depths| == |st.artifacts| == |st.relations| + 1
    requires i < |st.relations|
  {
    && st.relations[i] in relations
    && st.relations[i].to == st.artifacts[i + 1].id
    && exists j :: 0 <= j <= i && st.artifacts[j].id == st.relations[i].from && st.depths[j] + 1 == st.depths[i + 1]
  }

  /** The queue is the unprocessed tail of the artifacts found so far. */
  ghost predicate QueueIsTail(st: Search) {
    && |st.queue| <= |st.artifacts| == |st.depths|
    && forall i | 0 <= i < |st.queue| ::
         var c := |st.artifacts| - |st.queue| + i;
         st.queue[i] == (st.artifacts[c].id, st.depths[c])
  }

  /** Every artifact found is listed once, under an id that counts as visited. */
  ghost predicate Listed(lookup: map<string, Artifact>, st: Search) {
    && (forall id :: id in st.visited <==> HasKey(ArtifactId, st.artifacts, id))
    && DistinctKeys(ArtifactId, st.artifacts)
    && (forall i | 0 <= i < |st.artifacts| ::
        st.artifacts[i].id in lookup && lookup[st.artifacts[i].id] == st.artifacts[i])
  }

  /** Artifacts are found layer by layer, from the start down to the limit. */
  ghost predicate Layered(start: string, limit: nat, st: Search) {
    && 0 < |st.artifacts| == |st.depths|
    && st.artifacts[0].id == start && st.depths[0] == 0
    && (forall i, j | 0 <= i < j < |st.depths| :: st.depths[i] <= st.depths[j])
    && (forall i | 0 <= i < |st.depths| :: st.depths[i] <= limit)
  }

  ghost predicate IsTree(relations: seq<Relation>, st: Search) {
    && |st.depths| == |st.artifacts| == |st.relations| + 1
    && forall i | 0 <= i < |st.relations| :: TreeEdge(relations, st, i)
  }

  ghost predicate Core(lookup: map<string, Artifact>, relations: seq<Relation>, start: string, limit: nat, st: Search) {
    QueueIsTail(st) && Listed(lookup, st) && Layered(start, limit, st) && IsTree(relations, st)
  }

  /** Everything one relation away from `artifacts[i]` has been found one level deeper at most. */
  ghost predicate ClosedAt(lookup: map<string, Artifact>, relations: seq<Relation>, st: Search, i: nat)
    requires i < |st.artifacts| == |st.depths|
  {
    forall r | r in relations && r.from == st.artifacts[i].id && r.to in lookup :: Found(st, r.to, st.depths[i] + 1)
  }

  ghost predicate Shallow(st: Search, d: int) {
    forall i | 0 <= i < |st.depths| :: st.depths[i] <= d
  }

  /** The first `n` artifacts are closed, save those at the limit. */
  ghost predicate ClosedBelow(lookup: map<string, Artifact>, relations: seq<Relation>, limit: nat, st: Search, n: nat)
    requires n <= |st.artifacts| == |st.depths|
  {
    forall i | 0 <= i < n && st.depths[i] < limit :: ClosedAt(lookup, relations, st, i)
  }

  /** The invariant between two iterations. */
  ghost predicate Inv(lookup: map<string, Artifact>, relations: seq<Relation>, start: string, limit: nat, st: Search) {
    && Core(lookup, relations, start, limit, st)
    && (st.queue != [] ==> Shallow(st, st.queue[0].1 + 1))
    && ClosedBelow(lookup, relations, limit, st, |st.artifacts| - |st.queue|)
  }

  ghost predicate Extends(st: Search, later: Search) {
    st.artifacts <= later.artifacts && st.depths <= later.depths
  }

  lemma FoundStays(st: Search, later: Search, id: string, d: int)
    requires Extends(st, later) && Found(st, id, d)
    ensures Found(later, id, d)
  {
    var j :| 0 <= j < |st.artifacts| && j < |st.depths| && st.artifacts[j].id == id && st.depths[j] <= d;
    assert later.artifacts[j].id == id && later.depths[j] <= d;
  }

  lemma AllClosedStay(lookup: map<string, Artifact>, relations: seq<Relation>, limit: nat, st: Search, later: Search,
                      c: nat)
    requires c <= |st.artifacts| == |st.depths| && |later.artifacts| == |later.depths| && Extends(st, later)
    requires ClosedBelow(lookup, relations, limit, st, c)
    ensures ClosedBelow(lookup, relations, limit, later, c)
  {
    forall i | 0 <= i < c && later.depths[i] < limit
      ensures ClosedAt(lookup, relations, later, i)
    {
      assert st.depths[i] == later.depths[i];
    }
  }

  /** A relation leaving `artifacts[c]`, whose depth is within one of the deepest, may be followed. */
  ghost predicate MayFollow(relations: seq<Relation>, st: Search, c: nat, rel: Relation) {
    && c < |st.artifacts| == |st.depths|
    && rel in relations && rel.from == st.artifacts[c].id
    && Shallow(st, st.depths[c] + 1)
  }

  lemma VisitKeepsListed(lookup: map<string, Artifact>, depth: nat, rel: Relation, st: Search)
    requires forall id | id in lookup :: lookup[id].id == id
    requires Listed(lookup, st)
    ensures Listed(lookup, Visit(lookup, depth, rel, st))
  {
    var r := Visit(lookup, depth, rel, st);
    if rel.to in lookup && rel.to !in st.visited {
      assert !HasKey(ArtifactId, st.artifacts, rel.to);
      forall id
        ensures id in r.visited <==> HasKey(ArtifactId, r.artifacts, id)
      {
        HasKeyAppend(ArtifactId, st.artifacts, [lookup[rel.to]], id);
        assert HasKey(ArtifactId, [lookup[rel.to]], id) <==> ArtifactId([lookup[rel.to]][0]) == id;
      }
    }
  }

  lemma VisitKeepsTree(lookup: map<string, Artifact>, relations: seq<Relation>, st: Search, c: nat, rel: Relation)
    requires forall id | id in lookup :: lookup[id].id == id
    requires IsTree(relations, st) && MayFollow(relations, st, c, rel)
    ensures IsTree(relations, Visit(lookup, st.depths[c], rel, st))
  {
    var r := Visit(lookup, st.depths[c], rel, st);
    if rel.to in lookup && rel.to !in st.visited {
      forall i | 0 <= i < |r.relations|
        ensures TreeEdge(relations, r, i)
      {
        if i < |st.relations| {
          assert TreeEdge(relations, st, i);
          var j :| 0 <= j <= i && st.artifacts[j].id == st.relations[i].from && st.depths[j] + 1 == st.depths[i + 1];
          assert r.artifacts[j].id == r.relations[i].from && r.depths[j] + 1 == r.depths[i + 1];
        } else {
          assert r.artifacts[c].id == r.relations[i].from && r.depths[c] + 1 == r.depths[i + 1];
        }
      }
    }
  }

  lemma VisitFinds(lookup: map<string, Artifact>, relations: seq<Relation>, st: Search, c: nat, rel: Relation)
    requires forall id | id in lookup :: lookup[id].id == id
    requires Listed(lookup, st) && MayFollow(relations, st, c, rel) && rel.to in lookup
    ensures Found(Visit(lookup, st.depths[c], rel, st), rel.to, st.depths[c] + 1)
  {
    var r := Visit(lookup, st.depths[c], rel, st);
    if rel.to !in st.visited {
      var n := |st.artifacts|;
      assert r.artifacts[n].id == rel.to && r.depths[n] <= st.depths[c] + 1;
    } else {
      var j :| 0 <= j < |st.artifacts| && ArtifactId(st.artifacts[j]) == rel.to;
      assert st.artifacts[j].id == rel.to && st.depths[j] <= st.depths[c] + 1;
    }
  }

  lemma VisitKeepsCore(lookup: map<string, Artifact>, relations: seq<Relation>, start: string, limit: nat,
                       st: Search, c: nat, rel: Relation)
    requires forall id | id in lookup :: lookup[id].id == id
    requires Core(lookup, relations, start, limit, st)
    requires MayFollow(relations, st, c, rel) && st.depths[c] < limit
    ensures var r := Visit(lookup, st.depths[c], rel, st);
            && Core(lookup, relations, start, limit, r)
            && Extends(st, r)
            && Shallow(r, st.depths[c] + 1)
            && |r.artifacts| - |r.queue| == |st.artifacts| - |st.queue|
  {
    VisitKeepsListed(lookup, st.depths[c], rel, st);
    VisitKeepsTree(lookup, relations, st, c, rel);
  }

  lemma {:induction false} VisitAllKeepsCore(lookup: map<string, Artifact>, relations: seq<Relation>, start: string,
                                             limit: nat, st: Search, c: nat, depth: nat, rels: seq<Relation>)
    requires forall id | id in lookup :: lookup[id].id == id
    requires Core(lookup, relations, start, limit, st)
    requires c < |st.artifacts| && st.depths[c] == depth < limit && Shallow(st, depth + 1)
    requires forall rel | rel in rels :: rel in relations && rel.from == st.artifacts[c].id
    ensures var r := VisitAll(lookup, depth, rels, st);
            && Core(lookup, relations, start, limit, r)
            && Extends(st, r)
            && Shallow(r, depth + 1)
            && (forall rel | rel in rels && rel.to in lookup :: Found(r, rel.to, depth + 1))
            && |r.artifacts| - |r.queue| == |st.artifacts| - |st.queue|
    decreases |rels|
  {
    if rels != [] {
      var next := Visit(lookup, depth, rels[0], st);
      assert rels[0] in rels && forall rel | rel in rels[1..] :: rel in rels;
      VisitKeepsCore(lookup, relations, start, limit, st, c, rels[0]);
      assert next.depths[c] == st.depths[c] && next.artifacts[c] == st.artifacts[c];
      VisitAllKeepsCore(lookup, relations, start, limit, next, c, depth, rels[1..]);
      if rels[0].to in lookup {
        VisitFinds(lookup, relations, st, c, rels[0]);
        FoundStays(next, VisitAll(lookup, depth, rels, st), rels[0].to, depth + 1);
      }
      assert forall rel | rel in rels :: rel == rels[0] || rel in rels[1..];
    }
  }

  lemma PopKeepsCore(lookup: map<string, Artifact>, relations: seq<Relation>, start: string, limit: nat, st: Search)
    requires Core(lookup, relations, start, limit, st) && st.queue != []
    ensures Core(lookup, relations, start, limit, st.(queue := st.queue[1..]))
  {
    var popped := st.(queue := st.queue[1..]);
    forall i | 0 <= i < |popped.relations|
      ensures TreeEdge(relations, popped, i)
    {
      assert TreeEdge(relations, st, i);
    }
  }

  /** Handling the head, which is `artifacts[c]`, closes it and nothing else is processed. */
  lemma AdvanceCloses(lookup: map<string, Artifact>, relations: seq<Relation>, start: string, limit: nat, st: Search,
                      c: nat)
    requires forall id | id in lookup :: lookup[id].id == id
    requires Inv(lookup, relations, start, limit, st) && st.queue != []
    requires c == |st.artifacts| - |st.queue|
    ensures var r := Advance(lookup, relations, limit, st);
            && Core(lookup, relations, start, limit, r)
            && Extends(st, r)
            && |r.artifacts| - |r.queue| == c + 1
            && Shallow(r, st.depths[c] + 1)
            && (r.depths[c] < limit ==> ClosedAt(lookup, relations, r, c))
  {
    var (id, depth) := st.queue[0];
    assert id == st.artifacts[c].id && depth == st.depths[c];
    var popped := st.(queue := st.queue[1..]);
    PopKeepsCore(lookup, relations, start, limit, st);
    if depth < limit {
      forall rel
        ensures rel in Outgoing(relations, id) <==> rel in relations && rel.from == id
      {
        OutgoingMembers(relations, id, rel);
      }
      VisitAllKeepsCore(lookup, relations, start, limit, popped, c, depth, Outgoing(relations, id));
    }
  }

  /** One more artifact closed, and what is queued lies within a layer of the next. */
  lemma InvAfter(lookup: map<string, Artifact>, relations: seq<Relation>, start: string, limit: nat, r: Search, c: nat)
    requires Core(lookup, relations, start, limit, r)
    requires |r.artifacts| - |r.queue| == c + 1 && Shallow(r, r.depths[c] + 1)
    requires ClosedBelow(lookup, relations, limit, r, c)
    requires r.depths[c] < limit ==> ClosedAt(lookup, relations, r, c)
    ensures Inv(lookup, relations, start, limit, r)
  {
    assert r.queue != [] ==> r.queue[0].1 == r.depths[c + 1];
  }

  lemma AdvanceKeepsInv(lookup: map<string, Artifact>, relations: seq<Relation>, start: string, limit: nat, st: Search)
    requires forall id | id in lookup :: lookup[id].id == id
    requires Inv(lookup, relations, start, limit, st) && st.queue != []
    ensures Inv(lookup, relations, start, limit, Advance(lookup, relations, limit, st))
  {
    var c := |st.artifacts| - |st.queue|;
    var r := Advance(lookup, relations, limit, st);
    AdvanceCloses(lookup, relations, start, limit, st, c);
    AllClosedStay(lookup, relations, limit, st, r, c);
    InvAfter(lookup, relations, start, limit, r, c);
  }

  lemma {:induction false} CompleteKeepsInv(lookup: map<string, Artifact>, relations: seq<Relation>, start: string,
                                            limit: nat, st: Search)
    requires forall id | id in lookup :: lookup[id].id == id
    requires Inv(lookup, relations, start, limit, st)
    ensures var r := Complete(lookup, relations, limit, st);
            Inv(lookup, relations, start, limit, r) && r.queue == []
    decreases Work(lookup, st)
  {
    if st.queue != [] {
      AdvanceWork(lookup, relations, limit, st);
      AdvanceKeepsInv(lookup, relations, start, limit, st);
      CompleteKeepsInv(lookup, relations, start, limit, Advance(lookup, relations, limit, st));
    }
  }

  lemma StartKeepsInv(lookup: map<string, Artifact>, relations: seq<Relation>, from: string, limit: nat)
    requires from in lookup && lookup[from].id == from
    ensures Inv(lookup, relations, from, limit, Start(lookup[from]))
  {
    var start := Start(lookup[from]);
    assert forall id :: HasKey(ArtifactId, start.artifacts, id) <==> ArtifactId(start.artifacts[0]) == id;
  }

  /** The finished search of a query, with its invariant. */
  lemma QuerySearch(s: Snapshot, from: string, maxDepth: Option<nat>) returns (done: Search)
    requires HasKey(ArtifactId, s.artifacts, from)
    ensures from in Lookup(s.artifacts)
    ensures done == Complete(Lookup(s.artifacts), s.relations, maxDepth.GetOr(USIZE_MAX),
                             Start(Lookup(s.artifacts)[from]))
    ensures Query(s, from, maxDepth) == Ok(PathResult(done.artifacts, done.relations))
    ensures done.queue == []
    ensures Inv(Lookup(s.artifacts), s.relations, from, maxDepth.GetOr(USIZE_MAX), done)
  {
    var lookup, limit := Lookup(s.artifacts), maxDepth.GetOr(USIZE_MAX);
    LookupFinds(s.artifacts, from);
    forall id | id in lookup
      ensures lookup[id].id == id
    {
      LookupFinds(s.artifacts, id);
    }
    StartKeepsInv(lookup, s.relations, from, limit);
    CompleteKeepsInv(lookup, s.relations, from, limit, Start(lookup[from]));
    done := Complete(lookup, s.relations, limit, Start(lookup[from]));
  }

  // ---------------------------------------------------------------------------------------------
  // Exactness
  // ---------------------------------------------------------------------------------------------

  /** What one relation leads to from a closed artifact is found one level deeper at most. */
  lemma FoundNext(lookup: map<string, Artifact>, relations: seq<Relation>, st: Search, j: nat, r: Relation, d: int)
    requires j < |st.artifacts| == |st.depths| && st.depths[j] <= d
    requires ClosedAt(lookup, relations, st, j)
    requires r in relations && r.from == st.artifacts[j].id && r.to in lookup
    ensures Found(st, r.to, d + 1)
  {
    var k :| 0 <= k < |st.artifacts| && k < |st.depths| && st.artifacts[k].id == r.to
        && st.depths[k] <= st.depths[j] + 1;
  }

  /** A walk whose inner nodes are not at the limit ends at something found no deeper than its length. */
  lemma {:induction false} WalkFound(s: Snapshot, from: string, limit: nat, done: Search, w: seq<Relation>, end: string)
    requires Inv(Lookup(s.artifacts), s.relations, from, limit, done) && done.queue == []
    requires IsWalk(s, from, w, end)
    requires |w| <= limit || (forall i | 0 <= i < |done.depths| :: done.depths[i] < limit)
    ensures Found(done, end, |w|)
  {
    if w == [] {
      assert done.artifacts[0].id == end && done.depths[0] <= |w|;
    } else {
      var last := w[|w| - 1];
      WalkFound(s, from, limit, done, w[..|w| - 1], last.from);
      var j :| 0 <= j < |done.artifacts| && j < |done.depths| && done.artifacts[j].id == last.from
          && done.depths[j] <= |w| - 1;
      LookupFinds(s.artifacts, end);
      assert ClosedAt(Lookup(s.artifacts), s.relations, done, j);
      FoundNext(Lookup(s.artifacts), s.relations, done, j, last, |w| - 1);
    }
  }

  /** The tree path to `artifacts[i]` is a walk of length `depths[i]`. */
  lemma {:induction false} TreeWalk(s: Snapshot, from: string, limit: nat, done: Search, i: nat)
    returns (w: seq<Relation>)
    requires Core(Lookup(s.artifacts), s.relations, from, limit, done)
    requires i < |done.artifacts|
    ensures IsWalk(s, from, w, done.artifacts[i].id) && |w| == done.depths[i]
  {
    if i == 0 {
      w := [];
    } else {
      var r := done.relations[i - 1];
      assert TreeEdge(s.relations, done, i - 1);
      var j :| 0 <= j <= i - 1 && done.artifacts[j].id == r.from && done.depths[j] + 1 == done.depths[i];
      var front := TreeWalk(s, from, limit, done, j);
      w := front + [r];
      assert w[..|w| - 1] == front;
      LookupFinds(s.artifacts, done.artifacts[i].id);
    }
  }

  /** Each artifact was enqueued at its distance from the start. */
  lemma DepthIsDistance(s: Snapshot, from: string, limit: nat, done: Search, i: nat)
    requires Inv(Lookup(s.artifacts), s.relations, from, limit, done) && done.queue == []
    requires i < |done.artifacts|
    ensures IsDistance(s, from, done.artifacts[i].id, done.depths[i])
  {
    var tree := TreeWalk(s, from, limit, done, i);
    forall w | IsWalk(s, from, w, done.artifacts[i].id)
      ensures done.depths[i] <= |w|
    {
      if |w| <= limit {
        WalkFound(s, from, limit, done, w, done.artifacts[i].id);
        var j :| 0 <= j < |done.artifacts| && j < |done.depths| && done.artifacts[j].id == done.artifacts[i].id
            && done.depths[j] <= |w|;
        assert ArtifactId(done.artifacts[i]) == ArtifactId(done.artifacts[j]);
      }
    }
  }

  /**
   A query fails only on an unknown start. Otherwise it returns, once each, exactly the artifacts
   that some walk within the depth limit leads to. Without a limit of the caller's it is that of 64 bits.
   */
  lemma QueryExact(s: Snapshot, from: string, maxDepth: Option<nat>)
    ensures Query(s, from, maxDepth).Err? <==> !HasKey(ArtifactId, s.artifacts, from)
    ensures Query(s, from, maxDepth).Ok? ==>
              var found := Query(s, from, maxDepth).value.artifacts;
              && DistinctKeys(ArtifactId, found)
              && (forall a | a in found :: a in s.artifacts)
              && (forall id :: HasKey(ArtifactId, found, id)
                         <==> Within(s, from, id, if maxDepth.Some? then maxDepth.value else 0xFFFF_FFFF_FFFF_FFFF))
  {
    LookupFinds(s.artifacts, from);
    if HasKey(ArtifactId, s.artifacts, from) {
      var limit := maxDepth.GetOr(USIZE_MAX);
      var done := QuerySearch(s, from, maxDepth);
      forall a | a in done.artifacts
        ensures a in s.artifacts
      {
        LookupFinds(s.artifacts, a.id);
      }
      forall id
        ensures HasKey(ArtifactId, done.artifacts, id) <==> Within(s, from, id, limit)
      {
        if HasKey(ArtifactId, done.artifacts, id) {
          var i :| 0 <= i < |done.artifacts| && ArtifactId(done.artifacts[i]) == id;
          var w := TreeWalk(s, from, limit, done, i);
        }
        if Within(s, from, id, limit) {
          var w :| IsWalk(s, from, w, id) && |w| <= limit;
          WalkFound(s, from, limit, done, w, id);
          var j :| 0 <= j < |done.artifacts| && j < |done.depths| && done.artifacts[j].id == id
              && done.depths[j] <= |w|;
          assert ArtifactId(done.artifacts[j]) == id;
        }
      }
    }
  }

  /**
   `relations[i]` is a stored relation that leads from an earlier artifact, one step nearer, to
   `artifacts[i + 1]`.
   */
  ghost predicate Attaches(s: Snapshot, r: PathResult, depths: seq<nat>, i: nat)
    requires |depths| == |r.artifacts| == |r.relations| + 1 && i < |r.relations|
  {
    && r.relations[i] in s.relations
    && r.relations[i].to == r.artifacts[i + 1].id
    && exists j :: 0 <= j <= i && r.artifacts[j].id == r.relations[i].from && depths[j] + 1 == depths[i + 1]
  }

  /** `r` is a breadth-first spanning tree of its artifacts, `depths` their distances. */
  ghost predicate SpanningTree(s: Snapshot, from: string, r: PathResult, depths: seq<nat>) {
    && |depths| == |r.artifacts| == |r.relations| + 1
    && r.artifacts[0].id == from
    && (forall i | 0 <= i < |depths| :: IsDistance(s, from, r.artifacts[i].id, depths[i]))
    && (forall i, j | 0 <= i < j < |depths| :: depths[i] <= depths[j])
    && (forall i | 0 <= i < |r.relations| :: Attaches(s, r, depths, i))
  }

  /** The answer lists its artifacts by non-decreasing distance, attached by a shortest-path tree. */
  lemma QueryTree(s: Snapshot, from: string, maxDepth: Option<nat>) returns (depths: seq<nat>)
    requires HasKey(ArtifactId, s.artifacts, from)
    ensures Query(s, from, maxDepth).Ok?
    ensures SpanningTree(s, from, Query(s, from, maxDepth).value, depths)
  {
    var done := QuerySearch(s, from, maxDepth);
    depths := done.depths;
    var r := Query(s, from, maxDepth).value;
    forall i | 0 <= i < |depths|
      ensures IsDistance(s, from, r.artifacts[i].id, depths[i])
    {
      DepthIsDistance(s, from, maxDepth.GetOr(USIZE_MAX), done, i);
    }
    forall i | 0 <= i < |r.relations|
      ensures Attaches(s, r, depths, i)
    {
      assert TreeEdge(s.relations, done, i);
    }
  }

  // ---------------------------------------------------------------------------------------------
  // A query without a depth reaches everything
  // ---------------------------------------------------------------------------------------------

  lemma {:induction false} LookupSmall(artifacts: seq<Artifact>)
    ensures |Lookup(artifacts).Keys| <= |artifacts|
  {
    if artifacts != [] {
      var last := artifacts[|artifacts| - 1];
      LookupSmall(artifacts[..|artifacts| - 1]);
      assert Lookup(artifacts).Keys == Lookup(artifacts[..|artifacts| - 1]).Keys + {last.id};
    }
  }

  lemma {:induction false} DistinctIdsFit(artifacts: seq<Artifact>, ids: set<string>)
    requires DistinctKeys(ArtifactId, artifacts)
    requires forall a | a in artifacts :: a.id in ids
    ensures |artifacts| <= |ids|
  {
    if artifacts != [] {
      var n := |artifacts| - 1;
      assert forall i | 0 <= i < n :: ArtifactId(artifacts[i]) != ArtifactId(artifacts[n]);
      DistinctIdsFit(artifacts[..n], ids - {artifacts[n].id});
      assert artifacts[n] in artifacts;
      assert |ids - {artifacts[n].id}| == |ids| - 1;
    }
  }

  lemma {:induction false} DepthBelowIndex(relations: seq<Relation>, st: Search, i: nat)
    requires |st.depths| == |st.artifacts| == |st.relations| + 1 && i < |st.depths|
    requires st.depths[0] == 0
    requires forall k | 0 <= k < |st.relations| :: TreeEdge(relations, st, k)
    ensures st.depths[i] <= i
  {
    if i > 0 {
      assert TreeEdge(relations, st, i - 1);
      var j :| 0 <= j <= i - 1 && st.artifacts[j].id == st.relations[i - 1].from && st.depths[j] + 1 == st.depths[i];
      DepthBelowIndex(relations, st, j);
    }
  }

  lemma DepthsBelowCount(s: Snapshot, from: string, limit: nat, done: Search)
    requires Core(Lookup(s.artifacts), s.relations, from, limit, done)
    ensures forall i | 0 <= i < |done.depths| :: done.depths[i] < |s.artifacts|
  {
    LookupSmall(s.artifacts);
    assert forall a | a in done.artifacts :: a.id in Lookup(s.artifacts).Keys;
    DistinctIdsFit(done.artifacts, Lookup(s.artifacts).Keys);
    forall i | 0 <= i < |done.depths|
      ensures done.depths[i] < |s.artifacts|
    {
      DepthBelowIndex(s.relations, done, i);
    }
  }

  lemma DeepWalkFound(s: Snapshot, from: string, maxDepth: Option<nat>, w: seq<Relation>, id: string)
    requires HasKey(ArtifactId, s.artifacts, from)
    requires |s.artifacts| <= maxDepth.GetOr(USIZE_MAX)
    requires IsWalk(s, from, w, id)
    ensures Query(s, from, maxDepth).Ok?
    ensures HasKey(ArtifactId, Query(s, from, maxDepth).value.artifacts, id)
  {
    var limit := maxDepth.GetOr(USIZE_MAX);
    var done := QuerySearch(s, from, maxDepth);
    DepthsBelowCount(s, from, limit, done);
    WalkFound(s, from, limit, done, w, id);
    var j :| 0 <= j < |done.artifacts| && j < |done.depths| && done.artifacts[j].id == id && done.depths[j] <= |w|;
    assert ArtifactId(done.artifacts[j]) == id;
  }

  /** When the limit is at least the number of artifacts, it cuts nothing off. */
  lemma DeepQueryReachesAll(s: Snapshot, from: string, maxDepth: Option<nat>, id: string)
    requires HasKey(ArtifactId, s.artifacts, from)
    requires |s.artifacts| <= if maxDepth.Some? then maxDepth.value else 0xFFFF_FFFF_FFFF_FFFF
    ensures Query(s, from, maxDepth).Ok?
    ensures HasKey(ArtifactId, Query(s, from, maxDepth).value.artifacts, id) <==> Reachable(s, from, id)
  {
    QueryExact(s, from, maxDepth);
    if HasKey(ArtifactId, Query(s, from, maxDepth).value.artifacts, id) {
      var limit := if maxDepth.Some? then maxDepth.value else 0xFFFF_FFFF_FFFF_FFFF;
      assert Within(s, from, id, limit);
      var walk :| IsWalk(s, from, walk, id) && |walk| <= limit;
      assert Reachable(s, from, id);
    }
    if Reachable(s, from, id) {
      var walk :| IsWalk(s, from, walk, id);
      DeepWalkFound(s, from, maxDepth, walk, id);
    }
  }

  /** A query without a depth, over fewer artifacts than 64 bits count, returns exactly what can be reached. */
  lemma QueryWithoutDepth(s: Snapshot, from: string)
    requires HasKey(ArtifactId, s.artifacts, from) && |s.artifacts| < 0x1_0000_0000_0000_0000
    ensures Query(s, from, None).Ok?
    ensures forall id :: HasKey(ArtifactId, Query(s, from, None).value.artifacts, id) <==> Reachable(s, from, id)
  {
    DeepQueryReachesAll(s, from, None, from);
    forall id
      ensures HasKey(ArtifactId, Query(s, from, None).value.artifacts, id) <==> Reachable(s, from, id)
    {
      DeepQueryReachesAll(s, from, None, id);
    }
  }

  // ---------------------------------------------------------------------------------------------
  // Independence of the arrangement
  // ---------------------------------------------------------------------------------------------

  lemma LookupPermuted(a: seq<Artifact>, b: seq<Artifact>)
    requires DistinctKeys(ArtifactId, a) && multiset(a) == multiset(b)
    ensures Lookup(a) == Lookup(b)
  {
    DistinctPermuted(ArtifactId, a, b);
    SameElements(a, b);
    forall id
      ensures id in Lookup(a) <==> id in Lookup(b)
      ensures id in Lookup(a) ==> Lookup(a)[id] == Lookup(b)[id]
    {
      LookupFinds(a, id);
      LookupFinds(b, id);
    }
  }

  lemma StepOrder()
    ensures TotalPreorder(StepLeq)
  {
    forall a, b
      ensures StepLeq(a, b) || StepLeq(b, a)
    {
      TupleLeqTotal([a.relation, a.to, a.id], [b.relation, b.to, b.id]);
    }
    forall a, b, c | StepLeq(a, b) && StepLeq(b, c)
      ensures StepLeq(a, c)
    {
      TupleLeqTransitive([a.relation, a.to, a.id], [b.relation, b.to, b.id], [c.relation, c.to, c.id]);
    }
  }

  lemma {:induction false} LeavingMultiset(relations: seq<Relation>, id: string, r: Relation)
    ensures multiset(Leaving(relations, id))[r] == if r.from == id then multiset(relations)[r] else 0
  {
    if relations != [] {
      LeavingMultiset(relations[1..], id, r);
      assert relations == [relations[0]] + relations[1..];
    }
  }

  lemma OutgoingPermuted(a: seq<Relation>, b: seq<Relation>, id: string)
    requires DistinctKeys(RelationId, a) && multiset(a) == multiset(b)
    ensures Outgoing(a, id) == Outgoing(b, id)
  {
    forall r
      ensures multiset(Leaving(a, id))[r] == multiset(Leaving(b, id))[r]
    {
      LeavingMultiset(a, id, r);
      LeavingMultiset(b, id, r);
    }
    forall x, y | x in Leaving(a, id) && y in Leaving(a, id) && StepLeq(x, y) && StepLeq(y, x)
      ensures x == y
    {
      var kx, ky := [x.relation, x.to, x.id], [y.relation, y.to, y.id];
      TupleLeqAntisymmetric(kx, ky);
      assert kx[2] == ky[2];
      LeavingMembers(a, id, x);
      LeavingMembers(a, id, y);
    }
    StepOrder();
    SortCanonical(StepLeq, Leaving(a, id), Leaving(b, id));
  }

  lemma {:induction false} CompletePermuted(lookup: map<string, Artifact>, a: seq<Relation>, b: seq<Relation>,
                                            limit: nat, st: Search)
    requires DistinctKeys(RelationId, a) && multiset(a) == multiset(b)
    ensures Complete(lookup, a, limit, st) == Complete(lookup, b, limit, st)
    decreases Work(lookup, st)
  {
    if st.queue != [] {
      OutgoingPermuted(a, b, st.queue[0].0);
      AdvanceWork(lookup, a, limit, st);
      CompletePermuted(lookup, a, b, limit, Advance(lookup, a, limit, st));
    }
  }

  /** With unique ids the answer, its order included, depends only on what is stored. */
  lemma QueryPermuted(s: Snapshot, t: Snapshot, from: string, maxDepth: Option<nat>)
    requires DistinctKeys(ArtifactId, s.artifacts) && DistinctKeys(RelationId, s.relations)
    requires SameContents(s, t)
    ensures Query(s, from, maxDepth) == Query(t, from, maxDepth)
  {
    LookupPermuted(s.artifacts, t.artifacts);
    if from in Lookup(s.artifacts) {
      var lookup := Lookup(s.artifacts);
      CompletePermuted(lookup, s.relations, t.relations, maxDepth.GetOr(USIZE_MAX), Start(lookup[from]));
    }
  }
}
