/**
 Diagram graphs as values: an insertion-ordered node map and an edge list.

 A node is stored once, under the first caption it was given; later additions of its id change
 nothing. Edges are never merged: each statement appends its own. `Valid` says that the order lists
 every key of the map exactly once and that no edge dangles, which every finished graph meets.
 */
module DiagramValues {
  import opened Results

  datatype NodeKind = StepNode | DecisionNode | MatchNode

  datatype Node = Node(id: string, caption: string, kind: NodeKind, armIndex: Option<nat>, isDefault: bool)

  datatype Edge = Edge(from: string, to: string, caption: Option<string>, armIndex: Option<nat>, isDefault: bool)

  datatype Graph = Graph(order: seq<string>, nodes: map<string, Node>, edges: seq<Edge>)

  const EMPTY := Graph([], map[], [])

  function Plain(id: string, caption: string, kind: NodeKind): Node { Node(id, caption, kind, None, false) }

  function Link(from: string, to: string, caption: Option<string>): Edge { Edge(from, to, caption, None, false) }

  /** The first node with an id stays. */
  function AddNode(g: Graph, n: Node): Graph {
    if n.id in g.nodes then g else Graph(g.order + [n.id], g.nodes[n.id := n], g.edges)
  }

  function AddEdge(g: Graph, e: Edge): Graph { g.(edges := g.edges + [e]) }

  /** Two nodes and the edge between them: how every statement adds to the graph. */
  function AddLinked(g: Graph, a: Node, b: Node, e: Edge): Graph { AddEdge(AddNode(AddNode(g, a), b), e) }

  /** `order` lists each key of the node map once, and no edge dangles. */
  ghost predicate Valid(g: Graph) {
    && (forall i, j | 0 <= i < j < |g.order| :: g.order[i] != g.order[j])
    && (forall id :: id in g.order <==> id in g.nodes)
    && (forall id | id in g.nodes :: g.nodes[id].id == id)
    && (forall e | e in g.edges :: e.from in g.nodes && e.to in g.nodes)
  }

  lemma AddNodeValid(g: Graph, n: Node)
    requires Valid(g)
    ensures Valid(AddNode(g, n))
    ensures AddNode(g, n).nodes.Keys == g.nodes.Keys + {n.id}
    ensures AddNode(g, n).edges == g.edges
  {
  }

  lemma AddEdgeValid(g: Graph, e: Edge)
    requires Valid(g) && e.from in g.nodes.Keys && e.to in g.nodes.Keys
    ensures Valid(AddEdge(g, e))
  {
  }

  lemma AddLinkedValid(g: Graph, a: Node, b: Node, e: Edge)
    requires Valid(g) && e.from == a.id && e.to == b.id
    ensures Valid(AddLinked(g, a, b, e))
    ensures AddLinked(g, a, b, e).nodes.Keys == g.nodes.Keys + {a.id, b.id}
  {
    AddNodeValid(g, a);
    AddNodeValid(AddNode(g, a), b);
    AddEdgeValid(AddNode(AddNode(g, a), b), e);
  }
}
