/** The graph base: a set of vertices and a set of ordered vertex pairs.
    Its edge operations are left to the undirected specialisation. */
module Graph {

  /** Vertices are small non-negative ids. */
  type Vertex = nat

  /** An edge is an ordered (source, target) pair. */
  type Edge = (Vertex, Vertex)

  /** Lexicographic order on pairs, the order of the ordered edge container:
      first by source, then by target. */
  predicate EdgeLess(a: Edge, b: Edge)
  {
    a.0 < b.0 || (a.0 == b.0 && a.1 < b.1)
  }

  class Graph {
    var vertices: set<Vertex>
    var edges: set<Edge>

    /** A fresh graph has no vertices and no edges. */
    constructor ()
      ensures vertices == {} && edges == {}
      ensures Empty()
    {
      vertices, edges := {}, {};
    }

    /** The vertex count. */
    function VertexCount(): (n: nat)
      reads this
      ensures n == |vertices|
      ensures n == 0 <==> vertices == {}
    {
      |vertices|
    }

    /** The edge count. */
    function EdgeCount(): (n: nat)
      reads this
      ensures n == |edges|
      ensures n == 0 <==> edges == {}
    {
      |edges|
    }

    /** The size of the graph: the vertex count paired with the edge count. */
    function Size(): (r: (nat, nat))
      reads this
      ensures r == (VertexCount(), EdgeCount())
    {
      (|vertices|, |edges|)
    }

    /** The graph is empty when it has neither vertices nor edges. */
    predicate Empty()
      reads this
      ensures Empty() <==> VertexCount() == 0 && EdgeCount() == 0
    {
      vertices == {} && edges == {}
    }

    /** A vertex is contained when it is in the vertex set; then the graph is not empty. */
    predicate ContainsVertex(v: Vertex)
      reads this
      ensures ContainsVertex(v) ==> VertexCount() > 0 && !Empty()
    {
      v in vertices
    }

    /** Inserting a vertex makes it present; inserting it again changes nothing. */
    method InsertVertex(v: Vertex)
      modifies this
      ensures ContainsVertex(v)
      ensures vertices == old(vertices) + {v}
      ensures old(ContainsVertex(v)) ==> vertices == old(vertices)
      ensures VertexCount() == old(VertexCount()) + (if old(ContainsVertex(v)) then 0 else 1)
      ensures edges == old(edges)
    {
      vertices := vertices + {v};
    }

    /** Removing a vertex makes it absent and leaves every other vertex and every edge alone. */
    method RemoveVertex(v: Vertex)
      modifies this
      ensures !ContainsVertex(v)
      ensures forall u :: u != v ==> (ContainsVertex(u) <==> old(ContainsVertex(u)))
      ensures vertices == old(vertices) - {v}
      ensures VertexCount() == old(VertexCount()) - (if old(ContainsVertex(v)) then 1 else 0)
      ensures edges == old(edges)
    {
      vertices := vertices - {v};
    }
  }

}
