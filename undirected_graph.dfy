/** The undirected graph: every edge {u, v} is stored as both ordered pairs
    (u, v) and (v, u) in one ordered pair set, so that "all edges with source v"
    is one contiguous range of that set. The vertex count is a counter holding
    the largest vertex id seen plus one, not the size of a vertex set. */
module Undirected {
  import opened Graph
  import Cardinality

  /** Every stored pair has its reverse stored too. */
  ghost predicate Symmetric(pairs: set<Edge>)
  {
    forall e :: e in pairs ==> UndirectedGraph.Reverse(e) in pairs
  }

  /** One representative (source below target) of every stored non-loop edge. */
  function Pairs(pairs: set<Edge>): set<Edge>
  {
    set e | e in pairs && e.0 < e.1
  }

  /** The stored self-loops. */
  function Loops(pairs: set<Edge>): set<Edge>
  {
    set e | e in pairs && e.0 == e.1
  }

  /** The other representative (source above target) of every stored non-loop edge. */
  function Reversed(pairs: set<Edge>): set<Edge>
  {
    set e | e in pairs && e.0 > e.1
  }

  /** In a symmetric pair set the two representatives of the non-loop edges are equally many. */
  lemma ReversedSize(pairs: set<Edge>)
    requires Symmetric(pairs)
    ensures |Reversed(pairs)| == |Pairs(pairs)|
  {
    var upper := Pairs(pairs);
    var flip := UndirectedGraph.Reverse;
    Cardinality.InjectiveImageSize(upper, flip);
    forall e | e in Reversed(pairs) ensures e in Cardinality.Image(upper, flip) {
      var d := flip(e);
      assert d in upper && flip(d) == e;
    }
    assert Reversed(pairs) == Cardinality.Image(upper, flip);
  }

  /** A symmetric pair set holds each non-loop edge twice and each self-loop once. */
  lemma SymmetricPairCount(pairs: set<Edge>)
    requires Symmetric(pairs)
    ensures |pairs| == 2 * |Pairs(pairs)| + |Loops(pairs)|
  {
    var upper, lower, loops := Pairs(pairs), Reversed(pairs), Loops(pairs);
    ReversedSize(pairs);
    assert pairs == upper + lower + loops;
    assert upper * lower == {};
    assert |upper + lower| == |upper| + |lower|;
    assert (upper + lower) * loops == {};
  }

  class UndirectedGraph {
    /** m_vertices: the largest vertex id seen plus one. */
    var vertices: nat
    /** m_edges: the ordered pair set, holding both directions of every edge. */
    var edges: set<Edge>

    /** The pair set is symmetric and every stored id is below the vertex counter. */
    ghost predicate Valid()
      reads this
    {
      && Symmetric(edges)
      && forall e :: e in edges ==> e.0 < vertices && e.1 < vertices
    }

    constructor ()
      ensures Valid()
      ensures vertices == 0 && edges == {}
    {
      vertices, edges := 0, {};
    }

    /** The edge with source and target swapped. */
    static function Reverse(e: Edge): (r: Edge)
      ensures r.0 == e.1 && r.1 == e.0
      ensures r == e <==> e.0 == e.1
    {
      (e.1, e.0)
    }

    /** The vertex counter. */
    function VertexCount(): (n: nat)
      reads this
      ensures Valid() ==> forall e :: e in edges ==> e.0 < n && e.1 < n
    {
      vertices
    }

    /** The edge count: half the number of stored pairs. */
    function EdgeCount(): (n: nat)
      reads this
      ensures 2 * n <= |edges| <= 2 * n + 1
    {
      |edges| / 2
    }

    /** The size: the vertex counter paired with the edge count. */
    function Size(): (r: (nat, nat))
      reads this
      ensures r == (VertexCount(), EdgeCount())
    {
      (vertices, EdgeCount())
    }

    predicate ContainsEdge(e: Edge)
      reads this
      ensures ContainsEdge(e) <==> e in OutEdges(e.0)
    {
      e in edges
    }

    /** Inserting an edge stores both of its directions and nothing else, and
        raises the vertex counter to cover both ends. */
    method InsertEdge(e: Edge)
      requires Valid()
      modifies this
      ensures Valid()
      ensures ContainsEdge(e) && ContainsEdge(Reverse(e))
      ensures edges == old(edges) + {e, Reverse(e)}
      ensures vertices == Max(old(vertices), Max(e.0 + 1, e.1 + 1))
      ensures old(vertices) <= vertices
    {
      edges := edges + {e};
      edges := edges + {Reverse(e)};
      vertices := Max(vertices, e.0 + 1);
      vertices := Max(vertices, e.1 + 1);
    }

    /** The pairs at or after lower_edge_bound(v): those not lexicographically
        before (v, 0), 0 being the lowest vertex id. */
    function FromLowerEdgeBound(v: Vertex): (r: set<Edge>)
      reads this
      ensures r <= edges
    {
      set e | e in edges && !EdgeLess(e, (v, 0))
    }

    /** The pairs at or after upper_edge_bound(v): those lexicographically after
        every pair (v, t), that is, those whose source exceeds v. */
    function FromUpperEdgeBound(v: Vertex): (r: set<Edge>)
      reads this
      ensures r <= FromLowerEdgeBound(v)
    {
      set e | e in edges && e.0 > v
    }

    /** The stored pairs with source v. */
    function OutEdges(v: Vertex): set<Edge>
      reads this
    {
      set e | e in edges && e.0 == v
    }

    /** The targets of the stored pairs with source v. */
    function Neighbours(v: Vertex): set<Vertex>
      reads this
    {
      set e | e in edges && e.0 == v :: e.1
    }

    /** The range between the two bounds is exactly the pairs with source v,
        and it is contiguous in the pair order. */
    lemma EdgeRange(v: Vertex)
      ensures FromLowerEdgeBound(v) - FromUpperEdgeBound(v) == OutEdges(v)
      ensures forall a, b, c ::
                a in OutEdges(v) && c in OutEdges(v) && b in edges && EdgeLess(a, b) && EdgeLess(b, c)
                ==> b in OutEdges(v)
      ensures OutEdges(v) == {} <==> Neighbours(v) == {}
    {
      if e :| e in OutEdges(v) {
        assert e.1 in Neighbours(v);
      }
      if t :| t in Neighbours(v) {
        var e :| e in edges && e.0 == v && e.1 == t;
        assert e in OutEdges(v);
      }
    }

    /** The degree: the distance between the two bounds, or 0 when nothing is
        at or after the lower bound. */
    function Degree(v: Vertex): (d: nat)
      reads this
      ensures d == |OutEdges(v)|
      ensures d == 0 <==> Neighbours(v) == {}
    {
      EdgeRange(v);
      var lower := FromLowerEdgeBound(v);
      if lower == {} then 0 else |lower - FromUpperEdgeBound(v)|
    }

    /** The targets of the pairs with source v, collected by walking the range
        between the two bounds in pair order. */
    method Adjacents(v: Vertex) returns (r: seq<Vertex>)
      ensures forall i, j :: 0 <= i < j < |r| ==> r[i] < r[j]
      ensures forall t :: t in r <==> t in Neighbours(v)
      ensures |r| == Degree(v)
    {
      EdgeRange(v);
      r := Targets(FromLowerEdgeBound(v) - FromUpperEdgeBound(v), v);
      forall t ensures (v, t) in OutEdges(v) <==> t in Neighbours(v) {
        if t in Neighbours(v) {
          var e :| e in edges && e.0 == v && e.1 == t;
          assert e == (v, t);
        }
      }
    }
  }

  /** The walk over a range of pairs sharing the source v, in pair order:
      collects their targets in strictly increasing order. */
  method Targets(s: set<Edge>, v: Vertex) returns (r: seq<Vertex>)
    requires forall e :: e in s ==> e.0 == v
    ensures forall i, j :: 0 <= i < j < |r| ==> r[i] < r[j]
    ensures forall t :: t in r <==> (v, t) in s
    ensures |r| == |s|
  {
    var rest := s;
    r := [];
    while rest != {}
      invariant rest <= s
      invariant forall t :: t in r <==> (v, t) in s && (v, t) !in rest
      invariant forall i, j :: 0 <= i < j < |r| ==> r[i] < r[j]
      invariant forall i, e :: 0 <= i < |r| && e in rest ==> r[i] < e.1
      invariant |r| + |rest| == |s|
      decreases |rest|
    {
      var e := FirstPair(rest);
      forall d | d in rest - {e} ensures e.1 < d.1 {
        assert d.0 == v == e.0;
      }
      r := r + [e.1];
      rest := rest - {e};
    }
  }

  function Max(a: nat, b: nat): nat
  {
    if a < b then b else a
  }

  /** The first pair of a non-empty set of pairs sharing one source: the one with the least target. */
  method FirstPair(s: set<Edge>) returns (e: Edge)
    requires s != {}
    ensures e in s
    ensures forall d :: d in s ==> e.1 <= d.1
  {
    LeastTargetExists(s);
    e :| LeastTarget(s, e);
  }

  /** e is a pair of s with the least target. */
  predicate LeastTarget(s: set<Edge>, e: Edge)
  {
    e in s && forall d :: d in s ==> e.1 <= d.1
  }

  lemma {:induction false} LeastTargetExists(s: set<Edge>)
    requires s != {}
    ensures exists e :: LeastTarget(s, e)
    decreases |s|
  {
    var x: Edge :| x in s;
    var rest := s - {x};
    if rest == {} {
      assert s == {x};
      assert LeastTarget(s, x);
    } else {
      LeastTargetExists(rest);
      var y :| LeastTarget(rest, y);
      if x.1 < y.1 {
        assert LeastTarget(s, x);
      } else {
        assert LeastTarget(s, y);
      }
    }
  }

  /** Adjacency is symmetric in a valid undirected graph. */
  lemma NeighboursSymmetric(g: UndirectedGraph, u: Vertex, v: Vertex)
    requires g.Valid()
    ensures u in g.Neighbours(v) <==> v in g.Neighbours(u)
  {
    if u in g.Neighbours(v) {
      assert (v, u) in g.edges && UndirectedGraph.Reverse((v, u)) == (u, v);
    }
    if v in g.Neighbours(u) {
      assert (u, v) in g.edges && UndirectedGraph.Reverse((u, v)) == (v, u);
    }
  }

  /** For a graph without self-loops the edge count is the number of distinct
      unordered edges; each stored self-loop adds only half an edge. */
  lemma EdgeCountIsPairCount(g: UndirectedGraph)
    requires g.Valid()
    ensures g.EdgeCount() == |Pairs(g.edges)| + |Loops(g.edges)| / 2
    ensures Loops(g.edges) == {} ==> g.EdgeCount() == |Pairs(g.edges)|
  {
    SymmetricPairCount(g.edges);
  }

}
