/** The overlay graph, standing for the JUNG `SparseGraph<String, String>` that the viewer
    builds: a set of vertex ids and a map from edge id to the two endpoints the edge was
    added with. Edges are undirected, so predecessors and successors are both the other
    endpoint. */
module Topology {

  /** The endpoints an edge was added with. */
  datatype Link = Link(first: string, second: string)
  {
    predicate Touches(v: string) { first == v || second == v }
  }

  /** A snapshot of the graph. */
  datatype Topo = Topo(vertices: set<string>, edges: map<string, Link>)

  /** Every edge joins two vertices of the graph. */
  predicate WellFormed(t: Topo)
  {
    forall id :: id in t.edges ==> t.edges[id].first in t.vertices && t.edges[id].second in t.vertices
  }

  /** `addVertex`: a no-op for a vertex already present. */
  function WithVertex(t: Topo, v: string): Topo
  {
    t.(vertices := t.vertices + {v})
  }

  /** `addEdge(id, a, b)`: a no-op when the id is already taken; otherwise the edge is added
      together with any missing endpoint. */
  function WithEdge(t: Topo, id: string, a: string, b: string): Topo
  {
    if id in t.edges then t else Topo(t.vertices + {a, b}, t.edges[id := Link(a, b)])
  }

  /** `removeEdge(id)`: a no-op for an absent id; vertices always stay. */
  function WithoutEdge(t: Topo, id: string): Topo
  {
    t.(edges := t.edges - {id})
  }

  /** Ids of the edges incident to `v`. */
  function IncidentIds(t: Topo, v: string): set<string>
  {
    set id | id in t.edges && t.edges[id].Touches(v)
  }

  /** `degree(v)`: the number of edge ids incident to `v`. */
  function Degree(t: Topo, v: string): nat
  {
    |IncidentIds(t, v)|
  }

  /** `getSuccessors(v)` together with `getPredecessors(v)`: the far endpoint of every edge at
      `v`, whichever way round the edge was added. */
  function Neighbours(t: Topo, v: string): set<string>
  {
    (set id | id in t.edges && t.edges[id].first == v :: t.edges[id].second)
      + (set id | id in t.edges && t.edges[id].second == v :: t.edges[id].first)
  }

  /** `b` is a neighbour of `a` exactly when `a` is a neighbour of `b`. */
  lemma NeighbourSymmetric(t: Topo, a: string, b: string)
    ensures b in Neighbours(t, a) <==> a in Neighbours(t, b)
  {
    if b in Neighbours(t, a) {
      var id :| id in t.edges && t.edges[id].Touches(a) && t.edges[id].Touches(b);
    }
    if a in Neighbours(t, b) {
      var id :| id in t.edges && t.edges[id].Touches(a) && t.edges[id].Touches(b);
    }
  }

  /** A vertex has a neighbour exactly when it has positive degree. */
  lemma NeighboursIffDegree(t: Topo, v: string)
    ensures Neighbours(t, v) != {} <==> Degree(t, v) > 0
  {
    if Degree(t, v) > 0 {
      var id :| id in IncidentIds(t, v);
      if t.edges[id].first == v {
        assert t.edges[id].second in Neighbours(t, v);
      } else {
        assert t.edges[id].first in Neighbours(t, v);
      }
    }
    if Neighbours(t, v) != {} {
      var w :| w in Neighbours(t, v);
      var id :| id in t.edges && t.edges[id].Touches(v) && t.edges[id].Touches(w);
      assert id in IncidentIds(t, v);
    }
  }

  /** Adding an edge under a fresh id raises the degree of each endpoint by one and leaves
      every other vertex's degree alone. */
  lemma DegreeWithEdge(t: Topo, id: string, a: string, b: string, v: string)
    requires id !in t.edges
    ensures Degree(WithEdge(t, id, a, b), v) == Degree(t, v) + (if v == a || v == b then 1 else 0)
  {
    IncidentIdsAdd(t, t.vertices + {a, b}, id, Link(a, b), v);
  }

  /** Incidence after storing a new edge id. */
  lemma IncidentIdsAdd(t: Topo, vs: set<string>, id: string, l: Link, v: string)
    requires id !in t.edges
    ensures IncidentIds(Topo(vs, t.edges[id := l]), v) == IncidentIds(t, v) + (if l.Touches(v) then {id} else {})
  {
  }

  /** Removing a present edge lowers the degree of each endpoint by one. */
  lemma DegreeWithoutEdge(t: Topo, id: string, v: string)
    requires id in t.edges
    ensures Degree(WithoutEdge(t, id), v) == Degree(t, v) - (if t.edges[id].Touches(v) then 1 else 0)
  {
    var t' := WithoutEdge(t, id);
    if t.edges[id].Touches(v) {
      assert IncidentIds(t', v) == IncidentIds(t, v) - {id};
    } else {
      assert IncidentIds(t', v) == IncidentIds(t, v);
    }
  }

  /** The three graph updates keep every edge between two vertices, and never drop a vertex. */
  lemma UpdatesPreserveWellFormed(t: Topo, id: string, a: string, b: string, v: string)
    requires WellFormed(t)
    ensures WellFormed(WithVertex(t, v)) && WellFormed(WithEdge(t, id, a, b)) && WellFormed(WithoutEdge(t, id))
    ensures t.vertices <= WithEdge(t, id, a, b).vertices && WithoutEdge(t, id).vertices == t.vertices
  {
  }

  /** The mutable graph object, standing for JUNG's `SparseGraph`. */
  class Graph {
    var vertices: set<string>
    var edges: map<string, Link>

    /** The current snapshot. */
    function Model(): Topo
      reads this
    {
      Topo(vertices, edges)
    }

    /** `new SparseGraph<String, String>()`. */
    constructor ()
      ensures Model() == Topo({}, map[])
    {
      vertices := {};
      edges := map[];
    }

    /** `containsVertex(v)`. */
    function ContainsVertex(v: string): bool
      reads this
    {
      v in vertices
    }

    /** `addVertex(v)`. */
    method AddVertex(v: string)
      modifies this
      ensures Model() == WithVertex(old(Model()), v)
    {
      vertices := vertices + {v};
    }

    /** `addEdge(id, a, b)` with the default (undirected) edge type. */
    method AddEdge(id: string, a: string, b: string)
      modifies this
      ensures Model() == WithEdge(old(Model()), id, a, b)
    {
      if id !in edges {
        vertices := vertices + {a, b};
        edges := edges[id := Link(a, b)];
      }
    }

    /** `removeEdge(id)`. */
    method RemoveEdge(id: string)
      modifies this
      ensures Model() == WithoutEdge(old(Model()), id)
    {
      edges := edges - {id};
    }
  }
}
