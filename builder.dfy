/*
 * The graph builder of src/graph/builder.rs: an adjacency map from positions
 * to neighbour sets that stays undirected by construction. Nodes are added
 * once; an edge is recorded in both directions, and only between two
 * positions that are already nodes.
 */
module Builder {
  import opened Search

  type Adjacency = map<Pos, set<Pos>>

  /** Every recorded edge is recorded in both directions. */
  predicate Undirected(m: Adjacency)
  {
    forall a, b :: a in m && b in m[a] ==> b in m && a in m[b]
  }

  /** Every neighbour of a node is itself a node. */
  predicate NeighboursAreKeys(m: Adjacency)
  {
    forall a :: a in m ==> m[a] <= m.Keys
  }

  /** `_insert_node`: a new node starts with no neighbours; an existing one is left alone. */
  function WithNode(m: Adjacency, node: Pos): (r: Adjacency)
    ensures r.Keys == m.Keys + {node}
    ensures node in m ==> r == m
    ensures node !in m ==> r[node] == {}
    ensures forall k :: k in m ==> r[k] == m[k]
  {
    if node in m then m else m[node := {}]
  }

  /**
   * `_insert_edge`: when both endpoints are nodes, each is added to the
   * other's neighbour set (a self-loop adds the node to its own set); when
   * either is missing, nothing happens.
   */
  function WithEdge(m: Adjacency, from: Pos, to: Pos): (r: Adjacency)
    ensures from !in m || to !in m ==> r == m
    ensures from in m && to in m ==> r.Keys == m.Keys && to in r[from] && from in r[to]
    ensures from in m && to in m ==>
      forall k :: k in m ==>
        r[k] == m[k] + (if k == from then {to} else {}) + (if k == to then {from} else {})
  {
    if from !in m || to !in m then m
    else
      var m1 := m[from := m[from] + {to}];
      m1[to := m1[to] + {from}]
  }

  lemma WithNodeIdempotent(m: Adjacency, node: Pos)
    ensures WithNode(WithNode(m, node), node) == WithNode(m, node)
  {
  }

  lemma WithEdgeIdempotent(m: Adjacency, from: Pos, to: Pos)
    ensures WithEdge(WithEdge(m, from, to), from, to) == WithEdge(m, from, to)
  {
  }

  /** The builder records undirected edges: the order of the endpoints does not matter. */
  lemma WithEdgeSymmetric(m: Adjacency, from: Pos, to: Pos)
    ensures WithEdge(m, from, to) == WithEdge(m, to, from)
  {
  }

  lemma WithNodePreserves(m: Adjacency, node: Pos)
    requires Undirected(m) && NeighboursAreKeys(m)
    ensures Undirected(WithNode(m, node)) && NeighboursAreKeys(WithNode(m, node))
  {
  }

  lemma WithEdgePreserves(m: Adjacency, from: Pos, to: Pos)
    requires Undirected(m) && NeighboursAreKeys(m)
    ensures Undirected(WithEdge(m, from, to)) && NeighboursAreKeys(WithEdge(m, from, to))
  {
  }

  /** The positions occurring in a list of nodes. */
  ghost function NodeSet(ns: seq<Pos>): set<Pos>
  {
    set n | n in ns
  }

  /** Every position named as an endpoint of some edge of `es`. */
  ghost function Endpoints(es: seq<(Pos, Pos)>): set<Pos>
  {
    (set e | e in es :: e.0) + (set e | e in es :: e.1)
  }

  /** Every position paired with `a` by some edge of `es`, in either direction. */
  ghost function Partners(es: seq<(Pos, Pos)>, a: Pos): set<Pos>
  {
    (set e | e in es && e.0 == a :: e.1) + (set e | e in es && e.1 == a :: e.0)
  }

  lemma EndpointsSnoc(es: seq<(Pos, Pos)>, e: (Pos, Pos))
    ensures Endpoints(es + [e]) == Endpoints(es) + {e.0, e.1}
  {
    assert forall x :: x in es + [e] <==> x in es || x == e;
  }

  lemma PartnersSnoc(es: seq<(Pos, Pos)>, e: (Pos, Pos), a: Pos)
    ensures Partners(es + [e], a) ==
      Partners(es, a) + (if a == e.0 then {e.1} else {}) + (if a == e.1 then {e.0} else {})
  {
    assert forall x :: x in es + [e] <==> x in es || x == e;
  }

  /** `b` is a partner of `a` exactly when `a` is a partner of `b`. */
  lemma PartnersSymmetric(es: seq<(Pos, Pos)>, a: Pos, b: Pos)
    ensures b in Partners(es, a) <==> a in Partners(es, b)
  {
    if b in Partners(es, a) {
      var e :| e in es && ((e.0 == a && e.1 == b) || (e.1 == a && e.0 == b));
      assert a in Partners(es, b);
    }
    if a in Partners(es, b) {
      var e :| e in es && ((e.0 == b && e.1 == a) || (e.1 == b && e.0 == a));
      assert b in Partners(es, a);
    }
  }

  /** Every partner of an endpoint is an endpoint. */
  lemma PartnersAreEndpoints(es: seq<(Pos, Pos)>, a: Pos)
    ensures Partners(es, a) <= Endpoints(es)
  {
    forall b | b in Partners(es, a)
      ensures b in Endpoints(es)
    {
      var e :| e in es && ((e.0 == a && e.1 == b) || (e.1 == a && e.0 == b));
    }
  }

  /** The adjacency `from_edges` builds from `es`. */
  ghost predicate BuiltFrom(m: Adjacency, es: seq<(Pos, Pos)>)
  {
    m.Keys == Endpoints(es) && forall k :: k in m ==> m[k] == Partners(es, k)
  }

  /** A position that is no endpoint has no partners. */
  lemma NoPartnersOutside(es: seq<(Pos, Pos)>, a: Pos)
    ensures a !in Endpoints(es) ==> Partners(es, a) == {}
  {
    forall b | b in Partners(es, a)
      ensures a in Endpoints(es)
    {
      var x :| x in es && ((x.0 == a && x.1 == b) || (x.1 == a && x.0 == b));
    }
  }

  /** Adding both endpoints of `e` as nodes: the new ones get no neighbours, as they have no partners yet. */
  lemma FromEdgesNodes(m: Adjacency, es: seq<(Pos, Pos)>, e: (Pos, Pos))
    requires BuiltFrom(m, es)
    ensures var m1 := WithNode(WithNode(m, e.0), e.1);
      m1.Keys == Endpoints(es + [e]) && forall k :: k in m1 ==> m1[k] == Partners(es, k)
  {
    EndpointsSnoc(es, e);
    var m1 := WithNode(WithNode(m, e.0), e.1);
    forall k | k in m1 && k !in m
      ensures m1[k] == Partners(es, k)
    {
      NoPartnersOutside(es, k);
    }
  }

  /** One pass of the `from_edges` loop: both endpoints become nodes, then the edge is added. */
  lemma FromEdgesStep(m: Adjacency, es: seq<(Pos, Pos)>, e: (Pos, Pos))
    requires BuiltFrom(m, es)
    ensures BuiltFrom(WithEdge(WithNode(WithNode(m, e.0), e.1), e.0, e.1), es + [e])
  {
    FromEdgesNodes(m, es, e);
    var m1 := WithNode(WithNode(m, e.0), e.1);
    var r := WithEdge(m1, e.0, e.1);
    forall k | k in r
      ensures r[k] == Partners(es + [e], k)
    {
      PartnersSnoc(es, e, k);
    }
  }

  /** Whatever `from_edges` builds is undirected and names only its own nodes as neighbours. */
  lemma BuiltFromIsWellFormed(m: Adjacency, es: seq<(Pos, Pos)>)
    requires BuiltFrom(m, es)
    ensures Undirected(m) && NeighboursAreKeys(m)
  {
    forall a, b | a in m && b in m[a]
      ensures b in m && a in m[b]
    {
      PartnersAreEndpoints(es, a);
      PartnersSymmetric(es, a, b);
    }
    forall a | a in m
      ensures m[a] <= m.Keys
    {
      PartnersAreEndpoints(es, a);
    }
  }

  class GraphBuilder {
    var vertices: Adjacency

    /** `GraphBuilder::new` and `Default::default`: no nodes. */
    constructor ()
      ensures vertices == map[]
    {
      vertices := map[];
    }

    /** `add_node`. */
    method AddNode(node: Pos)
      modifies this
      ensures vertices == WithNode(old(vertices), node)
    {
      if node !in vertices {
        vertices := vertices[node := {}];
      }
    }

    /** `insert_node`: as `add_node`, handing the builder back for chaining. */
    method InsertNode(node: Pos) returns (b: GraphBuilder)
      modifies this
      ensures b == this && vertices == WithNode(old(vertices), node)
    {
      AddNode(node);
      b := this;
    }

    /** `add_edge`. */
    method AddEdge(from: Pos, to: Pos)
      modifies this
      ensures vertices == WithEdge(old(vertices), from, to)
    {
      var hasFrom := from in vertices;
      var hasTo := to in vertices;
      if !hasFrom || !hasTo {
        return;
      }
      vertices := vertices[from := vertices[from] + {to}];
      vertices := vertices[to := vertices[to] + {from}];
    }

    /** `insert_edge`: as `add_edge`, handing the builder back for chaining. */
    method InsertEdge(from: Pos, to: Pos) returns (b: GraphBuilder)
      modifies this
      ensures b == this && vertices == WithEdge(old(vertices), from, to)
    {
      AddEdge(from, to);
      b := this;
    }

    /** `from_nodes`: one node per listed position, none of them with neighbours. */
    static method FromNodes(nodes: seq<Pos>) returns (graph: GraphBuilder)
      ensures fresh(graph)
      ensures graph.vertices.Keys == NodeSet(nodes)
      ensures forall k :: k in graph.vertices ==> graph.vertices[k] == {}
      ensures Undirected(graph.vertices) && NeighboursAreKeys(graph.vertices)
    {
      graph := new GraphBuilder();
      for i := 0 to |nodes|
        invariant fresh(graph)
        invariant graph.vertices.Keys == NodeSet(nodes[..i])
        invariant forall k :: k in graph.vertices ==> graph.vertices[k] == {}
      {
        graph.AddNode(nodes[i]);
        assert nodes[..i + 1] == nodes[..i] + [nodes[i]];
      }
      assert nodes[..|nodes|] == nodes;
    }

    /**
     * `from_edges`: the nodes are the endpoints of the listed edges, and each
     * node's neighbours are the positions it is paired with, in either direction.
     */
    static method FromEdges(edges: seq<(Pos, Pos)>) returns (graph: GraphBuilder)
      ensures fresh(graph)
      ensures graph.vertices.Keys == Endpoints(edges)
      ensures forall k :: k in graph.vertices ==> graph.vertices[k] == Partners(edges, k)
      ensures Undirected(graph.vertices) && NeighboursAreKeys(graph.vertices)
    {
      graph := new GraphBuilder();
      for i := 0 to |edges|
        invariant fresh(graph)
        invariant BuiltFrom(graph.vertices, edges[..i])
      {
        var (from, to) := edges[i];
        ghost var m := graph.vertices;
        graph.AddNode(from);
        graph.AddNode(to);
        graph.AddEdge(from, to);
        FromEdgesStep(m, edges[..i], edges[i]);
        assert edges[..i + 1] == edges[..i] + [edges[i]];
      }
      assert edges[..|edges|] == edges;
      BuiltFromIsWellFormed(graph.vertices, edges);
    }

    /** `build`: a graph over the same adjacency with an empty path map. */
    method Build() returns (g: Graph)
      ensures fresh(g) && g.vertices == vertices && g.path == map[]
    {
      g := new Graph(vertices);
    }
  }
}
