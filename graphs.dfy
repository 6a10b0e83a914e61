/** The directed graph the visualisation code builds with networkx: nodes in
    insertion order, an optional `bipartite` tag per node (0 for a taxon,
    1 for a metabolite) and a set of directed edges, so a repeated edge is
    one edge. `Graph` is the value; `DiGraph` is the object the code
    mutates step by step. */
module Graphs {

  import opened Strings

  type Edge = (string, string)

  datatype Graph = Graph(nodes: seq<string>, tag: map<string, int>, edges: set<Edge>)

  const Empty := Graph([], map[], {})

  /** The tag networkx stores as `bipartite=0`. */
  const TaxonTag := 0
  /** The tag networkx stores as `bipartite=1`. */
  const MetaboliteTag := 1

  /** What networkx keeps true of every graph: each node once, attributes
      only on nodes, and both ends of every edge are nodes. */
  predicate Valid(g: Graph)
  {
    && Distinct(g.nodes)
    && (forall n :: n in g.tag ==> n in g.nodes)
    && (forall e :: e in g.edges ==> e.0 in g.nodes && e.1 in g.nodes)
  }

  /** Total degree zero: no edge starts or ends at n. */
  predicate Isolated(g: Graph, n: string)
  {
    forall e :: e in g.edges ==> e.0 != n && e.1 != n
  }

  /** The sequence without x, other elements in order. */
  function Without(s: seq<string>, x: string): (r: seq<string>)
    ensures forall y :: y in r <==> y in s && y != x
    ensures Distinct(s) ==> Distinct(r)
    ensures |r| <= |s|
  {
    if s == [] then []
    else if s[0] == x then Without(s[1..], x)
    else
      assert Distinct(s) ==> s[0] !in s[1..] && Distinct(s[1..]);
      [s[0]] + Without(s[1..], x)
  }

  /** `G.add_node(n, bipartite=t)`: adds n at the end if it is new, and
      sets its tag either way. */
  function WithNode(g: Graph, n: string, t: int): (r: Graph)
    ensures Valid(g) ==> Valid(r)
    ensures r.edges == g.edges && r.tag == g.tag[n := t]
    ensures forall m :: m in r.nodes <==> m in g.nodes || m == n
  {
    Graph(if n in g.nodes then g.nodes else g.nodes + [n], g.tag[n := t], g.edges)
  }

  /** A node created without attributes (as `add_edge` creates its ends). */
  function Touch(g: Graph, n: string): (r: Graph)
    ensures Valid(g) ==> Valid(r)
    ensures r.edges == g.edges && r.tag == g.tag
    ensures forall m :: m in r.nodes <==> m in g.nodes || m == n
  {
    if n in g.nodes then g else g.(nodes := g.nodes + [n])
  }

  /** `G.add_edge(u, v)`: missing ends are created untagged; an edge that is
      already there is not added twice. */
  function WithEdge(g: Graph, u: string, v: string): (r: Graph)
    ensures Valid(g) ==> Valid(r)
    ensures r.edges == g.edges + {(u, v)} && r.tag == g.tag
    ensures forall m :: m in r.nodes <==> m in g.nodes || m == u || m == v
  {
    var g1 := Touch(Touch(g, u), v);
    g1.(edges := g1.edges + {(u, v)})
  }

  /** `G.remove_node(n)` on a node that is there, and nothing for one that
      is not (as `remove_nodes_from` treats it): the node goes with its tag
      and every edge that touches it. */
  function WithoutNode(g: Graph, n: string): (r: Graph)
    ensures Valid(g) ==> Valid(r)
    ensures forall m :: m in r.nodes <==> m in g.nodes && m != n
    ensures r.tag == g.tag - {n}
    ensures r.edges == set e | e in g.edges && e.0 != n && e.1 != n
  {
    Graph(Without(g.nodes, n), g.tag - {n}, set e | e in g.edges && e.0 != n && e.1 != n)
  }

  /** `G.remove_nodes_from(ns)`, one name after the other. */
  function WithoutNodes(g: Graph, ns: seq<string>): (r: Graph)
    ensures Valid(g) ==> Valid(r)
    ensures forall m :: m in r.nodes <==> m in g.nodes && m !in ns
    ensures forall m :: m in r.tag <==> m in g.tag && m !in ns
    ensures forall m :: m in r.tag ==> r.tag[m] == g.tag[m]
    ensures forall e :: e in r.edges <==> e in g.edges && e.0 !in ns && e.1 !in ns
    decreases |ns|
  {
    if ns == [] then g else WithoutNodes(WithoutNode(g, ns[0]), ns[1..])
  }

  /** The nodes of `ns` that are isolated in g, in order. */
  function IsolatedAmong(g: Graph, ns: seq<string>): (r: seq<string>)
    ensures forall n :: n in r <==> n in ns && Isolated(g, n)
  {
    if ns == [] then []
    else if Isolated(g, ns[0]) then [ns[0]] + IsolatedAmong(g, ns[1..])
    else IsolatedAmong(g, ns[1..])
  }

  /** `list(nx.isolates(G))`. */
  function Isolates(g: Graph): seq<string>
  {
    IsolatedAmong(g, g.nodes)
  }

  /** `G.neighbors(n)` on a `DiGraph`: the successors. */
  function Successors(g: Graph, n: string): set<string>
  {
    set e | e in g.edges && e.0 == n :: e.1
  }

  /** Neighbours in `G.to_undirected()`: successors and predecessors. */
  function UndirectedNeighbours(g: Graph, n: string): set<string>
  {
    (set e | e in g.edges && e.0 == n :: e.1) + (set e | e in g.edges && e.1 == n :: e.0)
  }

  /** Removing every isolated node leaves a graph with no isolated node and
      the same edges. */
  lemma {:induction false} WithoutIsolatesHasNoIsolates(g: Graph)
    requires Valid(g)
    ensures var r := WithoutNodes(g, Isolates(g));
      && r.edges == g.edges
      && (forall n :: n in r.nodes ==> !Isolated(r, n))
      && (forall n :: n in r.nodes <==> n in g.nodes && !Isolated(g, n))
  {
    var iso := Isolates(g);
    var r := WithoutNodes(g, iso);
    forall e | e in g.edges ensures e in r.edges {
      assert e.0 in g.nodes && e.1 in g.nodes;
      assert !Isolated(g, e.0) && !Isolated(g, e.1);
    }
    forall n | n in r.nodes ensures !Isolated(r, n) {
      assert !Isolated(g, n);
      var e :| e in g.edges && (e.0 == n || e.1 == n);
      assert e in r.edges;
    }
  }

  /** n is an end of some edge of es. */
  predicate IsEnd(n: string, es: set<Edge>)
  {
    exists e :: e in es && (e.0 == n || e.1 == n)
  }

  /** The ends of one more edge are the old ends and its own two. */
  lemma EndsAdded(es: set<Edge>, e: Edge)
    ensures forall n :: IsEnd(n, es + {e}) <==> IsEnd(n, es) || n == e.0 || n == e.1
  {
    forall n | IsEnd(n, es + {e})
      ensures IsEnd(n, es) || n == e.0 || n == e.1
    {
      var d :| d in es + {e} && (d.0 == n || d.1 == n);
      if d != e {
        assert d in es;
      }
    }
  }

  /** The graph object the source mutates. */
  class DiGraph {
    var nodes: seq<string>
    var tag: map<string, int>
    var edges: set<Edge>

    function Value(): Graph
      reads this
    {
      Graph(nodes, tag, edges)
    }

    /** `nx.DiGraph()`. */
    constructor ()
      ensures Value() == Empty
    {
      nodes, tag, edges := [], map[], {};
    }

    /** `nx.DiGraph(g)`: a new graph object holding a copy of g. */
    constructor Copy(g: Graph)
      ensures Value() == g
    {
      nodes, tag, edges := g.nodes, g.tag, g.edges;
    }

    method AddNode(n: string, t: int)
      modifies this
      ensures Value() == WithNode(old(Value()), n, t)
    {
      if n !in nodes {
        nodes := nodes + [n];
      }
      tag := tag[n := t];
    }

    method AddEdge(u: string, v: string)
      modifies this
      ensures Value() == WithEdge(old(Value()), u, v)
    {
      if u !in nodes {
        nodes := nodes + [u];
      }
      if v !in nodes {
        nodes := nodes + [v];
      }
      edges := edges + {(u, v)};
    }

    method RemoveNode(n: string)
      modifies this
      ensures Value() == WithoutNode(old(Value()), n)
    {
      nodes := Without(nodes, n);
      tag := tag - {n};
      edges := set e | e in edges && e.0 != n && e.1 != n;
    }

    method RemoveNodesFrom(ns: seq<string>)
      modifies this
      ensures Value() == WithoutNodes(old(Value()), ns)
    {
      var i := 0;
      while i < |ns|
        invariant 0 <= i <= |ns|
        invariant WithoutNodes(Value(), ns[i..]) == WithoutNodes(old(Value()), ns)
      {
        assert ns[i..][1..] == ns[i + 1..];
        RemoveNode(ns[i]);
        i := i + 1;
      }
    }

    /** `G.add_edges_from(es)`: each edge added in turn, so ends that are
        not nodes are created untagged. */
    method AddEdgesFrom(es: set<Edge>)
      requires Valid(Value())
      modifies this
      ensures Valid(Value())
      ensures edges == old(edges) + es && tag == old(tag)
      ensures forall n :: n in nodes <==> n in old(nodes) || IsEnd(n, es)
    {
      var rest := es;
      ghost var done: set<Edge> := {};
      while rest != {}
        invariant done + rest == es
        invariant Valid(Value())
        invariant edges == old(edges) + done && tag == old(tag)
        invariant forall n :: n in nodes <==> n in old(nodes) || IsEnd(n, done)
        decreases rest
      {
        var e :| e in rest;
        AddEdge(e.0, e.1);
        EndsAdded(done, e);
        done := done + {e};
        rest := rest - {e};
      }
    }

    predicate HasEdge(u: string, v: string)
      reads this
    {
      (u, v) in edges
    }
  }
}
