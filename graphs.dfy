/**
 * The undirected graph used by the branch-and-bound search: the part of a
 * networkx `Graph` that the search relies on.  Nodes keep their insertion
 * order (networkx iterates its node dictionary in that order, which decides
 * the tie-break of the maximum-degree search); edges are unordered pairs,
 * stored with the smaller endpoint first.
 */
module Graphs {

  /** An undirected edge; `lo == hi` is a self-loop. */
  datatype Edge = Edge(lo: int, hi: int)

  /** The edge between `u` and `v`, whichever order they are given in. */
  function MkEdge(u: int, v: int): (e: Edge)
    ensures e.lo <= e.hi
    ensures (e.lo == u && e.hi == v) || (e.lo == v && e.hi == u)
  {
    if u <= v then Edge(u, v) else Edge(v, u)
  }

  predicate Touches(e: Edge, v: int) {
    e.lo == v || e.hi == v
  }

  predicate Distinct(s: seq<int>) {
    forall i, j :: 0 <= i < j < |s| ==> s[i] != s[j]
  }

  /** `s` with every occurrence of `v` taken out, the order of the rest kept. */
  function Without(s: seq<int>, v: int): (r: seq<int>)
    ensures forall x :: x in r <==> x in s && x != v
    ensures Distinct(s) ==> Distinct(r)
    ensures v !in s ==> r == s
  {
    if s == [] then []
    else
      var rest := Without(s[1..], v);
      if s[0] == v then rest
      else
        assert Distinct(s) ==> Distinct([s[0]] + rest) by {
          if Distinct(s) {
            assert s[0] !in s[1..];
            forall i, j | 0 <= i < j < |[s[0]] + rest| ensures ([s[0]] + rest)[i] != ([s[0]] + rest)[j] {
              if i == 0 {
                assert ([s[0]] + rest)[j] in rest;
              } else {
                assert ([s[0]] + rest)[i] == rest[i - 1];
              }
            }
          }
        }
        [s[0]] + rest
  }

  /** Taking `v` out of a concatenation takes it out of each part: the other elements keep their order. */
  lemma {:induction false} WithoutAppend(a: seq<int>, b: seq<int>, v: int)
    ensures Without(a + b, v) == Without(a, v) + Without(b, v)
  {
    if a != [] {
      assert (a + b)[1..] == a[1..] + b;
      WithoutAppend(a[1..], b, v);
    } else {
      assert a + b == b;
    }
  }

  /** The members of `ns` joined to `v` by an edge of `edges`, in the order of `ns`. */
  function AdjacentIn(ns: seq<int>, edges: set<Edge>, v: int): (r: seq<int>)
    ensures forall x :: x in r <==> x in ns && MkEdge(x, v) in edges
    ensures Distinct(ns) ==> Distinct(r)
  {
    if ns == [] then []
    else
      var rest := AdjacentIn(ns[1..], edges, v);
      if MkEdge(ns[0], v) in edges then
        [ns[0]] + rest
      else rest
  }

  /** The end points of a set of edges. */
  function Endpoints(edges: set<Edge>): set<int> {
    (set e | e in edges :: e.lo) + (set e | e in edges :: e.hi)
  }

  datatype Graph = Graph(nodes: seq<int>, edges: set<Edge>) {

    /** networkx's own invariant: nodes are distinct, edges join present nodes. */
    ghost predicate Valid() {
      && Distinct(nodes)
      && forall e :: e in edges ==> e.lo <= e.hi && e.lo in nodes && e.hi in nodes
    }

    predicate Loopless() {
      forall e :: e in edges ==> e.lo != e.hi
    }

    function NodeSet(): set<int> {
      set v | v in nodes
    }

    function NumberOfNodes(): nat {
      |nodes|
    }

    function NumberOfEdges(): nat {
      |edges|
    }

    /** The edges that have `v` as an end point. */
    function Incident(v: int): set<Edge> {
      set e | e in edges && Touches(e, v)
    }

    /** networkx's degree: a self-loop counts twice. */
    function Degree(v: int): nat {
      |Incident(v)| + if Edge(v, v) in edges then 1 else 0
    }

    /** `g.neighbors(v)`, listed in node order. */
    function NeighborList(v: int): (ns: seq<int>)
      requires Valid()
      ensures Distinct(ns)
      ensures forall u :: u in ns <==> MkEdge(u, v) in edges
    {
      AdjacentIn(nodes, edges, v)
    }

    /** `remove_node(v)`: `v` goes, and every edge at `v` with it. */
    function RemoveNode(v: int): (g: Graph)
      ensures Valid() ==> g.Valid()
      ensures g.NodeSet() == NodeSet() - {v}
      ensures g.Incident(v) == {}
      ensures forall e :: e in edges && !Touches(e, v) ==> e in g.edges
      ensures g.edges <= edges
      ensures g.nodes == Without(nodes, v)
    {
      Graph(Without(nodes, v), set e | e in edges && !Touches(e, v))
    }

    /** `add_node(v)`: appends `v` when it is absent, does nothing otherwise. */
    function AddNode(v: int): (g: Graph)
      ensures Valid() ==> g.Valid()
      ensures g.NodeSet() == NodeSet() + {v}
      ensures g.edges == edges
      ensures v in nodes ==> g == this
      ensures v !in nodes ==> g.nodes == nodes + [v]
    {
      if v in nodes then this
      else
        assert Distinct(nodes) ==> Distinct(nodes + [v]) by {
          if Distinct(nodes) {
            forall i, j | 0 <= i < j < |nodes + [v]| ensures (nodes + [v])[i] != (nodes + [v])[j] {
              if j == |nodes| {
                assert (nodes + [v])[i] == nodes[i];
              }
            }
          }
        }
        Graph(nodes + [v], edges)
    }

    /** `add_edge(u, v)`: adds the end points that are absent (`u` first), then the edge. */
    function AddEdge(u: int, v: int): (g: Graph)
      ensures Valid() ==> g.Valid()
      ensures g.NodeSet() == NodeSet() + {u, v}
      ensures g.edges == edges + {MkEdge(u, v)}
      ensures u in nodes && v in nodes ==> g.nodes == nodes
    {
      var h := AddNode(u).AddNode(v);
      Graph(h.nodes, h.edges + {MkEdge(u, v)})
    }
  }

  /** A networkx graph object, changed in place by the search. */
  class MutableGraph {
    var nodes: seq<int>
    var edges: set<Edge>

    function Value(): Graph
      reads this
    {
      Graph(nodes, edges)
    }

    /** `G.copy()`. */
    constructor Copy(g: Graph)
      ensures Value() == g
    {
      nodes := g.nodes;
      edges := g.edges;
    }

    /** networkx raises an error for a node that is not in the graph. */
    method RemoveNode(v: int)
      requires v in nodes
      modifies this
      ensures Value() == old(Value()).RemoveNode(v)
    {
      var g := Value().RemoveNode(v);
      nodes, edges := g.nodes, g.edges;
    }

    method AddNode(v: int)
      modifies this
      ensures Value() == old(Value()).AddNode(v)
    {
      var g := Value().AddNode(v);
      nodes, edges := g.nodes, g.edges;
    }

    method AddEdge(u: int, v: int)
      modifies this
      ensures Value() == old(Value()).AddEdge(u, v)
    {
      var g := Value().AddEdge(u, v);
      nodes, edges := g.nodes, g.edges;
    }
  }

  lemma EndpointsUnion(a: set<Edge>, b: set<Edge>)
    ensures Endpoints(a + b) == Endpoints(a) + Endpoints(b)
  {
  }

  /** The edges that row `row` of the adjacency list adds for vertex `u`. */
  function RowEdges(u: int, row: seq<int>): set<Edge> {
    set j | j in row :: MkEdge(u, j)
  }

  /** Every pair `{i + 1, j}` for `j` listed on row `i >= k` (rows numbered from 0). */
  function Listed(adj: seq<seq<int>>, k: nat): set<Edge> {
    set i, j | k <= i < |adj| && j in adj[i] :: MkEdge(i + 1, j)
  }

  lemma RowEdgesCons(u: int, row: seq<int>)
    requires row != []
    ensures RowEdges(u, row) == {MkEdge(u, row[0])} + RowEdges(u, row[1..])
    ensures Endpoints(RowEdges(u, row)) == {u, row[0]} + Endpoints(RowEdges(u, row[1..]))
  {
    var rest := RowEdges(u, row[1..]);
    forall e | e in RowEdges(u, row) ensures e in {MkEdge(u, row[0])} + rest {
      var j :| j in row && e == MkEdge(u, j);
      if j != row[0] {
        assert j in row[1..];
      }
    }
    EndpointsUnion({MkEdge(u, row[0])}, rest);
    assert Endpoints({MkEdge(u, row[0])}) == {u, row[0]};
  }

  /** The inner loop of `create_graph`: `add_edge(u, j)` for each `j` of `row`, in order. */
  function AddRow(g: Graph, u: int, row: seq<int>): (r: Graph)
    ensures g.Valid() ==> r.Valid()
    ensures r.edges == g.edges + RowEdges(u, row)
    ensures r.NodeSet() == g.NodeSet() + Endpoints(RowEdges(u, row))
    decreases |row|
  {
    if row == [] then g
    else
      var r := AddRow(g.AddEdge(u, row[0]), u, row[1..]);
      RowEdgesCons(u, row);
      r
  }

  lemma ListedCons(adj: seq<seq<int>>, k: nat)
    requires k < |adj|
    ensures Listed(adj, k) == RowEdges(k + 1, adj[k]) + Listed(adj, k + 1)
    ensures Endpoints(Listed(adj, k)) == Endpoints(RowEdges(k + 1, adj[k])) + Endpoints(Listed(adj, k + 1))
  {
    var row, rest := RowEdges(k + 1, adj[k]), Listed(adj, k + 1);
    forall e | e in Listed(adj, k) ensures e in row + rest {
      var i, j :| k <= i < |adj| && j in adj[i] && e == MkEdge(i + 1, j);
      if i == k {
        assert e in row;
      } else {
        assert e in rest;
      }
    }
    EndpointsUnion(row, rest);
  }

  /** The outer loop of `create_graph`, from row `k` on. */
  function AddRows(g: Graph, adj: seq<seq<int>>, k: nat): (r: Graph)
    requires k <= |adj|
    ensures g.Valid() ==> r.Valid()
    ensures r.edges == g.edges + Listed(adj, k)
    ensures r.NodeSet() == g.NodeSet() + Endpoints(Listed(adj, k))
    decreases |adj| - k
  {
    if k == |adj| then
      assert Listed(adj, k) == {};
      g
    else
      var r := AddRows(AddRow(g, k + 1, adj[k]), adj, k + 1);
      ListedCons(adj, k);
      r
  }

  /**
   * `create_graph(adj_list)`: the graph with an edge `{i + 1, j}` for every `j`
   * listed on row `i`.  Repeated and symmetric listings give one edge, and a
   * vertex is present exactly when it is the end point of some edge.
   */
  function CreateGraph(adj: seq<seq<int>>): (g: Graph)
    ensures g.Valid()
    ensures g.edges == Listed(adj, 0)
    ensures g.NodeSet() == Endpoints(g.edges)
  {
    AddRows(Graph([], {}), adj, 0)
  }

  /** The graph built from a list has a self-loop exactly when some row `i` lists `i + 1`. */
  lemma CreateGraphLoopless(adj: seq<seq<int>>)
    ensures CreateGraph(adj).Loopless() <==> forall i :: 0 <= i < |adj| ==> (i + 1) !in adj[i]
  {
    var g := CreateGraph(adj);
    if !g.Loopless() {
      var e :| e in g.edges && e.lo == e.hi;
      var i, j :| 0 <= i < |adj| && j in adj[i] && e == MkEdge(i + 1, j);
      assert (i + 1) in adj[i];
    }
    if exists i :: 0 <= i < |adj| && (i + 1) in adj[i] {
      var i :| 0 <= i < |adj| && (i + 1) in adj[i];
      assert MkEdge(i + 1, i + 1) in g.edges;
    }
  }
}
