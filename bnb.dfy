/**
 * `BnB(G, T)`: the depth-first branch-and-bound search for a minimum vertex
 * cover.  A LIFO frontier holds `(vertex, state, parent)` entries, the trail
 * `CurVC` the decisions on the current path, and one working graph `CurG` is
 * changed in place as decisions are applied and undone.
 *
 * The wall clock is an input: `clock[k]` is the elapsed time read at the end
 * of the k-th iteration.  It is also the step bound: the search stops when
 * the readings run out.
 */
module BranchAndBound {
  import opened Graphs
  import opened Bounds
  import opened Trails

  /** A frontier entry `(vertex, state, (parent vertex, parent state))`. */
  datatype Entry = Entry(v: int, state: int, parent: Decision)

  /** A line of the trace: the size of a better cover and the time it was found. */
  datatype TracePoint = TracePoint(size: int, elapsed: real)

  datatype Error = EmptyGraph

  datatype Outcome = Done(opt: seq<Decision>, times: seq<TracePoint>) | Failed(error: Error)

  /** The decisions `(n, 1)` for the neighbours `ns`, in order. */
  function Forced(ns: seq<int>): seq<Decision> {
    seq(|ns|, i requires 0 <= i < |ns| => Decision(ns[i], 1))
  }

  /** `g` after `remove_node(n)` for each `n` of `ns`, in order. */
  function RemoveAll(g: Graph, ns: seq<int>): Graph {
    if ns == [] then g else RemoveAll(g, ns[..|ns| - 1]).RemoveNode(ns[|ns| - 1])
  }

  /** `v` still has an edge in `G` to a vertex the trail does not include. */
  ghost predicate HasLiveEdge(g: Graph, t: seq<Decision>, v: int) {
    exists u :: MkEdge(u, v) in g.edges && u !in Included(t)
  }

  /** `CurVC.index(d)`: the first position of `d`. */
  function IndexOf(t: seq<Decision>, d: Decision): (k: nat)
    requires d in t
    ensures k < |t| && t[k] == d && d !in t[..k]
  {
    if t[0] == d then 0
    else
      var k := IndexOf(t[1..], d);
      assert t[1..][..k] == t[1..k + 1];
      1 + k
  }

  /** Including a vertex of the working graph keeps the working graph in step with the trail. */
  lemma MirrorsInclude(cur: Graph, g: Graph, t: seq<Decision>, u: int)
    requires Mirrors(cur, g, t) && u in g.nodes && u !in Included(t)
    ensures u in cur.nodes
    ensures Mirrors(cur.RemoveNode(u), g, t + [Decision(u, 1)])
  {
    assert u in cur.NodeSet();
    SnocSets(t, Decision(u, 1));
    var h := cur.RemoveNode(u);
    forall e | e in h.edges ensures !Touches(e, u) {
      assert e !in h.Incident(u);
    }
  }

  lemma IncludeOK(g: Graph, t: seq<Decision>, u: int)
    requires TrailOK(g, t) && u in g.nodes && u !in Vertices(t)
    ensures TrailOK(g, t + [Decision(u, 1)])
  {
    var s := t + [Decision(u, 1)];
    forall i, w | 0 <= i < |s| && s[i].state == 0 && MkEdge(w, s[i].v) in g.edges
      ensures w in Included(s[..i])
    {
      assert s[..i] == t[..i];
    }
    forall i, j | 0 <= i < j < |s| ensures s[i].v != s[j].v {
      if j == |t| {
        assert s[i].v in Vertices(t);
      }
    }
  }

  lemma ExcludeOK(g: Graph, t: seq<Decision>, v: int)
    requires TrailOK(g, t) && v in g.nodes && v !in Vertices(t)
    requires forall u :: MkEdge(u, v) in g.edges ==> u in Included(t)
    requires t != [] ==> t[|t| - 1].state == 1
    ensures TrailOK(g, t + [Decision(v, 0)])
    ensures Included(t + [Decision(v, 0)]) == Included(t)
  {
    var s := t + [Decision(v, 0)];
    SnocSets(t, Decision(v, 0));
    forall i, w | 0 <= i < |s| && s[i].state == 0 && MkEdge(w, s[i].v) in g.edges
      ensures w in Included(s[..i])
    {
      assert s[..i] == t[..i];
    }
    forall i, j | 0 <= i < j < |s| ensures s[i].v != s[j].v {
      if j == |t| {
        assert s[i].v in Vertices(t);
      }
    }
  }

  /** A vertex the trail does not include that still has a live edge is not on the trail at all. */
  lemma LiveVertexFresh(g: Graph, t: seq<Decision>, v: int)
    requires TrailOK(g, t) && HasLiveEdge(g, t, v) && v !in Included(t)
    ensures v !in Vertices(t)
  {
  }

  /** A current neighbour of a vertex off the trail is itself off the trail. */
  lemma NeighbourFresh(g: Graph, cur: Graph, t: seq<Decision>, v: int, u: int)
    requires g.Valid() && g.Loopless() && TrailOK(g, t) && Mirrors(cur, g, t)
    requires v !in Vertices(t) && MkEdge(u, v) in cur.edges
    ensures u in g.nodes && u !in Vertices(t) && u != v
  {
    assert MkEdge(v, u) == MkEdge(u, v);
    LiveVertexFresh(g, t, u);
  }

  /** The vertex `find_maxdeg` picks in a working graph with an edge left may be branched on. */
  lemma ChildEntry(g: Graph, cur: Graph, t: seq<Decision>)
    requires g.Valid() && g.Loopless() && TrailOK(g, t) && Mirrors(cur, g, t)
    requires cur.Valid() && cur.edges != {}
    ensures cur.nodes != []
    ensures FindMaxDeg(cur).0 in g.nodes && FindMaxDeg(cur).0 !in Vertices(t)
    ensures HasLiveEdge(g, t, FindMaxDeg(cur).0)
  {
    MaxDegreePositive(cur);
    var v := FindMaxDeg(cur).0;
    assert Edge(v, v) !in cur.edges;
    var e :| e in cur.Incident(v);
    var u := if e.lo == v then e.hi else e.lo;
    assert e == MkEdge(u, v);
    LiveVertexFresh(g, t, v);
  }

  /** A vertex that is included, or whose every neighbour in `G` is, has no edge in the working graph. */
  lemma Isolated(cur: Graph, g: Graph, t: seq<Decision>, v: int)
    requires g.Valid() && Mirrors(cur, g, t)
    requires v in Included(t) || forall u :: MkEdge(u, v) in g.edges ==> u in Included(t)
    ensures cur.Incident(v) == {}
  {
    forall e | e in cur.edges ensures !Touches(e, v) {
    }
  }

  /** The state-1 branch (line 114 of BnB.py): `vi` goes into the cover and leaves `CurG` with its edges. */
  method ApplyInclude(g: Graph, cur: MutableGraph, t: seq<Decision>, vi: int) returns (t2: seq<Decision>)
    requires g.Valid() && TrailOK(g, t)
    requires cur.Value().Valid() && Mirrors(cur.Value(), g, t)
    requires vi in g.nodes && vi !in Vertices(t)
    modifies cur
    ensures t2 == t + [Decision(vi, 1)] && cur.Value() == old(cur.Value()).RemoveNode(vi)
    ensures TrailOK(g, t2) && cur.Value().Valid() && Mirrors(cur.Value(), g, t2)
    ensures cur.Value().Incident(vi) == {}
  {
    MirrorsInclude(cur.Value(), g, t, vi);
    IncludeOK(g, t, vi);
    cur.RemoveNode(vi);
    t2 := t + [Decision(vi, 1)];
  }

  /**
   * The loop of the state-0 branch (lines 108-112 of BnB.py): each current neighbour of
   * `vi`, in order, is recorded as `(n, 1)` and removed from `CurG`.  The
   * neighbours are exactly the vertices joined to `vi` in `G` that the trail
   * does not include yet.
   */
  method ForceNeighbours(g: Graph, cur: MutableGraph, t: seq<Decision>, vi: int)
    returns (ns: seq<int>, t2: seq<Decision>)
    requires g.Valid() && g.Loopless() && TrailOK(g, t)
    requires cur.Value().Valid() && Mirrors(cur.Value(), g, t)
    requires vi in g.nodes && vi !in Vertices(t)
    modifies cur
    ensures ns == old(cur.Value()).NeighborList(vi)
    ensures forall u :: u in ns <==> MkEdge(u, vi) in g.edges && u !in Included(t)
    ensures t2 == t + Forced(ns) && cur.Value() == RemoveAll(old(cur.Value()), ns)
    ensures TrailOK(g, t2) && cur.Value().Valid() && Mirrors(cur.Value(), g, t2)
    ensures vi !in Vertices(t2)
    ensures forall u :: MkEdge(u, vi) in g.edges ==> u in Included(t2)
  {
    ghost var c0 := cur.Value();
    ns := cur.Value().NeighborList(vi);
    forall j | 0 <= j < |ns| ensures ns[j] in g.nodes && ns[j] !in Vertices(t) && ns[j] != vi {
      NeighbourFresh(g, c0, t, vi, ns[j]);
    }
    t2 := t;
    for k := 0 to |ns|
      invariant t2 == t + Forced(ns[..k])
      invariant TrailOK(g, t2) && cur.Value().Valid() && Mirrors(cur.Value(), g, t2)
      invariant cur.Value() == RemoveAll(c0, ns[..k])
    {
      var node := ns[k];
      ForceStep(t, ns, k);
      t2 := ApplyInclude(g, cur, t2, node);
    }
    assert ns[..|ns|] == ns;
    ForcedSets(t, ns);
    forall u | MkEdge(u, vi) in g.edges ensures u in Included(t2) {
      if u !in Included(t) {
        assert MkEdge(u, vi) in c0.edges;
      }
    }
  }

  /** The next forced neighbour is still fresh, and forcing it extends the forced decisions by one. */
  lemma ForceStep(t: seq<Decision>, ns: seq<int>, k: nat)
    requires k < |ns| && Distinct(ns) && forall j :: 0 <= j < |ns| ==> ns[j] !in Vertices(t)
    ensures ns[k] !in Vertices(t + Forced(ns[..k]))
    ensures ns[..k + 1][..k] == ns[..k]
    ensures Forced(ns[..k + 1]) == Forced(ns[..k]) + [Decision(ns[k], 1)]
  {
    ForcedSets(t, ns[..k]);
    assert ns[k] !in ns[..k];
    assert ns[..k + 1][..k] == ns[..k];
  }

  /** Forcing the vertices `ns` adds them to both the included and the named vertices. */
  lemma {:induction false} ForcedSets(t: seq<Decision>, ns: seq<int>)
    ensures Included(t + Forced(ns)) == Included(t) + (set x | x in ns)
    ensures Vertices(t + Forced(ns)) == Vertices(t) + (set x | x in ns)
  {
    if ns != [] {
      var p := ns[..|ns| - 1];
      ForcedSets(t, p);
      assert Forced(ns) == Forced(p) + [Decision(ns[|ns| - 1], 1)];
      assert t + Forced(ns) == (t + Forced(p)) + [Decision(ns[|ns| - 1], 1)];
      SnocSets(t + Forced(p), Decision(ns[|ns| - 1], 1));
      assert ns == p + [ns[|ns| - 1]];
      assert (set x | x in ns) == (set x | x in p) + {ns[|ns| - 1]};
    } else {
      assert t + Forced(ns) == t;
    }
  }

  /** The state-0 branch (lines 107-112 and 118 of BnB.py): the neighbours are forced, then `(vi, 0)` is recorded. */
  method ApplyExclude(g: Graph, cur: MutableGraph, t: seq<Decision>, vi: int) returns (t2: seq<Decision>)
    requires g.Valid() && g.Loopless() && TrailOK(g, t)
    requires cur.Value().Valid() && Mirrors(cur.Value(), g, t)
    requires vi in g.nodes && vi !in Vertices(t)
    requires t != [] ==> HasLiveEdge(g, t, vi)
    modifies cur
    ensures var ns := old(cur.Value()).NeighborList(vi);
            t2 == t + Forced(ns) + [Decision(vi, 0)] && cur.Value() == RemoveAll(old(cur.Value()), ns)
    ensures TrailOK(g, t2) && cur.Value().Valid() && Mirrors(cur.Value(), g, t2)
    ensures cur.Value().Incident(vi) == {}
  {
    var ns, forced := ForceNeighbours(g, cur, t, vi);
    assert forced != [] ==> forced[|forced| - 1].state == 1;
    ExcludeOK(g, forced, vi);
    Isolated(cur.Value(), g, forced, vi);
    t2 := forced + [Decision(vi, 0)];
  }

  /**
   * Applying `(vi, state)` (lines 103-119 of BnB.py).  State 1 removes `vi`; state 0
   * removes every current neighbour of `vi` and records it as `(n, 1)` before
   * `(vi, 0)`.  Either way `vi` has no edge left, and the trail grows by one
   * entry plus one per forced neighbour.
   */
  method Apply(g: Graph, cur: MutableGraph, t: seq<Decision>, vi: int, state: int) returns (t2: seq<Decision>)
    requires g.Valid() && g.Loopless() && TrailOK(g, t)
    requires cur.Value().Valid() && Mirrors(cur.Value(), g, t)
    requires state == 0 || state == 1
    requires vi in g.nodes && vi !in Vertices(t)
    requires state == 0 && t != [] ==> HasLiveEdge(g, t, vi)
    modifies cur
    ensures TrailOK(g, t2) && cur.Value().Valid() && Mirrors(cur.Value(), g, t2)
    ensures state == 1 ==> t2 == t + [Decision(vi, 1)] && cur.Value() == old(cur.Value()).RemoveNode(vi)
    ensures state == 0 ==>
              var ns := old(cur.Value()).NeighborList(vi);
              t2 == t + Forced(ns) + [Decision(vi, 0)] && cur.Value() == RemoveAll(old(cur.Value()), ns)
    ensures cur.Value().Incident(vi) == {}
  {
    if state == 1 {
      t2 := ApplyInclude(g, cur, t, vi);
    } else {
      t2 := ApplyExclude(g, cur, t, vi);
    }
  }

  /** The undo of a pop: a popped state-0 vertex was never removed from the working graph. */
  lemma UndoCondition(g: Graph, t: seq<Decision>, nd: int)
    requires TrailOK(g, t) && t != []
    requires MkEdge(nd, t[|t| - 1].v) in g.edges && nd !in Included(t[..|t| - 1])
    ensures nd !in Vertices(t[..|t| - 1])
  {
    var p, m := t[..|t| - 1], t[|t| - 1].v;
    PrefixOK(g, t, |t| - 1);
    assert forall i :: 0 <= i < |p| ==> p[i] == t[i];
    assert m !in Included(p);
    forall i | 0 <= i < |p| ensures p[i].v == nd ==> p[i].state == 1 {
      assert p[i].v == nd ==> MkEdge(m, p[i].v) in g.edges;
      NeighbourOfOutsiderIncluded(g, p, m, i);
    }
  }

  /** A trail vertex joined in `G` to a vertex the trail does not include was itself included. */
  lemma NeighbourOfOutsiderIncluded(g: Graph, p: seq<Decision>, m: int, i: int)
    requires TrailOK(g, p) && m !in Included(p) && 0 <= i < |p|
    ensures MkEdge(m, p[i].v) in g.edges ==> p[i].state == 1
  {
    PrefixSets(p, i);
  }

  /** In the undo loop, `nd in CurG.nodes() and nd not in curVC_nodes` holds exactly for the neighbours the shorter trail does not include. */
  lemma UndoStep(g: Graph, t: seq<Decision>, cur: Graph, nd: int)
    requires g.Valid() && TrailOK(g, t) && t != []
    requires cur.NodeSet() == g.NodeSet() - Included(t[..|t| - 1])
    requires MkEdge(nd, t[|t| - 1].v) in g.edges
    ensures (nd in cur.nodes && nd !in Vertices(t[..|t| - 1])) <==> nd !in Included(t[..|t| - 1])
  {
    assert nd in g.nodes;
    assert nd in cur.nodes <==> nd in cur.NodeSet();
    if nd !in Included(t[..|t| - 1]) {
      UndoCondition(g, t, nd);
    }
  }

  lemma RestoredNext(ns: seq<int>, k: nat, m: int, p: seq<Decision>)
    requires k < |ns|
    ensures Restored(ns, k + 1, m, p) == Restored(ns, k, m, p) + (if ns[k] !in Included(p) then {MkEdge(ns[k], m)} else {})
  {
  }

  /** The edges put back when the last decision is undone. */
  function Restored(ns: seq<int>, k: nat, m: int, p: seq<Decision>): set<Edge>
    requires k <= |ns|
  {
    set j | 0 <= j < k && ns[j] !in Included(p) :: MkEdge(ns[j], m)
  }

  /** Putting back every edge from the popped vertex to a non-included neighbour restores the uncovered edges of the shorter trail. */
  lemma UndoEdges(g: Graph, t: seq<Decision>)
    requires g.Valid() && TrailOK(g, t) && t != []
    ensures Uncovered(g, t) + Restored(g.NeighborList(t[|t| - 1].v), |g.NeighborList(t[|t| - 1].v)|, t[|t| - 1].v, t[..|t| - 1])
            == Uncovered(g, t[..|t| - 1])
  {
    var p, d := t[..|t| - 1], t[|t| - 1];
    var m, ns := d.v, g.NeighborList(d.v);
    assert t == p + [d];
    SnocSets(p, d);
    var back := Restored(ns, |ns|, m, p);
    forall e | e in Uncovered(g, p) ensures e in Uncovered(g, t) + back {
      if e !in Uncovered(g, t) {
        var u := if e.lo == m then e.hi else e.lo;
        assert e == MkEdge(u, m);
        var j :| 0 <= j < |ns| && ns[j] == u;
        assert e in back;
      }
    }
    forall e | e in back ensures e in Uncovered(g, p) {
      var j :| 0 <= j < |ns| && ns[j] !in Included(p) && e == MkEdge(ns[j], m);
      assert m !in Included(p) by {
        assert m !in Vertices(p);
      }
    }
  }

  /**
   * The loop of lines 161-164 of BnB.py: `add_edge(nd, mynode)` for each neighbour `nd`
   * present in `CurG` and not named in `CurVC`, that is, each neighbour the
   * shorter trail `p` does not include.
   */
  method Reconnect(cur: MutableGraph, ns: seq<int>, m: int, curVcNodes: seq<int>, ghost p: seq<Decision>)
    requires cur.Value().Valid() && m in cur.nodes
    requires forall j :: 0 <= j < |ns| ==> ((ns[j] in cur.nodes && ns[j] !in curVcNodes) <==> ns[j] !in Included(p))
    modifies cur
    ensures cur.Value().Valid() && cur.nodes == old(cur.nodes)
    ensures cur.edges == old(cur.edges) + Restored(ns, |ns|, m, p)
  {
    for k := 0 to |ns|
      invariant cur.Value().Valid() && cur.nodes == old(cur.nodes)
      invariant cur.edges == old(cur.edges) + Restored(ns, k, m, p)
    {
      var nd := ns[k];
      RestoredNext(ns, k, m, p);
      if nd in cur.nodes && nd !in curVcNodes {
        cur.AddEdge(nd, m);
      }
    }
  }

  /**
   * Undoing the last decision (lines 153-164 of BnB.py): pop it, put its vertex back
   * and add the edges to its neighbours in `G` that are present in `CurG` and
   * not named in `CurVC`.
   */
  method Undo(g: Graph, cur: MutableGraph, t: seq<Decision>) returns (p: seq<Decision>)
    requires g.Valid() && TrailOK(g, t) && t != []
    requires cur.Value().Valid() && Mirrors(cur.Value(), g, t)
    modifies cur
    ensures p == t[..|t| - 1]
    ensures cur.nodes == old(cur.Value()).AddNode(t[|t| - 1].v).nodes
    ensures TrailOK(g, p) && cur.Value().Valid() && Mirrors(cur.Value(), g, p)
  {
    var mynode := t[|t| - 1].v;
    p := t[..|t| - 1];
    assert t == p + [t[|t| - 1]];
    SnocSets(p, t[|t| - 1]);
    PrefixOK(g, t, |t| - 1);
    cur.AddNode(mynode);
    var curVcNodes := VertexList(p);
    var ns := g.NeighborList(mynode);
    forall j | 0 <= j < |ns|
      ensures (ns[j] in cur.nodes && ns[j] !in curVcNodes) <==> ns[j] !in Included(p)
    {
      UndoStep(g, t, cur.Value(), ns[j]);
    }
    Reconnect(cur, ns, mynode, curVcNodes, p);
    UndoEdges(g, t);
  }

  /**
   * The node list of `CurG` after the undo loop has popped the decisions `s`
   * off the end of the trail, starting from `cur`: `add_node` of each popped
   * vertex, the last decision first.  Only the nodes of the result are meant;
   * its edges are those of `cur`.
   */
  function PutBack(cur: Graph, s: seq<Decision>): Graph
    decreases |s|
  {
    if s == [] then cur else PutBack(cur, s[1..]).AddNode(s[0].v)
  }

  /**
   * Backtracking to `parent` (lines 148-171 of BnB.py): undo back to its first position
   * on the trail, or start over from a copy of `G` for the root sentinel, or
   * (the error branch) change nothing.
   */
  method Backtrack(g: Graph, cur: MutableGraph, t: seq<Decision>, parent: Decision)
    returns (cur2: MutableGraph, t2: seq<Decision>)
    requires g.Valid() && TrailOK(g, t)
    requires cur.Value().Valid() && Mirrors(cur.Value(), g, t)
    modifies cur
    ensures cur2 == cur || fresh(cur2)
    ensures TrailOK(g, t2) && cur2.Value().Valid() && Mirrors(cur2.Value(), g, t2)
    ensures parent in t ==> t2 == t[..IndexOf(t, parent) + 1] && cur2 == cur
    ensures parent in t ==> cur2.nodes == PutBack(old(cur.Value()), t[IndexOf(t, parent) + 1..]).nodes
    ensures parent !in t && parent == Root ==> t2 == [] && cur2.Value() == g
    ensures parent !in t && parent != Root ==> t2 == t && cur2 == cur && cur.Value() == old(cur.Value())
  {
    if parent in t {
      var id := IndexOf(t, parent) + 1;
      cur2, t2 := cur, t;
      ghost var c0 := cur.Value();
      while id < |t2|
        invariant id <= |t2| <= |t| && t2 == t[..|t2|]
        invariant TrailOK(g, t2) && cur.Value().Valid() && Mirrors(cur.Value(), g, t2)
        invariant cur.nodes == PutBack(c0, t[|t2|..]).nodes
        decreases |t2|
      {
        ghost var n := |t2|;
        assert t[n - 1..][1..] == t[n..];
        t2 := Undo(g, cur, t2);
      }
    } else if parent == Root {
      t2 := [];
      cur2 := new MutableGraph.Copy(g);
    } else {
      cur2, t2 := cur, t;
    }
  }

  /** A frontier entry is ready to be applied on top of its snapshot trail `s`. */
  ghost predicate EntryOK(g: Graph, e: Entry, s: seq<Decision>) {
    && (e.state == 0 || e.state == 1)
    && e.v in g.nodes && e.v !in Vertices(s)
    && (s == [] ==> e.parent == Root)
    && (s != [] ==> e.parent == s[|s| - 1] && HasLiveEdge(g, s, e.v))
  }

  /**
   * The frontier with the ghost snapshots `snaps`: `snaps[k]` is the trail
   * when `frontier[k]` was pushed.  The snapshots are prefixes of one another
   * and of the current trail.
   */
  ghost predicate ChainOK(g: Graph, t: seq<Decision>, frontier: seq<Entry>, snaps: seq<seq<Decision>>) {
    && |snaps| == |frontier|
    && (forall k :: 0 <= k < |snaps| ==> snaps[k] <= t)
    && (forall i, j :: 0 <= i <= j < |snaps| ==> snaps[i] <= snaps[j])
    && (forall k :: 0 <= k < |frontier| ==> EntryOK(g, frontier[k], snaps[k]))
  }

  /** At the head of the loop the trail is the snapshot of the top entry. */
  ghost predicate FrontierOK(g: Graph, t: seq<Decision>, frontier: seq<Entry>, snaps: seq<seq<Decision>>) {
    && ChainOK(g, t, frontier, snaps)
    && (frontier != [] ==> t == snaps[|snaps| - 1])
  }

  /** What `OptVC`, `UpperBound` and `times` promise about the covers found so far. */
  ghost predicate BestOK(g: Graph, opt: seq<Decision>, upperBound: int, times: seq<TracePoint>) {
    && (times == [] ==> opt == [] && upperBound == |g.nodes|)
    && (times != [] ==>
          && opt != [] && TrailOK(g, opt)
          && upperBound == times[|times| - 1].size == |Included(opt)|
          && Covers(g.edges, Included(opt)))
    && (forall i, j :: 0 <= i < j < |times| ==> times[i].size > times[j].size)
    && (forall i :: 0 <= i < |times| ==> 0 <= times[i].size < |g.nodes|)
  }

  /** The trail after `(vi, state)` is applied to the trail `t` with working graph `cur` (lines 103-119 of BnB.py). */
  function Applied(cur: Graph, t: seq<Decision>, vi: int, state: int): seq<Decision>
    requires cur.Valid()
  {
    if state == 1 then t + [Decision(vi, 1)] else t + Forced(cur.NeighborList(vi)) + [Decision(vi, 0)]
  }

  /** The working graph after the same decision. */
  function AppliedGraph(cur: Graph, vi: int, state: int): Graph
    requires cur.Valid()
  {
    if state == 1 then cur.RemoveNode(vi) else RemoveAll(cur, cur.NeighborList(vi))
  }

  /** The vertex set `c` agrees with every decision of `t`: it holds the state-1 vertices and none of the state-0 ones. */
  ghost predicate Consistent(c: set<int>, t: seq<Decision>) {
    forall i :: 0 <= i < |t| ==> (t[i].v in c <==> t[i].state == 1)
  }

  /** `c` lies in the subtree of some frontier entry: it agrees with that entry's snapshot and its decision. */
  ghost predicate Kept(c: set<int>, frontier: seq<Entry>, snaps: seq<seq<Decision>>) {
    exists k :: 0 <= k < |frontier| && k < |snaps| && Consistent(c, snaps[k] + [Decision(frontier[k].v, frontier[k].state)])
  }

  /** No cover smaller than the upper bound has been lost: each lies below an entry still on the frontier. */
  ghost predicate NoCoverLost(g: Graph, frontier: seq<Entry>, snaps: seq<seq<Decision>>, upperBound: int) {
    forall c :: Covers(g.edges, c) && |c| < upperBound ==> Kept(c, frontier, snaps)
  }

  /** The same, while the popped entry's trail `a` is being explored. */
  ghost predicate NoCoverLostBut(g: Graph, frontier: seq<Entry>, snaps: seq<seq<Decision>>, upperBound: int, a: seq<Decision>) {
    forall c :: Covers(g.edges, c) && |c| < upperBound ==> Kept(c, frontier, snaps) || Consistent(c, a)
  }

  /** A set that agrees with a trail contains its included vertices. */
  lemma ConsistentIncluded(c: set<int>, t: seq<Decision>)
    ensures Consistent(c, t) ==> Included(t) <= c && |Included(t)| <= |c|
  {
    if Consistent(c, t) {
      assert Included(t) <= c;
      SubsetCard(Included(t), c);
    }
  }

  /** The two root entries on the empty trail form a well-formed frontier. */
  lemma RootFrontier(g: Graph, v: int)
    requires v in g.nodes
    ensures FrontierOK(g, [], [Entry(v, 0, Root), Entry(v, 1, Root)], [[], []])
  {
  }

  /** Both branches at the root entries cover every set. */
  lemma RootKeeps(g: Graph, v: int, upperBound: int)
    ensures NoCoverLost(g, [Entry(v, 0, Root), Entry(v, 1, Root)], [[], []], upperBound)
  {
    var f, s: seq<seq<Decision>> := [Entry(v, 0, Root), Entry(v, 1, Root)], [[], []];
    forall c | Covers(g.edges, c) && |c| < upperBound ensures Kept(c, f, s) {
      var k := if v in c then 1 else 0;
      assert s[k] + [Decision(f[k].v, f[k].state)] == [Decision(v, k)];
      assert Consistent(c, s[k] + [Decision(f[k].v, f[k].state)]);
    }
  }

  /** A cover that agrees with `t` and the decision `(vi, state)` agrees with the trail the decision produces. */
  lemma ApplyConsistent(g: Graph, cur: Graph, t: seq<Decision>, vi: int, state: int, c: set<int>)
    requires g.Valid() && cur.Valid() && Mirrors(cur, g, t) && Covers(g.edges, c)
    requires state == 0 || state == 1
    requires Consistent(c, t + [Decision(vi, state)])
    ensures Consistent(c, Applied(cur, t, vi, state))
  {
    var s := t + [Decision(vi, state)];
    assert forall i :: 0 <= i < |t| ==> s[i] == t[i];
    if state == 0 {
      var ns := cur.NeighborList(vi);
      var a := Applied(cur, t, vi, state);
      assert s[|t|] == Decision(vi, 0);
      forall i | 0 <= i < |a| ensures a[i].v in c <==> a[i].state == 1 {
        if i < |t| {
          assert a[i] == t[i];
        } else if i < |t| + |ns| {
          var n := ns[i - |t|];
          assert a[i] == Decision(n, 1);
          assert MkEdge(n, vi) in g.edges;
        } else {
          assert a[i] == Decision(vi, 0);
        }
      }
    }
  }

  /** Popping the top entry: a kept cover below it agrees with the trail the entry's decision produces. */
  lemma PopKeeps(g: Graph, cur: Graph, t: seq<Decision>, frontier: seq<Entry>, snaps: seq<seq<Decision>>, upperBound: int)
    requires g.Valid() && cur.Valid() && Mirrors(cur, g, t)
    requires FrontierOK(g, t, frontier, snaps) && frontier != []
    requires NoCoverLost(g, frontier, snaps, upperBound)
    ensures var e := frontier[|frontier| - 1];
            NoCoverLostBut(g, frontier[..|frontier| - 1], snaps[..|snaps| - 1], upperBound, Applied(cur, t, e.v, e.state))
  {
    var n, e := |frontier|, frontier[|frontier| - 1];
    var f, s := frontier[..n - 1], snaps[..n - 1];
    forall c | Covers(g.edges, c) && |c| < upperBound
      ensures Kept(c, f, s) || Consistent(c, Applied(cur, t, e.v, e.state))
    {
      var k :| 0 <= k < n && k < |snaps| && Consistent(c, snaps[k] + [Decision(frontier[k].v, frontier[k].state)]);
      if k < n - 1 {
        assert f[k] == frontier[k] && s[k] == snaps[k];
      } else {
        assert EntryOK(g, e, snaps[k]);
        ApplyConsistent(g, cur, t, e.v, e.state, c);
      }
    }
  }

  /** After a leaf, a cover below the explored trail is no smaller than the new upper bound. */
  lemma LeafKeeps(g: Graph, frontier: seq<Entry>, snaps: seq<seq<Decision>>, upperBound: int, a: seq<Decision>, upperBound2: int)
    requires NoCoverLostBut(g, frontier, snaps, upperBound, a)
    requires upperBound2 <= upperBound && upperBound2 <= |Included(a)|
    ensures NoCoverLost(g, frontier, snaps, upperBound2)
  {
    forall c | Covers(g.edges, c) && |c| < upperBound2 ensures Kept(c, frontier, snaps) {
      ConsistentIncluded(c, a);
    }
  }

  /** After a prune, no cover below the explored trail beats the upper bound. */
  lemma PruneKeeps(g: Graph, cur: Graph, frontier: seq<Entry>, snaps: seq<seq<Decision>>, upperBound: int, a: seq<Decision>)
    requires g.Valid() && cur.Valid() && TrailOK(g, a) && Mirrors(cur, g, a) && cur.edges != {}
    requires Lowerbound(cur) + |Included(a)| >= upperBound
    requires NoCoverLostBut(g, frontier, snaps, upperBound, a)
    ensures NoCoverLost(g, frontier, snaps, upperBound)
  {
    SumStatesCountsIncluded(a);
    forall c | Covers(g.edges, c) && |c| < upperBound ensures Kept(c, frontier, snaps) {
      ConsistentIncluded(c, a);
      if Included(a) <= c {
        PruneSound(g, cur, a, c);
      }
    }
  }

  /** After an expansion, a cover below the explored trail lies below one of the two children. */
  lemma ExpandKeeps(g: Graph, frontier: seq<Entry>, snaps: seq<seq<Decision>>, upperBound: int, a: seq<Decision>, vj: int, p: Decision)
    requires |snaps| == |frontier| && NoCoverLostBut(g, frontier, snaps, upperBound, a)
    ensures NoCoverLost(g, frontier + [Entry(vj, 0, p), Entry(vj, 1, p)], snaps + [a, a], upperBound)
  {
    var f, s := frontier + [Entry(vj, 0, p), Entry(vj, 1, p)], snaps + [a, a];
    forall c | Covers(g.edges, c) && |c| < upperBound ensures Kept(c, f, s) {
      if Kept(c, frontier, snaps) {
        var k :| 0 <= k < |frontier| && k < |snaps| && Consistent(c, snaps[k] + [Decision(frontier[k].v, frontier[k].state)]);
        assert f[k] == frontier[k] && s[k] == snaps[k];
      } else {
        var k := if vj in c then |frontier| + 1 else |frontier|;
        var d := Decision(vj, if vj in c then 1 else 0);
        assert f[k].v == vj && f[k].state == d.state && s[k] == a;
        assert forall i :: 0 <= i < |a| ==> (a + [d])[i] == a[i];
        assert Consistent(c, s[k] + [Decision(f[k].v, f[k].state)]);
      }
    }
  }

  lemma PopEntry(g: Graph, t: seq<Decision>, frontier: seq<Entry>, snaps: seq<seq<Decision>>)
    requires FrontierOK(g, t, frontier, snaps) && frontier != []
    ensures EntryOK(g, frontier[|frontier| - 1], t)
    ensures ChainOK(g, t, frontier[..|frontier| - 1], snaps[..|snaps| - 1])
  {
  }

  lemma ChainGrow(g: Graph, t: seq<Decision>, t2: seq<Decision>, frontier: seq<Entry>, snaps: seq<seq<Decision>>)
    requires ChainOK(g, t, frontier, snaps) && t <= t2
    ensures ChainOK(g, t2, frontier, snaps)
  {
    forall k | 0 <= k < |snaps| ensures snaps[k] <= t2 {
      assert snaps[k] <= t;
    }
  }

  lemma PushChildren(g: Graph, t: seq<Decision>, frontier: seq<Entry>, snaps: seq<seq<Decision>>, e0: Entry, e1: Entry)
    requires ChainOK(g, t, frontier, snaps) && EntryOK(g, e0, t) && EntryOK(g, e1, t)
    ensures FrontierOK(g, t, frontier + [e0, e1], snaps + [t, t])
  {
    var f, s := frontier + [e0, e1], snaps + [t, t];
    forall k | 0 <= k < |f| ensures EntryOK(g, f[k], s[k]) {
      if k < |frontier| {
        assert f[k] == frontier[k] && s[k] == snaps[k];
      }
    }
    forall i, j | 0 <= i <= j < |s| ensures s[i] <= s[j] {
      if j < |snaps| {
        assert s[i] == snaps[i] && s[j] == snaps[j];
      } else if i < |snaps| {
        assert s[i] == snaps[i];
      }
    }
  }

  /** Backtracking to the top entry's parent brings the trail back to that entry's snapshot. */
  lemma BacktrackTarget(g: Graph, t: seq<Decision>, frontier: seq<Entry>, snaps: seq<seq<Decision>>)
    requires TrailOK(g, t) && ChainOK(g, t, frontier, snaps) && frontier != []
    ensures var p, s := frontier[|frontier| - 1].parent, snaps[|snaps| - 1];
            && (s == [] ==> p == Root && p !in t)
            && (s != [] ==> p in t && t[..IndexOf(t, p) + 1] == s)
    ensures FrontierOK(g, snaps[|snaps| - 1], frontier, snaps)
  {
    var p, s := frontier[|frontier| - 1].parent, snaps[|snaps| - 1];
    assert EntryOK(g, frontier[|frontier| - 1], s);
    assert s <= t;
    if s == [] {
      assert Root !in t;
    } else {
      ParentPosition(t, s);
    }
  }

  /** Recording a strictly smaller cover keeps the best-so-far facts. */
  lemma BestRecord(g: Graph, opt: seq<Decision>, upperBound: int, times: seq<TracePoint>, t: seq<Decision>, now: real)
    requires BestOK(g, opt, upperBound, times)
    requires t != [] && TrailOK(g, t) && Covers(g.edges, Included(t)) && |Included(t)| < upperBound
    ensures BestOK(g, t, |Included(t)|, times + [TracePoint(|Included(t)|, now)])
  {
  }

  /** The parent stored with an entry is found on the trail exactly at the end of the entry's snapshot. */
  lemma ParentPosition(t: seq<Decision>, s: seq<Decision>)
    requires DistinctVertices(t) && s <= t && s != []
    ensures s[|s| - 1] in t && IndexOf(t, s[|s| - 1]) == |s| - 1
  {
    assert t[|s| - 1] == s[|s| - 1];
    var k := IndexOf(t, s[|s| - 1]);
    assert t[k].v == t[|s| - 1].v;
  }

  /**
   * What one iteration (lines 103-171 of BnB.py) leaves once the popped
   * entry's decision `d` has been applied, giving the trail `a` and the
   * working graph `h`, with `frontier` the entries left below it: a smaller
   * leaf becomes the best cover; a partial solution that may still beat the
   * bound pushes the two children of `find_maxdeg(h)`; otherwise the search
   * backtracks to the parent of the next entry.  `same` says whether
   * `CurG` is still the same object.
   */
  ghost predicate Settled(g: Graph, h: Graph, a: seq<Decision>, d: Decision, frontier: seq<Entry>,
                          optVc: seq<Decision>, upperBound: int, times: seq<TracePoint>, now: real,
                          h2: Graph, same: bool, a2: seq<Decision>, frontier2: seq<Entry>,
                          optVc2: seq<Decision>, upperBound2: int, times2: seq<TracePoint>) {
    && h.Valid()
    && (h.edges == {} && |Included(a)| < upperBound ==>
          optVc2 == a && upperBound2 == |Included(a)| && times2 == times + [TracePoint(|Included(a)|, now)])
    && (h.edges != {} || |Included(a)| >= upperBound ==>
          optVc2 == optVc && upperBound2 == upperBound && times2 == times)
    && var expand := h.edges != {} && Lowerbound(h) + |Included(a)| < upperBound;
       && (expand ==>
             && frontier2 == frontier + [Entry(FindMaxDeg(h).0, 0, d), Entry(FindMaxDeg(h).0, 1, d)]
             && a2 == a && same && h2 == h)
       && (!expand ==> frontier2 == frontier)
       && (!expand && frontier == [] ==> a2 == a && same && h2 == h)
       && (!expand && frontier != [] ==> Retreated(g, h, a, frontier[|frontier| - 1].parent, h2, same, a2))
  }

  /**
   * The state one iteration leads to from the working graph `cur`, trail `t`,
   * frontier, best cover, bound and trace, with the reading `now`: the top
   * entry `e` is popped and applied, then the iteration settles as above.
   * With the edge sets fixed by `Mirrors`, this gives the whole new state.
   */
  ghost predicate Stepped(g: Graph, cur: Graph, t: seq<Decision>, frontier: seq<Entry>,
                          optVc: seq<Decision>, upperBound: int, times: seq<TracePoint>, now: real,
                          cur2: Graph, same: bool, t2: seq<Decision>, frontier2: seq<Entry>,
                          optVc2: seq<Decision>, upperBound2: int, times2: seq<TracePoint>) {
    && frontier != [] && cur.Valid()
    && var e := frontier[|frontier| - 1];
       Settled(g, AppliedGraph(cur, e.v, e.state), Applied(cur, t, e.v, e.state), Decision(e.v, e.state),
               frontier[..|frontier| - 1], optVc, upperBound, times, now,
               cur2, same, t2, frontier2, optVc2, upperBound2, times2)
  }

  /** One iteration of the main loop (lines 103-171 of BnB.py). */
  method Step(g: Graph, curG: MutableGraph, curVc: seq<Decision>, frontier: seq<Entry>, ghost snaps: seq<seq<Decision>>,
              optVc: seq<Decision>, upperBound: int, times: seq<TracePoint>, now: real)
    returns (curG2: MutableGraph, curVc2: seq<Decision>, frontier2: seq<Entry>, ghost snaps2: seq<seq<Decision>>,
             optVc2: seq<Decision>, upperBound2: int, times2: seq<TracePoint>)
    requires g.Valid() && g.Loopless()
    requires TrailOK(g, curVc) && curG.Value().Valid() && Mirrors(curG.Value(), g, curVc)
    requires FrontierOK(g, curVc, frontier, snaps) && frontier != []
    requires BestOK(g, optVc, upperBound, times)
    requires NoCoverLost(g, frontier, snaps, upperBound)
    modifies curG
    ensures curG2 == curG || fresh(curG2)
    ensures TrailOK(g, curVc2) && curG2.Value().Valid() && Mirrors(curG2.Value(), g, curVc2)
    ensures FrontierOK(g, curVc2, frontier2, snaps2)
    ensures BestOK(g, optVc2, upperBound2, times2)
    ensures NoCoverLost(g, frontier2, snaps2, upperBound2)
    ensures Measure(g, frontier2, snaps2) < Measure(g, frontier, snaps)
    ensures times2 == times || (|times2| == |times| + 1 && times2[..|times|] == times && times2[|times|].elapsed == now)
    ensures Stepped(g, old(curG.Value()), curVc, frontier, optVc, upperBound, times, now,
                    curG2.Value(), curG2 == curG, curVc2, frontier2, optVc2, upperBound2, times2)
  {
    var e, a, f, curVcSize;
    ghost var s;
    e, a, f, s, curVcSize := PopApply(g, curG, curVc, frontier, snaps, upperBound);
    ghost var h := curG.Value();
    curG2, curVc2, frontier2, snaps2, optVc2, upperBound2, times2 :=
      Settle(g, curG, a, curVcSize, Decision(e.v, e.state), f, s, optVc, upperBound, times, now);
    AppliedVertices(old(curG.Value()), curVc, e.v, e.state);
    if |frontier2| == |f| {
      PopDrops(g, frontier, snaps);
    } else {
      ChildEntry(g, h, a);
      ExpandDrops(g, frontier, snaps, a, FindMaxDeg(h).0, Decision(e.v, e.state));
    }
  }

  /** Lines 121-171 of BnB.py, after the decision `parent` has given the trail `a`: record, expand or prune, then backtrack. */
  method Settle(g: Graph, curG: MutableGraph, a: seq<Decision>, size: int, parent: Decision,
                frontier: seq<Entry>, ghost snaps: seq<seq<Decision>>,
                optVc: seq<Decision>, upperBound: int, times: seq<TracePoint>, now: real)
    returns (curG2: MutableGraph, curVc2: seq<Decision>, frontier2: seq<Entry>, ghost snaps2: seq<seq<Decision>>,
             optVc2: seq<Decision>, upperBound2: int, times2: seq<TracePoint>)
    requires g.Valid() && g.Loopless()
    requires TrailOK(g, a) && curG.Value().Valid() && Mirrors(curG.Value(), g, a)
    requires a != [] && parent == a[|a| - 1] && size == |Included(a)|
    requires ChainOK(g, a, frontier, snaps)
    requires BestOK(g, optVc, upperBound, times)
    requires NoCoverLostBut(g, frontier, snaps, upperBound, a)
    modifies curG
    ensures curG2 == curG || fresh(curG2)
    ensures TrailOK(g, curVc2) && curG2.Value().Valid() && Mirrors(curG2.Value(), g, curVc2)
    ensures FrontierOK(g, curVc2, frontier2, snaps2)
    ensures BestOK(g, optVc2, upperBound2, times2)
    ensures NoCoverLost(g, frontier2, snaps2, upperBound2)
    ensures |frontier2| == |frontier| ==> snaps2 == snaps
    ensures |frontier2| != |frontier| ==> snaps2 == snaps + [a, a]
    ensures times2 == times || (|times2| == |times| + 1 && times2[..|times|] == times && times2[|times|].elapsed == now)
    ensures Settled(g, old(curG.Value()), a, parent, frontier, optVc, upperBound, times, now,
                    curG2.Value(), curG2 == curG, curVc2, frontier2, optVc2, upperBound2, times2)
  {
    curG2, curVc2, optVc2, upperBound2, times2 := curG, a, optVc, upperBound, times;
    ghost var h := curG.Value();
    var backtrack := false;
    if curG.edges == {} {
      optVc2, upperBound2, times2 := RecordLeaf(g, curG.Value(), a, size, optVc, upperBound, times, now, frontier, snaps);
      frontier2, snaps2, backtrack := frontier, snaps, true;
    } else {
      frontier2, snaps2, backtrack := Expand(g, curG.Value(), a, size, parent, frontier, snaps, upperBound);
    }
    assert curG.Value() == h;
    assert backtrack == !(h.edges != {} && Lowerbound(h) + size < upperBound);
    if backtrack && frontier2 != [] {
      curG2, curVc2 := BacktrackToTop(g, curG, a, frontier2, snaps2);
    }
  }

  /** Lines 103-119 of BnB.py: pop the top entry, apply its decision and compute `VC_Size(CurVC)`. */
  method PopApply(g: Graph, curG: MutableGraph, curVc: seq<Decision>, frontier: seq<Entry>, ghost snaps: seq<seq<Decision>>,
                  ghost upperBound: int)
    returns (e: Entry, curVc2: seq<Decision>, frontier2: seq<Entry>, ghost snaps2: seq<seq<Decision>>, size: int)
    requires g.Valid() && g.Loopless()
    requires TrailOK(g, curVc) && curG.Value().Valid() && Mirrors(curG.Value(), g, curVc)
    requires FrontierOK(g, curVc, frontier, snaps) && frontier != []
    requires NoCoverLost(g, frontier, snaps, upperBound)
    modifies curG
    ensures e == frontier[|frontier| - 1] && frontier2 == frontier[..|frontier| - 1] && snaps2 == snaps[..|snaps| - 1]
    ensures curVc2 == Applied(old(curG.Value()), curVc, e.v, e.state)
    ensures curG.Value() == AppliedGraph(old(curG.Value()), e.v, e.state)
    ensures curVc <= curVc2 && curVc2 != [] && curVc2[|curVc2| - 1] == Decision(e.v, e.state)
    ensures TrailOK(g, curVc2) && curG.Value().Valid() && Mirrors(curG.Value(), g, curVc2)
    ensures ChainOK(g, curVc2, frontier2, snaps2)
    ensures size == SumStates(curVc2) == |Included(curVc2)|
    ensures NoCoverLostBut(g, frontier2, snaps2, upperBound, curVc2)
  {
    e := frontier[|frontier| - 1];
    PopEntry(g, curVc, frontier, snaps);
    PopKeeps(g, curG.Value(), curVc, frontier, snaps, upperBound);
    frontier2 := frontier[..|frontier| - 1];
    snaps2 := snaps[..|snaps| - 1];
    curVc2 := Apply(g, curG, curVc, e.v, e.state);
    assert curVc <= curVc2 && curVc2 != [] && curVc2[|curVc2| - 1] == Decision(e.v, e.state);
    ChainGrow(g, curVc, curVc2, frontier2, snaps2);
    size := VcSize(curVc2);
    SumStatesCountsIncluded(curVc2);
  }

  /** Lines 121-128 of BnB.py: the working graph has no edge left; a smaller cover becomes the best one. */
  method RecordLeaf(g: Graph, cur: Graph, t: seq<Decision>, size: int,
                    optVc: seq<Decision>, upperBound: int, times: seq<TracePoint>, now: real,
                    ghost frontier: seq<Entry>, ghost snaps: seq<seq<Decision>>)
    returns (optVc2: seq<Decision>, upperBound2: int, times2: seq<TracePoint>)
    requires Mirrors(cur, g, t) && cur.edges == {} && t != [] && TrailOK(g, t) && size == |Included(t)|
    requires BestOK(g, optVc, upperBound, times)
    requires NoCoverLostBut(g, frontier, snaps, upperBound, t)
    ensures BestOK(g, optVc2, upperBound2, times2)
    ensures NoCoverLost(g, frontier, snaps, upperBound2)
    ensures size < upperBound ==> optVc2 == t && upperBound2 == size && times2 == times + [TracePoint(size, now)]
    ensures size >= upperBound ==> optVc2 == optVc && upperBound2 == upperBound && times2 == times
  {
    optVc2, upperBound2, times2 := optVc, upperBound, times;
    if size < upperBound {
      NoEdgesLeftIsCover(cur, g, t);
      BestRecord(g, optVc, upperBound, times, t, now);
      optVc2 := t;
      upperBound2 := size;
      times2 := times + [TracePoint(size, now)];
    }
    LeafKeeps(g, frontier, snaps, upperBound, t, upperBound2);
  }

  /** Lines 130-140 of BnB.py: a partial solution; push the two children of the vertex of largest degree, or prune. */
  method Expand(g: Graph, cur: Graph, t: seq<Decision>, size: int, parent: Decision,
                frontier: seq<Entry>, ghost snaps: seq<seq<Decision>>, upperBound: int)
    returns (frontier2: seq<Entry>, ghost snaps2: seq<seq<Decision>>, backtrack: bool)
    requires g.Valid() && g.Loopless() && TrailOK(g, t) && cur.Valid() && Mirrors(cur, g, t) && cur.edges != {}
    requires t != [] && parent == t[|t| - 1]
    requires ChainOK(g, t, frontier, snaps) && size == |Included(t)|
    requires NoCoverLostBut(g, frontier, snaps, upperBound, t)
    ensures NoCoverLost(g, frontier2, snaps2, upperBound)
    ensures backtrack <==> Lowerbound(cur) + size >= upperBound
    ensures backtrack ==> frontier2 == frontier && snaps2 == snaps
    ensures !backtrack ==> FrontierOK(g, t, frontier2, snaps2)
    ensures !backtrack ==> frontier2 == frontier + [Entry(FindMaxDeg(cur).0, 0, parent), Entry(FindMaxDeg(cur).0, 1, parent)]
    ensures !backtrack ==> snaps2 == snaps + [t, t]
  {
    frontier2, snaps2, backtrack := frontier, snaps, false;
    var curLb := Lowerbound(cur) + size;
    if curLb < upperBound {
      ChildEntry(g, cur, t);
      var vj := FindMaxDeg(cur);
      var e0, e1 := Entry(vj.0, 0, parent), Entry(vj.0, 1, parent);
      PushChildren(g, t, frontier, snaps, e0, e1);
      ExpandKeeps(g, frontier, snaps, upperBound, t, vj.0, parent);
      frontier2 := frontier + [e0, e1];
      snaps2 := snaps + [t, t];
    } else {
      PruneKeeps(g, cur, frontier, snaps, upperBound, t);
      backtrack := true;
    }
  }

  /**
   * Where backtracking from the trail `t` with working graph `h` to the parent `p` leads:
   * the trail cut back after `p` and the undone vertices put back on the same graph, or,
   * when `p` is not on the trail, the empty trail and a fresh copy of `G`.
   */
  ghost predicate Retreated(g: Graph, h: Graph, t: seq<Decision>, p: Decision, h2: Graph, same: bool, t2: seq<Decision>) {
    && (p in t ==> t2 == t[..IndexOf(t, p) + 1] && same && h2.nodes == PutBack(h, t[IndexOf(t, p) + 1..]).nodes)
    && (p !in t ==> t2 == [] && h2 == g)
  }

  /** Lines 143-171 of BnB.py, when the frontier is not empty: backtrack to the parent of its top entry. */
  method BacktrackToTop(g: Graph, cur: MutableGraph, t: seq<Decision>, frontier: seq<Entry>, ghost snaps: seq<seq<Decision>>)
    returns (cur2: MutableGraph, t2: seq<Decision>)
    requires g.Valid() && TrailOK(g, t) && cur.Value().Valid() && Mirrors(cur.Value(), g, t)
    requires ChainOK(g, t, frontier, snaps) && frontier != []
    modifies cur
    ensures cur2 == cur || fresh(cur2)
    ensures t2 == snaps[|snaps| - 1]
    ensures Retreated(g, old(cur.Value()), t, frontier[|frontier| - 1].parent, cur2.Value(), cur2 == cur, t2)
    ensures TrailOK(g, t2) && cur2.Value().Valid() && Mirrors(cur2.Value(), g, t2)
    ensures FrontierOK(g, t2, frontier, snaps)
  {
    BacktrackTarget(g, t, frontier, snaps);
    cur2, t2 := Backtrack(g, cur, t, frontier[|frontier| - 1].parent);
  }

  /** `delta_time` at the head of iteration `k`: 0 before the first, then the reading taken at the end of the one before. */
  function Elapsed(clock: seq<real>, k: nat): real
    requires k <= |clock|
  {
    if k == 0 then 0.0 else clock[k - 1]
  }

  /** The clock reads a non-negative elapsed time that never goes back. */
  ghost predicate ReadingsOrdered(clock: seq<real>) {
    && (forall k :: 0 <= k < |clock| ==> clock[k] >= 0.0)
    && (forall i, j :: 0 <= i <= j < |clock| ==> clock[i] <= clock[j])
  }

  /** Every iteration up to `step` began before the cutoff, with a reading left for it. */
  ghost predicate InTime(clock: seq<real>, T: int, step: nat) {
    step <= |clock| && (step > 0 ==> Elapsed(clock, step - 1) < T as real)
  }

  /** Readings enough for every iteration the search can take (see `Budget`), all before the cutoff. */
  ghost predicate Ample(g: Graph, T: int, clock: seq<real>) {
    0 < T && Budget(g) <= |clock| && forall k :: 0 <= k < |clock| ==> clock[k] < T as real
  }

  /**
   * The search.  Every cover it records is a cover of `G` made of the trail's
   * state-1 vertices; recorded sizes strictly decrease from below the number
   * of vertices, and their times never decrease when the clock does not go
   * back; with no time the result is empty.  The search ends within
   * `Budget(G)` iterations: given that many readings, all before the cutoff,
   * no cover of `G` is smaller than the last one recorded (or than the number
   * of nodes, when none was).  `steps` counts the iterations; whenever the
   * loop stopped with readings and time left, the frontier was exhausted and
   * the same holds.
   */
  method BnB(g: Graph, T: int, clock: seq<real>) returns (r: Outcome, ghost steps: nat)
    requires g.Valid() && g.Loopless()
    ensures r.Failed? <==> g.nodes == []
    ensures r.Failed? ==> r.error == EmptyGraph
    ensures r.Done? && T <= 0 ==> r.opt == [] && r.times == []
    ensures r.Done? ==> (r.opt == [] <==> r.times == [])
    ensures r.Done? ==> BestOK(g, r.opt, Best(g, r.times), r.times)
    ensures r.Done? ==> steps < Budget(g)
    ensures r.Done? && Ample(g, T, clock) ==>
              NoSmallerCover(g, Best(g, r.times))
    ensures r.Done? ==> InTime(clock, T, steps)
    ensures r.Done? && ReadingsOrdered(clock) ==> TimesOK(r.times, Elapsed(clock, steps))
    ensures r.Done? && steps < |clock| && Elapsed(clock, steps) < T as real ==>
              NoSmallerCover(g, Best(g, r.times))
  {
    steps := 0;
    if g.nodes == [] {
      return Failed(EmptyGraph), steps;
    }
    var curG, frontier, upperBound;
    ghost var snaps;
    curG, frontier, snaps, upperBound := Start(g);
    var optVc, times;
    optVc, times, steps := Search(g, T, clock, curG, frontier, snaps, upperBound);
    r := Done(optVc, times);
  }

  /**
   * The state before the loop (lines 89-99 of BnB.py): `UpperBound` is the
   * number of nodes, `CurG` a fresh copy of `G`, and the frontier holds both
   * states of a vertex of highest degree, with no parent.
   */
  method Start(g: Graph) returns (curG: MutableGraph, frontier: seq<Entry>, ghost snaps: seq<seq<Decision>>, upperBound: int)
    requires g.Valid() && g.Loopless() && g.nodes != []
    ensures fresh(curG) && curG.Value() == g && upperBound == |g.nodes|
    ensures frontier == [Entry(FindMaxDeg(g).0, 0, Root), Entry(FindMaxDeg(g).0, 1, Root)]
    ensures FrontierOK(g, [], frontier, snaps) && NoCoverLost(g, frontier, snaps, upperBound)
    ensures Measure(g, frontier, snaps) < Budget(g)
  {
    upperBound := g.NumberOfNodes();
    curG := new MutableGraph.Copy(g);
    var v := FindMaxDeg(curG.Value());
    frontier := [Entry(v.0, 0, Root), Entry(v.0, 1, Root)];
    snaps := [[], []];
    RootFrontier(g, v.0);
    RootKeeps(g, v.0, upperBound);
    RootMeasure(g, v.0);
  }

  /** The `while` loop of lines 101-176 of BnB.py, from the two root entries on a fresh copy of `G`. */
  method Search(g: Graph, T: int, clock: seq<real>, curG0: MutableGraph, frontier0: seq<Entry>, ghost snaps0: seq<seq<Decision>>,
                upperBound0: int)
    returns (optVc: seq<Decision>, times: seq<TracePoint>, step: nat)
    requires g.Valid() && g.Loopless()
    requires curG0.Value() == g && upperBound0 == |g.nodes|
    requires FrontierOK(g, [], frontier0, snaps0) && NoCoverLost(g, frontier0, snaps0, upperBound0)
    requires Measure(g, frontier0, snaps0) < Budget(g)
    modifies curG0
    ensures optVc == [] <==> times == []
    ensures T <= 0 ==> optVc == [] && times == []
    ensures InTime(clock, T, step)
    ensures step < Budget(g)
    ensures BestOK(g, optVc, Best(g, times), times)
    ensures ReadingsOrdered(clock) ==> TimesOK(times, Elapsed(clock, step))
    ensures step < |clock| && Elapsed(clock, step) < T as real ==>
              NoSmallerCover(g, Best(g, times))
    ensures Ample(g, T, clock) ==> NoSmallerCover(g, Best(g, times))
  {
    var curG, curVc, frontier, upperBound := curG0, [], frontier0, upperBound0;
    ghost var snaps := snaps0;
    times, optVc := [], [];
    var delta := 0.0;
    step := 0;
    while frontier != [] && delta < T as real && step < |clock|
      invariant curG == curG0 || fresh(curG)
      invariant ClockOK(T, clock, step, delta, optVc, times)
      invariant SearchOK(g, curG.Value(), curVc, frontier, snaps, optVc, upperBound, times)
      invariant step + Measure(g, frontier, snaps) < Budget(g)
      decreases |clock| - step
    {
      ghost var s, d, o, ts := step, delta, optVc, times;
      curG, curVc, frontier, snaps, optVc, upperBound, times :=
        Advance(g, curG, curVc, frontier, snaps, optVc, upperBound, times, clock[step]);
      step, delta := step + 1, clock[step];
      ClockNext(T, clock, s, d, o, ts, step, delta, optVc, times);
    }
    LoopExit(g, T, clock, step, delta, frontier, snaps, optVc, upperBound, times);
  }

  /** What the loop keeps: the trail, working graph, frontier and best cover invariants. */
  ghost predicate SearchOK(g: Graph, cur: Graph, curVc: seq<Decision>, frontier: seq<Entry>, snaps: seq<seq<Decision>>,
                           optVc: seq<Decision>, upperBound: int, times: seq<TracePoint>) {
    && TrailOK(g, curVc) && cur.Valid() && Mirrors(cur, g, curVc)
    && FrontierOK(g, curVc, frontier, snaps)
    && BestOK(g, optVc, upperBound, times)
    && NoCoverLost(g, frontier, snaps, upperBound)
  }

  /**
   * What the loop keeps about time after `step` iterations, `delta` being the last reading: every
   * iteration began before the cutoff, nothing was found before the first one, and (when the readings
   * are ordered) the trace is in time order.
   */
  ghost predicate ClockOK(T: int, clock: seq<real>, step: nat, delta: real, optVc: seq<Decision>, times: seq<TracePoint>) {
    && InTime(clock, T, step) && delta == Elapsed(clock, step)
    && (step > 0 ==> 0 < T)
    && (step == 0 ==> optVc == [] && times == [])
    && (ReadingsOrdered(clock) ==> TimesOK(times, delta))
  }

  /** The body of the loop: one `Step` with the reading `now`, from the bundled search invariants. */
  method Advance(g: Graph, curG: MutableGraph, curVc: seq<Decision>, frontier: seq<Entry>, ghost snaps: seq<seq<Decision>>,
                 optVc: seq<Decision>, upperBound: int, times: seq<TracePoint>, now: real)
    returns (curG2: MutableGraph, curVc2: seq<Decision>, frontier2: seq<Entry>, ghost snaps2: seq<seq<Decision>>,
             optVc2: seq<Decision>, upperBound2: int, times2: seq<TracePoint>)
    requires g.Valid() && g.Loopless() && frontier != []
    requires SearchOK(g, curG.Value(), curVc, frontier, snaps, optVc, upperBound, times)
    modifies curG
    ensures curG2 == curG || fresh(curG2)
    ensures SearchOK(g, curG2.Value(), curVc2, frontier2, snaps2, optVc2, upperBound2, times2)
    ensures Measure(g, frontier2, snaps2) < Measure(g, frontier, snaps)
    ensures times2 == times || (|times2| == |times| + 1 && times2[..|times|] == times && times2[|times|].elapsed == now)
    ensures Stepped(g, old(curG.Value()), curVc, frontier, optVc, upperBound, times, now,
                    curG2.Value(), curG2 == curG, curVc2, frontier2, optVc2, upperBound2, times2)
  {
    curG2, curVc2, frontier2, snaps2, optVc2, upperBound2, times2 :=
      Step(g, curG, curVc, frontier, snaps, optVc, upperBound, times, now);
  }

  /** One iteration, begun before the cutoff with the reading `clock[step]`, keeps `ClockOK`. */
  lemma ClockNext(T: int, clock: seq<real>, step: nat, delta: real, optVc: seq<Decision>, times: seq<TracePoint>,
                  step2: nat, delta2: real, optVc2: seq<Decision>, times2: seq<TracePoint>)
    requires delta < T as real && step < |clock| && step2 == step + 1 && delta2 == clock[step]
    requires ClockOK(T, clock, step, delta, optVc, times)
    requires times2 == times || (|times2| == |times| + 1 && times2[..|times|] == times && times2[|times|].elapsed == delta2)
    ensures ClockOK(T, clock, step2, delta2, optVc2, times2)
  {
    assert Elapsed(clock, step + 1) == clock[step] && InTime(clock, T, step + 1);
    if ReadingsOrdered(clock) {
      assert delta <= clock[step];
      TimesGrow(times, times2, delta, clock[step]);
    }
  }

  /** What `Search` promises, from the loop invariants and a failed loop guard. */
  lemma LoopExit(g: Graph, T: int, clock: seq<real>, step: nat, delta: real, frontier: seq<Entry>,
                 snaps: seq<seq<Decision>>, optVc: seq<Decision>, upperBound: int, times: seq<TracePoint>)
    requires g.Valid() && g.Loopless()
    requires ClockOK(T, clock, step, delta, optVc, times)
    requires |frontier| == |snaps| && BestOK(g, optVc, upperBound, times) && NoCoverLost(g, frontier, snaps, upperBound)
    requires step + Measure(g, frontier, snaps) < Budget(g)
    requires !(frontier != [] && delta < T as real && step < |clock|)
    ensures optVc == [] <==> times == []
    ensures T <= 0 ==> optVc == [] && times == []
    ensures InTime(clock, T, step)
    ensures step < Budget(g)
    ensures BestOK(g, optVc, Best(g, times), times)
    ensures ReadingsOrdered(clock) ==> TimesOK(times, Elapsed(clock, step))
    ensures step < |clock| && Elapsed(clock, step) < T as real ==>
              NoSmallerCover(g, Best(g, times))
    ensures Ample(g, T, clock) ==> NoSmallerCover(g, Best(g, times))
  {
  }

  /** `2^(m+1) - 1`: the number of nodes of a full binary tree of height `m`. */
  function Weight(m: nat): nat {
    if m == 0 then 1 else 2 * Weight(m - 1) + 1
  }

  /** The vertices of `G` still undecided below the entry `e` pushed on the snapshot `s`. */
  function Open(g: Graph, s: seq<Decision>, e: Entry): nat {
    |g.NodeSet() - Vertices(s + [Decision(e.v, e.state)])|
  }

  /** The iterations the frontier can still take: each entry stands for a subtree of at most `Weight(Open)` search nodes. */
  function Measure(g: Graph, frontier: seq<Entry>, snaps: seq<seq<Decision>>): nat
    requires |frontier| == |snaps|
    decreases |frontier|
  {
    if frontier == [] then 0
    else Measure(g, frontier[..|frontier| - 1], snaps[..|snaps| - 1]) + Weight(Open(g, snaps[|snaps| - 1], frontier[|frontier| - 1]))
  }

  /** The iterations a search of `G` takes at most: `2^(n+1) - 1` for `n` nodes. */
  function Budget(g: Graph): nat {
    Weight(|g.NodeSet()|)
  }

  /** Two subtrees one level lower fit, with their parent, in a subtree of any greater height. */
  lemma {:induction false} WeightGrows(m: nat, o: nat)
    requires m < o
    ensures 2 * Weight(m) < Weight(o)
  {
    if m < o - 1 {
      WeightGrows(m, o - 1);
    }
  }

  /** The two root entries fit in the budget. */
  lemma RootMeasure(g: Graph, v: int)
    requires v in g.nodes
    ensures Measure(g, [Entry(v, 0, Root), Entry(v, 1, Root)], [[], []]) < Budget(g)
  {
    var f, s: seq<seq<Decision>> := [Entry(v, 0, Root), Entry(v, 1, Root)], [[], []];
    SnocSets([], Decision(v, 0));
    SnocSets([], Decision(v, 1));
    assert [] + [Decision(v, 0)] == [Decision(v, 0)] && [] + [Decision(v, 1)] == [Decision(v, 1)];
    var n := g.NodeSet();
    assert v in n;
    SplitCard(n, {v});
    assert Open(g, [], f[0]) == |n - {v}| == Open(g, [], f[1]);
    assert f[..1] == [f[0]] && s[..1] == [s[0]] && [f[0]][..0] == [] && [s[0]][..0] == [];
    assert Measure(g, [f[0]], [s[0]]) == Weight(|n - {v}|);
    WeightGrows(|n - {v}|, |n|);
  }

  /** A decision's trail names the vertex decided and those of the trail it extends. */
  lemma AppliedVertices(cur: Graph, t: seq<Decision>, vi: int, state: int)
    requires cur.Valid()
    ensures Vertices(t + [Decision(vi, state)]) <= Vertices(Applied(cur, t, vi, state))
  {
    var a := Applied(cur, t, vi, state);
    SnocSets(t, Decision(vi, state));
    assert a[..|t|] == t;
    PrefixSets(a, |t|);
    assert a[|a| - 1].v == vi;
  }

  /** Popping an entry shrinks the measure. */
  lemma PopDrops(g: Graph, frontier: seq<Entry>, snaps: seq<seq<Decision>>)
    requires |frontier| == |snaps| && frontier != []
    ensures Measure(g, frontier[..|frontier| - 1], snaps[..|snaps| - 1]) < Measure(g, frontier, snaps)
  {
  }

  /** Replacing the top entry by two children on a trail that names its vertex and more shrinks the measure. */
  lemma {:induction false} ExpandDrops(g: Graph, frontier: seq<Entry>, snaps: seq<seq<Decision>>, a: seq<Decision>, vj: int, p: Decision)
    requires |frontier| == |snaps| && frontier != []
    requires var e := frontier[|frontier| - 1];
             Vertices(snaps[|snaps| - 1] + [Decision(e.v, e.state)]) <= Vertices(a)
    requires vj in g.nodes && vj !in Vertices(a)
    ensures Measure(g, frontier[..|frontier| - 1] + [Entry(vj, 0, p), Entry(vj, 1, p)], snaps[..|snaps| - 1] + [a, a])
            < Measure(g, frontier, snaps)
  {
    var n, e := |frontier|, frontier[|frontier| - 1];
    var f0, s0 := frontier[..n - 1], snaps[..n - 1];
    var f1, s1 := f0 + [Entry(vj, 0, p)], s0 + [a];
    var f2, s2 := f1 + [Entry(vj, 1, p)], s1 + [a];
    assert f2 == f0 + [Entry(vj, 0, p), Entry(vj, 1, p)] && s2 == s0 + [a, a];
    assert f2[..|f2| - 1] == f1 && s2[..|s2| - 1] == s1 && f1[..|f1| - 1] == f0 && s1[..|s1| - 1] == s0;
    var x := g.NodeSet() - Vertices(snaps[n - 1] + [Decision(e.v, e.state)]);
    SnocSets(a, Decision(vj, 0));
    SnocSets(a, Decision(vj, 1));
    var y := g.NodeSet() - (Vertices(a) + {vj});
    assert Open(g, a, Entry(vj, 0, p)) == |y| == Open(g, a, Entry(vj, 1, p));
    assert vj in x && y <= x - {vj};
    SubsetCard(y, x - {vj});
    SplitCard(x, {vj});
    WeightGrows(|y|, |x|);
  }

  /** No vertex cover of `G` has fewer than `k` vertices. */
  ghost predicate NoSmallerCover(g: Graph, k: int) {
    forall c :: Covers(g.edges, c) ==> |c| >= k
  }

  /** The smallest cover size known: the last one recorded, or the number of nodes. */
  function Best(g: Graph, times: seq<TracePoint>): int {
    if times == [] then |g.nodes| else times[|times| - 1].size
  }

  /** The trace times never decrease and none is past `delta`. */
  ghost predicate TimesOK(times: seq<TracePoint>, delta: real) {
    && (forall i, j :: 0 <= i < j < |times| ==> times[i].elapsed <= times[j].elapsed)
    && (forall i :: 0 <= i < |times| ==> times[i].elapsed <= delta)
  }

  /** A trace point stamped with a reading no earlier than `delta` keeps the trace times in order. */
  lemma TimesGrow(times: seq<TracePoint>, times2: seq<TracePoint>, delta: real, now: real)
    requires TimesOK(times, delta) && delta <= now
    requires times2 == times || (|times2| == |times| + 1 && times2[..|times|] == times && times2[|times|].elapsed == now)
    ensures TimesOK(times2, now)
  {
    if times2 != times {
      assert forall i :: 0 <= i < |times| ==> times2[i] == times[i];
    }
  }

  /**
   * Pruning is sound: once the trail is fixed, every vertex cover of `G` that
   * contains the trail's included vertices has at least `VC_Size(CurVC) +
   * Lowerbound(CurG)` vertices, so when that reaches the upper bound no
   * completion of the trail improves on the best cover found.
   */
  lemma PruneSound(g: Graph, cur: Graph, t: seq<Decision>, c: set<int>)
    requires g.Valid() && cur.Valid() && TrailOK(g, t) && Mirrors(cur, g, t) && cur.edges != {}
    requires Covers(g.edges, c) && Included(t) <= c
    ensures |c| >= SumStates(t) + Lowerbound(cur)
  {
    var rest := c - Included(t);
    forall e | e in cur.edges ensures e.lo in rest || e.hi in rest {
      assert e in Uncovered(g, t);
    }
    LowerboundAdmissible(cur, rest);
    SplitCard(c, Included(t));
    SumStatesCountsIncluded(t);
  }

  /** Two working graphs in step with the same trail have the same node and edge sets: undoing to a parent restores those of `CurG`, though not the order of its nodes. */
  lemma MirrorsDetermined(a: Graph, b: Graph, g: Graph, t: seq<Decision>)
    requires Mirrors(a, g, t) && Mirrors(b, g, t)
    ensures a.NodeSet() == b.NodeSet() && a.edges == b.edges
  {
  }
}
