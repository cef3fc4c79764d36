/**
 * The decision trail `CurVC` of the branch-and-bound search: the `(vertex,
 * state)` pairs on the path from the root to the current search node, state 1
 * for a vertex put in the cover and state 0 for one left out.  The invariants
 * here tie the trail to the working graph `CurG`.
 */
module Trails {
  import opened Graphs

  datatype Decision = Decision(v: int, state: int)

  /** The parent `(-1, -1)` that marks the two entries pushed for the root. */
  const Root := Decision(-1, -1)

  /** The vertices the trail puts in the cover. */
  function Included(t: seq<Decision>): set<int> {
    set i | 0 <= i < |t| && t[i].state == 1 :: t[i].v
  }

  /** Every vertex the trail names, whatever its state. */
  function Vertices(t: seq<Decision>): set<int> {
    set i | 0 <= i < |t| :: t[i].v
  }

  /** `list(map(lambda t: t[0], CurVC))`. */
  function VertexList(t: seq<Decision>): (r: seq<int>)
    ensures forall x :: x in r <==> x in Vertices(t)
  {
    var r := seq(|t|, i requires 0 <= i < |t| => t[i].v);
    assert forall x :: x in Vertices(t) ==> x in r by {
      forall x | x in Vertices(t) ensures x in r {
        var i :| 0 <= i < |t| && t[i].v == x;
        assert r[i] == x;
      }
    }
    r
  }

  /** The sum of the states, which is what `VC_Size` adds up. */
  function SumStates(t: seq<Decision>): int {
    if t == [] then 0 else SumStates(t[..|t| - 1]) + t[|t| - 1].state
  }

  /** `VC_Size(VC)`: the running sum of `element[1]` over the trail. */
  method VcSize(vc: seq<Decision>) returns (size: int)
    ensures size == SumStates(vc)
  {
    size := 0;
    for i := 0 to |vc|
      invariant size == SumStates(vc[..i])
    {
      assert vc[..i + 1][..i] == vc[..i];
      size := size + vc[i].state;
    }
    assert vc[..|vc|] == vc;
  }

  predicate StatesBinary(t: seq<Decision>) {
    forall i :: 0 <= i < |t| ==> t[i].state == 0 || t[i].state == 1
  }

  predicate DistinctVertices(t: seq<Decision>) {
    forall i, j :: 0 <= i < j < |t| ==> t[i].v != t[j].v
  }

  /** Every vertex the trail names is a vertex of `G`. */
  predicate InGraph(g: Graph, t: seq<Decision>) {
    forall i :: 0 <= i < |t| ==> t[i].v in g.nodes
  }

  /** A state-0 entry comes after its forced neighbours: each neighbour in `G` is included earlier. */
  ghost predicate ExclusionsForced(g: Graph, t: seq<Decision>) {
    forall i, u :: 0 <= i < |t| && t[i].state == 0 && MkEdge(u, t[i].v) in g.edges ==> u in Included(t[..i])
  }

  /** No two state-0 entries are next to each other. */
  predicate ExclusionsSeparated(t: seq<Decision>) {
    forall i :: 0 < i < |t| && t[i].state == 0 ==> t[i - 1].state == 1
  }

  /** The invariant the search keeps about its trail. */
  ghost predicate TrailOK(g: Graph, t: seq<Decision>) {
    && StatesBinary(t)
    && DistinctVertices(t)
    && InGraph(g, t)
    && ExclusionsForced(g, t)
    && ExclusionsSeparated(t)
  }

  /** The edges of `G` that no included vertex covers. */
  function Uncovered(g: Graph, t: seq<Decision>): set<Edge> {
    set e | e in g.edges && e.lo !in Included(t) && e.hi !in Included(t)
  }

  /** The working graph's node and edge sets are those of `G` without the trail's included vertices and their edges; its node order is left free. */
  ghost predicate Mirrors(cur: Graph, g: Graph, t: seq<Decision>) {
    && cur.NodeSet() == g.NodeSet() - Included(t)
    && cur.edges == Uncovered(g, t)
  }

  lemma SnocSets(t: seq<Decision>, d: Decision)
    ensures Included(t + [d]) == Included(t) + (if d.state == 1 then {d.v} else {})
    ensures Vertices(t + [d]) == Vertices(t) + {d.v}
  {
    var s := t + [d];
    assert s[|t|] == d;
    forall x | x in Included(s) ensures x in Included(t) + (if d.state == 1 then {d.v} else {}) {
      var i :| 0 <= i < |s| && s[i].state == 1 && s[i].v == x;
      if i < |t| {
        assert t[i] == s[i];
      }
    }
    forall x | x in Included(t) ensures x in Included(s) {
      var i :| 0 <= i < |t| && t[i].state == 1 && t[i].v == x;
      assert s[i] == t[i];
    }
    forall x | x in Vertices(s) ensures x in Vertices(t) + {d.v} {
      var i :| 0 <= i < |s| && s[i].v == x;
      if i < |t| {
        assert t[i] == s[i];
      }
    }
    forall x | x in Vertices(t) ensures x in Vertices(s) {
      var i :| 0 <= i < |t| && t[i].v == x;
      assert s[i] == t[i];
    }
  }

  lemma PrefixSets(t: seq<Decision>, k: nat)
    requires k <= |t|
    ensures Included(t[..k]) <= Included(t)
    ensures Vertices(t[..k]) <= Vertices(t)
  {
    forall x | x in Included(t[..k]) ensures x in Included(t) {
      var i :| 0 <= i < k && t[..k][i].state == 1 && t[..k][i].v == x;
      assert t[i] == t[..k][i];
    }
    forall x | x in Vertices(t[..k]) ensures x in Vertices(t) {
      var i :| 0 <= i < k && t[..k][i].v == x;
      assert t[i] == t[..k][i];
    }
  }

  /** Every prefix of a good trail is a good trail. */
  lemma PrefixOK(g: Graph, t: seq<Decision>, k: nat)
    requires TrailOK(g, t) && k <= |t|
    ensures TrailOK(g, t[..k])
  {
    var p := t[..k];
    forall i, u | 0 <= i < |p| && p[i].state == 0 && MkEdge(u, p[i].v) in g.edges
      ensures u in Included(p[..i])
    {
      assert p[..i] == t[..i];
      assert p[i] == t[i];
    }
  }

  /** A good trail's sum of states counts its included vertices. */
  lemma {:induction false} SumStatesCountsIncluded(t: seq<Decision>)
    requires StatesBinary(t) && DistinctVertices(t)
    ensures SumStates(t) == |Included(t)|
  {
    if t != [] {
      var p, d := t[..|t| - 1], t[|t| - 1];
      assert t == p + [d];
      assert StatesBinary(p) && DistinctVertices(p);
      SumStatesCountsIncluded(p);
      SnocSets(p, d);
      assert d.v !in Vertices(p);
    }
  }

  /** A state-0 vertex of a good trail has all its neighbours in `G` included. */
  lemma ExcludedNeighboursIncluded(g: Graph, t: seq<Decision>, i: nat, u: int)
    requires TrailOK(g, t) && i < |t| && t[i].state == 0 && MkEdge(u, t[i].v) in g.edges
    ensures u in Included(t)
  {
    PrefixSets(t, i);
  }

  /** A working graph with no edge left means the included vertices cover `G`. */
  lemma NoEdgesLeftIsCover(cur: Graph, g: Graph, t: seq<Decision>)
    requires Mirrors(cur, g, t) && cur.edges == {}
    ensures forall e :: e in g.edges ==> e.lo in Included(t) || e.hi in Included(t)
  {
    forall e | e in g.edges ensures e.lo in Included(t) || e.hi in Included(t) {
      assert e !in Uncovered(g, t);
    }
  }
}
