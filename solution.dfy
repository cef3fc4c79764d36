/**
 * The body of `main` in the branch-and-bound script, without its file and
 * console I/O: build the graph, run the search and drop the state-0 ("false")
 * entries from the trail it returns before the cover is written out.
 */
module Solution {
  import opened Graphs
  import opened Bounds
  import opened Trails
  import opened BranchAndBound

  /** `list.remove(d)`: the list without the first occurrence of `d`. */
  function RemoveFirst(s: seq<Decision>, d: Decision): (r: seq<Decision>)
    requires d in s
    ensures r == s[..IndexOf(s, d)] + s[IndexOf(s, d) + 1..]
  {
    if s[0] == d then s[1..]
    else
      var r := [s[0]] + RemoveFirst(s[1..], d);
      assert s[..IndexOf(s, d)] == [s[0]] + s[1..][..IndexOf(s[1..], d)];
      r
  }

  /**
   * `for element in Sol_VC: if element[1] == 0: Sol_VC.remove(element)` as
   * Python runs it: the loop walks a position `i` over the list it shortens,
   * so the element after a removed one moves into the slot already visited.
   */
  function FilterAsWritten(s: seq<Decision>, i: nat): seq<Decision>
    decreases |s| - i
  {
    if i >= |s| then s
    else if s[i].state == 0 then FilterAsWritten(RemoveFirst(s, s[i]), i + 1)
    else FilterAsWritten(s, i + 1)
  }

  /** The filter loop of lines 233-235 of BnB.py, on the list it changes in place. */
  method RemoveExcluded(solVc: seq<Decision>) returns (r: seq<Decision>)
    ensures r == FilterAsWritten(solVc, 0)
  {
    r := solVc;
    var i := 0;
    while i < |r|
      invariant FilterAsWritten(r, i) == FilterAsWritten(solVc, 0)
      decreases |r| - i
    {
      if r[i].state == 0 {
        r := RemoveFirst(r, r[i]);
      }
      i := i + 1;
    }
  }

  /** What the comment at line 232 of BnB.py asks for: every state-0 entry dropped, the order of the rest kept. */
  function DropExcluded(s: seq<Decision>): (r: seq<Decision>)
    ensures |r| <= |s|
  {
    if s == [] then []
    else if s[0].state == 0 then DropExcluded(s[1..])
    else [s[0]] + DropExcluded(s[1..])
  }

  /** `DropExcluded` keeps exactly the entries whose state is not 0. */
  lemma {:induction false} DropExcludedMembers(s: seq<Decision>)
    ensures forall d :: d in DropExcluded(s) <==> d in s && d.state != 0
  {
    if s != [] {
      DropExcludedMembers(s[1..]);
      assert forall d :: d in s <==> d == s[0] || d in s[1..];
    }
  }

  /** The filter as written leaves a state-0 entry behind when two of them are adjacent. */
  lemma FilterSkipsAdjacentExclusions()
    ensures FilterAsWritten([Decision(1, 0), Decision(2, 0)], 0) == [Decision(2, 0)]
    ensures DropExcluded([Decision(1, 0), Decision(2, 0)]) == []
  {
    var s := [Decision(1, 0), Decision(2, 0)];
    assert IndexOf(s, s[0]) == 0;
    assert RemoveFirst(s, s[0]) == [Decision(2, 0)];
  }

  lemma {:induction false} DropAppend(a: seq<Decision>, b: seq<Decision>)
    ensures DropExcluded(a + b) == DropExcluded(a) + DropExcluded(b)
  {
    if a != [] {
      assert (a + b)[1..] == a[1..] + b;
      DropAppend(a[1..], b);
    } else {
      assert a + b == b;
    }
  }

  /** With distinct vertices, `remove` of the entry at `i` removes position `i`. */
  lemma RemoveAt(s: seq<Decision>, i: nat)
    requires DistinctVertices(s) && i < |s|
    ensures RemoveFirst(s, s[i]) == s[..i] + s[i + 1..]
    ensures DistinctVertices(s[..i] + s[i + 1..])
  {
    IndexAt(s, i);
    RemovedDistinct(s, i);
  }

  lemma IndexAt(s: seq<Decision>, i: nat)
    requires DistinctVertices(s) && i < |s|
    ensures IndexOf(s, s[i]) == i
  {
    var k := IndexOf(s, s[i]);
    assert forall j :: 0 <= j < i ==> s[j].v != s[i].v;
  }

  lemma RemovedDistinct(s: seq<Decision>, i: nat)
    requires DistinctVertices(s) && i < |s|
    ensures DistinctVertices(s[..i] + s[i + 1..])
  {
    var r := s[..i] + s[i + 1..];
    forall a | 0 <= a < |r| ensures r[a] == s[if a < i then a else a + 1] {
      if a < i {
        assert r[a] == s[..i][a];
      } else {
        assert r[a] == s[i + 1..][a - i];
      }
    }
  }

  lemma SuffixSeparated(s: seq<Decision>, k: nat)
    requires ExclusionsSeparated(s) && k <= |s|
    ensures ExclusionsSeparated(s[k..])
  {
    var q := s[k..];
    forall j | 0 < j < |q| && q[j].state == 0 ensures q[j - 1].state == 1 {
      assert q[j] == s[k + j] && q[j - 1] == s[k + j - 1];
    }
  }

  /** A state-0 entry at `i` followed by another entry: the filter removes the first and skips the second. */
  lemma FilterStepExcluded(s: seq<Decision>, i: nat)
    requires DistinctVertices(s) && i + 1 < |s| && s[i].state == 0
    ensures FilterAsWritten(s, i) == FilterAsWritten(s[..i] + s[i + 1..], i + 1)
    ensures (s[..i] + s[i + 1..])[..i + 1] == s[..i] + [s[i + 1]]
    ensures (s[..i] + s[i + 1..])[i + 1..] == s[i + 2..]
  {
    RemoveAt(s, i);
  }

  /**
   * On a trail without two adjacent state-0 entries and with distinct
   * vertices, which is what the search returns, the filter as written drops
   * exactly the state-0 entries.
   */
  lemma {:induction false} FilterAgrees(s: seq<Decision>, i: nat)
    requires DistinctVertices(s) && i <= |s| && ExclusionsSeparated(s[i..])
    ensures FilterAsWritten(s, i) == s[..i] + DropExcluded(s[i..])
    decreases |s| - i
  {
    if i == |s| {
      assert s[i..] == [] && s[..i] == s;
    } else if s[i].state == 0 && i + 1 == |s| {
      LastExcludedCase(s, i);
    } else if s[i].state == 0 {
      var r := s[..i] + s[i + 1..];
      RemoveAt(s, i);
      FilterStepExcluded(s, i);
      SuffixSeparated(s[i..], 2);
      assert s[i..][2..] == s[i + 2..];
      FilterAgrees(r, i + 1);
      assert s[i..][1] == s[i + 1];
      ExcludedCase(s, i);
    } else {
      SuffixSeparated(s[i..], 1);
      assert s[i..][1..] == s[i + 1..];
      FilterAgrees(s, i + 1);
      KeptCase(s, i);
    }
  }

  lemma LastExcludedCase(s: seq<Decision>, i: nat)
    requires DistinctVertices(s) && i + 1 == |s| && s[i].state == 0
    ensures FilterAsWritten(s, i) == s[..i] + DropExcluded(s[i..])
  {
    RemoveAt(s, i);
    assert s[..i] + s[i + 1..] == s[..i];
    assert s[i..] == [s[i]];
  }

  lemma ExcludedCase(s: seq<Decision>, i: nat)
    requires i + 1 < |s| && s[i].state == 0 && s[i + 1].state != 0
    ensures (s[..i] + [s[i + 1]]) + DropExcluded(s[i + 2..]) == s[..i] + DropExcluded(s[i..])
  {
    DropPair(s[i], s[i + 1], s[i + 2..]);
    assert s[i..] == [s[i], s[i + 1]] + s[i + 2..];
  }

  lemma KeptCase(s: seq<Decision>, i: nat)
    requires i < |s| && s[i].state != 0
    requires FilterAsWritten(s, i + 1) == s[..i + 1] + DropExcluded(s[i + 1..])
    ensures FilterAsWritten(s, i) == s[..i] + DropExcluded(s[i..])
  {
    assert s[..i + 1] == s[..i] + [s[i]];
    assert s[i..] == [s[i]] + s[i + 1..];
    assert DropExcluded(s[i..]) == [s[i]] + DropExcluded(s[i + 1..]);
  }

  /** An excluded entry followed by a kept one, then the rest. */
  lemma DropPair(a: Decision, b: Decision, rest: seq<Decision>)
    requires a.state == 0 && b.state != 0
    ensures DropExcluded([a, b] + rest) == [b] + DropExcluded(rest)
  {
    assert ([a, b] + rest)[1..] == [b] + rest;
    assert ([b] + rest)[1..] == rest;
  }

  /** Dropping the state-0 entries of a good trail leaves one entry per included vertex. */
  lemma {:induction false} DropCounts(t: seq<Decision>)
    requires StatesBinary(t) && DistinctVertices(t)
    ensures |DropExcluded(t)| == |Included(t)|
    ensures Vertices(DropExcluded(t)) == Included(t)
  {
    if t != [] {
      var p, d := t[..|t| - 1], t[|t| - 1];
      assert t == p + [d];
      assert StatesBinary(p) && DistinctVertices(p);
      DropCounts(p);
      DropSnoc(p, d);
    }
  }

  lemma DropSnoc(p: seq<Decision>, d: Decision)
    requires StatesBinary(p + [d]) && DistinctVertices(p + [d])
    requires |DropExcluded(p)| == |Included(p)| && Vertices(DropExcluded(p)) == Included(p)
    ensures |DropExcluded(p + [d])| == |Included(p + [d])|
    ensures Vertices(DropExcluded(p + [d])) == Included(p + [d])
  {
    DropAppend(p, [d]);
    SnocSets(p, d);
    SnocSets(DropExcluded(p), d);
    assert d.v !in Vertices(p) by {
      forall i | 0 <= i < |p| ensures p[i].v != d.v {
        assert (p + [d])[i] == p[i] && (p + [d])[|p|] == d;
      }
    }
    if d.state != 0 {
      assert DropExcluded([d]) == [d];
    } else {
      assert DropExcluded([d]) == [];
      assert DropExcluded(p) + [] == DropExcluded(p);
    }
  }

  /** A graph made by `create_graph` has a vertex exactly when it has an edge. */
  lemma CreatedNodesIffEdges(adj: seq<seq<int>>)
    ensures CreateGraph(adj).nodes == [] <==> CreateGraph(adj).edges == {}
  {
    var g := CreateGraph(adj);
    if g.edges != {} {
      var e :| e in g.edges;
      assert e.lo in Endpoints(g.edges);
      assert e.lo in g.NodeSet();
    }
    if g.nodes != [] {
      assert g.nodes[0] in g.NodeSet();
    }
  }

  /**
   * `main` without its I/O (lines 227-235 of BnB.py): the search on the graph of an
   * adjacency list, then the filter.  Every entry written out is an included
   * vertex, the written vertices cover the graph and their number is the last
   * size in the trace.
   */
  method Solve(adj: seq<seq<int>>, cutoff: int, clock: seq<real>) returns (r: Outcome, ghost steps: nat)
    requires forall i :: 0 <= i < |adj| ==> (i + 1) !in adj[i]
    ensures r.Failed? <==> CreateGraph(adj).edges == {}
    ensures r.Done? ==> forall i :: 0 <= i < |r.opt| ==> r.opt[i].state == 1
    ensures r.Done? ==> (r.opt == [] <==> r.times == [])
    ensures r.Done? && cutoff <= 0 ==> r.opt == [] && r.times == []
    ensures r.Done? && r.times != [] ==>
              && Covers(CreateGraph(adj).edges, Vertices(r.opt))
              && |r.opt| == r.times[|r.times| - 1].size
    ensures r.Done? ==> InTime(clock, cutoff, steps)
    ensures r.Done? && ReadingsOrdered(clock) ==> TimesOK(r.times, Elapsed(clock, steps))
    ensures r.Done? ==> steps < Budget(CreateGraph(adj))
    ensures r.Done? && Ample(CreateGraph(adj), cutoff, clock) ==> NoSmallerCover(CreateGraph(adj), Best(CreateGraph(adj), r.times))
    ensures r.Done? && steps < |clock| && Elapsed(clock, steps) < cutoff as real ==>
              NoSmallerCover(CreateGraph(adj), Best(CreateGraph(adj), r.times))
  {
    var g := CreateGraph(adj);
    CreateGraphLoopless(adj);
    CreatedNodesIffEdges(adj);
    r, steps := SearchAndFilter(g, cutoff, clock);
  }

  /** Lines 230-235 of BnB.py: the search on `g`, then the filter on the trail it returns. */
  method SearchAndFilter(g: Graph, cutoff: int, clock: seq<real>) returns (r: Outcome, ghost steps: nat)
    requires g.Valid() && g.Loopless() && (g.nodes == [] <==> g.edges == {})
    ensures r.Failed? <==> g.edges == {}
    ensures r.Done? ==> forall i :: 0 <= i < |r.opt| ==> r.opt[i].state == 1
    ensures r.Done? ==> (r.opt == [] <==> r.times == [])
    ensures r.Done? && cutoff <= 0 ==> r.opt == [] && r.times == []
    ensures r.Done? && r.times != [] ==>
              && Covers(g.edges, Vertices(r.opt))
              && |r.opt| == r.times[|r.times| - 1].size
    ensures r.Done? ==> InTime(clock, cutoff, steps)
    ensures r.Done? && ReadingsOrdered(clock) ==> TimesOK(r.times, Elapsed(clock, steps))
    ensures r.Done? ==> steps < Budget(g)
    ensures r.Done? && Ample(g, cutoff, clock) ==> NoSmallerCover(g, Best(g, r.times))
    ensures r.Done? && steps < |clock| && Elapsed(clock, steps) < cutoff as real ==>
              NoSmallerCover(g, Best(g, r.times))
  {
    var res;
    res, steps := BnB(g, cutoff, clock);
    if res.Failed? {
      return res, steps;
    }
    var solVc := RemoveExcluded(res.opt);
    FilteredTrail(g, res.opt, res.times, solVc);
    return Done(solVc, res.times), steps;
  }

  /** What the filter leaves of a trail returned by the search. */
  lemma FilteredTrail(g: Graph, opt: seq<Decision>, times: seq<TracePoint>, solVc: seq<Decision>)
    requires g.edges != {} && TrailOK(g, opt) && solVc == FilterAsWritten(opt, 0)
    requires opt == [] <==> times == []
    requires times != [] ==> Covers(g.edges, Included(opt)) && |Included(opt)| == times[|times| - 1].size
    ensures forall i :: 0 <= i < |solVc| ==> solVc[i].state == 1
    ensures solVc == [] <==> times == []
    ensures times != [] ==> Covers(g.edges, Vertices(solVc)) && |solVc| == times[|times| - 1].size
  {
    assert opt[0..] == opt && opt[..0] == [];
    FilterAgrees(opt, 0);
    DropCounts(opt);
    DropExcludedMembers(opt);
    assert solVc == DropExcluded(opt);
    forall i | 0 <= i < |solVc| ensures solVc[i].state == 1 {
      assert solVc[i] in opt;
    }
    if times != [] {
      var e :| e in g.edges;
      assert e.lo in Included(opt) || e.hi in Included(opt);
    }
  }
}
