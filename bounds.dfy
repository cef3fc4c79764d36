/**
 * The helpers of the branch-and-bound search that only compute a value:
 * `ceil`, `find_maxdeg` and `Lowerbound`, and why the lower bound may be used
 * to prune.
 */
module Bounds {
  import opened Graphs

  /** Python's `int(d)` on a float: truncation toward zero. */
  function Trunc(d: real): int {
    if d >= 0.0 then d.Floor else -((-d).Floor)
  }

  /** `ceil(d)`: `int(d) + 1` when `d` has a fractional part, `int(d)` otherwise. */
  function Ceil(d: real): (r: int)
    ensures d <= r as real < d + 1.0
  {
    if d > Trunc(d) as real then Trunc(d) + 1 else Trunc(d)
  }

  /** The degrees of a vertex list: the key `find_maxdeg` sorts by. */
  function Degrees(g: Graph, ns: seq<int>): seq<nat> {
    seq(|ns|, i requires 0 <= i < |ns| => g.Degree(ns[i]))
  }

  /**
   * The index `sorted(..., reverse=True, key=degree)[0]` picks: Python's sort
   * is stable, also when reversed, so it is the FIRST position of a maximum.
   */
  function FirstMaxIndex(ds: seq<nat>): (k: nat)
    requires ds != []
    ensures k < |ds|
    ensures forall j :: 0 <= j < |ds| ==> ds[j] <= ds[k]
    ensures forall j :: 0 <= j < k ==> ds[j] < ds[k]
  {
    if |ds| == 1 then 0
    else
      var k := FirstMaxIndex(ds[1..]);
      if ds[0] >= ds[1 + k] then 0 else 1 + k
  }

  /**
   * `find_maxdeg(g)`: the pair (node, degree) for the first node, in node
   * order, whose degree is the largest.  Python indexes an empty list (and
   * fails) on a graph without nodes; callers rule that out.
   */
  function FindMaxDeg(g: Graph): (r: (int, nat))
    requires g.nodes != []
    ensures r.0 in g.nodes && r.1 == g.Degree(r.0)
    ensures forall u :: u in g.nodes ==> g.Degree(u) <= r.1
    ensures exists k :: 0 <= k < |g.nodes| && g.nodes[k] == r.0 &&
                        forall j :: 0 <= j < k ==> g.Degree(g.nodes[j]) < r.1
  {
    var ds := Degrees(g, g.nodes);
    var k := FirstMaxIndex(ds);
    assert forall u :: u in g.nodes ==> g.Degree(u) <= ds[k] by {
      forall u | u in g.nodes ensures g.Degree(u) <= ds[k] {
        var j :| 0 <= j < |g.nodes| && g.nodes[j] == u;
        assert ds[j] == g.Degree(u);
      }
    }
    assert forall j :: 0 <= j < k ==> g.Degree(g.nodes[j]) < ds[k] by {
      forall j | 0 <= j < k ensures g.Degree(g.nodes[j]) < ds[k] {
        assert ds[j] == g.Degree(g.nodes[j]);
      }
    }
    (g.nodes[k], ds[k])
  }

  /** The degree `find_maxdeg` reports: the largest degree of the graph. */
  function MaxDegree(g: Graph): nat
    requires g.nodes != []
  {
    FindMaxDeg(g).1
  }

  /** A graph with an edge has a vertex of degree at least one. */
  lemma MaxDegreePositive(g: Graph)
    requires g.Valid() && g.edges != {}
    ensures g.nodes != [] && MaxDegree(g) >= 1
  {
    var e :| e in g.edges;
    assert e in g.Incident(e.lo);
    assert g.Degree(e.lo) >= 1;
  }

  /** The least `r` with `d * r >= n`, by repeated subtraction. */
  function CeilQuotient(n: nat, d: nat): (r: nat)
    requires d >= 1
    ensures d * r >= n && d * (r - 1) < n
  {
    if n == 0 then 0
    else if n <= d then 1
    else 1 + CeilQuotient(n - d, d)
  }

  /**
   * `Lowerbound(graph)`: `ceil(|E| / maxdeg)`.  The search calls it only on a
   * graph that still has an edge, so the maximum degree is at least one.
   * The quotient is taken exactly (LowerboundIsCeil), not in floating point.
   */
  function Lowerbound(g: Graph): (lb: int)
    requires g.Valid() && g.edges != {}
    ensures g.nodes != [] && MaxDegree(g) >= 1
    ensures MaxDegree(g) * lb >= |g.edges| && MaxDegree(g) * (lb - 1) < |g.edges|
  {
    MaxDegreePositive(g);
    CeilQuotient(|g.edges|, MaxDegree(g))
  }

  /** `Lowerbound(g)` is `ceil(|E| / maxdeg)` with the division done on the exact quotient. */
  lemma LowerboundIsCeil(g: Graph)
    requires g.Valid() && g.edges != {}
    ensures g.nodes != [] && Lowerbound(g) == Ceil(|g.edges| as real / MaxDegree(g) as real)
  {
    MaxDegreePositive(g);
    CeilQuotientIsCeil(|g.edges|, MaxDegree(g));
  }

  lemma CeilQuotientIsCeil(n: nat, d: nat)
    requires d >= 1
    ensures CeilQuotient(n, d) == Ceil(n as real / d as real)
  {
    var r, c := CeilQuotient(n, d), Ceil(n as real / d as real);
    CeilDiv(n, d, c);
    if r < c {
      MulMonotone(d, r, c - 1);
    } else if c < r {
      MulMonotone(d, c, r - 1);
    }
  }

  lemma RealMulMono(a: real, b: real, c: real)
    requires a >= b && c > 0.0
    ensures a * c >= b * c
  {
  }

  lemma RealMulStrict(a: real, b: real, c: real)
    requires a > b && c > 0.0
    ensures a * c > b * c
  {
  }

  lemma CastMul(x: int, y: int)
    ensures (x * y) as real == (x as real) * (y as real)
  {
  }

  /** An integer within one above the exact quotient `n / d` is the integer ceiling of it. */
  lemma CeilDiv(n: nat, d: nat, lb: int)
    requires d >= 1
    requires n as real / d as real <= lb as real < n as real / d as real + 1.0
    ensures d * lb >= n && d * (lb - 1) < n
  {
    CeilDivUpper(n, d, lb);
    CeilDivLower(n, d, lb - 1);
  }

  lemma CeilDivUpper(n: nat, d: nat, lb: int)
    requires d >= 1 && n as real / d as real <= lb as real
    ensures d * lb >= n
  {
    var q, dr := n as real / d as real, d as real;
    assert q * dr == n as real;
    RealMulMono(lb as real, q, dr);
    CastMul(d, lb);
    assert (d * lb) as real == (lb as real) * dr;
  }

  lemma CeilDivLower(n: nat, d: nat, m: int)
    requires d >= 1 && (m as real) < n as real / d as real
    ensures d * m < n
  {
    var q, dr := n as real / d as real, d as real;
    assert q * dr == n as real;
    RealMulStrict(q, m as real, dr);
    CastMul(d, m);
    assert (d * m) as real == (m as real) * dr;
  }

  predicate Covers(edges: set<Edge>, c: set<int>) {
    forall e :: e in edges ==> e.lo in c || e.hi in c
  }

  function IncidentIn(edges: set<Edge>, v: int): set<Edge> {
    set e | e in edges && Touches(e, v)
  }

  /** A set `c` covering `edges`, each of whose members touches at most `cap` edges, has `|edges| <= |c| * cap`. */
  lemma {:induction false} CoverCount(edges: set<Edge>, c: set<int>, cap: nat)
    requires Covers(edges, c)
    requires forall v :: v in c ==> |IncidentIn(edges, v)| <= cap
    ensures |edges| <= |c| * cap
    decreases c
  {
    if edges == {} {
      assert |edges| == 0;
    } else {
      var e :| e in edges;
      var v := if e.lo in c then e.lo else e.hi;
      var mine := IncidentIn(edges, v);
      var rest := edges - mine;
      forall w | w in c - {v} ensures |IncidentIn(rest, w)| <= cap {
        SubsetCard(IncidentIn(rest, w), IncidentIn(edges, w));
      }
      CoverCount(rest, c - {v}, cap);
      SplitCard(edges, mine);
      MulPred(|c|, cap);
    }
  }

  lemma MulPred(a: int, b: int)
    ensures (a - 1) * b + b == a * b
  {
  }

  lemma SplitCard<T>(a: set<T>, b: set<T>)
    requires b <= a
    ensures |a| == |a - b| + |b|
  {
    assert a == (a - b) + b;
  }

  lemma SubsetCard<T>(a: set<T>, b: set<T>)
    requires a <= b
    ensures |a| <= |b|
  {
    assert b == a + (b - a);
  }

  /**
   * The lower bound is admissible: every vertex cover of `g` has at least
   * `Lowerbound(g)` vertices, since no vertex covers more edges than the
   * maximum degree.
   */
  lemma LowerboundAdmissible(g: Graph, c: set<int>)
    requires g.Valid() && g.edges != {}
    requires Covers(g.edges, c)
    ensures |c| >= Lowerbound(g)
  {
    var d := MaxDegree(g);
    forall v | v in c ensures |IncidentIn(g.edges, v)| <= d {
      IncidentAtMostMaxDegree(g, v);
    }
    CoverCount(g.edges, c, d);
    LowerboundBelow(g, |c|);
  }

  /** Any `n` with `|E| <= n * maxdeg` is at least the lower bound. */
  lemma LowerboundBelow(g: Graph, n: nat)
    requires g.Valid() && g.edges != {}
    requires g.nodes != [] && |g.edges| <= n * MaxDegree(g)
    ensures n >= Lowerbound(g)
  {
    var lb, d := Lowerbound(g), MaxDegree(g);
    assert d * (lb - 1) < |g.edges|;
    QuotientBelow(d, lb, |g.edges|, n);
  }

  lemma IncidentAtMostMaxDegree(g: Graph, v: int)
    requires g.Valid() && g.nodes != []
    ensures |IncidentIn(g.edges, v)| <= MaxDegree(g)
  {
    assert IncidentIn(g.edges, v) == g.Incident(v);
    if v !in g.nodes {
      assert g.Incident(v) == {};
    }
  }

  lemma QuotientBelow(d: nat, lb: int, n: int, c: nat)
    requires d >= 1 && d * (lb - 1) < n && n <= c * d
    ensures c >= lb
  {
    if c < lb {
      MulMonotone(d, c, lb - 1);
    }
  }

  lemma MulMonotone(d: nat, a: int, b: int)
    requires a <= b
    ensures a * d <= d * b
  {
  }
}
