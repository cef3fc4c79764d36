/**
 * `evaluar_aptitud`, the fitness of the genetic algorithm: an n-queens threat
 * counter.  An individual of length n places the queen of column j on row
 * `ind[j]`.  The fitness adds up, over the rows and over the diagonals of the
 * board, the number of queens on each line that holds more than one queen.
 */
module Queens {

  type Individual = seq<int>

  /** How the row of a line changes from one column to the next. */
  datatype Slope = Flat | Up | Down

  /** The cells `(j, c + slope * j)` for the columns `lo <= j < hi`. */
  datatype Line = Line(lo: int, hi: int, c: int, slope: Slope)

  function RowOf(l: Line, j: int): int {
    match l.slope
    case Flat => l.c
    case Up => l.c + j
    case Down => l.c - j
  }

  /** The number of columns `l.lo <= j < m` whose queen stands on `l`. */
  function Hits(ind: Individual, l: Line, m: int): nat
    requires 0 <= l.lo && m <= |ind|
    decreases m - l.lo
  {
    if m <= l.lo then 0
    else Hits(ind, l, m - 1) + (if ind[m - 1] == RowOf(l, m - 1) then 1 else 0)
  }

  /** The number of queens on the line. */
  function Count(ind: Individual, l: Line): nat
    requires 0 <= l.lo && l.hi <= |ind|
  {
    Hits(ind, l, l.hi)
  }

  /** `individuo.count(v)`. */
  function Occurrences(ind: Individual, v: int): nat {
    Count(ind, Line(0, |ind|, v, Flat))
  }

  /** What a line adds to the fitness: its count when more than one queen stands on it. */
  function Contribution(count: nat): nat {
    if count > 1 then count else 0
  }

  /**
   * The five scans of `evaluar_aptitud`: the rows, the anti-diagonals that
   * start on the top edge (`DA1`) and on the right edge (`DA2`), and the
   * diagonals that start on the left edge (`DB1`) and on the top edge (`DB2`).
   */
  datatype Scan = Rows | DA1 | DA2 | DB1 | DB2

  /** Where the outer loop of a scan starts. */
  function First(scan: Scan): nat {
    if scan == DA2 || scan == DB2 then 1 else 0
  }

  /** The line that iteration `i` of the outer loop of `scan` counts on a board of size `n`. */
  function LineOf(scan: Scan, n: nat, i: int): (l: Line)
    ensures First(scan) <= i < n ==> 0 <= l.lo && l.hi <= n
  {
    match scan
    case Rows => Line(0, n, i, Flat)
    case DA1 => Line(0, i + 1, i, Down)
    case DA2 => Line(n - i, n, (n - 1) + (n - i), Down)
    case DB1 => Line(0, n, (n - 1) - i, Up)
    case DB2 => Line(i, n, -i, Up)
  }

  /** The counter of `scan` after the outer iterations `First(scan) <= i < m`. */
  function Term(ind: Individual, scan: Scan, m: nat): nat
    requires m <= |ind| || m <= First(scan)
  {
    if m <= First(scan) then 0
    else Term(ind, scan, m - 1) + Contribution(Count(ind, LineOf(scan, |ind|, m - 1)))
  }

  /** The value `evaluar_aptitud` returns. */
  function Fitness(ind: Individual): nat {
    var n := |ind|;
    Term(ind, Rows, n) + Term(ind, DA1, n) + Term(ind, DA2, n) + Term(ind, DB1, n) + Term(ind, DB2, n)
  }

  /** `evaluar_aptitud(individuo)`: five counting scans, then their sum. */
  method EvaluateFitness(ind: Individual) returns (r: nat)
    ensures r == Fitness(ind)
  {
    var n := |ind|;
    var contDA1, contDA2, contDB1, contDB2, idoGlobal := 0, 0, 0, 0, 0;

    for i := 0 to n
      invariant idoGlobal == Term(ind, Rows, i)
    {
      var auxcont := Occurrences(ind, i);
      if auxcont > 1 {
        idoGlobal := idoGlobal + auxcont;
      }
    }

    for i := 0 to n
      invariant contDA1 == Term(ind, DA1, i)
    {
      var auxcont := 0;
      for j := 0 to i + 1
        invariant auxcont == Hits(ind, LineOf(DA1, n, i), j)
      {
        if ind[j] == i - j {
          auxcont := auxcont + 1;
        }
      }
      if auxcont > 1 {
        contDA1 := contDA1 + auxcont;
      }
    }

    var k := 1;
    while k < n
      invariant 1 <= k && (k <= n || k == 1)
      invariant contDA2 == Term(ind, DA2, k)
    {
      var auxcont := 0;
      var i := n - k;
      for j := i to n
        invariant auxcont == Hits(ind, LineOf(DA2, n, k), j)
      {
        if ind[j] == (n - 1) - (j - i) {
          auxcont := auxcont + 1;
        }
      }
      if auxcont > 1 {
        contDA2 := contDA2 + auxcont;
      }
      k := k + 1;
    }

    for i := 0 to n
      invariant contDB1 == Term(ind, DB1, i)
    {
      var auxcont := 0;
      for j := 0 to n
        invariant auxcont == Hits(ind, LineOf(DB1, n, i), j)
      {
        if ind[j] == (n - 1) - (i - j) {
          auxcont := auxcont + 1;
        }
      }
      if auxcont > 1 {
        contDB1 := contDB1 + auxcont;
      }
    }

    var i := 1;
    while i < n
      invariant 1 <= i && (i <= n || i == 1)
      invariant contDB2 == Term(ind, DB2, i)
    {
      var auxcont := 0;
      for j := i to n
        invariant auxcont == Hits(ind, LineOf(DB2, n, i), j)
      {
        if ind[j] == j - i {
          auxcont := auxcont + 1;
        }
      }
      if auxcont > 1 {
        contDB2 := contDB2 + auxcont;
      }
      i := i + 1;
    }

    idoGlobal := idoGlobal + contDA1 + contDA2 + contDB1 + contDB2;
    r := idoGlobal;
  }

  /** `calcular_fitness(individuo)`: the same value. */
  method CalculateFitness(ind: Individual) returns (r: nat)
    ensures r == Fitness(ind)
  {
    r := EvaluateFitness(ind);
  }

  // ----- Properties of the fitness -----

  /** A line cannot hold more queens than it has columns. */
  lemma {:induction false} HitsAtMost(ind: Individual, l: Line, m: int)
    requires 0 <= l.lo <= m <= |ind|
    ensures Hits(ind, l, m) <= m - l.lo
    decreases m - l.lo
  {
    if m > l.lo {
      HitsAtMost(ind, l, m - 1);
    }
  }

  /** Every scan adds nothing or at least two: a lone queen is never counted. */
  lemma {:induction false} TermNeverOne(ind: Individual, scan: Scan, m: nat)
    requires m <= |ind| || m <= First(scan)
    ensures Term(ind, scan, m) == 0 || Term(ind, scan, m) >= 2
  {
    if m > First(scan) {
      TermNeverOne(ind, scan, m - 1);
    }
  }

  /** Hence no individual has fitness 1. */
  lemma FitnessNeverOne(ind: Individual)
    ensures Fitness(ind) != 1
  {
    var n := |ind|;
    TermNeverOne(ind, Rows, n);
    TermNeverOne(ind, DA1, n);
    TermNeverOne(ind, DA2, n);
    TermNeverOne(ind, DB1, n);
    TermNeverOne(ind, DB2, n);
  }

  /** A scan whose every line holds at most one queen adds nothing. */
  lemma {:induction false} TermZero(ind: Individual, scan: Scan, m: nat)
    requires m <= |ind| || m <= First(scan)
    ensures Term(ind, scan, m) == 0 <==>
            forall i :: First(scan) <= i < m ==> Count(ind, LineOf(scan, |ind|, i)) <= 1
  {
    if m > First(scan) {
      TermZero(ind, scan, m - 1);
    }
  }

  /** An empty board or a board of one column has fitness 0. */
  lemma ShortScoresZero(ind: Individual)
    requires |ind| <= 1
    ensures Fitness(ind) == 0
  {
    if |ind| == 1 {
      HitsAtMost(ind, LineOf(Rows, 1, 0), 1);
      HitsAtMost(ind, LineOf(DA1, 1, 0), 1);
      HitsAtMost(ind, LineOf(DB1, 1, 0), 1);
      assert Term(ind, Rows, 1) == 0;
      assert Term(ind, DA1, 1) == 0;
      assert Term(ind, DB1, 1) == 0;
    }
  }

  /** The columns that take part in a line on two boards whose queens agree on it. */
  lemma {:induction false} HitsAgree(a: Individual, b: Individual, l: Line, m: int)
    requires 0 <= l.lo && m <= |a| == |b|
    requires forall j :: l.lo <= j < m ==> (a[j] == RowOf(l, j) <==> b[j] == RowOf(l, j))
    ensures Hits(a, l, m) == Hits(b, l, m)
    decreases m - l.lo
  {
    if m > l.lo {
      HitsAgree(a, b, l, m - 1);
    }
  }

  lemma {:induction false} RowTermAgree(a: Individual, b: Individual, m: nat)
    requires m <= |a| == |b|
    requires forall j :: 0 <= j < |a| ==> a[j] == b[j] || ((a[j] < 0 || a[j] >= |a|) && (b[j] < 0 || b[j] >= |a|))
    ensures Term(a, Rows, m) == Term(b, Rows, m)
  {
    if m > 0 {
      RowTermAgree(a, b, m - 1);
      HitsAgree(a, b, LineOf(Rows, |a|, m - 1), |a|);
    }
  }

  /**
   * The row scan only counts the values `0 <= v < n`: two boards that differ
   * only where both hold a value outside that range have the same row term.
   */
  lemma RowTermIgnoresOutOfRange(a: Individual, b: Individual)
    requires |a| == |b|
    requires forall j :: 0 <= j < |a| ==> a[j] == b[j] || ((a[j] < 0 || a[j] >= |a|) && (b[j] < 0 || b[j] >= |a|))
    ensures Term(a, Rows, |a|) == Term(b, Rows, |b|)
  {
    RowTermAgree(a, b, |a|);
  }

  /** A line holds a queen exactly when some column of it has one. */
  lemma {:induction false} OneHit(ind: Individual, l: Line, m: int)
    requires 0 <= l.lo && m <= |ind|
    ensures Hits(ind, l, m) >= 1 <==> exists j :: l.lo <= j < m && ind[j] == RowOf(l, j)
    decreases m - l.lo
  {
    if m > l.lo {
      OneHit(ind, l, m - 1);
    }
  }

  /** A line holds two queens exactly when two of its columns have one. */
  lemma {:induction false} TwoHits(ind: Individual, l: Line, m: int)
    requires 0 <= l.lo && m <= |ind|
    ensures Hits(ind, l, m) >= 2 <==>
            exists j1, j2 :: l.lo <= j1 < j2 < m && ind[j1] == RowOf(l, j1) && ind[j2] == RowOf(l, j2)
    decreases m - l.lo
  {
    if m > l.lo {
      TwoHits(ind, l, m - 1);
      OneHit(ind, l, m - 1);
      if exists j1, j2 :: l.lo <= j1 < j2 < m && ind[j1] == RowOf(l, j1) && ind[j2] == RowOf(l, j2) {
        var j1, j2 :| l.lo <= j1 < j2 < m && ind[j1] == RowOf(l, j1) && ind[j2] == RowOf(l, j2);
        if j2 < m - 1 {
          assert l.lo <= j1 < j2 < m - 1;
        }
      }
    }
  }

  /** Every queen on its own row, anti-diagonal and diagonal: the board solves n-queens. */
  predicate NoThreats(ind: Individual) {
    forall j1, j2 :: 0 <= j1 < j2 < |ind| ==>
      ind[j1] != ind[j2] && ind[j1] + j1 != ind[j2] + j2 && ind[j1] - j1 != ind[j2] - j2
  }

  /** Every queen stands on the board. */
  predicate OnBoard(ind: Individual) {
    forall j :: 0 <= j < |ind| ==> 0 <= ind[j] < |ind|
  }

  /** On a board without threats every line holds at most one queen. */
  lemma LineAtMostOne(ind: Individual, l: Line)
    requires NoThreats(ind) && 0 <= l.lo && l.hi <= |ind|
    ensures Count(ind, l) <= 1
  {
    forall j1, j2 | l.lo <= j1 < j2 < l.hi ensures !(ind[j1] == RowOf(l, j1) && ind[j2] == RowOf(l, j2)) {
      assert ind[j1] != ind[j2] && ind[j1] + j1 != ind[j2] + j2 && ind[j1] - j1 != ind[j2] - j2;
    }
    TwoHits(ind, l, l.hi);
  }

  /** Two queens of a board that threaten each other share a line of one of the scans. */
  lemma ThreatLine(ind: Individual, j1: int, j2: int) returns (scan: Scan, i: int)
    requires OnBoard(ind) && 0 <= j1 < j2 < |ind|
    requires ind[j1] == ind[j2] || ind[j1] + j1 == ind[j2] + j2 || ind[j1] - j1 == ind[j2] - j2
    ensures First(scan) <= i < |ind| && Count(ind, LineOf(scan, |ind|, i)) >= 2
  {
    var n := |ind|;
    if ind[j1] == ind[j2] {
      scan, i := Rows, ind[j1];
    } else if ind[j1] + j1 == ind[j2] + j2 {
      var s := ind[j1] + j1;
      if s < n {
        scan, i := DA1, s;
      } else {
        scan, i := DA2, 2 * n - 1 - s;
      }
    } else {
      var d := ind[j1] - j1;
      if d >= 0 {
        scan, i := DB1, n - 1 - d;
      } else {
        scan, i := DB2, -d;
      }
    }
    var l := LineOf(scan, n, i);
    assert ind[j1] == RowOf(l, j1) && ind[j2] == RowOf(l, j2);
    TwoHits(ind, l, l.hi);
  }

  /**
   * A board has fitness 0 exactly when it solves n-queens (the queens standing
   * on the board; queens off the board are not counted by the row scan).
   */
  lemma FitnessZeroIffNoThreats(ind: Individual)
    ensures NoThreats(ind) ==> Fitness(ind) == 0
    ensures OnBoard(ind) && Fitness(ind) == 0 ==> NoThreats(ind)
  {
    var n := |ind|;
    if NoThreats(ind) {
      forall scan: Scan, i | First(scan) <= i < n ensures Count(ind, LineOf(scan, n, i)) <= 1 {
        LineAtMostOne(ind, LineOf(scan, n, i));
      }
    }
    TermZero(ind, Rows, n);
    TermZero(ind, DA1, n);
    TermZero(ind, DA2, n);
    TermZero(ind, DB1, n);
    TermZero(ind, DB2, n);
    if OnBoard(ind) && Fitness(ind) == 0 {
      forall j1, j2 | 0 <= j1 < j2 < n
        ensures ind[j1] != ind[j2] && ind[j1] + j1 != ind[j2] + j2 && ind[j1] - j1 != ind[j2] - j2
      {
        if ind[j1] == ind[j2] || ind[j1] + j1 == ind[j2] + j2 || ind[j1] - j1 == ind[j2] - j2 {
          var scan, i := ThreatLine(ind, j1, j2);
        }
      }
    }
  }
}
