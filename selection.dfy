/**
 * The deterministic steps of the genetic algorithm around the fitness:
 * `seleccion_individuos`, which orders the population by fitness and keeps
 * the fittest as parents, and `mejor_individuo_poblacion_final`, which picks
 * the best individual of the last generation.
 */
module Selection {
  import opened Wrappers
  import opened Queens

  /** Python's `<=` on two lists of integers: the first difference decides, a prefix comes first. */
  predicate LexLeq(a: seq<int>, b: seq<int>) {
    if a == [] then true
    else if b == [] then false
    else if a[0] != b[0] then a[0] < b[0]
    else LexLeq(a[1..], b[1..])
  }

  lemma {:induction false} LexTotal(a: seq<int>, b: seq<int>)
    ensures LexLeq(a, b) || LexLeq(b, a)
  {
    if a != [] && b != [] && a[0] == b[0] {
      LexTotal(a[1..], b[1..]);
    }
  }

  lemma {:induction false} LexAntisymmetric(a: seq<int>, b: seq<int>)
    requires LexLeq(a, b) && LexLeq(b, a)
    ensures a == b
  {
    if a != [] {
      LexAntisymmetric(a[1..], b[1..]);
      assert a == [a[0]] + a[1..] && b == [b[0]] + b[1..];
    }
  }

  lemma {:induction false} LexTransitive(a: seq<int>, b: seq<int>, c: seq<int>)
    requires LexLeq(a, b) && LexLeq(b, c)
    ensures LexLeq(a, c)
  {
    if a != [] && b != [] && c != [] && a[0] == b[0] == c[0] {
      LexTransitive(a[1..], b[1..], c[1..]);
    }
  }

  /** The order `sorted` puts the pairs `(fitness, individual)` in. */
  predicate KeyLeq(a: Individual, b: Individual) {
    Fitness(a) < Fitness(b) || (Fitness(a) == Fitness(b) && LexLeq(a, b))
  }

  lemma KeyTotal(a: Individual, b: Individual)
    ensures KeyLeq(a, b) || KeyLeq(b, a)
  {
    LexTotal(a, b);
  }

  lemma KeyAntisymmetric(a: Individual, b: Individual)
    requires KeyLeq(a, b) && KeyLeq(b, a)
    ensures a == b
  {
    LexAntisymmetric(a, b);
  }

  lemma KeyTransitive(a: Individual, b: Individual, c: Individual)
    requires KeyLeq(a, b) && KeyLeq(b, c)
    ensures KeyLeq(a, c)
  {
    if Fitness(a) == Fitness(b) == Fitness(c) {
      LexTransitive(a, b, c);
    }
  }

  predicate Sorted(s: seq<Individual>) {
    forall i, j :: 0 <= i < j < |s| ==> KeyLeq(s[i], s[j])
  }

  /** `x` put in its place in a sorted list. */
  function Insert(x: Individual, s: seq<Individual>): (r: seq<Individual>)
    requires Sorted(s)
    ensures multiset(r) == multiset(s) + multiset{x}
    ensures Sorted(r)
  {
    if s == [] then [x]
    else if KeyLeq(x, s[0]) then
      InsertFront(x, s);
      [x] + s
    else
      var rest := Insert(x, s[1..]);
      assert s == [s[0]] + s[1..];
      InsertBehind(x, s, rest);
      [s[0]] + rest
  }

  lemma InsertFront(x: Individual, s: seq<Individual>)
    requires Sorted(s) && s != [] && KeyLeq(x, s[0])
    ensures Sorted([x] + s)
  {
    var r := [x] + s;
    forall i, j | 0 <= i < j < |r| ensures KeyLeq(r[i], r[j]) {
      if i == 0 {
        if j > 1 {
          KeyTransitive(x, s[0], s[j - 1]);
        }
      } else {
        assert r[i] == s[i - 1] && r[j] == s[j - 1];
      }
    }
  }

  lemma InsertBehind(x: Individual, s: seq<Individual>, rest: seq<Individual>)
    requires Sorted(s) && s != [] && !KeyLeq(x, s[0])
    requires Sorted(rest) && multiset(rest) == multiset(s[1..]) + multiset{x}
    ensures Sorted([s[0]] + rest)
  {
    KeyTotal(x, s[0]);
    var r := [s[0]] + rest;
    forall i, j | 0 <= i < j < |r| ensures KeyLeq(r[i], r[j]) {
      if i == 0 {
        var y := rest[j - 1];
        assert y in multiset(rest);
        if y != x {
          assert y in multiset(s[1..]);
          var k :| 0 <= k < |s[1..]| && s[1..][k] == y;
          assert s[k + 1] == y;
        }
      } else {
        assert r[i] == rest[i - 1] && r[j] == rest[j - 1];
      }
    }
  }

  /** `sorted(...)`: the population in non-decreasing (fitness, individual) order. */
  function Sort(s: seq<Individual>): (r: seq<Individual>)
    ensures multiset(r) == multiset(s)
    ensures Sorted(r)
  {
    if s == [] then []
    else
      assert s == [s[0]] + s[1..];
      Insert(s[0], Sort(s[1..]))
  }

  /**
   * The order is total and antisymmetric, so there is only one sorted
   * arrangement of a population: whichever sorting algorithm runs, the
   * result is `Sort(s)`.
   */
  lemma {:induction false} SortedUnique(a: seq<Individual>, b: seq<Individual>)
    requires Sorted(a) && Sorted(b) && multiset(a) == multiset(b)
    ensures a == b
  {
    if a != [] {
      SameLeast(a, b);
      SameTail(a, b);
      SortedUnique(a[1..], b[1..]);
      assert a == [a[0]] + a[1..] && b == [b[0]] + b[1..];
    }
  }

  /** Two sorted arrangements of one population start with the same individual. */
  lemma SameLeast(a: seq<Individual>, b: seq<Individual>)
    requires Sorted(a) && Sorted(b) && multiset(a) == multiset(b) && a != []
    ensures b != [] && a[0] == b[0]
  {
    assert a[0] in multiset(b);
    assert b != [] && b[0] in multiset(a);
    var i :| 0 <= i < |b| && b[i] == a[0];
    var j :| 0 <= j < |a| && a[j] == b[0];
    if i != 0 && j != 0 {
      KeyAntisymmetric(a[0], b[0]);
    }
  }

  lemma SameTail(a: seq<Individual>, b: seq<Individual>)
    requires Sorted(a) && Sorted(b) && multiset(a) == multiset(b) && a != [] && b != [] && a[0] == b[0]
    ensures Sorted(a[1..]) && Sorted(b[1..]) && multiset(a[1..]) == multiset(b[1..])
  {
    assert a == [a[0]] + a[1..] && b == [b[0]] + b[1..];
    assert multiset(a[1..]) == multiset(a) - multiset{a[0]};
    assert multiset(b[1..]) == multiset(b) - multiset{b[0]};
  }

  /** Python's `s[:p]`: a negative `p` counts from the end. */
  function Prefix(s: seq<Individual>, p: int): seq<Individual> {
    if p >= 0 then s[..if p < |s| then p else |s|]
    else s[..if |s| + p > 0 then |s| + p else 0]
  }

  /**
   * `seleccion_individuos(poblacion, pressure)`: the population ordered by
   * (fitness, individual), and its first `pressure` members as the parents.
   */
  function SelectIndividuals(population: seq<Individual>, pressure: int): (r: (seq<Individual>, seq<Individual>))
    ensures multiset(r.0) == multiset(population)
    ensures Sorted(r.0)
    ensures r.1 <= r.0
    ensures |r.1| == if pressure >= 0 then (if pressure < |population| then pressure else |population|)
                     else (if |population| + pressure > 0 then |population| + pressure else 0)
  {
    var ordered := Sort(population);
    assert |ordered| == |multiset(ordered)| == |population|;
    (ordered, Prefix(ordered, pressure))
  }

  /** Python's `sorted` gives the same order: it is the only sorted arrangement of the population. */
  lemma SelectionIsTheSortedOrder(population: seq<Individual>, pressure: int, ordered: seq<Individual>)
    requires multiset(ordered) == multiset(population) && Sorted(ordered)
    ensures SelectIndividuals(population, pressure).0 == ordered
  {
    SortedUnique(ordered, SelectIndividuals(population, pressure).0);
  }

  /** The parents are at least as fit as every individual left out of them. */
  lemma ParentsFittest(population: seq<Individual>, pressure: int, i: int, j: int)
    requires 0 <= i < |SelectIndividuals(population, pressure).1| <= j < |SelectIndividuals(population, pressure).0|
    ensures Fitness(SelectIndividuals(population, pressure).1[i]) <= Fitness(SelectIndividuals(population, pressure).0[j])
  {
    var r := SelectIndividuals(population, pressure);
    assert r.1[i] == r.0[i];
    assert KeyLeq(r.0[i], r.0[j]);
  }

  /** The fitness threshold `mejor_individuo_poblacion_final` starts from. */
  const Threshold := 10

  /**
   * `mejor_individuo_poblacion_final(poblacion_final)`: the last individual of
   * least fitness, provided it is at most 10.  Python leaves `mejor_individuo`
   * unbound otherwise and fails; that case is `None`.
   */
  method BestOfFinalPopulation(population: seq<Individual>) returns (r: Option<Individual>)
    ensures r.None? <==> forall k :: 0 <= k < |population| ==> Fitness(population[k]) > Threshold
    ensures r.Some? ==> exists b :: 0 <= b < |population| && population[b] == r.value &&
                                    forall k :: b < k < |population| ==> Fitness(population[k]) > Fitness(r.value)
    ensures r.Some? ==> Fitness(r.value) <= Threshold &&
                        forall k :: 0 <= k < |population| ==> Fitness(r.value) <= Fitness(population[k])
  {
    var mejorFitness := Threshold;
    r := None;
    ghost var b := 0;
    for i := 0 to |population|
      invariant r.None? ==> mejorFitness == Threshold && forall k :: 0 <= k < i ==> Fitness(population[k]) > Threshold
      invariant r.Some? ==> 0 <= b < i && population[b] == r.value && mejorFitness == Fitness(r.value) <= Threshold
      invariant r.Some? ==> forall k :: 0 <= k < i ==> mejorFitness <= Fitness(population[k])
      invariant r.Some? ==> forall k :: b < k < i ==> Fitness(population[k]) > mejorFitness
    {
      var f := EvaluateFitness(population[i]);
      if f <= mejorFitness {
        mejorFitness := EvaluateFitness(population[i]);
        r := Some(population[i]);
        b := i;
      }
    }
  }
}
