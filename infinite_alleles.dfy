/**
 * The infinite-allele mutation script: a list of integer allele labels,
 * updated slot by slot in place.  A slot whose mutation test fires takes the
 * label `max(population) + 1`; any other slot copies a randomly chosen slot
 * of the list as it stands, partly updated already.  `get_fitness` maps
 * every label present to its frequency.
 */
module InfiniteAlleles {
  import opened PyList
  import opened WrightFisher

  /**
   * The random outcomes of one tick over the list `s`: `mutated[i]` is the
   * test `random.random() < mutation_rate` for slot i, and `picks[i]` the
   * index `random.choice` returns for it (consulted only when the test
   * fails).
   */
  predicate ValidTick(s: seq<int>, mutated: seq<bool>, picks: seq<int>) {
    |mutated| == |s| && |picks| == |s| && forall i :: 0 <= i < |picks| ==> 0 <= picks[i] < |s|
  }

  /** The label slot i receives, read from the list `s` as it stands when slot i is reached. */
  function NewLabel(s: seq<int>, mutated: bool, pick: int): (x: int)
    requires 0 <= pick < |s|
    ensures mutated ==> forall y :: y in s ==> y < x
    ensures !mutated ==> x in s
  {
    if mutated then Max(s) + 1 else s[pick]
  }

  /** The list after the first n iterations of the loop in `next_generation`. */
  function Tick(s: seq<int>, mutated: seq<bool>, picks: seq<int>, n: nat): (r: seq<int>)
    requires n <= |s| && ValidTick(s, mutated, picks)
    ensures |r| == |s|
    decreases n
  {
    if n == 0 then s
    else
      var prev := Tick(s, mutated, picks, n - 1);
      prev[n - 1 := NewLabel(prev, mutated[n - 1], picks[n - 1])]
  }

  /** Slots the loop has not reached yet still hold their old labels. */
  lemma {:induction false} TickLeavesLaterSlots(s: seq<int>, mutated: seq<bool>, picks: seq<int>, n: nat)
    requires n <= |s| && ValidTick(s, mutated, picks)
    ensures forall j :: n <= j < |s| ==> Tick(s, mutated, picks, n)[j] == s[j]
  {
    if n > 0 {
      TickLeavesLaterSlots(s, mutated, picks, n - 1);
    }
  }

  /** Slot k is written once, at iteration k, and later iterations leave it alone. */
  lemma {:induction false} TickSettlesSlot(s: seq<int>, mutated: seq<bool>, picks: seq<int>, n: nat, k: nat)
    requires k < n <= |s| && ValidTick(s, mutated, picks)
    ensures Tick(s, mutated, picks, n)[k] == Tick(s, mutated, picks, k + 1)[k]
    decreases n
  {
    if n > k + 1 {
      TickSettlesSlot(s, mutated, picks, n - 1, k);
    }
  }

  /**
   * A mutated slot's label exceeds every label in the list when it is drawn,
   * those of the slots already rewritten in this tick included, so it is a
   * label no individual carries at that moment.
   */
  lemma MutationIsNew(s: seq<int>, mutated: seq<bool>, picks: seq<int>, n: nat, k: nat)
    requires k < n <= |s| && ValidTick(s, mutated, picks) && mutated[k]
    ensures forall y :: y in Tick(s, mutated, picks, k) ==> y < Tick(s, mutated, picks, n)[k]
    ensures Tick(s, mutated, picks, n)[k] !in Tick(s, mutated, picks, k)
  {
    TickSettlesSlot(s, mutated, picks, n, k);
  }

  /** Two mutations in one tick get distinct labels, the later slot the larger one. */
  lemma MutationsGetDistinctLabels(s: seq<int>, mutated: seq<bool>, picks: seq<int>, n: nat, k1: nat, k2: nat)
    requires k1 < k2 < n <= |s| && ValidTick(s, mutated, picks)
    requires mutated[k1] && mutated[k2]
    ensures Tick(s, mutated, picks, n)[k1] < Tick(s, mutated, picks, n)[k2]
  {
    TickSettlesSlot(s, mutated, picks, n, k1);
    TickSettlesSlot(s, mutated, picks, k2, k1);
    MutationIsNew(s, mutated, picks, n, k2);
    assert Tick(s, mutated, picks, k2)[k1] in Tick(s, mutated, picks, k2);
  }

  /** Without a mutation every label after the tick was already present before it. */
  lemma {:induction false} NoMutationNoNewLabel(s: seq<int>, mutated: seq<bool>, picks: seq<int>, n: nat)
    requires n <= |s| && ValidTick(s, mutated, picks)
    requires forall k :: 0 <= k < n ==> !mutated[k]
    ensures forall x :: x in Tick(s, mutated, picks, n) ==> x in s
  {
    if n > 0 {
      NoMutationNoNewLabel(s, mutated, picks, n - 1);
      var prev := Tick(s, mutated, picks, n - 1);
      forall x | x in Tick(s, mutated, picks, n)
        ensures x in s
      {
        var j :| 0 <= j < |s| && Tick(s, mutated, picks, n)[j] == x;
        if j != n - 1 {
          assert prev[j] in prev;
        }
      }
    }
  }

  /** Labels start at 0 and only ever grow by one past the maximum, so none is negative. */
  lemma {:induction false} LabelsStayNonNegative(s: seq<int>, mutated: seq<bool>, picks: seq<int>, n: nat)
    requires n <= |s| && ValidTick(s, mutated, picks)
    requires forall i :: 0 <= i < |s| ==> s[i] >= 0
    ensures forall i :: 0 <= i < |s| ==> Tick(s, mutated, picks, n)[i] >= 0
  {
    if n > 0 {
      LabelsStayNonNegative(s, mutated, picks, n - 1);
      var prev := Tick(s, mutated, picks, n - 1);
      assert prev[0] in prev;
    }
  }

  /** Writing a label above every other one makes it the new maximum. */
  lemma MaxAfterNewLabel(s: seq<int>, i: nat, v: int)
    requires i < |s| && forall y :: y in s ==> y < v
    ensures Max(s[i := v]) == v
  {
    var t := s[i := v];
    assert t[i] == v && v in t;
    forall y | y in t
      ensures y <= v
    {
      var j :| 0 <= j < |t| && t[j] == y;
      if j != i {
        assert s[j] in s;
      }
    }
  }

  /**
   * When every slot mutates, slot k receives `max + k + 1` where `max` is the
   * largest label before the tick: every label after the tick exceeds every
   * label before it.
   */
  lemma {:induction false} FullMutationCounts(s: seq<int>, mutated: seq<bool>, picks: seq<int>, n: nat)
    requires 0 < |s| && n <= |s| && ValidTick(s, mutated, picks)
    requires forall k :: 0 <= k < n ==> mutated[k]
    ensures Max(Tick(s, mutated, picks, n)) == Max(s) + n
    ensures forall k :: 0 <= k < n ==> Tick(s, mutated, picks, n)[k] == Max(s) + k + 1
  {
    if n > 0 {
      FullMutationCounts(s, mutated, picks, n - 1);
      var prev := Tick(s, mutated, picks, n - 1);
      var next := Tick(s, mutated, picks, n);
      assert next == prev[n - 1 := Max(prev) + 1];
      MaxAfterNewLabel(prev, n - 1, Max(prev) + 1);
      forall k | 0 <= k < n
        ensures next[k] == Max(s) + k + 1
      {
        if k < n - 1 {
          assert next[k] == prev[k];
        }
      }
    }
  }

  /** Full mutation over the whole tick: every new label lies above every old one. */
  lemma FullMutationRenewsAllLabels(s: seq<int>, mutated: seq<bool>, picks: seq<int>)
    requires 0 < |s| && ValidTick(s, mutated, picks)
    requires forall k :: 0 <= k < |s| ==> mutated[k]
    ensures forall x, y :: x in s && y in Tick(s, mutated, picks, |s|) ==> x < y
  {
    FullMutationCounts(s, mutated, picks, |s|);
    forall x, y | x in s && y in Tick(s, mutated, picks, |s|)
      ensures x < y
    {
      var k :| 0 <= k < |s| && Tick(s, mutated, picks, |s|)[k] == y;
    }
  }

  /**
   * Copies read the partly updated list: from [0, 0], slot 0 mutates to 1 and
   * slot 1 then copies slot 0, so both end with label 1 (a copy of the
   * pre-tick list would have left slot 1 at 0).
   */
  lemma CopyReadsUpdatedSlot()
    ensures Tick([0, 0], [true, false], [0, 0], 2) == [1, 1]
  {
    var t1 := Tick([0, 0], [true, false], [0, 0], 1);
    assert Max([0, 0]) == 0;
    assert t1 == [1, 0];
    assert Tick([0, 0], [true, false], [0, 0], 2) == t1[1 := t1[0]];
  }

  /**
   * `max(population) + 1` is new only with respect to the current list: a
   * label that has died out is issued again.  From [0, 0] a mutation in slot
   * 1 creates label 1, a drift tick loses it, and the next mutation in slot 1
   * issues label 1 once more.
   */
  lemma ExtinctLabelIsReissued()
    ensures Tick([0, 0], [false, true], [0, 0], 2) == [0, 1]
    ensures Tick([0, 1], [false, false], [0, 0], 2) == [0, 0]
    ensures Tick([0, 0], [false, true], [0, 0], 2) == [0, 1]
  {
    var s1 := Tick([0, 0], [false, true], [0, 0], 1);
    assert s1 == [0, 0];
    assert Max(s1) == 0;
    var s2 := Tick([0, 1], [false, false], [0, 0], 1);
    assert s2 == [0, 1];
  }

  /**
   * `get_fitness`: every label present mapped to its count divided by the
   * population size, which is the list's length.
   */
  function Frequencies(s: seq<int>): (f: map<int, real>)
    ensures forall x :: x in f <==> x in s
    ensures forall x :: x in f ==> 0.0 < f[x] <= 1.0
  {
    FrequenciesInUnitInterval(s);
    map x | x in s :: Count(s, x) as real / |s| as real
  }

  lemma FrequenciesInUnitInterval(s: seq<int>)
    ensures forall x :: x in s ==> 0.0 < Count(s, x) as real / |s| as real <= 1.0
  {
    forall x | x in s
      ensures 0.0 < Count(s, x) as real / |s| as real <= 1.0
    {
      CountAtMostLength(s, x);
      var c, n := Count(s, x) as real, |s| as real;
      assert c / n <= n / n by { DivideMonotonic(c, n, n); }
    }
  }

  lemma DivideSum(a: real, b: real, n: real)
    requires n > 0.0
    ensures a / n + b / n == (a + b) / n
  {
  }

  lemma DivideBySelf(n: real)
    requires n > 0.0
    ensures n / n == 1.0
  {
  }

  /**
   * The labels of `s` without repeats, in order of first appearance: the
   * order in which `get_fitness` inserts its keys.
   */
  function Labels(s: seq<int>): (ls: seq<int>)
    ensures Distinct(ls)
    ensures forall x :: x in ls <==> x in s
  {
    if s == [] then []
    else
      var prefix := Labels(s[..|s| - 1]);
      assert forall x :: x in s ==> x in s[..|s| - 1] || x == s[|s| - 1];
      if s[|s| - 1] in prefix then prefix else prefix + [s[|s| - 1]]
  }

  /**
   * `Labels` lists the labels in order of first appearance: wherever a later
   * label occurs in `s`, every earlier label has already occurred before it.
   */
  lemma {:induction false} LabelsInFirstAppearanceOrder(s: seq<int>)
    ensures forall i, j, q :: 0 <= i < j < |Labels(s)| && 0 <= q < |s| && s[q] == Labels(s)[j] ==> Labels(s)[i] in s[..q]
  {
    if s != [] {
      var n := |s|;
      var init := s[..n - 1];
      var prefix := Labels(init);
      LabelsInFirstAppearanceOrder(init);
      var ls := Labels(s);
      assert ls == prefix || ls == prefix + [s[n - 1]];
      forall i, j, q | 0 <= i < j < |ls| && 0 <= q < n && s[q] == ls[j]
        ensures ls[i] in s[..q]
      {
        assert ls[i] == prefix[i] && ls[i] in init;
        if q == n - 1 {
          assert s[..q] == init;
        } else {
          assert init[q] == s[q] && init[..q] == s[..q];
          if j == |prefix| {
            assert false;
          }
          assert prefix[j] == ls[j];
        }
      }
    }
  }

  predicate Distinct(ls: seq<int>) {
    forall i, j :: 0 <= i < j < |ls| ==> ls[i] != ls[j]
  }

  /** The sum of the counts in `s` of the labels `ls`. */
  function CountSum(s: seq<int>, ls: seq<int>): nat {
    if ls == [] then 0 else Count(s, ls[0]) + CountSum(s, ls[1..])
  }

  /** The sum of the map's values at the keys `ls`. */
  function SumAt(f: map<int, real>, ls: seq<int>): real
    requires forall i :: 0 <= i < |ls| ==> ls[i] in f
  {
    if ls == [] then 0.0 else f[ls[0]] + SumAt(f, ls[1..])
  }

  /** A label occurs once in a list of distinct labels that holds it. */
  lemma {:induction false} DistinctCount(ls: seq<int>, x: int)
    requires Distinct(ls)
    ensures Count(ls, x) == if x in ls then 1 else 0
  {
    if ls != [] {
      assert ls == [ls[0]] + ls[1..];
      DistinctCount(ls[1..], x);
      if ls[0] == x {
        assert x !in ls[1..];
      }
    }
  }

  /** Appending x to the list adds, to the count sum, the number of times x is among the labels. */
  lemma {:induction false} CountSumAppend(s: seq<int>, x: int, ls: seq<int>)
    ensures CountSum(s + [x], ls) == CountSum(s, ls) + Count(ls, x)
  {
    if ls != [] {
      CountSumAppend(s, x, ls[1..]);
      assert ls == [ls[0]] + ls[1..];
    }
  }

  /** The empty list counts nothing, whatever the labels. */
  lemma {:induction false} CountSumOfEmpty(ls: seq<int>)
    ensures CountSum([], ls) == 0
  {
    if ls != [] {
      CountSumOfEmpty(ls[1..]);
    }
  }

  /** Summing the counts over distinct labels that cover the list counts every member once. */
  lemma {:induction false} CountSumIsLength(s: seq<int>, ls: seq<int>)
    requires Distinct(ls) && forall x :: x in s ==> x in ls
    ensures CountSum(s, ls) == |s|
  {
    if s != [] {
      var init, x := s[..|s| - 1], s[|s| - 1];
      assert s == init + [x];
      assert x in s;
      assert forall y :: y in init ==> y in s;
      CountSumIsLength(init, ls);
      CountSumAppend(init, x, ls);
      DistinctCount(ls, x);
      assert Count(ls, x) == 1;
      assert CountSum(init + [x], ls) == |init| + 1;
    } else {
      CountSumOfEmpty(ls);
    }
  }

  /** The frequencies summed over some labels are their counts summed, over the list's length. */
  lemma {:induction false} SumOfFrequencies(s: seq<int>, ls: seq<int>)
    requires s != [] && forall i :: 0 <= i < |ls| ==> ls[i] in s
    ensures SumAt(Frequencies(s), ls) == CountSum(s, ls) as real / |s| as real
  {
    if ls != [] {
      SumOfFrequencies(s, ls[1..]);
      var n := |s| as real;
      var a, b := Count(s, ls[0]) as real, CountSum(s, ls[1..]) as real;
      assert Frequencies(s)[ls[0]] == a / n;
      DivideSum(a, b, n);
    }
  }

  /** The frequencies of one snapshot sum to 1. */
  lemma SnapshotSumsToOne(s: seq<int>)
    requires s != []
    ensures SumAt(Frequencies(s), Labels(s)) == 1.0
  {
    var ls := Labels(s);
    assert forall i :: 0 <= i < |ls| ==> ls[i] in s by {
      forall i | 0 <= i < |ls|
        ensures ls[i] in s
      {
        assert ls[i] in ls;
      }
    }
    SumOfFrequencies(s, ls);
    CountSumIsLength(s, ls);
    DivideBySelf(|s| as real);
  }

  /**
   * The loop of `next_generation`: slot by slot in index order, a fresh
   * label when the mutation test fires, else a copy of slot `picks[i]` of
   * the array as it stands.
   */
  method Mutate(a: array<int>, mutated: seq<bool>, picks: seq<int>)
    requires ValidTick(a[..], mutated, picks)
    modifies a
    ensures a[..] == Tick(old(a[..]), mutated, picks, a.Length)
  {
    ghost var start := a[..];
    var i := 0;
    while i < a.Length
      invariant 0 <= i <= a.Length
      invariant a[..] == Tick(start, mutated, picks, i)
    {
      if mutated[i] {
        a[i] := Max(a[..]) + 1;
      } else {
        a[i] := a[picks[i]];
      }
      i := i + 1;
    }
  }

  /** `population(size, µ)` of the mutation script. */
  class Population {
    var size: nat
    var generation: nat
    var population: array<int>
    var fitness: map<int, real>
    var fitnessList: seq<map<int, real>>
    var mutationRate: real

    /**
     * `size` labels, none negative; one snapshot per tick, the last one the
     * current frequencies (none before the first tick).
     */
    ghost predicate Valid()
      reads this, population
    {
      && population.Length == size
      && (forall i :: 0 <= i < size ==> population[i] >= 0)
      && |fitnessList| == generation
      && (generation == 0 ==> fitness == map[])
      && (generation > 0 ==> fitness == fitnessList[generation - 1] && fitness == Frequencies(population[..]))
    }

    /** `population(size, µ)`: `size` individuals, all with label 0. */
    constructor (size: nat, mu: real)
      ensures Valid() && fresh(population)
      ensures this.size == size && mutationRate == mu && generation == 0
      ensures population[..] == seq(size, _ => 0)
      ensures fitnessList == []
    {
      this.size := size;
      generation := 0;
      fitness := map[];
      fitnessList := [];
      mutationRate := mu;
      population := new int[size](_ => 0);
    }

    /**
     * `get_fitness`: walk the list and give each label not seen yet the
     * value `population.count(k) / size`.
     */
    method GetFitness() returns (dic: map<int, real>)
      requires population.Length == size
      ensures dic == Frequencies(population[..])
    {
      dic := map[];
      var i := 0;
      while i < population.Length
        invariant 0 <= i <= population.Length
        invariant dic == map x | x in population[..i] :: Count(population[..], x) as real / size as real
      {
        var k := population[i];
        assert population[..i + 1] == population[..i] + [k];
        if k !in dic {
          dic := dic[k := Count(population[..], k) as real / size as real];
        }
        i := i + 1;
      }
      assert population[..i] == population[..];
    }

    /**
     * `next_generation`: for each slot in order, a fresh label when the
     * mutation test fires, else a copy of slot `picks[i]` of the list as it
     * stands; then the frequencies are recorded and the generation advanced.
     */
    method NextGeneration(mutated: seq<bool>, picks: seq<int>)
      requires Valid() && ValidTick(population[..], mutated, picks)
      modifies this, population
      ensures Valid() && population == old(population)
      ensures size == old(size) && mutationRate == old(mutationRate)
      ensures population[..] == Tick(old(population[..]), mutated, picks, size)
      ensures generation == old(generation) + 1
      ensures fitness == Frequencies(population[..])
      ensures fitnessList == old(fitnessList) + [fitness]
    {
      ghost var start := population[..];
      Mutate(population, mutated, picks);
      LabelsStayNonNegative(start, mutated, picks, size);
      fitness := GetFitness();
      fitnessList := fitnessList + [fitness];
      generation := generation + 1;
    }
  }
}
