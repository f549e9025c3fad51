/**
 * The population-structure script: an 'A'/'B' population cut into
 * consecutive slices, each slice then resampled only from itself (no
 * migration), with one frequency series per slice kept in a dictionary
 * whose keys are "0" to "9".
 */
module PopulationStructure {
  import opened Wrappers
  import opened PyList
  import opened WrightFisher

  /** The exceptions construction can raise. */
  datatype SetupError =
    | ZeroSliceStep        // ValueError: `range()` with a step of 0, when `int(size/10) == 0`
    | MissingKey(key: nat) // KeyError: a subpopulation index without a series in `fitness_list`

  /** The number of series `fitness_list` is created with. */
  const SeriesCount: nat := 10

  /** The keys of `fitness_list`: "0" to "9", each the decimal text of its index, modelled by the index. */
  function SeriesKeys(): (keys: set<nat>)
    ensures forall k: nat :: k in keys ==> k < SeriesCount
    ensures forall k: nat :: k < SeriesCount ==> k in keys
  {
    {0, 1, 2, 3, 4, 5, 6, 7, 8, 9}
  }

  /**
   * `[s[i:i+step] for i in range(0, len(s), step)]`: consecutive slices of
   * `step` items, the last one cut short by the end of the list.
   */
  function Slices<T>(s: seq<T>, step: nat): (r: seq<seq<T>>)
    requires step > 0
    ensures |r| > 0 <==> |s| > 0
    ensures forall j :: 0 <= j < |r| - 1 ==> |r[j]| == step
    ensures |r| > 0 ==> 0 < |r[|r| - 1]| <= step
    decreases |s|
  {
    if |s| == 0 then []
    else if |s| <= step then [s]
    else [s[..step]] + Slices(s[step..], step)
  }

  /** The slices, joined back together, give the list; none is empty or longer than the step. */
  lemma {:induction false} SlicesPartition<T>(s: seq<T>, step: nat)
    requires step > 0
    ensures Flatten(Slices(s, step)) == s
    ensures forall j :: 0 <= j < |Slices(s, step)| ==> 0 < |Slices(s, step)[j]| <= step
    decreases |s|
  {
    if |s| > step {
      SlicesPartition(s[step..], step);
      assert s == s[..step] + s[step..];
    }
  }

  /** At most m slices when the list fits in m steps, more than m otherwise; exactly m full ones for m steps. */
  lemma {:induction false} SliceCount<T>(s: seq<T>, step: nat, m: nat)
    requires step > 0
    ensures |s| <= m * step ==> |Slices(s, step)| <= m
    ensures |s| > m * step ==> |Slices(s, step)| > m
    ensures |s| == m * step ==> forall j :: 0 <= j < |Slices(s, step)| ==> |Slices(s, step)[j]| == step
    decreases m
  {
    if m > 0 {
      assert m * step == (m - 1) * step + step;
      if |s| > step {
        SliceCount(s[step..], step, m - 1);
      }
    }
  }

  /**
   * With `size >= 10` and a step of `size / 10` there are at least ten
   * slices, and exactly ten, all of one step, when 10 divides size.
   */
  lemma SliceCountForSize<T>(s: seq<T>)
    requires |s| >= 10
    ensures |Slices(s, |s| / 10)| >= 10
    ensures |Slices(s, |s| / 10)| == 10 <==> |s| % 10 == 0
    ensures |s| % 10 == 0 ==> forall j :: 0 <= j < 10 ==> |Slices(s, |s| / 10)[j]| == |s| / 10
  {
    var step := |s| / 10;
    SliceCount(s, step, 9);
    SliceCount(s, step, 10);
  }

  /** Each subpopulation j resampled from itself alone, by its own draws. */
  function ResampleEach(subs: seq<seq<Genotype>>, draws: seq<seq<int>>): (r: seq<seq<Genotype>>)
    requires ValidSubdividedDraws(subs, draws)
    ensures |r| == |subs|
  {
    seq(|subs|, j requires 0 <= j < |subs| => Resample(subs[j], draws[j]))
  }

  /** One list of draws per subpopulation, each an index into that subpopulation. */
  predicate ValidSubdividedDraws(subs: seq<seq<Genotype>>, draws: seq<seq<int>>) {
    |draws| == |subs| && forall j :: 0 <= j < |subs| ==> ValidDraws(draws[j], |subs[j]|)
  }

  /**
   * Zero migration: new subpopulation j has one member per draw, each a member
   * of old subpopulation j, and it depends on nothing but that subpopulation
   * and its draws.
   */
  lemma ZeroMigration(subs: seq<seq<Genotype>>, draws: seq<seq<int>>,
                      subs': seq<seq<Genotype>>, draws': seq<seq<int>>, j: nat)
    requires ValidSubdividedDraws(subs, draws) && ValidSubdividedDraws(subs', draws')
    requires j < |subs| && j < |subs'|
    ensures |ResampleEach(subs, draws)[j]| == |draws[j]|
    ensures forall x :: x in ResampleEach(subs, draws)[j] ==> x in subs[j]
    ensures subs[j] == subs'[j] && draws[j] == draws'[j] ==>
              ResampleEach(subs, draws)[j] == ResampleEach(subs', draws')[j]
  {
    ResampleDrawsFromPool(subs[j], draws[j]);
  }

  /** A subpopulation fixed for one allele stays fixed, whatever the others hold. */
  lemma FixedSubpopulationStaysFixed(subs: seq<seq<Genotype>>, draws: seq<seq<int>>, j: nat, g: Genotype)
    requires ValidSubdividedDraws(subs, draws) && j < |subs|
    requires forall x :: x in subs[j] ==> x == g
    ensures forall x :: x in ResampleEach(subs, draws)[j] ==> x == g
  {
    FixationIsAbsorbing(subs[j], draws[j], g);
  }

  /** `fitness_list` after one `get_fitness_list` pass over the first n subpopulations. */
  function AppendColumn(series: map<nat, seq<real>>, values: seq<real>, n: nat): (r: map<nat, seq<real>>)
    requires n <= |values|
    ensures r.Keys == series.Keys
  {
    map k | k in series :: if k < n then series[k] + [values[k]] else series[k]
  }

  /** Extending every series in turn: one more series grows with each step. */
  lemma AppendColumnStep(series: map<nat, seq<real>>, values: seq<real>, i: nat)
    requires i < |values| && i in series
    ensures AppendColumn(series, values, i)[i := series[i] + [values[i]]] == AppendColumn(series, values, i + 1)
  {
    var before, after := AppendColumn(series, values, i), AppendColumn(series, values, i + 1);
    var updated := before[i := series[i] + [values[i]]];
    assert updated.Keys == after.Keys;
    forall k | k in after
      ensures updated[k] == after[k]
    {
      if k != i {
        assert updated[k] == before[k];
      }
    }
  }

  /** `get_fitness`: one value per subpopulation, its count of 'A' divided by `size`. */
  function FitnessOf(subs: seq<seq<Genotype>>, size: nat): (f: seq<real>)
    requires size > 0
    ensures |f| == |subs|
  {
    seq(|subs|, j requires 0 <= j < |subs| => Frequency(subs[j], A, size))
  }

  /**
   * Because `get_fitness` divides by `size` and not by the subpopulation's
   * own length, each value lies between 0 and that subpopulation's share of
   * `size`, and is 0 exactly when the subpopulation has lost 'A'.
   */
  lemma FitnessWithinShare(subs: seq<seq<Genotype>>, size: nat)
    requires size > 0
    ensures forall j :: 0 <= j < |subs| ==>
      && 0.0 <= FitnessOf(subs, size)[j] <= |subs[j]| as real / size as real
      && (FitnessOf(subs, size)[j] == 0.0 <==> A !in subs[j])
  {
    forall j | 0 <= j < |subs|
      ensures 0.0 <= FitnessOf(subs, size)[j] <= |subs[j]| as real / size as real
      ensures FitnessOf(subs, size)[j] == 0.0 <==> A !in subs[j]
    {
      FrequencyBounds(subs[j], A, size);
      CountAtMostLength(subs[j], A);
    }
  }

  /** Each subpopulation holds `size / 10` members at generation 0 and `size` afterwards. */
  ghost predicate Shaped(size: nat, generation: nat, subs: seq<seq<Genotype>>) {
    && size >= 10 && size % 10 == 0
    && |subs| == SeriesCount
    && forall j :: 0 <= j < |subs| ==> |subs[j]| == if generation == 0 then size / 10 else size
  }

  /** Every series has one entry per generation so far, the last being the current frequency. */
  ghost predicate Recorded(generation: nat, fitness: seq<real>, series: map<nat, seq<real>>) {
    && |fitness| == SeriesCount
    && series.Keys == SeriesKeys()
    && forall j :: 0 <= j < SeriesCount ==> |series[j]| == generation + 1 && series[j][generation] == fitness[j]
  }

  /** Construction leaves ten slices of `size / 10` and one recorded frequency per series. */
  lemma SetupShaped(size: nat, isA: seq<bool>, series: map<nat, seq<real>>)
    requires |isA| == size && size >= 10 && size % 10 == 0
    requires series == map j | j in SeriesKeys() :: []
    ensures Shaped(size, 0, Slices(InitialGenotypes(isA), size / 10))
    ensures Flatten(Slices(InitialGenotypes(isA), size / 10)) == InitialGenotypes(isA)
    ensures Recorded(0, FitnessOf(Slices(InitialGenotypes(isA), size / 10), size),
                     AppendColumn(series, FitnessOf(Slices(InitialGenotypes(isA), size / 10), size), SeriesCount))
  {
    var s := InitialGenotypes(isA);
    SliceCountForSize(s);
    SlicesPartition(s, size / 10);
  }

  /** A tick keeps the shape (now `size` per subpopulation) and records one more frequency per series. */
  lemma TickShaped(size: nat, generation: nat, subs: seq<seq<Genotype>>, draws: seq<seq<int>>,
                   fitness: seq<real>, series: map<nat, seq<real>>,
                   subs': seq<seq<Genotype>>, fitness': seq<real>, series': map<nat, seq<real>>)
    requires Shaped(size, generation, subs) && Recorded(generation, fitness, series)
    requires ValidSubdividedDraws(subs, draws) && forall j :: 0 <= j < |draws| ==> |draws[j]| == size
    requires subs' == ResampleEach(subs, draws) && fitness' == FitnessOf(subs', size)
    requires series' == AppendColumn(series, fitness', SeriesCount)
    ensures Shaped(size, generation + 1, subs') && Recorded(generation + 1, fitness', series')
    ensures |Flatten(subs')| == SeriesCount * size
  {
    FlattenLength(subs', size);
  }

  /** Right after construction every frequency is at most 1/10, since each slice holds a tenth of `size`. */
  lemma InitialFrequenciesAtMostOneTenth(size: nat, subs: seq<seq<Genotype>>)
    requires Shaped(size, 0, subs)
    ensures forall j :: 0 <= j < SeriesCount ==> 0.0 <= FitnessOf(subs, size)[j] <= 0.1
  {
    FitnessWithinShare(subs, size);
    var q := size / 10;
    assert q as real / size as real == 0.1;
  }

  /** `population(size, p)` of the structured script. */
  class Population {
    var size: nat
    var p: real
    var generation: nat
    var fitness: seq<real>
    var fitnessList: map<nat, seq<real>>
    var population: seq<Genotype>
    var subpopulations: seq<seq<Genotype>>

    /** The shape, the population as the subpopulations joined, and the records kept up to date. */
    ghost predicate Valid()
      reads this
    {
      && Shaped(size, generation, subpopulations)
      && population == Flatten(subpopulations)
      && fitness == FitnessOf(subpopulations, size)
      && Recorded(generation, fitness, fitnessList)
    }

    /** `get_genotypes_of(pos)`: the genotypes of one subpopulation, part of the whole population. */
    function GenotypesOf(pos: int): (g: seq<Genotype>)
      reads this
      requires InRange(subpopulations, pos)
      ensures g in subpopulations
      ensures population == Flatten(subpopulations) ==> multiset(g) <= multiset(population)
    {
      FlattenContains(subpopulations, if pos < 0 then |subpopulations| + pos else pos);
      Index(subpopulations, pos)
    }

    /**
     * The constructor `__init__`: the population from the draws `isA`, its
     * slices and their frequencies; the series are still empty.
     */
    constructor (size: nat, p: real, isA: seq<bool>)
      requires |isA| == size && size / 10 > 0
      ensures this.size == size && this.p == p && generation == 0
      ensures population == InitialGenotypes(isA)
      ensures subpopulations == Slices(population, size / 10)
      ensures fitness == FitnessOf(subpopulations, size)
      ensures fitnessList == map j | j in SeriesKeys() :: []
    {
      this.size := size;
      this.p := p;
      generation := 0;
      fitnessList := map j | j in SeriesKeys() :: [];
      var individuals := InitialGenotypes(isA);
      population := individuals;
      subpopulations := Slices(individuals, size / 10);
      fitness := FitnessOf(Slices(individuals, size / 10), size);
    }

    /**
     * `get_fitness_list`: append `fitness[i]` to series i for each
     * subpopulation i in order; series i must exist, else KeyError.
     */
    method AppendFitness() returns (err: Option<SetupError>)
      requires fitnessList.Keys == SeriesKeys()
      requires |fitness| == |subpopulations|
      modifies this`fitnessList
      ensures err == if |subpopulations| <= SeriesCount then None else Some(MissingKey(SeriesCount))
      ensures |subpopulations| <= SeriesCount ==> fitnessList == AppendColumn(old(fitnessList), fitness, |subpopulations|)
      ensures |subpopulations| > SeriesCount ==> fitnessList == AppendColumn(old(fitnessList), fitness, SeriesCount)
    {
      var i := 0;
      while i < |subpopulations|
        invariant 0 <= i <= |subpopulations| && i <= SeriesCount
        invariant fitnessList == AppendColumn(old(fitnessList), fitness, i)
        invariant fitnessList.Keys == SeriesKeys()
      {
        if i !in fitnessList {
          assert i == SeriesCount;
          return Some(MissingKey(i));
        }
        AppendColumnStep(old(fitnessList), fitness, i);
        fitnessList := fitnessList[i := fitnessList[i] + [fitness[i]]];
        i := i + 1;
      }
      return None;
    }

    /**
     * `population(size, p)` with its exceptions: ValueError when the slice
     * step `int(size/10)` is 0, KeyError when the slicing yields more than
     * ten subpopulations, which is when 10 does not divide size.
     */
    static method Create(size: nat, p: real, isA: seq<bool>) returns (r: Result<Population, SetupError>)
      requires |isA| == size
      ensures size < 10 ==> r == Failure(ZeroSliceStep)
      ensures 10 <= size && size % 10 != 0 ==> r == Failure(MissingKey(SeriesCount))
      ensures r.Success? <==> 10 <= size && size % 10 == 0
      ensures r.Success? ==>
        && fresh(r.value) && r.value.Valid()
        && r.value.size == size && r.value.p == p && r.value.generation == 0
        && r.value.population == InitialGenotypes(isA)
        && r.value.subpopulations == Slices(r.value.population, size / 10)
    {
      if size / 10 == 0 {
        return Failure(ZeroSliceStep);
      }
      var pop := new Population(size, p, isA);
      SliceCountForSize(pop.population);
      if size % 10 == 0 {
        SetupShaped(size, isA, pop.fitnessList);
      }
      var err := pop.AppendFitness();
      if err.Some? {
        return Failure(err.value);
      }
      return Success(pop);
    }

    /** The first part of `next_generation`: resample each subpopulation, rejoin them and recompute the frequencies. */
    method ResampleSubpopulations(draws: seq<seq<int>>)
      requires size > 0 && ValidSubdividedDraws(subpopulations, draws)
      modifies this`subpopulations, this`population, this`fitness
      ensures subpopulations == ResampleEach(old(subpopulations), draws)
      ensures population == Flatten(subpopulations)
      ensures fitness == FitnessOf(subpopulations, size)
    {
      subpopulations := ResampleEach(subpopulations, draws);
      population := Flatten(subpopulations);
      fitness := FitnessOf(subpopulations, size);
    }

    /**
     * `next_generation`: subpopulation j becomes `size` members drawn from
     * the old subpopulation j (`draws[j][i]` is the index `random.choice`
     * picked); then the population, the frequencies, the series and the
     * generation are updated.
     */
    method NextGeneration(draws: seq<seq<int>>)
      requires Valid()
      requires ValidSubdividedDraws(subpopulations, draws)
      requires forall j :: 0 <= j < |draws| ==> |draws[j]| == size
      modifies this
      ensures Valid()
      ensures size == old(size) && p == old(p) && generation == old(generation) + 1
      ensures subpopulations == ResampleEach(old(subpopulations), draws)
      ensures population == Flatten(subpopulations)
      ensures |population| == |subpopulations| * size
      ensures fitnessList == AppendColumn(old(fitnessList), fitness, SeriesCount)
    {
      var subs, fit, series := subpopulations, fitness, fitnessList;
      ResampleSubpopulations(draws);
      assert |subpopulations| == SeriesCount;
      var err := AppendFitness();
      assert fitnessList == AppendColumn(series, fitness, SeriesCount);
      TickShaped(size, generation, subs, draws, fit, series, subpopulations, fitness, fitnessList);
      generation := generation + 1;
    }
  }
}
