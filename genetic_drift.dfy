/**
 * The genetic-drift script: a population of 'A'/'B' individuals resampled
 * each generation, with the frequency of 'A' recorded after construction and
 * after every tick, and the count of runs that end with 'A' in the majority.
 */
module GeneticDrift {
  import opened PyList
  import opened WrightFisher

  /** `population(size, p)` of the drift script; an individual is its genotype. */
  class Population {
    var size: nat
    var p: real
    var generation: nat
    var fitness: real
    var fitnessList: seq<real>
    var population: seq<Genotype>

    /** One recorded frequency per generation so far, the last one current, each in [0, 1]. */
    ghost predicate Valid()
      reads this
    {
      && size > 0
      && |population| == size
      && |fitnessList| == generation + 1
      && fitness == fitnessList[generation]
      && fitness == GetFitness()
      && forall t :: 0 <= t < |fitnessList| ==> 0.0 <= fitnessList[t] <= 1.0
    }

    /** `get_fitness`: the frequency of 'A', `count('A') / size`, which lies in [0, 1]. */
    function GetFitness(): (f: real)
      reads this
      requires size > 0
      ensures |population| == size ==> 0.0 <= f <= 1.0
      ensures |population| == size ==> (f == 1.0 <==> forall g :: g in population ==> g == A)
      ensures |population| == size ==> (f == 0.0 <==> forall g :: g in population ==> g == B)
    {
      FrequencyIsOneWhenFixed(population, size);
      Frequency(population, A, size)
    }

    /**
     * `population(size, p)`: `isA[k]` is the outcome of `random.random() < p`
     * for individual k.  The first frequency is recorded at once.
     */
    constructor (size: nat, p: real, isA: seq<bool>)
      requires size > 0 && |isA| == size
      ensures Valid()
      ensures this.size == size && this.p == p && generation == 0
      ensures population == InitialGenotypes(isA)
      ensures fitnessList == [fitness]
    {
      this.size := size;
      this.p := p;
      generation := 0;
      population := InitialGenotypes(isA);
      new;
      fitness := GetFitness();
      fitnessList := [fitness];
    }

    /**
     * `next_generation`: every new member is drawn from the pre-tick list
     * (`draws[k]` is the index `random.choice` picked), then the frequency
     * is recorded and the generation advanced.
     */
    method NextGeneration(draws: seq<int>)
      requires Valid()
      requires |draws| == size && ValidDraws(draws, size)
      modifies this
      ensures Valid()
      ensures size == old(size) && p == old(p)
      ensures population == Resample(old(population), draws)
      ensures generation == old(generation) + 1
      ensures fitnessList == old(fitnessList) + [fitness]
    {
      population := Resample(population, draws);
      fitness := GetFitness();
      fitnessList := fitnessList + [fitness];
      generation := generation + 1;
    }
  }

  /** Frequency 1 means fixed for 'A', frequency 0 fixed for 'B'. */
  lemma FrequencyIsOneWhenFixed(genotypes: seq<Genotype>, size: nat)
    requires size > 0
    ensures |genotypes| == size ==> 0.0 <= Frequency(genotypes, A, size) <= 1.0
    ensures |genotypes| == size ==> (Frequency(genotypes, A, size) == 1.0 <==> forall g :: g in genotypes ==> g == A)
    ensures |genotypes| == size ==> (Frequency(genotypes, A, size) == 0.0 <==> forall g :: g in genotypes ==> g == B)
  {
    if |genotypes| == size {
      FrequencyBounds(genotypes, A, size);
      CountsPartition(genotypes);
      CountAtMostLength(genotypes, A);
      CountAtMostLength(genotypes, B);
      assert Frequency(genotypes, A, size) == 1.0 <==> Count(genotypes, A) == size;
      assert Frequency(genotypes, A, size) == 0.0 <==> Count(genotypes, A) == 0;
    }
  }

  /** The tally in `main`: `cpt_A` grows by one exactly when 'A' outnumbers 'B' at the end of a run. */
  function Tally(cptA: nat, genotypes: seq<Genotype>): (r: nat)
    ensures r == cptA || r == cptA + 1
    ensures r == cptA + 1 <==> Count(genotypes, A) > Count(genotypes, B)
  {
    if Count(genotypes, A) > Count(genotypes, B) then cptA + 1 else cptA
  }

  /** One simulation: its founders' draws and one round of parent draws per generation. */
  datatype Replicate = Replicate(isA: seq<bool>, rounds: seq<seq<int>>)

  predicate ValidReplicate(size: nat, r: Replicate) {
    |r.isA| == size && ValidRounds(r.rounds, size)
  }

  /** Whether 'A' outnumbers 'B' once the replicate's generations have run: more than half the population is 'A'. */
  predicate EndsWithMajorityA(r: Replicate): (b: bool)
    requires ValidRounds(r.rounds, |r.isA|)
    ensures b <==> 2 * Count(Evolve(InitialGenotypes(r.isA), r.rounds), A) > |r.isA|
  {
    var final := Evolve(InitialGenotypes(r.isA), r.rounds);
    CountsPartition(final);
    Count(final, A) > Count(final, B)
  }

  /** The number of replicates that end with 'A' in the majority. */
  function MajorityARuns(size: nat, reps: seq<Replicate>): (n: nat)
    requires forall k :: 0 <= k < |reps| ==> ValidReplicate(size, reps[k])
    ensures n <= |reps|
  {
    if reps == [] then 0
    else
      var last := reps[|reps| - 1];
      assert ValidReplicate(size, last);
      MajorityARuns(size, reps[..|reps| - 1]) + (if EndsWithMajorityA(last) then 1 else 0)
  }

  /** One replicate of `main`: build a population and run `next_generation` once per round. */
  method Simulate(size: nat, p: real, r: Replicate) returns (pop: Population)
    requires size > 0 && ValidReplicate(size, r)
    ensures pop.Valid() && pop.size == size
    ensures pop.generation == |r.rounds|
    ensures |pop.fitnessList| == |r.rounds| + 1
    ensures pop.population == Evolve(InitialGenotypes(r.isA), r.rounds)
    ensures forall t :: 0 <= t <= |r.rounds| ==>
      && ValidRounds(r.rounds[..t], size)
      && pop.fitnessList[t] == Frequency(Evolve(InitialGenotypes(r.isA), r.rounds[..t]), A, size)
  {
    pop := new Population(size, p, r.isA);
    var i := 0;
    assert r.rounds[..0] == [];
    while i < |r.rounds|
      invariant 0 <= i <= |r.rounds|
      invariant pop.Valid() && pop.size == size && pop.generation == i
      invariant ValidRounds(r.rounds[..i], size)
      invariant pop.population == Evolve(InitialGenotypes(r.isA), r.rounds[..i])
      invariant forall t :: 0 <= t <= i ==>
        && ValidRounds(r.rounds[..t], size)
        && pop.fitnessList[t] == Frequency(Evolve(InitialGenotypes(r.isA), r.rounds[..t]), A, size)
    {
      pop.NextGeneration(r.rounds[i]);
      assert r.rounds[..i + 1][..i] == r.rounds[..i];
      i := i + 1;
    }
    assert r.rounds[..i] == r.rounds;
  }

  /** The replicate loop of `main`: run every replicate for one value of p and tally the runs won by 'A'. */
  method CountMajorityA(size: nat, p: real, reps: seq<Replicate>) returns (cptA: nat)
    requires size > 0
    requires forall k :: 0 <= k < |reps| ==> ValidReplicate(size, reps[k])
    ensures cptA == MajorityARuns(size, reps)
    ensures cptA <= |reps|
  {
    cptA := 0;
    var k := 0;
    while k < |reps|
      invariant 0 <= k <= |reps|
      invariant cptA == MajorityARuns(size, reps[..k])
    {
      var pop := Simulate(size, p, reps[k]);
      cptA := Tally(cptA, pop.population);
      assert reps[..k + 1][..k] == reps[..k];
      k := k + 1;
    }
    assert reps[..k] == reps;
  }

  /** A run that starts fixed for 'A' always counts toward `cpt_A`; one fixed for 'B' never does. */
  lemma FixedRunsDecideTheTally(size: nat, r: Replicate)
    requires size > 0 && ValidReplicate(size, r)
    ensures (forall k :: 0 <= k < size ==> r.isA[k]) ==> EndsWithMajorityA(r)
    ensures (forall k :: 0 <= k < size ==> !r.isA[k]) ==> !EndsWithMajorityA(r)
  {
    var init := InitialGenotypes(r.isA);
    var final := Evolve(init, r.rounds);
    CountsPartition(final);
    if forall k :: 0 <= k < size ==> r.isA[k] {
      FixationPersists(init, r.rounds, A);
      assert Count(final, B) == 0 by { CountAtMostLength(final, B); }
    }
    if forall k :: 0 <= k < size ==> !r.isA[k] {
      FixationPersists(init, r.rounds, B);
      assert Count(final, A) == 0 by { CountAtMostLength(final, A); }
    }
  }
}
