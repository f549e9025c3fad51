/**
 * The resampling step shared by the drift, structured-drift and coalescent
 * scripts: the next generation draws each of its members uniformly, with
 * replacement, from the current one.  The random draws are inputs: `ids[k]`
 * is the index of the parent that `random.choice` / `random.randint`
 * returned for offspring k.
 */
module WrightFisher {
  import opened PyList

  /** The two alleles of the drift scripts, the characters 'A' and 'B'. */
  datatype Genotype = A | B

  /** Each draw is an index into a pool of the given size. */
  predicate ValidDraws(ids: seq<int>, poolSize: nat) {
    forall k :: 0 <= k < |ids| ==> 0 <= ids[k] < poolSize
  }

  /** The genotypes created at generation 0: `'A' if random.random() < p else 'B'`, the test's outcome given as `isA[k]`. */
  function InitialGenotypes(isA: seq<bool>): (r: seq<Genotype>)
    ensures |r| == |isA|
  {
    seq(|isA|, k requires 0 <= k < |isA| => if isA[k] then A else B)
  }

  /** `[random.choice(pool) for i in range(len(ids))]`, the draws made explicit. */
  function Resample<T>(pool: seq<T>, ids: seq<int>): (r: seq<T>)
    requires ValidDraws(ids, |pool|)
    ensures |r| == |ids|
  {
    seq(|ids|, k requires 0 <= k < |ids| => pool[ids[k]])
  }

  /** Every offspring is a member of the pool it was drawn from; the pool is read, never the list being built. */
  lemma ResampleDrawsFromPool<T>(pool: seq<T>, ids: seq<int>)
    requires ValidDraws(ids, |pool|)
    ensures forall k :: 0 <= k < |ids| ==> Resample(pool, ids)[k] == pool[ids[k]]
    ensures forall x :: x in Resample(pool, ids) ==> x in pool
  {
  }

  /** A pool fixed for one value stays fixed: resampling cannot bring back a lost value. */
  lemma FixationIsAbsorbing<T>(pool: seq<T>, ids: seq<int>, g: T)
    requires ValidDraws(ids, |pool|)
    requires forall x :: x in pool ==> x == g
    ensures forall x :: x in Resample(pool, ids) ==> x == g
  {
    ResampleDrawsFromPool(pool, ids);
  }

  /** Every round of draws is a full generation of valid parent indices. */
  predicate ValidRounds(rounds: seq<seq<int>>, size: nat) {
    forall t :: 0 <= t < |rounds| ==> |rounds[t]| == size && ValidDraws(rounds[t], size)
  }

  /** The population after one resampling per round, oldest round first. */
  function Evolve<T>(pool: seq<T>, rounds: seq<seq<int>>): (r: seq<T>)
    requires ValidRounds(rounds, |pool|)
    ensures |r| == |pool|
    decreases |rounds|
  {
    if rounds == [] then pool
    else
      var before := Evolve(pool, rounds[..|rounds| - 1]);
      Resample(before, rounds[|rounds| - 1])
  }

  /** Once a population is fixed for one value, every later generation is fixed for it. */
  lemma {:induction false} FixationPersists<T>(pool: seq<T>, rounds: seq<seq<int>>, g: T)
    requires ValidRounds(rounds, |pool|)
    requires forall x :: x in pool ==> x == g
    ensures forall x :: x in Evolve(pool, rounds) ==> x == g
    decreases |rounds|
  {
    if rounds != [] {
      var init := rounds[..|rounds| - 1];
      assert ValidRounds(init, |pool|);
      FixationPersists(pool, init, g);
      FixationIsAbsorbing(Evolve(pool, init), rounds[|rounds| - 1], g);
    }
  }

  /** `genotypes.count(g) / size`, the frequency the scripts call fitness, as an exact ratio. */
  function Frequency(genotypes: seq<Genotype>, g: Genotype, size: nat): real
    requires size > 0
  {
    Count(genotypes, g) as real / size as real
  }

  /** A frequency lies between 0 and the list's share of `size`, so in [0, 1] for a list of at most `size`. */
  lemma FrequencyBounds(genotypes: seq<Genotype>, g: Genotype, size: nat)
    requires 0 < size
    ensures 0.0 <= Frequency(genotypes, g, size) <= |genotypes| as real / size as real
    ensures |genotypes| <= size ==> Frequency(genotypes, g, size) <= 1.0
  {
    CountAtMostLength(genotypes, g);
    var c, len, n := Count(genotypes, g) as real, |genotypes| as real, size as real;
    DivideMonotonic(c, len, n);
  }

  lemma DivideMonotonic(a: real, b: real, n: real)
    requires a <= b && n > 0.0
    ensures a / n <= b / n
  {
  }

  /** Every genotype is 'A' or 'B', so their counts add up to the population size. */
  lemma {:induction false} CountsPartition(genotypes: seq<Genotype>)
    ensures Count(genotypes, A) + Count(genotypes, B) == |genotypes|
  {
    if genotypes != [] {
      CountsPartition(genotypes[1..]);
      assert genotypes == [genotypes[0]] + genotypes[1..];
      var m, rest := multiset(genotypes), multiset(genotypes[1..]);
      assert m == multiset{genotypes[0]} + rest;
      if genotypes[0] == A {
        assert m[A] == rest[A] + 1 && m[B] == rest[B];
      } else {
        assert m[A] == rest[A] && m[B] == rest[B] + 1;
      }
    }
  }

  /** The frequencies of 'A' and 'B' in one snapshot sum to 1. */
  lemma FrequenciesSumToOne(genotypes: seq<Genotype>, size: nat)
    requires |genotypes| == size > 0
    ensures Frequency(genotypes, A, size) + Frequency(genotypes, B, size) == 1.0
  {
    CountsPartition(genotypes);
  }
}
