/**
 * The coalescent script: a Wright-Fisher population in which every
 * individual carries its whole ancestry, the parent index drawn at each
 * tick, and a backward scan that finds the most recent depth at which a
 * group of individuals shares an ancestor.
 */
module Coalescent {
  import opened Wrappers
  import opened PyList
  import opened WrightFisher

  /** An individual: `ancestors[d]` is the index, in generation d, of its ancestor there. */
  datatype Individual = Individual(ancestors: seq<int>)

  /**
   * The dictionary `last_coalescent_event` returns: either both keys are set
   * (`Coalesced`) or both are None (`NotCoalesced`).
   */
  datatype Coalescence = Coalesced(ancestor: int, generation: nat) | NotCoalesced

  /** What the driver in `main` reports when its loop stops. */
  datatype Report = MaxIterationsReached | IdenticalByDescent(event: Coalescence)

  /** Generation 0: `size` individuals with empty ancestry. */
  function Founders(size: nat): (pop: seq<Individual>)
    ensures |pop| == size
    ensures forall k :: 0 <= k < size ==> pop[k].ancestors == []
  {
    seq(size, _ => Individual([]))
  }

  /** One tick: offspring k copies the ancestry of `pop[ids[k]]` and appends `ids[k]`. */
  function Offspring(pop: seq<Individual>, ids: seq<int>): (next: seq<Individual>)
    requires ValidDraws(ids, |pop|)
    ensures |next| == |ids|
  {
    seq(|ids|, k requires 0 <= k < |ids| => Individual(pop[ids[k]].ancestors + [ids[k]]))
  }

  /** The population after one tick per round of draws, oldest round first. */
  function Descendants(pop: seq<Individual>, rounds: seq<seq<int>>): (r: seq<Individual>)
    requires ValidRounds(rounds, |pop|)
    ensures |r| == |pop|
    decreases |rounds|
  {
    if rounds == [] then pop
    else
      var before := Descendants(pop, rounds[..|rounds| - 1]);
      Offspring(before, rounds[|rounds| - 1])
  }

  /** Descendants over the first t + 1 rounds is one more tick after the first t. */
  lemma DescendantsStep(pop: seq<Individual>, rounds: seq<seq<int>>, t: nat)
    requires ValidRounds(rounds, |pop|) && t < |rounds|
    ensures ValidRounds(rounds[..t], |pop|) && ValidRounds(rounds[..t + 1], |pop|)
    ensures Descendants(pop, rounds[..t + 1]) == Offspring(Descendants(pop, rounds[..t]), rounds[t])
  {
    assert rounds[..t + 1][..t] == rounds[..t];
  }

  /** Size, ancestry length equal to the generation number, and every ancestor index within the population. */
  ghost predicate WellFormed(pop: seq<Individual>, size: nat, generation: nat) {
    && |pop| == size
    && forall k :: 0 <= k < |pop| ==>
         && |pop[k].ancestors| == generation
         && forall d :: 0 <= d < generation ==> 0 <= pop[k].ancestors[d] < size
  }

  /**
   * Sharing the ancestor at depth d means sharing the whole ancestry before d:
   * that ancestor is one individual of generation d, whose own ancestry both copied.
   */
  ghost predicate Coherent(pop: seq<Individual>) {
    forall a, b, d ::
      0 <= a < |pop| && 0 <= b < |pop| &&
      0 <= d < |pop[a].ancestors| && d < |pop[b].ancestors| &&
      pop[a].ancestors[d] == pop[b].ancestors[d]
      ==> pop[a].ancestors[..d] == pop[b].ancestors[..d]
  }

  /** A tick keeps the size, lengthens every ancestry by one and draws only valid indices. */
  lemma OffspringWellFormed(pop: seq<Individual>, ids: seq<int>, generation: nat)
    requires WellFormed(pop, |pop|, generation)
    requires |ids| == |pop| && ValidDraws(ids, |pop|)
    ensures WellFormed(Offspring(pop, ids), |pop|, generation + 1)
    ensures forall k :: 0 <= k < |ids| ==> Offspring(pop, ids)[k].ancestors == pop[ids[k]].ancestors + [ids[k]]
  {
    var next := Offspring(pop, ids);
    forall k | 0 <= k < |next|
      ensures |next[k].ancestors| == generation + 1
      ensures forall d :: 0 <= d < generation + 1 ==> 0 <= next[k].ancestors[d] < |pop|
    {
      assert next[k].ancestors == pop[ids[k]].ancestors + [ids[k]];
    }
  }

  /** A tick preserves coherence of ancestries (prefix closure). */
  lemma OffspringCoherent(pop: seq<Individual>, ids: seq<int>, generation: nat)
    requires WellFormed(pop, |pop|, generation) && Coherent(pop)
    requires ValidDraws(ids, |pop|)
    ensures Coherent(Offspring(pop, ids))
  {
    var next := Offspring(pop, ids);
    forall a, b, d |
      0 <= a < |next| && 0 <= b < |next| &&
      0 <= d < |next[a].ancestors| && d < |next[b].ancestors| &&
      next[a].ancestors[d] == next[b].ancestors[d]
      ensures next[a].ancestors[..d] == next[b].ancestors[..d]
    {
      var x, y := pop[ids[a]].ancestors, pop[ids[b]].ancestors;
      assert next[a].ancestors == x + [ids[a]] && next[b].ancestors == y + [ids[b]];
      assert |x| == generation && |y| == generation;
      assert next[a].ancestors[..d] == x[..d] && next[b].ancestors[..d] == y[..d];
      if d < generation {
        assert x[d] == y[d];
      } else {
        assert ids[a] == ids[b];
      }
    }
  }

  /** Every population the engine reaches is well formed and coherent. */
  lemma {:induction false} DescendantsInvariant(size: nat, rounds: seq<seq<int>>)
    requires ValidRounds(rounds, size)
    ensures WellFormed(Descendants(Founders(size), rounds), size, |rounds|)
    ensures Coherent(Descendants(Founders(size), rounds))
    decreases |rounds|
  {
    if rounds != [] {
      var init := rounds[..|rounds| - 1];
      assert ValidRounds(init, size);
      DescendantsInvariant(size, init);
      var before := Descendants(Founders(size), init);
      OffspringWellFormed(before, rounds[|rounds| - 1], |init|);
      OffspringCoherent(before, rounds[|rounds| - 1], |init|);
    }
  }

  /** The group can be scanned without an IndexError: non-empty, no member's ancestry shorter than the first's. */
  predicate Scannable(group: seq<Individual>) {
    |group| > 0 && forall j :: 0 <= j < |group| ==> |group[j].ancestors| >= |group[0].ancestors|
  }

  /** A non-empty well-formed population can be scanned; its ancestries have the generation's length. */
  lemma WellFormedScannable(pop: seq<Individual>, size: nat, generation: nat)
    requires WellFormed(pop, size, generation) && size > 0
    ensures Scannable(pop) && |pop[0].ancestors| == generation
  {
  }

  /** The test `all([ind.ancestors[d] == group[0].ancestors[d] for ind in group])` of both scans. */
  predicate AgreeAt(group: seq<Individual>, d: nat)
    requires Scannable(group) && d < |group[0].ancestors|
  {
    forall j :: 0 <= j < |group| ==> group[j].ancestors[d] == group[0].ancestors[d]
  }

  /**
   * Comparing every member with the first is the same as every two members
   * sharing their ancestor at depth d; a lone individual always agrees.
   */
  lemma AgreeAtPairwise(group: seq<Individual>, d: nat)
    requires Scannable(group) && d < |group[0].ancestors|
    ensures |group| == 1 ==> AgreeAt(group, d)
    ensures AgreeAt(group, d) <==> forall i, j :: 0 <= i < |group| && 0 <= j < |group| ==> group[i].ancestors[d] == group[j].ancestors[d]
  {
  }

  /** The loop of `last_coalescent_event` from depth i - 1 down to depth 0. */
  function ScanDown(group: seq<Individual>, i: nat): (r: Coalescence)
    requires Scannable(group) && i <= |group[0].ancestors|
    ensures r.NotCoalesced? <==> forall d :: 0 <= d < i ==> !AgreeAt(group, d)
    ensures r.Coalesced? ==>
      var n := |group[0].ancestors|;
      && n - i < r.generation <= n
      && AgreeAt(group, n - r.generation)
      && r.ancestor == group[0].ancestors[n - r.generation]
      && forall d :: n - r.generation < d < i ==> !AgreeAt(group, d)
  {
    if i == 0 then NotCoalesced
    else if AgreeAt(group, i - 1) then Coalesced(group[0].ancestors[i - 1], |group[0].ancestors| - (i - 1))
    else ScanDown(group, i - 1)
  }

  /**
   * `last_coalescent_event(group)`: the most recent depth at which the whole
   * group shares an ancestor, reported as that ancestor and the number of
   * generations back (1 for the newest depth).
   */
  function LastCoalescentEvent(group: seq<Individual>): (r: Coalescence)
    requires Scannable(group)
    ensures r.NotCoalesced? <==> forall d :: 0 <= d < |group[0].ancestors| ==> !AgreeAt(group, d)
    ensures r.Coalesced? ==>
      var n := |group[0].ancestors|;
      var i := n - r.generation;
      && 1 <= r.generation <= n
      && (forall j :: 0 <= j < |group| ==> group[j].ancestors[i] == r.ancestor)
      && forall d :: i < d < n ==> !AgreeAt(group, d)
  {
    ScanDown(group, |group[0].ancestors|)
  }

  /** The loop of `all_identical_by_descent` from depth k upwards; None when it falls off the end. */
  function ScanUp(population: seq<Individual>, k: nat): (r: Option<bool>)
    requires Scannable(population) && k <= |population[0].ancestors|
    ensures r == None || r == Some(true)
    ensures r == Some(true) <==> exists d :: k <= d < |population[0].ancestors| && AgreeAt(population, d)
    decreases |population[0].ancestors| - k
  {
    if k == |population[0].ancestors| then None
    else if AgreeAt(population, k) then Some(true)
    else ScanUp(population, k + 1)
  }

  /**
   * `all_identical_by_descent(pop)`, given `pop.get_population()`: True when
   * some depth is shared by the whole population, otherwise the function
   * falls through and returns None.
   */
  function AllIdenticalByDescent(population: seq<Individual>): (r: Option<bool>)
    requires Scannable(population)
    ensures r == None || r == Some(true)
    ensures r == Some(true) <==> exists d :: 0 <= d < |population[0].ancestors| && AgreeAt(population, d)
  {
    ScanUp(population, 0)
  }

  /** The stopping test holds exactly when the backward scan finds a common ancestor. */
  lemma IdenticalIffCoalesced(population: seq<Individual>)
    requires Scannable(population)
    ensures AllIdenticalByDescent(population) == Some(true) <==> LastCoalescentEvent(population).Coalesced?
  {
  }

  /** With an empty ancestry (generation 0) no group has a common ancestor. */
  lemma EmptyAncestryNeverCoalesces(group: seq<Individual>)
    requires Scannable(group) && group[0].ancestors == []
    ensures LastCoalescentEvent(group) == NotCoalesced
    ensures AllIdenticalByDescent(group) == None
  {
  }

  /** A lone individual with some ancestry coalesces with itself one generation back, at its newest ancestor. */
  lemma SingletonCoalescesOneGenerationBack(x: Individual)
    requires |x.ancestors| > 0
    ensures LastCoalescentEvent([x]) == Coalesced(x.ancestors[|x.ancestors| - 1], 1)
  {
    assert AgreeAt([x], |x.ancestors| - 1);
  }

  /** Prefix closure: members sharing an ancestor at depth k share every shallower ancestor too. */
  lemma AgreementIsPrefixClosed(group: seq<Individual>, k: nat, d: nat)
    requires Coherent(group) && Scannable(group) && d <= k < |group[0].ancestors|
    requires AgreeAt(group, k)
    ensures AgreeAt(group, d)
  {
    forall j | 0 <= j < |group|
      ensures group[j].ancestors[d] == group[0].ancestors[d]
    {
      assert group[j].ancestors[k] == group[0].ancestors[k];
      if d < k {
        assert group[j].ancestors[..k] == group[0].ancestors[..k];
        assert group[j].ancestors[..k][d] == group[0].ancestors[..k][d];
      }
    }
  }

  /** A coherent population that is identical by descent descends from a single founder of generation 0. */
  lemma IdenticalMeansSingleFounder(population: seq<Individual>)
    requires Coherent(population) && Scannable(population)
    requires AllIdenticalByDescent(population) == Some(true)
    ensures |population[0].ancestors| > 0 && AgreeAt(population, 0)
  {
    var d :| 0 <= d < |population[0].ancestors| && AgreeAt(population, d);
    AgreementIsPrefixClosed(population, d, 0);
  }

  /** Identity by descent is absorbing: it still holds after any further tick. */
  lemma IdentityIsAbsorbing(pop: seq<Individual>, ids: seq<int>, generation: nat)
    requires WellFormed(pop, |pop|, generation) && |pop| > 0
    requires |ids| == |pop| && ValidDraws(ids, |pop|)
    requires AllIdenticalByDescent(pop) == Some(true)
    ensures Scannable(Offspring(pop, ids))
    ensures AllIdenticalByDescent(Offspring(pop, ids)) == Some(true)
  {
    var next := Offspring(pop, ids);
    OffspringWellFormed(pop, ids, generation);
    var d :| 0 <= d < generation && AgreeAt(pop, d);
    forall j | 0 <= j < |next|
      ensures next[j].ancestors[d] == next[0].ancestors[d]
    {
      assert next[j].ancestors[d] == pop[ids[j]].ancestors[d] == pop[0].ancestors[d];
      assert next[0].ancestors[d] == pop[ids[0]].ancestors[d] == pop[0].ancestors[d];
    }
    assert AgreeAt(next, d);
  }

  /** The individuals `pop[i]` for i in group, in group order (Python indexing). */
  function Subpopulation(population: seq<Individual>, group: seq<int>): (sub: seq<Individual>)
    requires forall k :: 0 <= k < |group| ==> InRange(population, group[k])
    ensures |sub| == |group|
  {
    seq(|group|, k requires 0 <= k < |group| => Index(population, group[k]))
  }

  /** In a well-formed population any non-empty group can be scanned. */
  lemma SubpopulationScannable(population: seq<Individual>, size: nat, generation: nat, group: seq<int>)
    requires WellFormed(population, size, generation)
    requires |group| > 0 && forall k :: 0 <= k < |group| ==> InRange(population, group[k])
    ensures Scannable(Subpopulation(population, group))
    ensures |Subpopulation(population, group)[0].ancestors| == generation
  {
    var sub := Subpopulation(population, group);
    forall j | 0 <= j < |sub|
      ensures |sub[j].ancestors| == generation
    {
      var i := group[j];
      assert sub[j] == population[if i < 0 then |population| + i else i];
    }
  }

  /** `population` in the coalescent script. */
  class Population {
    var size: nat
    var generation: nat
    var population: seq<Individual>

    /** The invariant every tick keeps. */
    ghost predicate Valid()
      reads this
    {
      WellFormed(population, size, generation) && Coherent(population)
    }

    /** `population(size)`: generation 0 and `size` fresh individuals. */
    constructor (size: nat)
      ensures Valid()
      ensures this.size == size && generation == 0
      ensures population == Founders(size)
    {
      this.size := size;
      generation := 0;
      population := Founders(size);
    }

    /**
     * `next_generation`, the draws of `random.randint(0, size - 1)` given as
     * `ids`: the new list is built by appending one offspring per draw, each
     * read from the pre-tick copy of the list.
     */
    method NextGeneration(ids: seq<int>)
      requires Valid()
      requires |ids| == size && ValidDraws(ids, size)
      modifies this
      ensures Valid()
      ensures size == old(size) && generation == old(generation) + 1
      ensures population == Offspring(old(population), ids)
    {
      var oldPop := population;
      population := [];
      var k := 0;
      while k < |ids|
        invariant 0 <= k <= |ids|
        invariant size == old(size) && generation == old(generation)
        invariant population == Offspring(oldPop, ids[..k])
      {
        population := population + [Individual(oldPop[ids[k]].ancestors + [ids[k]])];
        k := k + 1;
      }
      assert ids[..k] == ids;
      OffspringWellFormed(oldPop, ids, generation);
      OffspringCoherent(oldPop, ids, generation);
      generation := generation + 1;
    }
  }

  /** `get_subpopulation(pop, group)`: the loop appending `pop.get_population()[i]` for each i in group. */
  method GetSubpopulation(pop: Population, group: seq<int>) returns (sub: seq<Individual>)
    requires forall k :: 0 <= k < |group| ==> InRange(pop.population, group[k])
    ensures |sub| == |group|
    ensures forall k :: 0 <= k < |group| ==> sub[k] == Index(pop.population, group[k])
    ensures sub == Subpopulation(pop.population, group)
  {
    sub := [];
    var k := 0;
    while k < |group|
      invariant 0 <= k <= |group|
      invariant sub == Subpopulation(pop.population, group[..k])
    {
      sub := sub + [Index(pop.population, group[k])];
      k := k + 1;
    }
    assert group[..k] == group;
  }

  /** `get_subpopulation_ancestors(pop, group)`: the ancestry of each selected individual, in group order. */
  method GetSubpopulationAncestors(pop: Population, group: seq<int>) returns (ancestries: seq<seq<int>>)
    requires forall k :: 0 <= k < |group| ==> InRange(pop.population, group[k])
    ensures |ancestries| == |group|
    ensures forall k :: 0 <= k < |group| ==> ancestries[k] == Index(pop.population, group[k]).ancestors
  {
    var sub := GetSubpopulation(pop, group);
    ancestries := seq(|sub|, k requires 0 <= k < |sub| => sub[k].ancestors);
  }

  /** `get_subpopulation_ancestors_last_coalescent_event(pop, group)`. */
  method GetSubpopulationAncestorsLastCoalescentEvent(pop: Population, group: seq<int>) returns (r: Coalescence)
    requires pop.Valid()
    requires |group| > 0 && forall k :: 0 <= k < |group| ==> InRange(pop.population, group[k])
    ensures Scannable(Subpopulation(pop.population, group))
    ensures r == LastCoalescentEvent(Subpopulation(pop.population, group))
    ensures r.Coalesced? ==>
      1 <= r.generation <= pop.generation &&
      forall k :: 0 <= k < |group| ==>
        Index(pop.population, group[k]).ancestors[pop.generation - r.generation] == r.ancestor
  {
    var sub := GetSubpopulation(pop, group);
    SubpopulationScannable(pop.population, pop.size, pop.generation, group);
    r := LastCoalescentEvent(sub);
  }

  /** The report of `main` as written: the maximum is reported whenever `cpt == max_iter`. */
  function ReportAsWritten(population: seq<Individual>, cpt: nat, maxIter: int): (r: Report)
    requires Scannable(population)
    ensures r == MaxIterationsReached <==> cpt == maxIter
  {
    if cpt == maxIter then MaxIterationsReached else IdenticalByDescent(LastCoalescentEvent(population))
  }

  /**
   * The report the loop's exit calls for: the coalescence event exactly when
   * the population is identical by descent, the maximum otherwise.
   */
  function CorrectedReport(population: seq<Individual>): (r: Report)
    requires Scannable(population)
    ensures r.IdenticalByDescent? <==> AllIdenticalByDescent(population) == Some(true)
    ensures r.IdenticalByDescent? ==> r.event.Coalesced? && r.event == LastCoalescentEvent(population)
  {
    IdenticalIffCoalesced(population);
    if AllIdenticalByDescent(population) == Some(true) then IdenticalByDescent(LastCoalescentEvent(population))
    else MaxIterationsReached
  }

  /**
   * The two reports differ exactly when the test `cpt == max_iter` and the
   * population's identity by descent say the same thing: a population that
   * coalesces on the last allowed tick, or a negative `max_iter`.
   */
  lemma ReportsDiffer(population: seq<Individual>, cpt: nat, maxIter: int)
    requires Scannable(population)
    ensures ReportAsWritten(population, cpt, maxIter) != CorrectedReport(population)
            <==> (cpt == maxIter <==> AllIdenticalByDescent(population) == Some(true))
  {
    IdenticalIffCoalesced(population);
  }

  /**
   * Once the population reached from the founders is identical by descent
   * after t rounds, it stays so after every later round u; equivalently, a
   * population not identical by descent after u rounds was not so after
   * any earlier round either.
   */
  lemma {:induction false} IdentityPersists(size: nat, rounds: seq<seq<int>>, t: nat, u: nat)
    requires size > 0 && ValidRounds(rounds, size) && t <= u <= |rounds|
    requires ValidRounds(rounds[..t], size) && Scannable(Descendants(Founders(size), rounds[..t]))
    requires AllIdenticalByDescent(Descendants(Founders(size), rounds[..t])) == Some(true)
    ensures ValidRounds(rounds[..u], size) && Scannable(Descendants(Founders(size), rounds[..u]))
    ensures AllIdenticalByDescent(Descendants(Founders(size), rounds[..u])) == Some(true)
    decreases u - t
  {
    if t < u {
      DescendantsStep(Founders(size), rounds, t);
      DescendantsInvariant(size, rounds[..t]);
      IdentityIsAbsorbing(Descendants(Founders(size), rounds[..t]), rounds[t], t);
      DescendantsInvariant(size, rounds[..t + 1]);
      WellFormedScannable(Descendants(Founders(size), rounds[..t + 1]), size, t + 1);
      IdentityPersists(size, rounds, t + 1, u);
    } else {
      assert ValidRounds(rounds[..u], size);
    }
  }

  /** A population not identical by descent after c rounds was not so after any round u in 1..c either. */
  lemma EarlierRoundsNotIdentical(size: nat, rounds: seq<seq<int>>, c: nat)
    requires size > 0 && ValidRounds(rounds, size) && 0 < c <= |rounds|
    requires ValidRounds(rounds[..c], size) && Scannable(Descendants(Founders(size), rounds[..c]))
    requires AllIdenticalByDescent(Descendants(Founders(size), rounds[..c])) == None
    ensures forall u :: 0 < u <= c ==>
      && Scannable(Descendants(Founders(size), rounds[..u]))
      && AllIdenticalByDescent(Descendants(Founders(size), rounds[..u])) == None
  {
    forall u | 0 < u <= c
      ensures Scannable(Descendants(Founders(size), rounds[..u]))
      ensures AllIdenticalByDescent(Descendants(Founders(size), rounds[..u])) == None
    {
      assert ValidRounds(rounds[..u], size);
      DescendantsInvariant(size, rounds[..u]);
      WellFormedScannable(Descendants(Founders(size), rounds[..u]), size, u);
      if AllIdenticalByDescent(Descendants(Founders(size), rounds[..u])) == Some(true) {
        IdentityPersists(size, rounds, u, c);
      }
    }
  }

  /**
   * Size 2, `max_iter` 1: the first tick (draws [0, 1]) leaves distinct
   * ancestors, so the loop ticks again; the second (draws [0, 0]) makes both
   * individuals children of individual 0, so the population is identical by
   * descent with cpt == 1 == max_iter, and the maximum is reported instead.
   */
  lemma CoalescenceAtTheLimitIsMissed()
    ensures AllIdenticalByDescent(Descendants(Founders(2), [[0, 1]])) == None
    ensures AllIdenticalByDescent(Descendants(Founders(2), [[0, 1], [0, 0]])) == Some(true)
    ensures LastCoalescentEvent(Descendants(Founders(2), [[0, 1], [0, 0]])) == Coalesced(0, 1)
    ensures ReportAsWritten(Descendants(Founders(2), [[0, 1], [0, 0]]), 1, 1) == MaxIterationsReached
  {
    LimitScenarioTicks();
    var first := [Individual([0]), Individual([1])];
    assert !AgreeAt(first, 0) by { assert first[1].ancestors[0] != first[0].ancestors[0]; }
    var second := [Individual([0, 0]), Individual([0, 0])];
    assert AgreeAt(second, 1);
  }

  /** The populations of `CoalescenceAtTheLimitIsMissed` after its first and its second tick. */
  lemma LimitScenarioTicks()
    ensures Descendants(Founders(2), [[0, 1]]) == [Individual([0]), Individual([1])]
    ensures Descendants(Founders(2), [[0, 1], [0, 0]]) == [Individual([0, 0]), Individual([0, 0])]
  {
    var rounds := [[0, 1], [0, 0]];
    assert rounds[..1] == [[0, 1]];
    assert Descendants(Founders(2), [[0, 1]][..0]) == Founders(2);
    var first := Descendants(Founders(2), [[0, 1]]);
    assert first == Offspring(Founders(2), [0, 1]);
    assert first[0].ancestors == [0] && first[1].ancestors == [1];
    var second := Descendants(Founders(2), rounds);
    assert second == Offspring(first, [0, 0]);
    assert second[0].ancestors == [0, 0] && second[1].ancestors == [0, 0];
  }

  /**
   * The driver loop of `main`: one tick, then ticks while the population is
   * not identical by descent and `cpt < maxIter`.  `rounds[t]` holds the
   * draws of tick t.  The loop stops at the first population identical by
   * descent: none of those after 1 to cpt ticks was.
   */
  method TickUntilIdentical(size: nat, maxIter: int, rounds: seq<seq<int>>) returns (pop: Population, cpt: nat)
    requires size > 0
    requires |rounds| > 0 && |rounds| > maxIter
    requires ValidRounds(rounds, size)
    ensures pop.Valid() && pop.size == size
    ensures pop.generation == cpt + 1 && cpt < |rounds|
    ensures pop.population == Descendants(Founders(size), rounds[..cpt + 1])
    ensures Scannable(pop.population)
    ensures cpt == 0 || cpt <= maxIter
    ensures cpt < maxIter ==> AllIdenticalByDescent(pop.population) == Some(true)
    ensures forall u :: 0 < u <= cpt ==>
      && Scannable(Descendants(Founders(size), rounds[..u]))
      && AllIdenticalByDescent(Descendants(Founders(size), rounds[..u])) == None
  {
    pop := new Population(size);
    pop.NextGeneration(rounds[0]);
    DescendantsStep(Founders(size), rounds, 0);
    WellFormedScannable(pop.population, size, pop.generation);
    cpt := 0;
    ghost var prev: seq<Individual> := [];
    while AllIdenticalByDescent(pop.population) != Some(true) && cpt < maxIter
      invariant pop.Valid() && pop.size == size
      invariant pop.generation == cpt + 1 && cpt < |rounds|
      invariant cpt == 0 || cpt <= maxIter
      invariant pop.population == Descendants(Founders(size), rounds[..cpt + 1])
      invariant Scannable(pop.population)
      invariant cpt > 0 ==> prev == Descendants(Founders(size), rounds[..cpt])
      invariant cpt > 0 ==> Scannable(prev) && AllIdenticalByDescent(prev) == None
      decreases maxIter - cpt
    {
      prev := pop.population;
      pop.NextGeneration(rounds[cpt + 1]);
      DescendantsStep(Founders(size), rounds, cpt + 1);
      WellFormedScannable(pop.population, size, pop.generation);
      cpt := cpt + 1;
    }
    if cpt > 0 {
      EarlierRoundsNotIdentical(size, rounds, cpt);
    }
  }

  /**
   * `main`: the driver loop, then the report, taken from the population's
   * identity by descent rather than from `cpt == max_iter`.
   */
  method Run(size: nat, maxIter: int, rounds: seq<seq<int>>) returns (pop: Population, cpt: nat, report: Report)
    requires size > 0
    requires |rounds| > 0 && |rounds| > maxIter
    requires ValidRounds(rounds, size)
    ensures pop.Valid() && pop.size == size
    ensures pop.generation == cpt + 1 && cpt < |rounds|
    ensures pop.population == Descendants(Founders(size), rounds[..cpt + 1])
    ensures cpt == 0 || cpt <= maxIter
    ensures cpt < maxIter ==> AllIdenticalByDescent(pop.population) == Some(true)
    ensures forall u :: 0 < u <= cpt ==>
      && Scannable(Descendants(Founders(size), rounds[..u]))
      && AllIdenticalByDescent(Descendants(Founders(size), rounds[..u])) == None
    ensures report == CorrectedReport(pop.population)
    ensures report.IdenticalByDescent? ==> report.event.Coalesced?
    ensures report == MaxIterationsReached ==> cpt == maxIter || (cpt == 0 && maxIter < 0)
  {
    pop, cpt := TickUntilIdentical(size, maxIter, rounds);
    if AllIdenticalByDescent(pop.population) == Some(true) {
      report := IdenticalByDescent(LastCoalescentEvent(pop.population));
    } else {
      report := MaxIterationsReached;
    }
  }

  /** Four individuals, one tick with draws [2, 2, 2, 0]: three share ancestor 2, the fourth does not. */
  lemma OneTickScenario()
    ensures Offspring(Founders(4), [2, 2, 2, 0]) ==
      [Individual([2]), Individual([2]), Individual([2]), Individual([0])]
    ensures AllIdenticalByDescent(Offspring(Founders(4), [2, 2, 2, 0])) == None
    ensures LastCoalescentEvent([Individual([2]), Individual([0])]) == NotCoalesced
  {
    var next := Offspring(Founders(4), [2, 2, 2, 0]);
    assert next[0].ancestors == [2] && next[1].ancestors == [2];
    assert next[2].ancestors == [2] && next[3].ancestors == [0];
    assert next == [Individual([2]), Individual([2]), Individual([2]), Individual([0])];
    assert !AgreeAt(next, 0) by { assert next[3].ancestors[0] != next[0].ancestors[0]; }
    assert !AgreeAt([Individual([2]), Individual([0])], 0) by {
      assert [Individual([2]), Individual([0])][1].ancestors[0] == 0;
    }
  }
}
