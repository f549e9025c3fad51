# Wright–Fisher population genetics engines in Dafny

This project models the discrete core of four teaching scripts on population genetics. All four rest on the same Wright–Fisher step: each generation draws its members uniformly, with replacement, from the previous one.

- **Coalescent** (`coalescent_model.py`). Every individual carries its whole ancestry: the index of the parent drawn at each generation. A backward scan (`last_coalescent_event`) finds the most recent generation at which a group shares an ancestor. A forward scan (`all_identical_by_descent`) decides when the whole population is identical by descent, and a driver loop ticks until it is or until `max_iter`.
- **Genetic drift** (`genetic_drift.py`). A population of 'A'/'B' genotypes is resampled each generation. The frequency of 'A' ("fitness") is recorded after construction and after every tick. Replicates are tallied by whether 'A' ends in the majority.
- **Population structure** (`population_structure.py`). The population is cut into slices of `size/10` members. Each slice is then resampled from itself alone (no migration). One frequency series per slice is kept in a dictionary whose keys are "0" to "9".
- **Infinite-allele mutation** (`mutations_infinite-allele_model.py`). An array of integer allele labels is rewritten slot by slot, in place. A mutated slot takes `max(population) + 1`. Any other slot copies a random slot of the array as it stands, partly rewritten already. `get_fitness` maps every label to its frequency.

Randomness enters as inputs:
- parent indices stand for `random.choice` and `random.randint`;
- booleans stand for the tests `random.random() < p` and `random.random() < mutation_rate`.

Frequencies are exact ratios (`real`), not floating point.

Files:
- `wrappers.dfy`: `Option` and `Result`.
- `pylist.dfy`: the Python list operations used (negative indexing, `count`, `max`, flattening).
- `wright_fisher.dfy`: the shared resampling step and genotype frequencies.
- `coalescent.dfy`, `genetic_drift.dfy`, `population_structure.dfy`, `infinite_alleles.dfy`: one module per script.

Behaviour of the scripts worth noting, modelled as written:
- `last_coalescent_event` of a single individual with some ancestry reports its newest ancestor, with generation 1.
- `all_identical_by_descent` returns None, not the False its docstring announces, when no depth agrees: the loop falls through.
- In the structured script, subpopulations grow from `size/10` members at construction to `size` members at the first tick, since each draws `size` times.
- A mutation label is `max + 1` of the current list, so a label that has died out can be issued again (`InfiniteAlleles.ExtinctLabelIsReissued`). Two mutations in one tick never share a label (`InfiniteAlleles.MutationsGetDistinctLabels`), because `max` is re-read after each write.

Each script's `population` object becomes a Dafny class.
- Its fields are the script's fields. The mutation script's list is an `array<int>` updated in place.
- Its methods are proved against pure functions of the old state. Each `next_generation` is stated through `Offspring`, `Resample`, `ResampleEach` or `Tick`.
- The properties are proved as lemmas about those functions, and as the `Valid()` invariants the methods keep.

## Model

| member | source | states |
|---|---|---|
| PyList.Index | coalescent_model.py:128 | Python `s[i]` for `-len(s) <= i < len(s)` returns a member of the list |
| PyList.Count | genetic_drift.py:119 | `list.count(x)`, the number of occurrences of x |
| PyList.CountAtMostLength | genetic_drift.py:68 | `list.count(x)` is at most the list's length, and positive exactly when x is in the list |
| PyList.Max | mutations_infinite-allele_model.py:63 | `max(s)` of a non-empty list is a member of it and no member exceeds it |
| PyList.FlattenLength | population_structure.py:87 | joining lists that all have n members gives `len * n` members |
| PyList.Flatten | population_structure.py:87 | `[item for sublist in ss for item in sublist]`, the inner lists joined in order |
| PyList.FlattenContains | population_structure.py:87 | every sublist's members (with multiplicity) are among the joined list's members |
| PyList.FlattenMembersComeFromSublists | population_structure.py:87 | every member of the joined list comes from some inner list |
| WrightFisher.InitialGenotypes | genetic_drift.py:56 | one genotype per test outcome, 'A' exactly where `random.random() < p` held |
| WrightFisher.Resample | genetic_drift.py:75 | `[random.choice(pool) for i in range(size)]` has one member per draw |
| WrightFisher.ResampleDrawsFromPool | genetic_drift.py:75 | offspring k is `pool[ids[k]]`: every offspring comes from the pre-tick pool, never from the list being built |
| WrightFisher.FixationIsAbsorbing | genetic_drift.py:75 | a pool fixed for one value stays fixed after a resampling |
| WrightFisher.Evolve | genetic_drift.py:114-115 | repeated ticks keep the population size |
| WrightFisher.FixationPersists | genetic_drift.py:114-115 | once fixed, fixed in every later generation |
| WrightFisher.FrequencyBounds | genetic_drift.py:68 | `count(g) / size` lies in [0, len/size], hence in [0, 1] when `len <= size` |
| WrightFisher.Frequency | genetic_drift.py:68 | `count(g) / size` as an exact ratio |
| WrightFisher.CountsPartition | genetic_drift.py:119 | `count('A') + count('B')` is the population size |
| WrightFisher.FrequenciesSumToOne | genetic_drift.py:68 | the frequencies of 'A' and 'B' in one snapshot sum to 1 |
| Coalescent.Founders | coalescent_model.py:36-39 | generation 0 has `size` individuals, each with empty ancestry |
| Coalescent.Offspring | coalescent_model.py:65-71 | one offspring per draw |
| Coalescent.OffspringWellFormed | coalescent_model.py:65-73 | a tick keeps the size, and offspring k's ancestry is `old_pop[ids[k]].ancestors + [ids[k]]`, so every ancestry has length generation+1 with entries in `[0, size)` |
| Coalescent.OffspringCoherent | coalescent_model.py:71 | prefix closure is preserved: two individuals sharing the ancestor at depth d share their whole ancestry before d |
| Coalescent.Descendants | coalescent_model.py:163-170 | repeated ticks keep the population size |
| Coalescent.DescendantsStep | coalescent_model.py:169 | t+1 ticks are t ticks followed by one more |
| Coalescent.DescendantsInvariant | coalescent_model.py:37-73 | every reachable population has `size` members, ancestries of length `generation` with entries in `[0, size)`, and is prefix-closed |
| Coalescent.WellFormedScannable | coalescent_model.py:94 | a non-empty well-formed population can be scanned without IndexError, its first ancestry of length `generation` |
| Coalescent.AgreeAt | coalescent_model.py:96 | the `all([...])` test of both scans: every member has the first member's ancestor at depth d |
| Coalescent.AgreeAtPairwise | coalescent_model.py:112 | comparing every member with the first is the same as every two members sharing their ancestor at depth d; a lone individual always agrees |
| Coalescent.ScanDown | coalescent_model.py:94-98 | the scan from depth i-1 downwards finds nothing exactly when no depth below i agrees; otherwise it returns the deepest agreeing depth below i, as ancestor and `len - i` |
| Coalescent.LastCoalescentEvent | coalescent_model.py:84-98 | `{None, None}` exactly when no depth agrees; otherwise every member has the returned ancestor at depth `len - generation`, `1 <= generation <= len`, and no deeper depth agrees |
| Coalescent.ScanUp | coalescent_model.py:110-113 | the loop from depth k returns True exactly when some depth at or above k agrees, and None (falling through) otherwise |
| Coalescent.AllIdenticalByDescent | coalescent_model.py:100-113 | returns True or None, True exactly when some depth is shared by the whole population |
| Coalescent.IdenticalIffCoalesced | coalescent_model.py:94-113 | `all_identical_by_descent` is True exactly when `last_coalescent_event` finds an ancestor |
| Coalescent.EmptyAncestryNeverCoalesces | coalescent_model.py:94-113 | with empty ancestries (generation 0) the event is `{None, None}` and the test returns None |
| Coalescent.SingletonCoalescesOneGenerationBack | coalescent_model.py:94-97 | a single individual with some ancestry returns its newest ancestor with generation 1 |
| Coalescent.AgreementIsPrefixClosed | coalescent_model.py:71 | in a prefix-closed group, agreement at depth k implies agreement at every depth d <= k |
| Coalescent.IdenticalMeansSingleFounder | coalescent_model.py:110-113 | a prefix-closed population identical by descent agrees at depth 0: all descend from one founder of generation 0 |
| Coalescent.IdentityIsAbsorbing | coalescent_model.py:110-113 | identity by descent still holds after any further tick |
| Coalescent.Subpopulation | coalescent_model.py:126-129 | the selected individuals, one per group index, in group order |
| Coalescent.SubpopulationScannable | coalescent_model.py:145-156 | any non-empty group of a well-formed population can be scanned, its ancestries of length `generation` |
| Coalescent.Population.constructor | coalescent_model.py:24-39 | generation 0 with `size` founders; the invariant holds |
| Coalescent.Population.NextGeneration | coalescent_model.py:61-73 | the append loop builds exactly `Offspring(old population, ids)`, the size is kept, the generation grows by one, and the invariant (lengths, index ranges, prefix closure) is preserved |
| Coalescent.GetSubpopulation | coalescent_model.py:115-129 | the loop returns `pop[i]` for each i in the group, in order, with Python's negative indexing |
| Coalescent.GetSubpopulationAncestors | coalescent_model.py:131-142 | entry k is the ancestry of the k-th selected individual |
| Coalescent.GetSubpopulationAncestorsLastCoalescentEvent | coalescent_model.py:145-156 | the scan of the selected group; a found ancestor is shared by every selected individual at depth `generation - result`, with `1 <= result <= generation` |
| Coalescent.ReportAsWritten | coalescent_model.py:172-176 | as written, the maximum is reported exactly when `cpt == max_iter` |
| Coalescent.CorrectedReport | coalescent_model.py:168-176 | the coalescence event is reported exactly when the population is identical by descent, and it is then a found ancestor |
| Coalescent.ReportsDiffer | coalescent_model.py:168-176 | the two reports differ exactly when `cpt == max_iter` and identity by descent are both true or both false (the latter only with a negative `max_iter`) |
| Coalescent.CoalescenceAtTheLimitIsMissed | coalescent_model.py:168-176 | size 2, `max_iter` 1, draws [0,1] then [0,0]: the population coalesces with cpt == 1, yet the maximum is reported |
| Coalescent.TickUntilIdentical | coalescent_model.py:163-170 | one tick, then ticks while not identical by descent and `cpt < max_iter`: the result is the population after cpt+1 ticks, identical by descent when the loop stopped early, and the populations after 1 to cpt ticks were not, so the loop stops at the first population identical by descent |
| Coalescent.Run | coalescent_model.py:163-176 | the driver loop of `TickUntilIdentical` with all its guarantees, then the report `CorrectedReport` of the final population |
| Coalescent.IdentityPersists | coalescent_model.py:168-170 | a population reached from the founders that is identical by descent after t rounds stays so after every later round |
| Coalescent.EarlierRoundsNotIdentical | coalescent_model.py:168-170 | a population not identical by descent after c rounds was not so after any round 1 to c |
| Coalescent.OneTickScenario | coalescent_model.py:65-71 | four founders with draws [2,2,2,0] give ancestries [2],[2],[2],[0]: not identical by descent |
| GeneticDrift.Population.GetFitness | genetic_drift.py:67-68 | `count('A') / size` lies in [0, 1]; it is 1 exactly when fixed for 'A' and 0 exactly when fixed for 'B' |
| GeneticDrift.FrequencyIsOneWhenFixed | genetic_drift.py:67-68 | the same bounds and fixation equivalences, for any list of `size` genotypes |
| GeneticDrift.Population.constructor | genetic_drift.py:22-38 | the genotypes from the test outcomes, generation 0, and `fitness_list == [fitness]` |
| GeneticDrift.Population.NextGeneration | genetic_drift.py:71-78 | the population is `Resample(old population, draws)`, the new frequency is appended, and the generation grows by one; the size and the invariant are kept |
| GeneticDrift.Tally | genetic_drift.py:119-120 | `cpt_A` grows by one exactly when 'A' outnumbers 'B' |
| GeneticDrift.EndsWithMajorityA | genetic_drift.py:119 | 'A' outnumbers 'B' after the replicate's generations exactly when more than half the population is 'A' |
| GeneticDrift.MajorityARuns | genetic_drift.py:106-120 | the tally over replicates never exceeds their number |
| GeneticDrift.Simulate | genetic_drift.py:111-116 | one population after `generations` ticks is `Evolve` of its founders, and entry t of the recorded series (the one plotted per replicate) is the frequency of 'A' after t ticks, for t from 0 to `generations` |
| GeneticDrift.CountMajorityA | genetic_drift.py:106-120 | the loop's `cpt_A` equals the number of replicates ending with 'A' in the majority |
| GeneticDrift.FixedRunsDecideTheTally | genetic_drift.py:114-120 | a run founded all 'A' always counts, and one founded all 'B' never does |
| PopulationStructure.SeriesKeys | population_structure.py:38 | the dictionary is created with exactly the keys 0 to 9 |
| PopulationStructure.Slices | population_structure.py:40 | `[s[i:i+step] for i in range(0, len(s), step)]`: no slice for an empty list, every slice but the last has `step` members, and the last has between 1 and `step` |
| PopulationStructure.SlicesPartition | population_structure.py:40 | the slices joined give back the population, and each has between 1 and `step` members |
| PopulationStructure.SliceCount | population_structure.py:40 | at most m slices when the list fits in m steps, more than m otherwise, and all full when it is exactly m steps |
| PopulationStructure.SliceCountForSize | population_structure.py:40 | with `size >= 10` there are at least 10 slices, exactly 10 when 10 divides size, then each of `size/10` members |
| PopulationStructure.ResampleEach | population_structure.py:86 | one new subpopulation per old one |
| PopulationStructure.ZeroMigration | population_structure.py:86 | new subpopulation j has one member per draw, all from old subpopulation j, and depends on nothing but it and its draws |
| PopulationStructure.FixedSubpopulationStaysFixed | population_structure.py:86 | a subpopulation fixed for one allele stays fixed |
| PopulationStructure.AppendColumn | population_structure.py:78-79 | appending to the first n series keeps the set of keys |
| PopulationStructure.AppendColumnStep | population_structure.py:78-79 | one more iteration of the loop appends to exactly one more series |
| PopulationStructure.FitnessOf | population_structure.py:74-75 | one frequency per subpopulation |
| PopulationStructure.FitnessWithinShare | population_structure.py:75 | because it divides by `size`, each value lies in [0, len(sub)/size], and is 0 exactly when the subpopulation lost 'A' |
| PopulationStructure.SetupShaped | population_structure.py:38-42 | with 10 dividing size, construction yields 10 slices of `size/10` that join back to the population, and one recorded value per series |
| PopulationStructure.TickShaped | population_structure.py:86-90 | a tick makes every subpopulation `size` members (so the population `10 * size`) and appends one value to each series |
| PopulationStructure.InitialFrequenciesAtMostOneTenth | population_structure.py:40-41 | right after construction no frequency exceeds 1/10 |
| PopulationStructure.Population.GenotypesOf | population_structure.py:68-69 | `subpopulations[pos]` (negative pos allowed) is a subpopulation whose members are among the population's |
| PopulationStructure.Population.constructor | population_structure.py:34-41 | the population from the test outcomes, its slices of `size/10`, their frequencies, and ten empty series |
| PopulationStructure.Population.AppendFitness | population_structure.py:77-79 | appends `fitness[i]` to series i for each subpopulation in order; with more than ten subpopulations the first ten are extended and KeyError(10) follows |
| PopulationStructure.Population.Create | population_structure.py:26-42 | ValueError exactly when `size < 10` (slice step 0); KeyError exactly when 10 does not divide a larger size; otherwise a valid population at generation 0 |
| PopulationStructure.Population.ResampleSubpopulations | population_structure.py:86-88 | the subpopulations resampled, joined and their frequencies recomputed |
| PopulationStructure.Population.NextGeneration | population_structure.py:82-90 | each subpopulation is resampled from itself alone, the population is their join of `10 * size` members, one frequency is appended to each series, and the generation grows by one |
| InfiniteAlleles.NewLabel | mutations_infinite-allele_model.py:62-65 | a mutated slot gets a label above every label in the list as it stands; a copied slot gets a label from it |
| InfiniteAlleles.Tick | mutations_infinite-allele_model.py:61-65 | the loop's first n iterations keep the length |
| InfiniteAlleles.TickLeavesLaterSlots | mutations_infinite-allele_model.py:61 | slots the loop has not reached keep their labels |
| InfiniteAlleles.TickSettlesSlot | mutations_infinite-allele_model.py:61-65 | slot k is written at iteration k and never again in the tick |
| InfiniteAlleles.MutationIsNew | mutations_infinite-allele_model.py:62-63 | a mutated slot's label exceeds every label present when it is drawn, slots rewritten earlier in the tick included |
| InfiniteAlleles.MutationsGetDistinctLabels | mutations_infinite-allele_model.py:62-63 | two mutations in one tick get distinct labels, the later slot the larger |
| InfiniteAlleles.NoMutationNoNewLabel | mutations_infinite-allele_model.py:65 | without a mutation every label after the tick was present before it |
| InfiniteAlleles.LabelsStayNonNegative | mutations_infinite-allele_model.py:63 | non-negative labels stay non-negative |
| InfiniteAlleles.FullMutationCounts | mutations_infinite-allele_model.py:62-63 | when every slot mutates, slot k gets `max + k + 1` and the maximum grows by the number of slots rewritten |
| InfiniteAlleles.FullMutationRenewsAllLabels | mutations_infinite-allele_model.py:61-63 | when every slot mutates, every label after the tick exceeds every label before it |
| InfiniteAlleles.CopyReadsUpdatedSlot | mutations_infinite-allele_model.py:61-65 | from [0,0], slot 0 mutating and slot 1 copying slot 0 gives [1,1]: copies read the partly rewritten list |
| InfiniteAlleles.ExtinctLabelIsReissued | mutations_infinite-allele_model.py:63 | a label that died out is issued again: [0,0] to [0,1] to [0,0] to [0,1] |
| InfiniteAlleles.Frequencies | mutations_infinite-allele_model.py:46-51 | the keys are exactly the labels present, each value in (0, 1] |
| InfiniteAlleles.FrequenciesInUnitInterval | mutations_infinite-allele_model.py:50 | `count(k) / size` lies in (0, 1] for a label k present |
| InfiniteAlleles.Labels | mutations_infinite-allele_model.py:48-50 | the dictionary's keys as a list: distinct labels, exactly those present (their order is stated by `LabelsInFirstAppearanceOrder`) |
| InfiniteAlleles.LabelsInFirstAppearanceOrder | mutations_infinite-allele_model.py:48-50 | wherever a later label occurs in the list, every earlier label has already occurred before it: the dictionary's insertion order |
| InfiniteAlleles.DistinctCount | mutations_infinite-allele_model.py:49 | a label occurs once in a list of distinct labels holding it |
| InfiniteAlleles.CountSumIsLength | mutations_infinite-allele_model.py:50 | the counts of distinct labels covering the list sum to its length |
| InfiniteAlleles.SumOfFrequencies | mutations_infinite-allele_model.py:50 | summed frequencies are summed counts over the size |
| InfiniteAlleles.SnapshotSumsToOne | mutations_infinite-allele_model.py:46-51 | the frequencies of one snapshot sum to 1 |
| InfiniteAlleles.Mutate | mutations_infinite-allele_model.py:61-65 | the in-place loop leaves the array equal to `Tick` of its old contents over all slots |
| InfiniteAlleles.Population.constructor | mutations_infinite-allele_model.py:30-44 | `size` labels 0 at generation 0, an empty frequency map and an empty series |
| InfiniteAlleles.Population.GetFitness | mutations_infinite-allele_model.py:46-51 | the loop builds exactly `Frequencies` of the current labels |
| InfiniteAlleles.Population.NextGeneration | mutations_infinite-allele_model.py:54-69 | the same array rewritten to `Tick` of its old contents, the frequencies recomputed and appended, the generation grown by one; labels stay non-negative and the length `size` |

## Left out

- Random number generation: every draw is an input (parent indices, mutation and genotype test outcomes). Uniformity is not modelled.
- `p`, `mutation_rate` and the probabilities: kept as fields, but they act only through the supplied test outcomes.
- Command-line parsing, progress bars, `print`, plotting, the pandas frame and `sqrt` layout: input/output only.
- `clonal_interference_infinite.py` and `selection_infinite.py`: floating-point ODE integration with scipy, not part of this model.
- The random choice of groups in the coalescent `main` (coalescent_model.py:178-182): the group is a parameter of the subpopulation members.
- `get_individual`, `get_genotypes`, `get_genotype` and the getters `get_generation`, `get_population`, `get_fitness_list`: individuals of the drift scripts are modelled by their genotypes, so these are identities or field reads.
- Dictionary keys: the string keys `f"{k}"` of the structured and mutation scripts are modelled by the integers they spell; distinct integers give distinct strings.
- Dictionary order: `InfiniteAlleles.Frequencies` is a map without order. `InfiniteAlleles.Labels` gives the insertion order separately (`InfiniteAlleles.LabelsInFirstAppearanceOrder`).
- Sizes: negative sizes are excluded (`nat`). A drift population of size 0 is excluded because `get_fitness` divides by it (ZeroDivisionError).
- Floating point: frequencies are exact ratios, so rounding of `count / size` is not modelled.
- Coalescent.TickUntilIdentical: requires `size > 0` and at least `max_iter + 1` rounds of draws, as `Coalescent.Run` does (see the lines below).
- Coalescent.Run: needs at least `max_iter + 1` rounds of draws supplied in advance, since the draws are inputs.
- Coalescent.Run: reports with `CorrectedReport`; the code as written is `ReportAsWritten` (see Findings).
- Coalescent.Run: requires `size > 0`. With `size` 0 the script builds an empty population and raises IndexError at the first loop test, on `pop.get_population()[0]` in `all_identical_by_descent` (coalescent_model.py:110).
- Coalescent.GetSubpopulation: requires every group index to be in range. The script raises IndexError on `pop.get_population()[i]` otherwise (coalescent_model.py:128); `main` only draws indices in range.
- Coalescent.GetSubpopulationAncestors: requires every group index to be in range, for the same IndexError at coalescent_model.py:128.
- Coalescent.GetSubpopulationAncestorsLastCoalescentEvent: requires a non-empty group with indices in range. For an empty group the script raises IndexError on `group[0]` (coalescent_model.py:94); `main` always draws 2 to 5 indices in range.
- Coalescent.LastCoalescentEvent: requires a non-empty group whose ancestries are at least as long as the first one's (`Scannable`). The script raises IndexError on an empty group, and on a shorter ancestry at its first test, at depth `len(group[0].ancestors) - 1` (coalescent_model.py:94-96); every population the scripts build meets it (`Coalescent.WellFormedScannable`).
- Coalescent.AllIdenticalByDescent: requires `Scannable` too. The script raises IndexError on an empty population (coalescent_model.py:110), but with a shorter ancestry only if its upward scan reaches a depth that ancestry lacks: with ancestries [0, 1] and [0] it returns True at depth 0. The model does not cover such ragged populations, which the scripts never build (`Coalescent.WellFormedScannable`).

## Findings

| source | as written | input that shows it | evidently intended | confidence | as-written member | corrected member |
|---|---|---|---|---|---|---|
| coalescent_model.py:172-176 | after the loop, the maximum is reported whenever `cpt == max_iter`, even if the population became identical by descent on that last tick | size 2, `max_iter` 1, parent draws [0,1] then [0,0]: after the second tick both ancestries are [0,0], so the loop stops identical by descent with cpt == 1 | report the coalescence whenever the loop stopped because the population is identical by descent | medium, not executed | Coalescent.ReportAsWritten, Coalescent.CoalescenceAtTheLimitIsMissed | Coalescent.CorrectedReport, Coalescent.ReportsDiffer |
