# Pearl weighing: the search for the fewest weighings

Among n pearls one is counterfeit, heavier or lighter than the others. A
balance scale compares two pans of pearls. The program `pearls1c.py` computes
the least number of weighings that finds the counterfeit pearl and tells
whether it is heavy or light, in the worst case. It does this by an
exhaustive recursive search over "populations". A population is the list of
hypotheses that are still consistent with the outcomes seen so far. Each
hypothesis is a weight signature: one offset per pearl, +1 or -1 for the
counterfeit pearl and 0 for every other.

This Dafny project models the whole program:

- `measure`: the three-way outcome of one weighing under one signature
  (module `Scale`).
- `measures`: the enumerator of candidate weighings (modules `Subsets` and
  `Weighings`). `itertools.combinations` and `range` are modelled as well.
- The starting population of `pearl_cutting_sooner` (module `Hypotheses`).
- `populations_after_measures`: the outcome groups of every weighing. Only
  weighings with at least two groups are kept, and the kept list is sorted by
  the size of the largest group (module `Partition`).
- `browse_solutions`, `min_with_limit`, `solve` and `pearl_cutting_sooner`
  (module `Solver`).
- What the answer means (module `Optimality`). A weighing strategy is a
  decision tree of weighings. `solve` returns exactly the least worst-case
  depth of a strategy that singles out one hypothesis. Some strategy reaches
  that depth, and no strategy does better.

Generators are modelled as finite sequences that are evaluated eagerly. The
floating-point `ceil(log(m, 3))` is modelled as the integer `CeilLog3(m)`:
the least d with m <= 3^d. Every function is pure. Nothing in the model does
I/O.

`measures(n)` yields every weighing together with its mirror image, the same
weighing with the pans swapped, because line 18 takes every k-subset of the
involved pearls as the left pan (`Weighings.MeasuresMirrored`).

## Model

| member | source | states |
|---|---|---|
| Scale.Measure | code/pearls/pearls1c.py:5-9 | `cmp` of the two pan sums: the left pan is heavier, the scale balances, or the left pan is lighter exactly when the left sum minus the right sum is positive, zero or negative |
| Scale.MeasureSwap | code/pearls/pearls1c.py:5-9 | swapping the two pans turns the outcome into its mirror image (heavier and lighter exchange, balance stays) |
| Hypotheses.MeasureOfHypothesis | code/pearls/pearls1c.py:5-9 | under "pearl i has offset s", the pan holding a heavy pearl goes down, the pan holding a light pearl goes up, and the scale balances when pearl i is on neither pan |
| Hypotheses.PanWeightOfHypothesis | code/pearls/pearls1c.py:7-8 | under "pearl i has offset s", the sum over a pan is s when pearl i is on it and 0 otherwise |
| Sequences.Range | code/pearls/pearls1c.py:16 | `range(n)` lists exactly 0 .. n-1, strictly increasing |
| Subsets.CombinationsFacts | code/pearls/pearls1c.py:16-18 | every combination has k values, all drawn from the input, and is strictly increasing when the input is |
| Subsets.Combinations | code/pearls/pearls1c.py:16-18 | `itertools.combinations(xs, k)` yields exactly C(len(xs), k) combinations |
| Subsets.CombinationsComplete | code/pearls/pearls1c.py:16-18 | every increasing choice of values of an increasing input is enumerated |
| Weighings.Without | code/pearls/pearls1c.py:17-19 | the right pan holds exactly the involved pearls not on the left pan, in increasing order |
| Weighings.InvolvedPearls | code/pearls/pearls1c.py:16-17 | the pearls on the pans of a legal weighing with k pearls per pan form an increasing 2k-subset of `range(n)` |
| Weighings.WithoutLength | code/pearls/pearls1c.py:17-19 | removing the k left-pan pearls from the 2k involved pearls leaves k for the right pan |
| Weighings.SplitsOf | code/pearls/pearls1c.py:18-20 | one weighing per k-subset of the 2k involved pearls taken as the left pan: C(2k, k) of them |
| Weighings.LevelWellFormed | code/pearls/pearls1c.py:16-20 | every weighing with k pearls per pan that lines 16-20 yield is legal |
| Weighings.LevelContains | code/pearls/pearls1c.py:16-20 | every split of every enumerated 2k-subset is yielded at pan size k |
| Weighings.MeasuresContains | code/pearls/pearls1c.py:15-20 | the weighings of every pan size from 1 to n/2 are among those `measures(n)` yields |
| Weighings.Measures | code/pearls/pearls1c.py:11-20 | every yielded weighing is legal: two disjoint pans of the same size k, 1 <= k <= n/2, indices below n, both pans sorted |
| Weighings.MeasuresComplete | code/pearls/pearls1c.py:11-20 | every legal weighing of n pearls is yielded |
| Weighings.MeasuresExactly | code/pearls/pearls1c.py:11-20 | a weighing is yielded if and only if it is legal |
| Weighings.MeasuresMirrored | code/pearls/pearls1c.py:18-20 | with a weighing, its mirror image (pans swapped) is yielded too |
| Hypotheses.Hypothesis | code/pearls/pearls1c.py:65-69 | the signature built for pearl i < n with offset s has length n, holds s at position i and 0 everywhere else, and is a valid one-offset signature when s is +1 or -1 |
| Hypotheses.HypothesisOf | code/pearls/pearls1c.py:64-70 | every one-offset signature is the hypothesis "pearl i has offset +1 or -1" for some i |
| Hypotheses.InitialPopulation | code/pearls/pearls1c.py:64-70 | the starting population has exactly 2n signatures, all distinct and of length n, each with exactly one non-zero entry that is +1 or -1, and every such signature is in it |
| Partition.Group | code/pearls/pearls1c.py:29-32 | the list of one outcome holds exactly the configurations with that outcome, and no more entries than the population |
| Partition.GroupDistinct | code/pearls/pearls1c.py:29-32 | a group of a duplicate-free population is duplicate-free |
| Partition.GroupsPartition | code/pearls/pearls1c.py:29-32 | the three outcome lists together are the population, as a multiset |
| Partition.PresentOutcomes | code/pearls/pearls1c.py:29-33 | the keys of `measure_results` are exactly the outcomes that some configuration produces, each once |
| Partition.Branches | code/pearls/pearls1c.py:34 | a weighing has at most three groups, all over the same n pearls |
| Partition.BranchesPartition | code/pearls/pearls1c.py:29-34 | the groups partition the population: each is non-empty and holds exactly the configurations of its outcome, every configuration is in exactly one group, and the groups add up to the population as a multiset |
| Partition.BranchesAreGroups | code/pearls/pearls1c.py:29-34 | each group is the non-empty list of its own outcome, and no outcome appears twice |
| Partition.BranchesCover | code/pearls/pearls1c.py:29-34 | every configuration lies in exactly one group |
| Partition.BranchesUnion | code/pearls/pearls1c.py:29-34 | the groups together are the population as a multiset, and their sizes add up to its size |
| Partition.InformativeIffSplits | code/pearls/pearls1c.py:33 | a weighing gives at least two groups if and only if two configurations of the population have different outcomes |
| Partition.SingleBranchIsWhole | code/pearls/pearls1c.py:33 | a weighing with one group leaves the population exactly as it was, so dropping it loses nothing |
| Partition.InformativeBranching | code/pearls/pearls1c.py:33-34 | every group of a kept weighing is a valid population strictly smaller than the parent, which is why `solve` terminates |
| Partition.AllBranches | code/pearls/pearls1c.py:28-32 | one outcome grouping per enumerated weighing, each of at most three groups |
| Partition.MaxSizeBounds | code/pearls/pearls1c.py:35 | the sort key `max(map(len, x))` is at least the size of every group |
| Partition.MaxSizeAttained | code/pearls/pearls1c.py:35 | the sort key of a non-empty group list is the size of one of its groups |
| Partition.LargestGroupBound | code/pearls/pearls1c.py:35 | the largest group of a kept weighing holds at least a third of the population |
| Partition.KeepInformative | code/pearls/pearls1c.py:33-34 | exactly the group lists with more than one group are kept |
| Partition.InsertByLargest | code/pearls/pearls1c.py:35 | inserting into a list sorted by largest group size gives a sorted permutation of the list plus the new entry |
| Partition.SortByLargest | code/pearls/pearls1c.py:35 | sorting by largest group size gives a permutation that is ordered by non-decreasing largest group |
| Partition.PopulationsAfterMeasures | code/pearls/pearls1c.py:22-35 | the result holds exactly the group lists of the enumerated weighings with at least two groups, each as often as it occurs, ordered by non-decreasing largest group |
| Partition.InformativeIsKept | code/pearls/pearls1c.py:27-35 | the groups of every enumerated weighing with two or more groups are in the result |
| Partition.KeptComesFromWeighing | code/pearls/pearls1c.py:27-35 | every kept group list comes from an enumerated weighing with two or more groups |
| Partition.KeptAreBranchings | code/pearls/pearls1c.py:27-35 | every kept group list splits a valid population into two or three smaller valid populations that add up to it |
| Partition.SeparatingWeighing | code/pearls/pearls1c.py:11-20 | for n >= 3, any two different hypotheses are told apart by some enumerated weighing |
| Partition.SplittingWeighingExists | code/pearls/pearls1c.py:46 | for n >= 3, a valid population of two or more hypotheses has a kept weighing, so the first `g.next()` never raises `StopIteration` |
| Powers.CeilLog3 | code/pearls/pearls1c.py:57 | `ceil(log(m, 3))` as the least d with m <= 3^d |
| Powers.CeilLog3Least | code/pearls/pearls1c.py:57 | no smaller power of three covers m |
| Powers.CeilLog3OfThird | code/pearls/pearls1c.py:57 | a population of at most three times m needs at most one more power of three than m |
| Solver.MinWithLimit | code/pearls/pearls1c.py:45-51 | the result is one of the values, and it is at most every value unless it is at most the limit |
| Solver.MinWithLimitStops | code/pearls/pearls1c.py:45-51 | the loop stops at the first position from the second value on where the running minimum is at most the limit, or at the end; the result is the least value consumed |
| Solver.EarlyExitSound | code/pearls/pearls1c.py:45-51 | when no value lies below the limit, the result is the least value |
| Solver.EarlyExitBelowLimit | code/pearls/pearls1c.py:49-50 | when some value is at most the limit, the result is at most the limit |
| Solver.Min | code/pearls/pearls1c.py:48 | `min(res, x)` is one of the two and at most both |
| Solver.MaxOf | code/pearls/pearls1c.py:40-43 | `max` returns one of the values, and none is larger |
| Solver.WorstCase | code/pearls/pearls1c.py:40-43 | the cost of a weighing's worst group lies between the base-3 logarithm of the largest group, rounded up, and that group's size minus one |
| Solver.WorstCaseIsWorst | code/pearls/pearls1c.py:40-43 | the worst-group cost is the cost of one of the groups, and no group costs more |
| Solver.BrowseSolutions | code/pearls/pearls1c.py:38-43 | one value per kept group list; each is at least the limit `ceil(log3 m) - 1` and at most m - 2 |
| Solver.Solve | code/pearls/pearls1c.py:53-59 | 0 exactly for one hypothesis; otherwise between `ceil(log3 m)` and m - 1 for m hypotheses |
| Solver.SolveStep | code/pearls/pearls1c.py:53-59 | unfolding lemma for the proofs: for two or more hypotheses at least one weighing is kept, every kept group list is a proper split, and the answer is one more than `min_with_limit` of the browsed values with limit `ceil(log3 m) - 1`, as lines 57-59 compute it |
| Solver.EarlyExitIsFullMinimum | code/pearls/pearls1c.py:57-59 | the early exit returns the same value as the full minimum over all kept weighings |
| Solver.SolveChoosesWeighing | code/pearls/pearls1c.py:53-59 | the answer is one more than the worst-group cost of some legal weighing with two or more groups |
| Solver.SolveBeatsEveryWeighing | code/pearls/pearls1c.py:53-59 | no legal weighing with two or more groups leads to a smaller answer, the early exit notwithstanding |
| Solver.BranchesSmaller | code/pearls/pearls1c.py:33-34 | the largest group of a kept weighing is smaller than the population |
| Solver.PearlCuttingSooner | code/pearls/pearls1c.py:61-71 | no answer exactly when n <= 2; otherwise an answer between `ceil(log3 2n)` and 2n - 1 |
| Optimality.StrategyLowerBound | code/pearls/pearls1c.py:57 | a strategy of depth d that singles out the hypothesis handles at most 3^d hypotheses |
| Optimality.SolveIsMinimal | code/pearls/pearls1c.py:53-59 | every strategy that singles out the hypothesis needs at least `solve` weighings in the worst case |
| Optimality.SolveIsAchievable | code/pearls/pearls1c.py:53-59 | choosing at each step a weighing whose worst group costs the search's minimum singles out the hypothesis in exactly `solve` weighings in the worst case |
| Optimality.SolveIsOptimal | code/pearls/pearls1c.py:53-59 | `solve` is exactly the least worst-case depth of a strategy that singles out the hypothesis |
| Optimality.PuzzleAnswerIsOptimal | code/pearls/pearls1c.py:61-71 | for n >= 3, the answer is the least worst-case number of weighings that finds the counterfeit pearl and whether it is heavy or light |

## Left out

- Floating point at line 57: `ceil(log(m, 3))` is modelled as the exact integer `Powers.CeilLog3(m)`. With the usual IEEE double logarithm the two agree on every population size the search can reach in practice: at exact powers of three the float quotient either is exact (`log(27, 3)` is 3.0) or falls just below the integer (`log(243, 3)` is 4.999999999999999), and `ceil` returns the exact value in both cases. A platform whose logarithm rounded above an integer would make the limit one too large; the model does not cover that possibility.
- Python 2 `defaultdict` iteration order at line 34: the groups of a weighing are listed in the fixed order lighter, balanced, heavier. Only the largest group size and the maximum cost over the groups are used later, and neither depends on the order.
- Generators and laziness (lines 11-20, 38-43, 45-51): the model builds whole sequences and then consumes them. The early exit of `min_with_limit` is modelled by `Solver.MinWithLimit`. The values it would never look at are still defined in the model, which costs nothing in a pure model.
- Solver.Solve: requires n >= 3 and a valid population: non-empty, duplicate-free, and made of one-offset signatures. The source takes any list of signatures of length n. On an empty list `log(0, 3)` at line 57 raises `ValueError`. On a list of two or more signatures that no weighing separates, such as two equal ones, the first `g.next()` at line 46 raises `StopIteration`. Other lists, such as `[(2, 0, 0), (0, 0, 0)]` with n = 3, get an ordinary answer that the model does not cover. Every population the search reaches from `pearl_cutting_sooner` meets the precondition: `Hypotheses.InitialPopulation` gives a valid start, and `Partition.KeptAreBranchings` shows that every kept group is a smaller valid population. `Partition.SplittingWeighingExists` shows that such a population never reaches the `StopIteration` path.
- `sorted` at line 35 is modelled as a stable insertion sort on the largest group size. Stability is not stated. The answer does not depend on the order among equal keys: `Solver.EarlyExitIsFullMinimum` shows that the answer is the full minimum.
- Partition.Group: the definition keeps the configurations in population order, as the appends at line 32 do, but no contract states the order. The answer does not depend on it: only group sizes and the costs of the groups are used later, and `Solver.EarlyExitIsFullMinimum` shows the answer is the full minimum.
- Subsets.Combinations: the definition emits the combinations in the order of `itertools.combinations` (first those that take the first value, then those that skip it), but no contract states the order. The contracts give the count, the content (`Subsets.CombinationsFacts`) and completeness (`Subsets.CombinationsComplete`). The answer does not depend on the enumeration order, by `Solver.EarlyExitIsFullMinimum`.
- Concrete answers for particular n (for instance 3 weighings for 12 pearls): these need the exponential search to be carried out, not a proof about all inputs.
- Running time, memory growth and memoisation: not part of what the program computes.
