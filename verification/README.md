# colossaldb combinatoric utilities, modelled in Dafny

This project models the combinatorics core of the `org.colossaldb.util` package.

- **`SortedArrayList`.** An `ArrayList` whose every insertion method (`add`, `add(int, E)`, `addAll`, `addAll(int, Collection)`) performs the plain list insertion and then re-sorts the whole list with `Collections.sort`.
- **`CombinatoricHelperUtil.chooseRoutOfN`.** The engine behind `CombinatoricUtil.combinations` and `CombinatoricUtil.permutations`. It wraps every input element, starts from one singleton group per wrapper, decrements the `int` `r` once, and runs one round per remaining unit of `r`. Each round extends every group with every wrapper the group does not already hold. At the end it maps the wrappers back to their values.
- **`CombinationUtil.chooseRoutOfN`.** The older, COMBINATIONS-only twin of the engine. It has no guard on `r`.
- **`CombinatoricUtil.factorial`.** It computes `n!` in a `long` and refuses negative inputs and any result above `Integer.MAX_VALUE`.

## How the model represents the program

- **Elements.** Elements are `int`. Characters stand for their code points, so `'b' < 'r'`. The comparator is the natural order on `int`. Equal elements cannot be told apart, so the stability of `Collections.sort` does not matter.
- **`SortedArrayList`.** The list is a `seq<int>`. Every insertion method (`add`, `add(int, E)`, `addAll`, `addAll(int, Collection)`) returns the sorted permutation of the old contents plus the new elements. Those that return a `boolean` return an `Update(list, changed)`. The positional variants return `Err(IndexOutOfBounds)` when the index lies outside `0..size`, as `ArrayList` does.
- **Wrappers.** A `ComparableWrapper` does not override `equals` or `hashCode`, so two wrappers are equal only when they are the same object. The model therefore represents a wrapper by its position `0 .. n-1` in the input. Its `holder` is `values[p]`.
- **Groups under COMBINATIONS.** A group is a `set<nat>`, for the `HashSet` of wrappers. `removeWrapper` adds the held values, in the set's iteration order, to a fresh `SortedArrayList`. The model proves that the iteration order cannot matter (`RenderSetOrderFree`).
- **Groups under PERMUTATIONS.** A group is a `seq<nat>`, for the `ArrayList` of wrappers, rendered in selection order. The store of groups is an `ArrayList` in the code and a `set` in the model. Every extension made in a round is a different sequence, so the store never holds a group twice. Only the `HashSet` built by `removeWrapper` reaches the caller.
- **Results.** The result is a `set<seq<int>>`, so groups that render to the same value sequence collapse into one, as they do in the `HashSet`.
- **Positional inserts.** `add(int, E)` and `addAll(int, Collection)` accept any index in `0..size` and then re-sort, so the index never affects the list (`AddAt`, `AddAllAt`).
- **The size `r`.** `r` is a Java `int`, and `r--` is two's-complement subtraction, which takes `Integer.MIN_VALUE` to `Integer.MAX_VALUE` (`JavaInt.Decrement`). The engine's guard is `r == 0 || r > size` (`CombinatoricHelperUtil.java:68`).
  - A negative `r` above `Integer.MIN_VALUE` passes the guard, and the `while (r > 0)` loop never runs. The result is the set of singletons, the same as for `r == 1` (`NegativeSizeActsAsOne`).
  - At `r == Integer.MIN_VALUE` the guard also lets `r` through, but `r--` wraps to `Integer.MAX_VALUE`. The loop then asks for groups of `2^31` distinct wrappers. Before the loop, `addWrapper` copies the input into an `ArrayList` (`CombinatoricHelperUtil.java:141-146`), which cannot hold more than `Integer.MAX_VALUE` elements; a larger input fails there. So for every input that reaches the loop the result is empty (`MinSizeWrapsToEmpty`).
  - `CombinationUtil.chooseRoutOfN` has no guard. It returns the singletons for `Integer.MIN_VALUE < r <= 0`, and nothing at `Integer.MIN_VALUE` or for `r > n`.
  - Values below `Integer.MIN_VALUE` are not Java `int`s. The model's decrement subtracts one from them, and no contract speaks about them.
- **`factorial`.** It returns `Result<int, FactorialError>`. The error is `NegativeInput` for the `UnsupportedOperationException` and `Overflow` for the `RuntimeException`.

Each operation is checked against an independent reference:

- the sorted permutation of a multiset, which is unique (`SortedUnique`);
- the `r`-subsets and the `r`-long ordered selections of the positions;
- the sequences `v` with `multiset(v) <= multiset(values)`;
- the factorial, the binomial coefficient and the falling factorial.

The example modules prove the test vectors of `SortedArrayListTest`, `CombinationUtilTest`, `CombinationsUtilTest` and `PermutationsUtilTest` against the model.

## Model

| member | source | states |
|---|---|---|
| SortedArrayList.Sort | src/org/colossaldb/util/SortedArrayList.java:66-73 | `mySort` yields a sorted list with exactly the multiset of its input (same length, duplicates kept) |
| SortedArrayList.SortedUnique | src/org/colossaldb/util/SortedArrayList.java:66-73 | two sorted lists with the same multiset are equal, so the sorted result is determined by the contents alone |
| SortedArrayList.SortCanonical | src/org/colossaldb/util/SortedArrayList.java:66-73 | sorting depends only on the multiset of the input, not on where elements were inserted |
| SortedArrayList.SortOfSorted | src/org/colossaldb/util/SortedArrayList.java:66-73 | re-sorting an already sorted list leaves it unchanged |
| SortedArrayList.FromBatch | src/org/colossaldb/util/SortedArrayList.java:48-57 | the batch constructors leave a sorted list holding exactly the batch's elements |
| SortedArrayList.Add | src/org/colossaldb/util/SortedArrayList.java:80-85 | `add(e)` leaves a sorted list with one more element, whose multiset is the old one plus `e`, and returns true |
| SortedArrayList.AddAt | src/org/colossaldb/util/SortedArrayList.java:87-91 | `add(index, e)` fails exactly when `index` is outside `0..size`; otherwise it ends in the same list as `add(e)`, whatever the index |
| SortedArrayList.AddAll | src/org/colossaldb/util/SortedArrayList.java:93-98 | `addAll(c)` leaves a sorted list whose multiset is the old one plus `c`, growing by `|c|`, and returns true iff `c` is non-empty |
| SortedArrayList.AddAllAt | src/org/colossaldb/util/SortedArrayList.java:100-105 | `addAll(index, c)` fails exactly when `index` is outside `0..size`; otherwise it equals `addAll(c)` |
| SortedArrayList.AddEach | src/org/colossaldb/util/SortedArrayList.java:80-85 | repeated single `add`s collect all the added elements and leave the list sorted |
| SortedArrayList.AddEachIsAddAll | src/org/colossaldb/util/SortedArrayList.java:93-98 | adding elements one at a time ends in the same list as one `addAll` of them |
| SortedArrayList.AddAllEmpty | src/org/colossaldb/util/SortedArrayList.java:93-98 | `addAll` of an empty collection leaves a sorted list unchanged and returns false |
| SortedArrayList.AddPlacement | src/org/colossaldb/util/SortedArrayList.java:80-85 | a single `add` slides the element in after the elements not larger than it and before those not smaller |
| SortedArrayListExamples.ConstructorExample | test/src/org/colossaldb/util/SortedArrayListTest.java:57-61 | constructing from `[-10, 5, 4, 3, 7, 3]` gives `[-10, 3, 3, 4, 5, 7]` |
| SortedArrayListExamples.AddAllExample | test/src/org/colossaldb/util/SortedArrayListTest.java:20-25 | `addAll([-44, 8, 8, 3, 6])` on that list gives `[-44, -10, 3, 3, 3, 4, 5, 6, 7, 8, 8]` and returns true |
| SortedArrayListExamples.AddAllEmptyExample | test/src/org/colossaldb/util/SortedArrayListTest.java:49-54 | `addAll` of an empty list keeps `[-10, 3, 3, 4, 5, 7]` |
| SortedArrayListExamples.AddFrontExample | test/src/org/colossaldb/util/SortedArrayListTest.java:63-69 | `add(-22)` lands at the front |
| SortedArrayListExamples.AddEndExample | test/src/org/colossaldb/util/SortedArrayListTest.java:71-77 | `add(22)` lands at the end |
| SortedArrayListExamples.AddMiddleExample | test/src/org/colossaldb/util/SortedArrayListTest.java:79-85 | `add(6)` lands between 5 and 7 |
| SortedArrayListExamples.RepeatedAddsMatchBatch | test/src/org/colossaldb/util/SortedArrayListTest.java:88-103 | any run of single adds from the empty list builds the same list as the batch constructor on those values, and reading it back every adjacent pair is non-decreasing |
| JavaInt.Decrement | src/org/colossaldb/util/CombinatoricHelperUtil.java:89 | `r--` on an `int` stays in the `int` range and is congruent to `r - 1` modulo `2^32` |
| CombinatoricHelperUtil.RenderSet | src/org/colossaldb/util/CombinatoricHelperUtil.java:121-131 | a COMBINATIONS group renders as a sorted list of exactly the values its wrappers hold |
| CombinatoricHelperUtil.ChooseRoutOfN | src/org/colossaldb/util/CombinatoricHelperUtil.java:67-112 | `r == 0` or `r > size` gives the empty result; every COMBINATIONS result is sorted |
| CombinatoricHelperUtil.ExtendSetsStep | src/org/colossaldb/util/CombinatoricHelperUtil.java:92-109 | one round turns the `k`-subsets of the wrappers into exactly the `(k+1)`-subsets, adding only wrappers a group lacks |
| CombinatoricHelperUtil.SetSingletonsAreSubsets | src/org/colossaldb/util/CombinatoricHelperUtil.java:83-88 | the starting groups are exactly the one-wrapper subsets |
| CombinatoricHelperUtil.SetRoundsReach | src/org/colossaldb/util/CombinatoricHelperUtil.java:92-109 | after `r` more rounds the `k`-subsets have become exactly the `(k+r)`-subsets |
| CombinatoricHelperUtil.CombinationGroups | src/org/colossaldb/util/CombinatoricHelperUtil.java:83-109 | for `r >= 1` the loop leaves exactly the `r`-subsets of the wrappers: `r` distinct wrappers per group, every such set reached |
| CombinatoricHelperUtil.CombinationsExact | src/org/colossaldb/util/CombinatoricHelperUtil.java:67-131 | the COMBINATIONS result is the set of renderings of the `r`-subsets of positions |
| CombinatoricHelperUtil.RenderSetOrderFree | src/org/colossaldb/util/CombinatoricHelperUtil.java:123-128 | the `HashSet` iteration order used while rendering a group cannot change the rendered list |
| CombinatoricHelperUtil.RenderSetIsCombination | src/org/colossaldb/util/CombinatoricHelperUtil.java:121-131 | rendering `k` wrappers gives a sorted `k`-long sequence drawn from the input's multiset |
| CombinatoricHelperUtil.CombinationsMembers | src/org/colossaldb/util/CombinatoricHelperUtil.java:67-131 | for `1 <= r <= n`, `v` is a COMBINATIONS result iff it is sorted, `r` long and drawn from the input's multiset |
| CombinatoricHelperUtil.RenderSetHas | src/org/colossaldb/util/CombinatoricHelperUtil.java:121-131 | with distinct values, a value occurs in a rendering iff its wrapper is in the group |
| CombinatoricHelperUtil.RenderSetInjective | src/org/colossaldb/util/CombinatoricHelperUtil.java:121-131 | with distinct values, different groups render differently, so the final `HashSet` merges nothing |
| CombinatoricHelperUtil.CombinationsCount | src/org/colossaldb/util/CombinatoricHelperUtil.java:67-131 | with distinct values there are `C(n, r)` COMBINATIONS results |
| CombinatoricHelperUtil.SubsetsCount | src/org/colossaldb/util/CombinatoricHelperUtil.java:92-109 | the groups the loop can reach, the `k`-subsets of `n` wrappers, number `C(n, k)` |
| CombinatoricHelperUtil.ExtendSeqsStep | src/org/colossaldb/util/CombinatoricHelperUtil.java:92-109 | under PERMUTATIONS, one round turns the ordered selections of `k` distinct wrappers into exactly those of `k + 1` |
| CombinatoricHelperUtil.SeqSingletonsAreArrangements | src/org/colossaldb/util/CombinatoricHelperUtil.java:83-88 | the PERMUTATIONS starting groups are exactly the one-wrapper selections |
| CombinatoricHelperUtil.SeqRoundsReach | src/org/colossaldb/util/CombinatoricHelperUtil.java:92-109 | after `r` more rounds the selections of `k` have become exactly the selections of `k + r` |
| CombinatoricHelperUtil.PermutationGroups | src/org/colossaldb/util/CombinatoricHelperUtil.java:34-109 | for `r >= 1` the PERMUTATIONS loop leaves exactly the ordered selections of `r` distinct wrappers |
| CombinatoricHelperUtil.PermutationsExact | src/org/colossaldb/util/CombinatoricHelperUtil.java:67-131 | a PERMUTATIONS result is exactly the values read in order along such a selection |
| CombinatoricHelperUtil.PermutationsMembers | src/org/colossaldb/util/CombinatoricHelperUtil.java:67-131 | for `1 <= r <= n`, `v` is a PERMUTATIONS result iff it is `r` long and drawn from the input's multiset, in any order |
| CombinatoricHelperUtil.ValuesAtInjective | src/org/colossaldb/util/CombinatoricHelperUtil.java:124-127 | with distinct values, different selections read different sequences |
| CombinatoricHelperUtil.ExtendSeqsCount | src/org/colossaldb/util/CombinatoricHelperUtil.java:92-109 | a PERMUTATIONS round multiplies the number of selections of `k` by the `n - k` unused wrappers |
| CombinatoricHelperUtil.PermutationGroupsCount | src/org/colossaldb/util/CombinatoricHelperUtil.java:83-109 | the PERMUTATIONS loop ends with `n (n-1) ... (n-r+1)` groups |
| CombinatoricHelperUtil.PermutationsCount | src/org/colossaldb/util/CombinatoricHelperUtil.java:67-131 | with distinct values there are `n!/(n-r)!` PERMUTATIONS results |
| CombinatoricHelperUtil.SetSingletonsRender | src/org/colossaldb/util/CombinatoricHelperUtil.java:83-88 | the COMBINATIONS starting groups render to one singleton per distinct input value |
| CombinatoricHelperUtil.SeqSingletonsRender | src/org/colossaldb/util/CombinatoricHelperUtil.java:83-88 | the PERMUTATIONS starting groups render to one singleton per distinct input value |
| CombinatoricHelperUtil.NegativeSizeActsAsOne | src/org/colossaldb/util/CombinatoricHelperUtil.java:68-92 | a negative `r` above `Integer.MIN_VALUE` passes the guard and skips the loop: the result is the singletons, equal to the `r == 1` result |
| CombinatoricHelperUtil.NoOversizedSubsets | src/org/colossaldb/util/CombinatoricHelperUtil.java:83-109 | once the loop asks for more than `n` wrappers per group, no COMBINATIONS group is left |
| CombinatoricHelperUtil.NoOversizedArrangements | src/org/colossaldb/util/CombinatoricHelperUtil.java:83-109 | once the loop asks for more than `n` wrappers per group, no PERMUTATIONS group is left |
| CombinatoricHelperUtil.MinSizeWrapsToEmpty | src/org/colossaldb/util/CombinatoricHelperUtil.java:68-109 | at `r == Integer.MIN_VALUE`, `r--` wraps to `Integer.MAX_VALUE` and, for any collection of at most `Integer.MAX_VALUE` elements, the result is empty under either policy |
| CombinatoricHelperUtil.EqualValuesPair | src/org/colossaldb/util/CombinatoricHelperUtil.java:154-166 | wrappers are told apart by identity, so two equal values at different positions yield the pair repeating the value, under either policy |
| CombinationUtil.ChooseRoutOfN | src/org/colossaldb/util/CombinationUtil.java:43-78 | every result of `CombinationUtil.chooseRoutOfN` is sorted |
| CombinationUtil.ChooseMembers | src/org/colossaldb/util/CombinationUtil.java:43-78 | for `1 <= r <= n` the result holds exactly the sorted `r`-long sequences drawn from the input's multiset, and equals the engine's COMBINATIONS result |
| CombinationUtil.NonPositiveSizeGivesSingletons | src/org/colossaldb/util/CombinationUtil.java:50-59 | with no guard, an `r <= 0` above `Integer.MIN_VALUE` leaves the starting singletons as the result |
| CombinationUtil.MinSizeGivesEmpty | src/org/colossaldb/util/CombinationUtil.java:50-75 | at `r == Integer.MIN_VALUE`, `r--` wraps to `Integer.MAX_VALUE` and, for any collection of at most `Integer.MAX_VALUE` elements, the result is empty |
| CombinationUtil.TooLargeSizeGivesEmpty | src/org/colossaldb/util/CombinationUtil.java:59-75 | `r > n` runs the loop until no group can grow: the result is empty |
| CombinationUtil.ChooseCount | src/org/colossaldb/util/CombinationUtil.java:43-78 | with distinct values there are `C(n, r)` results |
| CombinatoricUtil.Combinations | src/org/colossaldb/util/CombinatoricUtil.java:37-39 | `combinations` is empty for `r == 0`, for `r > n` and for `r == Integer.MIN_VALUE` (with at most `Integer.MAX_VALUE` elements), the singletons for `Integer.MIN_VALUE < r < 0`, exactly the sorted `r`-multisubsets for `1 <= r <= n`, and `C(n, r)` of them for distinct values |
| CombinatoricUtil.Permutations | src/org/colossaldb/util/CombinatoricUtil.java:48-50 | `permutations` is empty for `r == 0`, for `r > n` and for `r == Integer.MIN_VALUE` (with at most `Integer.MAX_VALUE` elements), the singletons for `Integer.MIN_VALUE < r < 0`, exactly the `r`-long sequences drawn from the input's multiset for `1 <= r <= n`, and `n!/(n-r)!` of them for distinct values |
| CombinatoricUtil.FactBound | src/org/colossaldb/util/CombinatoricUtil.java:57-61 | `k!` fits in `Integer.MAX_VALUE` iff `k <= 12` |
| CombinatoricUtil.Factorial | src/org/colossaldb/util/CombinatoricUtil.java:52-65 | a negative `n` is refused, `n > 12` overflows, and otherwise the result is `n!`, between 1 and `Integer.MAX_VALUE` |
| Counting.BinomFactorial | test/src/org/colossaldb/util/CombinationsUtilTest.java:38-41 | `C(n, k) k! (n-k)! = n!`, the formula the combinations size test divides out |
| Counting.FallingFactorial | test/src/org/colossaldb/util/PermutationsUtilTest.java:70-78 | `(n!/(n-k)!) (n-k)! = n!`, the product the permutations size test accumulates |
| CombinatoricExamples.CombinationUtilSizes | test/src/org/colossaldb/util/CombinationUtilTest.java:31-40 | `CombinationUtil` picks 9, 36, 84, 126, 126, 84, 36 and 9 groups out of `1 .. 9` |
| CombinatoricExamples.CombinationsSizeByFactorials | test/src/org/colossaldb/util/CombinationsUtilTest.java:35-43 | for distinct values, the number of `combinations` of size `i` times `(n-i)! i!` is `n!` |
| CombinatoricExamples.PermutationsSizeSteps | test/src/org/colossaldb/util/PermutationsUtilTest.java:68-79 | for distinct values, `permutations` has `n` singletons, each further pick multiplies the count by `n - i`, and there are none beyond `n` |
| CombinatoricExamples.PermutationsOfEight | test/src/org/colossaldb/util/PermutationsUtilTest.java:68-79 | `permutations` of `0 .. 7` has 8 singletons, `8!` full orderings, and none of size 9 or 10 |
| RedBlackExamples.CombinationsOneRedBlack | test/src/org/colossaldb/util/CombinationsUtilTest.java:46-50 | `combinations(['r','r','b','b','b'], 1)` is `{[r], [b]}` |
| RedBlackExamples.CombinationsTwoRedBlack | test/src/org/colossaldb/util/CombinationsUtilTest.java:52-54 | `combinations(['r','r','b','b','b'], 2)` is `{[r,r], [b,r], [b,b]}`, each stored sorted |
| RedBlackExamples.CombinationsThreeRedBlack | test/src/org/colossaldb/util/CombinationsUtilTest.java:56-58 | `combinations(['r','r','b','b','b'], 3)` is `{[b,r,r], [b,b,r], [b,b,b]}` |
| RedBlackExamples.ChooseOneRedBlack | test/src/org/colossaldb/util/CombinationUtilTest.java:43-52 | `CombinationUtil.chooseRoutOfN(['r','r','b','b','b'], 1)` is `{[r], [b]}` |
| RedBlackExamples.ChooseTwoRedBlack | test/src/org/colossaldb/util/CombinationUtilTest.java:54-67 | `CombinationUtil.chooseRoutOfN(['r','r','b','b','b'], 2)` is `{[r,r], [b,r], [b,b]}` |
| RedBlackExamples.PermutationsOneRedBlack | test/src/org/colossaldb/util/PermutationsUtilTest.java:82-90 | `permutations(['r','r','b','b','b'], 1)` is `{[r], [b]}` |
| RedBlackExamples.PermutationsTwoRedBlack | test/src/org/colossaldb/util/PermutationsUtilTest.java:92-97 | `permutations(['r','r','b','b','b'], 2)` holds all four colour pairs |
| RedBlackExamples.PermutationsThreeRedBlack | test/src/org/colossaldb/util/PermutationsUtilTest.java:99-105 | `permutations(['r','r','b','b','b'], 3)` holds the seven colour triples, every one except three reds |

## Left out

- **Null elements.** Null elements and the null-related behaviour of `SortedArrayList` are not modelled, because `int` has no null. `add(null)` on a non-empty list appends and then fails inside the sort. On an empty list it succeeds, because sorting one element compares nothing. `addAll(null)` fails inside `ArrayList`. The unit test expecting `addAll(null)` to be a no-op is not modelled.
- **The comparator.** The comparator parameter and the unchecked `Comparable` cast in `mySort` are not modelled, nor is its `ClassCastException`. The model fixes the natural order on `int`.
- **`hashCode`.** The `hashCode` override and the `HashSet` hashing mechanics are replaced by Dafny set and sequence equality.
- **Iteration order.** The iteration order of the intermediate collections is not modelled. The model proves that it cannot affect a COMBINATIONS rendering. A PERMUTATIONS rendering follows selection order, which the model keeps.
- **`ComparableWrapper.compareTo`.** It is never called, because wrappers live only in `HashSet`s and `ArrayList`s.
- **The PERMUTATIONS store.** It is an `ArrayList` in the code and a set in the model. Its groups are pairwise distinct and are collected into a `HashSet` at the end, so no observable result changes.
- **Java integer widths.** Two places model the width explicitly. In `factorial`, the `long` accumulator and the `Integer.MAX_VALUE` bound are written out. For `r`, the wrapping `r--` is written out. Element values are unbounded `int`s in the model. Collection sizes are unbounded too, and the lemmas about `Integer.MIN_VALUE` assume at most `Integer.MAX_VALUE` elements, because `addWrapper` copies the input into an `ArrayList`, which cannot grow past that (`CombinatoricHelperUtil.java:141-146`, `CombinationUtil.java:107-113`). A larger input fails there, after the guard, and the model does not describe that failure.
- **Inherited mutators.** `set`, `replaceAll`, `sort(Comparator)` and the removal methods come from `ArrayList` unchanged and never re-sort. The first three can leave the list unsorted. They are not modelled, and the lemmas that need a sorted list (`AddAllEmpty`, `AddEachIsAddAll`, `AddPlacement`) require one.
- **Performance.** The cost of append-and-re-sort, the `testSpeed` timings, and the logging and console output are not modelled.
- **`FileUtil`.** `FileUtil` and its tests do `Reader` I/O and are not part of this model.
- **The reference enumeration in the tests.** `makeExpectedOutput` is not part of this model. The model proves the results against its own reference enumerations instead: the `r`-subsets and ordered selections of the positions, and the sorted multisubsets of the input.
