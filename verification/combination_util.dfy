/**
 A model of `CombinationUtil.chooseRoutOfN`, the COMBINATIONS-only predecessor of the
 engine.  It wraps, seeds, extends and renders groups exactly as the COMBINATIONS policy of
 `CombinatoricHelperUtil` does, so it reuses that module's definitions, but it has no guard
 on `r`: a non-positive `r` yields the singletons (except `Integer.MIN_VALUE`, which
 wraps around and yields nothing) and an `r` above the input size runs the
 loop until no group can grow, yielding nothing.
 */
module CombinationUtil {
  import opened SortedArrayList
  import opened Positions
  import opened Counting
  import opened CombinatoricHelperUtil
  import opened JavaInt

  /** `CombinationUtil.chooseRoutOfN(collectionIn, r)`. */
  function ChooseRoutOfN(values: seq<int>, r: int): (result: set<seq<int>>)
    ensures forall v :: v in result ==> Sorted(v)
  {
    var n := |values|;
    RemoveWrapperSets(values, SetRounds(SetSingletons(n), n, Decrement(r)))
  }

  /** For `1 <= r <= n` the result holds exactly the sorted `r`-long sequences drawn from the
      input's multiset, as for `CombinatoricHelperUtil` under COMBINATIONS. */
  lemma ChooseMembers(values: seq<int>, r: int, v: seq<int>)
    requires 1 <= r <= |values|
    ensures v in ChooseRoutOfN(values, r) <==> IsCombinationOf(v, values, r)
    ensures ChooseRoutOfN(values, r) == CombinatoricHelperUtil.ChooseRoutOfN(CombinationsPolicy, values, r)
  {
    CombinationsMembers(values, r, v);
  }

  /** Without the guard, an `r <= 0` above `Integer.MIN_VALUE` leaves the starting groups
      untouched: the singletons. */
  lemma NonPositiveSizeGivesSingletons(values: seq<int>, r: int)
    requires IntMin < r <= 0
    ensures ChooseRoutOfN(values, r) == Singletons(values)
  {
    SetSingletonsRender(values);
  }

  /** At `r == Integer.MIN_VALUE`, `r--` wraps to `Integer.MAX_VALUE` and the loop asks for
      more wrappers than the `ArrayList` built by `addWrapper` can hold: the result is empty. */
  lemma MinSizeGivesEmpty(values: seq<int>)
    requires |values| <= IntMax
    ensures ChooseRoutOfN(values, IntMin) == {}
  {
    NoOversizedSubsets(|values|, IntMax + 1);
  }

  /** For `r > n` the loop runs past the point where every group holds all wrappers, and the
      last round finds nothing to add: the result is empty. */
  lemma TooLargeSizeGivesEmpty(values: seq<int>, r: int)
    requires r > |values|
    ensures ChooseRoutOfN(values, r) == {}
  {
    var n := |values|;
    CombinationGroups(n, r);
    SubsetsCount(n, r);
    BinomAboveN(n, r);
    assert Subsets(n, r) == {};
  }

  /** For distinct input values and `1 <= r <= n` there are `C(n, r)` combinations. */
  lemma ChooseCount(values: seq<int>, r: int)
    requires Distinct(values) && 1 <= r <= |values|
    ensures |ChooseRoutOfN(values, r)| == Binom(|values|, r)
  {
    CombinationsCount(values, r);
  }
}
