/**
 A model of `CombinatoricHelperUtil.chooseRoutOfN`, the enumeration engine
 behind `CombinatoricUtil.combinations` and `CombinatoricUtil.permutations`.

 Every input element is wrapped (a wrapper is its position, see `Positions`).
 The engine starts from one singleton group per wrapper and then, once per
 remaining pick, extends every group with every wrapper not already in it.
 The policy object decides what a group is: the COMBINATIONS instance keeps
 groups (and the store of groups) in `HashSet`s, the PERMUTATIONS instance in
 `ArrayList`s.  Finally `removeWrapper` maps positions back to values: into a
 `SortedArrayList` for COMBINATIONS, in selection order for PERMUTATIONS, and
 collects the rendered groups in a `HashSet`, so groups carrying equal value
 sequences collapse into one.
 */
module CombinatoricHelperUtil {
  import opened SortedArrayList
  import opened Positions
  import opened Counting
  import opened JavaInt

  /** The two policy instances, `COMBINATIONS` and `PERMUTATIONS`. */
  datatype Policy = CombinationsPolicy | PermutationsPolicy

  // ---------------------------------------------------------------------
  // COMBINATIONS: a group is a HashSet of wrappers

  /** One round of the loop: every group plus every wrapper it does not contain. */
  function ExtendSets(groups: set<set<nat>>, n: nat): set<set<nat>> {
    set g, p | g in groups && p in Range(n) && p !in g :: g + {p}
  }

  /** The starting groups: a fresh `HashSet` holding one wrapper, for each wrapper. */
  function SetSingletons(n: nat): set<set<nat>> {
    ExtendSets({{}}, n)
  }

  /** The `while (r > 0) { ...; r-- }` loop over set groups. */
  function SetRounds(groups: set<set<nat>>, n: nat, r: int): set<set<nat>>
    decreases r
  {
    if r > 0 then SetRounds(ExtendSets(groups, n), n, r - 1) else groups
  }

  /** `removeWrapper` for one set group: add each wrapped value to a fresh `SortedArrayList`. */
  function RenderSet(values: seq<int>, g: set<nat>): (v: seq<int>)
    ensures Sorted(v)
    ensures multiset(v) == multiset(ValuesAt(values, Enumerate(g, |values|)))
  {
    AddEach([], ValuesAt(values, Enumerate(g, |values|)))
  }

  /** `removeWrapper` for the COMBINATIONS store. */
  function RemoveWrapperSets(values: seq<int>, groups: set<set<nat>>): set<seq<int>> {
    set g | g in groups :: RenderSet(values, g)
  }

  // ---------------------------------------------------------------------
  // PERMUTATIONS: a group is an ArrayList of wrappers

  /** The starting groups: one `ArrayList` holding each wrapper. */
  function SeqSingletons(n: nat): (groups: set<seq<nat>>)
    ensures forall g :: g in groups ==> InRange(g, n)
  {
    set p | p in Range(n) :: [p]
  }

  /** One round of the loop: every group followed by every wrapper it does not contain. */
  function ExtendSeqs(groups: set<seq<nat>>, n: nat): (next: set<seq<nat>>)
    ensures (forall g :: g in groups ==> InRange(g, n)) ==> forall g :: g in next ==> InRange(g, n)
  {
    set g, p | g in groups && p in Range(n) && p !in g :: g + [p]
  }

  /** The `while (r > 0) { ...; r-- }` loop over sequence groups. */
  function SeqRounds(groups: set<seq<nat>>, n: nat, r: int): (last: set<seq<nat>>)
    ensures (forall g :: g in groups ==> InRange(g, n)) ==> forall g :: g in last ==> InRange(g, n)
    decreases r
  {
    if r > 0 then SeqRounds(ExtendSeqs(groups, n), n, r - 1) else groups
  }

  /** `removeWrapper` for the PERMUTATIONS store: each group's values in selection order. */
  function RemoveWrapperSeqs(values: seq<int>, groups: set<seq<nat>>): set<seq<int>>
    requires forall g :: g in groups ==> InRange(g, |values|)
  {
    set g | g in groups :: ValuesAt(values, g)
  }

  // ---------------------------------------------------------------------
  // The engine

  /** `chooseRoutOfN(util, collectionIn, r)`; the first `r--` is the `int` decrement. */
  function ChooseRoutOfN(policy: Policy, values: seq<int>, r: int): (result: set<seq<int>>)
    ensures r == 0 || r > |values| ==> result == {}
    ensures policy == CombinationsPolicy ==> forall v :: v in result ==> Sorted(v)
  {
    if r == 0 || r > |values| then {}
    else
      var n := |values|;
      match policy
      case CombinationsPolicy => RemoveWrapperSets(values, SetRounds(SetSingletons(n), n, Decrement(r)))
      case PermutationsPolicy => RemoveWrapperSeqs(values, SeqRounds(SeqSingletons(n), n, Decrement(r)))
  }

  // ---------------------------------------------------------------------
  // Reference enumeration of the r-subsets of positions

  /** `g` is a `k`-element set of positions below `n`. */
  predicate IsSubsetOfSize(g: set<nat>, n: nat, k: nat) {
    (forall p :: p in g ==> p < n) && |g| == k
  }

  /** Each member of `family` with `x` added. */
  function AddToEach(family: set<set<nat>>, x: nat): set<set<nat>> {
    set g | g in family :: g + {x}
  }

  /** The `k`-subsets of the positions `0 .. n-1`. */
  function Subsets(n: nat, k: nat): (family: set<set<nat>>)
    ensures forall g :: g in family <==> IsSubsetOfSize(g, n, k)
  {
    set g | g <= Range(n) && |g| == k
  }

  /** Every `k`-subset of `0 .. n-1` either avoids `n-1` or is a `(k-1)`-subset of `0 .. n-2`
      plus `n-1`. */
  lemma SubsetsPascalCover(n: nat, k: nat)
    requires n > 0 && k > 0
    ensures Subsets(n, k) <= Subsets(n - 1, k) + AddToEach(Subsets(n - 1, k - 1), n - 1)
  {
    forall g | g in Subsets(n, k)
      ensures g in Subsets(n - 1, k) + AddToEach(Subsets(n - 1, k - 1), n - 1)
    {
      if n - 1 in g {
        var h := g - {n - 1};
        assert g == h + {n - 1};
        assert h in Subsets(n - 1, k - 1);
      } else {
        assert g in Subsets(n - 1, k);
      }
    }
  }

  /** Adding `n-1` to a `(k-1)`-subset of `0 .. n-2` gives a `k`-subset of `0 .. n-1`. */
  lemma SubsetsPascalWith(n: nat, k: nat)
    requires n > 0 && k > 0
    ensures AddToEach(Subsets(n - 1, k - 1), n - 1) <= Subsets(n, k)
  {
    forall g | g in AddToEach(Subsets(n - 1, k - 1), n - 1)
      ensures g in Subsets(n, k)
    {
      var h :| h in Subsets(n - 1, k - 1) && g == h + {n - 1};
      assert n - 1 !in h;
    }
  }

  /** Pascal's rule on the subsets themselves: those without `n-1` and those with it. */
  lemma SubsetsPascal(n: nat, k: nat)
    requires n > 0 && k > 0
    ensures Subsets(n, k) == Subsets(n - 1, k) + AddToEach(Subsets(n - 1, k - 1), n - 1)
  {
    SubsetsPascalCover(n, k);
    SubsetsPascalWith(n, k);
    assert Subsets(n - 1, k) <= Subsets(n, k);
  }

  /** Two disjoint parts add up. */
  lemma DisjointUnionCard<T>(all: set<T>, a: set<T>, b: set<T>)
    requires all == a + b && a * b == {}
    ensures |all| == |a| + |b|
  {
    assert |a + b| + |a * b| == |a| + |b|;
  }

  /** Adding a position no member holds does not merge members. */
  lemma AddToEachCard(family: set<set<nat>>, x: nat)
    requires forall g :: g in family ==> x !in g
    ensures |AddToEach(family, x)| == |family|
  {
    var f := g => g + {x};
    forall g, h | g in family && h in family && f(g) == f(h)
      ensures g == h
    {
      assert g == f(g) - {x};
      assert h == f(h) - {x};
    }
    assert InjectiveOn(family, f);
    InjectiveImageCard(family, f);
    assert AddToEach(family, x) == Image(family, f);
  }

  /** The two parts of Pascal's split are disjoint, and adding `n-1` to the `(k-1)`-subsets
      of `0 .. n-2` keeps them apart. */
  lemma SubsetsSplitCard(n: nat, k: nat)
    requires n > 0 && k > 0
    ensures |Subsets(n, k)| == |Subsets(n - 1, k)| + |Subsets(n - 1, k - 1)|
  {
    var without := Subsets(n - 1, k);
    var family := Subsets(n - 1, k - 1);
    var with := AddToEach(family, n - 1);
    assert |with| == |family| by {
      AddToEachCard(family, n - 1);
    }
    assert without * with == {} by {
      forall g | g in without
        ensures g !in with
      {
        assert n - 1 !in g;
      }
    }
    SubsetsPascal(n, k);
    DisjointUnionCard(Subsets(n, k), without, with);
  }

  /** The only subset of size zero is the empty one. */
  lemma SubsetsOfSizeZero(n: nat)
    ensures Subsets(n, 0) == {{}}
  {
    forall g | g in Subsets(n, 0)
      ensures g == {}
    {
    }
  }

  /** No position set below 0 has a positive size. */
  lemma SubsetsOfNothing(k: nat)
    requires k > 0
    ensures Subsets(0, k) == {}
  {
    assert Range(0) == {};
    if g :| g in Subsets(0, k) {
      assert false;
    }
  }

  /** Pascal's rule carries the count from `n - 1` positions to `n`. */
  lemma SubsetsPascalCount(n: nat, k: nat)
    requires n > 0 && k > 0
    requires |Subsets(n - 1, k)| == Binom(n - 1, k)
    requires |Subsets(n - 1, k - 1)| == Binom(n - 1, k - 1)
    ensures |Subsets(n, k)| == Binom(n, k)
  {
    SubsetsSplitCard(n, k);
  }

  /** There are `C(n, k)` subsets of size `k`. */
  lemma {:induction false} SubsetsCount(n: nat, k: nat)
    ensures |Subsets(n, k)| == Binom(n, k)
  {
    if k == 0 {
      SubsetsOfSizeZero(n);
      assert |Subsets(n, k)| == 1;
    } else if n == 0 {
      SubsetsOfNothing(k);
    } else {
      SubsetsCount(n - 1, k);
      SubsetsCount(n - 1, k - 1);
      SubsetsPascalCount(n, k);
    }
  }

  /** Every group after a round is an earlier group plus one wrapper it did not hold. */
  lemma ExtendedFrom(groups: set<set<nat>>, n: nat, h: set<nat>)
    requires h in ExtendSets(groups, n)
    ensures exists p :: p in h && p < n && h - {p} in groups
  {
  }

  /** One round turns the `k`-subsets into the `(k+1)`-subsets. */
  lemma ExtendSetsStep(n: nat, k: nat)
    ensures ExtendSets(Subsets(n, k), n) == Subsets(n, k + 1)
  {
    forall h | h in ExtendSets(Subsets(n, k), n)
      ensures h in Subsets(n, k + 1)
    {
      ExtendedSubset(n, k, k + 1, h);
    }
    forall h | h in Subsets(n, k + 1)
      ensures h in ExtendSets(Subsets(n, k), n)
    {
      SubsetExtended(n, k, k + 1, h);
    }
  }

  /** A `k`-subset plus a position it lacks is a `(k+1)`-subset. */
  lemma ExtendedSubset(n: nat, k: nat, j: nat, h: set<nat>)
    requires j == k + 1
    requires h in ExtendSets(Subsets(n, k), n)
    ensures IsSubsetOfSize(h, n, j)
  {
    ExtendedFrom(Subsets(n, k), n, h);
    var p :| p in h && p < n && h - {p} in Subsets(n, k);
    var g := h - {p};
    assert h == g + {p};
    assert |h| == |g| + 1;
  }

  /** Every `(k+1)`-subset is a `k`-subset plus a position it lacks. */
  lemma SubsetExtended(n: nat, k: nat, j: nat, h: set<nat>)
    requires j == k + 1
    requires IsSubsetOfSize(h, n, j)
    ensures h in ExtendSets(Subsets(n, k), n)
  {
    var p :| p in h;
    var g := h - {p};
    assert h == g + {p};
    assert g in Subsets(n, k);
  }

  /** The starting groups are the 1-subsets. */
  lemma SetSingletonsAreSubsets(n: nat)
    ensures SetSingletons(n) == Subsets(n, 1)
  {
    assert Subsets(n, 0) == {{}};
    ExtendSetsStep(n, 0);
  }

  /** After `r` rounds the `k`-subsets have become the `m`-subsets, `m = k + r`. */
  lemma {:induction false} SetRoundsReach(n: nat, k: nat, r: nat, m: nat)
    requires m == k + r
    ensures SetRounds(Subsets(n, k), n, r) == Subsets(n, m)
    decreases r
  {
    if r > 0 {
      ExtendSetsStep(n, k);
      SetRoundsReach(n, k + 1, r - 1, m);
      assert SetRounds(Subsets(n, k), n, r) == SetRounds(Subsets(n, k + 1), n, r - 1);
    }
  }

  /** For `r >= 1`, the loop leaves exactly the `r`-subsets of the positions: every group
      holds `r` distinct wrappers, and every such set of wrappers is reached. */
  lemma CombinationGroups(n: nat, r: int)
    requires r >= 1
    ensures SetRounds(SetSingletons(n), n, r - 1) == Subsets(n, r)
  {
    SetSingletonsAreSubsets(n);
    SetRoundsReach(n, 1, r - 1, r);
  }

  /** COMBINATIONS returns exactly the sorted value sequences of the `r`-subsets of positions. */
  lemma CombinationsExact(values: seq<int>, r: int)
    requires 1 <= r <= |values|
    ensures ChooseRoutOfN(CombinationsPolicy, values, r) == RemoveWrapperSets(values, Subsets(|values|, r))
  {
    CombinationGroups(|values|, r);
  }

  /** The order in which a `HashSet` group is iterated does not change its rendering. */
  lemma RenderSetOrderFree(values: seq<int>, g: set<nat>, ps: seq<nat>)
    requires Distinct(ps) && InRange(ps, |values|)
    requires forall p :: p in ps <==> p in g
    ensures AddEach([], ValuesAt(values, ps)) == RenderSet(values, g)
  {
    var e := Enumerate(g, |values|);
    EnumerateDistinct(g, |values|);
    SameElementsPermutation(ps, e);
    ValuesAtPermutation(values, ps, e);
    SortedUnique(AddEach([], ValuesAt(values, ps)), RenderSet(values, g));
  }

  /** `v` is a possible `r`-combination of the input values: sorted, `r` long, and drawn from
      the input's multiset (a value may be used as often as it occurs). */
  predicate IsCombinationOf(v: seq<int>, values: seq<int>, r: int) {
    Sorted(v) && |v| == r && multiset(v) <= multiset(values)
  }

  /** The rendering of a set of `k` positions is a sorted sequence of `k` input values. */
  lemma RenderSetIsCombination(values: seq<int>, g: set<nat>, k: nat)
    requires IsSubsetOfSize(g, |values|, k)
    ensures IsCombinationOf(RenderSet(values, g), values, k)
  {
    EnumerateCard(g, |values|);
    EnumeratedValuesSubMultiset(values, g);
    assert |RenderSet(values, g)| == |multiset(RenderSet(values, g))|;
  }

  /** The COMBINATIONS result holds exactly the possible `r`-combinations of the input values. */
  lemma CombinationsMembers(values: seq<int>, r: int, v: seq<int>)
    requires 1 <= r <= |values|
    ensures v in ChooseRoutOfN(CombinationsPolicy, values, r) <==> IsCombinationOf(v, values, r)
  {
    var n := |values|;
    CombinationsExact(values, r);
    if v in ChooseRoutOfN(CombinationsPolicy, values, r) {
      var g :| g in Subsets(n, r) && v == RenderSet(values, g);
      RenderSetIsCombination(values, g, r);
    }
    if IsCombinationOf(v, values, r) {
      var g := PositionsFor(values, multiset(v));
      EnumerateCard(g, n);
      assert |g| == |multiset(v)| == r;
      assert g in Subsets(n, r);
      SortedUnique(RenderSet(values, g), v);
    }
  }

  /** With distinct input values, a value occurs in a rendering iff its position is in the group. */
  lemma RenderSetHas(values: seq<int>, g: set<nat>, p: nat)
    requires Distinct(values) && p < |values|
    ensures values[p] in RenderSet(values, g) <==> p in g
  {
    var w := ValuesAt(values, Enumerate(g, |values|));
    assert values[p] in RenderSet(values, g) <==> values[p] in multiset(w);
    if p in g {
      EnumeratedValueOf(values, g, p);
    }
    if values[p] in multiset(w) {
      EnumeratedPositionOf(values, g, p);
    }
  }

  /** A member position's value is among the enumerated values. */
  lemma EnumeratedValueOf(values: seq<int>, g: set<nat>, p: nat)
    requires p < |values| && p in g
    ensures values[p] in multiset(ValuesAt(values, Enumerate(g, |values|)))
  {
    var e := Enumerate(g, |values|);
    var i :| 0 <= i < |e| && e[i] == p;
    assert ValuesAt(values, e)[i] == values[p];
  }

  /** With distinct input values, a value among the enumerated ones comes from a member. */
  lemma EnumeratedPositionOf(values: seq<int>, g: set<nat>, p: nat)
    requires Distinct(values) && p < |values|
    requires values[p] in multiset(ValuesAt(values, Enumerate(g, |values|)))
    ensures p in g
  {
    var e := Enumerate(g, |values|);
    var w := ValuesAt(values, e);
    var i :| 0 <= i < |w| && w[i] == values[p];
    assert values[e[i]] == values[p];
    assert e[i] == p;
  }

  /** With distinct input values, different position sets render differently. */
  lemma RenderSetInjective(values: seq<int>, g: set<nat>, h: set<nat>)
    requires Distinct(values)
    requires forall p :: p in g ==> p < |values|
    requires forall p :: p in h ==> p < |values|
    requires RenderSet(values, g) == RenderSet(values, h)
    ensures g == h
  {
    forall p | p in g
      ensures p in h
    {
      RenderSetHas(values, g, p);
      RenderSetHas(values, h, p);
    }
    forall p | p in h
      ensures p in g
    {
      RenderSetHas(values, g, p);
      RenderSetHas(values, h, p);
    }
  }

  /** With distinct input values, rendering a family of position sets loses none of them. */
  lemma RemoveWrapperSetsCard(values: seq<int>, family: set<set<nat>>)
    requires Distinct(values)
    requires forall g, p :: g in family && p in g ==> p < |values|
    ensures |RemoveWrapperSets(values, family)| == |family|
  {
    var render := g => RenderSet(values, g);
    assert InjectiveOn(family, render) by {
      forall g, h | g in family && h in family && render(g) == render(h)
        ensures g == h
      {
        RenderSetInjective(values, g, h);
      }
    }
    InjectiveImageCard(family, render);
    assert RemoveWrapperSets(values, family) == Image(family, render);
  }

  /** For distinct input values there are `C(n, r)` combinations. */
  lemma CombinationsCount(values: seq<int>, r: int)
    requires Distinct(values) && 1 <= r <= |values|
    ensures |ChooseRoutOfN(CombinationsPolicy, values, r)| == Binom(|values|, r)
  {
    CombinationsExact(values, r);
    SubsetsCount(|values|, r);
    RemoveWrapperSetsCard(values, Subsets(|values|, r));
  }

  // ---------------------------------------------------------------------
  // PERMUTATIONS: the groups are the ordered selections of distinct positions

  /** `g` is an ordered selection of `k` distinct positions below `n`. */
  predicate IsArrangement(g: seq<nat>, n: nat, k: nat) {
    |g| == k && InRange(g, n) && Distinct(g)
  }

  /** Every group after a round is an earlier group followed by one wrapper it did not hold. */
  lemma ExtendedSeqFrom(groups: set<seq<nat>>, n: nat, h: seq<nat>)
    requires h in ExtendSeqs(groups, n)
    ensures |h| > 0 && h[..|h| - 1] in groups
    ensures h[|h| - 1] < n && h[|h| - 1] !in h[..|h| - 1]
  {
    var g :| g in groups && exists p :: p in Range(n) && p !in g && h == g + [p];
    var p :| p in Range(n) && p !in g && h == g + [p];
    assert h[..|h| - 1] == g;
  }

  /** Appending a fresh position to a selection of `k` gives a selection of `k + 1`, and every
      selection of `k + 1` arises so. */
  lemma {:induction false} ArrangementSnoc(h: seq<nat>, n: nat, k: nat)
    requires |h| == k + 1
    ensures IsArrangement(h, n, k + 1) <==>
      IsArrangement(h[..k], n, k) && h[k] < n && h[k] !in h[..k]
  {
    var g := h[..k];
    if IsArrangement(g, n, k) && h[k] < n && h[k] !in g {
      forall i, j | 0 <= i < j < |h|
        ensures h[i] != h[j]
      {
        if j == k {
          assert h[i] == g[i];
        } else {
          assert h[i] == g[i] && h[j] == g[j];
        }
      }
    }
  }

  /** One round turns the selections of `k` into the selections of `k + 1`. */
  lemma ExtendSeqsStep(groups: set<seq<nat>>, n: nat, k: nat)
    requires forall g :: g in groups <==> IsArrangement(g, n, k)
    ensures forall h :: h in ExtendSeqs(groups, n) <==> IsArrangement(h, n, k + 1)
  {
    forall h
      ensures h in ExtendSeqs(groups, n) <==> IsArrangement(h, n, k + 1)
    {
      if h in ExtendSeqs(groups, n) {
        ExtendedSeqFrom(groups, n, h);
        ArrangementSnoc(h, n, k);
      }
      if IsArrangement(h, n, k + 1) {
        ArrangementSnoc(h, n, k);
        var g, p := h[..k], h[k];
        assert h == g + [p];
        assert g in groups && p in Range(n) && p !in g;
      }
    }
  }

  /** The starting groups are the selections of one position. */
  lemma SeqSingletonsAreArrangements(n: nat)
    ensures forall g :: g in SeqSingletons(n) <==> IsArrangement(g, n, 1)
  {
    forall g
      ensures g in SeqSingletons(n) <==> IsArrangement(g, n, 1)
    {
      if IsArrangement(g, n, 1) {
        assert g == [g[0]] && g[0] in Range(n);
      }
    }
  }

  /** After `r` rounds the selections of `k` have become the selections of `m = k + r`. */
  lemma {:induction false} SeqRoundsReach(groups: set<seq<nat>>, n: nat, k: nat, r: nat, m: nat)
    requires m == k + r
    requires forall g :: g in groups <==> IsArrangement(g, n, k)
    ensures forall h :: h in SeqRounds(groups, n, r) <==> IsArrangement(h, n, m)
    decreases r
  {
    if r > 0 {
      ExtendSeqsStep(groups, n, k);
      SeqRoundsReach(ExtendSeqs(groups, n), n, k + 1, r - 1, m);
    }
  }

  /** For `r >= 1`, the loop leaves exactly the ordered selections of `r` distinct wrappers. */
  lemma PermutationGroups(n: nat, r: int)
    requires r >= 1
    ensures forall g :: g in SeqRounds(SeqSingletons(n), n, r - 1) <==> IsArrangement(g, n, r)
  {
    SeqSingletonsAreArrangements(n);
    SeqRoundsReach(SeqSingletons(n), n, 1, r - 1, r);
  }

  /** PERMUTATIONS returns exactly the input values read along the ordered selections of `r`
      distinct positions. */
  lemma PermutationsExact(values: seq<int>, r: int, v: seq<int>)
    requires 1 <= r <= |values|
    ensures v in ChooseRoutOfN(PermutationsPolicy, values, r) <==>
      exists g :: IsArrangement(g, |values|, r) && v == ValuesAt(values, g)
  {
    PermutationGroups(|values|, r);
  }

  /** The values read along a selection are drawn from the input's multiset. */
  lemma ArrangementValuesSubMultiset(values: seq<int>, g: seq<nat>, k: nat)
    requires IsArrangement(g, |values|, k)
    ensures multiset(ValuesAt(values, g)) <= multiset(values)
  {
    var e := Enumerate(Elems(g), |values|);
    EnumerateDistinct(Elems(g), |values|);
    SameElementsPermutation(g, e);
    ValuesAtPermutation(values, g, e);
    EnumeratedValuesSubMultiset(values, Elems(g));
  }

  /** The PERMUTATIONS result holds exactly the `r`-long sequences drawn from the input's
      multiset, in any order. */
  lemma PermutationsMembers(values: seq<int>, r: int, v: seq<int>)
    requires 1 <= r <= |values|
    ensures v in ChooseRoutOfN(PermutationsPolicy, values, r) <==>
      |v| == r && multiset(v) <= multiset(values)
  {
    var n := |values|;
    PermutationsExact(values, r, v);
    if v in ChooseRoutOfN(PermutationsPolicy, values, r) {
      var g :| IsArrangement(g, n, r) && v == ValuesAt(values, g);
      ArrangementValuesSubMultiset(values, g, r);
    }
    if |v| == r && multiset(v) <= multiset(values) {
      var positions := PositionsFor(values, multiset(v));
      var e := Enumerate(positions, n);
      EnumerateDistinct(positions, n);
      var g := Rearrange(values, e, v);
      assert IsArrangement(g, n, r);
    }
  }

  /** With distinct input values, different selections read different sequences. */
  lemma ValuesAtInjective(values: seq<int>, g: seq<nat>, h: seq<nat>)
    requires Distinct(values) && InRange(g, |values|) && InRange(h, |values|) && |g| == |h|
    requires ValuesAt(values, g) == ValuesAt(values, h)
    ensures g == h
  {
    forall i | 0 <= i < |g|
      ensures g[i] == h[i]
    {
      assert values[g[i]] == values[h[i]];
    }
  }

  /** The last round's selections are the earlier round's, each extended once more. */
  lemma {:induction false} SeqRoundsLast(groups: set<seq<nat>>, n: nat, r: nat)
    requires r >= 1
    ensures SeqRounds(groups, n, r) == ExtendSeqs(SeqRounds(groups, n, r - 1), n)
    decreases r
  {
    if r > 1 {
      SeqRoundsLast(ExtendSeqs(groups, n), n, r - 1);
    }
  }

  /** The extensions of one selection `g`: `g` followed by each position it does not hold. */
  lemma ExtensionsOfOne(g: seq<nat>, n: nat, k: nat)
    requires k <= n && IsArrangement(g, n, k)
    ensures |Image(Range(n) - Elems(g), p => g + [p])| == n - k
  {
    var free := Range(n) - Elems(g);
    DistinctCard(g);
    assert Elems(g) <= Range(n);
    assert |free| == n - k;
    var f := p => g + [p];
    assert InjectiveOn(free, f) by {
      forall p, q | p in free && q in free && f(p) == f(q)
        ensures p == q
      {
        assert f(p)[k] == p && f(q)[k] == q;
      }
    }
    InjectiveImageCard(free, f);
  }

  lemma Scale(a: int, b: int, c: int)
    requires a == b
    ensures a * c == b * c
  {
  }

  /** Adding a disjoint block of `b` to `a` blocks of `b` makes `c = a + 1` blocks. */
  lemma CountStep<T>(all: set<T>, rest: set<T>, own: set<T>, a: nat, b: nat, c: nat)
    requires all == rest + own && rest * own == {}
    requires |rest| == a * b && |own| == b && c == a + 1
    ensures |all| == c * b
  {
    assert |rest + own| + |rest * own| == |rest| + |own|;
    assert c * b == a * b + b;
  }

  /** Splitting one selection `g` off the groups splits a round's output into the extensions
      of the rest and the extensions of `g`, and no extension is both. */
  lemma ExtendSeqsSplit(groups: set<seq<nat>>, g: seq<nat>, n: nat)
    requires g in groups
    ensures ExtendSeqs(groups, n) ==
      ExtendSeqs(groups - {g}, n) + Image(Range(n) - Elems(g), p => g + [p])
    ensures ExtendSeqs(groups - {g}, n) * Image(Range(n) - Elems(g), p => g + [p]) == {}
  {
    var rest := groups - {g};
    var own := Image(Range(n) - Elems(g), p => g + [p]);
    assert ExtendSeqs(groups, n) <= ExtendSeqs(rest, n) + own by {
      forall h | h in ExtendSeqs(groups, n)
        ensures h in ExtendSeqs(rest, n) + own
      {
        ExtendedSeqFrom(groups, n, h);
        var p := h[|h| - 1];
        assert h == h[..|h| - 1] + [p];
        if h[..|h| - 1] == g {
          assert p in Range(n) - Elems(g);
        } else {
          assert h[..|h| - 1] in rest && p in Range(n);
        }
      }
    }
    assert own <= ExtendSeqs(groups, n) by {
      forall h | h in own
        ensures h in ExtendSeqs(groups, n)
      {
        var p :| p in Range(n) - Elems(g) && h == g + [p];
        assert g in groups && p in Range(n) && p !in g;
      }
    }
    assert ExtendSeqs(rest, n) * own == {} by {
      forall h | h in own
        ensures h !in ExtendSeqs(rest, n)
      {
        var p :| p in Range(n) - Elems(g) && h == g + [p];
        if h in ExtendSeqs(rest, n) {
          ExtendedSeqFrom(rest, n, h);
        }
      }
    }
  }

  /** A round multiplies the number of selections of `k` by the `n - k` wrappers left over. */
  lemma {:induction false} ExtendSeqsCount(groups: set<seq<nat>>, n: nat, k: nat)
    requires k <= n
    requires forall g :: g in groups ==> IsArrangement(g, n, k)
    ensures |ExtendSeqs(groups, n)| == |groups| * (n - k)
    decreases groups
  {
    if groups == {} {
      assert ExtendSeqs(groups, n) == {};
    } else {
      var g :| g in groups;
      var rest := groups - {g};
      ExtensionsOfOne(g, n, k);
      ExtendSeqsCount(rest, n, k);
      ExtendSeqsSplit(groups, g, n);
      assert |groups| == |rest| + 1;
      CountStep(ExtendSeqs(groups, n), ExtendSeqs(rest, n), Image(Range(n) - Elems(g), p => g + [p]),
                |rest|, n - k, |groups|);
    }
  }

  /** There are `n` one-wrapper selections to start from. */
  lemma SeqSingletonsCount(n: nat)
    ensures |SeqSingletons(n)| == n
  {
    assert SeqSingletons(n) == Image(Range(n), p => [p]);
    assert InjectiveOn(Range(n), p => [p]) by {
      forall p, q | p in Range(n) && q in Range(n) && [p] == [q]
        ensures p == q
      {
        assert [p][0] == p && [q][0] == q;
      }
    }
    InjectiveImageCard(Range(n), p => [p]);
  }

  /** One more round turns the `n (n-1) ... (n-k+1)` selections of `k` into those of `j = k + 1`. */
  lemma PermutationRoundCount(n: nat, k: nat, j: nat)
    requires k >= 1 && j == k + 1
    requires |SeqRounds(SeqSingletons(n), n, k - 1)| == Falling(n, k)
    ensures |SeqRounds(SeqSingletons(n), n, k)| == Falling(n, j)
  {
    var before := SeqRounds(SeqSingletons(n), n, k - 1);
    var after := SeqRounds(SeqSingletons(n), n, k);
    SeqRoundsLast(SeqSingletons(n), n, k);
    FallingStep(n, k, j);
    if k <= n {
      RoundWithin(n, k, before, after);
      RoundArith(|after|, |before|, Falling(n, k), n - k, Falling(n, j));
    } else {
      assert |before| == 0;
      assert after == {};
    }
  }

  /** A round over the selections of `k <= n` multiplies their number by `n - k`. */
  lemma RoundWithin(n: nat, k: nat, before: set<seq<nat>>, after: set<seq<nat>>)
    requires 1 <= k <= n
    requires before == SeqRounds(SeqSingletons(n), n, k - 1)
    requires after == ExtendSeqs(before, n)
    ensures |after| == |before| * (n - k)
  {
    PermutationGroups(n, k);
    ExtendSeqsCount(before, n, k);
  }

  /** `a = b d` with `b = F` gives `F d`, which is what one more pick of `d` leaves. */
  lemma RoundArith(a: int, b: int, f: int, d: int, total: int)
    requires a == b * d && b == f && d >= 0
    requires total == if d > 0 then f * d else 0
    ensures a == total
  {
    Scale(b, f, d);
  }

  /** After the loop there are `n (n-1) ... (n-r+1)` selections. */
  lemma {:induction false} PermutationGroupsCount(n: nat, r: nat)
    requires r >= 1
    ensures |SeqRounds(SeqSingletons(n), n, r - 1)| == Falling(n, r)
    decreases r
  {
    if r == 1 {
      SeqSingletonsCount(n);
      FallingStep(n, 0, 1);
    } else {
      PermutationGroupsCount(n, r - 1);
      PermutationRoundCount(n, r - 1, r);
    }
  }

  /** For distinct input values there are `n!/(n-r)!` permutations. */
  lemma PermutationsCount(values: seq<int>, r: int)
    requires Distinct(values) && 1 <= r <= |values|
    ensures |ChooseRoutOfN(PermutationsPolicy, values, r)| == Falling(|values|, r)
  {
    var n := |values|;
    var groups := SeqRounds(SeqSingletons(n), n, r - 1);
    PermutationGroups(n, r);
    PermutationGroupsCount(n, r);
    var read := g => if InRange(g, n) then ValuesAt(values, g) else [];
    assert InjectiveOn(groups, read) by {
      forall g, h | g in groups && h in groups && read(g) == read(h)
        ensures g == h
      {
        ValuesAtInjective(values, g, h);
      }
    }
    InjectiveImageCard(groups, read);
    assert RemoveWrapperSeqs(values, groups) == Image(groups, read);
  }

  // ---------------------------------------------------------------------
  // Edge cases of the loop and of wrapper identity

  /** A single wrapper renders as the one-element sequence of its value. */
  lemma RenderSingleton(values: seq<int>, p: nat)
    requires p < |values|
    ensures RenderSet(values, {p}) == [values[p]]
  {
    EnumerateSingleton(p, |values|);
    var v := RenderSet(values, {p});
    assert multiset(v) == multiset{values[p]};
    assert |v| == |multiset(v)| == 1;
    assert v[0] in multiset(v);
  }

  /** The singleton results: each input value on its own. */
  function Singletons(values: seq<int>): set<seq<int>> {
    set x | x in values :: [x]
  }

  lemma OneElement(g: set<nat>, p: nat)
    requires |g| == 1 && p in g
    ensures g == {p}
  {
    assert |g - {p}| == 0;
  }

  /** A one-wrapper set renders to a singleton of the input. */
  lemma RenderOneIsSingleton(values: seq<int>, g: set<nat>)
    requires g in Subsets(|values|, 1)
    ensures RenderSet(values, g) in Singletons(values)
  {
    var p :| p in g;
    OneElement(g, p);
    RenderSingleton(values, p);
  }

  /** Each singleton of the input is the rendering of a one-wrapper set. */
  lemma SingletonIsRendered(values: seq<int>, p: nat)
    requires p < |values|
    ensures [values[p]] in RemoveWrapperSets(values, Subsets(|values|, 1))
  {
    assert {p} in Subsets(|values|, 1);
    RenderSingleton(values, p);
  }

  /** The COMBINATIONS starting groups render to the singletons. */
  lemma SetSingletonsRender(values: seq<int>)
    ensures RemoveWrapperSets(values, SetSingletons(|values|)) == Singletons(values)
  {
    var n := |values|;
    var result := RemoveWrapperSets(values, Subsets(n, 1));
    SetSingletonsAreSubsets(n);
    forall g | g in Subsets(n, 1)
      ensures RenderSet(values, g) in Singletons(values)
    {
      RenderOneIsSingleton(values, g);
    }
    forall p | 0 <= p < n
      ensures [values[p]] in result
    {
      SingletonIsRendered(values, p);
    }
    assert Singletons(values) <= result;
  }

  /** The PERMUTATIONS starting groups render to the singletons. */
  lemma SeqSingletonsRender(values: seq<int>)
    ensures RemoveWrapperSeqs(values, SeqSingletons(|values|)) == Singletons(values)
  {
    var n := |values|;
    var result := RemoveWrapperSeqs(values, SeqSingletons(n));
    assert result <= Singletons(values) by {
      forall v | v in result
        ensures v in Singletons(values)
      {
        var g :| g in SeqSingletons(n) && v == ValuesAt(values, g);
        assert g == [g[0]];
        assert v == [values[g[0]]];
        assert values[g[0]] in values;
      }
    }
    assert Singletons(values) <= result by {
      forall x | x in values
        ensures [x] in result
      {
        var p :| 0 <= p < n && values[p] == x;
        assert [p] in SeqSingletons(n);
        assert ValuesAt(values, [p]) == [x];
      }
    }
  }

  /** A negative `r` above `Integer.MIN_VALUE` passes the `r == 0 || r > size` guard, and the
      loop, which counts down from `r - 1`, never runs: the result is the singletons, the
      same as for `r == 1`. */
  lemma NegativeSizeActsAsOne(policy: Policy, values: seq<int>, r: int)
    requires IntMin < r < 0
    ensures ChooseRoutOfN(policy, values, r) == Singletons(values)
    ensures ChooseRoutOfN(policy, values, r) == ChooseRoutOfN(policy, values, 1)
  {
    match policy {
      case CombinationsPolicy => SetSingletonsRender(values);
      case PermutationsPolicy => SeqSingletonsRender(values);
    }
    if |values| == 0 {
      assert Singletons(values) == {};
    }
  }

  /** No set of positions below `n` has more than `n` members. */
  lemma NoOversizedSubsets(n: nat, k: nat)
    requires k > n
    ensures SetRounds(SetSingletons(n), n, k - 1) == {}
  {
    CombinationGroups(n, k);
    SubsetsCount(n, k);
    BinomAboveN(n, k);
  }

  /** No ordered selection of distinct positions below `n` is longer than `n`. */
  lemma NoOversizedArrangements(n: nat, k: nat)
    requires k > n
    ensures SeqRounds(SeqSingletons(n), n, k - 1) == {}
  {
    PermutationGroupsCount(n, k);
    FallingStep(n, k - 1, k);
  }

  /** At `r == Integer.MIN_VALUE` the guard lets `r` through and `r--` wraps it to
      `Integer.MAX_VALUE`, so the loop asks for groups of `2^31` distinct wrappers.  `addWrapper`
      has already copied the input into an `ArrayList`, which holds at most
      `Integer.MAX_VALUE` elements, so no group gets there and the result is empty. */
  lemma MinSizeWrapsToEmpty(policy: Policy, values: seq<int>)
    requires |values| <= IntMax
    ensures ChooseRoutOfN(policy, values, IntMin) == {}
  {
    var n := |values|;
    match policy {
      case CombinationsPolicy => NoOversizedSubsets(n, IntMax + 1);
      case PermutationsPolicy => NoOversizedArrangements(n, IntMax + 1);
    }
  }

  /** Two equal values at different positions render, as a pair of wrappers, to the pair that
      repeats the value. */
  lemma EqualValuesRender(values: seq<int>, i: nat, j: nat)
    requires i < j < |values| && values[i] == values[j]
    ensures RenderSet(values, {i, j}) == [values[i], values[i]]
  {
    PairOrderFree(values, i, j);
    RepeatedPairSorted(values[i]);
  }

  /** The pair of positions `i < j` renders as its two values added in order. */
  lemma PairOrderFree(values: seq<int>, i: nat, j: nat)
    requires i < j < |values| && values[i] == values[j]
    ensures RenderSet(values, {i, j}) == AddEach([], [values[i], values[i]])
  {
    var ps := [i, j];
    assert ValuesAt(values, ps) == [values[i], values[i]];
    assert forall p :: p in ps <==> p in {i, j};
    RenderSetOrderFree(values, {i, j}, ps);
  }

  /** Adding a value twice to an empty list gives the value twice. */
  lemma RepeatedPairSorted(x: int)
    ensures AddEach([], [x, x]) == [x, x]
  {
    RepeatedSorted(x, [x, x]);
  }

  lemma RepeatedSorted(x: int, xs: seq<int>)
    requires xs == [x, x]
    ensures AddEach([], xs) == xs
  {
    assert Sorted(xs);
    SortedUnique(AddEach([], xs), xs);
  }

  /** Wrappers are told apart by position, not by value: two equal values at different
      positions give a pair that repeats the value, under either policy. */
  lemma EqualValuesPair(policy: Policy, values: seq<int>, i: nat, j: nat)
    requires i < j < |values| && values[i] == values[j]
    ensures [values[i], values[i]] in ChooseRoutOfN(policy, values, 2)
  {
    var n := |values|;
    match policy {
      case CombinationsPolicy =>
        CombinationsExact(values, 2);
        assert |{i, j}| == 2;
        assert {i, j} in Subsets(n, 2);
        EqualValuesRender(values, i, j);
      case PermutationsPolicy =>
        PermutationGroups(n, 2);
        assert IsArrangement([i, j], n, 2);
        assert ValuesAt(values, [i, j]) == [values[i], values[i]];
    }
  }
}
