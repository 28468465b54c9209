/**
 The concrete scenarios the repository's tests exercise, proved for the model: result sizes
 for nine and eight distinct integers, and the red/black selections from two `'r'`s and three
 `'b'`s (characters stand for their code points, so `'b' < 'r'`).
 */
module CombinatoricExamples {
  import opened SortedArrayList
  import opened Positions
  import opened Counting
  import opened CombinatoricUtil
  import CombinationUtil

  /** A product of three factors fixes its first factor. */
  lemma CancelProduct(a: int, b: int, x: int, y: int, z: int)
    requires x > 0 && y > 0
    requires a * x * y == z && b * (x * y) == z
    ensures a == b
  {
    var xy := x * y;
    assert xy > 0;
    assert a * x * y == a * xy;
    assert (a - b) * xy == 0;
  }

  /** With distinct values, `CombinationUtil` yields `expected` groups whenever
      `expected r! m! = n!` with `m = n - r`. */
  lemma CombinationUtilSize(values: seq<int>, n: nat, r: nat, m: nat, expected: int)
    requires Distinct(values) && |values| == n && 1 <= r <= n && m == n - r
    requires expected * (Fact(r) * Fact(m)) == Fact(n)
    ensures |CombinationUtil.ChooseRoutOfN(values, r)| == expected
  {
    CombinationUtil.ChooseCount(values, r);
    BinomFactorial(n, r);
    CancelProduct(Binom(n, r), expected, Fact(r), Fact(m), Fact(n));
  }

  /** The factorials up to `9!`. */
  lemma FactTable()
    ensures Fact(1) == 1 && Fact(2) == 2 && Fact(3) == 6 && Fact(4) == 24 && Fact(5) == 120
    ensures Fact(6) == 720 && Fact(7) == 5040 && Fact(8) == 40320 && Fact(9) == 362880
  {
    assert Fact(1) == 1;
    assert Fact(2) == 2;
    assert Fact(3) == 6;
    assert Fact(4) == 24;
    assert Fact(5) == 120;
    assert Fact(6) == 720;
    assert Fact(7) == 5040;
    assert Fact(8) == 40320;
  }

  /** `1 .. 9` has no repeated value. */
  lemma OneToNineDistinct(values: seq<int>)
    requires values == [1, 2, 3, 4, 5, 6, 7, 8, 9]
    ensures Distinct(values)
  {
    assert forall i :: 0 <= i < |values| ==> values[i] == i + 1;
  }

  /** `CombinationUtil` picks 9, 36, 84, 126, 126, 84, 36 and 9 groups out of `1 .. 9`. */
  lemma CombinationUtilSizes(values: seq<int>)
    requires values == [1, 2, 3, 4, 5, 6, 7, 8, 9]
    ensures |CombinationUtil.ChooseRoutOfN(values, 1)| == 9
    ensures |CombinationUtil.ChooseRoutOfN(values, 2)| == 36
    ensures |CombinationUtil.ChooseRoutOfN(values, 3)| == 84
    ensures |CombinationUtil.ChooseRoutOfN(values, 4)| == 126
    ensures |CombinationUtil.ChooseRoutOfN(values, 5)| == 126
    ensures |CombinationUtil.ChooseRoutOfN(values, 6)| == 84
    ensures |CombinationUtil.ChooseRoutOfN(values, 7)| == 36
    ensures |CombinationUtil.ChooseRoutOfN(values, 8)| == 9
  {
    OneToNineDistinct(values);
    FactTable();
    CombinationUtilSize(values, 9, 1, 8, 9);
    CombinationUtilSize(values, 9, 2, 7, 36);
    CombinationUtilSize(values, 9, 3, 6, 84);
    CombinationUtilSize(values, 9, 4, 5, 126);
    CombinationUtilSize(values, 9, 5, 4, 126);
    CombinationUtilSize(values, 9, 6, 3, 84);
    CombinationUtilSize(values, 9, 7, 2, 36);
    CombinationUtilSize(values, 9, 8, 1, 9);
  }

  /** One size of the combinations size test: `C(n, i) (n-i)! i! = n!`. */
  lemma CombinationsSizeByFactorial(values: seq<int>, n: nat, i: nat, m: nat)
    requires Distinct(values) && |values| == n && 1 <= i <= n && m == n - i
    ensures |Combinations(values, i)| * (Fact(m) * Fact(i)) == Fact(n)
  {
    BinomFactorial(n, i);
    Commute3(Binom(n, i), Fact(i), Fact(m));
  }

  lemma Commute3(a: int, x: int, y: int)
    ensures a * x * y == a * (y * x)
  {
  }

  /** For distinct values, `combinations` has `n! / ((n-i)! i!)` members for every `i` in
      `1 .. n`, as the size test computes it with `factorial`. */
  lemma CombinationsSizeByFactorials(values: seq<int>)
    requires Distinct(values)
    ensures forall i | 1 <= i <= |values| ::
      |Combinations(values, i)| * (Fact(|values| - i) * Fact(i)) == Fact(|values|)
  {
    forall i | 1 <= i <= |values|
      ensures |Combinations(values, i)| * (Fact(|values| - i) * Fact(i)) == Fact(|values|)
    {
      SizeByFactorialAt(values, i);
    }
  }

  lemma SizeByFactorialAt(values: seq<int>, i: nat)
    requires Distinct(values) && 1 <= i <= |values|
    ensures |Combinations(values, i)| * (Fact(|values| - i) * Fact(i)) == Fact(|values|)
  {
    CombinationsSizeByFactorial(values, |values|, i, |values| - i);
  }

  /** One step of the permutations count: picking one more of the `n - i` unused values. */
  lemma PermutationsStep(values: seq<int>, i: nat, j: nat)
    requires Distinct(values) && 1 <= i < |values| && j == i + 1
    ensures |Permutations(values, j)| == |Permutations(values, i)| * (|values| - i)
  {
    var n := |values|;
    PermutationsOfDistinct(values, n, i);
    PermutationsOfDistinct(values, n, j);
    FallingStep(n, i, j);
    ScaleCount(|Permutations(values, i)|, |Permutations(values, j)|, Falling(n, i), n - i);
  }

  lemma ScaleCount(before: int, after: int, f: int, k: int)
    requires before == f && after == f * k
    ensures after == before * k
  {
  }

  /** With distinct values, `permutations` counts the ordered selections. */
  lemma PermutationsOfDistinct(values: seq<int>, n: nat, r: int)
    requires Distinct(values) && |values| == n && 1 <= r <= n
    ensures |Permutations(values, r)| == Falling(n, r)
  {
  }

  /** Distinct values give as many singleton permutations as there are values. */
  lemma PermutationsOne(values: seq<int>, n: nat, r: int)
    requires Distinct(values) && |values| == n && r == 1
    ensures |Permutations(values, r)| == n
  {
    if n == 0 {
      assert Permutations(values, r) == {};
    } else {
      PermutationsOfDistinct(values, n, r);
      FallingStep(n, 0, r);
    }
  }

  /** For distinct values, `permutations` has `n` singletons, and each further pick
      multiplies the count by the `n - i` values left; beyond `n` there are none. */
  lemma PermutationsSizeSteps(values: seq<int>)
    requires Distinct(values)
    ensures |Permutations(values, 1)| == |values|
    ensures forall i, j | 1 <= i < |values| && j == i + 1 ::
      |Permutations(values, j)| == |Permutations(values, i)| * (|values| - i)
    ensures forall i | i > |values| :: |Permutations(values, i)| == 0
  {
    PermutationsOne(values, |values|, 1);
    forall i, j | 1 <= i < |values| && j == i + 1
      ensures |Permutations(values, j)| == |Permutations(values, i)| * (|values| - i)
    {
      PermutationsStep(values, i, j);
    }
    forall i | i > |values|
      ensures |Permutations(values, i)| == 0
    {
      PermutationsBeyond(values, i);
    }
  }

  lemma PermutationsBeyond(values: seq<int>, i: nat)
    requires i > |values|
    ensures |Permutations(values, i)| == 0
  {
  }

  /** `0 .. 7` has no repeated value. */
  lemma ZeroToSevenDistinct(values: seq<int>)
    requires values == [0, 1, 2, 3, 4, 5, 6, 7]
    ensures Distinct(values)
  {
    assert forall i :: 0 <= i < |values| ==> values[i] == i;
  }

  /** `permutations` of `0 .. 7`: 8 singletons, `8!` full orderings, none of 9 or 10. */
  lemma PermutationsOfEight(values: seq<int>)
    requires values == [0, 1, 2, 3, 4, 5, 6, 7]
    ensures |Permutations(values, 1)| == 8
    ensures |Permutations(values, 8)| == 40320
    ensures |Permutations(values, 9)| == 0 && |Permutations(values, 10)| == 0
  {
    ZeroToSevenDistinct(values);
    assert |values| == 8;
    assert Falling(8, 8) == 40320;
  }
}

/**
 The red/black scenario of the tests: two `'r'`s and three `'b'`s, with characters standing
 for their code points (so black sorts before red). Each result is first worked out for any
 set with the right membership rule, then tied to the operation.
 */
module RedBlackExamples {
  import opened SortedArrayList
  import opened CombinatoricHelperUtil
  import CombinatoricUtil
  import CombinationUtil

  const R: int := 'r' as int
  const B: int := 'b' as int

  /** The input `['r', 'r', 'b', 'b', 'b']`. */
  predicate IsRedBlack(rb: seq<int>) {
    rb == [R, R, B, B, B]
  }

  /** `c` holds exactly the `r`-combinations of the input. */
  ghost predicate HoldsCombinations(c: set<seq<int>>, rb: seq<int>, r: int) {
    forall v :: v in c <==> IsCombinationOf(v, rb, r)
  }

  /** `c` holds exactly the `r`-long ordered selections of the input. */
  ghost predicate HoldsArrangements(c: set<seq<int>>, rb: seq<int>, r: int) {
    forall v :: v in c <==> |v| == r && multiset(v) <= multiset(rb)
  }

  /** Two reds and three blacks, in any order: all the helpers below need of the input. */
  ghost predicate TwoRedsThreeBlacks(rb: seq<int>) {
    multiset(rb) == multiset{R, R, B, B, B}
  }

  /** The input holds two reds and three blacks. */
  lemma Counts(rb: seq<int>)
    requires IsRedBlack(rb)
    ensures TwoRedsThreeBlacks(rb)
  {
  }

  /** Whatever is drawn from the input is red or black. */
  lemma Colours(v: seq<int>, rb: seq<int>)
    requires TwoRedsThreeBlacks(rb) && multiset(v) <= multiset(rb)
    ensures forall i | 0 <= i < |v| :: v[i] == R || v[i] == B
  {
    forall i | 0 <= i < |v|
      ensures v[i] == R || v[i] == B
    {
      assert v[i] in multiset(v);
    }
  }

  /** Three reds cannot be drawn from two. */
  lemma NoThreeReds(rb: seq<int>)
    requires TwoRedsThreeBlacks(rb)
    ensures !(multiset([R, R, R]) <= multiset(rb))
  {
    assert multiset([R, R, R])[R] == 3;
  }

  /** Both picks a one-element selection can make. */
  lemma OneComplete(rb: seq<int>)
    requires TwoRedsThreeBlacks(rb)
    ensures multiset([R]) <= multiset(rb) && multiset([B]) <= multiset(rb)
  {
  }

  /** Every two-element multiset the input can supply. */
  lemma TwoComplete(rb: seq<int>)
    requires TwoRedsThreeBlacks(rb)
    ensures multiset([R, R]) <= multiset(rb) && multiset([B, B]) <= multiset(rb)
    ensures multiset([B, R]) <= multiset(rb) && multiset([R, B]) <= multiset(rb)
  {
  }

  /** The three-element multisets with no red, or one red last, that the input can supply. */
  lemma ThreeCompleteBlack(rb: seq<int>)
    requires TwoRedsThreeBlacks(rb)
    ensures multiset([B, B, B]) <= multiset(rb) && multiset([B, B, R]) <= multiset(rb)
  {
  }

  /** The three-element multisets with one red first or in the middle, which the input supplies. */
  lemma ThreeCompleteMixed(rb: seq<int>)
    requires TwoRedsThreeBlacks(rb)
    ensures multiset([B, R, B]) <= multiset(rb) && multiset([R, B, B]) <= multiset(rb)
  {
  }

  /** The three-element multisets with two reds, which the input can also supply. */
  lemma ThreeCompleteRed(rb: seq<int>)
    requires TwoRedsThreeBlacks(rb)
    ensures multiset([B, R, R]) <= multiset(rb) && multiset([R, B, R]) <= multiset(rb)
    ensures multiset([R, R, B]) <= multiset(rb)
  {
  }

  /** A one-element selection is a single red or a single black. */
  lemma OneSound(rb: seq<int>, v: seq<int>)
    requires TwoRedsThreeBlacks(rb) && |v| == 1 && multiset(v) <= multiset(rb)
    ensures v in {[R], [B]}
  {
    Colours(v, rb);
    assert v == [v[0]];
  }

  /** A sorted two-element selection never puts red before black. */
  lemma TwoSortedSound(rb: seq<int>, v: seq<int>)
    requires TwoRedsThreeBlacks(rb) && |v| == 2 && multiset(v) <= multiset(rb) && Sorted(v)
    ensures v in {[R, R], [B, R], [B, B]}
  {
    Colours(v, rb);
    assert v == [v[0], v[1]];
    assert v[0] <= v[1];
  }

  /** A sorted three-element selection is black-first and has at most two reds. */
  lemma ThreeSortedSound(rb: seq<int>, v: seq<int>)
    requires TwoRedsThreeBlacks(rb) && |v| == 3 && multiset(v) <= multiset(rb) && Sorted(v)
    ensures v in {[B, R, R], [B, B, R], [B, B, B]}
  {
    NoThreeReds(rb);
    Colours(v, rb);
    assert v == [v[0], v[1], v[2]];
    assert v[0] <= v[1] && v[1] <= v[2];
  }

  /** A two-element ordered selection is any of the four colour pairs. */
  lemma TwoSound(rb: seq<int>, v: seq<int>)
    requires TwoRedsThreeBlacks(rb) && |v| == 2 && multiset(v) <= multiset(rb)
    ensures v in {[R, R], [R, B], [B, R], [B, B]}
  {
    Colours(v, rb);
    assert v == [v[0], v[1]];
  }

  /** A three-element ordered selection is any colour triple except three reds. */
  lemma ThreeSound(rb: seq<int>, v: seq<int>)
    requires TwoRedsThreeBlacks(rb) && |v| == 3 && multiset(v) <= multiset(rb)
    ensures v in {[R, R, B], [R, B, R], [R, B, B], [B, B, R], [B, R, R], [B, R, B], [B, B, B]}
  {
    NoThreeReds(rb);
    Colours(v, rb);
    assert v == [v[0], v[1], v[2]];
  }

  lemma OneCombinationSet(c: set<seq<int>>, rb: seq<int>, r: int)
    requires TwoRedsThreeBlacks(rb) && r == 1 && HoldsCombinations(c, rb, r)
    ensures c == {[R], [B]}
  {
    OneComplete(rb);
    assert IsCombinationOf([R], rb, r) && IsCombinationOf([B], rb, r);
    forall v | v in c
      ensures v in {[R], [B]}
    {
      OneSound(rb, v);
    }
  }

  lemma TwoCombinationSet(c: set<seq<int>>, rb: seq<int>, r: int)
    requires TwoRedsThreeBlacks(rb) && r == 2 && HoldsCombinations(c, rb, r)
    ensures c == {[R, R], [B, R], [B, B]}
  {
    TwoComplete(rb);
    assert IsCombinationOf([R, R], rb, r) && IsCombinationOf([B, R], rb, r) && IsCombinationOf([B, B], rb, r);
    forall v | v in c
      ensures v in {[R, R], [B, R], [B, B]}
    {
      TwoSortedSound(rb, v);
    }
  }

  lemma CombinationPresent(c: set<seq<int>>, rb: seq<int>, r: int, w: seq<int>)
    requires HoldsCombinations(c, rb, r)
    requires Sorted(w) && |w| == r && multiset(w) <= multiset(rb)
    ensures w in c
  {
  }

  lemma SortedTriple(x: int, y: int, z: int)
    requires x <= y <= z
    ensures Sorted([x, y, z])
  {
  }

  lemma ThreeCombinationsPresent(c: set<seq<int>>, rb: seq<int>, r: int)
    requires TwoRedsThreeBlacks(rb) && r == 3 && HoldsCombinations(c, rb, r)
    ensures [B, R, R] in c && [B, B, R] in c && [B, B, B] in c
  {
    ThreeCompleteBlack(rb);
    ThreeCompleteMixed(rb);
    ThreeCompleteRed(rb);
    SortedTriple(B, R, R);
    SortedTriple(B, B, R);
    SortedTriple(B, B, B);
    CombinationPresent(c, rb, r, [B, R, R]);
    CombinationPresent(c, rb, r, [B, B, R]);
    CombinationPresent(c, rb, r, [B, B, B]);
  }

  lemma ThreeCombinationSet(c: set<seq<int>>, rb: seq<int>, r: int)
    requires TwoRedsThreeBlacks(rb) && r == 3 && HoldsCombinations(c, rb, r)
    ensures c == {[B, R, R], [B, B, R], [B, B, B]}
  {
    var e := {[B, R, R], [B, B, R], [B, B, B]};
    ThreeCombinationsPresent(c, rb, r);
    assert e <= c;
    forall v | v in c
      ensures v in e
    {
      ThreeSortedSound(rb, v);
    }
  }

  lemma OneArrangementSet(c: set<seq<int>>, rb: seq<int>, r: int)
    requires TwoRedsThreeBlacks(rb) && r == 1 && HoldsArrangements(c, rb, r)
    ensures c == {[R], [B]}
  {
    OneComplete(rb);
    forall v | v in c
      ensures v in {[R], [B]}
    {
      OneSound(rb, v);
    }
  }

  lemma TwoArrangementSet(c: set<seq<int>>, rb: seq<int>, r: int)
    requires TwoRedsThreeBlacks(rb) && r == 2 && HoldsArrangements(c, rb, r)
    ensures c == {[R, R], [R, B], [B, R], [B, B]}
  {
    TwoComplete(rb);
    forall v | v in c
      ensures v in {[R, R], [R, B], [B, R], [B, B]}
    {
      TwoSound(rb, v);
    }
  }

  lemma ArrangementPresent(c: set<seq<int>>, rb: seq<int>, r: int, w: seq<int>)
    requires HoldsArrangements(c, rb, r)
    requires |w| == r && multiset(w) <= multiset(rb)
    ensures w in c
  {
  }

  lemma SevenIncluded(c: set<seq<int>>, a: seq<int>, b: seq<int>, d: seq<int>, e: seq<int>, f: seq<int>,
                       g: seq<int>, h: seq<int>)
    requires a in c && b in c && d in c && e in c && f in c && g in c && h in c
    ensures {a, b, d, e, f, g, h} <= c
  {
  }

  /** The colour triples with at most two reds. */
  function ColourTriples(): set<seq<int>> {
    {[R, R, B], [R, B, R], [R, B, B], [B, B, R], [B, R, R], [B, R, B], [B, B, B]}
  }

  lemma ThreeArrangementsPresent(c: set<seq<int>>, rb: seq<int>, r: int)
    requires TwoRedsThreeBlacks(rb) && r == 3 && HoldsArrangements(c, rb, r)
    ensures ColourTriples() <= c
  {
    ThreeCompleteBlack(rb);
    ThreeCompleteMixed(rb);
    ThreeCompleteRed(rb);
    ArrangementPresent(c, rb, r, [R, R, B]);
    ArrangementPresent(c, rb, r, [R, B, R]);
    ArrangementPresent(c, rb, r, [R, B, B]);
    ArrangementPresent(c, rb, r, [B, B, R]);
    ArrangementPresent(c, rb, r, [B, R, R]);
    ArrangementPresent(c, rb, r, [B, R, B]);
    ArrangementPresent(c, rb, r, [B, B, B]);
    SevenIncluded(c, [R, R, B], [R, B, R], [R, B, B], [B, B, R], [B, R, R], [B, R, B], [B, B, B]);
  }

  lemma ThreeArrangementsOnly(c: set<seq<int>>, rb: seq<int>, r: int)
    requires TwoRedsThreeBlacks(rb) && r == 3 && HoldsArrangements(c, rb, r)
    ensures c <= ColourTriples()
  {
    forall v | v in c
      ensures v in ColourTriples()
    {
      ThreeSound(rb, v);
    }
  }

  lemma ThreeArrangementSet(c: set<seq<int>>, rb: seq<int>, r: int)
    requires TwoRedsThreeBlacks(rb) && r == 3 && HoldsArrangements(c, rb, r)
    ensures c == ColourTriples()
  {
    ThreeArrangementsPresent(c, rb, r);
    ThreeArrangementsOnly(c, rb, r);
  }

  /** `combinations(['r', 'r', 'b', 'b', 'b'], 1)` is `{[r], [b]}`. */
  lemma CombinationsOneRedBlack(rb: seq<int>, r: int)
    requires IsRedBlack(rb) && r == 1
    ensures CombinatoricUtil.Combinations(rb, r) == {[R], [B]}
  {
    Counts(rb);
    OneCombinationSet(CombinatoricUtil.Combinations(rb, r), rb, r);
  }

  /** `combinations(['r', 'r', 'b', 'b', 'b'], 2)` is `{[r, r], [b, r], [b, b]}`. */
  lemma CombinationsTwoRedBlack(rb: seq<int>, r: int)
    requires IsRedBlack(rb) && r == 2
    ensures CombinatoricUtil.Combinations(rb, r) == {[R, R], [B, R], [B, B]}
  {
    Counts(rb);
    TwoCombinationSet(CombinatoricUtil.Combinations(rb, r), rb, r);
  }

  /** `combinations(['r', 'r', 'b', 'b', 'b'], 3)` is `{[b, r, r], [b, b, r], [b, b, b]}`. */
  lemma CombinationsThreeRedBlack(rb: seq<int>, r: int)
    requires IsRedBlack(rb) && r == 3
    ensures CombinatoricUtil.Combinations(rb, r) == {[B, R, R], [B, B, R], [B, B, B]}
  {
    Counts(rb);
    ThreeCombinationSet(CombinatoricUtil.Combinations(rb, r), rb, r);
  }

  /** `CombinationUtil.chooseRoutOfN(['r', 'r', 'b', 'b', 'b'], 1)` is `{[r], [b]}`. */
  lemma ChooseOneRedBlack(rb: seq<int>, r: int)
    requires IsRedBlack(rb) && r == 1
    ensures CombinationUtil.ChooseRoutOfN(rb, r) == {[R], [B]}
  {
    Counts(rb);
    var c := CombinationUtil.ChooseRoutOfN(rb, r);
    forall v
      ensures v in c <==> IsCombinationOf(v, rb, r)
    {
      CombinationUtil.ChooseMembers(rb, r, v);
    }
    OneCombinationSet(c, rb, r);
  }

  /** `CombinationUtil.chooseRoutOfN(['r', 'r', 'b', 'b', 'b'], 2)` is `{[r, r], [b, r], [b, b]}`. */
  lemma ChooseTwoRedBlack(rb: seq<int>, r: int)
    requires IsRedBlack(rb) && r == 2
    ensures CombinationUtil.ChooseRoutOfN(rb, r) == {[R, R], [B, R], [B, B]}
  {
    Counts(rb);
    var c := CombinationUtil.ChooseRoutOfN(rb, r);
    forall v
      ensures v in c <==> IsCombinationOf(v, rb, r)
    {
      CombinationUtil.ChooseMembers(rb, r, v);
    }
    TwoCombinationSet(c, rb, r);
  }

  /** `permutations(['r', 'r', 'b', 'b', 'b'], 1)` is `{[r], [b]}`. */
  lemma PermutationsOneRedBlack(rb: seq<int>, r: int)
    requires IsRedBlack(rb) && r == 1
    ensures CombinatoricUtil.Permutations(rb, r) == {[R], [B]}
  {
    Counts(rb);
    OneArrangementSet(CombinatoricUtil.Permutations(rb, r), rb, r);
  }

  /** `permutations(['r', 'r', 'b', 'b', 'b'], 2)` holds all four colour pairs. */
  lemma PermutationsTwoRedBlack(rb: seq<int>, r: int)
    requires IsRedBlack(rb) && r == 2
    ensures CombinatoricUtil.Permutations(rb, r) == {[R, R], [R, B], [B, R], [B, B]}
  {
    Counts(rb);
    TwoArrangementSet(CombinatoricUtil.Permutations(rb, r), rb, r);
  }

  /** `permutations(['r', 'r', 'b', 'b', 'b'], 3)` holds every colour triple but three reds. */
  lemma PermutationsThreeRedBlack(rb: seq<int>, r: int)
    requires IsRedBlack(rb) && r == 3
    ensures CombinatoricUtil.Permutations(rb, r) == ColourTriples()
  {
    Counts(rb);
    ThreeArrangementSet(CombinatoricUtil.Permutations(rb, r), rb, r);
  }
}
