/**
 A model of `CombinatoricUtil`, the public entry points: `combinations` and `permutations`
 delegate to the engine with one of its two policies, and `factorial` computes `n!` in a
 64-bit accumulator that refuses any value above `Integer.MAX_VALUE`.
 */
module CombinatoricUtil {
  import opened Outcomes
  import opened Positions
  import opened Counting
  import opened JavaInt
  import H = CombinatoricHelperUtil

  /** The membership characterization of COMBINATIONS, for every candidate sequence at once. */
  lemma CombinationsCharacterized(values: seq<int>, r: int)
    requires 1 <= r <= |values|
    ensures forall v :: v in H.ChooseRoutOfN(H.CombinationsPolicy, values, r) <==> H.IsCombinationOf(v, values, r)
  {
    forall v
      ensures v in H.ChooseRoutOfN(H.CombinationsPolicy, values, r) <==> H.IsCombinationOf(v, values, r)
    {
      H.CombinationsMembers(values, r, v);
    }
  }

  /** The membership characterization of PERMUTATIONS, for every candidate sequence at once. */
  lemma PermutationsCharacterized(values: seq<int>, r: int)
    requires 1 <= r <= |values|
    ensures forall v :: v in H.ChooseRoutOfN(H.PermutationsPolicy, values, r) <==>
      |v| == r && multiset(v) <= multiset(values)
  {
    forall v
      ensures v in H.ChooseRoutOfN(H.PermutationsPolicy, values, r) <==> |v| == r && multiset(v) <= multiset(values)
    {
      H.PermutationsMembers(values, r, v);
    }
  }

  /** `CombinatoricUtil.combinations(collectionIn, r)`: the distinct sorted `r`-long
      selections of the input values. */
  function Combinations(values: seq<int>, r: int): (result: set<seq<int>>)
    ensures r == 0 || r > |values| || (r == IntMin && |values| <= IntMax) ==> result == {}
    ensures IntMin < r < 0 ==> result == H.Singletons(values)
    ensures 1 <= r <= |values| ==> forall v :: v in result <==> H.IsCombinationOf(v, values, r)
    ensures 1 <= r <= |values| && Distinct(values) ==> |result| == Binom(|values|, r)
  {
    var result := H.ChooseRoutOfN(H.CombinationsPolicy, values, r);
    if r == IntMin then
      if |values| <= IntMax then
        H.MinSizeWrapsToEmpty(H.CombinationsPolicy, values);
        result
      else
        result
    else if IntMin < r < 0 then
      H.NegativeSizeActsAsOne(H.CombinationsPolicy, values, r);
      result
    else if 1 <= r <= |values| then
      CombinationsCharacterized(values, r);
      if Distinct(values) then
        H.CombinationsCount(values, r);
        result
      else
        result
    else
      result
  }

  /** `CombinatoricUtil.permutations(collectionIn, r)`: the distinct `r`-long ordered
      selections of the input values. */
  function Permutations(values: seq<int>, r: int): (result: set<seq<int>>)
    ensures r == 0 || r > |values| || (r == IntMin && |values| <= IntMax) ==> result == {}
    ensures IntMin < r < 0 ==> result == H.Singletons(values)
    ensures 1 <= r <= |values| ==> forall v :: v in result <==> |v| == r && multiset(v) <= multiset(values)
    ensures 1 <= r <= |values| && Distinct(values) ==> |result| == Falling(|values|, r)
  {
    var result := H.ChooseRoutOfN(H.PermutationsPolicy, values, r);
    if r == IntMin then
      if |values| <= IntMax then
        H.MinSizeWrapsToEmpty(H.PermutationsPolicy, values);
        result
      else
        result
    else if IntMin < r < 0 then
      H.NegativeSizeActsAsOne(H.PermutationsPolicy, values, r);
      result
    else if 1 <= r <= |values| then
      PermutationsCharacterized(values, r);
      if Distinct(values) then
        H.PermutationsCount(values, r);
        result
      else
        result
    else
      result
  }

  /** Why `factorial` refuses its input. */
  datatype FactorialError =
    | NegativeInput   // `UnsupportedOperationException`
    | Overflow        // `RuntimeException`: the product exceeds `Integer.MAX_VALUE`

  /** `12!` is the largest factorial an `int` holds. */
  lemma {:induction false} FactBound(k: nat)
    ensures Fact(k) <= IntMax <==> k <= 12
  {
    assert Fact(12) == 479001600;
    assert Fact(13) == 6227020800;
    if k <= 12 {
      FactMonotone(k, 12);
    } else {
      FactMonotone(13, k);
    }
  }

  /** `CombinatoricUtil.factorial(n)`.  The accumulator is a `long` and `i` an `int`; neither
      can wrap, because the loop stops as soon as the product passes `Integer.MAX_VALUE`,
      which happens at `i = 13`. */
  method Factorial(n: int) returns (r: Result<int, FactorialError>)
    ensures n < 0 <==> r == Err(NegativeInput)
    ensures n > 12 <==> r == Err(Overflow)
    ensures 0 <= n <= 12 <==> n >= 0 && r == Ok(Fact(n))
    ensures r.Ok? ==> 1 <= r.value <= IntMax
  {
    if n < 0 {
      return Err(NegativeInput);
    }
    var factorial := 1;
    var i := 2;
    while i <= n
      invariant 2 <= i && (i <= n + 1 || i == 2)
      invariant factorial == Fact(i - 1)
      invariant factorial <= IntMax
    {
      factorial := factorial * i;
      if factorial > IntMax {
        FactBound(i);
        return Err(Overflow);
      }
      i := i + 1;
    }
    FactBound(n);
    return Ok(factorial);
  }
}
