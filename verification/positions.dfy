/**
 Wrappers as positions.  `addWrapper` puts every input element into a fresh
 `ComparableWrapper` that does not override `equals`, so two wrappers are
 equal only when they are the same object.  Within one call that identity is
 exactly the element's position `0 .. n-1` in the input, and the wrapped
 value (`holder`) is `values[p]`.  This module holds the facts about groups
 of positions and the values they carry.
 */
module Positions {

  /** No element occurs twice. */
  predicate Distinct<T(==)>(s: seq<T>) {
    forall i, j :: 0 <= i < j < |s| ==> s[i] != s[j]
  }

  /** Every position names an input element. */
  predicate InRange(ps: seq<nat>, n: nat) {
    forall i :: 0 <= i < |ps| ==> ps[i] < n
  }

  /** The positions of a group, as a set. */
  function Elems(s: seq<nat>): (r: set<nat>)
    ensures forall x :: x in r <==> x in s
  {
    set x | x in s
  }

  /** The wrapped values of a group of wrappers, in the group's order. */
  function ValuesAt(values: seq<int>, ps: seq<nat>): (r: seq<int>)
    requires InRange(ps, |values|)
    ensures |r| == |ps|
    ensures forall i :: 0 <= i < |ps| ==> r[i] == values[ps[i]]
  {
    seq(|ps|, i requires 0 <= i < |ps| => values[ps[i]])
  }

  /** The members of `g` that are below `n`, in increasing order. */
  function Enumerate(g: set<nat>, n: nat): (ps: seq<nat>)
    ensures InRange(ps, n)
    ensures forall i, j :: 0 <= i < j < |ps| ==> ps[i] < ps[j]
    ensures forall p :: p in ps <==> p in g && p < n
  {
    if n == 0 then []
    else Enumerate(g, n - 1) + (if n - 1 in g then [n - 1] else [])
  }

  /** An increasing enumeration never repeats a position. */
  lemma EnumerateDistinct(g: set<nat>, n: nat)
    ensures Distinct(Enumerate(g, n))
  {
    var ps := Enumerate(g, n);
    forall i, j | 0 <= i < j < |ps|
      ensures ps[i] != ps[j]
    {
      assert ps[i] < ps[j];
    }
  }

  /** Only the members below `n` matter to the enumeration. */
  lemma {:induction false} EnumerateBelow(g: set<nat>, h: set<nat>, n: nat)
    requires forall p: nat :: p < n ==> (p in g <==> p in h)
    ensures Enumerate(g, n) == Enumerate(h, n)
  {
    if n > 0 {
      EnumerateBelow(g, h, n - 1);
    }
  }

  /** A single position enumerates as itself. */
  lemma EnumerateSingleton(p: nat, n: nat)
    requires p < n
    ensures Enumerate({p}, n) == [p]
  {
    var ps := Enumerate({p}, n);
    EnumerateCard({p}, n);
    assert ps[0] in ps;
  }

  /** A sequence without repetitions has as many elements as its set. */
  lemma {:induction false} DistinctCard(s: seq<nat>)
    requires Distinct(s)
    ensures |Elems(s)| == |s|
  {
    if s != [] {
      var last := s[|s| - 1];
      var init := s[..|s| - 1];
      assert Distinct(init);
      DistinctCard(init);
      assert Elems(s) == Elems(init) + {last};
      assert last !in Elems(init);
    }
  }

  /** Every member below `n` is enumerated exactly once. */
  lemma EnumerateCard(g: set<nat>, n: nat)
    requires forall p :: p in g ==> p < n
    ensures |Enumerate(g, n)| == |g|
  {
    EnumerateDistinct(g, n);
    DistinctCard(Enumerate(g, n));
    assert Elems(Enumerate(g, n)) == g;
  }

  /** A sequence without repetitions holds each of its elements exactly once. */
  lemma {:induction false} DistinctMultiplicity<T>(s: seq<T>, x: T)
    requires Distinct(s)
    ensures multiset(s)[x] == if x in s then 1 else 0
  {
    if s != [] {
      var init := s[..|s| - 1];
      assert s == init + [s[|s| - 1]];
      assert Distinct(init);
      DistinctMultiplicity(init, x);
    }
  }

  /** Two sequences without repetitions and with the same elements are permutations of each other. */
  lemma SameElementsPermutation<T>(s: seq<T>, t: seq<T>)
    requires Distinct(s) && Distinct(t)
    requires forall x :: x in s <==> x in t
    ensures multiset(s) == multiset(t)
  {
    forall x
      ensures multiset(s)[x] == multiset(t)[x]
    {
      DistinctMultiplicity(s, x);
      DistinctMultiplicity(t, x);
    }
  }

  /** Removing the entry at index `j` removes one copy of it from the multiset. */
  lemma RemoveAt<T>(s: seq<T>, j: int)
    requires 0 <= j < |s|
    ensures multiset(s[..j] + s[j + 1..]) == multiset(s) - multiset{s[j]}
  {
    assert s == s[..j] + [s[j]] + s[j + 1..];
  }

  /** Looking up one more position appends its value. */
  lemma ValuesAtAppend(values: seq<int>, ps: seq<nat>, p: nat)
    requires InRange(ps, |values|) && p < |values|
    ensures InRange(ps + [p], |values|)
    ensures ValuesAt(values, ps + [p]) == ValuesAt(values, ps) + [values[p]]
  {
  }

  /** Dropping the position at index `j` drops its value at the same index. */
  lemma ValuesAtRemove(values: seq<int>, ps: seq<nat>, j: int)
    requires InRange(ps, |values|) && 0 <= j < |ps|
    ensures InRange(ps[..j] + ps[j + 1..], |values|)
    ensures ValuesAt(values, ps[..j] + ps[j + 1..]) == ValuesAt(values, ps)[..j] + ValuesAt(values, ps)[j + 1..]
  {
  }

  /** Positions below `m` see the same values in the first `m` inputs. */
  lemma ValuesAtPrefix(values: seq<int>, m: nat, ps: seq<nat>)
    requires m <= |values| && InRange(ps, m)
    ensures ValuesAt(values[..m], ps) == ValuesAt(values, ps)
  {
  }

  /** Dropping one entry from a sequence without repetitions leaves one without it. */
  lemma DistinctRemove(ps: seq<nat>, j: int)
    requires Distinct(ps) && 0 <= j < |ps|
    ensures Distinct(ps[..j] + ps[j + 1..])
    ensures ps[j] !in ps[..j] + ps[j + 1..]
  {
    var rest := ps[..j] + ps[j + 1..];
    forall a | 0 <= a < |rest|
      ensures rest[a] == ps[if a < j then a else a + 1]
    {
    }
  }

  /** The last position of a group contributes one copy of its value. */
  lemma ValuesAtSnoc(values: seq<int>, ps: seq<nat>)
    requires InRange(ps, |values|) && |ps| > 0
    ensures InRange(ps[..|ps| - 1], |values|)
    ensures multiset(ValuesAt(values, ps))
         == multiset(ValuesAt(values, ps[..|ps| - 1])) + multiset{values[ps[|ps| - 1]]}
  {
    var init := ps[..|ps| - 1];
    assert ps == init + [ps[|ps| - 1]];
    ValuesAtAppend(values, init, ps[|ps| - 1]);
  }

  /** Dropping the position at index `j` removes one copy of its value. */
  lemma ValuesAtDrop(values: seq<int>, qs: seq<nat>, j: int)
    requires InRange(qs, |values|) && 0 <= j < |qs|
    ensures InRange(qs[..j] + qs[j + 1..], |values|)
    ensures multiset(ValuesAt(values, qs[..j] + qs[j + 1..])) + multiset{values[qs[j]]}
         == multiset(ValuesAt(values, qs))
  {
    ValuesAtRemove(values, qs, j);
    var w := ValuesAt(values, qs);
    RemoveAt(w, j);
    assert w[j] in multiset(w);
  }

  /** Looking up the values of a permuted group gives a permutation of the values. */
  lemma {:induction false} ValuesAtPermutation(values: seq<int>, ps: seq<nat>, qs: seq<nat>)
    requires InRange(ps, |values|) && InRange(qs, |values|)
    requires multiset(ps) == multiset(qs)
    ensures multiset(ValuesAt(values, ps)) == multiset(ValuesAt(values, qs))
    decreases |ps|
  {
    if ps == [] {
      assert |qs| == |multiset(qs)| == 0;
    } else {
      var last := ps[|ps| - 1];
      var init := ps[..|ps| - 1];
      assert last in multiset(qs) by {
        assert last in ps;
      }
      var j :| 0 <= j < |qs| && qs[j] == last;
      var rest := qs[..j] + qs[j + 1..];
      assert multiset(init) == multiset(rest) by {
        assert ps == init + [last];
        RemoveAt(qs, j);
      }
      ValuesAtSnoc(values, ps);
      ValuesAtDrop(values, qs, j);
      ValuesAtPermutation(values, init, rest);
    }
  }

  /** Enumerating one more position adds the last input value exactly when that position is in `g`. */
  lemma EnumerateStep(values: seq<int>, g: set<nat>)
    requires |values| > 0
    ensures multiset(ValuesAt(values, Enumerate(g, |values|)))
         == multiset(ValuesAt(values[..|values| - 1], Enumerate(g, |values| - 1)))
          + (if |values| - 1 in g then multiset{values[|values| - 1]} else multiset{})
  {
    var n := |values| - 1;
    var below := Enumerate(g, n);
    ValuesAtPrefix(values, n, below);
    if n in g {
      ValuesAtAppend(values, below, n);
      assert Enumerate(g, n + 1) == below + [n];
    } else {
      assert Enumerate(g, n + 1) == below;
    }
  }

  /** The last input value joins the multiset of the others. */
  lemma MultisetSnoc(values: seq<int>)
    requires |values| > 0
    ensures multiset(values) == multiset(values[..|values| - 1]) + multiset{values[|values| - 1]}
  {
    assert values == values[..|values| - 1] + [values[|values| - 1]];
  }

  /** Sub-multisets add up. */
  lemma SubMultisetSum(a: multiset<int>, b: multiset<int>, c: multiset<int>, d: multiset<int>)
    requires a <= b && c <= d
    ensures a + c <= b + d
  {
  }

  /** The values carried by the positions of `g` form a sub-multiset of the input. */
  lemma {:induction false} EnumeratedValuesSubMultiset(values: seq<int>, g: set<nat>)
    ensures multiset(ValuesAt(values, Enumerate(g, |values|))) <= multiset(values)
  {
    var n := |values|;
    if n > 0 {
      var init := values[..n - 1];
      var x := values[n - 1];
      EnumeratedValuesSubMultiset(init, g);
      EnumerateStep(values, g);
      MultisetSnoc(values);
      var a := multiset(ValuesAt(init, Enumerate(g, n - 1)));
      if n - 1 in g {
        SubMultisetSum(a, multiset(init), multiset{x}, multiset{x});
      } else {
        SubMultisetSum(a, multiset(init), multiset{}, multiset{x});
      }
    }
  }

  /** What is still to be found among the first `n - 1` inputs once the last one is settled. */
  function Shrunk(values: seq<int>, m: multiset<int>): multiset<int>
    requires |values| > 0
  {
    var x := values[|values| - 1];
    if x in m then m - multiset{x} else m
  }

  /** The positions found among the first `n - 1` inputs, plus the last one when it is wanted. */
  function Grown(values: seq<int>, m: multiset<int>, g': set<nat>): set<nat>
    requires |values| > 0
  {
    if values[|values| - 1] in m then g' + {|values| - 1} else g'
  }

  lemma ShrinkDemand(values: seq<int>, m: multiset<int>)
    requires |values| > 0 && m <= multiset(values)
    ensures Shrunk(values, m) <= multiset(values[..|values| - 1])
  {
    MultisetSnoc(values);
  }

  /** Positions carrying exactly a given sub-multiset of the input values. */
  lemma {:induction false} PositionsFor(values: seq<int>, m: multiset<int>) returns (g: set<nat>)
    requires m <= multiset(values)
    ensures forall p :: p in g ==> p < |values|
    ensures multiset(ValuesAt(values, Enumerate(g, |values|))) == m
    decreases |values|
  {
    if |values| == 0 {
      g := {};
    } else {
      ShrinkDemand(values, m);
      var g' := PositionsFor(values[..|values| - 1], Shrunk(values, m));
      PositionsForStep(values, m, g');
      g := Grown(values, m, g');
    }
  }

  lemma PositionsForStep(values: seq<int>, m: multiset<int>, g': set<nat>)
    requires |values| > 0
    requires forall p :: p in g' ==> p < |values| - 1
    requires multiset(ValuesAt(values[..|values| - 1], Enumerate(g', |values| - 1))) == Shrunk(values, m)
    ensures forall p :: p in Grown(values, m, g') ==> p < |values|
    ensures multiset(ValuesAt(values, Enumerate(Grown(values, m, g'), |values|))) == m
  {
    var n := |values| - 1;
    var x := values[n];
    var g := Grown(values, m, g');
    EnumerateBelow(g, g', n);
    EnumerateStep(values, g);
    if x in m {
      assert n in g;
      assert Shrunk(values, m) + multiset{x} == m;
    } else {
      assert n !in g;
    }
  }

  /** A group of distinct positions can be reordered to carry any ordering of its values. */
  ghost function Rearrange(values: seq<int>, ps: seq<nat>, v: seq<int>): (qs: seq<nat>)
    requires InRange(ps, |values|) && Distinct(ps)
    requires multiset(ValuesAt(values, ps)) == multiset(v)
    ensures InRange(qs, |values|) && Distinct(qs)
    ensures multiset(qs) == multiset(ps)
    ensures ValuesAt(values, qs) == v
    decreases |v|
  {
    if |v| == 0 then
      assert |ps| == |multiset(ValuesAt(values, ps))| == 0;
      []
    else
      var x := v[|v| - 1];
      var w := ValuesAt(values, ps);
      assert v == v[..|v| - 1] + [x];
      assert x in multiset(w);
      var j :| 0 <= j < |w| && w[j] == x;
      var rest := ps[..j] + ps[j + 1..];
      RemoveAt(w, j);
      ValuesAtRemove(values, ps, j);
      DistinctRemove(ps, j);
      var qs' := Rearrange(values, rest, v[..|v| - 1]);
      RearrangeStep(values, ps, j, qs', v);
      qs' + [ps[j]]
  }

  lemma RearrangeStep(values: seq<int>, ps: seq<nat>, j: int, qs': seq<nat>, v: seq<int>)
    requires InRange(ps, |values|) && Distinct(ps) && 0 <= j < |ps| && |v| > 0
    requires InRange(qs', |values|) && Distinct(qs')
    requires multiset(qs') == multiset(ps[..j] + ps[j + 1..])
    requires ValuesAt(values, qs') == v[..|v| - 1]
    requires values[ps[j]] == v[|v| - 1]
    ensures InRange(qs' + [ps[j]], |values|) && Distinct(qs' + [ps[j]])
    ensures multiset(qs' + [ps[j]]) == multiset(ps)
    ensures ValuesAt(values, qs' + [ps[j]]) == v
  {
    DistinctRemove(ps, j);
    RemoveAt(ps, j);
    assert ps[j] !in multiset(qs');
    var qs := qs' + [ps[j]];
    assert Distinct(qs) by {
      forall a, b | 0 <= a < b < |qs|
        ensures qs[a] != qs[b]
      {
        if b == |qs'| {
          assert qs[a] in multiset(qs');
        }
      }
    }
    ValuesAtAppend(values, qs', ps[j]);
    assert v == v[..|v| - 1] + [v[|v| - 1]];
  }
}
