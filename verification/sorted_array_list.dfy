/**
 A model of `SortedArrayList`: an `ArrayList` whose insertion methods (`add`,
 `add(int, E)`, `addAll`, `addAll(int, Collection)`) first perform the plain list
 insertion and then re-sort the whole list with `Collections.sort`.  The list is a `seq<int>` and the ordering is the
 natural order on `int` (a fixed total order, so ties are indistinguishable
 and the stability of the sort does not matter).
 */
module SortedArrayList {
  import opened Outcomes

  /** Adjacent elements never decrease (checked pairwise, which is equivalent). */
  predicate Sorted(s: seq<int>) {
    forall i, j :: 0 <= i < j < |s| ==> s[i] <= s[j]
  }

  /** The exception `ArrayList.add(int, E)` and `ArrayList.addAll(int, Collection)` throw. */
  datatype Error = IndexOutOfBounds

  /** The list after a call, and the boolean the call returns. */
  datatype Update = Update(list: seq<int>, changed: bool)

  /** Two sorted runs, every element of the first at most every element of the second, join sorted. */
  lemma SortedJoin(a: seq<int>, b: seq<int>)
    requires Sorted(a) && Sorted(b)
    requires forall i, j :: 0 <= i < |a| && 0 <= j < |b| ==> a[i] <= b[j]
    ensures Sorted(a + b)
  {
    var c := a + b;
    forall i, j | 0 <= i < j < |c|
      ensures c[i] <= c[j]
    {
      if j < |a| {
        assert c[i] == a[i] && c[j] == a[j];
      } else if i < |a| {
        assert c[i] == a[i] && c[j] == b[j - |a|];
      } else {
        assert c[i] == b[i - |a|] && c[j] == b[j - |a|];
      }
    }
  }

  /** Places `x` in front of the first element not smaller than it. */
  function InsertSorted(s: seq<int>, x: int): (r: seq<int>)
    requires Sorted(s)
    ensures Sorted(r)
    ensures multiset(r) == multiset(s) + multiset{x}
    ensures |r| == |s| + 1
  {
    if s == [] then [x]
    else if x <= s[0] then [x] + s
    else
      assert s == [s[0]] + s[1..];
      var t := InsertSorted(s[1..], x);
      assert forall j :: 0 <= j < |t| ==> s[0] <= t[j] by {
        forall j | 0 <= j < |t|
          ensures s[0] <= t[j]
        {
          assert t[j] in multiset(s[1..]) + multiset{x};
          if t[j] != x {
            assert t[j] in s[1..];
          }
        }
      }
      SortedJoin([s[0]], t);
      [s[0]] + t
  }

  /** `mySort`: sorts a list by the natural order (the `Collections.sort` call). */
  function Sort(s: seq<int>): (r: seq<int>)
    ensures Sorted(r)
    ensures multiset(r) == multiset(s)
    ensures |r| == |s|
  {
    if s == [] then []
    else
      assert s == s[..|s| - 1] + [s[|s| - 1]];
      InsertSorted(Sort(s[..|s| - 1]), s[|s| - 1])
  }

  /** Sorted permutations are unique: a sorted list is determined by its multiset. */
  lemma {:induction false} SortedUnique(a: seq<int>, b: seq<int>)
    requires Sorted(a) && Sorted(b)
    requires multiset(a) == multiset(b)
    ensures a == b
  {
    if a != [] {
      assert |b| == |multiset(b)| == |multiset(a)| == |a|;
      // the head of each list is the least element of the common multiset
      assert b[0] in multiset(a);
      assert a[0] in multiset(b);
      assert a[0] <= b[0] by {
        var i :| 0 <= i < |a| && a[i] == b[0];
      }
      assert b[0] <= a[0] by {
        var j :| 0 <= j < |b| && b[j] == a[0];
      }
      assert a[0] == b[0];
      assert a == [a[0]] + a[1..];
      assert b == [b[0]] + b[1..];
      assert multiset(a) == multiset{a[0]} + multiset(a[1..]);
      assert multiset(b) == multiset{b[0]} + multiset(b[1..]);
      assert multiset(a[1..]) == multiset(a) - multiset{a[0]};
      assert multiset(b[1..]) == multiset(b) - multiset{b[0]};
      SortedUnique(a[1..], b[1..]);
    }
  }

  /** Sorting depends only on the multiset of its input. */
  lemma SortCanonical(a: seq<int>, b: seq<int>)
    requires multiset(a) == multiset(b)
    ensures Sort(a) == Sort(b)
  {
    SortedUnique(Sort(a), Sort(b));
  }

  /** Sorting a sorted list leaves it as it is. */
  lemma SortOfSorted(s: seq<int>)
    requires Sorted(s)
    ensures Sort(s) == s
  {
    SortedUnique(Sort(s), s);
  }

  /** The constructors from a batch: the list holds the batch, sorted. */
  function FromBatch(elements: seq<int>): (r: seq<int>)
    ensures Sorted(r)
    ensures multiset(r) == multiset(elements)
  {
    AddAll([], elements).list
  }

  /** `add(E)`: append, re-sort, and report the `ArrayList.add` result, which is always true. */
  function Add(list: seq<int>, e: int): (u: Update)
    ensures Sorted(u.list)
    ensures multiset(u.list) == multiset(list) + multiset{e}
    ensures |u.list| == |list| + 1
    ensures u.changed
  {
    Update(Sort(list + [e]), true)
  }

  /** `add(int, E)`: insert at `index` (which must lie in `0..size`), then re-sort. */
  function AddAt(list: seq<int>, index: int, e: int): (r: Result<seq<int>, Error>)
    ensures r.Err? <==> index < 0 || index > |list|
    ensures r.Ok? ==> r.value == Add(list, e).list
  {
    if index < 0 || index > |list| then Err(IndexOutOfBounds)
    else
      var inserted := list[..index] + [e] + list[index..];
      assert list == list[..index] + list[index..];
      assert multiset(inserted) == multiset(list + [e]);
      SortCanonical(inserted, list + [e]);
      Ok(Sort(inserted))
  }

  /** `addAll(Collection)`: append all, re-sort; the result is true iff the collection was non-empty. */
  function AddAll(list: seq<int>, c: seq<int>): (u: Update)
    ensures Sorted(u.list)
    ensures multiset(u.list) == multiset(list) + multiset(c)
    ensures |u.list| == |list| + |c|
    ensures u.changed <==> |c| > 0
  {
    Update(Sort(list + c), |c| > 0)
  }

  /** `addAll(int, Collection)`: insert the batch at `index` (in `0..size`), then re-sort. */
  function AddAllAt(list: seq<int>, index: int, c: seq<int>): (r: Result<Update, Error>)
    ensures r.Err? <==> index < 0 || index > |list|
    ensures r.Ok? ==> r.value == AddAll(list, c)
  {
    if index < 0 || index > |list| then Err(IndexOutOfBounds)
    else
      var inserted := list[..index] + c + list[index..];
      assert list == list[..index] + list[index..];
      assert multiset(inserted) == multiset(list + c);
      SortCanonical(inserted, list + c);
      Ok(Update(Sort(inserted), |c| > 0))
  }

  /** The list obtained by calling `add` once for every element of `xs`, in order. */
  function AddEach(list: seq<int>, xs: seq<int>): (r: seq<int>)
    ensures multiset(r) == multiset(list) + multiset(xs)
    ensures Sorted(list) || |xs| > 0 ==> Sorted(r)
    decreases |xs|
  {
    if xs == [] then list
    else
      assert xs == [xs[0]] + xs[1..];
      AddEach(Add(list, xs[0]).list, xs[1..])
  }

  /** Adding one at a time ends in the same list as one bulk `addAll`. */
  lemma AddEachIsAddAll(list: seq<int>, xs: seq<int>)
    requires Sorted(list) || |xs| > 0
    ensures AddEach(list, xs) == AddAll(list, xs).list
  {
    SortedUnique(AddEach(list, xs), AddAll(list, xs).list);
  }

  /** `addAll` of an empty collection leaves a sorted list unchanged and returns false. */
  lemma AddAllEmpty(list: seq<int>)
    requires Sorted(list)
    ensures AddAll(list, []) == Update(list, false)
  {
    assert list + [] == list;
    SortOfSorted(list);
  }

  /** A single `add` slides the new element in between the smaller and the larger ones. */
  lemma AddPlacement(list: seq<int>, e: int, k: int)
    requires Sorted(list)
    requires 0 <= k <= |list|
    requires forall i :: 0 <= i < k ==> list[i] <= e
    requires forall i :: k <= i < |list| ==> e <= list[i]
    ensures Add(list, e).list == list[..k] + [e] + list[k..]
  {
    var expected := list[..k] + [e] + list[k..];
    assert list == list[..k] + list[k..];
    SortedJoin(list[..k], [e]);
    SortedJoin(list[..k] + [e], list[k..]);
    assert multiset(expected) == multiset(list) + multiset{e};
    SortedUnique(Add(list, e).list, expected);
  }
}

/** The list behaviour the unit tests of `SortedArrayList` pin down, on their own vectors. */
module SortedArrayListExamples {
  import opened SortedArrayList

  /** The batch constructor sorts `[-10, 5, 4, 3, 7, 3]`. */
  lemma ConstructorExample()
    ensures FromBatch([-10, 5, 4, 3, 7, 3]) == [-10, 3, 3, 4, 5, 7]
  {
    ConstructedFrom([-10, 5, 4, 3, 7, 3], [-10, 3, 3, 4, 5, 7]);
  }

  lemma ConstructedFrom(batch: seq<int>, expected: seq<int>)
    requires batch == [-10, 5, 4, 3, 7, 3]
    requires expected == [-10, 3, 3, 4, 5, 7]
    ensures FromBatch(batch) == expected
  {
    ConstructedSorted(expected);
    BatchMultiset(batch, expected);
    SortedUnique(FromBatch(batch), expected);
  }

  lemma ConstructedSorted(list: seq<int>)
    requires list == [-10, 3, 3, 4, 5, 7]
    ensures Sorted(list)
  {
  }

  lemma BatchMultiset(batch: seq<int>, expected: seq<int>)
    requires batch == [-10, 5, 4, 3, 7, 3]
    requires expected == [-10, 3, 3, 4, 5, 7]
    ensures multiset(batch) == multiset(expected)
  {
    BatchDisplay(batch);
    ListMultiset(expected);
    BatchDisplays();
  }

  lemma BatchDisplay(batch: seq<int>)
    requires batch == [-10, 5, 4, 3, 7, 3]
    ensures multiset(batch) == multiset{-10, 5, 4, 3, 7, 3}
  {
  }

  lemma BatchDisplays()
    ensures multiset{-10, 5, 4, 3, 7, 3} == multiset{-10, 3, 3, 4, 5, 7}
  {
  }

  /** `addAll` merges `[-44, 8, 8, 3, 6]` into the constructed list, keeping duplicates. */
  lemma AddAllExample()
    ensures AddAll(FromBatch([-10, 5, 4, 3, 7, 3]), [-44, 8, 8, 3, 6])
         == Update([-44, -10, 3, 3, 3, 4, 5, 6, 7, 8, 8], true)
  {
    ConstructorExample();
    AddAllFromConstructed(FromBatch([-10, 5, 4, 3, 7, 3]), [-44, 8, 8, 3, 6], [-44, -10, 3, 3, 3, 4, 5, 6, 7, 8, 8]);
  }

  lemma AddAllFromConstructed(list: seq<int>, c: seq<int>, expected: seq<int>)
    requires list == [-10, 3, 3, 4, 5, 7]
    requires c == [-44, 8, 8, 3, 6]
    requires expected == [-44, -10, 3, 3, 3, 4, 5, 6, 7, 8, 8]
    ensures AddAll(list, c) == Update(expected, true)
  {
    MergedSorted(expected);
    MergedMultiset(list, c, expected);
    SortedUnique(AddAll(list, c).list, expected);
  }

  lemma MergedSorted(expected: seq<int>)
    requires expected == [-44, -10, 3, 3, 3, 4, 5, 6, 7, 8, 8]
    ensures Sorted(expected)
  {
  }

  lemma MergedMultiset(list: seq<int>, c: seq<int>, expected: seq<int>)
    requires list == [-10, 3, 3, 4, 5, 7]
    requires c == [-44, 8, 8, 3, 6]
    requires expected == [-44, -10, 3, 3, 3, 4, 5, 6, 7, 8, 8]
    ensures multiset(list) + multiset(c) == multiset(expected)
  {
    ListMultiset(list);
    AddedMultiset(c);
    ExpectedMultiset(expected);
    MergedDisplays();
  }

  lemma ListMultiset(list: seq<int>)
    requires list == [-10, 3, 3, 4, 5, 7]
    ensures multiset(list) == multiset{-10, 3, 3, 4, 5, 7}
  {
  }

  lemma AddedMultiset(c: seq<int>)
    requires c == [-44, 8, 8, 3, 6]
    ensures multiset(c) == multiset{-44, 8, 8, 3, 6}
  {
  }

  lemma ExpectedMultiset(expected: seq<int>)
    requires expected == [-44, -10, 3, 3, 3, 4, 5, 6, 7, 8, 8]
    ensures multiset(expected) == multiset{-44, -10, 3, 3, 3, 4, 5, 6, 7, 8, 8}
  {
  }

  lemma MergedDisplays()
    ensures multiset{-10, 3, 3, 4, 5, 7} + multiset{-44, 8, 8, 3, 6}
         == multiset{-44, -10, 3, 3, 3, 4, 5, 6, 7, 8, 8}
  {
  }

  /** `addAll` of an empty collection keeps `[-10, 3, 3, 4, 5, 7]`. */
  lemma AddAllEmptyExample()
    ensures AddAll(FromBatch([-10, 5, 4, 3, 7, 3]), []).list == [-10, 3, 3, 4, 5, 7]
  {
    ConstructorExample();
    ConstructedSorted([-10, 3, 3, 4, 5, 7]);
    AddAllEmpty([-10, 3, 3, 4, 5, 7]);
  }

  /** A single add of a value smaller than all others lands at the front. */
  lemma AddFrontExample()
    ensures Add(FromBatch([-10, 5, 4, 3, 7, 3]), -22).list == [-22, -10, 3, 3, 4, 5, 7]
  {
    ConstructorExample();
    AddFront(FromBatch([-10, 5, 4, 3, 7, 3]), -22, [-22, -10, 3, 3, 4, 5, 7]);
  }

  lemma AddFront(list: seq<int>, e: int, expected: seq<int>)
    requires list == [-10, 3, 3, 4, 5, 7] && e == -22
    requires expected == [-22, -10, 3, 3, 4, 5, 7]
    ensures Add(list, e).list == expected
  {
    assert list == [] + list;
    assert expected == [] + [e] + list;
    AddToConstructed(list, [], list, e, expected);
  }

  /** A single add of a value larger than all others lands at the end. */
  lemma AddEndExample()
    ensures Add(FromBatch([-10, 5, 4, 3, 7, 3]), 22).list == [-10, 3, 3, 4, 5, 7, 22]
  {
    ConstructorExample();
    AddEnd(FromBatch([-10, 5, 4, 3, 7, 3]), 22, [-10, 3, 3, 4, 5, 7, 22]);
  }

  lemma AddEnd(list: seq<int>, e: int, expected: seq<int>)
    requires list == [-10, 3, 3, 4, 5, 7] && e == 22
    requires expected == [-10, 3, 3, 4, 5, 7, 22]
    ensures Add(list, e).list == expected
  {
    assert list == list + [];
    assert expected == list + [e] + [];
    AddToConstructed(list, list, [], e, expected);
  }

  /** A single add of an in-between value lands in the middle. */
  lemma AddMiddleExample()
    ensures Add(FromBatch([-10, 5, 4, 3, 7, 3]), 6).list == [-10, 3, 3, 4, 5, 6, 7]
  {
    ConstructorExample();
    AddMiddle(FromBatch([-10, 5, 4, 3, 7, 3]), 6, [-10, 3, 3, 4, 5, 6, 7]);
  }

  lemma AddMiddle(list: seq<int>, e: int, expected: seq<int>)
    requires list == [-10, 3, 3, 4, 5, 7] && e == 6
    requires expected == [-10, 3, 3, 4, 5, 6, 7]
    ensures Add(list, e).list == expected
  {
    var before, after := [-10, 3, 3, 4, 5], [7];
    assert list == before + after;
    assert expected == before + [e] + after;
    AddToConstructed(list, before, after, e, expected);
  }

  /** Adding `e` to the constructed list `[-10, 3, 3, 4, 5, 7]` puts it between the elements
      not larger than it and those not smaller. */
  lemma AddToConstructed(list: seq<int>, before: seq<int>, after: seq<int>, e: int, expected: seq<int>)
    requires list == [-10, 3, 3, 4, 5, 7]
    requires list == before + after
    requires forall i :: 0 <= i < |before| ==> before[i] <= e
    requires forall i :: 0 <= i < |after| ==> e <= after[i]
    requires expected == before + [e] + after
    ensures Add(list, e).list == expected
  {
    ConstructedSorted(list);
    var k := |before|;
    assert list[..k] == before && list[k..] == after;
    AddPlacement(list, e, k);
  }

  /** Any run of single adds starting from the empty list builds the list the constructor
      builds from the whole batch, and reading it back, every adjacent pair is in order. */
  lemma RepeatedAddsMatchBatch(xs: seq<int>)
    ensures AddEach([], xs) == FromBatch(xs)
    ensures forall i :: 1 <= i < |xs| ==> AddEach([], xs)[i - 1] <= AddEach([], xs)[i]
  {
    var built := AddEach([], xs);
    SortedUnique(built, FromBatch(xs));
    assert |built| == |xs| by {
      assert |multiset(built)| == |multiset(xs)|;
    }
  }
}
