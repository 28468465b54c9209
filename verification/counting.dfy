/**
 Counting facts the combinatoric enumerations are measured against: the
 number of positions below `n`, the size of an injective image, and the
 factorial, binomial coefficient and falling factorial.
 */
module Counting {

  /** The positions `0 .. n-1`. */
  function Range(n: nat): (r: set<nat>)
    ensures forall p: nat :: p in r <==> p < n
    ensures |r| == n
  {
    if n == 0 then {} else Range(n - 1) + {n - 1}
  }

  /** `f` never maps two members of `s` to the same value. */
  ghost predicate InjectiveOn<A, B>(s: set<A>, f: A -> B) {
    forall x, y :: x in s && y in s && f(x) == f(y) ==> x == y
  }

  /** The image of `s` under `f`. */
  ghost function Image<A, B>(s: set<A>, f: A -> B): set<B> {
    set x | x in s :: f(x)
  }

  /** An injective image of a set is as large as the set. */
  lemma {:induction false} InjectiveImageCard<A, B>(s: set<A>, f: A -> B)
    requires InjectiveOn(s, f)
    ensures |Image(s, f)| == |s|
    decreases s
  {
    if s != {} {
      var x :| x in s;
      var rest := s - {x};
      InjectiveImageCard(rest, f);
      assert Image(s, f) == Image(rest, f) + {f(x)};
      assert f(x) !in Image(rest, f);
    }
  }

  /** `n!`. */
  function Fact(n: nat): (r: nat)
    ensures r >= 1
  {
    if n == 0 then 1 else n * Fact(n - 1)
  }

  /** The binomial coefficient `C(n, k)`, by Pascal's rule. */
  function Binom(n: nat, k: nat): nat {
    if k == 0 then 1
    else if n == 0 then 0
    else Binom(n - 1, k) + Binom(n - 1, k - 1)
  }

  /** The falling factorial `n (n-1) ... (n-k+1)`: the number of ordered selections of `k` out of `n`. */
  function Falling(n: nat, k: nat): nat {
    if k == 0 then 1
    else if k > n then 0
    else (n - k + 1) * Falling(n, k - 1)
  }

  /** One more pick multiplies by the `n - k` values left, or leaves none when none are left. */
  lemma FallingStep(n: nat, k: nat, j: nat)
    requires j == k + 1
    ensures Falling(n, j) == if k < n then Falling(n, k) * (n - k) else 0
  {
    assert j - 1 == k;
  }

  /** There is no way to choose more than `n` out of `n`. */
  lemma {:induction false} BinomAboveN(n: nat, k: nat)
    requires k > n
    ensures Binom(n, k) == 0
  {
    if n > 0 {
      BinomAboveN(n - 1, k);
      BinomAboveN(n - 1, k - 1);
    }
  }

  /** `C(n, k) = n! / (k! (n-k)!)`, stated without division. */
  lemma {:induction false} BinomFactorial(n: nat, k: nat)
    requires k <= n
    ensures Binom(n, k) * Fact(k) * Fact(n - k) == Fact(n)
  {
    if k == 0 {
    } else if k == n {
      BinomAboveN(n - 1, n);
      BinomFactorial(n - 1, n - 1);
      BinomDiagonal(n);
    } else {
      BinomFactorial(n - 1, k);
      BinomFactorial(n - 1, k - 1);
      BinomFactorialPascal(n, k, n - k);
    }
  }

  /** `C(n, n) = 1`, from `C(n-1, n-1) = 1` and `C(n-1, n) = 0`. */
  lemma BinomDiagonal(n: nat)
    requires n > 0
    requires Binom(n - 1, n) == 0
    requires Binom(n - 1, n - 1) * Fact(n - 1) * Fact(0) == Fact(n - 1)
    ensures Binom(n, n) * Fact(n) * Fact(0) == Fact(n)
  {
    var b := Binom(n - 1, n - 1);
    assert b * Fact(n - 1) == 1 * Fact(n - 1);
    assert b == 1;
  }

  /** Pascal's rule carries the factorial identity from `n - 1` to `n`: `k! (n-k)!` is `k`
      times the one of `C(n-1, k-1)` and `n - k` times the one of `C(n-1, k)`. */
  lemma BinomFactorialPascal(n: nat, k: nat, m: nat)
    requires 0 < k < n && m == n - k
    requires Binom(n - 1, k) * Fact(k) * Fact(n - 1 - k) == Fact(n - 1)
    requires Binom(n - 1, k - 1) * Fact(k - 1) * Fact(n - 1 - (k - 1)) == Fact(n - 1)
    ensures Binom(n, k) * Fact(k) * Fact(m) == Fact(n)
  {
    var b1, b2 := Binom(n - 1, k), Binom(n - 1, k - 1);
    var fk, fk1, fm, fm1 := Fact(k), Fact(k - 1), Fact(m), Fact(m - 1);
    var f := Fact(n - 1);
    assert Fact(n - 1 - k) == fm1 && Fact(n - 1 - (k - 1)) == fm;
    assert fk == k * fk1 && fm == m * fm1;
    PascalArith(b1, b2, fk, fk1, fm, fm1, k, m, f);
    assert Binom(n, k) == b1 + b2;
    assert Fact(n) == n * f;
  }

  /** The arithmetic of Pascal's rule for `C(n, k) k! (n-k)!`, with `m = n - k`. */
  lemma PascalArith(b1: int, b2: int, fk: int, fk1: int, fm: int, fm1: int, k: int, m: int, f: int)
    requires fk == k * fk1 && fm == m * fm1
    requires b1 * fk * fm1 == f
    requires b2 * fk1 * fm == f
    ensures (b1 + b2) * fk * fm == (m + k) * f
  {
    ScaledTerm(b1, fk, m, fm1, f);
    Swap(b2, fk1, fm);
    ScaledTerm(b2, fm, k, fk1, f);
    Swap(b2, fm, fk);
    Distribute(b1, b2, fk, fm, m, k, f);
  }

  /** `a b (c d) = c f` when `a b d = f`. */
  lemma ScaledTerm(a: int, b: int, c: int, d: int, f: int)
    requires a * b * d == f
    ensures a * b * (c * d) == c * f
  {
    Rotate(a, b, c, d);
  }

  lemma Rotate(a: int, b: int, c: int, d: int)
    ensures a * b * (c * d) == c * (a * b * d)
  {
  }

  lemma Swap(a: int, b: int, c: int)
    ensures a * b * c == a * c * b
  {
  }

  lemma Distribute(b1: int, b2: int, x: int, y: int, u: int, v: int, f: int)
    requires b1 * x * y == u * f
    requires b2 * y * x == v * f
    ensures (b1 + b2) * x * y == (u + v) * f
  {
    assert (b1 + b2) * x * y == b1 * x * y + b2 * x * y;
    assert b2 * x * y == b2 * y * x;
  }

  /** `n!/(n-k)!` counts the ordered selections, stated without division. */
  lemma {:induction false} FallingFactorial(n: nat, k: nat)
    requires k <= n
    ensures Falling(n, k) * Fact(n - k) == Fact(n)
  {
    if k > 0 {
      FallingFactorial(n, k - 1);
      FallingFactorialStep(n, k - 1, k);
    }
  }

  /** One more pick moves a factor from the factorial into the falling factorial. */
  lemma FallingFactorialStep(n: nat, i: nat, k: nat)
    requires k == i + 1 && k <= n
    requires Falling(n, i) * Fact(n - i) == Fact(n)
    ensures Falling(n, k) * Fact(n - k) == Fact(n)
  {
    var d := n - i;
    var f := Falling(n, i);
    var g := Fact(n - k);
    assert Falling(n, k) == d * f;
    assert Fact(n - i) == d * g;
    Regroup(d, f, g);
  }

  lemma Regroup(a: int, b: int, c: int)
    ensures a * b * c == b * (a * c)
  {
  }

  /** The factorial never decreases. */
  lemma {:induction false} FactMonotone(k: nat, m: nat)
    requires k <= m
    ensures Fact(k) <= Fact(m)
    decreases m - k
  {
    if k < m {
      FactMonotone(k, m - 1);
      assert Fact(m) == m * Fact(m - 1);
    }
  }
}
