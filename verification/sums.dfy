/**
 Finite sums over exact reals.

 `Sum(n, f)` is the left fold `((0 + f(0)) + f(1)) + ... + f(n-1)`, the order in
 which every accumulation loop of the finite-element code adds its terms. The
 lemmas here are the algebra the rest of the model needs: extensionality,
 linearity, positivity, single-entry updates and the exchange of a double sum.
 */
module Sums {

  function Sum(n: nat, f: nat -> real): real
    decreases n
  {
    if n == 0 then 0.0 else Sum(n - 1, f) + f(n - 1)
  }

  /** Sums of functions that agree below `n` are equal. */
  lemma {:induction false} SumExt(n: nat, f: nat -> real, g: nat -> real)
    requires forall i: nat :: i < n ==> f(i) == g(i)
    ensures Sum(n, f) == Sum(n, g)
  {
    if n > 0 {
      SumExt(n - 1, f, g);
    }
  }

  /** Linearity: a pointwise sum of terms sums to the sum of the sums. */
  lemma {:induction false} SumAdd(n: nat, h: nat -> real, f: nat -> real, g: nat -> real)
    requires forall i: nat :: i < n ==> h(i) == f(i) + g(i)
    ensures Sum(n, h) == Sum(n, f) + Sum(n, g)
  {
    if n > 0 {
      SumAdd(n - 1, h, f, g);
    }
  }

  /** Linearity: a constant factor moves out of the sum. */
  lemma {:induction false} SumScale(n: nat, h: nat -> real, f: nat -> real, c: real)
    requires forall i: nat :: i < n ==> h(i) == c * f(i)
    ensures Sum(n, h) == c * Sum(n, f)
  {
    if n > 0 {
      SumScale(n - 1, h, f, c);
    }
  }

  lemma {:induction false} SumZero(n: nat, f: nat -> real)
    requires forall i: nat :: i < n ==> f(i) == 0.0
    ensures Sum(n, f) == 0.0
  {
    if n > 0 {
      SumZero(n - 1, f);
    }
  }

  lemma {:induction false} SumNonneg(n: nat, f: nat -> real)
    requires forall i: nat :: i < n ==> 0.0 <= f(i)
    ensures 0.0 <= Sum(n, f)
  {
    if n > 0 {
      SumNonneg(n - 1, f);
    }
  }

  /** A sum of non-negative terms vanishes only if every term does. */
  lemma {:induction false} SumZeroNonneg(n: nat, f: nat -> real)
    requires forall i: nat :: i < n ==> 0.0 <= f(i)
    requires Sum(n, f) == 0.0
    ensures forall i: nat :: i < n ==> f(i) == 0.0
  {
    if n > 0 {
      SumNonneg(n - 1, f);
      SumZeroNonneg(n - 1, f);
    }
  }

  /** A sum whose terms vanish except at `k` is the term at `k`. */
  lemma {:induction false} SumSingle(n: nat, f: nat -> real, k: nat)
    requires k < n
    requires forall i: nat :: i < n && i != k ==> f(i) == 0.0
    ensures Sum(n, f) == f(k)
  {
    if k < n - 1 {
      SumSingle(n - 1, f, k);
    } else {
      SumZero(n - 1, f);
    }
  }

  /** Changing one term changes the sum by exactly the change of that term. */
  lemma {:induction false} SumUpdate(n: nat, f: nat -> real, g: nat -> real, k: nat)
    requires k < n
    requires forall i: nat :: i < n && i != k ==> f(i) == g(i)
    ensures Sum(n, g) == Sum(n, f) + (g(k) - f(k))
  {
    if k < n - 1 {
      SumUpdate(n - 1, f, g, k);
    } else {
      SumExt(n - 1, f, g);
    }
  }

  /** Row `i` and column `j` of a two-index term. */
  function Row(f: (nat, nat) -> real, i: nat): nat -> real
  {
    (j: nat) => f(i, j)
  }

  function Col(f: (nat, nat) -> real, j: nat): nat -> real
  {
    (i: nat) => f(i, j)
  }

  /** The row sums `i |-> f(i,0) + ... + f(i,n-1)`. */
  function RowSums(f: (nat, nat) -> real, n: nat): nat -> real
  {
    (i: nat) => Sum(n, Row(f, i))
  }

  /** Sum over `i < m` of the sum over `j < n` of `f(i, j)`, rows outermost. */
  function DoubleSum(m: nat, n: nat, f: (nat, nat) -> real): real
  {
    Sum(m, RowSums(f, n))
  }

  /** Peeling the last column off a double sum. */
  lemma {:induction false} DoubleSumLastColumn(m: nat, n: nat, f: (nat, nat) -> real)
    ensures DoubleSum(m, n + 1, f) == DoubleSum(m, n, f) + Sum(m, Col(f, n))
  {
    if m > 0 {
      DoubleSumLastColumn(m - 1, n, f);
      assert RowSums(f, n + 1)(m - 1) == RowSums(f, n)(m - 1) + Col(f, n)(m - 1);
    }
  }

  /** Exchange of summation order: a double sum over `f` equals the double sum
      over any `g` that is `f` with its indices swapped. */
  lemma {:induction false} DoubleSumSwap(m: nat, n: nat, f: (nat, nat) -> real, g: (nat, nat) -> real)
    requires forall i: nat, j: nat :: i < m && j < n ==> f(i, j) == g(j, i)
    ensures DoubleSum(m, n, f) == DoubleSum(n, m, g)
  {
    if m > 0 {
      DoubleSumSwap(m - 1, n, f, g);
      DoubleSumLastColumn(n, m - 1, g);
      SumExt(n, Row(f, m - 1), Col(g, m - 1));
      assert DoubleSum(m, n, f) == DoubleSum(m - 1, n, f) + Sum(n, Row(f, m - 1));
    } else {
      SumZero(n, RowSums(g, 0));
    }
  }
}
