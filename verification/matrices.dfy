/**
 Dense vectors and matrices over exact reals, with the sums the assembly and
 its properties are stated in: entry totals, row totals, dot products and the
 matrix-vector product.
 */
module Matrices {
  import opened Sums

  type Vector = seq<real>
  type Matrix = seq<seq<real>>

  /** `K` is an `n` by `n` matrix. */
  predicate IsSquare(K: Matrix, n: nat)
  {
    |K| == n && forall r :: 0 <= r < n ==> |K[r]| == n
  }

  predicate Symmetric(K: Matrix)
    requires IsSquare(K, |K|)
  {
    forall a, b :: 0 <= a < |K| && 0 <= b < |K| ==> K[a][b] == K[b][a]
  }

  function Zeros(n: nat): (v: Vector)
    ensures |v| == n
    ensures forall i :: 0 <= i < n ==> v[i] == 0.0
  {
    seq(n, i => 0.0)
  }

  function ZeroMatrix(n: nat): (K: Matrix)
    ensures IsSquare(K, n)
    ensures forall a, b :: 0 <= a < n && 0 <= b < n ==> K[a][b] == 0.0
  {
    seq(n, i => Zeros(n))
  }

  /** The entries of `v` as a function of the index, zero past the end. */
  function At(v: Vector): nat -> real
  {
    (i: nat) => if i < |v| then v[i] else 0.0
  }

  /** `v[0] + ... + v[|v|-1]`. */
  function Total(v: Vector): real
  {
    Sum(|v|, At(v))
  }

  function RowTotals(K: Matrix): nat -> real
  {
    (r: nat) => if r < |K| then Total(K[r]) else 0.0
  }

  /** The sum of every entry of `K`, row by row. */
  function TotalSum(K: Matrix): real
  {
    Sum(|K|, RowTotals(K))
  }

  function Products(a: Vector, b: Vector): nat -> real
  {
    (i: nat) => if i < |a| && i < |b| then a[i] * b[i] else 0.0
  }

  /** `a[0]*b[0] + ... `, over the indices of `a`. */
  function Dot(a: Vector, b: Vector): real
  {
    Sum(|a|, Products(a, b))
  }

  function MatVec(K: Matrix, x: Vector): (y: Vector)
    ensures |y| == |K|
    ensures forall r :: 0 <= r < |K| ==> y[r] == Dot(K[r], x)
  {
    seq(|K|, (r: int) requires 0 <= r < |K| => Dot(K[r], x))
  }

  /** `K[p][q] += v`, the single update every scatter-add is made of. */
  function AddAt(K: Matrix, p: nat, q: nat, v: real): (K': Matrix)
    requires p < |K| && q < |K[p]|
    ensures |K'| == |K|
    ensures forall r :: 0 <= r < |K| ==> |K'[r]| == |K[r]|
    ensures forall r, c :: 0 <= r < |K| && 0 <= c < |K[r]| ==>
      K'[r][c] == K[r][c] + (if r == p && c == q then v else 0.0)
  {
    K[p := K[p][q := K[p][q] + v]]
  }

  /** `F[p] += v`. */
  function AddAtVec(F: Vector, p: nat, v: real): (F': Vector)
    requires p < |F|
    ensures |F'| == |F|
    ensures forall r :: 0 <= r < |F| ==> F'[r] == F[r] + (if r == p then v else 0.0)
  {
    F[p := F[p] + v]
  }

  lemma TotalUpdate(v: Vector, q: nat, x: real)
    requires q < |v|
    ensures Total(v[q := x]) == Total(v) + (x - v[q])
  {
    SumUpdate(|v|, At(v), At(v[q := x]), q);
  }

  /** An update adds its value to the total of its own row and to no other. */
  lemma AddAtRowTotal(K: Matrix, p: nat, q: nat, v: real, r: nat)
    requires p < |K| && q < |K[p]| && r < |K|
    ensures Total(AddAt(K, p, q, v)[r]) == Total(K[r]) + (if r == p then v else 0.0)
  {
    if r == p {
      TotalUpdate(K[p], q, K[p][q] + v);
    }
  }

  /** An update adds its value to the sum of all entries. */
  lemma AddAtTotalSum(K: Matrix, p: nat, q: nat, v: real)
    requires p < |K| && q < |K[p]|
    ensures TotalSum(AddAt(K, p, q, v)) == TotalSum(K) + v
  {
    var K' := AddAt(K, p, q, v);
    forall r: nat | r < |K|
      ensures RowTotals(K')(r) == RowTotals(K)(r) + (if r == p then v else 0.0)
    {
      AddAtRowTotal(K, p, q, v, r);
    }
    SumUpdate(|K|, RowTotals(K), RowTotals(K'), p);
  }

  /** An update of `K[p][q]` by `v` adds `v * x[q]` to entry `p` of `K x`. */
  lemma AddAtMatVec(K: Matrix, p: nat, q: nat, v: real, x: Vector, r: nat)
    requires IsSquare(K, |x|)
    requires p < |K| && q < |K| && r < |K|
    ensures MatVec(AddAt(K, p, q, v), x)[r] == MatVec(K, x)[r] + (if r == p then v * x[q] else 0.0)
  {
    var K' := AddAt(K, p, q, v);
    if r == p {
      SumUpdate(|x|, Products(K[r], x), Products(K'[r], x), q);
    } else {
      assert K'[r] == K[r];
    }
  }

  /** Zero-initialised storage has zero totals. */
  lemma ZeroTotals(n: nat)
    ensures TotalSum(ZeroMatrix(n)) == 0.0 && Total(Zeros(n)) == 0.0
  {
    SumZero(n, At(Zeros(n)));
    forall r: nat | r < n
      ensures RowTotals(ZeroMatrix(n))(r) == 0.0
    {
    }
    SumZero(n, RowTotals(ZeroMatrix(n)));
  }

  /** Short vectors, as the two- and three-node elements use them. */
  lemma SumsOfTwo(a: Vector, b: Vector)
    requires |a| == 2 && |b| == 2
    ensures Total(a) == a[0] + a[1]
    ensures Dot(a, b) == a[0] * b[0] + a[1] * b[1]
  {
    assert Sum(2, At(a)) == Sum(1, At(a)) + a[1];
    assert Sum(2, Products(a, b)) == Sum(1, Products(a, b)) + Products(a, b)(1);
  }

  lemma SumsOfThree(a: Vector, b: Vector)
    requires |a| == 3 && |b| == 3
    ensures Total(a) == a[0] + a[1] + a[2]
    ensures Dot(a, b) == a[0] * b[0] + a[1] * b[1] + a[2] * b[2]
  {
    assert Sum(3, At(a)) == Sum(2, At(a)) + a[2];
    assert Sum(2, At(a)) == Sum(1, At(a)) + a[1];
    assert Sum(3, Products(a, b)) == Sum(2, Products(a, b)) + Products(a, b)(2);
    assert Sum(2, Products(a, b)) == Sum(1, Products(a, b)) + Products(a, b)(1);
  }
}
