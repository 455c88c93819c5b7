/**
 Gauss-Legendre quadrature on the reference interval [-1, 1] and the 1D
 Lagrange shape functions of the two-node (linear) and three-node (quadratic)
 elements, with their isoparametric Jacobian.

 The square root the abscissae of the two- and three-point rules are built
 from is a parameter `sqrt` known only by `IsSqrt`: it returns the
 non-negative root of every non-negative argument.
 */
module GaussShape {
  import opened Sums
  import opened Matrices

  ghost predicate IsSqrt(sqrt: real -> real)
  {
    forall x: real :: 0.0 <= x ==> 0.0 <= sqrt(x) && sqrt(x) * sqrt(x) == x
  }

  /** A quadrature rule: abscissae `points` with matching `weights`. */
  datatype Rule = Rule(points: seq<real>, weights: seq<real>)

  function WeightSum(r: Rule): real
  {
    Total(r.weights)
  }

  /** Squaring is strictly increasing on the non-negative reals. */
  lemma SquareStrictMono(a: real, b: real)
    requires 0.0 <= a < b
    ensures a * a < b * b
  {
    var aa, ab, bb := a * a, a * b, b * b;
    assert aa <= ab;
    assert ab < bb;
  }

  lemma ProductSigns(a: real, b: real)
    requires 0.0 <= a && 0.0 < b
    ensures 0.0 <= a * b
    ensures 0.0 < a ==> 0.0 < a * b
  {
  }

  /** The square root of `x` is the unique non-negative number squaring to `x`. */
  lemma SqrtOfSquare(sqrt: real -> real, x: real, y: real)
    requires IsSqrt(sqrt)
    requires 0.0 <= y && y * y == x
    ensures sqrt(x) == y
  {
    var s := sqrt(x);
    assert 0.0 <= s && s * s == x;
    if s < y {
      SquareStrictMono(s, y);
    } else if y < s {
      SquareStrictMono(y, s);
    }
  }

  /** The positive abscissa of the two-point rule, 1/sqrt(3). */
  lemma TwoPointAbscissa(sqrt: real -> real)
    requires IsSqrt(sqrt)
    ensures 0.0 < sqrt(3.0)
    ensures (1.0 / sqrt(3.0)) * (1.0 / sqrt(3.0)) == 1.0 / 3.0
    ensures 0.0 < 1.0 / sqrt(3.0) < 1.0
  {
    var s := sqrt(3.0);
    assert s * s == 3.0;
    if s <= 1.0 {
      if s < 1.0 {
        SquareStrictMono(s, 1.0);
      }
      assert false;
    }
    var p := 1.0 / s;
    assert p * s == 1.0;
    var pp, ss, ps := p * p, s * s, p * s;
    assert pp * ss == ps * ps;
  }

  /** The positive abscissa of the three-point rule, sqrt(3/5). */
  lemma ThreePointAbscissa(sqrt: real -> real)
    requires IsSqrt(sqrt)
    ensures sqrt(3.0 / 5.0) * sqrt(3.0 / 5.0) == 3.0 / 5.0
    ensures 0.0 < sqrt(3.0 / 5.0) < 1.0
  {
    var s := sqrt(3.0 / 5.0);
    assert s * s == 3.0 / 5.0;
    if 1.0 <= s {
      if 1.0 < s {
        SquareStrictMono(1.0, s);
      }
      assert false;
    }
  }

  /** `n` points inside (-1, 1) in increasing order with positive weights,
      placed and weighted symmetrically about the origin. */
  predicate SymmetricRule(r: Rule, n: nat)
  {
    |r.points| == n && |r.weights| == n &&
    (forall i, j :: 0 <= i < n && 0 <= j < n && i + j == n - 1 ==>
      r.points[i] == -r.points[j] && r.weights[i] == r.weights[j]) &&
    (forall i :: 0 <= i < n ==> -1.0 < r.points[i] < 1.0 && 0.0 < r.weights[i]) &&
    (forall i, j :: 0 <= i < j < n ==> r.points[i] < r.points[j])
  }

  function GaussOne(): (r: Rule)
    ensures SymmetricRule(r, 1) && WeightSum(r) == 2.0
  {
    Rule([0.0], [2.0])
  }

  function GaussTwo(sqrt: real -> real): (r: Rule)
    requires IsSqrt(sqrt)
    ensures SymmetricRule(r, 2) && WeightSum(r) == 2.0
  {
    TwoPointAbscissa(sqrt);
    Rule([-1.0 / sqrt(3.0), 1.0 / sqrt(3.0)], [1.0, 1.0])
  }

  function GaussThree(sqrt: real -> real): (r: Rule)
    requires IsSqrt(sqrt)
    ensures SymmetricRule(r, 3) && WeightSum(r) == 2.0
  {
    ThreePointAbscissa(sqrt);
    Rule([-sqrt(3.0 / 5.0), 0.0, sqrt(3.0 / 5.0)], [5.0 / 9.0, 8.0 / 9.0, 5.0 / 9.0])
  }

  /** The four-point rule as tabulated in double precision; its weights sum
      to 1.9999999999999998, not 2. */
  const FourPoints: seq<real> := [-0.8611363115940526, -0.3399810435848563, 0.3399810435848563, 0.8611363115940526]
  const FourWeights: seq<real> := [0.3478548451374538, 0.6521451548625461, 0.6521451548625461, 0.3478548451374538]

  function GaussFour(): (r: Rule)
    ensures SymmetricRule(r, 4) && WeightSum(r) == 1.9999999999999998
  {
    Rule(FourPoints, FourWeights)
  }

  /** The Gauss-Legendre rule with `lint` points, as tabulated for 1 to 4
      points; no other order is tabulated. */
  function Gauss(lint: nat, sqrt: real -> real): (r: Rule)
    requires 1 <= lint <= 4
    requires IsSqrt(sqrt)
    ensures SymmetricRule(r, lint)
    ensures lint <= 3 ==> WeightSum(r) == 2.0
    ensures lint == 4 ==> WeightSum(r) == 1.9999999999999998
  {
    if lint == 1 then GaussOne()
    else if lint == 2 then GaussTwo(sqrt)
    else if lint == 3 then GaussThree(sqrt)
    else GaussFour()
  }

  /** The rule applied to `phi`: the sum of `weights[q] * phi(points[q])`. */
  function QuadTerms(r: Rule, phi: real -> real): nat -> real
  {
    (q: nat) => if q < |r.points| && q < |r.weights| then r.weights[q] * phi(r.points[q]) else 0.0
  }

  function Quadrature(r: Rule, phi: real -> real): real
  {
    Sum(|r.points|, QuadTerms(r, phi))
  }

  function Pow(x: real, k: nat): real
  {
    if k == 0 then 1.0 else x * Pow(x, k - 1)
  }

  function Monomial(k: nat): real -> real
  {
    x => Pow(x, k)
  }

  /** The exact integral of the monomial of degree `k` over [-1, 1]. */
  function Moment(k: nat): real
  {
    if k % 2 == 0 then 2.0 / (k as real + 1.0) else 0.0
  }

  /** The polynomial with coefficients `c`: `c[0] + c[1] x + ... `. */
  function PolyTerms(c: seq<real>, x: real): nat -> real
  {
    (k: nat) => if k < |c| then c[k] * Pow(x, k) else 0.0
  }

  function Poly(c: seq<real>): real -> real
  {
    x => Sum(|c|, PolyTerms(c, x))
  }

  /** The exact integral of `Poly(c)` over [-1, 1]. */
  function PolyMoments(c: seq<real>): nat -> real
  {
    (k: nat) => if k < |c| then c[k] * Moment(k) else 0.0
  }

  lemma {:induction false} PowNegate(x: real, k: nat)
    ensures Pow(-x, k) == (if k % 2 == 0 then Pow(x, k) else -Pow(x, k))
  {
    if k > 0 {
      PowNegate(x, k - 1);
    }
  }

  lemma {:induction false} PowSquare(x: real, k: nat)
    ensures Pow(x, 2 * k) == Pow(x * x, k)
  {
    if k > 0 {
      PowSquare(x, k - 1);
      assert Pow(x, 2 * k) == x * (x * Pow(x, 2 * k - 2));
    }
  }

  /** An even power of `x` is the half power of `x * x`. */
  lemma PowEven(x: real, k: nat)
    requires k % 2 == 0
    ensures Pow(x, k) == Pow(x * x, k / 2)
  {
    PowSquare(x, k / 2);
    assert 2 * (k / 2) == k;
  }

  lemma PowZero(k: nat)
    requires 0 < k
    ensures Pow(0.0, k) == 0.0
  {
  }

  /** On a symmetric pair of points the odd monomials cancel and the even
      ones double. */
  lemma SymmetricPair(p: real, k: nat)
    ensures Pow(-p, k) + Pow(p, k) == (if k % 2 == 0 then 2.0 * Pow(p * p, k / 2) else 0.0)
  {
    PowNegate(p, k);
    if k % 2 == 0 {
      PowEven(p, k);
    }
  }

  lemma TwoPointMoments(sqrt: real -> real, k: nat)
    requires IsSqrt(sqrt)
    ensures Quadrature(GaussTwo(sqrt), Monomial(k))
      == (if k % 2 == 0 then 2.0 * Pow(1.0 / 3.0, k / 2) else 0.0)
  {
    var r := GaussTwo(sqrt);
    var p := 1.0 / sqrt(3.0);
    TwoPointAbscissa(sqrt);
    assert r.points == [-p, p];
    assert Quadrature(r, Monomial(k)) == Pow(-p, k) + Pow(p, k);
    SymmetricPair(p, k);
    var pp := p * p;
    assert pp == 1.0 / 3.0;
    assert Pow(pp, k / 2) == Pow(1.0 / 3.0, k / 2);
  }

  lemma ThreePointMoments(sqrt: real -> real, k: nat)
    requires IsSqrt(sqrt)
    ensures Quadrature(GaussThree(sqrt), Monomial(k))
      == (if k == 0 then 2.0
          else if k % 2 == 0 then (10.0 / 9.0) * Pow(3.0 / 5.0, k / 2)
          else 0.0)
  {
    var r := GaussThree(sqrt);
    var p := sqrt(3.0 / 5.0);
    ThreePointAbscissa(sqrt);
    assert r.points == [-p, 0.0, p];
    var a, z, b := Pow(-p, k), Pow(0.0, k), Pow(p, k);
    assert Quadrature(r, Monomial(k)) == (5.0 / 9.0) * a + (8.0 / 9.0) * z + (5.0 / 9.0) * b;
    SymmetricPair(p, k);
    var pp := p * p;
    assert pp == 3.0 / 5.0;
    assert Pow(pp, k / 2) == Pow(3.0 / 5.0, k / 2);
    if k > 0 {
      PowZero(k);
    }
  }

  /** The n-point rule, n = 1, 2, 3, integrates every monomial of degree at
      most 2n-1 over [-1, 1] exactly. */
  lemma GaussExactMonomial(lint: nat, sqrt: real -> real, k: nat)
    requires 1 <= lint <= 3
    requires IsSqrt(sqrt)
    requires k < 2 * lint
    ensures Quadrature(Gauss(lint, sqrt), Monomial(k)) == Moment(k)
  {
    if lint == 1 {
      OnePointExact(k);
    } else if lint == 2 {
      TwoPointExact(sqrt, k);
    } else {
      ThreePointExact(sqrt, k);
    }
  }

  lemma OnePointMoments(k: nat)
    ensures Quadrature(GaussOne(), Monomial(k)) == (if k == 0 then 2.0 else 0.0)
  {
    assert Quadrature(GaussOne(), Monomial(k)) == 2.0 * Pow(0.0, k);
    if k > 0 {
      PowZero(k);
    }
  }

  lemma OnePointExact(k: nat)
    requires k < 2
    ensures Quadrature(GaussOne(), Monomial(k)) == Moment(k)
  {
    OnePointMoments(k);
    assert k == 0 || k % 2 == 1;
  }

  lemma TwoPointExact(sqrt: real -> real, k: nat)
    requires IsSqrt(sqrt) && k < 4
    ensures Quadrature(GaussTwo(sqrt), Monomial(k)) == Moment(k)
  {
    TwoPointMoments(sqrt, k);
    if k == 2 {
      assert Pow(1.0 / 3.0, 1) == 1.0 / 3.0;
    }
  }

  lemma ThreePointExact(sqrt: real -> real, k: nat)
    requires IsSqrt(sqrt) && k < 6
    ensures Quadrature(GaussThree(sqrt), Monomial(k)) == Moment(k)
  {
    ThreePointMoments(sqrt, k);
    if k == 2 {
      assert Pow(3.0 / 5.0, 1) == 3.0 / 5.0;
    } else if k == 4 {
      assert Pow(3.0 / 5.0, 2) == 9.0 / 25.0;
    }
  }

  /** The degree 2n-1 of the previous lemma is sharp: the n-point rule
      misses the integral of the monomial of degree 2n. */
  lemma GaussInexactBeyond(lint: nat, sqrt: real -> real)
    requires 1 <= lint <= 3
    requires IsSqrt(sqrt)
    ensures Quadrature(Gauss(lint, sqrt), Monomial(2 * lint)) != Moment(2 * lint)
  {
    if lint == 1 {
      OnePointInexact();
    } else if lint == 2 {
      TwoPointInexact(sqrt);
    } else {
      assert lint == 3;
      ThreePointInexact(sqrt);
    }
  }

  lemma OnePointInexact()
    ensures Quadrature(GaussOne(), Monomial(2)) != Moment(2)
  {
    OnePointMoments(2);
    assert Moment(2) == 2.0 / 3.0;
  }

  lemma TwoPointInexact(sqrt: real -> real)
    requires IsSqrt(sqrt)
    ensures Quadrature(GaussTwo(sqrt), Monomial(4)) != Moment(4)
  {
    TwoPointMoments(sqrt, 4);
    assert Pow(1.0 / 3.0, 2) == 1.0 / 9.0;
    assert Moment(4) == 2.0 / 5.0;
  }

  lemma ThreePointInexact(sqrt: real -> real)
    requires IsSqrt(sqrt)
    ensures Quadrature(GaussThree(sqrt), Monomial(6)) != Moment(6)
  {
    ThreePointMoments(sqrt, 6);
    assert Pow(3.0 / 5.0, 3) == 27.0 / 125.0;
    assert Moment(6) == 2.0 / 7.0;
  }

  lemma FourPointMoments(k: nat)
    ensures Quadrature(Rule(FourPoints, FourWeights), Monomial(k))
      == (if k % 2 == 0
          then 0.3478548451374538 * (2.0 * Pow(0.8611363115940526 * 0.8611363115940526, k / 2))
             + 0.6521451548625461 * (2.0 * Pow(0.3399810435848563 * 0.3399810435848563, k / 2))
          else 0.0)
  {
    var r := Rule(FourPoints, FourWeights);
    var p0, p1 := 0.8611363115940526, 0.3399810435848563;
    var w0, w1 := 0.3478548451374538, 0.6521451548625461;
    assert r.points == [-p0, -p1, p1, p0];
    var a0, a1, b1, b0 := Pow(-p0, k), Pow(-p1, k), Pow(p1, k), Pow(p0, k);
    QuadratureOfFour(r, Monomial(k));
    assert Quadrature(r, Monomial(k)) == w0 * a0 + w1 * a1 + w1 * b1 + w0 * b0;
    SymmetricPair(p0, k);
    SymmetricPair(p1, k);
  }

  /** A four-point rule written out term by term. */
  lemma QuadratureOfFour(r: Rule, phi: real -> real)
    requires |r.points| == 4 && |r.weights| == 4
    ensures Quadrature(r, phi)
      == r.weights[0] * phi(r.points[0]) + r.weights[1] * phi(r.points[1])
       + r.weights[2] * phi(r.points[2]) + r.weights[3] * phi(r.points[3])
  {
    var f := QuadTerms(r, phi);
    assert Sum(4, f) == Sum(3, f) + f(3);
    assert Sum(3, f) == Sum(2, f) + f(2);
    assert Sum(2, f) == Sum(1, f) + f(1);
  }

  /** The tabulated four-point rule integrates the monomials up to degree 7
      to within 1e-15; its decimal digits are not the exact roots. */
  lemma FourPointNearlyExact(sqrt: real -> real, k: nat)
    requires IsSqrt(sqrt)
    requires k < 8
    ensures -0.000000000000001 < Quadrature(Gauss(4, sqrt), Monomial(k)) - Moment(k) < 0.000000000000001
  {
    FourPointMoments(k);
    if k % 2 == 0 {
      FourPointEven(k);
    }
  }

  /** The even moments of the tabulated four-point rule, degree by degree. */
  lemma FourPointEven(k: nat)
    requires k < 8 && k % 2 == 0
    ensures var w0, w1 := 0.3478548451374538, 0.6521451548625461;
      var s0, s1 := 0.8611363115940526 * 0.8611363115940526, 0.3399810435848563 * 0.3399810435848563;
      -0.000000000000001 < w0 * (2.0 * Pow(s0, k / 2)) + w1 * (2.0 * Pow(s1, k / 2)) - Moment(k) < 0.000000000000001
  {
    var s0, s1 := 0.8611363115940526 * 0.8611363115940526, 0.3399810435848563 * 0.3399810435848563;
    if k == 2 {
      assert Pow(s0, 1) == s0 && Pow(s1, 1) == s1;
    } else if k == 4 {
      FourPointPow(s0, s1, 2);
    } else if k == 6 {
      FourPointPow(s0, s1, 3);
    }
  }

  lemma FourPointPow(s0: real, s1: real, j: nat)
    requires j == 2 || j == 3
    ensures j == 2 ==> Pow(s0, j) == s0 * s0 && Pow(s1, j) == s1 * s1
    ensures j == 3 ==> Pow(s0, j) == s0 * (s0 * s0) && Pow(s1, j) == s1 * (s1 * s1)
  {
    assert Pow(s0, 1) == s0 && Pow(s1, 1) == s1;
  }

  /** `k |-> c[k] * Quadrature(r, Monomial(k))`. */
  function MonomialCombination(r: Rule, c: seq<real>): nat -> real
  {
    (k: nat) => if k < |c| then c[k] * Quadrature(r, Monomial(k)) else 0.0
  }

  /** The terms `weights[q] * c[k] * points[q]^k` of the rule applied to
      `Poly(c)`, by point `q` and degree `k`, and the same terms by degree
      first. */
  function PolyQuadTerms(r: Rule, c: seq<real>): (nat, nat) -> real
  {
    (q: nat, k: nat) =>
      if q < |r.points| && q < |r.weights| && k < |c| then r.weights[q] * (c[k] * Pow(r.points[q], k)) else 0.0
  }

  function PolyQuadTermsByDegree(r: Rule, c: seq<real>): (nat, nat) -> real
  {
    (k: nat, q: nat) => PolyQuadTerms(r, c)(q, k)
  }

  lemma QuadratureOfPolyByPoint(r: Rule, c: seq<real>)
    ensures Quadrature(r, Poly(c)) == DoubleSum(|r.points|, |c|, PolyQuadTerms(r, c))
  {
    var n := |r.points|;
    forall q: nat | q < n
      ensures QuadTerms(r, Poly(c))(q) == RowSums(PolyQuadTerms(r, c), |c|)(q)
    {
      if q < |r.weights| {
        SumScale(|c|, Row(PolyQuadTerms(r, c), q), PolyTerms(c, r.points[q]), r.weights[q]);
      } else {
        SumZero(|c|, Row(PolyQuadTerms(r, c), q));
      }
    }
    SumExt(n, QuadTerms(r, Poly(c)), RowSums(PolyQuadTerms(r, c), |c|));
  }

  lemma QuadratureOfPolyByDegree(r: Rule, c: seq<real>)
    ensures DoubleSum(|c|, |r.points|, PolyQuadTermsByDegree(r, c)) == Sum(|c|, MonomialCombination(r, c))
  {
    forall k: nat | k < |c|
      ensures RowSums(PolyQuadTermsByDegree(r, c), |r.points|)(k) == MonomialCombination(r, c)(k)
    {
      PolyDegreeRow(r, c, k);
    }
    SumExt(|c|, RowSums(PolyQuadTermsByDegree(r, c), |r.points|), MonomialCombination(r, c));
  }

  /** The degree-`k` terms of the rule applied to `Poly(c)` add up to `c[k]`
      times the rule applied to the monomial. */
  lemma PolyDegreeRow(r: Rule, c: seq<real>, k: nat)
    requires k < |c|
    ensures Sum(|r.points|, Row(PolyQuadTermsByDegree(r, c), k)) == c[k] * Quadrature(r, Monomial(k))
  {
    var n := |r.points|;
    forall q: nat | q < n
      ensures Row(PolyQuadTermsByDegree(r, c), k)(q) == c[k] * QuadTerms(r, Monomial(k))(q)
    {
      PolyTermAt(r, c, k, q);
    }
    SumScale(n, Row(PolyQuadTermsByDegree(r, c), k), QuadTerms(r, Monomial(k)), c[k]);
  }

  lemma PolyTermAt(r: Rule, c: seq<real>, k: nat, q: nat)
    requires k < |c|
    ensures Row(PolyQuadTermsByDegree(r, c), k)(q) == c[k] * QuadTerms(r, Monomial(k))(q)
  {
    assert Row(PolyQuadTermsByDegree(r, c), k)(q) == PolyQuadTerms(r, c)(q, k);
    if q < |r.points| && q < |r.weights| {
      var w, x := r.weights[q], Pow(r.points[q], k);
      assert PolyQuadTerms(r, c)(q, k) == w * (c[k] * x);
      assert QuadTerms(r, Monomial(k))(q) == w * x;
      Commute(w, c[k], x);
    }
  }

  lemma Commute(w: real, a: real, x: real)
    ensures w * (a * x) == a * (w * x)
  {
  }

  /** The rule is linear: on a polynomial it is the combination of its values
      on the monomials, with the polynomial's coefficients. */
  lemma QuadratureOfPoly(r: Rule, c: seq<real>)
    ensures Quadrature(r, Poly(c)) == Sum(|c|, MonomialCombination(r, c))
  {
    QuadratureOfPolyByPoint(r, c);
    DoubleSumSwap(|r.points|, |c|, PolyQuadTerms(r, c), PolyQuadTermsByDegree(r, c));
    QuadratureOfPolyByDegree(r, c);
  }

  /** A rule exact on the monomials below degree `d` is exact on every
      polynomial with at most `d` coefficients. */
  lemma ExactOnPolynomials(r: Rule, d: nat, c: seq<real>)
    requires |r.points| == |r.weights|
    requires forall k: nat :: k < d ==> Quadrature(r, Monomial(k)) == Moment(k)
    requires |c| <= d
    ensures Quadrature(r, Poly(c)) == Sum(|c|, PolyMoments(c))
  {
    QuadratureOfPoly(r, c);
    SumExt(|c|, MonomialCombination(r, c), PolyMoments(c));
  }

  /** Exactness extends from monomials to every polynomial of degree at most
      2n-1. */
  lemma GaussExactPolynomial(lint: nat, sqrt: real -> real, c: seq<real>)
    requires 1 <= lint <= 3
    requires IsSqrt(sqrt)
    requires |c| <= 2 * lint
    ensures Quadrature(Gauss(lint, sqrt), Poly(c)) == Sum(|c|, PolyMoments(c))
  {
    forall k: nat | k < 2 * lint
      ensures Quadrature(Gauss(lint, sqrt), Monomial(k)) == Moment(k)
    {
      GaussExactMonomial(lint, sqrt, k);
    }
    ExactOnPolynomials(Gauss(lint, sqrt), 2 * lint, c);
  }

  // ---------------------------------------------------------------------
  // Shape functions
  // ---------------------------------------------------------------------

  /** The element topology of a run: two-node linear or three-node quadratic. */
  datatype Topology = Linear | Quadratic

  function Nel(t: Topology): nat
  {
    match t
    case Linear => 2
    case Quadratic => 3
  }

  /** Shape function values N_i, physical derivatives dN_i/dx and the
      Jacobian dx/dxi at one reference point. */
  datatype Shape = Shape(values: seq<real>, derivs: seq<real>, detJ: real)

  /** N_1, N_2 of the linear element: a partition of unity, interpolating at
      the end nodes. */
  function LinValues(xi: real): (n: seq<real>)
    ensures |n| == 2
    ensures n[0] + n[1] == 1.0
    ensures xi == -1.0 ==> n == [1.0, 0.0]
    ensures xi == 1.0 ==> n == [0.0, 1.0]
  {
    [0.5 * (1.0 - xi), 0.5 * (1.0 + xi)]
  }

  /** dN_i/dxi of the linear element: the constant slopes of `LinValues`. */
  function LinParamDerivs(): (d: seq<real>)
    ensures |d| == 2
    ensures d[0] + d[1] == 0.0
    ensures forall xi, y ::
      LinValues(y)[0] == LinValues(xi)[0] + (y - xi) * d[0] &&
      LinValues(y)[1] == LinValues(xi)[1] + (y - xi) * d[1]
  {
    [-0.5, 0.5]
  }

  /** N_1, N_2, N_3 of the quadratic element (node 3 is the interior node):
      a partition of unity with the Kronecker property at xi = -1, 1, 0. */
  function QuadValues(xi: real): (n: seq<real>)
    ensures |n| == 3
    ensures n[0] + n[1] + n[2] == 1.0
    ensures xi == -1.0 ==> n == [1.0, 0.0, 0.0]
    ensures xi == 1.0 ==> n == [0.0, 1.0, 0.0]
    ensures xi == 0.0 ==> n == [0.0, 0.0, 1.0]
  {
    [0.5 * xi * (xi - 1.0), 0.5 * xi * (xi + 1.0), 1.0 - xi * xi]
  }

  /** dN_i/dxi of the quadratic element at `xi`: the exact Taylor expansion
      of each `QuadValues` component about `xi` has these as linear terms. */
  function QuadParamDerivs(xi: real): (d: seq<real>)
    ensures |d| == 3
    ensures d[0] + d[1] + d[2] == 0.0
    ensures forall y ::
      QuadValues(y)[0] == QuadValues(xi)[0] + (y - xi) * d[0] + 0.5 * ((y - xi) * (y - xi)) &&
      QuadValues(y)[1] == QuadValues(xi)[1] + (y - xi) * d[1] + 0.5 * ((y - xi) * (y - xi)) &&
      QuadValues(y)[2] == QuadValues(xi)[2] + (y - xi) * d[2] - (y - xi) * (y - xi)
  {
    [xi - 0.5, xi + 0.5, -2.0 * xi]
  }

  /** dx/dxi of the linear element: positive exactly when the nodes increase. */
  function LinJacobian(xl: seq<real>): (j: real)
    requires |xl| == 2
    ensures 0.0 < j <==> xl[0] < xl[1]
    ensures j == 0.0 <==> xl[0] == xl[1]
  {
    var d := LinParamDerivs();
    d[0] * xl[0] + d[1] * xl[1]
  }

  /** dx/dxi of the quadratic element at `xi`; with the third node at the
      midpoint it is the constant half length. */
  function QuadJacobian(xi: real, xl: seq<real>): (j: real)
    requires |xl| == 3
    ensures xl[2] == (xl[0] + xl[1]) / 2.0 ==> j == (xl[1] - xl[0]) / 2.0
  {
    var d := QuadParamDerivs(xi);
    d[0] * xl[0] + d[1] * xl[1] + d[2] * xl[2]
  }

  lemma HalfLengthReciprocal(h: real)
    requires h != 0.0
    ensures 1.0 / (h / 2.0) * -0.5 == -1.0 / h
    ensures 1.0 / (h / 2.0) * 0.5 == 1.0 / h
  {
    assert 1.0 / (h / 2.0) == 2.0 / h;
  }

  /** The linear element at `xi` with node coordinates `xl`. */
  function ShapeLin(xi: real, xl: seq<real>): (s: Shape)
    requires |xl| == 2
    requires xl[0] != xl[1]
    ensures s.values == LinValues(xi) && |s.derivs| == 2
    ensures s.detJ == (xl[1] - xl[0]) / 2.0
    ensures s.derivs == [-1.0 / (xl[1] - xl[0]), 1.0 / (xl[1] - xl[0])]
    ensures s.derivs[0] + s.derivs[1] == 0.0
    ensures s.derivs[0] * xl[0] + s.derivs[1] * xl[1] == 1.0
    ensures forall i :: 0 <= i < 2 ==> s.derivs[i] * s.detJ == LinParamDerivs()[i]
    ensures s.values[0] * xl[0] + s.values[1] * xl[1] == (xl[0] + xl[1]) / 2.0 + xi * ((xl[1] - xl[0]) / 2.0)
  {
    var sh0 := LinParamDerivs();
    var xj := LinJacobian(xl);
    var xjinv := 1.0 / xj;
    HalfLengthReciprocal(xl[1] - xl[0]);
    Shape(LinValues(xi), [xjinv * sh0[0], xjinv * sh0[1]], xj)
  }

  /** The quadratic element at `xi` with node coordinates `xl`. */
  function ShapeQuad(xi: real, xl: seq<real>): (s: Shape)
    requires |xl| == 3
    requires QuadJacobian(xi, xl) != 0.0
    ensures s.values == QuadValues(xi) && |s.derivs| == 3
    ensures s.detJ == QuadJacobian(xi, xl)
    ensures s.derivs[0] + s.derivs[1] + s.derivs[2] == 0.0
    ensures s.derivs[0] * xl[0] + s.derivs[1] * xl[1] + s.derivs[2] * xl[2] == 1.0
    ensures forall i :: 0 <= i < 3 ==> s.derivs[i] * s.detJ == QuadParamDerivs(xi)[i]
    ensures xl[2] == (xl[0] + xl[1]) / 2.0 ==>
      s.values[0] * xl[0] + s.values[1] * xl[1] + s.values[2] * xl[2]
        == (xl[0] + xl[1]) / 2.0 + xi * ((xl[1] - xl[0]) / 2.0)
  {
    var sh0 := QuadParamDerivs(xi);
    var xj := QuadJacobian(xi, xl);
    var xjinv := 1.0 / xj;
    ScaledDerivs3(sh0[0], sh0[1], sh0[2], xl[0], xl[1], xl[2], xj);
    QuadMidpointMap(xi, xl);
    Shape(QuadValues(xi), [xjinv * sh0[0], xjinv * sh0[1], xjinv * sh0[2]], xj)
  }

  /** Parametric derivatives `d` summing to zero, divided by the Jacobian
      `j = d . x`, sum to zero and reproduce `dx/dx = 1`. */
  lemma ScaledDerivs3(d0: real, d1: real, d2: real, x0: real, x1: real, x2: real, j: real)
    requires j == d0 * x0 + d1 * x1 + d2 * x2 && j != 0.0 && d0 + d1 + d2 == 0.0
    ensures (1.0 / j) * d0 + (1.0 / j) * d1 + (1.0 / j) * d2 == 0.0
    ensures (1.0 / j) * d0 * x0 + (1.0 / j) * d1 * x1 + (1.0 / j) * d2 * x2 == 1.0
    ensures (1.0 / j) * d0 * j == d0 && (1.0 / j) * d1 * j == d1 && (1.0 / j) * d2 * j == d2
  {
    var c := 1.0 / j;
    assert c * d0 + c * d1 + c * d2 == c * (d0 + d1 + d2);
    assert c * d0 * x0 + c * d1 * x1 + c * d2 * x2 == c * j;
  }

  /** With the interior node at the midpoint, the quadratic element maps the
      reference interval affinely onto the element. */
  lemma QuadMidpointMap(xi: real, xl: seq<real>)
    requires |xl| == 3
    ensures var n := QuadValues(xi);
      xl[2] == (xl[0] + xl[1]) / 2.0 ==>
      n[0] * xl[0] + n[1] * xl[1] + n[2] * xl[2] == (xl[0] + xl[1]) / 2.0 + xi * ((xl[1] - xl[0]) / 2.0)
  {
  }

  /** The quadratic Jacobian is positive on all of [-1, 1] exactly when the
      interior node lies strictly inside the middle half of the element. */
  lemma QuadJacobianPositive(xl: seq<real>)
    requires |xl| == 3
    ensures (forall xi :: -1.0 <= xi <= 1.0 ==> 0.0 < QuadJacobian(xi, xl))
        <==> (3.0 * xl[0] + xl[1]) / 4.0 < xl[2] < (xl[0] + 3.0 * xl[1]) / 4.0
  {
    var lo, hi := QuadJacobian(-1.0, xl), QuadJacobian(1.0, xl);
    assert lo == 2.0 * xl[2] - 1.5 * xl[0] - 0.5 * xl[1];
    assert hi == 1.5 * xl[1] + 0.5 * xl[0] - 2.0 * xl[2];
    if 0.0 < lo && 0.0 < hi {
      forall xi | -1.0 <= xi <= 1.0
        ensures 0.0 < QuadJacobian(xi, xl)
      {
        var a, b := (1.0 - xi) / 2.0, (1.0 + xi) / 2.0;
        assert QuadJacobian(xi, xl) == a * lo + b * hi;
        if 0.0 < a {
          ProductSigns(a, lo);
          ProductSigns(b, hi);
        } else {
          assert b == 1.0;
        }
      }
    }
  }

  /** dx/dxi of the element of topology `t`. */
  function Jacobian(t: Topology, xi: real, xl: seq<real>): real
    requires |xl| == Nel(t)
  {
    match t
    case Linear => LinJacobian(xl)
    case Quadratic => QuadJacobian(xi, xl)
  }

  /** The shape functions of topology `t`, as the assembly and the error
      evaluator select them: values summing to 1, derivatives summing to 0
      and reproducing d x / d x = 1. */
  function ShapeAt(t: Topology, xi: real, xl: seq<real>): (s: Shape)
    requires |xl| == Nel(t)
    requires Jacobian(t, xi, xl) != 0.0
    ensures |s.values| == Nel(t) && |s.derivs| == Nel(t)
    ensures s.detJ == Jacobian(t, xi, xl)
    ensures Total(s.values) == 1.0
    ensures Total(s.derivs) == 0.0
    ensures Dot(s.derivs, xl) == 1.0
  {
    match t
    case Linear =>
      LinSums(xi, xl);
      ShapeLin(xi, xl)
    case Quadratic =>
      QuadSums(xi, xl);
      ShapeQuad(xi, xl)
  }

  lemma LinSums(xi: real, xl: seq<real>)
    requires |xl| == 2 && xl[0] != xl[1]
    ensures Total(ShapeLin(xi, xl).values) == 1.0
    ensures Total(ShapeLin(xi, xl).derivs) == 0.0
    ensures Dot(ShapeLin(xi, xl).derivs, xl) == 1.0
  {
    var s := ShapeLin(xi, xl);
    PartitionSums2(s.values, s.derivs, xl);
  }

  lemma QuadSums(xi: real, xl: seq<real>)
    requires |xl| == 3 && QuadJacobian(xi, xl) != 0.0
    ensures Total(ShapeQuad(xi, xl).values) == 1.0
    ensures Total(ShapeQuad(xi, xl).derivs) == 0.0
    ensures Dot(ShapeQuad(xi, xl).derivs, xl) == 1.0
  {
    var s := ShapeQuad(xi, xl);
    PartitionSums3(s.values, s.derivs, xl);
  }

  /** The sums of a two-node element written out. */
  lemma PartitionSums2(v: seq<real>, d: seq<real>, xl: seq<real>)
    requires |v| == 2 && |d| == 2 && |xl| == 2
    requires v[0] + v[1] == 1.0 && d[0] + d[1] == 0.0 && d[0] * xl[0] + d[1] * xl[1] == 1.0
    ensures Total(v) == 1.0 && Total(d) == 0.0 && Dot(d, xl) == 1.0
  {
    SumsOfTwo(v, xl);
    SumsOfTwo(d, xl);
  }

  /** The sums of a three-node element written out. */
  lemma PartitionSums3(v: seq<real>, d: seq<real>, xl: seq<real>)
    requires |v| == 3 && |d| == 3 && |xl| == 3
    requires v[0] + v[1] + v[2] == 1.0 && d[0] + d[1] + d[2] == 0.0
    requires d[0] * xl[0] + d[1] * xl[1] + d[2] * xl[2] == 1.0
    ensures Total(v) == 1.0 && Total(d) == 0.0 && Dot(d, xl) == 1.0
  {
    SumsOfThree(v, xl);
    SumsOfThree(d, xl);
  }
}
