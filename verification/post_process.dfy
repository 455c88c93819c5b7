/**
 The discrete error of a computed solution: for every element of the solution
 table (node coordinates and nodal values) and every Gauss point, the squared
 difference between the exact solution and the interpolated value, and between
 the exact derivative and the interpolated gradient, weighted by `dvol` and
 accumulated over all elements; the reported errors are the square roots of
 the two sums.
 */
module PostProcess {
  import opened Sums
  import opened Matrices
  import opened GaussShape
  import opened Element

  /** One row of the solution table: the element's node coordinates and the
      computed nodal values, in local node order. */
  datatype ElementRecord = ElementRecord(xl: seq<real>, ul: seq<real>)

  /** The exact solution and its derivative. */
  datatype Exact = Exact(value: real -> real, deriv: real -> real)

  /** The two measured quantities: the solution and its gradient (the flux). */
  datatype Quantity = Value | Gradient

  /** Every record has `Nel` coordinates and values and a Jacobian that
      vanishes at no point of the rule. */
  predicate ValidRecords(t: Topology, rule: Rule, recs: seq<ElementRecord>)
  {
    forall e :: 0 <= e < |recs| ==>
      |recs[e].ul| == Nel(t) && NonDegenerateElement(t, rule, recs[e].xl)
  }

  /** At one sample: the exact quantity at the interpolated position less the
      interpolated quantity. */
  function Mismatch(k: Quantity, p: Sample, rec: ElementRecord, exact: Exact): real
  {
    var xq := Dot(p.values, rec.xl);
    match k
    case Value => exact.value(xq) - Dot(p.values, rec.ul)
    case Gradient => exact.deriv(xq) - Dot(p.derivs, rec.ul)
  }

  /** The squared mismatch weighted by `dvol`. */
  function PointError(k: Quantity, p: Sample, rec: ElementRecord, exact: Exact): real
  {
    var d := Mismatch(k, p, rec, exact);
    Weighted(d, d, p.dvol)
  }

  /** `a * b * dvol`; a squared error term is the case `a == b`. */
  function Weighted(a: real, b: real, dvol: real): real
  {
    a * b * dvol
  }

  /** The samples of every element of the table at the points of the rule. */
  function TableSamples(t: Topology, rule: Rule, recs: seq<ElementRecord>): (table: seq<seq<Sample>>)
    requires ValidRule(rule) && ValidRecords(t, rule, recs)
    ensures |table| == |recs|
    ensures forall e :: 0 <= e < |recs| ==> table[e] == ElementSamples(t, rule, recs[e].xl)
    ensures forall e :: 0 <= e < |recs| ==>
      |table[e]| == |rule.points| && ValidSamples(Nel(t), table[e]) && Balanced(table[e])
  {
    seq(|recs|, (e: int) requires 0 <= e < |recs| => ElementSamples(t, rule, recs[e].xl))
  }

  /** The terms of an element's squared error, one per sample. */
  function PointErrors(k: Quantity, pts: seq<Sample>, rec: ElementRecord, exact: Exact): nat -> real
  {
    (q: nat) => if q < |pts| then PointError(k, pts[q], rec, exact) else 0.0
  }

  /** The squared error of one element. */
  function ElementError(k: Quantity, pts: seq<Sample>, rec: ElementRecord, exact: Exact): real
  {
    Sum(|pts|, PointErrors(k, pts, rec, exact))
  }

  /** The squared errors of the elements, element `e` measured at the samples
      `table[e]`. */
  function ElementErrors(k: Quantity, table: seq<seq<Sample>>, recs: seq<ElementRecord>, exact: Exact): nat -> real
  {
    (e: nat) => if e < |table| && e < |recs| then ElementError(k, table[e], recs[e], exact) else 0.0
  }

  function TableError(k: Quantity, table: seq<seq<Sample>>, recs: seq<ElementRecord>, exact: Exact): real
  {
    Sum(|table|, ElementErrors(k, table, recs, exact))
  }

  /** The squared error over the whole table, element by element and, within
      an element, Gauss point by Gauss point. */
  function SquaredError(k: Quantity, t: Topology, rule: Rule, recs: seq<ElementRecord>, exact: Exact): real
    requires ValidRule(rule) && ValidRecords(t, rule, recs)
  {
    TableError(k, TableSamples(t, rule, recs), recs, exact)
  }

  /** The error computation as the loops over elements and Gauss points
      accumulate it, followed by the square roots. On well-shaped elements
      the two reported errors are the non-negative roots of the squared
      errors, and each is zero exactly when the solution matches at every
      Gauss point. */
  method ComputeL2Error(t: Topology, lint: nat, recs: seq<ElementRecord>, exact: Exact, sqrt: real -> real)
    returns (errU: real, errQ: real)
    requires 1 <= lint <= 4 && IsSqrt(sqrt)
    requires ValidRecords(t, Gauss(lint, sqrt), recs)
    ensures var rule := Gauss(lint, sqrt);
      errU == sqrt(SquaredError(Value, t, rule, recs, exact)) &&
      errQ == sqrt(SquaredError(Gradient, t, rule, recs, exact))
    ensures (forall e :: 0 <= e < |recs| ==> WellShaped(t, recs[e].xl)) ==>
      var rule := Gauss(lint, sqrt);
      RootError(errU, SquaredError(Value, t, rule, recs, exact), MatchesAtPoints(Value, t, rule, recs, exact)) &&
      RootError(errQ, SquaredError(Gradient, t, rule, recs, exact), MatchesAtPoints(Gradient, t, rule, recs, exact))
  {
    var table := TableSamples(t, Gauss(lint, sqrt), recs);
    var su, sq := AccumulateErrors(table, recs, exact);
    errU := sqrt(su);
    errQ := sqrt(sq);
    if forall e :: 0 <= e < |recs| ==> WellShaped(t, recs[e].xl) {
      ReportedError(Value, t, lint, recs, exact, sqrt);
      ReportedError(Gradient, t, lint, recs, exact, sqrt);
    }
  }

  /** The loop over elements: each element's point terms are added to the
      running totals. */
  method AccumulateErrors(table: seq<seq<Sample>>, recs: seq<ElementRecord>, exact: Exact)
    returns (su: real, sq: real)
    requires |table| == |recs|
    ensures su == TableError(Value, table, recs, exact)
    ensures sq == TableError(Gradient, table, recs, exact)
  {
    su, sq := 0.0, 0.0;
    var e: nat := 0;
    while e < |table|
      invariant e <= |table|
      invariant su == Sum(e, ElementErrors(Value, table, recs, exact))
      invariant sq == Sum(e, ElementErrors(Gradient, table, recs, exact))
    {
      su, sq := AccumulateElement(table[e], recs[e], exact, su, sq);
      e := e + 1;
    }
  }

  /** The loop over the Gauss points of one element, adding each point's
      two error terms to the running totals `su0` and `sq0`. */
  method AccumulateElement(pts: seq<Sample>, rec: ElementRecord, exact: Exact, su0: real, sq0: real)
    returns (su: real, sq: real)
    ensures su == su0 + ElementError(Value, pts, rec, exact)
    ensures sq == sq0 + ElementError(Gradient, pts, rec, exact)
  {
    su, sq := su0, sq0;
    var q: nat := 0;
    while q < |pts|
      invariant q <= |pts|
      invariant su == su0 + Sum(q, PointErrors(Value, pts, rec, exact))
      invariant sq == sq0 + Sum(q, PointErrors(Gradient, pts, rec, exact))
    {
      su := su + PointError(Value, pts[q], rec, exact);
      sq := sq + PointError(Gradient, pts[q], rec, exact);
      q := q + 1;
    }
  }

  /** Every element has a positive Jacobian at every point of the rule. */
  predicate PositiveRecords(t: Topology, rule: Rule, recs: seq<ElementRecord>)
  {
    forall e :: 0 <= e < |recs| ==> PositiveElement(t, rule, recs[e].xl)
  }

  predicate PositiveWeights(rule: Rule)
  {
    forall q :: 0 <= q < |rule.weights| ==> 0.0 < rule.weights[q]
  }

  /** Every sample has a positive volume factor. */
  predicate PositiveSamples(pts: seq<Sample>)
  {
    forall q :: 0 <= q < |pts| ==> 0.0 < pts[q].dvol
  }

  /** With positive weights and Jacobians every sample has `dvol > 0`. */
  lemma PositiveDvol(t: Topology, rule: Rule, recs: seq<ElementRecord>)
    requires ValidRule(rule) && ValidRecords(t, rule, recs)
    requires PositiveWeights(rule) && PositiveRecords(t, rule, recs)
    ensures forall e :: 0 <= e < |recs| ==> PositiveSamples(TableSamples(t, rule, recs)[e])
  {
    var table: seq<seq<Sample>> := TableSamples(t, rule, recs);
    forall e: int, q: int | 0 <= e < |recs| && 0 <= q < |table[e]|
      ensures 0.0 < table[e][q].dvol
    {
      ProductSigns(Jacobian(t, rule.points[q], recs[e].xl), rule.weights[q]);
    }
  }

  /** A squared mismatch times a positive `dvol` is non-negative, and zero
      exactly when the mismatch is. */
  lemma WeightedSquare(a: real, b: real, dvol: real)
    requires a == b && 0.0 < dvol
    ensures 0.0 <= Weighted(a, b, dvol)
    ensures a == 0.0 ==> Weighted(a, b, dvol) == 0.0
    ensures a != 0.0 ==> 0.0 < Weighted(a, b, dvol)
  {
    if a < 0.0 {
      SameSignsPositive(a, b, dvol);
    } else if 0.0 < a {
      SameSignsPositive(a, b, dvol);
    }
  }

  /** Two factors of one sign times a positive third are positive. */
  lemma SameSignsPositive(a: real, b: real, dvol: real)
    requires (a < 0.0 && b < 0.0) || (0.0 < a && 0.0 < b)
    requires 0.0 < dvol
    ensures 0.0 < Weighted(a, b, dvol)
  {
    assert 0.0 < a * b;
  }

  /** At a sample with positive `dvol` the error term is non-negative and
      vanishes exactly where the mismatch does. */
  lemma PointErrorSign(k: Quantity, p: Sample, rec: ElementRecord, exact: Exact)
    requires 0.0 < p.dvol
    ensures 0.0 <= PointError(k, p, rec, exact)
    ensures PointError(k, p, rec, exact) == 0.0 <==> Mismatch(k, p, rec, exact) == 0.0
  {
    var d := Mismatch(k, p, rec, exact);
    WeightedSquare(d, d, p.dvol);
  }

  /** The computed values match the exact quantity at every sample. */
  predicate MatchesAtSamples(k: Quantity, pts: seq<Sample>, rec: ElementRecord, exact: Exact)
  {
    forall q :: 0 <= q < |pts| ==> Mismatch(k, pts[q], rec, exact) == 0.0
  }

  /** With positive volume factors an element's squared error is
      non-negative, and zero exactly when the values match at every sample. */
  lemma ElementErrorSigns(k: Quantity, pts: seq<Sample>, rec: ElementRecord, exact: Exact)
    requires PositiveSamples(pts)
    ensures 0.0 <= ElementError(k, pts, rec, exact)
    ensures ElementError(k, pts, rec, exact) == 0.0 <==> MatchesAtSamples(k, pts, rec, exact)
  {
    var terms := PointErrors(k, pts, rec, exact);
    forall q: nat | q < |pts|
      ensures 0.0 <= terms(q)
    {
      PointErrorSign(k, pts[q], rec, exact);
    }
    SumNonneg(|pts|, terms);
    if ElementError(k, pts, rec, exact) == 0.0 {
      SumZeroNonneg(|pts|, terms);
      forall q | 0 <= q < |pts|
        ensures Mismatch(k, pts[q], rec, exact) == 0.0
      {
        assert terms(q) == 0.0;
        PointErrorSign(k, pts[q], rec, exact);
      }
    }
    if MatchesAtSamples(k, pts, rec, exact) {
      MatchingElement(k, pts, rec, exact);
    }
  }

  /** Values that match at every sample give a zero element error, whatever
      the signs of the volume factors. */
  lemma MatchingElement(k: Quantity, pts: seq<Sample>, rec: ElementRecord, exact: Exact)
    requires MatchesAtSamples(k, pts, rec, exact)
    ensures ElementError(k, pts, rec, exact) == 0.0
  {
    forall q: nat | q < |pts|
      ensures PointErrors(k, pts, rec, exact)(q) == 0.0
    {
      assert Mismatch(k, pts[q], rec, exact) == 0.0;
    }
    SumZero(|pts|, PointErrors(k, pts, rec, exact));
  }

  /** With positive volume factors throughout, the squared error of a table
      is non-negative, and zero exactly when the values match at every
      sample of every element. */
  lemma TableErrorSigns(k: Quantity, table: seq<seq<Sample>>, recs: seq<ElementRecord>, exact: Exact)
    requires |table| == |recs|
    requires forall e :: 0 <= e < |table| ==> PositiveSamples(table[e])
    ensures 0.0 <= TableError(k, table, recs, exact)
    ensures TableError(k, table, recs, exact) == 0.0
      <==> forall e :: 0 <= e < |table| ==> MatchesAtSamples(k, table[e], recs[e], exact)
  {
    var errs := ElementErrors(k, table, recs, exact);
    forall e: nat | e < |table|
      ensures 0.0 <= errs(e)
      ensures errs(e) == 0.0 <==> MatchesAtSamples(k, table[e], recs[e], exact)
    {
      ElementErrorSigns(k, table[e], recs[e], exact);
    }
    SumNonneg(|table|, errs);
    if TableError(k, table, recs, exact) == 0.0 {
      SumZeroNonneg(|table|, errs);
      forall e | 0 <= e < |table|
        ensures MatchesAtSamples(k, table[e], recs[e], exact)
      {
        assert errs(e) == 0.0;
      }
    }
    if forall e :: 0 <= e < |table| ==> MatchesAtSamples(k, table[e], recs[e], exact) {
      SumZero(|table|, errs);
    }
  }

  /** The computed solution matches the exact quantity at every Gauss point
      of every element. */
  predicate MatchesAtPoints(k: Quantity, t: Topology, rule: Rule, recs: seq<ElementRecord>, exact: Exact)
    requires ValidRule(rule) && ValidRecords(t, rule, recs)
  {
    forall e :: 0 <= e < |recs| ==> MatchesAtSamples(k, ElementSamples(t, rule, recs[e].xl), recs[e], exact)
  }

  /** With positive Jacobians and weights both squared errors are
      non-negative, so their square roots are the errors' norms, and each is
      zero exactly when the computed solution matches the exact quantity at
      every Gauss point. */
  lemma SquaredErrorSigns(k: Quantity, t: Topology, rule: Rule, recs: seq<ElementRecord>, exact: Exact)
    requires ValidRule(rule) && ValidRecords(t, rule, recs)
    requires PositiveWeights(rule) && PositiveRecords(t, rule, recs)
    ensures 0.0 <= SquaredError(k, t, rule, recs, exact)
    ensures SquaredError(k, t, rule, recs, exact) == 0.0 <==> MatchesAtPoints(k, t, rule, recs, exact)
  {
    PositiveDvol(t, rule, recs);
    TableErrorSigns(k, TableSamples(t, rule, recs), recs, exact);
  }

  /** `Dot(v, a + b w)` where the second vector is affine in `w`. */
  lemma DotAffine(v: Vector, w: Vector, ul: Vector, a: real, b: real)
    requires |w| == |v| && |ul| == |v|
    requires forall i :: 0 <= i < |v| ==> ul[i] == a + b * w[i]
    ensures Dot(v, ul) == a * Total(v) + b * Dot(v, w)
  {
    var n := |v|;
    forall i: nat | i < n
      ensures Products(v, ul)(i) == ScaledAt(v, a)(i) + ScaledProducts(v, w, b)(i)
    {
      AffineProduct(v, w, ul, a, b, i);
    }
    SumAdd(n, Products(v, ul), ScaledAt(v, a), ScaledProducts(v, w, b));
    ScaledTotal(v, a);
    ScaledDot(v, w, b);
  }

  function ScaledAt(v: Vector, a: real): nat -> real
  {
    (i: nat) => a * At(v)(i)
  }

  function ScaledProducts(v: Vector, w: Vector, b: real): nat -> real
  {
    (i: nat) => b * Products(v, w)(i)
  }

  lemma ScaledTotal(v: Vector, a: real)
    ensures Sum(|v|, ScaledAt(v, a)) == a * Total(v)
  {
    SumScale(|v|, ScaledAt(v, a), At(v), a);
  }

  lemma ScaledDot(v: Vector, w: Vector, b: real)
    ensures Sum(|v|, ScaledProducts(v, w, b)) == b * Dot(v, w)
  {
    SumScale(|v|, ScaledProducts(v, w, b), Products(v, w), b);
  }

  lemma AffineProduct(v: Vector, w: Vector, ul: Vector, a: real, b: real, i: nat)
    requires i < |v| && |w| == |v| && |ul| == |v|
    requires ul[i] == a + b * w[i]
    ensures Products(v, ul)(i) == ScaledAt(v, a)(i) + ScaledProducts(v, w, b)(i)
  {
    assert At(v)(i) == v[i];
    assert Products(v, w)(i) == v[i] * w[i];
    assert Products(v, ul)(i) == v[i] * ul[i];
    AffineTerm(v[i], w[i], a, b);
  }

  lemma AffineTerm(v: real, w: real, a: real, b: real)
    ensures v * (a + b * w) == a * v + b * (v * w)
  {
  }

  /** The exact solution is affine, `a + b x`, with derivative `b`. */
  ghost predicate Affine(exact: Exact, a: real, b: real)
  {
    forall x :: exact.value(x) == a + b * x && exact.deriv(x) == b
  }

  /** Every record holds the exact solution at its nodes. */
  predicate NodallyExact(recs: seq<ElementRecord>, exact: Exact)
  {
    forall e, i :: 0 <= e < |recs| && 0 <= i < |recs[e].ul| && i < |recs[e].xl| ==>
      recs[e].ul[i] == exact.value(recs[e].xl[i])
  }

  /** At samples whose shape values sum to one, whose derivatives sum to
      zero and reproduce the coordinate, nodal values of an affine function
      are interpolated exactly, with the exact slope. */
  lemma AffineElementExact(k: Quantity, pts: seq<Sample>, rec: ElementRecord, exact: Exact, a: real, b: real)
    requires |rec.ul| == |rec.xl|
    requires ValidSamples(|rec.xl|, pts) && Balanced(pts)
    requires forall q :: 0 <= q < |pts| ==> Total(pts[q].values) == 1.0 && Dot(pts[q].derivs, rec.xl) == 1.0
    requires Affine(exact, a, b)
    requires forall i :: 0 <= i < |rec.ul| ==> rec.ul[i] == exact.value(rec.xl[i])
    ensures MatchesAtSamples(k, pts, rec, exact)
  {
    forall q | 0 <= q < |pts|
      ensures Mismatch(k, pts[q], rec, exact) == 0.0
    {
      DotAffine(pts[q].values, rec.xl, rec.ul, a, b);
      DotAffine(pts[q].derivs, rec.xl, rec.ul, a, b);
    }
  }

  /** Consistency: both shape families reproduce affine functions and their
      slopes exactly, so the nodal values of an affine exact solution have
      zero value and gradient error, on every rule. */
  lemma AffineSolutionExact(k: Quantity, t: Topology, rule: Rule, recs: seq<ElementRecord>, exact: Exact, a: real, b: real)
    requires ValidRule(rule) && ValidRecords(t, rule, recs)
    requires Affine(exact, a, b) && NodallyExact(recs, exact)
    ensures SquaredError(k, t, rule, recs, exact) == 0.0
  {
    var table: seq<seq<Sample>> := TableSamples(t, rule, recs);
    forall e: nat | e < |table|
      ensures ElementErrors(k, table, recs, exact)(e) == 0.0
    {
      AffineElementExact(k, table[e], recs[e], exact, a, b);
      MatchingElement(k, table[e], recs[e], exact);
    }
    SumZero(|table|, ElementErrors(k, table, recs, exact));
  }

  /** The errors of a table of well-shaped elements, measured with a Gauss
      rule, are genuine norms: both squared errors are non-negative, so the
      reported values are their square roots, and each is zero exactly when
      the solution matches at every Gauss point. */
  lemma WellShapedErrors(k: Quantity, t: Topology, lint: nat, recs: seq<ElementRecord>, exact: Exact, sqrt: real -> real)
    requires 1 <= lint <= 4 && IsSqrt(sqrt)
    requires ValidRecords(t, Gauss(lint, sqrt), recs)
    requires forall e :: 0 <= e < |recs| ==> WellShaped(t, recs[e].xl)
    ensures 0.0 <= SquaredError(k, t, Gauss(lint, sqrt), recs, exact)
    ensures SquaredError(k, t, Gauss(lint, sqrt), recs, exact) == 0.0
      <==> MatchesAtPoints(k, t, Gauss(lint, sqrt), recs, exact)
  {
    var rule := Gauss(lint, sqrt);
    forall e | 0 <= e < |recs|
      ensures PositiveElement(t, rule, recs[e].xl)
    {
      WellShapedGauss(t, lint, sqrt, recs[e].xl);
    }
    SquaredErrorSigns(k, t, rule, recs, exact);
  }

  /** `err` is the non-negative root of the squared error `se`, and is zero
      exactly when `matches` holds. */
  predicate RootError(err: real, se: real, matches: bool)
  {
    0.0 <= err && err * err == se && (err == 0.0 <==> matches)
  }

  /** On well-shaped elements a reported error is the non-negative root of
      its squared error, and is zero exactly when the solution matches at
      every Gauss point. */
  lemma ReportedError(k: Quantity, t: Topology, lint: nat, recs: seq<ElementRecord>, exact: Exact, sqrt: real -> real)
    requires 1 <= lint <= 4 && IsSqrt(sqrt)
    requires ValidRecords(t, Gauss(lint, sqrt), recs)
    requires forall e :: 0 <= e < |recs| ==> WellShaped(t, recs[e].xl)
    ensures RootError(sqrt(SquaredError(k, t, Gauss(lint, sqrt), recs, exact)),
                      SquaredError(k, t, Gauss(lint, sqrt), recs, exact),
                      MatchesAtPoints(k, t, Gauss(lint, sqrt), recs, exact))
  {
    WellShapedErrors(k, t, lint, recs, exact, sqrt);
    RootOfSquaredError(sqrt, SquaredError(k, t, Gauss(lint, sqrt), recs, exact));
  }

  /** The root of a non-negative number is zero exactly when the number is. */
  lemma RootOfSquaredError(sqrt: real -> real, se: real)
    requires IsSqrt(sqrt) && 0.0 <= se
    ensures 0.0 <= sqrt(se) && sqrt(se) * sqrt(se) == se
    ensures sqrt(se) == 0.0 <==> se == 0.0
  {
    SqrtOfSquare(sqrt, 0.0, 0.0);
  }
}
