/**
 The data of one element at the points of a quadrature rule, as both the
 assembly and the error computation evaluate it: shape values, physical
 derivatives and the volume factor `dvol = detJ * weight`.
 */
module Element {
  import opened Matrices
  import opened GaussShape

  /** A rule has one weight per point. */
  predicate ValidRule(rule: Rule)
  {
    |rule.points| == |rule.weights|
  }

  /** The Jacobian vanishes at no quadrature point of the element. */
  predicate NonDegenerateElement(t: Topology, rule: Rule, xl: seq<real>)
  {
    |xl| == Nel(t) &&
    forall q :: 0 <= q < |rule.points| ==> Jacobian(t, rule.points[q], xl) != 0.0
  }

  /** What the element loops need at one quadrature point: the shape values `N`,
      the physical derivatives `dN/dx` and `dvol = detJ * weight`. */
  datatype Sample = Sample(values: seq<real>, derivs: seq<real>, dvol: real)

  /** Every sample has `n` values and `n` derivatives. */
  predicate ValidSamples(n: nat, pts: seq<Sample>)
  {
    forall q :: 0 <= q < |pts| ==> |pts[q].values| == n && |pts[q].derivs| == n
  }

  /** The derivatives at every sample sum to zero, as those of any shape
      functions forming a partition of unity do. */
  predicate Balanced(pts: seq<Sample>)
  {
    forall q :: 0 <= q < |pts| ==> Total(pts[q].derivs) == 0.0
  }

  /** The sample of an element at point `q` of a rule. */
  function SampleAt(t: Topology, rule: Rule, xl: seq<real>, q: nat): (p: Sample)
    requires NonDegenerateElement(t, rule, xl) && ValidRule(rule) && q < |rule.points|
    ensures var s := ShapeAt(t, rule.points[q], xl);
      p.values == s.values && p.derivs == s.derivs && p.dvol == s.detJ * rule.weights[q]
    ensures |p.values| == Nel(t) && |p.derivs| == Nel(t)
    ensures Total(p.values) == 1.0 && Total(p.derivs) == 0.0 && Dot(p.derivs, xl) == 1.0
  {
    var s := ShapeAt(t, rule.points[q], xl);
    Sample(s.values, s.derivs, s.detJ * rule.weights[q])
  }

  /** The samples of an element at the points of a rule. */
  function ElementSamples(t: Topology, rule: Rule, xl: seq<real>): (pts: seq<Sample>)
    requires NonDegenerateElement(t, rule, xl) && ValidRule(rule)
    ensures |pts| == |rule.points|
    ensures ValidSamples(Nel(t), pts) && Balanced(pts)
    ensures forall q :: 0 <= q < |pts| ==> pts[q] == SampleAt(t, rule, xl, q)
  {
    seq(|rule.points|, (q: int) requires 0 <= q < |rule.points| => SampleAt(t, rule, xl, q))
  }

  /** The Jacobian is positive at every quadrature point of the element. */
  predicate PositiveElement(t: Topology, rule: Rule, xl: seq<real>)
  {
    |xl| == Nel(t) &&
    forall q :: 0 <= q < |rule.points| ==> 0.0 < Jacobian(t, rule.points[q], xl)
  }

  /** The nodes of an element are laid out so that the map from the
      reference interval preserves orientation: increasing end nodes, and for
      a quadratic element an interior node within the middle half. */
  predicate WellShaped(t: Topology, xl: seq<real>)
    requires |xl| == Nel(t)
  {
    match t
    case Linear => xl[0] < xl[1]
    case Quadratic => (3.0 * xl[0] + xl[1]) / 4.0 < xl[2] < (xl[0] + 3.0 * xl[1]) / 4.0
  }

  /** An element is well shaped exactly when its Jacobian is positive on the
      whole reference interval. */
  lemma WellShapedIff(t: Topology, xl: seq<real>)
    requires |xl| == Nel(t)
    ensures WellShaped(t, xl) <==> forall xi :: -1.0 <= xi <= 1.0 ==> 0.0 < Jacobian(t, xi, xl)
  {
    match t
    case Linear =>
      assert 0.0 < Jacobian(t, 0.0, xl) <==> xl[0] < xl[1];
    case Quadratic =>
      QuadJacobianPositive(xl);
      assert forall xi :: Jacobian(t, xi, xl) == QuadJacobian(xi, xl);
  }

  /** A well-shaped element has a positive Jacobian at every point of every
      Gauss rule. */
  lemma WellShapedGauss(t: Topology, lint: nat, sqrt: real -> real, xl: seq<real>)
    requires 1 <= lint <= 4 && IsSqrt(sqrt)
    requires |xl| == Nel(t) && WellShaped(t, xl)
    ensures PositiveElement(t, Gauss(lint, sqrt), xl)
  {
    WellShapedIff(t, xl);
    var rule := Gauss(lint, sqrt);
    forall q | 0 <= q < |rule.points|
      ensures 0.0 < Jacobian(t, rule.points[q], xl)
    {
    }
  }
}
