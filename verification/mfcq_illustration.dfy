/**
  The MFCQ illustration: an equality constraint h = 0 (a parabola), an
  inequality constraint g <= 0 (below a line), the marked point x* on h = 0,
  and the choice of a direction d perpendicular to grad h along which g
  decreases. The gradient functions are modelled as coded; they are not the
  exact partial derivatives of h and g, so the direction the script draws is
  not tangent to h = 0 (see `CodedDirectionNotTangent`).
*/
module MfcqIllustration {
  import opened Geometry

  function h(x: real, y: real): real {
    y - (0.3 * x * x + 0.5)
  }

  function g(x: real, y: real): real {
    y - (-0.5 * x + 1.2)
  }

  /** The vector returned by `gradient_h`. */
  function GradH(p: Point): Vec {
    Vec(0.6 * p.x, 1.0)
  }

  /** The vector returned by `gradient_g`, the same at every point. */
  function GradG(p: Point): Vec {
    Vec(-0.5, 1.0)
  }

  /** The abscissa the script uses for x*, an approximation of the contact root. */
  const XStarX: real := 0.907

  /** The point above `x` on the curve y = 0.3 x^2 + 0.5: it lies exactly on h = 0. */
  function XStar(x: real): (p: Point)
    ensures p.x == x
    ensures h(p.x, p.y) == 0.0
  {
    Point(x, 0.3 * x * x + 0.5)
  }

  /** The first candidate direction (-b, a) for a vector (a, b). */
  function Candidate1(v: Vec): Vec {
    Vec(-v.y, v.x)
  }

  /** The second candidate direction (b, -a) for a vector (a, b). */
  function Candidate2(v: Vec): Vec {
    Vec(v.y, -v.x)
  }

  /** Both candidates are perpendicular to the vector they are built from, and opposite to each other. */
  lemma CandidatesPerpendicular(v: Vec, u: Vec)
    ensures Dot(v, Candidate1(v)) == 0.0 && Dot(v, Candidate2(v)) == 0.0
    ensures Candidate2(v) == Neg(Candidate1(v))
    ensures Dot(u, Candidate2(v)) == -Dot(u, Candidate1(v))
  {
  }

  /**
    The direction selection: candidate 1 when its product with grad g is
    negative, candidate 2 otherwise. The result is perpendicular to `gradH`
    (tangent to h = 0 only when `gradH` is the true gradient), has a
    non-positive product with `gradG`, and a negative one unless `gradG` is
    orthogonal to both candidates.
  */
  function ChooseDirection(gradH: Vec, gradG: Vec): (d: Vec)
    ensures d == Candidate1(gradH) || d == Neg(Candidate1(gradH))
    ensures Dot(gradH, d) == 0.0
    ensures Dot(gradG, d) <= 0.0
    ensures Dot(gradG, d) < 0.0 <==> Dot(gradG, Candidate1(gradH)) != 0.0
  {
    CandidatesPerpendicular(gradH, gradG);
    if Dot(gradG, Candidate1(gradH)) < 0.0 then Candidate1(gradH) else Candidate2(gradH)
  }

  /** With the coded gradients at a point of h = 0, grad g . candidate 1 = 0.5 + 0.6 x. */
  lemma CandidateProductAtCurve(x: real)
    ensures Dot(GradG(XStar(x)), Candidate1(GradH(XStar(x)))) == 0.5 + 0.6 * x
  {
  }

  /**
    For every x > -5/6 the else-branch is taken: the chosen direction is
    candidate 2 and grad g . d is strictly negative.
  */
  lemma ElseBranchChosen(x: real)
    requires x > -5.0 / 6.0
    ensures ChooseDirection(GradH(XStar(x)), GradG(XStar(x))) == Candidate2(GradH(XStar(x)))
    ensures Dot(GradG(XStar(x)), ChooseDirection(GradH(XStar(x)), GradG(XStar(x)))) == -0.5 - 0.6 * x
    ensures Dot(GradG(XStar(x)), ChooseDirection(GradH(XStar(x)), GradG(XStar(x)))) < 0.0
  {
    CandidateProductAtCurve(x);
  }

  /**
    The script's x*, gradients and direction: x* is on h = 0, and the
    direction is (1, -0.6 * 0.907), perpendicular to the coded grad h (not
    tangent to h = 0, see `CodedDirectionNotTangent`) with a negative product
    with the coded grad g.
  */
  function MfcqDirection(): (r: (Point, Vec))
    ensures h(r.0.x, r.0.y) == 0.0
    ensures r.1 == Vec(1.0, -0.5442)
    ensures Dot(GradH(r.0), r.1) == 0.0
    ensures Dot(GradG(r.0), r.1) < 0.0
  {
    var xStar := XStar(XStarX);
    ElseBranchChosen(XStarX);
    (xStar, ChooseDirection(GradH(xStar), GradG(xStar)))
  }

  /**
    0.907 only approximates the contact root: exactly, g(x*) = 0.0002947, so
    the marked point lies just outside g <= 0.
  */
  lemma XStarApproximatesContact()
    ensures g(XStar(XStarX).x, XStar(XStarX).y) == 0.0002947
    ensures 0.0 < g(XStar(XStarX).x, XStar(XStarX).y) < 0.0003
  {
  }

  /**
    The exact contact point: with r = sqrt(0.25 + 0.84), x = (r - 0.5) / 0.6
    solves 0.3 x^2 + 0.5 x - 0.7 = 0, and (x, 0.3 x^2 + 0.5) is on both h = 0
    and g = 0.
  */
  lemma ExactContactPoint(r: real)
    requires r > 0.0 && r * r == 1.09
    ensures var x := (r - 0.5) / 0.6;
      && 0.3 * x * x + 0.5 * x - 0.7 == 0.0
      && h(XStar(x).x, XStar(x).y) == 0.0
      && g(XStar(x).x, XStar(x).y) == 0.0
  {
    var x := (r - 0.5) / 0.6;
    assert 0.6 * x == r - 0.5;
    assert 0.36 * (x * x) == r * r - r + 0.25;
  }

  /** The partial derivatives of h at p: (-0.6 x, 1). */
  function DerivH(p: Point): Vec {
    Vec(-0.6 * p.x, 1.0)
  }

  /** The partial derivatives of g, the same at every point: (0.5, 1). */
  function DerivG(p: Point): Vec {
    Vec(0.5, 1.0)
  }

  /**
    DerivH and DerivG are the true gradients: a step (s, t) changes g by
    exactly the gradient's product with the step, and h by that product
    minus 0.3 s^2.
  */
  lemma DerivativesExact(x: real, y: real, s: real, t: real)
    ensures h(x + s, y + t) - h(x, y) == Dot(DerivH(Point(x, y)), Vec(s, t)) - 0.3 * s * s
    ensures g(x + s, y + t) - g(x, y) == Dot(DerivG(Point(x, y)), Vec(s, t))
  {
  }

  /**
    The coded vectors differ from the true gradients in the sign of their
    x-component (at every point with x != 0 for h, everywhere for g), and the
    direction the script picks from them is not tangent to h = 0: at x* its
    product with the true gradient of h is -1.0884, and it is not parallel
    to the curve's tangent (1, 0.6 x*).
  */
  lemma CodedDirectionNotTangent()
    ensures forall p: Point :: p.x != 0.0 ==> GradH(p) != DerivH(p)
    ensures forall p: Point :: GradG(p) != DerivG(p)
    ensures Dot(DerivH(MfcqDirection().0), MfcqDirection().1) == -1.0884
    ensures Det(MfcqDirection().1, Vec(1.0, 0.6 * XStarX)) == 1.0884
  {
  }

  /**
    The direction rule applied to the true gradients at the curve point above
    x: d is parallel to the curve's tangent (1, 0.6 x), so moving along it
    keeps h = 0 to first order, and g does not increase along it. For every
    x > -5/6 the first candidate, (-1, -0.6 x), is chosen and g strictly
    decreases.
  */
  function TangentDirection(x: real): (d: Vec)
    ensures Dot(DerivH(XStar(x)), d) == 0.0
    ensures Det(d, Vec(1.0, 0.6 * x)) == 0.0
    ensures Dot(DerivG(XStar(x)), d) <= 0.0
    ensures x > -5.0 / 6.0 ==> d == Vec(-1.0, -0.6 * x) && Dot(DerivG(XStar(x)), d) < 0.0
  {
    ChooseDirection(DerivH(XStar(x)), DerivG(XStar(x)))
  }

  /** The corrected direction at the script's x*: (-1, -0.5442), tangent to h = 0 and decreasing g. */
  lemma CorrectedMfcqDirection()
    ensures TangentDirection(XStarX) == Vec(-1.0, -0.5442)
    ensures Dot(DerivH(XStar(XStarX)), TangentDirection(XStarX)) == 0.0
    ensures Dot(DerivG(XStar(XStarX)), TangentDirection(XStarX)) < 0.0
  {
  }

  /** The sampled curve y = 0.3 x^2 + 0.5 over the abscissae `xs`. */
  function CurvePoints(xs: seq<real>): (ps: seq<Point>)
    ensures |ps| == |xs|
    ensures forall k :: 0 <= k < |xs| ==> ps[k].x == xs[k] && h(ps[k].x, ps[k].y) == 0.0
  {
    seq(|xs|, k requires 0 <= k < |xs| => XStar(xs[k]))
  }

  /**
    The highlighted part of h = 0: sample k is kept when y_k <= -0.5 x_k + 1.2,
    which is exactly g <= 0 at that point of the curve, and exactly the
    quadratic 0.3 x^2 + 0.5 x - 0.7 <= 0 of the root computation.
  */
  function CurveMask(xs: seq<real>): (m: seq<bool>)
    ensures |m| == |xs|
    ensures forall k :: 0 <= k < |xs| ==>
      && (m[k] <==> g(XStar(xs[k]).x, XStar(xs[k]).y) <= 0.0)
      && (m[k] <==> 0.3 * xs[k] * xs[k] + 0.5 * xs[k] - 0.7 <= 0.0)
  {
    var ps := CurvePoints(xs);
    seq(|xs|, k requires 0 <= k < |xs| => ps[k].y <= -0.5 * ps[k].x + 1.2)
  }

  /** `feasible_ineq`: 1.0 exactly on the region g <= 0, below the line y = -0.5 x + 1.2. */
  function InequalityMask(p: Point): (m: real)
    ensures m == 1.0 <==> p.y <= -0.5 * p.x + 1.2
    ensures m == 0.0 <==> p.y > -0.5 * p.x + 1.2
  {
    Indicator(g(p.x, p.y) <= 0.0)
  }
}
