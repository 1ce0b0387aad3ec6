/**
  The parabola/circle complementarity example: G >= 0 above the parabola
  y = 1 - x^2, H >= 0 outside the unit circle centred at (0, 1), and the two
  points where both boundaries meet.
*/
module FeasibleRegion {
  import opened Geometry
  import opened ContourSegments

  function G(x: real, y: real): real {
    y + x * x - 1.0
  }

  function H(x: real, y: real): real {
    x * x + (y - 1.0) * (y - 1.0) - 1.0
  }

  /** G >= 0 exactly on and above the parabola y = 1 - x^2. */
  lemma GSign(x: real, y: real)
    ensures G(x, y) >= 0.0 <==> y >= 1.0 - x * x
    ensures G(x, y) == 0.0 <==> y == 1.0 - x * x
  {
  }

  /** H >= 0 exactly on and outside the circle of radius 1 about (0, 1). */
  lemma HSign(x: real, y: real)
    ensures H(x, y) >= 0.0 <==> x * x + (y - 1.0) * (y - 1.0) >= 1.0
    ensures H(x, y) == 0.0 <==> x * x + (y - 1.0) * (y - 1.0) == 1.0
  {
  }

  /**
    `mask_both`: the product of the G >= 0 and H >= 0 indicators. It is 1.0
    exactly where both constraints hold and 0.0 everywhere else.
  */
  function MaskBoth(p: Point): (m: real)
    ensures m == 1.0 <==> G(p.x, p.y) >= 0.0 && H(p.x, p.y) >= 0.0
    ensures m == 0.0 <==> !(G(p.x, p.y) >= 0.0 && H(p.x, p.y) >= 0.0)
  {
    Indicator(G(p.x, p.y) >= 0.0) * Indicator(H(p.x, p.y) >= 0.0)
  }

  /** `mask_H_lt0`, the white overlay: 1.0 exactly where `mask_H_ge0` is 0.0. */
  function MaskInsideCircle(p: Point): (m: real)
    ensures m + Indicator(H(p.x, p.y) >= 0.0) == 1.0
  {
    Indicator(H(p.x, p.y) < 0.0)
  }

  /** t = (sqrt(5) - 1) / 2, given the square root of 5. */
  function IntersectionT(sqrt5: real): (t: real)
    requires sqrt5 > 0.0 && sqrt5 * sqrt5 == 5.0
    ensures 0.0 < t < 1.0
    ensures t * t + t == 1.0
  {
    PositiveFactor(sqrt5 - 1.0, sqrt5 + 1.0);
    PositiveFactor(3.0 - sqrt5, 3.0 + sqrt5);
    (sqrt5 - 1.0) / 2.0
  }

  /** A factor of a positive product with a positive co-factor is positive. */
  lemma PositiveFactor(a: real, b: real)
    requires b > 0.0 && a * b > 0.0
    ensures a > 0.0
  {
  }

  /** Both marked points (x_int, 1 - t) and (-x_int, 1 - t) are common zeros of G and H. */
  lemma MarkedPointsAreCommonZeros(t: real, xInt: real)
    requires t > 0.0 && t * t + t == 1.0
    requires xInt * xInt == t
    ensures G(xInt, 1.0 - t) == 0.0 && H(xInt, 1.0 - t) == 0.0
    ensures G(-xInt, 1.0 - t) == 0.0 && H(-xInt, 1.0 - t) == 0.0
  {
    assert (-xInt) * (-xInt) == xInt * xInt;
    assert (1.0 - t - 1.0) * (1.0 - t - 1.0) == t * t;
  }

  /** Every common zero of G and H has x^2 = t for a non-negative root t of t^2 + t - 1. */
  lemma CommonZeroShape(x: real, y: real)
    requires G(x, y) == 0.0 && H(x, y) == 0.0
    ensures x * x >= 0.0
    ensures (x * x) * (x * x) + x * x == 1.0
    ensures y == 1.0 - x * x
  {
    assert y - 1.0 == -(x * x);
    assert (y - 1.0) * (y - 1.0) == (x * x) * (x * x);
  }

  /** t^2 + t = 1 has a single non-negative root. */
  lemma NonNegativeRootUnique(t: real, u: real)
    requires t >= 0.0 && t * t + t == 1.0
    requires u >= 0.0 && u * u + u == 1.0
    ensures t == u
  {
    assert (t - u) * (t + u + 1.0) == 0.0;
  }

  /** Two values with the same square are equal up to sign. */
  lemma SquareRoots(x: real, r: real)
    requires x * x == r * r
    ensures x == r || x == -r
  {
    assert (x - r) * (x + r) == 0.0;
  }

  /**
    The two marked points are the only intersections: (x, y) is a common zero
    of G and H exactly when x = +-x_int and y = 1 - t.
  */
  lemma CommonZerosAreMarkedPoints(sqrt5: real, xInt: real, x: real, y: real)
    requires sqrt5 > 0.0 && sqrt5 * sqrt5 == 5.0
    requires xInt * xInt == IntersectionT(sqrt5)
    ensures G(x, y) == 0.0 && H(x, y) == 0.0 <==>
      (x == xInt || x == -xInt) && y == 1.0 - IntersectionT(sqrt5)
  {
    var t := IntersectionT(sqrt5);
    if G(x, y) == 0.0 && H(x, y) == 0.0 {
      CommonZeroShape(x, y);
      NonNegativeRootUnique(x * x, t);
      SquareRoots(x, xInt);
    }
    if (x == xInt || x == -xInt) && y == 1.0 - t {
      MarkedPointsAreCommonZeros(t, xInt);
    }
  }

  /** Expanding (u - t)(u + t + 1): with t^2 + t = 1 it is u^2 + u - 1. */
  lemma WingFactors(u: real, t: real)
    ensures (u - t) * (u + t + 1.0) == u * u + u - (t * t + t)
  {
  }

  /** Expanding (y - (1 - t))(y - (2 + t)): with t^2 + t = 1 it is y^2 - 3y + 1. */
  lemma ArcFactors(y: real, t: real)
    ensures (y - (1.0 - t)) * (y - (2.0 + t)) == y * y - 3.0 * y + 2.0 - (t * t + t)
  {
  }

  /** A negative product whose first factor exceeds the second has its first factor positive. */
  lemma NegativeProductSigns(a: real, b: real)
    requires a * b < 0.0 && a > b
    ensures a > 0.0 && b < 0.0
  {
    if a <= 0.0 {
      PositiveFactor(-a, -b);
    }
  }

  /**
    The highlighted pieces of the parabola are its two wings: a point of
    G = 0 with H >= 0.01 lies strictly beyond the marked points, x^2 > x_int^2.
  */
  lemma GArcsAreWings(sqrt5: real, x: real, y: real)
    requires sqrt5 > 0.0 && sqrt5 * sqrt5 == 5.0
    requires G(x, y) == 0.0 && H(x, y) >= Threshold
    ensures x * x > IntersectionT(sqrt5)
  {
    var t := IntersectionT(sqrt5);
    var u := x * x;
    assert y - 1.0 == -u;
    assert (y - 1.0) * (y - 1.0) == u * u;
    assert H(x, y) == u * u + u - 1.0;
    WingFactors(u, t);
    assert (u - t) * (u + t + 1.0) == H(x, y);
    PositiveFactor(u - t, u + t + 1.0);
  }

  /**
    The highlighted pieces of the circle lie on its upper arc: a point of
    H = 0 with G >= 0.01 lies strictly above the marked points, y > 1 - t,
    whichever square root of 5 is given.
  */
  lemma HArcIsUpper(sqrt5: real, x: real, y: real)
    ensures sqrt5 > 0.0 && sqrt5 * sqrt5 == 5.0 && H(x, y) == 0.0 && G(x, y) >= Threshold ==>
      y > 1.0 - IntersectionT(sqrt5)
  {
    if sqrt5 > 0.0 && sqrt5 * sqrt5 == 5.0 && H(x, y) == 0.0 && G(x, y) >= Threshold {
      var t := IntersectionT(sqrt5);
      assert x * x == 1.0 - (y - 1.0) * (y - 1.0);
      assert y * y - 3.0 * y + 1.0 == -G(x, y);
      ArcFactors(y, t);
      NegativeProductSigns(y - (1.0 - t), y - (2.0 + t));
    }
  }

  /**
    The two highlighted arc sets of the diagram: the pieces of the G = 0
    contour where H passes the threshold, and the pieces of the H = 0 contour
    where G passes it.
  */
  method FeasibleArcs(contourG: seq<Path>, contourH: seq<Path>)
    returns (gArcs: seq<Segment>, hArcs: seq<Segment>)
    ensures forall j :: 0 <= j < |gArcs| ==>
      |gArcs[j]| >= 2 && forall v :: v in gArcs[j] ==> H(v.x, v.y) >= Threshold
    ensures forall j :: 0 <= j < |hArcs| ==>
      |hArcs[j]| >= 2 && forall v :: v in hArcs[j] ==> G(v.x, v.y) >= Threshold
  {
    var gOrigin: seq<Origin>, hOrigin: seq<Origin>;
    gArcs, gOrigin := GetFeasibleContourSegments(contourG, (p: Point) => H(p.x, p.y));
    hArcs, hOrigin := GetFeasibleContourSegments(contourH, (p: Point) => G(p.x, p.y));
  }
}
