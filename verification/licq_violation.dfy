/**
  The LICQ violation example: two unit circles centred at (0.5, 1.5) and
  (0.5, -0.5) touch at x* = (0.5, 0.5), where both constraints are active and
  their gradients are collinear.
*/
module LicqViolation {
  import opened Geometry

  function g1(x: real, y: real): real {
    Square(x - 0.5) + Square(y - 1.5) - 1.0
  }

  function g2(x: real, y: real): real {
    Square(x - 0.5) + Square(y + 0.5) - 1.0
  }

  function GradG1(x: real, y: real): Vec {
    Vec(2.0 * (x - 0.5), 2.0 * (y - 1.5))
  }

  function GradG2(x: real, y: real): Vec {
    Vec(2.0 * (x - 0.5), 2.0 * (y + 0.5))
  }

  const XStar: Point := Point(0.5, 0.5)

  /** Both constraints are active at x*. */
  lemma BothActiveAtXStar()
    ensures g1(XStar.x, XStar.y) == 0.0
    ensures g2(XStar.x, XStar.y) == 0.0
  {
  }

  /**
    At x* the gradients are (0, -2) and (0, 2): one is -1 times the other and
    their determinant is 0, so they are linearly dependent.
  */
  lemma GradientsCollinearAtXStar()
    ensures GradG1(XStar.x, XStar.y) == Vec(0.0, -2.0)
    ensures GradG2(XStar.x, XStar.y) == Vec(0.0, 2.0)
    ensures GradG2(XStar.x, XStar.y) == Scale(-1.0, GradG1(XStar.x, XStar.y))
    ensures Det(GradG1(XStar.x, XStar.y), GradG2(XStar.x, XStar.y)) == 0.0
  {
  }

  /**
    The coded gradients are exact for the quadratics: a step (s, t) changes
    each constraint by the gradient's product with the step plus s^2 + t^2.
  */
  lemma GradientsExact(x: real, y: real, s: real, t: real)
    ensures g1(x + s, y + t) - g1(x, y) == Dot(GradG1(x, y), Vec(s, t)) + s * s + t * t
    ensures g2(x + s, y + t) - g2(x, y) == Dot(GradG2(x, y), Vec(s, t)) + s * s + t * t
  {
  }

  /** Adding the constraints leaves twice the squared distance from x*. */
  lemma ConstraintSum(x: real, y: real)
    ensures g1(x, y) + g2(x, y) == 2.0 * (Square(x - 0.5) + Square(y - 0.5))
  {
  }

  /** Away from x*, at least one of the constraints is violated. */
  lemma OutsideAwayFromXStar(x: real, y: real)
    requires x != XStar.x || y != XStar.y
    ensures g1(x, y) > 0.0 || g2(x, y) > 0.0
  {
    ConstraintSum(x, y);
    SquareNonNegative(x - 0.5);
    SquareNonNegative(y - 0.5);
    if x != XStar.x {
      SquarePositive(x - 0.5);
    } else {
      SquarePositive(y - 0.5);
    }
  }

  /**
    The circles are tangent: g1 <= 0 and g2 <= 0 hold together exactly at x*.
  */
  lemma FeasibleSetIsXStar(x: real, y: real)
    ensures g1(x, y) <= 0.0 && g2(x, y) <= 0.0 <==> x == XStar.x && y == XStar.y
  {
    if x != XStar.x || y != XStar.y {
      OutsideAwayFromXStar(x, y);
    }
  }

  /** `feasible`: 1.0 exactly where g1 <= 0 and g2 <= 0, which is only at x*. */
  function FeasibleMask(p: Point): (m: real)
    ensures m == 1.0 <==> p == XStar
    ensures m == 0.0 <==> p != XStar
  {
    FeasibleSetIsXStar(p.x, p.y);
    Indicator(g1(p.x, p.y) <= 0.0 && g2(p.x, p.y) <= 0.0)
  }

  /** The number of samples per axis of the plotting grid. */
  const GridSize: nat := 800

  /** Sample k of `linspace(lo, hi, n)`, in exact arithmetic. */
  function Linspace(lo: real, hi: real, n: nat, k: nat): (v: real)
    requires n >= 2 && k < n
    ensures k == 0 ==> v == lo
    ensures k == n - 1 ==> v == hi
  {
    lo + (hi - lo) * (k as real) / ((n - 1) as real)
  }

  /**
    The samples of `linspace(lo, hi, n)` are evenly spaced: consecutive samples
    differ by (hi - lo) / (n - 1).
  */
  lemma LinspaceStep(lo: real, hi: real, n: nat, k: nat)
    requires n >= 2 && k + 1 < n
    ensures Linspace(lo, hi, n, k + 1) - Linspace(lo, hi, n, k) == (hi - lo) / ((n - 1) as real)
  {
  }

  /** Grid point (i, j) of `compute_grid`: x from -1 to 2, y from -0.5 to 2.5. */
  function GridPoint(i: nat, j: nat): Point
    requires i < GridSize && j < GridSize
  {
    Point(Linspace(-1.0, 2.0, GridSize, i), Linspace(-0.5, 2.5, GridSize, j))
  }

  /**
    Neither axis of the grid has a sample at 0.5 (it would need sample index
    399.5 in x and 266 1/3 in y), so the feasible mask is 0.0 at every grid
    point and the shaded feasible region is empty.
  */
  lemma FeasibleMaskZeroOnGrid(i: nat, j: nat)
    requires i < GridSize && j < GridSize
    ensures GridPoint(i, j).x != XStar.x && GridPoint(i, j).y != XStar.y
    ensures FeasibleMask(GridPoint(i, j)) == 0.0
  {
  }
}
