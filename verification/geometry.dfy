/** Plane points and vectors shared by the diagram scripts, in exact real arithmetic. */
module Geometry {

  /** A point of the plane; also one row of a contour path's vertex array. */
  datatype Point = Point(x: real, y: real)

  /** A two-component vector (a gradient or a direction). */
  datatype Vec = Vec(x: real, y: real)

  function Dot(u: Vec, v: Vec): real {
    u.x * v.x + u.y * v.y
  }

  function Neg(v: Vec): Vec {
    Vec(-v.x, -v.y)
  }

  function Scale(c: real, v: Vec): Vec {
    Vec(c * v.x, c * v.y)
  }

  /** The 2x2 determinant of the matrix with columns u and v. */
  function Det(u: Vec, v: Vec): real {
    u.x * v.y - u.y * v.x
  }

  /**
    The square of a real. The LICQ constraints write their `**2` through it,
    so that the positivity lemmas below apply to them.
  */
  function Square(u: real): real {
    u * u
  }

  /** A square is never negative. */
  lemma SquareNonNegative(u: real)
    ensures Square(u) >= 0.0
  {
  }

  /** The square of a nonzero real is strictly positive. */
  lemma SquarePositive(u: real)
    requires u != 0.0
    ensures Square(u) > 0.0
  {
    calc {
      Square(u);
    ==
      u * u;
    >
      0.0;
    }
  }

  /** A boolean mask converted with `astype(float)`: 1.0 for true, 0.0 for false. */
  function Indicator(b: bool): real {
    if b then 1.0 else 0.0
  }
}
