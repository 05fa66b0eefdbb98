/**
 * The part of OpenTK's Vector2 that the engine uses: componentwise arithmetic, the dot
 * product, lengths and normalisation. Square roots and rotations involve floating-point
 * library code, so they are parameters: `sqrt` is any function satisfying IsSqrt, and a
 * rotation by an angle is any function of type Rotation.
 */
module Vectors {

  datatype Vector2 = Vector2(X: real, Y: real)

  /** Rotates a vector by an angle in radians (OpenTK's Quaternion.FromAxisAngle + Vector2.Transform). */
  type Rotation = (Vector2, real) -> Vector2

  const Zero: Vector2 := Vector2(0.0, 0.0)

  function Add(a: Vector2, b: Vector2): Vector2 { Vector2(a.X + b.X, a.Y + b.Y) }

  function Sub(a: Vector2, b: Vector2): Vector2 { Vector2(a.X - b.X, a.Y - b.Y) }

  function Neg(a: Vector2): Vector2 { Vector2(-a.X, -a.Y) }

  function Scale(a: Vector2, k: real): Vector2 { Vector2(a.X * k, a.Y * k) }

  function Dot(a: Vector2, b: Vector2): real { a.X * b.X + a.Y * b.Y }

  /** The squared length, never negative. */
  function LengthSquared(a: Vector2): (r: real)
    ensures r >= 0.0
  {
    SquareNonNegative(a.X);
    SquareNonNegative(a.Y);
    a.X * a.X + a.Y * a.Y
  }

  /** Products of positive reals are positive. */
  lemma MulPositive(u: real, v: real)
    requires u > 0.0 && v > 0.0
    ensures u * v > 0.0
  {
  }

  lemma SquareNonNegative(x: real)
    ensures x * x >= 0.0
  {
    if x < 0.0 {
      MulPositive(-x, -x);
    } else if x > 0.0 {
      MulPositive(x, x);
    }
  }

  lemma SquarePositive(x: real)
    requires x != 0.0
    ensures x * x > 0.0
  {
    if x < 0.0 {
      MulPositive(-x, -x);
    } else {
      MulPositive(x, x);
    }
  }

  /** Squaring is strictly increasing on the non-negative reals. */
  lemma SquareLess(s: real, a: real)
    requires 0.0 <= s < a
    ensures s * s < a * a
  {
    MulPositive(a - s, a + s);
  }

  /** `sqrt` is a square root on the non-negative reals. */
  ghost predicate IsSqrt(sqrt: real -> real)
  {
    forall x :: x >= 0.0 ==> sqrt(x) >= 0.0 && sqrt(x) * sqrt(x) == x
  }

  lemma ZeroSquare(r: real)
    requires r == 0.0
    ensures r * r == 0.0
  {
  }

  /** A square root of a positive number is positive. */
  lemma SqrtPositive(sqrt: real -> real, x: real)
    requires IsSqrt(sqrt) && x > 0.0
    ensures sqrt(x) > 0.0
  {
    if sqrt(x) == 0.0 {
      ZeroSquare(sqrt(x));
    }
  }

  /** sqrt(a² + b²) bounds |a| from above. */
  lemma SqrtOfSumOfSquares(sqrt: real -> real, a: real, b: real)
    requires IsSqrt(sqrt)
    ensures sqrt(a * a + b * b) >= a && sqrt(a * a + b * b) >= -a
  {
    SquareNonNegative(a);
    SquareNonNegative(b);
    var s := sqrt(a * a + b * b);
    if s < a {
      SquareLess(s, a);
    }
    if s < -a {
      SquareLess(s, -a);
    }
  }

  function Length(a: Vector2, sqrt: real -> real): real
  {
    sqrt(LengthSquared(a))
  }

  /**
   * The vector divided by its length. OpenTK yields NaN components for the zero vector;
   * reals have no NaN, so here the zero vector normalises to itself.
   */
  function Normalize(a: Vector2, sqrt: real -> real): Vector2
  {
    Scale(a, NormalizeFactor(a, sqrt))
  }

  /** OpenTK's Vector2.Normalize as the engine calls it, a parameter like `sqrt`. */
  type Normalizer = Vector2 -> Vector2

  /** `normalize` is Normalize for the square root `sqrt`. */
  ghost predicate IsNormalizer(normalize: Normalizer, sqrt: real -> real)
  {
    forall a :: normalize(a) == Normalize(a, sqrt)
  }

  /** The factor Normalize scales by: the reciprocal of the length, or 1 for a zero length. */
  function NormalizeFactor(a: Vector2, sqrt: real -> real): (k: real)
    ensures IsSqrt(sqrt) ==> k > 0.0
  {
    var len := Length(a, sqrt);
    if len == 0.0 then 1.0 else 1.0 / len
  }

  /** The dot products of `dir` with each vector of a list, in order. */
  function Dots(dir: Vector2, vs: seq<Vector2>): (r: seq<real>)
    ensures |r| == |vs| && forall i :: 0 <= i < |vs| ==> r[i] == Dot(dir, vs[i])
  {
    seq(|vs|, i requires 0 <= i < |vs| => Dot(dir, vs[i]))
  }

  /** The dot product of a vector with itself is its squared length. */
  lemma DotSelf(a: Vector2)
    ensures Dot(a, a) == LengthSquared(a)
  {
  }

  /** The dot product is linear in its second argument. */
  lemma DotLinear(n: Vector2, a: Vector2, b: Vector2, k: real)
    ensures Dot(n, Add(a, Scale(Sub(b, a), k))) == Dot(n, a) + k * (Dot(n, b) - Dot(n, a))
  {
  }

  /**
   * Dividing a vector by its length gives a unit vector along it: its squared length is 1,
   * and its dot product with the vector is the length.
   */
  lemma UnitDirection(a: Vector2, len: real)
    requires len > 0.0 && len * len == LengthSquared(a)
    ensures LengthSquared(Vector2(a.X / len, a.Y / len)) == 1.0
    ensures Dot(Vector2(a.X / len, a.Y / len), a) == len
  {
    var k := 1.0 / len;
    assert k * len == 1.0;
    var x, y := a.X, a.Y;
    assert x / len == x * k && y / len == y * k;
    calc {
      Dot(Vector2(x * k, y * k), a);
      x * k * x + y * k * y;
      k * (x * x + y * y);
      k * (len * len);
      (k * len) * len;
      len;
    }
    calc {
      LengthSquared(Vector2(x * k, y * k));
      (x * k) * (x * k) + (y * k) * (y * k);
      (k * k) * (x * x + y * y);
      (k * k) * (len * len);
      (k * len) * (k * len);
      1.0;
    }
  }
}
