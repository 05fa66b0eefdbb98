/** The three 2D cross products of Vector2Ext. */
module Vector2Ext {
  import opened Vectors

  /** Cross product of two vectors: the z component of their 3D cross product. */
  function Cross(lhs: Vector2, rhs: Vector2): real
  {
    lhs.X * rhs.Y - rhs.X * lhs.Y
  }

  /** Cross product of a z-axis vector of length z with a vector (angular velocity times a radius). */
  function CrossScalarVector(z: real, rhs: Vector2): Vector2
  {
    Vector2(-rhs.Y * z, rhs.X * z)
  }

  /** Cross product of a vector with a z-axis vector of length z. */
  function CrossVectorScalar(lhs: Vector2, z: real): Vector2
  {
    Vector2(lhs.Y * z, -lhs.X * z)
  }

  lemma CrossAntisymmetric(a: Vector2, b: Vector2)
    ensures Cross(a, b) == -Cross(b, a)
    ensures Cross(a, a) == 0.0
  {
  }

  /** z × v is perpendicular to v, and so is v × z. */
  lemma CrossScalarPerpendicular(z: real, v: Vector2)
    ensures Dot(CrossScalarVector(z, v), v) == 0.0
    ensures Dot(CrossVectorScalar(v, z), v) == 0.0
  {
  }

  /** The two mixed overloads differ only in sign. */
  lemma CrossMixedAntisymmetric(v: Vector2, z: real)
    ensures CrossVectorScalar(v, z) == Neg(CrossScalarVector(z, v))
  {
  }

  /** Both mixed overloads vanish for z == 0 and for the zero vector, and are linear in z. */
  lemma CrossMixedLinear(v: Vector2, z1: real, z2: real, k: real)
    ensures CrossScalarVector(0.0, v) == Zero && CrossVectorScalar(v, 0.0) == Zero
    ensures CrossScalarVector(z1, Zero) == Zero && CrossVectorScalar(Zero, z1) == Zero
    ensures CrossScalarVector(k * z1 + z2, v) == Add(Scale(CrossScalarVector(z1, v), k), CrossScalarVector(z2, v))
    ensures CrossVectorScalar(v, k * z1 + z2) == Add(Scale(CrossVectorScalar(v, z1), k), CrossVectorScalar(v, z2))
  {
  }

  /** r × (w × r) == w |r|²: an angular velocity seen through a lever arm and back. */
  lemma CrossTriple(r: Vector2, w: real)
    ensures Cross(r, CrossScalarVector(w, r)) == w * LengthSquared(r)
  {
  }
}
