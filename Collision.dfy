/**
 * The narrow phase (Collision.cs): contact generation for circle/circle, circle/polygon and
 * polygon/polygon pairs.
 *
 * Each routine of the source writes its result into the fields Normal, Penetration and
 * ContactPoints of the manifold it is handed. Most leave them as they were when they find no
 * contact; two do not: PolygonVsCircle turns the normal round whatever CircleVsPolygon
 * found, and PolygonVsPolygon sets the normal and a zero penetration once both clips keep
 * two points, even when none of them lies behind the reference face. Here the routines take
 * those three fields as a Contact value and return the new one; ContactPoints' null is None. The routines read the bodies and shapes, and only
 * FindIncidentFace and Clip write (to the face buffer they are given).
 */
module Collision {
  import opened PhyMath
  import opened Vectors
  import opened Extrema
  import opened Bodies

  /** float.MinValue and float.MaxValue, the sentinels of the running maximum and minimum. */
  const FloatMinValue: real := -340282346638528859811704183484516925440.0
  const FloatMaxValue: real := 340282346638528859811704183484516925440.0

  datatype Option<T> = None | Some(value: T)

  /** The manifold fields the narrow phase writes. */
  datatype Contact = Contact(Normal: Vector2, Penetration: real, Points: Option<seq<Vector2>>)

  /**
   * What CircleVsCircle computes for circles of radii ra and rb centred at posA and posB:
   * without contact the manifold m as it came in.
   */
  ghost function CircleCircle(m: Contact, ra: real, rb: real, posA: Vector2, posB: Vector2, sqrt: real -> real): Contact
    requires IsSqrt(sqrt)
  {
    var distance := Sub(posB, posA);
    var d := LengthSquared(distance);
    if d > (ra + rb) * (ra + rb) then m
    else if d == 0.0 then Contact(Vector2(1.0, 0.0), ra, Some([posA]))
    else
      var len := sqrt(d);
      SqrtPositive(sqrt, d);
      var normal := Vector2(distance.X / len, distance.Y / len);
      Contact(normal, ra + rb - len, Some([Add(posA, Scale(normal, ra))]))
  }

  /**
   * No contact when the squared distance of the centres exceeds the squared sum of the radii;
   * otherwise exactly one contact point. Concentric circles get the normal (1, 0),
   * penetration ra and A's centre as contact; otherwise the normal is the unit vector from A's
   * centre to B's, the penetration is how far the radii overlap (never negative for
   * non-negative radii), and the contact is the point of A's rim facing B.
   */
  lemma CircleCircleContact(m: Contact, ra: real, rb: real, posA: Vector2, posB: Vector2, sqrt: real -> real)
    requires IsSqrt(sqrt)
    ensures var r, distance, rs := CircleCircle(m, ra, rb, posA, posB, sqrt), Sub(posB, posA), ra + rb;
      && (LengthSquared(distance) > rs * rs ==> r == m)
      && (LengthSquared(distance) <= rs * rs ==> r.Points.Some? && |r.Points.value| == 1)
      && (LengthSquared(distance) == 0.0 ==> r == Contact(Vector2(1.0, 0.0), ra, Some([posA])))
      && (0.0 < LengthSquared(distance) <= rs * rs ==>
            && LengthSquared(r.Normal) == 1.0
            && Dot(r.Normal, distance) == Length(distance, sqrt)
            && r.Penetration == rs - Length(distance, sqrt)
            && (rs >= 0.0 ==> r.Penetration >= 0.0)
            && r.Points.value[0] == Add(posA, Scale(r.Normal, ra)))
  {
    var distance, rs := Sub(posB, posA), ra + rb;
    var d := LengthSquared(distance);
    if 0.0 < d <= rs * rs {
      var len := sqrt(d);
      SqrtPositive(sqrt, d);
      UnitDirection(distance, len);
      if rs >= 0.0 && len > rs {
        SquareLess(rs, len);
      }
    }
  }

  /** Collision.CircleVsCircle: circle A against circle B. */
  method CircleVsCircle(m: Contact, a: RigidBody, b: RigidBody, sqrt: real -> real) returns (r: Contact)
    requires a.Shape.CircleShape? && b.Shape.CircleShape? && IsSqrt(sqrt)
    ensures r == CircleCircle(m, a.Shape.circle.Radius, b.Shape.circle.Radius, a.Position, b.Position, sqrt)
  {
    var A, B := a.Shape.circle, b.Shape.circle;
    var distance := Sub(b.Position, a.Position);
    var d := LengthSquared(distance);
    var rs := A.Radius + B.Radius;
    if d > rs * rs {
      return m;
    }
    if d == 0.0 {
      r := Contact(Vector2(1.0, 0.0), A.Radius, Some([a.Position]));
    } else {
      var len := sqrt(d);
      SqrtPositive(sqrt, d);
      var normal := Vector2(distance.X / len, distance.Y / len);
      r := Contact(normal, rs - len, Some([Add(a.Position, Scale(normal, A.Radius))]));
    }
  }

  /** The signed distance of a point from each face of a polygon: dot(p - vertex i, normal i). */
  function FaceDistances(p: Vector2, tv: seq<Vector2>, tn: seq<Vector2>): (r: seq<real>)
    requires |tv| == |tn|
    ensures |r| == |tv| && forall i :: 0 <= i < |tv| ==> r[i] == Dot(Sub(p, tv[i]), tn[i])
  {
    seq(|tv|, i requires 0 <= i < |tv| => Dot(Sub(p, tv[i]), tn[i]))
  }

  /**
   * What CircleVsPolygon computes, for a circle of the given radius at posA and a polygon at
   * posB whose transformed vertices and normals are tv and tn. Without contact the result is
   * m. The face of greatest separation is the one the source's running maximum finds.
   */
  ghost function CirclePolygon(m: Contact, radius: real, posA: Vector2, posB: Vector2,
                               tv: seq<Vector2>, tn: seq<Vector2>, sqrt: real -> real, normalize: Normalizer): Contact
    requires |tv| == |tn| > 0
  {
    var seps := FaceDistances(Sub(posA, posB), tv, tn);
    if exists i :: 0 <= i < |seps| && seps[i] > radius then m
    else
      var (greatest, face) := MaxFrom(FloatMinValue, seps);
      CirclePolygonAt(m, radius, posA, posB, tv, tn, greatest, face, sqrt, normalize)
  }

  /**
   * The rest of CirclePolygon, once `face` is known to be the face of greatest separation
   * `greatest`: the circle centre is deep inside, beyond one of the face's two vertices, or
   * facing the face itself.
   */
  ghost function CirclePolygonAt(m: Contact, radius: real, posA: Vector2, posB: Vector2,
                                 tv: seq<Vector2>, tn: seq<Vector2>, greatest: real, face: nat,
                                 sqrt: real -> real, normalize: Normalizer): Contact
    requires |tv| == |tn| && face < |tv|
  {
    if greatest < Epsilon then
      Contact(Neg(tn[face]), radius, Some([Add(posA, Scale(Neg(tn[face]), radius))]))
    else
      var locA := Sub(posA, posB);
      var faceL, faceR := tv[face], tv[Succ(face, |tv|)];
      var dL, dR := Sub(locA, faceL), Sub(locA, faceR);
      var d1, d2 := Dot(dL, Sub(faceR, faceL)), Dot(dR, Sub(faceL, faceR));
      if d1 <= 0.0 then
        if LengthSquared(dL) > radius * radius then m
        else Contact(Neg(normalize(dL)), radius - Length(Sub(locA, faceL), sqrt), Some([Add(faceL, posB)]))
      else if d2 <= 0.0 then
        if LengthSquared(dR) > radius * radius then m
        else Contact(Neg(normalize(dR)), radius - Length(Sub(locA, faceR), sqrt), Some([Add(faceR, posB)]))
      else if Dot(dL, tn[face]) > radius then m
      else Contact(Neg(tn[face]), radius - greatest, Some([Add(posA, Scale(Neg(tn[face]), radius))]))
  }

  /**
   * A circle farther than its radius outside any face of the polygon has no contact with it;
   * a contact has exactly one point, and then no face is farther than the radius.
   */
  lemma CirclePolygonSeparated(m: Contact, radius: real, posA: Vector2, posB: Vector2,
                               tv: seq<Vector2>, tn: seq<Vector2>, sqrt: real -> real, normalize: Normalizer)
    requires |tv| == |tn| > 0
    ensures var r := CirclePolygon(m, radius, posA, posB, tv, tn, sqrt, normalize);
      var seps := FaceDistances(Sub(posA, posB), tv, tn);
      && ((exists i :: 0 <= i < |tv| && seps[i] > radius) ==> r == m)
      && (r != m ==> (forall i :: 0 <= i < |tv| ==> seps[i] <= radius) && r.Points.Some? && |r.Points.value| == 1)
  {
  }

  /**
   * A circle whose centre is inside the polygon by more than Epsilon from every face (the
   * greatest separation is below Epsilon) is pushed out through the first face of greatest
   * separation, with the whole radius as penetration.
   */
  lemma CirclePolygonDeep(m: Contact, radius: real, posA: Vector2, posB: Vector2,
                          tv: seq<Vector2>, tn: seq<Vector2>, sqrt: real -> real, normalize: Normalizer)
    requires |tv| == |tn| > 0
    requires var seps := FaceDistances(Sub(posA, posB), tv, tn);
      && (forall i :: 0 <= i < |tv| ==> seps[i] <= radius)
      && FloatMinValue < seps[ArgMax(seps)] < Epsilon
    ensures var seps := FaceDistances(Sub(posA, posB), tv, tn);
      var face := ArgMax(seps);
      && (forall i :: 0 <= i < |tv| ==> seps[i] <= seps[face])
      && (forall i :: 0 <= i < face ==> seps[i] < seps[face])
      && CirclePolygon(m, radius, posA, posB, tv, tn, sqrt, normalize) ==
         Contact(Neg(tn[face]), radius, Some([Add(posA, Scale(Neg(tn[face]), radius))]))
  {
    var seps := FaceDistances(Sub(posA, posB), tv, tn);
    MaxFromIsArgMax(FloatMinValue, seps);
  }

  /**
   * A circle centre that projects inside the face of greatest separation (beyond Epsilon
   * outside it, within the radius) is pushed out along that face's normal by the radius minus
   * the separation.
   */
  lemma CirclePolygonFace(m: Contact, radius: real, posA: Vector2, posB: Vector2,
                          tv: seq<Vector2>, tn: seq<Vector2>, sqrt: real -> real, normalize: Normalizer)
    requires |tv| == |tn| > 0
    requires var seps := FaceDistances(Sub(posA, posB), tv, tn);
      var face := ArgMax(seps);
      var locA, faceL, faceR := Sub(posA, posB), tv[face], tv[Succ(face, |tv|)];
      && (forall i :: 0 <= i < |tv| ==> seps[i] <= radius)
      && Epsilon <= seps[face]
      && Dot(Sub(locA, faceL), Sub(faceR, faceL)) > 0.0
      && Dot(Sub(locA, faceR), Sub(faceL, faceR)) > 0.0
    ensures var seps := FaceDistances(Sub(posA, posB), tv, tn);
      var face := ArgMax(seps);
      CirclePolygon(m, radius, posA, posB, tv, tn, sqrt, normalize) ==
        Contact(Neg(tn[face]), radius - seps[face], Some([Add(posA, Scale(Neg(tn[face]), radius))]))
  {
    var seps := FaceDistances(Sub(posA, posB), tv, tn);
    MaxFromIsArgMax(FloatMinValue, seps);
    EpsilonPositive();
    assert seps[ArgMax(seps)] > FloatMinValue;
  }

  /** Collision.CircleVsPolygon: circle A against polygon B. */
  method CircleVsPolygon(m: Contact, a: RigidBody, b: RigidBody, sqrt: real -> real, normalize: Normalizer)
    returns (r: Contact)
    requires a.Shape.CircleShape? && b.Shape.PolygonShape? && b.Shape.polygon.Valid()
    ensures var B := b.Shape.polygon;
      r == CirclePolygon(m, a.Shape.circle.Radius, a.Position, b.Position,
                         B.TransVertices, B.TransNormals, sqrt, normalize)
  {
    var A, B := a.Shape.circle, b.Shape.polygon;
    var locA := Sub(a.Position, b.Position);
    var separated, greatest, face := GreatestFace(B.TransVertices, B.TransNormals, locA, A.Radius);
    if separated {
      return m;
    }
    r := CircleVsPolygonTail(m, a, b, locA, greatest, face, sqrt, normalize);
  }

  /**
   * The face search of CircleVsPolygon: stop as soon as a face has the circle centre locA
   * farther than the radius outside it; otherwise keep the running maximum of the separations.
   */
  method GreatestFace(tv: seq<Vector2>, tn: seq<Vector2>, locA: Vector2, radius: real)
    returns (separated: bool, greatest: real, face: nat)
    requires |tv| == |tn|
    ensures var seps := FaceDistances(locA, tv, tn);
      && (separated <==> exists i :: 0 <= i < |seps| && seps[i] > radius)
      && (!separated ==> (greatest, face) == MaxFrom(FloatMinValue, seps))
  {
    ghost var seps := FaceDistances(locA, tv, tn);
    greatest, face := FloatMinValue, 0;
    for i := 0 to |tv|
      invariant (greatest, face) == MaxFrom(FloatMinValue, seps[..i])
      invariant forall k :: 0 <= k < i ==> seps[k] <= radius
    {
      var d := Dot(Sub(locA, tv[i]), tn[i]);
      assert d == seps[i];
      if d > radius {
        return true, greatest, face;
      }
      MaxFromStep(FloatMinValue, seps, i);
      if d > greatest {
        greatest := d;
        face := i;
      }
    }
    assert seps[..|tv|] == seps;
    separated := false;
  }

  /** The part of CircleVsPolygon after the face search: deep inside, near a vertex, or facing a face. */
  method CircleVsPolygonTail(m: Contact, a: RigidBody, b: RigidBody, locA: Vector2, greatest: real, face: nat,
                             sqrt: real -> real, normalize: Normalizer) returns (r: Contact)
    requires a.Shape.CircleShape? && b.Shape.PolygonShape? && b.Shape.polygon.Valid()
    requires locA == Sub(a.Position, b.Position)
    requires face < b.Shape.polygon.Vertices.Length
    ensures var B := b.Shape.polygon;
      r == CirclePolygonAt(m, a.Shape.circle.Radius, a.Position, b.Position,
                           B.TransVertices, B.TransNormals, greatest, face, sqrt, normalize)
  {
    var A, B := a.Shape.circle, b.Shape.polygon;
    if greatest < Epsilon {
      var normal := Neg(B.TransNormals[face]);
      return Contact(normal, A.Radius, Some([Add(a.Position, Scale(normal, A.Radius))]));
    }
    SuccIsModulo(face, B.Vertices.Length);
    var faceL := B.TransVertices[face];
    var faceR := B.TransVertices[(face + 1) % B.Vertices.Length];
    var dL := Sub(locA, faceL);
    var dR := Sub(locA, faceR);
    var d1 := Dot(dL, Sub(faceR, faceL));
    var d2 := Dot(dR, Sub(faceL, faceR));
    if d1 <= 0.0 {
      if LengthSquared(dL) > A.Radius * A.Radius {
        return m;
      }
      return Contact(Neg(normalize(dL)), A.Radius - Length(Sub(locA, faceL), sqrt), Some([Add(faceL, b.Position)]));
    }
    if d2 <= 0.0 {
      if LengthSquared(dR) > A.Radius * A.Radius {
        return m;
      }
      return Contact(Neg(normalize(dR)), A.Radius - Length(Sub(locA, faceR), sqrt), Some([Add(faceR, b.Position)]));
    }
    if Dot(dL, B.TransNormals[face]) > A.Radius {
      return m;
    }
    var normal := Neg(B.TransNormals[face]);
    r := Contact(normal, A.Radius - greatest, Some([Add(a.Position, Scale(normal, A.Radius))]));
  }

  /** Collision.PolygonVsCircle: CircleVsPolygon with the bodies swapped, and the normal turned round. */
  method PolygonVsCircle(m: Contact, a: RigidBody, b: RigidBody, sqrt: real -> real, normalize: Normalizer)
    returns (r: Contact)
    requires a.Shape.PolygonShape? && a.Shape.polygon.Valid() && b.Shape.CircleShape?
    ensures var A := a.Shape.polygon;
      var swapped := CirclePolygon(m, b.Shape.circle.Radius, b.Position, a.Position,
                                   A.TransVertices, A.TransNormals, sqrt, normalize);
      r == swapped.(Normal := Neg(swapped.Normal))
  {
    r := CircleVsPolygon(m, b, a, sqrt, normalize);
    r := r.(Normal := Neg(r.Normal));
  }

  /** Polygon.GetSupport as a value: the first of the vertices farthest along `dir`. */
  function Support(vs: seq<Vector2>, dir: Vector2): Vector2
    requires |vs| > 0
  {
    vs[ArgMax(Dots(dir, vs))]
  }

  /**
   * The separation of polygon B (vertices tvB, at posB) from each face i of polygon A (at
   * posA): how far B's deepest point along -normal i lies in front of face i.
   */
  function Separations(tvA: seq<Vector2>, tnA: seq<Vector2>, tvB: seq<Vector2>, posA: Vector2, posB: Vector2)
    : (r: seq<real>)
    requires |tvA| == |tnA| && |tvB| > 0
    ensures |r| == |tvA|
    ensures forall i :: 0 <= i < |tvA| ==>
      r[i] == Dot(tnA[i], Sub(Support(tvB, Neg(tnA[i])), Sub(Add(tvA[i], posA), posB)))
  {
    seq(|tvA|, i requires 0 <= i < |tvA| =>
      Dot(tnA[i], Sub(Support(tvB, Neg(tnA[i])), Sub(Add(tvA[i], posA), posB))))
  }

  /**
   * The result of FindGreatestSeparationAxis: the greatest separation over A's faces and the
   * first face attaining it (for any separation above float.MinValue, that is, any float).
   */
  function SeparationAxis(tvA: seq<Vector2>, tnA: seq<Vector2>, tvB: seq<Vector2>, posA: Vector2, posB: Vector2)
    : (r: (real, nat))
    requires |tvA| == |tnA| > 0 && |tvB| > 0
    ensures r.1 < |tvA|
    ensures var seps := Separations(tvA, tnA, tvB, posA, posB);
      seps[ArgMax(seps)] > FloatMinValue ==>
        && r == (seps[ArgMax(seps)], ArgMax(seps))
        && (forall i :: 0 <= i < |tvA| ==> seps[i] <= r.0)
        && (forall i :: 0 <= i < r.1 ==> seps[i] < r.0)
  {
    MaxFromIsArgMax(FloatMinValue, Separations(tvA, tnA, tvB, posA, posB));
    MaxFrom(FloatMinValue, Separations(tvA, tnA, tvB, posA, posB))
  }

  /**
   * The incident face FindIncidentFace picks: the first face of the incident polygon whose
   * normal is most opposed to the reference normal n.
   */
  function IncidentIndex(n: Vector2, tn: seq<Vector2>): (k: nat)
    requires |tn| > 0
    ensures k < |tn|
    ensures var dots := Dots(n, tn);
      dots[ArgMin(dots)] < FloatMaxValue ==>
        && k == ArgMin(dots)
        && (forall i :: 0 <= i < |tn| ==> Dot(n, tn[k]) <= Dot(n, tn[i]))
        && (forall i :: 0 <= i < k ==> Dot(n, tn[k]) < Dot(n, tn[i]))
  {
    MinFromIsArgMin(FloatMaxValue, Dots(n, tn));
    MinFrom(FloatMaxValue, Dots(n, tn)).1
  }

  /** Collision.FindGreatestSeparationAxis: the face of A along which B is farthest out. */
  method FindGreatestSeparationAxis(polyA: Polygon, polyB: Polygon) returns (separation: real, face: nat)
    requires polyA.Valid() && polyB.Valid() && polyA.Body != null && polyB.Body != null
    ensures (separation, face) == SeparationAxis(polyA.TransVertices, polyA.TransNormals,
                                                 polyB.TransVertices, polyA.Body.Position, polyB.Body.Position)
  {
    ghost var seps := Separations(polyA.TransVertices, polyA.TransNormals,
                                  polyB.TransVertices, polyA.Body.Position, polyB.Body.Position);
    separation := FloatMinValue;
    face := 0;
    for i := 0 to polyA.Vertices.Length
      invariant (separation, face) == MaxFrom(FloatMinValue, seps[..i])
    {
      var n := polyA.TransNormals[i];
      var s := polyB.GetSupport(Neg(n));
      var v := Sub(Add(polyA.TransVertices[i], polyA.Body.Position), polyB.Body.Position);
      var d := Dot(n, Sub(s, v));
      MaxFromStep(FloatMinValue, seps, i);
      if d > separation {
        face := i;
        separation := d;
      }
    }
    assert seps[..polyA.Vertices.Length] == seps;
  }

  /**
   * Collision.FindIncidentFace: the two world-space end points of the incident polygon's face
   * most opposed to the reference face, written to the first two cells of `face`.
   */
  method FindIncidentFace(face: array<Vector2>, polyRef: Polygon, polyInc: Polygon, iRef: nat)
    requires face.Length >= 2 && polyRef.Valid() && polyInc.Valid() && polyInc.Body != null
    requires iRef < polyRef.Vertices.Length
    modifies face
    ensures var k, n := IncidentIndex(polyRef.TransNormals[iRef], polyInc.TransNormals), polyInc.Vertices.Length;
      && face[0] == Add(polyInc.TransVertices[k], polyInc.Body.Position)
      && face[1] == Add(polyInc.TransVertices[Succ(k, n)], polyInc.Body.Position)
    ensures forall i :: 2 <= i < face.Length ==> face[i] == old(face[i])
  {
    var n := polyRef.TransNormals[iRef];
    ghost var dots := Dots(n, polyInc.TransNormals);
    var iInc := 0;
    var smallestDot := FloatMaxValue;
    for i := 0 to polyInc.Vertices.Length
      invariant (smallestDot, iInc) == MinFrom(FloatMaxValue, dots[..i])
      modifies {}
    {
      var dot := Dot(n, polyInc.TransNormals[i]);
      MinFromStep(FloatMaxValue, dots, i);
      if dot < smallestDot {
        smallestDot := dot;
        iInc := i;
      }
    }
    assert dots[..polyInc.Vertices.Length] == dots;
    SuccIsModulo(iInc, polyInc.Vertices.Length);
    face[0] := Add(polyInc.TransVertices[iInc], polyInc.Body.Position);
    face[1] := Add(polyInc.TransVertices[(iInc + 1) % polyInc.Vertices.Length], polyInc.Body.Position);
  }

  /** The point a fraction t of the way from a to b: `a + t * (b - a)`. */
  function Lerp(a: Vector2, b: Vector2, t: real): Vector2
  {
    Add(a, Scale(Sub(b, a), t))
  }

  /** Two reals have a negative product exactly when they are non-zero with opposite signs. */
  lemma NegativeProduct(x: real, y: real)
    ensures x * y < 0.0 <==> (x < 0.0 < y || y < 0.0 < x)
  {
    if x < 0.0 && y > 0.0 {
      MulPositive(-x, y);
    } else if y < 0.0 && x > 0.0 {
      MulPositive(x, -y);
    } else if x < 0.0 && y < 0.0 {
      MulPositive(-x, -y);
    } else if x > 0.0 && y > 0.0 {
      MulPositive(x, y);
    }
  }

  /**
   * When the end points of a segment lie strictly on opposite sides of the plane
   * dot(n, p) == offset, Clip's fraction d1 / (d1 - d2) lies strictly between 0 and 1 and
   * the interpolated point lies on the plane.
   */
  lemma ClipPointOnPlane(n: Vector2, offset: real, f0: Vector2, f1: Vector2)
    requires var d1, d2 := Dot(n, f0) - offset, Dot(n, f1) - offset;
      d1 < 0.0 < d2 || d2 < 0.0 < d1
    ensures var d1, d2 := Dot(n, f0) - offset, Dot(n, f1) - offset;
      && d1 - d2 != 0.0
      && 0.0 < d1 / (d1 - d2) < 1.0
      && Dot(n, Lerp(f0, f1, d1 / (d1 - d2))) == offset
  {
    var d1, d2 := Dot(n, f0) - offset, Dot(n, f1) - offset;
    var alpha := d1 / (d1 - d2);
    assert alpha * (d1 - d2) == d1;
    DotLinear(n, f0, f1, alpha);
    if d1 < 0.0 {
      assert 0.0 < alpha < 1.0 by {
        if alpha <= 0.0 {
          MulNonNegative(-alpha, d2 - d1);
        } else if alpha >= 1.0 {
          MulNonNegative(alpha - 1.0, d2 - d1);
        }
      }
    } else {
      assert 0.0 < alpha < 1.0 by {
        if alpha <= 0.0 {
          MulNonNegative(-alpha, d1 - d2);
        } else if alpha >= 1.0 {
          MulNonNegative(alpha - 1.0, d1 - d2);
        }
      }
    }
  }

  /**
   * Collision.Clip: keep the part of the segment face[0]..face[1] with dot(n, p) <= offset,
   * as ClipResult states. The kept end points come first, then the crossing point when the
   * ends lie strictly on opposite sides; the count is never more than 2, so every write to the
   * two-cell buffer is in bounds. Cells the count does not cover keep what the buffer held.
   */
  method Clip(n: Vector2, offset: real, face: array<Vector2>) returns (clipSize: nat)
    requires face.Length >= 2
    modifies face
    ensures clipSize <= 2
    ensures forall i :: 2 <= i < face.Length ==> face[i] == old(face[i])
    ensures (clipSize, face[0], face[1]) == ClipResult(n, offset, old(face[0]), old(face[1]))
  {
    clipSize := 0;
    var temp := new Vector2[2] [face[0], face[1]];
    var d1 := Dot(n, face[0]) - offset;
    var d2 := Dot(n, face[1]) - offset;
    NegativeProduct(d1, d2);
    if d1 <= 0.0 {
      temp[clipSize] := face[0];
      clipSize := clipSize + 1;
    }
    if d2 <= 0.0 {
      temp[clipSize] := face[1];
      clipSize := clipSize + 1;
    }
    if d1 * d2 < 0.0 {
      ClipPointOnPlane(n, offset, face[0], face[1]);
      var alpha := d1 / (d1 - d2);
      temp[clipSize] := Add(face[0], Scale(Sub(face[1], face[0]), alpha));
      clipSize := clipSize + 1;
    }
    face[0] := temp[0];
    face[1] := temp[1];
  }

  /**
   * Collision.Clip as a value: the count and the two buffer cells it leaves for the segment
   * f0..f1 and the half-plane dot(n, p) <= offset. Nothing is kept exactly when both ends are
   * outside, one point exactly when one end is on the plane and the other outside; two kept
   * points both lie inside.
   */
  function ClipResult(n: Vector2, offset: real, f0: Vector2, f1: Vector2): (r: (nat, Vector2, Vector2))
    ensures r.0 <= 2
    ensures r.0 == 0 <==> Dot(n, f0) > offset && Dot(n, f1) > offset
    ensures r.0 == 1 <==> (Dot(n, f0) == offset < Dot(n, f1)) || (Dot(n, f1) == offset < Dot(n, f0))
    ensures r.0 == 2 ==> Dot(n, r.1) <= offset && Dot(n, r.2) <= offset
  {
    var d1, d2 := Dot(n, f0) - offset, Dot(n, f1) - offset;
    if d1 <= 0.0 && d2 <= 0.0 then (2, f0, f1)
    else if d1 < 0.0 < d2 || d2 < 0.0 < d1 then
      ClipPointOnPlane(n, offset, f0, f1);
      (2, if d1 < 0.0 then f0 else f1, Lerp(f0, f1, d1 / (d1 - d2)))
    else if d1 == 0.0 then (1, f0, f1)
    else if d2 == 0.0 then (1, f1, f1)
    else (0, f0, f1)
  }

  /** A convex combination of two values at most c is at most c. */
  lemma BetweenBelow(x: real, y: real, t: real, c: real)
    requires 0.0 <= t <= 1.0 && x <= c && y <= c
    ensures x + t * (y - x) <= c
  {
    MulNonNegative(t, c - y);
    MulNonNegative(1.0 - t, c - x);
  }

  /**
   * Clipping never leaves a half-plane dot(n2, p) <= c2 that holds both ends of the segment:
   * the kept points are end points or a point between them.
   */
  lemma ClipStaysInside(n: Vector2, offset: real, f0: Vector2, f1: Vector2, n2: Vector2, c2: real)
    requires Dot(n2, f0) <= c2 && Dot(n2, f1) <= c2
    ensures var r := ClipResult(n, offset, f0, f1);
      Dot(n2, r.1) <= c2 && Dot(n2, r.2) <= c2
  {
    var r := ClipResult(n, offset, f0, f1);
    var d1, d2 := Dot(n, f0) - offset, Dot(n, f1) - offset;
    if d1 < 0.0 < d2 || d2 < 0.0 < d1 {
      var alpha := d1 / (d1 - d2);
      ClipPointOnPlane(n, offset, f0, f1);
      assert r.1 == f0 || r.1 == f1;
      assert r.2 == Lerp(f0, f1, alpha);
      DotLinear(n2, f0, f1, alpha);
      BetweenBelow(Dot(n2, f0), Dot(n2, f1), alpha, c2);
    } else {
      assert r.1 == f0 || r.1 == f1;
      assert r.2 == f0 || r.2 == f1;
    }
  }

  /** The points of ps, in order, that lie on or behind the plane dot(fn, p) == c. */
  function BehindOf(fn: Vector2, c: real, ps: seq<Vector2>): (r: seq<Vector2>)
    ensures |r| <= |ps|
  {
    if |ps| == 0 then []
    else
      var init, last := ps[..|ps| - 1], ps[|ps| - 1];
      BehindOf(fn, c, init) + (if Dot(fn, last) - c <= 0.0 then [last] else [])
  }

  /** BehindOf keeps exactly the points of ps that are on or behind the plane. */
  lemma {:induction false} BehindOfMembers(fn: Vector2, c: real, ps: seq<Vector2>)
    ensures forall p :: p in BehindOf(fn, c, ps) <==> p in ps && Dot(fn, p) <= c
  {
    if |ps| > 0 {
      var init, last := ps[..|ps| - 1], ps[|ps| - 1];
      assert ps == init + [last];
      BehindOfMembers(fn, c, init);
    }
  }

  /** The depths below the plane dot(fn, p) == c of the points ps, summed. */
  function DepthSum(fn: Vector2, c: real, ps: seq<Vector2>): (r: real)
    ensures (forall k :: 0 <= k < |ps| ==> Dot(fn, ps[k]) <= c) ==> r >= 0.0
  {
    if |ps| == 0 then 0.0 else DepthSum(fn, c, ps[..|ps| - 1]) + (c - Dot(fn, ps[|ps| - 1]))
  }

  /**
   * The end of PolygonVsPolygon, given the clipped points that lie behind the reference face
   * dot(fn, p) == c: the normal becomes the face's outward normal fn (turned round when flip)
   * and the penetration 0; the points, when there are any, become the contact points and
   * their mean depth the penetration.
   */
  function KeptContact(m: Contact, fn: Vector2, c: real, points: seq<Vector2>, flip: bool): Contact
  {
    var normal := if flip then Neg(fn) else fn;
    if |points| == 0 then m.(Normal := normal, Penetration := 0.0)
    else m.(Normal := normal, Penetration := DepthSum(fn, c, points) / |points| as real, Points := Some(points))
  }

  /**
   * The clipping of PolygonVsPolygon for the reference face v1..v2 and the incident face
   * f0..f1: the incident face is clipped to the side plane through v1, then to the one
   * through v2; None when either clip keeps fewer than two points, otherwise the clipped
   * points that lie on or behind the reference face.
   */
  function FaceClip(v1: Vector2, v2: Vector2, f0: Vector2, f1: Vector2, normalize: Normalizer): Option<seq<Vector2>>
  {
    var side := normalize(Sub(v2, v1));
    var fn := EdgeNormal(v1, v2, normalize);
    var left := ClipResult(Neg(side), -Dot(side, v1), f0, f1);
    if left.0 < 2 then None
    else
      var right := ClipResult(side, Dot(side, v2), left.1, left.2);
      if right.0 < 2 then None
      else Some(BehindOf(fn, Dot(fn, v1), [right.1, right.2]))
  }

  /**
   * The points FaceClip keeps are at most two, and each lies behind the reference face and
   * between its two side planes.
   */
  lemma FaceClipBetween(v1: Vector2, v2: Vector2, f0: Vector2, f1: Vector2, normalize: Normalizer)
    ensures var side, fn := normalize(Sub(v2, v1)), EdgeNormal(v1, v2, normalize);
      var clip := FaceClip(v1, v2, f0, f1, normalize);
      clip.Some? ==>
        && |clip.value| <= 2
        && forall k :: 0 <= k < |clip.value| ==>
             && Dot(fn, clip.value[k]) <= Dot(fn, v1)
             && Dot(side, v1) <= Dot(side, clip.value[k]) <= Dot(side, v2)
  {
    var side, fn := normalize(Sub(v2, v1)), EdgeNormal(v1, v2, normalize);
    var left := ClipResult(Neg(side), -Dot(side, v1), f0, f1);
    var right := ClipResult(side, Dot(side, v2), left.1, left.2);
    if left.0 == 2 && right.0 == 2 {
      assert Dot(side, v1) <= Dot(side, right.1) <= Dot(side, v2) && Dot(side, v1) <= Dot(side, right.2) <= Dot(side, v2) by {
        ClipStaysInside(side, Dot(side, v2), left.1, left.2, Neg(side), -Dot(side, v1));
        NegDot(side, right.1);
        NegDot(side, right.2);
      }
      BehindPair(fn, Dot(fn, v1), right.1, right.2);
    }
  }

  /**
   * What PolygonVsPolygon makes of the reference face v1..v2 and the incident face f0..f1:
   * the manifold as it came in when a clip keeps fewer than two points, otherwise KeptContact
   * of the clipped points behind the face.
   */
  function FaceContact(m: Contact, v1: Vector2, v2: Vector2, f0: Vector2, f1: Vector2, flip: bool,
                       normalize: Normalizer): Contact
  {
    var fn := EdgeNormal(v1, v2, normalize);
    match FaceClip(v1, v2, f0, f1, normalize)
    case None => m
    case Some(points) => KeptContact(m, fn, Dot(fn, v1), points, flip)
  }

  /** Whether FaceContact produces contact points: both clips keep two points and one at least is behind the face. */
  predicate FaceTouches(v1: Vector2, v2: Vector2, f0: Vector2, f1: Vector2, normalize: Normalizer)
  {
    var clip := FaceClip(v1, v2, f0, f1, normalize);
    clip.Some? && |clip.value| > 0
  }

  /**
   * What FaceContact promises. Without clipped points behind the face the points are as they
   * came in. With them the normal is the face's outward normal, turned round when flip, and
   * the contact points are the one or two FaceClip keeps, with the penetration KeptContact
   * gives them (their mean depth, KeptContactMeans).
   */
  lemma FaceContactMeans(m: Contact, v1: Vector2, v2: Vector2, f0: Vector2, f1: Vector2, flip: bool,
                         normalize: Normalizer)
    ensures var r := FaceContact(m, v1, v2, f0, f1, flip, normalize);
      !FaceTouches(v1, v2, f0, f1, normalize) ==> r.Points == m.Points
    ensures var r, clip := FaceContact(m, v1, v2, f0, f1, flip, normalize), FaceClip(v1, v2, f0, f1, normalize);
      var fn := EdgeNormal(v1, v2, normalize);
      FaceTouches(v1, v2, f0, f1, normalize) ==>
        && r == KeptContact(m, fn, Dot(fn, v1), clip.value, flip)
        && r.Normal == (if flip then Neg(fn) else fn)
        && r.Points == Some(clip.value)
        && 1 <= |clip.value| <= 2
  {
    FaceClipBetween(v1, v2, f0, f1, normalize);
  }

  /**
   * The points behind the face, of two clipped points p0 and p1: none exactly when both are
   * in front of it, otherwise one or two of p0, p1, each behind the face.
   */
  lemma BehindPair(fn: Vector2, c: real, p0: Vector2, p1: Vector2)
    ensures var points := BehindOf(fn, c, [p0, p1]);
      && (|points| == 0 <==> Dot(fn, p0) > c && Dot(fn, p1) > c)
      && |points| <= 2
      && (forall k :: 0 <= k < |points| ==> (points[k] == p0 || points[k] == p1) && Dot(fn, points[k]) <= c)
  {
    BehindOfPair(fn, c, p0, p1);
  }

  /**
   * What KeptContact promises: the normal is fn, turned round when flip; without points the
   * penetration is 0 and the points are as they came in; with points behind the face they
   * become the contact points and the penetration is their mean depth, never negative.
   */
  lemma KeptContactMeans(m: Contact, fn: Vector2, c: real, points: seq<Vector2>, flip: bool)
    requires forall k :: 0 <= k < |points| ==> Dot(fn, points[k]) <= c
    ensures var r := KeptContact(m, fn, c, points, flip);
      && r.Normal == (if flip then Neg(fn) else fn)
      && (|points| == 0 ==> r.Penetration == 0.0 && r.Points == m.Points)
      && (|points| > 0 ==>
            && r.Points == Some(points)
            && r.Penetration >= 0.0
            && r.Penetration * (|points| as real) == DepthSum(fn, c, points))
  {
    if |points| > 0 {
      MeanDepth(fn, c, points);
    }
  }

  /** The mean depth of points that all lie behind the plane is never negative. */
  lemma MeanDepth(fn: Vector2, c: real, points: seq<Vector2>)
    requires |points| > 0 && forall k :: 0 <= k < |points| ==> Dot(fn, points[k]) <= c
    ensures var mean := DepthSum(fn, c, points) / |points| as real;
      mean >= 0.0 && mean * (|points| as real) == DepthSum(fn, c, points)
  {
    MeanOfSum(DepthSum(fn, c, points), |points| as real, DepthSum(fn, c, points) / |points| as real);
  }

  /** BehindOf of two points: each of them, in order, when it is behind the plane. */
  lemma BehindOfPair(fn: Vector2, c: real, p0: Vector2, p1: Vector2)
    ensures BehindOf(fn, c, [p0, p1]) ==
            (if Dot(fn, p0) <= c then [p0] else []) + (if Dot(fn, p1) <= c then [p1] else [])
  {
    assert [p0, p1][..1] == [p0];
    assert [p0][..0] == [];
  }

  /** Turning the normal round turns the dot product round. */
  lemma NegDot(a: Vector2, b: Vector2)
    ensures Dot(Neg(a), b) == -Dot(a, b)
  {
  }

  /** Dividing a sum by a positive count gives the mean: it times the count is the sum. */
  lemma MeanOfSum(sum: real, count: real, mean: real)
    requires count > 0.0 && mean == sum / count
    ensures mean * count == sum
    ensures sum >= 0.0 ==> mean >= 0.0
  {
    if sum >= 0.0 && mean < 0.0 {
      MulPositive(-mean, count);
    }
  }

  /**
   * The reference face `face` of the polygon with vertices tvRef and normals tnRef at posRef,
   * and the incident face of the other polygon (vertices tvInc, normals tnInc, at posInc): the
   * face whose normal has the least dot product with the reference normal. All four end points
   * are in world coordinates.
   */
  function ReferenceFaces(tvRef: seq<Vector2>, tnRef: seq<Vector2>, posRef: Vector2, face: nat,
                          tvInc: seq<Vector2>, tnInc: seq<Vector2>, posInc: Vector2)
    : (Vector2, Vector2, Vector2, Vector2)
    requires face < |tvRef| == |tnRef| && |tvInc| == |tnInc| > 0
  {
    var k := IncidentIndex(tnRef[face], tnInc);
    (Add(tvRef[face], posRef), Add(tvRef[Succ(face, |tvRef|)], posRef),
     Add(tvInc[k], posInc), Add(tvInc[Succ(k, |tvInc|)], posInc))
  }

  /** What PolygonVsPolygon leaves once reference face `face` is chosen. */
  function ReferenceContact(m: Contact, tvRef: seq<Vector2>, tnRef: seq<Vector2>, posRef: Vector2, face: nat,
                            tvInc: seq<Vector2>, tnInc: seq<Vector2>, posInc: Vector2, flip: bool,
                            normalize: Normalizer): Contact
    requires face < |tvRef| == |tnRef| && |tvInc| == |tnInc| > 0
  {
    var (v1, v2, f0, f1) := ReferenceFaces(tvRef, tnRef, posRef, face, tvInc, tnInc, posInc);
    FaceContact(m, v1, v2, f0, f1, flip, normalize)
  }

  /**
   * The second half of Collision.PolygonVsPolygon: clip the incident face to the side planes
   * of reference face `faceRef` and keep the clipped points that lie behind it.
   */
  method ClipToReference(m: Contact, polyRef: Polygon, polyInc: Polygon, faceRef: nat, flip: bool, normalize: Normalizer)
    returns (r: Contact)
    requires polyRef.Valid() && polyInc.Valid() && polyRef.Body != null && polyInc.Body != null
    requires faceRef < polyRef.Vertices.Length
    ensures r == ReferenceContact(m, polyRef.TransVertices, polyRef.TransNormals, polyRef.Body.Position, faceRef,
                                  polyInc.TransVertices, polyInc.TransNormals, polyInc.Body.Position, flip, normalize)
  {
    var incFace := new Vector2[2];
    FindIncidentFace(incFace, polyRef, polyInc, faceRef);
    ghost var (g1, g2, f0, f1) := ReferenceFaces(polyRef.TransVertices, polyRef.TransNormals, polyRef.Body.Position,
                                                 faceRef, polyInc.TransVertices, polyInc.TransNormals,
                                                 polyInc.Body.Position);
    SuccIsModulo(faceRef, polyRef.Vertices.Length);
    var v1 := Add(polyRef.TransVertices[faceRef], polyRef.Body.Position);
    var v2 := Add(polyRef.TransVertices[(faceRef + 1) % polyRef.Vertices.Length], polyRef.Body.Position);
    assert v1 == g1 && v2 == g2;
    r := ClipFace(m, incFace, v1, v2, flip, normalize);
  }

  /**
   * The clipping of Collision.PolygonVsPolygon for the reference face v1..v2: the incident
   * face in the buffer is clipped to the face's two side planes, and the points behind the
   * face are kept.
   */
  method ClipFace(m: Contact, incFace: array<Vector2>, v1: Vector2, v2: Vector2, flip: bool, normalize: Normalizer)
    returns (r: Contact)
    requires incFace.Length == 2
    modifies incFace
    ensures r == FaceContact(m, v1, v2, old(incFace[0]), old(incFace[1]), flip, normalize)
  {
    var side := normalize(Sub(v2, v1));
    var fn := Vector2(side.Y, -side.X);
    var refC := Dot(fn, v1);
    var refL := -Dot(side, v1);
    var refR := Dot(side, v2);
    assert fn == EdgeNormal(v1, v2, normalize);
    FaceContactSteps(m, v1, v2, incFace[0], incFace[1], flip, normalize);
    var clipped := Clip(Neg(side), refL, incFace);
    if clipped < 2 {
      return m;
    }
    clipped := Clip(side, refR, incFace);
    if clipped < 2 {
      return m;
    }
    r := KeepBehind(m, incFace, fn, refC, flip);
  }

  /** FaceContact step by step: the first clip, the second, then KeptContact. */
  lemma FaceContactSteps(m: Contact, v1: Vector2, v2: Vector2, f0: Vector2, f1: Vector2, flip: bool,
                         normalize: Normalizer)
    ensures var side, fn := normalize(Sub(v2, v1)), EdgeNormal(v1, v2, normalize);
      var left := ClipResult(Neg(side), -Dot(side, v1), f0, f1);
      var right := ClipResult(side, Dot(side, v2), left.1, left.2);
      FaceContact(m, v1, v2, f0, f1, flip, normalize) ==
        if left.0 < 2 || right.0 < 2 then m
        else KeptContact(m, fn, Dot(fn, v1), BehindOf(fn, Dot(fn, v1), [right.1, right.2]), flip)
  {
  }

  /**
   * The end of Collision.PolygonVsPolygon: the clipped incident points that lie behind the
   * reference face dot(fn, p) == refC become the contact points, their mean depth the
   * penetration.
   */
  method KeepBehind(m: Contact, incFace: array<Vector2>, fn: Vector2, refC: real, flip: bool) returns (r: Contact)
    requires incFace.Length == 2
    ensures r == KeptContact(m, fn, refC, BehindOf(fn, refC, [incFace[0], incFace[1]]), flip)
  {
    var normal := if flip then Neg(fn) else fn;
    var contact, cp, depth := GatherBehind(incFace, fn, refC);
    r := m.(Normal := normal, Penetration := depth);
    if cp == 0 {
      return;
    }
    r := r.(Penetration := r.Penetration / cp as real, Points := Some(contact[..cp]));
  }

  /**
   * The loop of KeepBehind: the clipped points behind the plane dot(fn, p) == refC go, in
   * order, into the first cp cells of contact, and their depths are summed from 0.
   */
  method GatherBehind(incFace: array<Vector2>, fn: Vector2, refC: real) returns (contact: array<Vector2>, cp: nat, depth: real)
    requires incFace.Length == 2
    ensures fresh(contact) && contact.Length == 2 && cp <= 2
    ensures contact[..cp] == BehindOf(fn, refC, [incFace[0], incFace[1]])
    ensures depth == DepthSum(fn, refC, contact[..cp])
  {
    ghost var face := incFace[..];
    cp := 0;
    depth := 0.0;
    contact := new Vector2[2];
    for i := 0 to 2
      invariant cp <= i && incFace[..] == face
      invariant contact[..cp] == BehindOf(fn, refC, face[..i])
      invariant depth == DepthSum(fn, refC, contact[..cp])
    {
      ghost var before := contact[..cp];
      KeepStep(fn, refC, face, i, before, depth);
      cp, depth := KeepPoint(contact, cp, depth, incFace[i], fn, refC);
    }
    assert face[..2] == [incFace[0], incFace[1]];
  }

  /**
   * The body of KeepBehind's loop: point p goes into cell cp, and its depth into the sum, when
   * it lies behind the plane dot(fn, p) == refC.
   */
  method KeepPoint(contact: array<Vector2>, cp: nat, depth: real, p: Vector2, fn: Vector2, refC: real)
    returns (cp': nat, depth': real)
    requires cp < contact.Length
    modifies contact
    ensures Dot(fn, p) - refC <= 0.0 ==>
      cp' == cp + 1 && contact[..cp'] == old(contact[..cp]) + [p] && depth' == depth + -(Dot(fn, p) - refC)
    ensures Dot(fn, p) - refC > 0.0 ==> cp' == cp && contact[..cp'] == old(contact[..cp]) && depth' == depth
  {
    var separation := Dot(fn, p) - refC;
    cp', depth' := cp, depth;
    if separation <= 0.0 {
      contact[cp] := p;
      cp' := cp + 1;
      assert contact[..cp'] == old(contact[..cp]) + [p];
      depth' := depth + -separation;
    }
  }

  /**
   * One turn of KeepBehind's loop: the point face[i] is kept, and its depth added, exactly
   * when it is behind the plane.
   */
  lemma KeepStep(fn: Vector2, c: real, face: seq<Vector2>, i: nat, kept: seq<Vector2>, depth: real)
    requires i < |face| && kept == BehindOf(fn, c, face[..i]) && depth == DepthSum(fn, c, kept)
    ensures Dot(fn, face[i]) - c <= 0.0 ==>
      && BehindOf(fn, c, face[..i + 1]) == kept + [face[i]]
      && DepthSum(fn, c, kept + [face[i]]) == depth + -(Dot(fn, face[i]) - c)
    ensures Dot(fn, face[i]) - c > 0.0 ==> BehindOf(fn, c, face[..i + 1]) == kept
  {
    BehindOfStep(fn, c, face, i);
    DepthSumStep(fn, c, kept, face[i]);
  }

  /** BehindOf one point further: the point is appended when it is behind the plane. */
  lemma BehindOfStep(fn: Vector2, c: real, ps: seq<Vector2>, i: nat)
    requires i < |ps|
    ensures BehindOf(fn, c, ps[..i + 1]) == BehindOf(fn, c, ps[..i]) + (if Dot(fn, ps[i]) - c <= 0.0 then [ps[i]] else [])
  {
    assert ps[..i + 1][..i] == ps[..i];
  }

  /** DepthSum one point further: the point's depth is added. */
  lemma DepthSumStep(fn: Vector2, c: real, ps: seq<Vector2>, p: Vector2)
    ensures DepthSum(fn, c, ps + [p]) == DepthSum(fn, c, ps) + (c - Dot(fn, p))
  {
    assert (ps + [p])[..|ps|] == ps;
  }

  /**
   * What PolygonVsPolygon leaves for polygons A at posA and B at posB: the manifold as it came
   * in when either has a face along which the other is at least Epsilon out; otherwise the
   * face with the greater separation, A's on a tie, is the reference face, and the normal is
   * turned round exactly when that face is B's.
   */
  ghost function PolygonPolygon(m: Contact, tvA: seq<Vector2>, tnA: seq<Vector2>, tvB: seq<Vector2>,
                                tnB: seq<Vector2>, posA: Vector2, posB: Vector2, normalize: Normalizer): Contact
    requires |tvA| == |tnA| > 0 && |tvB| == |tnB| > 0
  {
    var axisA := SeparationAxis(tvA, tnA, tvB, posA, posB);
    var axisB := SeparationAxis(tvB, tnB, tvA, posB, posA);
    if axisA.0 >= Epsilon || axisB.0 >= Epsilon then m
    else if axisB.0 > axisA.0 then ReferenceContact(m, tvB, tnB, posB, axisB.1, tvA, tnA, posA, true, normalize)
    else ReferenceContact(m, tvA, tnA, posA, axisA.1, tvB, tnB, posB, false, normalize)
  }

  /** PolygonPolygon once both separating-axis searches are known. */
  lemma PolygonPolygonIs(m: Contact, tvA: seq<Vector2>, tnA: seq<Vector2>, tvB: seq<Vector2>, tnB: seq<Vector2>,
                         posA: Vector2, posB: Vector2, normalize: Normalizer,
                         penA: real, faceA: nat, penB: real, faceB: nat)
    requires |tvA| == |tnA| > 0 && |tvB| == |tnB| > 0
    requires (penA, faceA) == SeparationAxis(tvA, tnA, tvB, posA, posB)
    requires (penB, faceB) == SeparationAxis(tvB, tnB, tvA, posB, posA)
    ensures PolygonPolygon(m, tvA, tnA, tvB, tnB, posA, posB, normalize) ==
      if penA >= Epsilon || penB >= Epsilon then m
      else if penB > penA then ReferenceContact(m, tvB, tnB, posB, faceB, tvA, tnA, posA, true, normalize)
      else ReferenceContact(m, tvA, tnA, posA, faceA, tvB, tnB, posB, false, normalize)
  {
  }

  /**
   * Collision.PolygonVsPolygon: separating-axis test in both directions (an axis with
   * separation of at least Epsilon means no contact), then the face with the greater
   * separation, A's on a tie, becomes the reference face.
   */
  method PolygonVsPolygon(m: Contact, a: RigidBody, b: RigidBody, normalize: Normalizer) returns (r: Contact)
    requires a.Shape.PolygonShape? && b.Shape.PolygonShape?
    requires a.Shape.polygon.Valid() && b.Shape.polygon.Valid()
    requires a.Shape.polygon.Body != null && b.Shape.polygon.Body != null
    ensures var A, B := a.Shape.polygon, b.Shape.polygon;
      r == PolygonPolygon(m, A.TransVertices, A.TransNormals, B.TransVertices, B.TransNormals,
                          A.Body.Position, B.Body.Position, normalize)
  {
    var A, B := a.Shape.polygon, b.Shape.polygon;
    ghost var (penB, fB) := SeparationAxis(B.TransVertices, B.TransNormals, A.TransVertices, B.Body.Position, A.Body.Position);
    var penetrationA, faceA := FindGreatestSeparationAxis(A, B);
    PolygonPolygonIs(m, A.TransVertices, A.TransNormals, B.TransVertices, B.TransNormals, A.Body.Position,
                     B.Body.Position, normalize, penetrationA, faceA, penB, fB);
    if penetrationA >= Epsilon {
      return m;
    }
    var penetrationB, faceB := FindGreatestSeparationAxis(B, A);
    if penetrationB >= Epsilon {
      return m;
    }
    var flip := penetrationB > penetrationA;
    if flip {
      r := ClipToReference(m, B, A, faceB, flip, normalize);
    } else {
      r := ClipToReference(m, A, B, faceA, flip, normalize);
    }
  }

  /**
   * What the narrow phase reads of a body: its position and its circle's radius, or its
   * polygon's vertices and face normals as last transformed.
   */
  datatype Posed =
    | PosedCircle(Radius: real, Position: Vector2)
    | PosedPolygon(Vertices: seq<Vector2>, Normals: seq<Vector2>, Position: Vector2)

  /** The Posed view of body a. */
  ghost function Pose(a: RigidBody): (p: Posed)
    reads a, a.Shape.Object()
    ensures p.Position == a.Position
    ensures a.Shape.CircleShape? <==> p.PosedCircle?
  {
    match a.Shape
    case CircleShape(c) => PosedCircle(c.Radius, a.Position)
    case PolygonShape(q) => PosedPolygon(q.TransVertices, q.TransNormals, a.Position)
  }

  /**
   * The Dispatch table of Collision.cs, indexed by the two shape kinds: which routine a
   * manifold of bodies posed as pa and pb is solved with, and what it leaves.
   */
  ghost predicate Collides(m: Contact, r: Contact, pa: Posed, pb: Posed, sqrt: real -> real, normalize: Normalizer)
    requires IsSqrt(sqrt)
  {
    match (pa, pb)
    case (PosedCircle(ra, posA), PosedCircle(rb, posB)) =>
      r == CircleCircle(m, ra, rb, posA, posB, sqrt)
    case (PosedCircle(ra, posA), PosedPolygon(tv, tn, posB)) =>
      && |tv| == |tn| > 0
      && r == CirclePolygon(m, ra, posA, posB, tv, tn, sqrt, normalize)
    case (PosedPolygon(tv, tn, posA), PosedCircle(rb, posB)) =>
      && |tv| == |tn| > 0
      && var swapped := CirclePolygon(m, rb, posB, posA, tv, tn, sqrt, normalize);
         r == swapped.(Normal := Neg(swapped.Normal))
    case (PosedPolygon(tvA, tnA, posA), PosedPolygon(tvB, tnB, posB)) =>
      && |tvA| == |tnA| > 0 && |tvB| == |tnB| > 0
      && r == PolygonPolygon(m, tvA, tnA, tvB, tnB, posA, posB, normalize)
  }

  /** Manifold.Solve's call through the Dispatch table: the routine for the two shape kinds. */
  method Dispatch(m: Contact, a: RigidBody, b: RigidBody, ghost pa: Posed, ghost pb: Posed, sqrt: real -> real,
                  normalize: Normalizer) returns (r: Contact)
    requires IsSqrt(sqrt) && a.Linked() && b.Linked()
    requires pa == Pose(a) && pb == Pose(b)
    ensures Collides(m, r, pa, pb, sqrt, normalize)
  {
    match (a.Shape, b.Shape)
    case (CircleShape(_), CircleShape(_)) =>
      r := CircleVsCircle(m, a, b, sqrt);
    case (CircleShape(_), PolygonShape(_)) =>
      r := CircleVsPolygon(m, a, b, sqrt, normalize);
    case (PolygonShape(_), CircleShape(_)) =>
      r := PolygonVsCircle(m, a, b, sqrt, normalize);
    case (PolygonShape(_), PolygonShape(_)) =>
      r := PolygonVsPolygon(m, a, b, normalize);
  }

  /**
   * Whatever the shapes, a manifold that comes in without contact points leaves either still
   * without them or with one or two.
   */
  lemma CollidesPoints(m: Contact, r: Contact, pa: Posed, pb: Posed, sqrt: real -> real, normalize: Normalizer)
    requires IsSqrt(sqrt)
    requires Collides(m, r, pa, pb, sqrt, normalize) && m.Points.None?
    ensures r.Points.None? || 1 <= |r.Points.value| <= 2
  {
    match (pa, pb)
    case (PosedCircle(ra, posA), PosedCircle(rb, posB)) =>
      CircleCircleContact(m, ra, rb, posA, posB, sqrt);
    case (PosedCircle(ra, posA), PosedPolygon(tv, tn, posB)) =>
      CirclePolygonSeparated(m, ra, posA, posB, tv, tn, sqrt, normalize);
    case (PosedPolygon(tv, tn, posA), PosedCircle(rb, posB)) =>
      CirclePolygonSeparated(m, rb, posB, posA, tv, tn, sqrt, normalize);
    case (PosedPolygon(tvA, tnA, posA), PosedPolygon(tvB, tnB, posB)) =>
      PolygonPolygonPoints(m, tvA, tnA, tvB, tnB, posA, posB, normalize);
  }

  /**
   * Once the reference face is chosen, the points are as they came in or one or two; and a
   * manifold that came in without points leaves with some exactly when the clipping leaves
   * points behind the reference face.
   */
  lemma ReferenceContactPoints(m: Contact, tvRef: seq<Vector2>, tnRef: seq<Vector2>, posRef: Vector2, face: nat,
                               tvInc: seq<Vector2>, tnInc: seq<Vector2>, posInc: Vector2, flip: bool,
                               normalize: Normalizer)
    requires face < |tvRef| == |tnRef| && |tvInc| == |tnInc| > 0
    ensures var r := ReferenceContact(m, tvRef, tnRef, posRef, face, tvInc, tnInc, posInc, flip, normalize);
      r.Points == m.Points || (r.Points.Some? && 1 <= |r.Points.value| <= 2)
    ensures var r := ReferenceContact(m, tvRef, tnRef, posRef, face, tvInc, tnInc, posInc, flip, normalize);
      var (v1, v2, f0, f1) := ReferenceFaces(tvRef, tnRef, posRef, face, tvInc, tnInc, posInc);
      m.Points.None? ==> (r.Points.Some? <==> FaceTouches(v1, v2, f0, f1, normalize))
  {
    var (v1, v2, f0, f1) := ReferenceFaces(tvRef, tnRef, posRef, face, tvInc, tnInc, posInc);
    FaceContactMeans(m, v1, v2, f0, f1, flip, normalize);
  }

  /**
   * PolygonVsPolygon leaves the points as they came in, or one or two points; and it finds
   * points of its own exactly when neither polygon has a face along which the other is at
   * least Epsilon out and the clipping against the reference face leaves points behind it.
   */
  lemma PolygonPolygonPoints(m: Contact, tvA: seq<Vector2>, tnA: seq<Vector2>, tvB: seq<Vector2>,
                             tnB: seq<Vector2>, posA: Vector2, posB: Vector2, normalize: Normalizer)
    requires |tvA| == |tnA| > 0 && |tvB| == |tnB| > 0
    ensures var r := PolygonPolygon(m, tvA, tnA, tvB, tnB, posA, posB, normalize);
      r.Points == m.Points || (r.Points.Some? && 1 <= |r.Points.value| <= 2)
    ensures var r := PolygonPolygon(m, tvA, tnA, tvB, tnB, posA, posB, normalize);
      var (penA, faceA) := SeparationAxis(tvA, tnA, tvB, posA, posB);
      var (penB, faceB) := SeparationAxis(tvB, tnB, tvA, posB, posA);
      var (v1, v2, f0, f1) := if penB > penA then ReferenceFaces(tvB, tnB, posB, faceB, tvA, tnA, posA)
                              else ReferenceFaces(tvA, tnA, posA, faceA, tvB, tnB, posB);
      m.Points.None? ==>
        (r.Points.Some? <==> penA < Epsilon && penB < Epsilon && FaceTouches(v1, v2, f0, f1, normalize))
  {
    var r := PolygonPolygon(m, tvA, tnA, tvB, tnB, posA, posB, normalize);
    var (penA, faceA) := SeparationAxis(tvA, tnA, tvB, posA, posB);
    var (penB, faceB) := SeparationAxis(tvB, tnB, tvA, posB, posA);
    if penA >= Epsilon || penB >= Epsilon {
      assert r == m;
    } else if penB > penA {
      assert r == ReferenceContact(m, tvB, tnB, posB, faceB, tvA, tnA, posA, true, normalize);
      ReferenceContactPoints(m, tvB, tnB, posB, faceB, tvA, tnA, posA, true, normalize);
    } else {
      assert r == ReferenceContact(m, tvA, tnA, posA, faceA, tvB, tnB, posB, false, normalize);
      ReferenceContactPoints(m, tvA, tnA, posA, faceA, tvB, tnB, posB, false, normalize);
    }
  }
}
