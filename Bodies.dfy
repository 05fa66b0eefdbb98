/**
 * Shapes (Shape.cs), materials (Material.cs) and rigid bodies (RigidBody.cs). They share one
 * module because a shape points back at its body and a body at its shape.
 *
 * The body's Transform (Transform.cs, not part of this model) is folded into the body as the
 * two fields Position and Orientation; a fresh Transform is taken to start at the origin with
 * orientation 0.
 */
module Bodies {
  import opened PhyMath
  import opened Vectors
  import opened Vector2Ext
  import opened Extrema
  import opened Aabb

  /** Density, restitution and the static and kinetic friction coefficients (`us`, `uk`). */
  datatype Material = Material(Density: real, Restitution: real, StaticFriction: real, KineticFriction: real)

  /** MathHelper.Pi as OpenTK stores it in a float. */
  const Pi: real := 3.1415927

  /** The shape of a body: IShape is either a Circle or a Polygon. */
  datatype Shape = CircleShape(circle: Circle) | PolygonShape(polygon: Polygon)
  {
    /** The shape object itself, whichever kind it is. */
    function Object(): object
    {
      match this
      case CircleShape(c) => c
      case PolygonShape(p) => p
    }

    /** The shape as a circle, if it is one, for frames. */
    ghost function Circles(): set<Circle>
    {
      if CircleShape? then {circle} else {}
    }

    /** The shape as a polygon, if it is one, for frames. */
    ghost function Polygons(): set<Polygon>
    {
      if PolygonShape? then {polygon} else {}
    }

    /** Everything the shape's box and cache are read from. */
    ghost function Footprint(): set<object>
      reads Object()
    {
      match this
      case CircleShape(c) => {c}
      case PolygonShape(p) => p.Repr()
    }
  }

  /** How CalculateMass derives InverseMass and InverseInertia: 1/x, with 0 standing for infinity. */
  function Reciprocal(x: real): (r: real)
    ensures r == 0.0 <==> x == 0.0
  {
    if x == 0.0 then 0.0 else 1.0 / x
  }

  /** Off zero, Reciprocal is the multiplicative inverse. */
  lemma ReciprocalInverse(x: real)
    requires x != 0.0
    ensures Reciprocal(x) * x == 1.0
  {
  }

  /** The mass of a disc: its area pi r^2 times the density. */
  function DiscMass(radius: real, density: real): real
  {
    Pi * (radius * radius) * density
  }

  /** The moment of inertia of a disc about its centre: m r^2 / 2. */
  function DiscInertia(radius: real, density: real): real
  {
    DiscMass(radius, density) * (radius * radius) / 2.0
  }

  lemma MulNonNegative(u: real, v: real)
    requires u >= 0.0 && v >= 0.0
    ensures u * v >= 0.0
  {
    if u > 0.0 && v > 0.0 {
      MulPositive(u, v);
    }
  }

  /** A disc of non-negative density has non-negative mass and inertia. */
  lemma DiscMassNonNegative(radius: real, density: real)
    requires density >= 0.0
    ensures DiscMass(radius, density) >= 0.0 && DiscInertia(radius, density) >= 0.0
  {
    var sq := radius * radius;
    SquareNonNegative(radius);
    MulNonNegative(Pi, sq);
    var ps := Pi * sq;
    MulNonNegative(ps, density);
    var m := ps * density;
    MulNonNegative(m, sq);
  }

  class Circle {
    var Radius: real
    var Body: RigidBody?

    constructor (r: real)
      ensures Radius == r && Body == null
    {
      Radius := r;
      Body := null;
    }

    /** The body this shape belongs to, if any, as a frame. */
    ghost function Owner(): set<RigidBody>
      reads this
    {
      if Body == null then {} else {Body}
    }

    /** Circle.CalculateMass: the mass and inertia of a disc of this radius, and their reciprocals. */
    method CalculateMass(density: real)
      modifies Owner()`Mass, Owner()`Inertia, Owner()`InverseMass, Owner()`InverseInertia
      ensures Body != null ==> Body.HasMass(DiscMass(Radius, density), DiscInertia(Radius, density))
    {
      if Body == null {
        return;
      }
      var radiusSquare := Radius * Radius;
      var mass := Pi * radiusSquare * density;
      Body.SetMass(mass, mass * radiusSquare / 2.0);
    }

    /** Circle.SetOrientation: a circle looks the same at every angle, so nothing is cached. */
    method SetOrientation(rad: real)
      ensures unchanged(this)
    {
    }

    /** Circle.GetAABB: the box of half-width Radius around the centre. */
    function GetAABB(): (box: AABB)
      reads this
      ensures box.Left == box.Top == -Radius && box.Right == box.Bottom == Radius
    {
      AABB(-Radius, -Radius, Radius, Radius)
    }
  }

  /** Every vertex rotated by the same angle: what the orientation cache holds. */
  function Rotated(vs: seq<Vector2>, rotate: Rotation, rad: real): (r: seq<Vector2>)
    ensures |r| == |vs| && forall i :: 0 <= i < |vs| ==> r[i] == rotate(vs[i], rad)
  {
    seq(|vs|, i requires 0 <= i < |vs| => rotate(vs[i], rad))
  }

  /** The vertex after i around a closed loop of n vertices. */
  function Succ(i: nat, n: nat): (j: nat)
    requires i < n
    ensures j < n
  {
    if i + 1 == n then 0 else i + 1
  }

  /** Succ is the source's `(i + 1) % count`. */
  lemma SuccIsModulo(i: nat, n: nat)
    requires i < n
    ensures Succ(i, n) == (i + 1) % n
  {
  }

  /** The cross product D of vertex i with its successor: twice the signed area of that fan triangle. */
  function FanCross(vs: seq<Vector2>, i: nat): real
    requires i < |vs|
  {
    Cross(vs[i], vs[Succ(i, |vs|)])
  }

  /** The `area` accumulator of Polygon.CalculateMass after the first i fan triangles. */
  function AreaUpTo(vs: seq<Vector2>, i: nat): real
    requires i <= |vs|
  {
    if i == 0 then 0.0 else AreaUpTo(vs, i - 1) + 0.5 * FanCross(vs, i - 1)
  }

  /** The `com` accumulator: each fan triangle's area times the sum of its two outer corners, over 3. */
  function MomentUpTo(vs: seq<Vector2>, i: nat): Vector2
    requires i <= |vs|
  {
    if i == 0 then Zero
    else
      var a, b := vs[i - 1], vs[Succ(i - 1, |vs|)];
      Add(MomentUpTo(vs, i - 1), Scale(Scale(Add(a, b), 0.5 * FanCross(vs, i - 1)), 1.0 / 3.0))
  }

  /** The `inerial` accumulator: D times the second-moment terms of each fan triangle. */
  function InertiaUpTo(vs: seq<Vector2>, i: nat): real
    requires i <= |vs|
  {
    if i == 0 then 0.0
    else
      var a, b := vs[i - 1], vs[Succ(i - 1, |vs|)];
      var intx2 := a.X * a.X + b.X * a.X + b.X * b.X;
      var inty2 := a.Y * a.Y + b.Y * a.Y + b.Y * b.Y;
      InertiaUpTo(vs, i - 1) + FanCross(vs, i - 1) * (intx2 + inty2)
  }

  /** The first loop of Polygon.CalculateMass: area, area-weighted centre and inertia sums. */
  method FanSums(vs: seq<Vector2>) returns (area: real, inerial: real, com: Vector2)
    ensures area == AreaUpTo(vs, |vs|)
    ensures inerial == InertiaUpTo(vs, |vs|)
    ensures com == MomentUpTo(vs, |vs|)
  {
    var count := |vs|;
    area, inerial, com := 0.0, 0.0, Zero;
    for i := 0 to count
      invariant area == AreaUpTo(vs, i)
      invariant inerial == InertiaUpTo(vs, i)
      invariant com == MomentUpTo(vs, i)
    {
      var triangleArea, di, dc := FanTriangle(vs, i);
      area := area + triangleArea;
      com := Add(com, dc);
      inerial := inerial + di;
    }
  }

  /** The body of that loop for fan triangle i: its area, and its terms of the inertia and centre sums. */
  method FanTriangle(vs: seq<Vector2>, i: nat) returns (triangleArea: real, di: real, dc: Vector2)
    requires i < |vs|
    ensures triangleArea == AreaUpTo(vs, i + 1) - AreaUpTo(vs, i)
    ensures di == InertiaUpTo(vs, i + 1) - InertiaUpTo(vs, i)
    ensures Add(MomentUpTo(vs, i), dc) == MomentUpTo(vs, i + 1)
  {
    var a := vs[i];
    var b := vs[Succ(i, |vs|)];
    var D := Cross(a, b);
    triangleArea := 0.5 * D;
    dc := Scale(Scale(Add(a, b), triangleArea), 1.0 / 3.0);
    var intx2 := a.X * a.X + b.X * a.X + b.X * b.X;
    var inty2 := a.Y * a.Y + b.Y * a.Y + b.Y * b.Y;
    di := D * (intx2 + inty2);
  }

  /**
   * The centroid `com / area`. For a polygon of zero area the source divides by zero and
   * fills the vertices with NaN; here that case yields the origin and the vertices stay put.
   */
  function Centroid(vs: seq<Vector2>): Vector2
  {
    Divide(MomentUpTo(vs, |vs|), AreaUpTo(vs, |vs|))
  }

  /** `com /= area`, with the zero vector standing in for the NaN of a zero area. */
  function Divide(v: Vector2, k: real): Vector2
  {
    if k == 0.0 then Zero else Scale(v, 1.0 / k)
  }

  /** Every vertex moved by -com, so that the centroid sits at the body's position. */
  function Shifted(vs: seq<Vector2>, com: Vector2): (r: seq<Vector2>)
    ensures |r| == |vs| && forall i :: 0 <= i < |vs| ==> r[i] == Sub(vs[i], com)
  {
    seq(|vs|, i requires 0 <= i < |vs| => Sub(vs[i], com))
  }

  /** The mass of a polygon: its signed area times the density. */
  function PolygonMass(vs: seq<Vector2>, density: real): real
  {
    AreaMass(AreaUpTo(vs, |vs|), density)
  }

  /** Mass from area: `area * density`. */
  function AreaMass(area: real, density: real): real
  {
    area * density
  }

  /** Moment of inertia from the fan sum: `inerial * density / 12`. */
  function InertiaMoment(sum: real, density: real): real
  {
    sum * density / 12.0
  }

  /** The moment of inertia of a polygon about the origin, from its fan triangles. */
  function PolygonInertia(vs: seq<Vector2>, density: real): real
  {
    InertiaMoment(InertiaUpTo(vs, |vs|), density)
  }

  /** The corners Polygon(left, top, right, bottom) hands to Polygon.Set, clockwise from top-left. */
  function Corners(left: real, top: real, right: real, bottom: real): seq<Vector2>
  {
    [Vector2(left, top), Vector2(right, top), Vector2(right, bottom), Vector2(left, bottom)]
  }

  /** The first loop of Polygon.Set: greatest X, ties broken toward the smaller Y, first such index. */
  function RightMost(vs: seq<Vector2>): (k: nat)
    requires |vs| > 0
    ensures k < |vs|
    ensures forall i :: 0 <= i < |vs| ==> vs[i].X <= vs[k].X
    ensures forall i :: 0 <= i < |vs| && vs[i].X == vs[k].X ==> vs[k].Y <= vs[i].Y
    ensures forall i :: 0 <= i < k ==> vs[i].X < vs[k].X || vs[k].Y < vs[i].Y
  {
    if |vs| == 1 then 0
    else
      var k := RightMost(vs[..|vs| - 1]);
      var v := vs[|vs| - 1];
      if v.X > vs[k].X || (v.X == vs[k].X && v.Y < vs[k].Y) then |vs| - 1 else k
  }

  /**
   * The gift-wrapping test: seen from vertex `last`, vertex i turns clockwise from the current
   * candidate (negative cross product), or is collinear with it and farther away.
   */
  predicate Beats(vs: seq<Vector2>, last: nat, next: nat, i: nat)
    requires last < |vs| && next < |vs| && i < |vs|
  {
    var e1 := Sub(vs[next], vs[last]);
    var e2 := Sub(vs[i], vs[last]);
    var c := Cross(e1, e2);
    c < 0.0 || (c == 0.0 && LengthSquared(e2) > LengthSquared(e1))
  }

  /** The candidate of the inner hull loop once it has looked at indices 1 .. i-1. */
  function NextHullUpTo(vs: seq<Vector2>, last: nat, i: nat): (k: nat)
    requires last < |vs| && 1 <= i <= |vs|
    ensures k < i
  {
    if i == 1 then 0
    else
      var next := NextHullUpTo(vs, last, i - 1);
      if next == last then i - 1
      else if Beats(vs, last, next, i - 1) then i - 1
      else next
  }

  /** The hull vertex that follows `last`. */
  function NextHull(vs: seq<Vector2>, last: nat): nat
    requires last < |vs|
  {
    NextHullUpTo(vs, last, |vs|)
  }

  /** A vertex never beats the current candidate by being `last` itself. */
  lemma LastNeverBeats(vs: seq<Vector2>, last: nat, next: nat)
    requires last < |vs| && next < |vs|
    ensures !Beats(vs, last, next, last)
  {
    var e1 := Sub(vs[next], vs[last]);
    assert Sub(vs[last], vs[last]) == Zero;
    assert Cross(e1, Zero) == 0.0;
  }

  /** With two or more vertices, the wrap always moves on to a different vertex. */
  lemma {:induction false} NextHullUpToMoves(vs: seq<Vector2>, last: nat, i: nat)
    requires last < |vs| && 2 <= i <= |vs|
    ensures NextHullUpTo(vs, last, i) != last
  {
    var next := NextHullUpTo(vs, last, i - 1);
    if i > 2 {
      NextHullUpToMoves(vs, last, i - 1);
    }
    if next != last && i - 1 == last {
      LastNeverBeats(vs, last, next);
    }
  }

  lemma NextHullMoves(vs: seq<Vector2>, last: nat)
    requires last < |vs| && |vs| >= 2
    ensures NextHull(vs, last) != last && NextHull(vs, last) < |vs|
  {
    NextHullUpToMoves(vs, last, |vs|);
  }

  /** A table of successor indices: every entry points back into the table. */
  ghost predicate IsTable(steps: seq<nat>)
  {
    forall i :: 0 <= i < |steps| ==> steps[i] < |steps|
  }

  /** `steps` holds NextHull of every vertex. */
  ghost predicate Tabulates(vs: seq<Vector2>, steps: seq<nat>)
  {
    |steps| == |vs| && IsTable(steps)
    && forall i {:trigger NextHull(vs, i)} :: 0 <= i < |vs| ==> steps[i] == NextHull(vs, i)
  }

  /** The successor table of the wrap: NextHull for every vertex. */
  ghost function NextTable(vs: seq<Vector2>): (r: seq<nat>)
    ensures Tabulates(vs, r)
  {
    seq(|vs|, i requires 0 <= i < |vs| => NextHull(vs, i))
  }

  /** The index reached after k steps through the table `steps` from `start`. */
  ghost function Walk(steps: seq<nat>, start: nat, k: nat): (r: nat)
    requires start < |steps| && IsTable(steps)
    ensures r < |steps|
  {
    if k == 0 then start else steps[Walk(steps, start, k - 1)]
  }

  /** The walk from `start` does not come back to `start` at any of the steps 1 .. n-1. */
  ghost predicate StaysAway(steps: seq<nat>, start: nat, n: nat)
    requires start < |steps| && IsTable(steps)
  {
    n <= 1 || (StaysAway(steps, start, n - 1) && Walk(steps, start, n - 1) != start)
  }

  lemma {:induction false} StaysAwayMeans(steps: seq<nat>, start: nat, n: nat, k: nat)
    requires start < |steps| && IsTable(steps) && StaysAway(steps, start, n) && 0 < k < n
    ensures Walk(steps, start, k) != start
  {
    if k < n - 1 {
      StaysAwayMeans(steps, start, n - 1, k);
    }
  }

  /** The walk from `start` comes back to `start` after exactly n steps, and not before. */
  ghost predicate ReturnsAfter(steps: seq<nat>, start: nat, n: nat)
    requires start < |steps| && IsTable(steps)
  {
    n >= 1 && Walk(steps, start, n) == start && forall k :: 0 < k < n ==> Walk(steps, start, k) != start
  }

  /** The walk from `start` comes back to it within m steps. */
  ghost predicate ReturnsWithin(steps: seq<nat>, start: nat, m: nat)
    requires start < |steps| && IsTable(steps)
  {
    exists n :: 1 <= n <= m && ReturnsAfter(steps, start, n)
  }

  /**
   * Polygon.Set succeeds: there is a vertex, and the wrap from the rightmost one, moving by
   * the successor table `steps`, closes before the hull buffer of |vs| entries overflows.
   */
  ghost predicate HullCloses(vs: seq<Vector2>, steps: seq<nat>)
    requires Tabulates(vs, steps)
  {
    |vs| > 0 && ReturnsWithin(steps, RightMost(vs), |vs|)
  }

  /** The successor table is determined by the vertices: it can only be NextTable. */
  lemma TableUnique(vs: seq<Vector2>, steps: seq<nat>)
    requires Tabulates(vs, steps)
    ensures steps == NextTable(vs)
  {
    var table := NextTable(vs);
    forall i | 0 <= i < |vs|
      ensures steps[i] == table[i]
    {
      assert steps[i] == NextHull(vs, i);
    }
  }

  /** Polygon.Set's edge normal: the direction of the edge a -> b, normalised, turned by -90 degrees. */
  function EdgeNormal(a: Vector2, b: Vector2, normalize: Normalizer): Vector2
  {
    var dv := normalize(Sub(b, a));
    Vector2(dv.Y, -dv.X)
  }

  /** Each edge normal is perpendicular to its edge. */
  lemma EdgeNormalPerpendicular(a: Vector2, b: Vector2, normalize: Normalizer, sqrt: real -> real)
    requires IsNormalizer(normalize, sqrt)
    ensures Dot(EdgeNormal(a, b, normalize), Sub(b, a)) == 0.0
  {
    var d := Sub(b, a);
    var k := NormalizeFactor(d, sqrt);
    assert normalize(d) == Scale(d, k);
    PerpendicularOfScaled(d, k);
  }

  lemma PerpendicularOfScaled(d: Vector2, k: real)
    ensures Dot(Vector2(d.Y * k, -(d.X * k)), d) == 0.0
  {
  }

  /** The edge normals of a closed vertex loop. */
  function EdgeNormals(vs: seq<Vector2>, normalize: Normalizer): (r: seq<Vector2>)
    ensures |r| == |vs|
    ensures forall i :: 0 <= i < |vs| ==> r[i] == EdgeNormal(vs[i], vs[Succ(i, |vs|)], normalize)
  {
    seq(|vs|, i requires 0 <= i < |vs| => EdgeNormal(vs[i], vs[Succ(i, |vs|)], normalize))
  }

  class Polygon {
    var Vertices: array<Vector2>
    var Normals: array<Vector2>
    var TransVertices: seq<Vector2>
    var TransNormals: seq<Vector2>
    var TransAABB: AABB
    var LastOrientation: real
    var Body: RigidBody?

    /** The body this shape belongs to, if any, as a frame. */
    ghost function Owner(): set<RigidBody>
      reads this
    {
      if Body == null then {} else {Body}
    }

    /** Two distinct arrays and two cached sequences, all of one common, positive length. */
    ghost predicate Valid()
      reads this`Vertices, this`Normals, this`TransVertices, this`TransNormals
    {
      && Vertices.Length >= 1
      && Normals.Length == Vertices.Length
      && |TransVertices| == Vertices.Length
      && |TransNormals| == Vertices.Length
      && Vertices != Normals
    }

    ghost function Repr(): set<object>
      reads this
    {
      {this, Vertices, Normals}
    }

    /**
     * The orientation cache is up to date: the transformed vertices and normals and their
     * box are what the vertices and normals look like at LastOrientation.
     */
    ghost predicate CacheValid(rotate: Rotation)
      reads this, Vertices, Normals
      requires Valid()
    {
      && TransVertices == Rotated(Vertices[..], rotate, LastOrientation)
      && TransNormals == Rotated(Normals[..], rotate, LastOrientation)
      && TransAABB == Bounds(TransVertices)
    }

    /** Polygon(Vector2[] vertices). */
    constructor FromVertices(vertices: seq<Vector2>, normalize: Normalizer, rotate: Rotation, ghost steps: seq<nat>)
      requires Tabulates(vertices, steps) && HullCloses(vertices, steps)
      ensures Valid() && fresh(Vertices) && fresh(Normals) && Body == null
      ensures Vertices.Length <= |vertices| && ReturnsAfter(steps, RightMost(vertices), Vertices.Length)
      ensures forall k :: 0 <= k < Vertices.Length ==> Vertices[k] == vertices[Walk(steps, RightMost(vertices), k)]
      ensures Normals[..] == EdgeNormals(Vertices[..], normalize)
      ensures LastOrientation == 0.0 && CacheValid(rotate)
    {
      Vertices, Normals, TransVertices, TransNormals := new Vector2[0], new Vector2[0], [], [];
      TransAABB := AABB(0.0, 0.0, 0.0, 0.0);
      LastOrientation := 0.0;
      Body := null;
      new;
      var ok := Set(vertices, normalize, rotate, steps);
    }

    /** Polygon(left, top, right, bottom): the box with these four corners. */
    constructor Box(left: real, top: real, right: real, bottom: real, normalize: Normalizer, rotate: Rotation,
                    ghost steps: seq<nat>)
      requires Tabulates(Corners(left, top, right, bottom), steps) && HullCloses(Corners(left, top, right, bottom), steps)
      ensures Valid() && fresh(Vertices) && fresh(Normals) && Body == null
      ensures Vertices.Length <= 4 && ReturnsAfter(steps, RightMost(Corners(left, top, right, bottom)), Vertices.Length)
      ensures forall k :: 0 <= k < Vertices.Length ==>
        Vertices[k] == Corners(left, top, right, bottom)[Walk(steps, RightMost(Corners(left, top, right, bottom)), k)]
      ensures LastOrientation == 0.0 && CacheValid(rotate)
    {
      Vertices, Normals, TransVertices, TransNormals := new Vector2[0], new Vector2[0], [], [];
      TransAABB := AABB(0.0, 0.0, 0.0, 0.0);
      LastOrientation := 0.0;
      Body := null;
      new;
      var ok := Set(Corners(left, top, right, bottom), normalize, rotate, steps);
    }

    /** The first loop of Polygon.Set. */
    static method FindRightMost(vertices: seq<Vector2>) returns (rightMost: nat)
      requires |vertices| > 0
      ensures rightMost == RightMost(vertices)
    {
      rightMost := 0;
      var highestXCoord := vertices[0].X;
      for i := 1 to |vertices|
        invariant rightMost == RightMost(vertices[..i])
        invariant highestXCoord == vertices[rightMost].X
      {
        assert vertices[..i + 1][..i] == vertices[..i];
        var v := vertices[i];
        if v.X > highestXCoord || (v.X == highestXCoord && v.Y < vertices[rightMost].Y) {
          highestXCoord := v.X;
          rightMost := i;
        }
      }
      assert vertices[..|vertices|] == vertices;
    }

    /** The inner loop of Polygon.Set: the hull vertex after `indexHull`. */
    static method FindNextHullIndex(vertices: seq<Vector2>, indexHull: nat) returns (nextHullIndex: nat)
      requires indexHull < |vertices|
      ensures nextHullIndex == NextHull(vertices, indexHull)
      ensures |vertices| >= 2 ==> nextHullIndex != indexHull
    {
      nextHullIndex := 0;
      var lastIndex := indexHull;
      for i := 1 to |vertices|
        invariant nextHullIndex == NextHullUpTo(vertices, indexHull, i)
      {
        if nextHullIndex == indexHull {
          nextHullIndex := i;
          continue;
        }
        var e1 := Sub(vertices[nextHullIndex], vertices[lastIndex]);
        var e2 := Sub(vertices[i], vertices[lastIndex]);
        var c := Cross(e1, e2);
        if c < 0.0 || (c == 0.0 && LengthSquared(e2) > LengthSquared(e1)) {
          nextHullIndex := i;
        }
      }
      if |vertices| >= 2 {
        NextHullMoves(vertices, indexHull);
      }
    }

    /**
     * The hull loop of Polygon.Set: starting at the rightmost vertex, follow NextHull until it
     * returns to the start, recording each index in a buffer of |vertices| entries. closes is
     * false where the source throws: an empty vertex array, or a full buffer before the wrap
     * has come back.
     */
    static method GiftWrap(vertices: seq<Vector2>, ghost steps: seq<nat>) returns (closes: bool, hull: seq<nat>)
      requires Tabulates(vertices, steps)
      ensures closes ==> HullCloses(vertices, steps)
      ensures !closes ==> !HullCloses(vertices, steps)
      ensures closes ==> 1 <= |hull| <= |vertices| && ReturnsAfter(steps, RightMost(vertices), |hull|)
      ensures closes ==> forall k :: 0 <= k < |hull| ==> hull[k] == Walk(steps, RightMost(vertices), k)
    {
      if |vertices| == 0 {
        return false, [];
      }
      var rightMost := FindRightMost(vertices);
      closes, hull := WrapFrom(vertices, rightMost, steps);
    }

    /**
     * The `while (true)` loop of Polygon.Set, from the vertex `start`; `steps` stands for
     * the inner loop's results, so that the walk is reasoned about apart from the geometry.
     */
    static method WrapFrom(vertices: seq<Vector2>, start: nat, ghost steps: seq<nat>) returns (closes: bool, hull: seq<nat>)
      requires start < |vertices| && Tabulates(vertices, steps)
      ensures closes ==> ReturnsWithin(steps, start, |vertices|)
      ensures !closes ==> !ReturnsWithin(steps, start, |vertices|)
      ensures closes ==> 1 <= |hull| <= |vertices| && ReturnsAfter(steps, start, |hull|)
      ensures closes ==> forall k :: 0 <= k < |hull| ==> hull[k] == Walk(steps, start, k)
    {
      var count := |vertices|;
      var buffer := new nat[count];
      var outCount := 0;
      var indexHull := start;
      while true
        invariant 0 <= outCount <= count
        invariant forall k :: 0 <= k < outCount ==> buffer[k] == Walk(steps, start, k)
        invariant indexHull == Walk(steps, start, outCount)
        invariant StaysAway(steps, start, outCount)
        invariant outCount > 0 ==> indexHull != start
        decreases count - outCount
      {
        if outCount == count {
          NoReturn(steps, start, count);
          return false, [];
        }
        buffer[outCount] := indexHull;
        var nextHullIndex := Successor(vertices, steps, buffer[outCount]);
        outCount := outCount + 1;
        indexHull := nextHullIndex;
        if nextHullIndex == start {
          break;
        }
      }
      hull := buffer[..outCount];
      Returned(steps, start, outCount);
      closes := true;
    }

    /** The inner loop of the wrap, read through the successor table. */
    static method Successor(vertices: seq<Vector2>, ghost steps: seq<nat>, indexHull: nat) returns (next: nat)
      requires indexHull < |vertices| && Tabulates(vertices, steps)
      ensures next == steps[indexHull]
    {
      next := FindNextHullIndex(vertices, indexHull);
    }

    /** What the hull loop has built once the walk is back at its start. */
    static lemma Returned(steps: seq<nat>, start: nat, n: nat)
      requires start < |steps| && IsTable(steps) && 1 <= n <= |steps|
      requires Walk(steps, start, n) == start
      requires StaysAway(steps, start, n)
      ensures ReturnsAfter(steps, start, n) && ReturnsWithin(steps, start, |steps|)
    {
      forall k | 0 < k < n
        ensures Walk(steps, start, k) != start
      {
        StaysAwayMeans(steps, start, n, k);
      }
      assert ReturnsAfter(steps, start, n);
    }

    /** A walk that has not come back after n = |steps| steps does not come back within n. */
    static lemma NoReturn(steps: seq<nat>, start: nat, n: nat)
      requires start < |steps| && IsTable(steps) && n == |steps|
      requires StaysAway(steps, start, n)
      requires Walk(steps, start, n) != start
      ensures !ReturnsWithin(steps, start, n)
    {
      if m :| 1 <= m <= n && ReturnsAfter(steps, start, m) {
        if m < n {
          StaysAwayMeans(steps, start, n, m);
        }
      }
    }

    /**
     * The two copy loops of Polygon.Set: the hull vertices in wrap order, and for each edge
     * the outward normal. The transformed copies start out equal to them.
     */
    static method HullArrays(vertices: seq<Vector2>, hull: seq<nat>, normalize: Normalizer)
      returns (vs: array<Vector2>, ns: array<Vector2>, tvs: seq<Vector2>, tns: seq<Vector2>)
      requires |hull| >= 1 && forall k :: 0 <= k < |hull| ==> hull[k] < |vertices|
      ensures fresh(vs) && fresh(ns) && vs != ns
      ensures vs.Length == ns.Length == |tvs| == |tns| == |hull|
      ensures forall k :: 0 <= k < |hull| ==> vs[k] == vertices[hull[k]]
      ensures ns[..] == EdgeNormals(vs[..], normalize)
    {
      var outCount := |hull|;
      vs := new Vector2[outCount];
      ns := new Vector2[outCount];
      tvs := seq(outCount, _ => Zero);
      tns := seq(outCount, _ => Zero);
      for i := 0 to outCount
        invariant |tvs| == outCount
        invariant forall k :: 0 <= k < i ==> vs[k] == vertices[hull[k]]
      {
        tvs := tvs[i := vertices[hull[i]]];
        vs[i] := vertices[hull[i]];
      }
      for i := 0 to outCount
        invariant |tns| == outCount
        invariant forall k :: 0 <= k < outCount ==> vs[k] == vertices[hull[k]]
        invariant forall k :: 0 <= k < i ==> ns[k] == EdgeNormal(vs[k], vs[Succ(k, outCount)], normalize)
      {
        var dv := normalize(Sub(vs[Succ(i, outCount)], vs[i]));
        ns[i] := Vector2(dv.Y, -dv.X);
        tns := tns[i := Vector2(dv.Y, -dv.X)];
      }
    }

    /**
     * Polygon.Set: gift-wrap the convex hull, store its vertices and edge normals in fresh
     * arrays and refresh the orientation cache for angle 0. ok is false where the source
     * throws, and nothing is changed then.
     */
    method Set(vertices: seq<Vector2>, normalize: Normalizer, rotate: Rotation, ghost steps: seq<nat>) returns (ok: bool)
      requires Tabulates(vertices, steps)
      modifies this
      ensures ok == HullCloses(vertices, steps)
      ensures !ok ==> unchanged(this)
      ensures ok ==> Valid() && fresh(Vertices) && fresh(Normals) && Body == old(Body)
      ensures ok ==> Vertices.Length <= |vertices| && ReturnsAfter(steps, RightMost(vertices), Vertices.Length)
      ensures ok ==> forall k :: 0 <= k < Vertices.Length ==> Vertices[k] == vertices[Walk(steps, RightMost(vertices), k)]
      ensures ok ==> Normals[..] == EdgeNormals(Vertices[..], normalize)
      ensures ok ==> LastOrientation == 0.0 && CacheValid(rotate)
    {
      var hull;
      ok, hull := GiftWrap(vertices, steps);
      if !ok {
        return;
      }
      SetHull(vertices, hull, normalize);
      SetOrientation(0.0, rotate);
    }

    /** Polygon.Set after the wrap: the arrays of the hull `hull`, and the cache marked stale. */
    method SetHull(vertices: seq<Vector2>, hull: seq<nat>, normalize: Normalizer)
      requires |hull| >= 1 && forall k :: 0 <= k < |hull| ==> hull[k] < |vertices|
      modifies this
      ensures Valid() && fresh(Vertices) && fresh(Normals) && Body == old(Body)
      ensures Vertices.Length == |hull| && forall k :: 0 <= k < |hull| ==> Vertices[k] == vertices[hull[k]]
      ensures Normals[..] == EdgeNormals(Vertices[..], normalize)
      ensures LastOrientation == -1.0
    {
      Vertices, Normals, TransVertices, TransNormals := HullArrays(vertices, hull, normalize);
      LastOrientation := -1.0;
    }

    /** Polygon.GetSupport: the transformed vertex farthest along `dir`, the first one on ties. */
    method GetSupport(dir: Vector2) returns (support: Vector2)
      requires Valid()
      ensures support == TransVertices[ArgMax(Dots(dir, TransVertices))]
      ensures forall i :: 0 <= i < |TransVertices| ==> Dot(dir, TransVertices[i]) <= Dot(dir, support)
    {
      var ds := Dots(dir, TransVertices);
      var d := Dot(dir, TransVertices[0]);
      var j := 0;
      for i := 1 to Vertices.Length
        invariant j == ArgMax(ds[..i]) && d == ds[j]
      {
        ArgMaxStep(ds, i);
        var dot := Dot(dir, TransVertices[i]);
        if dot > d {
          d := dot;
          j := i;
        }
      }
      assert ds[..Vertices.Length] == ds;
      support := TransVertices[j];
    }

    /**
     * The rotation loop of Polygon.SetOrientation: rotate every vertex and normal by `rad`,
     * track the least and greatest coordinates, and store the box and the new cache key.
     */
    method Recompute(rad: real, rotate: Rotation)
      requires Valid()
      modifies this`LastOrientation, this`TransAABB, this`TransVertices, this`TransNormals
      ensures Valid() && LastOrientation == rad && CacheValid(rotate)
    {
      var box := Rotate(rad, rotate);
      LastOrientation := rad;
      TransAABB := box;
    }

    /** The loop itself: every vertex and normal rotated by `rad`, and the box of the rotated vertices. */
    method Rotate(rad: real, rotate: Rotation) returns (box: AABB)
      requires Valid()
      modifies this`TransVertices, this`TransNormals
      ensures Valid() && box == Bounds(TransVertices)
      ensures TransVertices == Rotated(Vertices[..], rotate, rad) && TransNormals == Rotated(Normals[..], rotate, rad)
    {
      var n := Vertices.Length;
      var l, t, r, b := 0.0, 0.0, 0.0, 0.0;
      for i := 0 to n
        invariant Valid()
        invariant forall k :: 0 <= k < i ==> TransVertices[k] == rotate(Vertices[k], rad)
        invariant forall k :: 0 <= k < i ==> TransNormals[k] == rotate(Normals[k], rad)
        invariant i > 0 ==> AABB(l, t, r, b) == RunningBounds(TransVertices[..i])
      {
        ghost var done := TransVertices[..i];
        TransVertices := TransVertices[i := rotate(Vertices[i], rad)];
        TransNormals := TransNormals[i := rotate(Normals[i], rad)];
        var v := TransVertices[i];
        assert TransVertices[..i + 1][..i] == done;
        l, t, r, b := Widen(l, t, r, b, v, i == 0);
      }
      assert TransVertices[..n] == TransVertices;
      RunningBoundsIsBounds(TransVertices);
      box := AABB(l, t, r, b);
    }

    /**
     * The four comparisons of the rotation loop. The source starts them from the finite
     * sentinels float.MaxValue and float.MinValue; the first flag lets the first vertex win
     * instead, which differs only for a coordinate beyond the range of a float.
     */
    static method Widen(l: real, t: real, r: real, b: real, v: Vector2, first: bool)
      returns (l': real, t': real, r': real, b': real)
      ensures AABB(l', t', r', b') == if first then AABB(v.X, v.Y, v.X, v.Y) else Extend(AABB(l, t, r, b), v)
    {
      l', t', r', b' := l, t, r, b;
      if first || v.X < l {
        l' := v.X;
      }
      if first || v.Y < t {
        t' := v.Y;
      }
      if first || v.X > r {
        r' := v.X;
      }
      if first || v.Y > b {
        b' := v.Y;
      }
    }

    /** Polygon.SetOrientation: recompute the cache unless it already holds this angle. */
    method SetOrientation(rad: real, rotate: Rotation)
      requires Valid()
      modifies this`LastOrientation, this`TransAABB, this`TransVertices, this`TransNormals
      ensures Valid() && LastOrientation == rad
      ensures old(LastOrientation) == rad ==>
        TransVertices == old(TransVertices) && TransNormals == old(TransNormals) && TransAABB == old(TransAABB)
      ensures old(LastOrientation) != rad ==> CacheValid(rotate)
      ensures old(CacheValid(rotate)) ==> CacheValid(rotate)
    {
      if rad == LastOrientation {
        return;
      }
      Recompute(rad, rotate);
    }

    /**
     * Polygon.CalculateMass as the source writes it: the fan-triangle sums for area, centre of
     * mass and inertia, then every vertex moved so that the centre of mass is the origin.
     * The orientation cache is left as it was, so it goes on describing the unshifted vertices.
     */
    method CalculateMassAsWritten(density: real)
      requires Valid()
      modifies Owner()`Mass, Owner()`Inertia, Owner()`InverseMass, Owner()`InverseInertia, Vertices
      ensures Valid()
      ensures Body == null ==> unchanged(Vertices)
      ensures Body != null ==> Vertices[..] == Shifted(old(Vertices[..]), Centroid(old(Vertices[..])))
      ensures Body != null ==> Body.HasMass(PolygonMass(old(Vertices[..]), density), PolygonInertia(old(Vertices[..]), density))
      ensures TransVertices == old(TransVertices) && TransNormals == old(TransNormals) && TransAABB == old(TransAABB)
    {
      if Body == null {
        return;
      }
      ghost var vs := Vertices[..];
      var area, inerial, com := FanSums(Vertices[..]);
      assert area == AreaUpTo(vs, |vs|) && inerial == InertiaUpTo(vs, |vs|);
      com := Divide(com, area);
      assert com == Centroid(vs);
      ShiftVertices(com);
      Body.SetMass(AreaMass(area, density), InertiaMoment(inerial, density));
    }

    /**
     * Polygon.CalculateMass as evidently intended: as CalculateMassAsWritten, and then the
     * orientation cache is recomputed for the shifted vertices at the cached angle.
     */
    method CalculateMass(density: real, rotate: Rotation)
      requires Valid()
      modifies Owner()`Mass, Owner()`Inertia, Owner()`InverseMass, Owner()`InverseInertia, Vertices, this`TransVertices, this`TransNormals, this`TransAABB, this`LastOrientation
      ensures Valid() && LastOrientation == old(LastOrientation)
      ensures Body == null ==>
        unchanged(Vertices) && TransVertices == old(TransVertices) && TransNormals == old(TransNormals) && TransAABB == old(TransAABB)
      ensures Body != null ==> Vertices[..] == Shifted(old(Vertices[..]), Centroid(old(Vertices[..])))
      ensures Body != null ==> Body.HasMass(PolygonMass(old(Vertices[..]), density), PolygonInertia(old(Vertices[..]), density))
      ensures Body != null || old(CacheValid(rotate)) ==> CacheValid(rotate)
    {
      if Body == null {
        return;
      }
      CalculateMassAsWritten(density);
      Recompute(LastOrientation, rotate);
    }

    /** The second loop of Polygon.CalculateMass: every vertex moved by -com. */
    method ShiftVertices(com: Vector2)
      requires Valid()
      modifies Vertices
      ensures Vertices[..] == Shifted(old(Vertices[..]), com)
    {
      for i := 0 to Vertices.Length
        invariant Vertices[..i] == Shifted(old(Vertices[..i]), com)
        invariant Vertices[i..] == old(Vertices[i..])
      {
        Vertices[i] := Sub(Vertices[i], com);
        assert Vertices[..i + 1] == Vertices[..i] + [Vertices[i]];
      }
    }

    /**
     * Polygon.GetAABB: the cached box. While the cache is up to date, it is the least box
     * containing every transformed vertex.
     */
    function GetAABB(): (box: AABB)
      reads this, Vertices, Normals
      ensures Valid() && (exists rotate :: CacheValid(rotate)) ==>
        && (forall i :: 0 <= i < |TransVertices| ==> Contains(box, TransVertices[i]))
        && box == Bounds(TransVertices)
    {
      BoundsContainAll(TransVertices);
      TransAABB
    }
  }

  lemma BoundsContainAll(vs: seq<Vector2>)
    ensures |vs| > 0 ==> forall i :: 0 <= i < |vs| ==> Contains(Bounds(vs), vs[i])
  {
    forall i | 0 <= i < |vs|
      ensures Contains(Bounds(vs), vs[i])
    {
      BoundsContain(vs, i);
    }
  }

  /** The square with corners (0, 0) and (2, 2): a polygon whose centroid is not the origin. */
  const OffCentreSquare: seq<Vector2> := [Vector2(0.0, 0.0), Vector2(2.0, 0.0), Vector2(2.0, 2.0), Vector2(0.0, 2.0)]

  /** The square's area is 4 and its fan-triangle moment (4, 4), so its centroid is (1, 1). */
  lemma OffCentreSquareCentroid()
    ensures Centroid(OffCentreSquare) == Vector2(1.0, 1.0)
  {
    var vs := OffCentreSquare;
    assert vs[0] == Vector2(0.0, 0.0) && vs[1] == Vector2(2.0, 0.0) && vs[2] == Vector2(2.0, 2.0) && vs[3] == Vector2(0.0, 2.0);
    assert Succ(0, 4) == 1 && Succ(1, 4) == 2 && Succ(2, 4) == 3 && Succ(3, 4) == 0;
    assert FanCross(vs, 0) == 0.0;
    assert FanCross(vs, 1) == 4.0;
    assert FanCross(vs, 2) == 4.0;
    assert FanCross(vs, 3) == 0.0;
    assert AreaUpTo(vs, 1) == 0.0;
    assert AreaUpTo(vs, 2) == 2.0;
    assert AreaUpTo(vs, 3) == 4.0;
    assert AreaUpTo(vs, 4) == 4.0;
    assert MomentUpTo(vs, 1) == Zero;
    assert MomentUpTo(vs, 2) == Vector2(8.0 / 3.0, 4.0 / 3.0);
    assert MomentUpTo(vs, 3) == Vector2(4.0, 4.0);
    assert MomentUpTo(vs, 4) == Vector2(4.0, 4.0);
    assert |vs| == 4 && Centroid(vs) == Divide(Vector2(4.0, 4.0), 4.0);
    assert 4.0 * (1.0 / 4.0) == 1.0;
    assert Divide(Vector2(4.0, 4.0), 4.0) == Scale(Vector2(4.0, 4.0), 1.0 / 4.0);
  }

  /**
   * The stale cache of Polygon.CalculateMassAsWritten. The square's centroid is (1, 1), so the
   * mass computation moves its vertices; at angle 0, where a rotation leaves every vector alone,
   * the cache the method keeps (the unshifted square) differs from the cache of the shifted one.
   * Polygon.SetOrientation(0) then returns early, so nothing corrects it.
   */
  lemma StaleCacheAfterShift(rotate: Rotation)
    requires forall v :: rotate(v, 0.0) == v
    ensures Rotated(OffCentreSquare, rotate, 0.0) != Rotated(Shifted(OffCentreSquare, Centroid(OffCentreSquare)), rotate, 0.0)
  {
    OffCentreSquareCentroid();
    var shifted := Shifted(OffCentreSquare, Vector2(1.0, 1.0));
    assert Rotated(OffCentreSquare, rotate, 0.0)[0] == Zero;
    assert Rotated(shifted, rotate, 0.0)[0] == Vector2(-1.0, -1.0);
  }

  class RigidBody {
    const Shape: Shape
    const Material: Material
    var Mass: real
    var InverseMass: real
    var Inertia: real
    var InverseInertia: real
    var GravityScale: real
    var Force: Vector2
    var Torque: real
    var Velocity: Vector2
    var AngularVelocity: real
    var Position: Vector2
    var Orientation: real

    /** The four mass fields hold mass m and inertia i, and their reciprocals with 0 for infinity. */
    ghost predicate HasMass(m: real, i: real)
      reads this
    {
      Mass == m && Inertia == i && InverseMass == Reciprocal(m) && InverseInertia == Reciprocal(i)
    }

    /** The shape's back reference is this body, and a polygon's arrays are well formed. */
    ghost predicate Linked()
      reads Shape.Circles()`Body, Shape.Polygons()`Body
      reads Shape.Polygons()`Vertices, Shape.Polygons()`Normals, Shape.Polygons()`TransVertices, Shape.Polygons()`TransNormals
    {
      match Shape
      case CircleShape(c) => c.Body == this
      case PolygonShape(p) => p.Body == this && p.Valid()
    }

    /** What computing the shape's mass may change: a polygon and its arrays (a circle changes nothing of its own). */
    ghost function ShapeState(): set<object>
      reads Shape.Object()
    {
      match Shape
      case CircleShape(_) => {}
      case PolygonShape(p) => {p, p.Vertices}
    }

    /** Rigid body as built by the source: at rest at the origin, with its shape's mass and no force. */
    constructor (shape: Shape, material: Material)
      requires shape.PolygonShape? ==> shape.polygon.Valid()
      modifies shape.Object()
      modifies if shape.PolygonShape? then shape.polygon.Repr() else {}
      ensures Shape == shape && Material == material && Linked()
      ensures GravityScale == 1.0 && Velocity == Zero && AngularVelocity == 0.0
      ensures Position == Zero && Orientation == 0.0
      ensures Force == Zero && Torque == 0.0
      ensures shape.CircleShape? ==> HasMass(DiscMass(shape.circle.Radius, material.Density), DiscInertia(shape.circle.Radius, material.Density))
      ensures shape.PolygonShape? ==>
        var p := shape.polygon;
        && HasMass(PolygonMass(old(p.Vertices[..]), material.Density), PolygonInertia(old(p.Vertices[..]), material.Density))
        && p.Vertices == old(p.Vertices) && p.Vertices[..] == Shifted(old(p.Vertices[..]), Centroid(old(p.Vertices[..])))
        && p.LastOrientation == old(p.LastOrientation)
        && p.TransVertices == old(p.TransVertices) && p.TransNormals == old(p.TransNormals) && p.TransAABB == old(p.TransAABB)
    {
      Shape := shape;
      Material := material;
      GravityScale := 1.0;
      Velocity := Zero;
      AngularVelocity := 0.0;
      Position := Zero;
      Orientation := 0.0;
      new;
      match shape {
        case CircleShape(c) => c.Body := this;
        case PolygonShape(p) => p.Body := this;
      }
      SetDynamic();
      ClearForce();
    }

    /** RigidBody.ApplyForce(force): a force through the centre of mass adds no torque. */
    method ApplyForce(force: Vector2)
      modifies this`Force, this`Torque
      ensures Force == Add(old(Force), force) && Torque == old(Torque)
    {
      ApplyForceAt(force, Zero);
    }

    /** RigidBody.ApplyForce(force, contact): accumulate the force and its torque about the centre. */
    method ApplyForceAt(force: Vector2, contact: Vector2)
      modifies this`Force, this`Torque
      ensures Force == Add(old(Force), force)
      ensures Torque == old(Torque) + Cross(contact, force)
    {
      Force := Add(Force, force);
      Torque := Torque + Cross(contact, force);
    }

    /** RigidBody.ClearForce. */
    method ClearForce()
      modifies this`Force, this`Torque
      ensures Force == Zero && Torque == 0.0
    {
      Force := Zero;
      Torque := 0.0;
    }

    /**
     * RigidBody.ApplyImpulse: the impulse changes the velocity by impulse / m and the angular
     * velocity by (contact x impulse) / I. A static body (both inverses 0) does not move.
     */
    method ApplyImpulse(impulse: Vector2, contact: Vector2)
      modifies this`Velocity, this`AngularVelocity
      ensures Velocity == Add(old(Velocity), Scale(impulse, InverseMass))
      ensures AngularVelocity == old(AngularVelocity) + InverseInertia * Cross(contact, impulse)
      ensures InverseMass == 0.0 && InverseInertia == 0.0 ==>
        Velocity == old(Velocity) && AngularVelocity == old(AngularVelocity)
    {
      Velocity := Add(Velocity, Scale(impulse, InverseMass));
      AngularVelocity := AngularVelocity + InverseInertia * Cross(contact, impulse);
    }

    /** The four assignments that end each shape's CalculateMass: mass, inertia and their reciprocals. */
    method SetMass(mass: real, inertia: real)
      modifies this`Mass, this`Inertia, this`InverseMass, this`InverseInertia
      ensures HasMass(mass, inertia)
    {
      Mass := mass;
      Inertia := inertia;
      InverseMass := if Mass == 0.0 then 0.0 else 1.0 / Mass;
      InverseInertia := if Inertia == 0.0 then 0.0 else 1.0 / Inertia;
    }

    /** RigidBody.SetStatic: infinite mass and inertia, written as zero inverses. */
    method SetStatic()
      modifies this`Mass, this`Inertia, this`InverseMass, this`InverseInertia
      ensures HasMass(0.0, 0.0)
    {
      Mass := 0.0;
      Inertia := 0.0;
      InverseMass := 0.0;
      InverseInertia := 0.0;
    }

    /**
     * RigidBody.SetDynamic: let the shape compute the mass from the material's density. A
     * polygon goes through CalculateMassAsWritten, as the source does, so its orientation
     * cache still describes the vertices before the shift.
     */
    method SetDynamic()
      requires Linked()
      modifies this`Mass, this`Inertia, this`InverseMass, this`InverseInertia, ShapeState()
      ensures Linked()
      ensures Shape.CircleShape? ==>
        HasMass(DiscMass(Shape.circle.Radius, Material.Density), DiscInertia(Shape.circle.Radius, Material.Density))
      ensures Shape.PolygonShape? ==>
        var p := Shape.polygon;
        && HasMass(PolygonMass(old(p.Vertices[..]), Material.Density), PolygonInertia(old(p.Vertices[..]), Material.Density))
        && p.Vertices == old(p.Vertices) && p.Vertices[..] == Shifted(old(p.Vertices[..]), Centroid(old(p.Vertices[..])))
        && p.LastOrientation == old(p.LastOrientation)
        && p.TransVertices == old(p.TransVertices) && p.TransNormals == old(p.TransNormals) && p.TransAABB == old(p.TransAABB)
    {
      match Shape
      case CircleShape(c) =>
        c.CalculateMass(Material.Density);
      case PolygonShape(p) =>
        p.CalculateMassAsWritten(Material.Density);
    }
  }
}
