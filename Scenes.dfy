/**
 * Scene.cs: the world. A scene owns a list of bodies and, after each step, the manifolds of
 * the pairs found touching; Step advances every body by UpdateTime in a fixed order of phases:
 * refresh the shapes' orientation caches, broad phase, narrow phase, forces, solver set-up,
 * IterationTimes passes of impulses, velocities, positional correction, forces cleared.
 *
 * The integration formulas are value functions (ForceIntegration, VelocityIntegration) with
 * their properties as lemmas; the scene's methods are proved against them.
 */
module Scenes {
  import opened PhyMath
  import opened Vectors
  import opened Vector2Ext
  import opened Bodies
  import opened BroadPhase
  import opened Collision
  import opened Manifolds
  import opened Aabb

  /** No element occurs twice. */
  predicate Distinct<T(==)>(s: seq<T>)
  {
    forall i, j :: 0 <= i < j < |s| ==> s[i] != s[j]
  }

  /** List<T>.Remove: the list without the first occurrence of x, if there is one. */
  function RemoveFirst<T(==)>(s: seq<T>, x: T): (r: seq<T>)
    ensures x !in s ==> r == s
    ensures x in s ==> |r| == |s| - 1 && multiset(r) == multiset(s) - multiset{x}
  {
    if |s| == 0 then []
    else if s[0] == x then
      assert s == [s[0]] + s[1..];
      s[1..]
    else
      assert s == [s[0]] + s[1..];
      [s[0]] + RemoveFirst(s[1..], x)
  }

  /** The index of the first occurrence of x in s. */
  function FirstIndex<T(==)>(s: seq<T>, x: T): (i: nat)
    requires x in s
    ensures i < |s| && s[i] == x && x !in s[..i]
  {
    if s[0] == x then 0 else 1 + FirstIndex(s[1..], x)
  }

  /** Putting the head back in front of a tail cut at i is cutting the whole list at i + 1. */
  lemma ConsCut<T>(s: seq<T>, i: nat)
    requires i + 1 < |s|
    ensures [s[0]] + (s[1..][..i] + s[1..][i + 1..]) == s[..i + 1] + s[i + 2..]
  {
    assert s[1..][..i] == s[1..i + 1] && s[1..][i + 1..] == s[i + 2..];
    assert [s[0]] + s[1..i + 1] == s[..i + 1];
  }

  /** List<T>.Remove cuts the list at the first occurrence and drops exactly that element. */
  lemma {:induction false} RemoveFirstAt<T>(s: seq<T>, x: T)
    requires x in s
    ensures var i := FirstIndex(s, x); RemoveFirst(s, x) == s[..i] + s[i + 1..]
  {
    if s[0] != x {
      RemoveFirstAt(s[1..], x);
      ConsCut(s, FirstIndex(s[1..], x));
    }
  }

  /** Removing a body keeps the others, in order, and keeps a list without repetitions so. */
  lemma {:induction false} RemoveFirstKeepsDistinct<T>(s: seq<T>, x: T)
    requires Distinct(s)
    ensures Distinct(RemoveFirst(s, x))
    ensures forall y :: y in RemoveFirst(s, x) <==> y in s && y != x
  {
    if |s| > 0 && s[0] != x {
      assert Distinct(s[1..]) by {
        forall i, j | 0 <= i < j < |s[1..]| ensures s[1..][i] != s[1..][j] {
          assert s[1..][i] == s[i + 1] && s[1..][j] == s[j + 1];
        }
      }
      RemoveFirstKeepsDistinct(s[1..], x);
      var t := RemoveFirst(s[1..], x);
      assert s[0] !in s[1..] by {
        forall k | 0 <= k < |s[1..]| ensures s[1..][k] != s[0] {
          assert s[1..][k] == s[k + 1];
        }
      }
      assert s[0] !in t;
      var r := [s[0]] + t;
      forall i, j | 0 <= i < j < |r| ensures r[i] != r[j] {
        if i > 0 {
          assert r[i] == t[i - 1] && r[j] == t[j - 1];
        } else {
          assert r[j] == t[j - 1] && r[j] in t;
        }
      }
      forall y ensures y in r <==> y in s && y != x {
        assert y in s <==> y == s[0] || y in s[1..] by {
          assert s == [s[0]] + s[1..];
        }
      }
    } else if |s| > 0 {
      assert s == [s[0]] + s[1..];
      forall y ensures y in s[1..] <==> y in s && y != x {
        if y in s[1..] {
          var k :| 0 <= k < |s[1..]| && s[1..][k] == y;
          assert s[k + 1] == y && s[0] != s[k + 1];
        }
      }
      forall i, j | 0 <= i < j < |s[1..]| ensures s[1..][i] != s[1..][j] {
        assert s[1..][i] == s[i + 1] && s[1..][j] == s[j + 1];
      }
    }
  }

  /**
   * IntegreationForce on one body's (velocity, angular velocity): nothing for an immovable
   * body, otherwise (invMass·F + g·scale)·dt and invInertia·torque·dt are added.
   */
  function ForceIntegration(velocity: Vector2, spin: real, inverseMass: real, inverseInertia: real,
                            force: Vector2, torque: real, gravity: Vector2, gravityScale: real, dt: real): (Vector2, real)
  {
    if EpsilonEqual(inverseMass, 0.0) then (velocity, spin)
    else (Add(velocity, Scale(Add(Scale(force, inverseMass), Scale(gravity, gravityScale)), dt)),
          spin + inverseInertia * torque * dt)
  }

  /** IntegreationVelocity on one body's (position, orientation). */
  function VelocityIntegration(position: Vector2, orientation: real, velocity: Vector2, spin: real, dt: real): (Vector2, real)
  {
    (Add(position, Scale(velocity, dt)), orientation + spin * dt)
  }

  /** An immovable body keeps its velocities, whatever the forces on it. */
  lemma ImmovableKeepsVelocity(velocity: Vector2, spin: real, inverseMass: real, inverseInertia: real,
                               force: Vector2, torque: real, gravity: Vector2, gravityScale: real, dt: real)
    requires EpsilonEqual(inverseMass, 0.0)
    ensures ForceIntegration(velocity, spin, inverseMass, inverseInertia, force, torque, gravity, gravityScale, dt) == (velocity, spin)
  {
  }

  /** One coordinate of that velocity change, times the mass. */
  lemma MassTimesChange(f: real, g: real, gravityScale: real, dt: real, mass: real, inverseMass: real)
    requires inverseMass * mass == 1.0
    ensures (f * inverseMass + g * gravityScale) * dt * mass == (f + g * (gravityScale * mass)) * dt
  {
    calc {
      (f * inverseMass + g * gravityScale) * dt * mass;
      (f * (inverseMass * mass) + g * gravityScale * mass) * dt;
      (f + g * (gravityScale * mass)) * dt;
    }
  }

  /**
   * Impulse and momentum: for a movable body of mass m (inverse mass 1/m), m·Δv equals the
   * force plus the scaled weight, times dt; I·Δω equals torque·dt.
   */
  lemma {:induction false} ForceIntegrationMomentum(velocity: Vector2, spin: real, mass: real, inertia: real,
                                                    force: Vector2, torque: real, gravity: Vector2, gravityScale: real, dt: real)
    requires mass != 0.0 && inertia != 0.0 && !EpsilonEqual(1.0 / mass, 0.0)
    ensures var (v, w) := ForceIntegration(velocity, spin, 1.0 / mass, 1.0 / inertia, force, torque, gravity, gravityScale, dt);
      && Scale(Sub(v, velocity), mass) == Scale(Add(force, Scale(gravity, gravityScale * mass)), dt)
      && (w - spin) * inertia == torque * dt
  {
    var im := 1.0 / mass;
    var a := Add(Scale(force, im), Scale(gravity, gravityScale));
    var v := Add(velocity, Scale(a, dt));
    assert im * mass == 1.0;
    assert Sub(v, velocity) == Scale(a, dt);
    MassTimesChange(force.X, gravity.X, gravityScale, dt, mass, im);
    MassTimesChange(force.Y, gravity.Y, gravityScale, dt, mass, im);
    var ii := 1.0 / inertia;
    assert ii * inertia == 1.0;
    calc {
      (spin + ii * torque * dt - spin) * inertia;
      (ii * inertia) * torque * dt;
      torque * dt;
    }
  }

  /** With no force and no torque every movable body falls alike: Δv = g·scale·dt, whatever its mass. */
  lemma {:induction false} FreeFall(velocity: Vector2, spin: real, inverseMass: real, inverseInertia: real,
                                    gravity: Vector2, gravityScale: real, dt: real)
    requires !EpsilonEqual(inverseMass, 0.0)
    ensures ForceIntegration(velocity, spin, inverseMass, inverseInertia, Zero, 0.0, gravity, gravityScale, dt)
         == (Add(velocity, Scale(Scale(gravity, gravityScale), dt)), spin)
  {
    assert Add(Scale(Zero, inverseMass), Scale(gravity, gravityScale)) == Scale(gravity, gravityScale);
    assert inverseInertia * 0.0 * dt == 0.0;
  }

  /** Two integrations over dt1 and dt2 under the same forces make one over dt1 + dt2. */
  lemma {:induction false} ForceIntegrationSplits(velocity: Vector2, spin: real, inverseMass: real, inverseInertia: real,
                                                  force: Vector2, torque: real, gravity: Vector2, gravityScale: real,
                                                  dt1: real, dt2: real)
    ensures var (v1, w1) := ForceIntegration(velocity, spin, inverseMass, inverseInertia, force, torque, gravity, gravityScale, dt1);
      ForceIntegration(v1, w1, inverseMass, inverseInertia, force, torque, gravity, gravityScale, dt2)
      == ForceIntegration(velocity, spin, inverseMass, inverseInertia, force, torque, gravity, gravityScale, dt1 + dt2)
  {
    if !EpsilonEqual(inverseMass, 0.0) {
      var a := Add(Scale(force, inverseMass), Scale(gravity, gravityScale));
      ScaleSplits(a, dt1, dt2);
      var alpha := inverseInertia * torque;
      assert alpha * dt1 + alpha * dt2 == alpha * (dt1 + dt2);
    }
  }

  /** Moving by dt1 and then by dt2 at the same velocities is moving by dt1 + dt2. */
  lemma {:induction false} VelocityIntegrationSplits(position: Vector2, orientation: real, velocity: Vector2, spin: real,
                                                     dt1: real, dt2: real)
    ensures var (p1, o1) := VelocityIntegration(position, orientation, velocity, spin, dt1);
      VelocityIntegration(p1, o1, velocity, spin, dt2) == VelocityIntegration(position, orientation, velocity, spin, dt1 + dt2)
  {
    ScaleSplits(velocity, dt1, dt2);
    assert spin * dt1 + spin * dt2 == spin * (dt1 + dt2);
  }

  /** Moving by dt and then by -dt returns the body to where it was. */
  lemma {:induction false} VelocityIntegrationReverses(position: Vector2, orientation: real, velocity: Vector2, spin: real, dt: real)
    ensures var (p1, o1) := VelocityIntegration(position, orientation, velocity, spin, dt);
      VelocityIntegration(p1, o1, velocity, spin, -dt) == (position, orientation)
  {
    VelocityIntegrationSplits(position, orientation, velocity, spin, dt, -dt);
    assert Scale(velocity, 0.0) == Zero;
  }

  lemma ScaleSplits(a: Vector2, s: real, t: real)
    ensures Add(Scale(a, s), Scale(a, t)) == Scale(a, s + t)
  {
    assert a.X * s + a.X * t == a.X * (s + t);
    assert a.Y * s + a.Y * t == a.Y * (s + t);
  }

  /** IterationTimes passes over the contact list, each in list order. */
  function Passes<T>(cs: seq<T>, n: nat): (r: seq<T>)
    ensures |r| == n * |cs|
  {
    if n == 0 then [] else Passes(cs, n - 1) + cs
  }

  /** Call p·|cs| + k of the solver is on contact k, in pass p. */
  lemma {:induction false} PassesAt<T>(cs: seq<T>, n: nat, p: nat, k: nat)
    requires p < n && k < |cs|
    ensures p * |cs| + k < |Passes(cs, n)| && Passes(cs, n)[p * |cs| + k] == cs[k]
  {
    if p < n - 1 {
      PassesAt(cs, n - 1, p, k);
      assert p * |cs| + k < (n - 1) * |cs|;
    } else {
      assert p * |cs| == (n - 1) * |cs|;
    }
  }

  /** One collider per body, in order: what the broad phase is given. */
  ghost function CollidersOf(os: seq<RigidBody>): (cs: seq<Collider>)
    reads set b | b in os, set b | b in os :: b.Shape.Object()
    reads set b, o | b in os && o in b.Shape.Footprint() :: o
    ensures |cs| == |os|
  {
    if |os| == 0 then [] else CollidersOf(os[..|os| - 1]) + [NewCollider(os[|os| - 1])]
  }

  /** Collider k belongs to body k. */
  lemma {:induction false} CollidersOfBodies(os: seq<RigidBody>)
    ensures forall k :: 0 <= k < |os| ==> CollidersOf(os)[k] == NewCollider(os[k])
    ensures forall k :: 0 <= k < |os| ==> CollidersOf(os)[k].Body == os[k]
  {
    if |os| > 0 {
      CollidersOfBodies(os[..|os| - 1]);
    }
  }

  /** The manifolds among ms that have contact points, in order: what Step keeps. */
  ghost function WithPoints(ms: seq<Manifold>): (r: seq<Manifold>)
    reads ms`Found
    ensures forall c :: c in r ==> c in ms && c.Found.Points.Some?
    ensures forall c :: c in ms && c.Found.Points.Some? ==> c in r
  {
    if |ms| == 0 then []
    else
      var last := ms[|ms| - 1];
      WithPoints(ms[..|ms| - 1]) + if last.Found.Points.Some? then [last] else []
  }

  /** The solver's coefficients are those of the pair's materials, as Manifold.Init sets them. */
  ghost predicate Initialised(c: Manifold, sqrt: real -> real)
    requires IsSqrt(sqrt)
    reads c`Restitution, c`StaticFriction, c`KineticFriction
  {
    && c.Restitution == MeanRestitution(c.A.Material.Restitution, c.B.Material.Restitution)
    && c.StaticFriction == CombinedFriction(c.A.Material.StaticFriction, c.B.Material.StaticFriction, sqrt)
    && c.KineticFriction == CombinedFriction(c.A.Material.KineticFriction, c.B.Material.KineticFriction, sqrt)
  }

  /**
   * A shape's orientation cache: nothing for a circle; for a polygon its transformed vertices
   * and normals, their box and the angle they were computed for.
   */
  datatype Cache = NoCache | PolygonCache(Vertices: seq<Vector2>, Normals: seq<Vector2>, Box: AABB, Angle: real)

  /** The cache of body b's shape. */
  ghost function CacheOf(b: RigidBody): (c: Cache)
    reads b.Shape.Object()
    ensures c.PolygonCache? <==> b.Shape.PolygonShape?
  {
    match b.Shape
    case CircleShape(_) => NoCache
    case PolygonShape(p) => PolygonCache(p.TransVertices, p.TransNormals, p.TransAABB, p.LastOrientation)
  }

  /** The caches of the bodies os, in order. */
  ghost function CachesOf(os: seq<RigidBody>): (r: seq<Cache>)
    reads set b | b in os :: b.Shape.Object()
    ensures |r| == |os| && forall k :: 0 <= k < |os| ==> r[k] == CacheOf(os[k])
  {
    seq(|os|, k requires 0 <= k < |os| reads set b | b in os :: b.Shape.Object() => CacheOf(os[k]))
  }

  /**
   * Polygon.SetOrientation(angle) on body b's shape, whose cache was `before`: the angle is
   * cached; at the angle already cached the cache is as it was, otherwise it holds the
   * vertices and normals rotated by the angle and their bounding box. A circle has no cache.
   */
  ghost predicate Refreshed(b: RigidBody, before: Cache, angle: real, rotate: Rotation)
    reads b.Shape.Object(), b.Shape.Footprint()
  {
    match b.Shape
    case CircleShape(_) => true
    case PolygonShape(p) =>
      && p.LastOrientation == angle
      && if before.PolygonCache? && before.Angle == angle
         then before == PolygonCache(p.TransVertices, p.TransNormals, p.TransAABB, p.LastOrientation)
         else p.Valid() && p.CacheValid(rotate)
  }

  /**
   * The box body b's shape gives once Polygon.SetOrientation(b.Orientation) has run on it: a
   * circle's radius box; a polygon's cached box when the cache is already at that angle,
   * otherwise the bounds of its vertices rotated by the angle.
   */
  ghost function OrientedBox(b: RigidBody, rotate: Rotation): AABB
    reads b, b.Shape.Circles(), b.Shape.Polygons(), set p | p in b.Shape.Polygons() :: p.Vertices
    requires b.Linked()
  {
    match b.Shape
    case CircleShape(c) => c.GetAABB()
    case PolygonShape(p) =>
      if p.LastOrientation == b.Orientation then p.TransAABB else Bounds(Rotated(p.Vertices[..], rotate, b.Orientation))
  }

  /**
   * The colliders Step builds from the bodies os once their caches are set: each body with its
   * OrientedBox moved to where the body stands.
   */
  ghost function OrientedColliders(os: seq<RigidBody>, rotate: Rotation): (cs: seq<Collider>)
    reads set b | b in os, set b, c | b in os && c in b.Shape.Circles() :: c
    reads set b, p | b in os && p in b.Shape.Polygons() :: p, set b, p | b in os && p in b.Shape.Polygons() :: p.Vertices
    requires forall b :: b in os ==> b.Linked()
    ensures |cs| == |os|
    ensures forall k :: 0 <= k < |os| ==> cs[k] == Collider(os[k], Offset(OrientedBox(os[k], rotate), os[k].Position))
  {
    seq(|os|, k requires 0 <= k < |os| && os[k].Linked()
                reads set b | b in os, set b, c | b in os && c in b.Shape.Circles() :: c
                reads set b, p | b in os && p in b.Shape.Polygons() :: p
                reads set b, p | b in os && p in b.Shape.Polygons() :: p.Vertices =>
      Collider(os[k], Offset(OrientedBox(os[k], rotate), os[k].Position)))
  }

  /** Both bodies of the pair are linked to their shapes. */
  ghost predicate BothLinked(pair: Pair)
    reads pair.Left.Shape.Object(), pair.Right.Shape.Object()
  {
    pair.Left.Linked() && pair.Right.Linked()
  }

  /** The pose of both bodies of every pair, in pair order, as the narrow phase reads them. */
  ghost function PosesOf(pairs: seq<Pair>): (poses: seq<(Posed, Posed)>)
    reads set p | p in pairs :: p.Left, set p | p in pairs :: p.Right
    reads set p | p in pairs :: p.Left.Shape.Object(), set p | p in pairs :: p.Right.Shape.Object()
    ensures |poses| == |pairs|
    ensures forall k :: 0 <= k < |pairs| ==> poses[k] == (Pose(pairs[k].Left), Pose(pairs[k].Right))
  {
    if pairs == [] then [] else [(Pose(pairs[0].Left), Pose(pairs[0].Right))] + PosesOf(pairs[1..])
  }

  /**
   * What the narrow phase found for a pair whose bodies were posed as pa and pb: the contact
   * the Dispatch routine for the two shape kinds gives a new manifold. It is Collides from a
   * fresh contact, stated through a guard so that the dispatch is unfolded only where a proof
   * asks about it.
   */
  ghost predicate Solved(c: Contact, pa: Posed, pb: Posed, sqrt: real -> real, normalize: Normalizer)
    requires IsSqrt(sqrt)
  {
    forall r {:trigger Collides(Unsolved, r, pa, pb, sqrt, normalize)} :: r == c ==> Collides(Unsolved, r, pa, pb, sqrt, normalize)
  }

  /**
   * The narrow phase's record of its first |made| pairs: manifold l joins the bodies of
   * pair l and holds what the narrow phase found for them, posed as poses[l].
   */
  ghost predicate Narrowed(pairs: seq<Pair>, poses: seq<(Posed, Posed)>, made: seq<Manifold>, sqrt: real -> real,
                           normalize: Normalizer)
    requires IsSqrt(sqrt)
    reads made`Found
  {
    && |made| == |poses| <= |pairs|
    && forall l :: 0 <= l < |made| ==>
         && made[l].A == pairs[l].Left && made[l].B == pairs[l].Right
         && Solved(made[l].Found, poses[l].0, poses[l].1, sqrt, normalize)
  }

  /** One more pair narrowed: its manifold and its bodies' poses go at the end of the record. */
  lemma NarrowedMore(pairs: seq<Pair>, poses: seq<(Posed, Posed)>, made: seq<Manifold>, m: Manifold, pose: (Posed, Posed),
                     sqrt: real -> real, normalize: Normalizer)
    requires IsSqrt(sqrt) && Narrowed(pairs, poses, made, sqrt, normalize) && |made| < |pairs|
    requires m.A == pairs[|made|].Left && m.B == pairs[|made|].Right && Solved(m.Found, pose.0, pose.1, sqrt, normalize)
    ensures Narrowed(pairs, poses + [pose], made + [m], sqrt, normalize)
  {
  }

  /** A body's pose depends on nothing but its position and its shape's radius or cache. */
  twostate lemma PoseKept(b: RigidBody)
    requires old(allocated(b)) && b.Position == old(b.Position)
    requires b.Shape.CircleShape? ==> b.Shape.circle.Radius == old(b.Shape.circle.Radius)
    requires b.Shape.PolygonShape? ==>
      b.Shape.polygon.TransVertices == old(b.Shape.polygon.TransVertices) && b.Shape.polygon.TransNormals == old(b.Shape.polygon.TransNormals)
    ensures Pose(b) == old(Pose(b))
  {
  }

  /** A body that kept its shape's radius or cache is posed as before but for its position. */
  twostate lemma PoseMoved(b: RigidBody)
    requires old(allocated(b))
    requires b.Shape.CircleShape? ==> b.Shape.circle.Radius == old(b.Shape.circle.Radius)
    requires b.Shape.PolygonShape? ==>
      b.Shape.polygon.TransVertices == old(b.Shape.polygon.TransVertices) && b.Shape.polygon.TransNormals == old(b.Shape.polygon.TransNormals)
    ensures old(Pose(b)) == Pose(b).(Position := old(b.Position))
  {
  }

  /** Step, lines 46-47: a new manifold for the pair, solved by the narrow phase. */
  method SolvedManifold(pair: Pair, sqrt: real -> real, normalize: Normalizer) returns (m: Manifold)
    requires IsSqrt(sqrt) && BothLinked(pair)
    ensures fresh(m) && m.A == pair.Left && m.B == pair.Right
    ensures Solved(m.Found, old(Pose(pair.Left)), old(Pose(pair.Right)), sqrt, normalize)
  {
    m := new Manifold(pair.Left, pair.Right);
    m.Solve(sqrt, normalize);
  }

  class Scene {
    var Gravity: Vector2
    var Objects: seq<RigidBody>
    var UpdateTime: real
    var IterationTimes: int
    var Contacts: seq<Manifold>

    /** The shape objects of the bodies. */
    ghost function Shapes(): set<object>
      reads this`Objects
    {
      set b | b in Objects :: b.Shape.Object()
    }

    /** The circles of the bodies. */
    ghost function Circles(): set<Circle>
      reads this`Objects
    {
      set b | b in Objects && b.Shape.CircleShape? :: b.Shape.circle
    }

    /** The polygons of the bodies, whose orientation caches Step refreshes. */
    ghost function Polygons(): set<Polygon>
      reads this`Objects
    {
      set b | b in Objects && b.Shape.PolygonShape? :: b.Shape.polygon
    }

    /** Every body occurs once and is its shape's body. */
    ghost predicate Valid()
      reads this`Objects, Circles()`Body, Polygons()`Body
      reads Polygons()`Vertices, Polygons()`Normals, Polygons()`TransVertices, Polygons()`TransNormals
    {
      && Distinct(Objects)
      && forall b :: b in Objects ==> b.Linked()
    }

    /** No body has a negative inverse mass or inverse inertia. */
    ghost predicate NonNegative()
      reads this`Objects, Objects`InverseMass, Objects`InverseInertia
    {
      forall b :: b in Objects ==> b.InverseMass >= 0.0 && b.InverseInertia >= 0.0
    }

    /** Every pair joins two different bodies of the scene that are not both immovable. */
    ghost predicate Joined(pairs: seq<Pair>)
      reads this`Objects, Objects`InverseMass
    {
      forall k :: 0 <= k < |pairs| ==>
        && pairs[k].Left in Objects && pairs[k].Right in Objects && pairs[k].Left != pairs[k].Right
        && !EpsilonEqual(pairs[k].Left.InverseMass + pairs[k].Right.InverseMass, 0.0)
    }

    /**
     * Every manifold joins two different bodies of the scene that are not both immovable,
     * and has contact points.
     */
    ghost predicate Ready(cs: seq<Manifold>)
      reads this`Objects, cs`Found, Objects`InverseMass
    {
      forall c :: c in cs ==>
        && c.A in Objects && c.B in Objects && c.A != c.B
        && c.Found.Points.Some?
        && !EpsilonEqual(c.A.InverseMass + c.B.InverseMass, 0.0)
    }

    /** What the solver needs of every contact. */
    ghost predicate ContactsReady()
      reads this`Contacts, this`Objects, Contacts`Found, Objects`InverseMass
    {
      Ready(Contacts)
    }

    /** Scene(dt, iter, gravity): no bodies and no contacts. */
    constructor (dt: real, iter: int, gravity: Vector2)
      ensures UpdateTime == dt && IterationTimes == iter && Gravity == gravity
      ensures Objects == [] && Contacts == []
      ensures Valid()
    {
      UpdateTime := dt;
      IterationTimes := iter;
      Gravity := gravity;
      Contacts := [];
      Objects := [];
    }

    /** Scene.AddBody: a new body for the shape and material, appended to Objects and returned. */
    method AddBody(shape: Shape, m: Material) returns (obj: RigidBody)
      requires Valid()
      requires shape.PolygonShape? ==> shape.polygon.Valid()
      requires shape.Object() !in Shapes()
      modifies this`Objects, shape.Object()
      modifies if shape.PolygonShape? then shape.polygon.Repr() else {}
      ensures fresh(obj) && obj.Shape == shape && obj.Material == m
      ensures Objects == old(Objects) + [obj]
      ensures Valid()
      ensures obj.GravityScale == 1.0 && obj.Velocity == Zero && obj.AngularVelocity == 0.0
      ensures obj.Position == Zero && obj.Orientation == 0.0 && obj.Force == Zero && obj.Torque == 0.0
      ensures shape.CircleShape? ==>
        obj.HasMass(DiscMass(shape.circle.Radius, m.Density), DiscInertia(shape.circle.Radius, m.Density))
      ensures shape.PolygonShape? ==>
        var p := shape.polygon;
        && obj.HasMass(PolygonMass(old(p.Vertices[..]), m.Density), PolygonInertia(old(p.Vertices[..]), m.Density))
        && p.Vertices[..] == Shifted(old(p.Vertices[..]), Centroid(old(p.Vertices[..])))
        && p.LastOrientation == old(p.LastOrientation) && p.TransAABB == old(p.TransAABB)
        && p.TransVertices == old(p.TransVertices) && p.TransNormals == old(p.TransNormals)
    {
      obj := new RigidBody(shape, m);
      Objects := Objects + [obj];
    }

    /** Scene.RemoveBody: List.Remove, which drops the first occurrence only. */
    method RemoveBody(obj: RigidBody)
      modifies this`Objects
      ensures Objects == RemoveFirst(old(Objects), obj)
      ensures old(Valid()) ==> Valid() && obj !in Objects
    {
      if Valid() {
        RemoveFirstKeepsDistinct(Objects, obj);
      }
      Objects := RemoveFirst(Objects, obj);
    }

    /** Scene.IntegreationForce. */
    method IntegrationForce(obj: RigidBody)
      modifies obj`Velocity, obj`AngularVelocity
      ensures (obj.Velocity, obj.AngularVelocity)
           == ForceIntegration(old(obj.Velocity), old(obj.AngularVelocity), obj.InverseMass, obj.InverseInertia,
                               obj.Force, obj.Torque, Gravity, obj.GravityScale, UpdateTime)
    {
      if EpsilonEqual(obj.InverseMass, 0.0) {
        return;
      }
      ghost var after := ForceIntegration(obj.Velocity, obj.AngularVelocity, obj.InverseMass, obj.InverseInertia,
                                          obj.Force, obj.Torque, Gravity, obj.GravityScale, UpdateTime);
      obj.Velocity := Add(obj.Velocity, Scale(Add(Scale(obj.Force, obj.InverseMass), Scale(Gravity, obj.GravityScale)), UpdateTime));
      obj.AngularVelocity := obj.AngularVelocity + obj.InverseInertia * obj.Torque * UpdateTime;
      assert obj.Velocity == after.0 && obj.AngularVelocity == after.1;
    }

    /** Scene.IntegreationVelocity. */
    method IntegrationVelocity(obj: RigidBody)
      modifies obj`Position, obj`Orientation
      ensures (obj.Position, obj.Orientation)
           == VelocityIntegration(old(obj.Position), old(obj.Orientation), obj.Velocity, obj.AngularVelocity, UpdateTime)
    {
      obj.Position := Add(obj.Position, Scale(obj.Velocity, UpdateTime));
      obj.Orientation := obj.Orientation + obj.AngularVelocity * UpdateTime;
    }

    /** Step, line 39, for the i-th body: its shape's cache is set to the body's orientation. */
    method OrientAt(i: nat, rotate: Rotation, ghost before: seq<Cache>)
      requires Valid() && i < |Objects| == |before| && before[i] == CacheOf(Objects[i])
      modifies Objects[i].Shape.Polygons()`LastOrientation, Objects[i].Shape.Polygons()`TransAABB
      modifies Objects[i].Shape.Polygons()`TransVertices, Objects[i].Shape.Polygons()`TransNormals
      ensures Valid() && Refreshed(Objects[i], before[i], Objects[i].Orientation, rotate)
      ensures forall k :: 0 <= k < |Objects| && k != i ==> CacheOf(Objects[k]) == old(CacheOf(Objects[k]))
      ensures forall k :: 0 <= k < |Objects| && k != i && old(Refreshed(Objects[k], before[k], Objects[k].Orientation, rotate)) ==>
        Refreshed(Objects[k], before[k], Objects[k].Orientation, rotate)
    {
      var obj := Objects[i];
      assert obj in Objects && obj.Linked();
      match obj.Shape {
        case CircleShape(c) =>
          c.SetOrientation(obj.Orientation);
        case PolygonShape(p) =>
          OrientPolygon(obj, p, rotate);
      }
    }

    /** Step, line 39, for a body with a polygon: no other body shares the polygon, whose cache is set. */
    method OrientPolygon(obj: RigidBody, p: Polygon, rotate: Rotation)
      requires Valid() && obj in Objects && obj.Shape == PolygonShape(p)
      modifies p`LastOrientation, p`TransAABB, p`TransVertices, p`TransNormals
      ensures Valid() && p.LastOrientation == obj.Orientation && Refreshed(obj, old(CacheOf(obj)), obj.Orientation, rotate)
      ensures forall b :: b in Objects && b != obj ==> p !in b.Shape.Polygons()
    {
      ghost var before := CacheOf(obj);
      Unshared(obj, p);
      p.SetOrientation(obj.Orientation, rotate);
      if before.Angle == obj.Orientation {
        assert CacheOf(obj) == before;
      } else {
        assert p.Valid() && p.CacheValid(rotate);
      }
      forall b | b in Objects
        ensures b.Linked()
      {
        assert old(b.Linked());
      }
    }

    /** A body of the scene has its circle or polygon among the scene's. */
    lemma ShapesOf(b: RigidBody)
      requires b in Objects
      ensures b.Shape.Circles() <= Circles() && b.Shape.Polygons() <= Polygons()
    {
    }

    /** In a valid scene no other body has the polygon of body obj: each polygon's Body is its one owner. */
    lemma Unshared(obj: RigidBody, p: Polygon)
      requires Valid() && obj in Objects && obj.Shape == PolygonShape(p)
      ensures forall b :: b in Objects && b != obj ==> p !in b.Shape.Polygons()
    {
      assert obj.Linked();
      forall b | b in Objects && b != obj
        ensures p !in b.Shape.Polygons()
      {
        assert b.Linked();
      }
    }

    /** Step, lines 38-39: every shape's cache is set to its body's orientation. */
    method Orient(rotate: Rotation)
      requires Valid()
      modifies Polygons()`LastOrientation, Polygons()`TransAABB, Polygons()`TransVertices, Polygons()`TransNormals
      ensures Valid()
      ensures forall k :: 0 <= k < |Objects| ==> Refreshed(Objects[k], old(CacheOf(Objects[k])), Objects[k].Orientation, rotate)
      ensures CollidersOf(Objects) == old(OrientedColliders(Objects, rotate))
    {
      ghost var before := CachesOf(Objects);
      for i := 0 to |Objects|
        invariant Valid()
        invariant forall k :: 0 <= k < i ==> Refreshed(Objects[k], before[k], Objects[k].Orientation, rotate)
        invariant forall k :: i <= k < |Objects| ==> CacheOf(Objects[k]) == before[k]
      {
        OrientAt(i, rotate, before);
      }
      forall k | 0 <= k < |Objects|
        ensures ShapeAABB(Objects[k].Shape) == old(OrientedBox(Objects[k], rotate))
      {
        assert Objects[k] in Objects && Objects[k].Linked();
        match Objects[k].Shape
        case CircleShape(c) =>
        case PolygonShape(p) =>
          assert p.Vertices[..] == old(p.Vertices[..]);
      }
      CollidersOfBodies(Objects);
    }

    /** Step, lines 36 and 41-42: a broad phase holding one collider per body, in order. */
    method Broad() returns (broadphase: BroadPhase)
      ensures fresh(broadphase) && broadphase.Colliders == old(CollidersOf(Objects))
    {
      broadphase := new BroadPhase();
      for i := 0 to |Objects|
        invariant fresh(broadphase) && broadphase.Colliders == old(CollidersOf(Objects[..i]))
      {
        broadphase.AddBody(Objects[i]);
        assert Objects[..i + 1][..i] == Objects[..i];
      }
      assert Objects[..|Objects|] == Objects;
    }

    /**
     * Step, lines 36 and 41-44: the broad phase's pairs over the bodies as they stand; each
     * joins two different bodies of the scene that are not both immovable.
     */
    method BroadPairs() returns (pairs: seq<Pair>)
      requires Valid()
      ensures var cs := old(CollidersOf(Objects)); pairs == PairsOf(cs, Kept(Boxes(cs), old(InverseMasses(cs))))
      ensures Joined(pairs)
    {
      ghost var cs := CollidersOf(Objects);
      ghost var masses := InverseMasses(cs);
      CollidersOfBodies(Objects);
      var broadphase := Broad();
      pairs := broadphase.GetPairs();
      assert InverseMasses(cs) == masses by {
        forall i | 0 <= i < |cs| ensures InverseMasses(cs)[i] == masses[i] {
          assert cs[i].Body == Objects[i];
        }
      }
      PairsJoinBodies(cs, Objects);
    }

    /**
     * Step, lines 45-49, for pair k: a manifold made and solved, kept when it has points, and
     * added to the narrow phase's record.
     */
    method Consider(pairs: seq<Pair>, k: nat, contacts: seq<Manifold>, ghost made: seq<Manifold>,
                    ghost poses: seq<(Posed, Posed)>, sqrt: real -> real, normalize: Normalizer)
      returns (contacts': seq<Manifold>, m: Manifold)
      requires IsSqrt(sqrt) && Valid() && k == |made| < |pairs| == |poses| && BothLinked(pairs[k])
      requires poses[k] == (Pose(pairs[k].Left), Pose(pairs[k].Right))
      requires Narrowed(pairs, poses[..k], made, sqrt, normalize) && contacts == WithPoints(made)
      ensures Valid() && fresh(m)
      ensures Narrowed(pairs, poses[..k + 1], made + [m], sqrt, normalize)
      ensures contacts' == WithPoints(made + [m])
    {
      m := SolvedManifold(pairs[k], sqrt, normalize);
      NarrowedMore(pairs, poses[..k], made, m, poses[k], sqrt, normalize);
      assert poses[..k] + [poses[k]] == poses[..k + 1];
      contacts' := contacts;
      if m.Found.Points.Some? {
        contacts' := contacts + [m];
      }
      assert (made + [m])[..|made|] == made;
    }

    /**
     * Step, lines 44-50: a new manifold per pair, solved; made lists them all in pair order
     * and contacts those with points.
     */
    method Narrow(pairs: seq<Pair>, sqrt: real -> real, normalize: Normalizer)
      returns (contacts: seq<Manifold>, ghost made: seq<Manifold>, ghost poses: seq<(Posed, Posed)>)
      requires IsSqrt(sqrt) && Valid() && Joined(pairs)
      requires forall k :: 0 <= k < |pairs| ==> BothLinked(pairs[k])
      ensures Valid() && Joined(pairs) && |made| == |pairs| && forall k :: 0 <= k < |pairs| ==> fresh(made[k])
      ensures Narrowed(pairs, poses, made, sqrt, normalize)
      ensures forall k :: 0 <= k < |pairs| ==> poses[k] == (old(Pose(pairs[k].Left)), old(Pose(pairs[k].Right)))
      ensures forall k :: 0 <= k < |pairs| ==> poses[k] == (Pose(pairs[k].Left), Pose(pairs[k].Right))
      ensures contacts == WithPoints(made) && Ready(contacts)
    {
      poses := PosesOf(pairs);
      contacts, made := NarrowAll(pairs, poses, sqrt, normalize);
      forall k | 0 <= k < |pairs| ensures poses[k] == (Pose(pairs[k].Left), Pose(pairs[k].Right)) {
        PoseKept(pairs[k].Left);
        PoseKept(pairs[k].Right);
      }
      MadeReady(pairs, poses, made, sqrt, normalize);
    }

    /** The manifolds made for pairs of the scene, the ones with points among them, are ready for the solver. */
    lemma MadeReady(pairs: seq<Pair>, poses: seq<(Posed, Posed)>, made: seq<Manifold>, sqrt: real -> real,
                    normalize: Normalizer)
      requires IsSqrt(sqrt) && Joined(pairs) && Narrowed(pairs, poses, made, sqrt, normalize)
      ensures Joined(pairs) && Ready(WithPoints(made))
    {
      forall c | c in WithPoints(made)
        ensures c.A in Objects && c.B in Objects && c.A != c.B && !EpsilonEqual(c.A.InverseMass + c.B.InverseMass, 0.0)
      {
        var l :| 0 <= l < |made| && made[l] == c;
      }
    }

    /** Step, lines 44-50, the loop: Consider for every pair in order, the bodies posed as poses. */
    method NarrowAll(pairs: seq<Pair>, ghost poses: seq<(Posed, Posed)>, sqrt: real -> real, normalize: Normalizer)
      returns (contacts: seq<Manifold>, ghost made: seq<Manifold>)
      requires IsSqrt(sqrt) && Valid()
      requires forall k :: 0 <= k < |pairs| ==> BothLinked(pairs[k])
      requires |poses| == |pairs| && forall k :: 0 <= k < |pairs| ==> poses[k] == (Pose(pairs[k].Left), Pose(pairs[k].Right))
      ensures Valid() && |made| == |pairs| && forall k :: 0 <= k < |pairs| ==> fresh(made[k])
      ensures Narrowed(pairs, poses, made, sqrt, normalize)
      ensures contacts == WithPoints(made)
    {
      contacts, made := [], [];
      for k := 0 to |pairs|
        invariant Valid() && |made| == k && forall l :: 0 <= l < k ==> fresh(made[l])
        invariant Narrowed(pairs, poses[..k], made, sqrt, normalize)
        invariant contacts == WithPoints(made)
      {
        var m;
        PoseKept(pairs[k].Left);
        PoseKept(pairs[k].Right);
        contacts, m := Consider(pairs, k, contacts, made, poses, sqrt, normalize);
        made := made + [m];
      }
      assert poses[..|pairs|] == poses;
    }

    /**
     * Step, lines 36-50: the manifolds, in pair order, that the narrow phase gave points, one
     * made for every broad-phase pair.
     */
    method Collide(sqrt: real -> real, normalize: Normalizer)
      returns (contacts: seq<Manifold>, ghost pairs: seq<Pair>, ghost made: seq<Manifold>, ghost poses: seq<(Posed, Posed)>)
      requires IsSqrt(sqrt) && Valid()
      ensures var cs := old(CollidersOf(Objects)); pairs == PairsOf(cs, Kept(Boxes(cs), old(InverseMasses(cs))))
      ensures Joined(pairs) && |made| == |pairs| && forall k :: 0 <= k < |pairs| ==> fresh(made[k])
      ensures Narrowed(pairs, poses, made, sqrt, normalize)
      ensures forall k :: 0 <= k < |pairs| ==> poses[k] == (old(Pose(pairs[k].Left)), old(Pose(pairs[k].Right)))
      ensures forall k :: 0 <= k < |pairs| ==> poses[k] == (Pose(pairs[k].Left), Pose(pairs[k].Right))
      ensures contacts == WithPoints(made) && Ready(contacts)
      ensures fresh(set c | c in contacts) && Valid()
    {
      var ps := BroadPairs();
      pairs := ps;
      forall k | 0 <= k < |ps| ensures Pose(ps[k].Left) == old(Pose(ps[k].Left)) && Pose(ps[k].Right) == old(Pose(ps[k].Right)) {
        PoseKept(ps[k].Left);
        PoseKept(ps[k].Right);
      }
      assert forall k :: 0 <= k < |ps| ==> ps[k].Left in Objects && ps[k].Right in Objects;
      contacts, made, poses := Narrow(ps, sqrt, normalize);
    }

    /**
     * Step, lines 34 and 36-50: Contacts replaced by the new manifolds, in pair order, that
     * the narrow phase gave points, one made for every broad-phase pair.
     */
    method FindContacts(sqrt: real -> real, normalize: Normalizer)
      returns (ghost pairs: seq<Pair>, ghost made: seq<Manifold>, ghost poses: seq<(Posed, Posed)>)
      requires IsSqrt(sqrt) && Valid()
      modifies this`Contacts
      ensures var cs := old(CollidersOf(Objects)); pairs == PairsOf(cs, Kept(Boxes(cs), old(InverseMasses(cs))))
      ensures Joined(pairs) && |made| == |pairs| && forall k :: 0 <= k < |pairs| ==> fresh(made[k])
      ensures Narrowed(pairs, poses, made, sqrt, normalize)
      ensures forall k :: 0 <= k < |pairs| ==> poses[k] == (old(Pose(pairs[k].Left)), old(Pose(pairs[k].Right)))
      ensures forall k :: 0 <= k < |pairs| ==> poses[k] == (Pose(pairs[k].Left), Pose(pairs[k].Right))
      ensures Contacts == WithPoints(made) && ContactsReady()
      ensures fresh(set c | c in Contacts) && Valid()
    {
      var contacts;
      contacts, pairs, made, poses := Collide(sqrt, normalize);
      Install(contacts, made, pairs, poses);
    }

    /** Step, line 34 with 36-50: the list of contacts becomes the one the narrow phase built. */
    method Install(contacts: seq<Manifold>, ghost made: seq<Manifold>, ghost pairs: seq<Pair>, ghost poses: seq<(Posed, Posed)>)
      requires Valid() && Ready(contacts) && contacts == WithPoints(made) && |poses| == |pairs| && Joined(pairs)
      requires forall k :: 0 <= k < |pairs| ==> poses[k] == (Pose(pairs[k].Left), Pose(pairs[k].Right))
      modifies this`Contacts
      ensures Contacts == contacts && Contacts == WithPoints(made) && ContactsReady() && Valid() && Joined(pairs)
      ensures forall k :: 0 <= k < |pairs| ==> poses[k] == (Pose(pairs[k].Left), Pose(pairs[k].Right))
    {
      Contacts := contacts;
      forall k | 0 <= k < |pairs| ensures poses[k] == (Pose(pairs[k].Left), Pose(pairs[k].Right)) {
        PoseKept(pairs[k].Left);
        PoseKept(pairs[k].Right);
      }
    }

    /** Step, lines 52-53: IntegreationForce on every body. */
    method IntegrateForces()
      requires Distinct(Objects)
      modifies Objects`Velocity, Objects`AngularVelocity
      ensures forall k :: 0 <= k < |Objects| ==>
        (Objects[k].Velocity, Objects[k].AngularVelocity)
        == ForceIntegration(old(Objects[k].Velocity), old(Objects[k].AngularVelocity), Objects[k].InverseMass, Objects[k].InverseInertia,
                            Objects[k].Force, Objects[k].Torque, Gravity, Objects[k].GravityScale, UpdateTime)
    {
      for i := 0 to |Objects|
        invariant forall k :: 0 <= k < i ==>
          (Objects[k].Velocity, Objects[k].AngularVelocity)
          == ForceIntegration(old(Objects[k].Velocity), old(Objects[k].AngularVelocity), Objects[k].InverseMass, Objects[k].InverseInertia,
                              Objects[k].Force, Objects[k].Torque, Gravity, Objects[k].GravityScale, UpdateTime)
        invariant forall k :: i <= k < |Objects| ==>
          Objects[k].Velocity == old(Objects[k].Velocity) && Objects[k].AngularVelocity == old(Objects[k].AngularVelocity)
      {
        IntegrationForce(Objects[i]);
      }
    }

    /** Step, lines 55-56: Init on every contact. */
    method InitContacts(sqrt: real -> real)
      requires IsSqrt(sqrt)
      modifies Contacts`Restitution, Contacts`StaticFriction, Contacts`KineticFriction
      ensures forall c :: c in Contacts ==> Initialised(c, sqrt)
    {
      for i := 0 to |Contacts|
        invariant forall k :: 0 <= k < i ==> Initialised(Contacts[k], sqrt)
      {
        Contacts[i].Init(sqrt);
      }
    }

    /**
     * Step, lines 58-60: IterationTimes passes of ApplyImpluse, each over the contacts in list
     * order; applied lists the manifolds in the order they were solved.
     */
    method SolveContacts(sqrt: real -> real, normalize: Normalizer) returns (ghost applied: seq<Manifold>)
      requires NonNegative() && ContactsReady()
      modifies Objects`Velocity, Objects`AngularVelocity
      ensures NonNegative() && ContactsReady()
      ensures applied == Passes(Contacts, if IterationTimes < 0 then 0 else IterationTimes)
    {
      applied := [];
      var i := 0;
      while i < IterationTimes
        invariant 0 <= i && (if IterationTimes < 0 then i == 0 else i <= IterationTimes)
        invariant NonNegative() && ContactsReady()
        invariant applied == Passes(Contacts, i)
      {
        SolvePass(sqrt, normalize);
        applied := applied + Contacts;
        i := i + 1;
      }
    }

    /** Step, line 60: one pass of ApplyImpluse over the contacts, in list order. */
    method SolvePass(sqrt: real -> real, normalize: Normalizer)
      requires NonNegative() && ContactsReady()
      modifies Objects`Velocity, Objects`AngularVelocity
      ensures NonNegative() && ContactsReady()
    {
      for k := 0 to |Contacts|
        invariant NonNegative() && ContactsReady()
      {
        Contacts[k].ApplyImpulse(sqrt, normalize);
      }
    }

    /** Step, lines 62-63: IntegreationVelocity on every body. */
    method IntegrateVelocities()
      requires Distinct(Objects)
      modifies Objects`Position, Objects`Orientation
      ensures forall k :: 0 <= k < |Objects| ==>
        (Objects[k].Position, Objects[k].Orientation)
        == VelocityIntegration(old(Objects[k].Position), old(Objects[k].Orientation), Objects[k].Velocity, Objects[k].AngularVelocity, UpdateTime)
    {
      for i := 0 to |Objects|
        invariant forall k :: 0 <= k < i ==>
          (Objects[k].Position, Objects[k].Orientation)
          == VelocityIntegration(old(Objects[k].Position), old(Objects[k].Orientation), Objects[k].Velocity, Objects[k].AngularVelocity, UpdateTime)
        invariant forall k :: i <= k < |Objects| ==>
          Objects[k].Position == old(Objects[k].Position) && Objects[k].Orientation == old(Objects[k].Orientation)
      {
        IntegrationVelocity(Objects[i]);
      }
    }

    /** Every contact that joins body b is no deeper than the slop, so it does not move b. */
    ghost predicate Shallow(b: RigidBody)
      reads this`Contacts, Contacts`Found
    {
      forall c :: c in Contacts && (c.A == b || c.B == b) ==> c.Found.Penetration <= Slop
    }

    /**
     * Step, lines 65-66: PositionalCorrection on every contact, in list order. A body moves
     * only through a contact that joins it and whose penetration is beyond the slop.
     */
    method CorrectPositions()
      requires ContactsReady()
      modifies Objects`Position
      ensures ContactsReady()
      ensures forall b :: b in Objects && Shallow(b) ==> b.Position == old(b.Position)
    {
      for i := 0 to |Contacts|
        invariant ContactsReady()
        invariant forall b :: b in Objects && (forall k :: 0 <= k < i && (Contacts[k].A == b || Contacts[k].B == b) ==> Contacts[k].Found.Penetration <= Slop) ==>
          b.Position == old(b.Position)
      {
        Contacts[i].PositionalCorrection();
      }
    }

    /** Step, lines 68-69: ClearForce on every body. */
    method ClearForces()
      modifies Objects`Force, Objects`Torque
      ensures forall b :: b in Objects ==> b.Force == Zero && b.Torque == 0.0
    {
      for i := 0 to |Objects|
        invariant forall k :: 0 <= k < i ==> Objects[k].Force == Zero && Objects[k].Torque == 0.0
      {
        Objects[i].ClearForce();
      }
    }

    /** Step, lines 52-56: forces integrated, then the contacts initialised from their materials. */
    method Prepare(sqrt: real -> real)
      requires IsSqrt(sqrt) && Distinct(Objects) && NonNegative() && ContactsReady()
      modifies Objects`Velocity, Objects`AngularVelocity
      modifies Contacts`Restitution, Contacts`StaticFriction, Contacts`KineticFriction
      ensures NonNegative() && ContactsReady()
      ensures forall k :: 0 <= k < |Objects| ==>
        (Objects[k].Velocity, Objects[k].AngularVelocity)
        == ForceIntegration(old(Objects[k].Velocity), old(Objects[k].AngularVelocity), Objects[k].InverseMass, Objects[k].InverseInertia,
                            Objects[k].Force, Objects[k].Torque, Gravity, Objects[k].GravityScale, UpdateTime)
      ensures forall c :: c in Contacts ==> Initialised(c, sqrt)
    {
      IntegrateForces();
      InitContacts(sqrt);
    }

    /**
     * Step, lines 52-60: forces integrated, then the contacts initialised and solved
     * IterationTimes times in list order.
     */
    method Impulses(sqrt: real -> real, normalize: Normalizer) returns (ghost applied: seq<Manifold>)
      requires IsSqrt(sqrt) && Distinct(Objects) && NonNegative() && ContactsReady()
      modifies Objects`Velocity, Objects`AngularVelocity
      modifies Contacts`Restitution, Contacts`StaticFriction, Contacts`KineticFriction
      ensures NonNegative() && ContactsReady()
      ensures forall c :: c in Contacts ==> Initialised(c, sqrt)
      ensures applied == Passes(Contacts, if IterationTimes < 0 then 0 else IterationTimes)
    {
      Prepare(sqrt);
      applied := SolveContacts(sqrt, normalize);
    }

    /**
     * Step, lines 62-69: velocities integrated, positions corrected, forces cleared. A body
     * that no contact deeper than the slop joins ends where its velocity takes it.
     */
    method Settle()
      requires Distinct(Objects) && ContactsReady()
      modifies Objects`Position, Objects`Orientation, Objects`Force, Objects`Torque
      ensures forall k {:trigger Shallow(Objects[k])} :: 0 <= k < |Objects| && Shallow(Objects[k]) ==>
        Objects[k].Position == Add(old(Objects[k].Position), Scale(Objects[k].Velocity, UpdateTime))
      ensures forall b :: b in Objects ==> b.Force == Zero && b.Torque == 0.0
    {
      IntegrateVelocities();
      CorrectPositions();
      ClearForces();
    }

    /**
     * Step, lines 52-69: the phases after the narrow phase. Contacts are initialised and
     * solved IterationTimes times in list order; afterwards no body has force or torque left.
     */
    method Dynamics(sqrt: real -> real, normalize: Normalizer) returns (ghost applied: seq<Manifold>)
      requires IsSqrt(sqrt) && Valid() && NonNegative() && ContactsReady()
      modifies Objects`Velocity, Objects`AngularVelocity, Objects`Position, Objects`Orientation, Objects`Force, Objects`Torque
      modifies Contacts`Restitution, Contacts`StaticFriction, Contacts`KineticFriction
      ensures Valid() && NonNegative() && ContactsReady()
      ensures forall c :: c in Contacts ==> Initialised(c, sqrt)
      ensures applied == Passes(Contacts, if IterationTimes < 0 then 0 else IterationTimes)
      ensures forall b :: b in Objects ==> b.Force == Zero && b.Torque == 0.0
    {
      applied := Impulses(sqrt, normalize);
      Finish(sqrt);
    }

    /** Settle keeps the bodies' shapes, masses and the contacts' materials. */
    method Finish(sqrt: real -> real)
      requires IsSqrt(sqrt) && Valid() && NonNegative() && ContactsReady()
      requires forall c :: c in Contacts ==> Initialised(c, sqrt)
      modifies Objects`Position, Objects`Orientation, Objects`Force, Objects`Torque
      ensures Valid() && NonNegative() && ContactsReady()
      ensures forall c :: c in Contacts ==> Initialised(c, sqrt)
      ensures forall b :: b in Objects ==> b.Force == Zero && b.Torque == 0.0
    {
      Settle();
    }

    /**
     * Dynamics after the narrow phase that made the manifolds made: the contacts are still
     * those of them that found points, and what each found is unchanged.
     */
    method Advance(sqrt: real -> real, normalize: Normalizer, ghost pairs: seq<Pair>, ghost made: seq<Manifold>,
                   ghost poses: seq<(Posed, Posed)>) returns (ghost applied: seq<Manifold>)
      requires IsSqrt(sqrt) && Valid() && NonNegative() && ContactsReady() && Contacts == WithPoints(made)
      requires Joined(pairs) && Narrowed(pairs, poses, made, sqrt, normalize) && |poses| == |pairs|
      requires forall k :: 0 <= k < |pairs| ==> poses[k] == (Pose(pairs[k].Left), Pose(pairs[k].Right))
      modifies Objects`Velocity, Objects`AngularVelocity, Objects`Position, Objects`Orientation, Objects`Force, Objects`Torque
      modifies Contacts`Restitution, Contacts`StaticFriction, Contacts`KineticFriction
      ensures Valid() && NonNegative() && ContactsReady() && Contacts == WithPoints(made)
      ensures Joined(pairs) && Narrowed(pairs, poses, made, sqrt, normalize)
      ensures forall k :: 0 <= k < |pairs| ==>
        && poses[k].0 == Pose(pairs[k].Left).(Position := poses[k].0.Position)
        && poses[k].1 == Pose(pairs[k].Right).(Position := poses[k].1.Position)
      ensures forall c :: c in Contacts ==> Initialised(c, sqrt)
      ensures applied == Passes(Contacts, if IterationTimes < 0 then 0 else IterationTimes)
      ensures forall b :: b in Objects ==> b.Force == Zero && b.Torque == 0.0
    {
      assert Recorded(pairs, poses, made, sqrt, normalize);
      applied := Move(sqrt, normalize, pairs, poses);
      assert Recorded(pairs, poses, made, sqrt, normalize);
    }

    /** What the narrow phase left: the contacts it kept, the pairs it joined and what it found for them. */
    ghost predicate Recorded(pairs: seq<Pair>, poses: seq<(Posed, Posed)>, made: seq<Manifold>, sqrt: real -> real,
                             normalize: Normalizer)
      requires IsSqrt(sqrt)
      reads this`Contacts, this`Objects, Objects`InverseMass, made`Found
    {
      Contacts == WithPoints(made) && Joined(pairs) && Narrowed(pairs, poses, made, sqrt, normalize)
    }

    /** Dynamics moves the bodies of pairs, posed as poses, without changing their shapes. */
    method Move(sqrt: real -> real, normalize: Normalizer, ghost pairs: seq<Pair>, ghost poses: seq<(Posed, Posed)>)
      returns (ghost applied: seq<Manifold>)
      requires IsSqrt(sqrt) && Valid() && NonNegative() && ContactsReady() && |poses| == |pairs|
      requires forall k :: 0 <= k < |pairs| ==> poses[k] == (Pose(pairs[k].Left), Pose(pairs[k].Right))
      modifies Objects`Velocity, Objects`AngularVelocity, Objects`Position, Objects`Orientation, Objects`Force, Objects`Torque
      modifies Contacts`Restitution, Contacts`StaticFriction, Contacts`KineticFriction
      ensures Valid() && NonNegative() && ContactsReady()
      ensures forall k :: 0 <= k < |pairs| ==>
        && poses[k].0 == Pose(pairs[k].Left).(Position := poses[k].0.Position)
        && poses[k].1 == Pose(pairs[k].Right).(Position := poses[k].1.Position)
      ensures forall c :: c in Contacts ==> Initialised(c, sqrt)
      ensures applied == Passes(Contacts, if IterationTimes < 0 then 0 else IterationTimes)
      ensures forall b :: b in Objects ==> b.Force == Zero && b.Torque == 0.0
    {
      applied := Dynamics(sqrt, normalize);
      forall k | 0 <= k < |pairs|
        ensures poses[k].0 == Pose(pairs[k].Left).(Position := poses[k].0.Position)
        ensures poses[k].1 == Pose(pairs[k].Right).(Position := poses[k].1.Position)
      {
        PoseMoved(pairs[k].Left);
        PoseMoved(pairs[k].Right);
      }
    }

    /**
     * Step, lines 34-69, after the caches are refreshed: the contacts found anew, then every
     * later phase in order.
     */
    method Resolve(sqrt: real -> real, normalize: Normalizer)
      returns (ghost pairs: seq<Pair>, ghost made: seq<Manifold>, ghost poses: seq<(Posed, Posed)>, ghost applied: seq<Manifold>)
      requires IsSqrt(sqrt) && Valid() && NonNegative()
      modifies this`Contacts
      modifies Objects`Velocity, Objects`AngularVelocity, Objects`Position, Objects`Orientation, Objects`Force, Objects`Torque
      ensures var cs := old(CollidersOf(Objects)); pairs == PairsOf(cs, Kept(Boxes(cs), old(InverseMasses(cs))))
      ensures Joined(pairs) && |made| == |pairs| && forall k :: 0 <= k < |pairs| ==> fresh(made[k])
      ensures Narrowed(pairs, poses, made, sqrt, normalize)
      ensures forall k :: 0 <= k < |pairs| ==>
        && poses[k].0 == Pose(pairs[k].Left).(Position := poses[k].0.Position)
        && poses[k].1 == Pose(pairs[k].Right).(Position := poses[k].1.Position)
      ensures forall k :: 0 <= k < |pairs| ==>
        poses[k].0.Position == old(pairs[k].Left.Position) && poses[k].1.Position == old(pairs[k].Right.Position)
      ensures Contacts == WithPoints(made) && ContactsReady() && NonNegative() && Valid()
      ensures forall c :: c in Contacts ==> Initialised(c, sqrt)
      ensures applied == Passes(Contacts, if IterationTimes < 0 then 0 else IterationTimes)
      ensures forall b :: b in Objects ==> b.Force == Zero && b.Torque == 0.0
    {
      pairs, made, poses := FindContacts(sqrt, normalize);
      applied := Advance(sqrt, normalize, pairs, made, poses);
    }

    /**
     * Scene.Step. Afterwards the contacts are exactly the new manifolds, one per broad-phase
     * pair in order, that the narrow phase gave points; each was initialised from its
     * materials and solved IterationTimes times in list order; no body has force or torque left.
     */
    method Step(sqrt: real -> real, normalize: Normalizer, rotate: Rotation)
      returns (ghost colliders: seq<Collider>, ghost pairs: seq<Pair>, ghost made: seq<Manifold>,
               ghost poses: seq<(Posed, Posed)>, ghost applied: seq<Manifold>)
      requires IsSqrt(sqrt) && Valid() && NonNegative()
      modifies this`Contacts, Polygons()`LastOrientation, Polygons()`TransAABB, Polygons()`TransVertices, Polygons()`TransNormals
      modifies Objects`Velocity, Objects`AngularVelocity, Objects`Position, Objects`Orientation, Objects`Force, Objects`Torque
      ensures Valid() && Objects == old(Objects) && NonNegative()
      ensures |colliders| == |Objects| && forall k :: 0 <= k < |Objects| ==> colliders[k].Body == Objects[k]
      ensures colliders == old(OrientedColliders(Objects, rotate))
      ensures pairs == PairsOf(colliders, Kept(Boxes(colliders), InverseMasses(colliders)))
      ensures Joined(pairs) && |made| == |pairs| && forall k :: 0 <= k < |pairs| ==> fresh(made[k])
      ensures Narrowed(pairs, poses, made, sqrt, normalize)
      ensures forall k :: 0 <= k < |pairs| ==>
        && poses[k].0 == Pose(pairs[k].Left).(Position := poses[k].0.Position)
        && poses[k].1 == Pose(pairs[k].Right).(Position := poses[k].1.Position)
      ensures forall k :: 0 <= k < |pairs| ==>
        poses[k].0.Position == old(pairs[k].Left.Position) && poses[k].1.Position == old(pairs[k].Right.Position)
      ensures Contacts == WithPoints(made) && ContactsReady()
      ensures forall c :: c in Contacts ==> Initialised(c, sqrt)
      ensures applied == Passes(Contacts, if IterationTimes < 0 then 0 else IterationTimes)
      ensures forall b :: b in Objects ==> b.Force == Zero && b.Torque == 0.0
    {
      Orient(rotate);
      assert forall b :: b in Objects ==> b.Position == old(b.Position);
      colliders, pairs, made, poses, applied := Simulate(sqrt, normalize);
    }

    /**
     * Step, lines 34-69, once the caches are set: the colliders of the bodies, the broad
     * phase's pairs over them, and every later phase, as Step states them.
     */
    method Simulate(sqrt: real -> real, normalize: Normalizer)
      returns (ghost colliders: seq<Collider>, ghost pairs: seq<Pair>, ghost made: seq<Manifold>,
               ghost poses: seq<(Posed, Posed)>, ghost applied: seq<Manifold>)
      requires IsSqrt(sqrt) && Valid() && NonNegative()
      modifies this`Contacts
      modifies Objects`Velocity, Objects`AngularVelocity, Objects`Position, Objects`Orientation, Objects`Force, Objects`Torque
      ensures Valid() && Objects == old(Objects) && NonNegative()
      ensures colliders == old(CollidersOf(Objects))
      ensures |colliders| == |Objects| && forall k :: 0 <= k < |Objects| ==> colliders[k].Body == Objects[k]
      ensures pairs == PairsOf(colliders, Kept(Boxes(colliders), InverseMasses(colliders)))
      ensures Joined(pairs) && |made| == |pairs| && forall k :: 0 <= k < |pairs| ==> fresh(made[k])
      ensures Narrowed(pairs, poses, made, sqrt, normalize)
      ensures forall k :: 0 <= k < |pairs| ==>
        && poses[k].0 == Pose(pairs[k].Left).(Position := poses[k].0.Position)
        && poses[k].1 == Pose(pairs[k].Right).(Position := poses[k].1.Position)
      ensures forall k :: 0 <= k < |pairs| ==>
        poses[k].0.Position == old(pairs[k].Left.Position) && poses[k].1.Position == old(pairs[k].Right.Position)
      ensures Contacts == WithPoints(made) && ContactsReady()
      ensures forall c :: c in Contacts ==> Initialised(c, sqrt)
      ensures applied == Passes(Contacts, if IterationTimes < 0 then 0 else IterationTimes)
      ensures forall b :: b in Objects ==> b.Force == Zero && b.Torque == 0.0
    {
      colliders := CollidersOf(Objects);
      CollidersOfBodies(Objects);
      ghost var masses := InverseMasses(colliders);
      pairs, made, poses, applied := Resolve(sqrt, normalize);
      assert InverseMasses(colliders) == masses;
    }
  }

  /**
   * The broad phase over the scene's bodies pairs two different bodies of the scene that
   * are not both immovable.
   */
  lemma PairsJoinBodies(cs: seq<Collider>, os: seq<RigidBody>)
    requires |cs| == |os| && Distinct(os)
    requires forall k :: 0 <= k < |os| ==> cs[k].Body == os[k]
    ensures var pairs := PairsOf(cs, Kept(Boxes(cs), InverseMasses(cs)));
      forall k :: 0 <= k < |pairs| ==>
        && pairs[k].Left in os && pairs[k].Right in os && pairs[k].Left != pairs[k].Right
        && !EpsilonEqual(pairs[k].Left.InverseMass + pairs[k].Right.InverseMass, 0.0)
  {
    var idx := Kept(Boxes(cs), InverseMasses(cs));
    forall k | 0 <= k < |idx|
      ensures !EpsilonEqual(InverseMasses(cs)[idx[k].0] + InverseMasses(cs)[idx[k].1], 0.0)
    {
      assert idx[k] in idx;
      KeptSound(Boxes(cs), InverseMasses(cs), idx[k].0, idx[k].1);
    }
  }
}
