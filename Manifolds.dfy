/**
 * Manifold.cs: a pair of bodies the broad phase found with overlapping boxes, the contact the
 * narrow phase computed for them, and the sequential-impulse solver that acts on the pair:
 * combined material coefficients, impulses at each contact point, and a positional
 * correction that pushes the bodies apart.
 */
module Manifolds {
  import opened PhyMath
  import opened Vectors
  import opened Vector2Ext
  import opened Bodies
  import opened Collision

  /** k_percent: the share of the penetration beyond the slop that one correction removes. */
  const Percent: real := 0.2
  /** k_slop: the penetration left uncorrected so resting contacts do not jitter. */
  const Slop: real := 0.01

  /** The mean of two restitutions lies between them, at equal distance from both. */
  function MeanRestitution(a: real, b: real): (r: real)
    ensures r - a == b - r
    ensures (a <= r <= b) || (b <= r <= a)
  {
    (a + b) / 2.0
  }

  /**
   * The friction coefficient of a pair of materials, sqrt(a² + b²): never below either
   * coefficient's magnitude.
   */
  function CombinedFriction(a: real, b: real, sqrt: real -> real): (r: real)
    requires IsSqrt(sqrt)
    ensures r >= Abs(a) && r >= Abs(b)
    ensures r * r == a * a + b * b
  {
    SqrtOfSumOfSquares(sqrt, a, b);
    SqrtOfSumOfSquares(sqrt, b, a);
    assert b * b + a * a == a * a + b * b;
    SquareNonNegative(a);
    SquareNonNegative(b);
    sqrt(a * a + b * b)
  }

  /**
   * The positional correction along `normal` for penetration `penetration` between bodies
   * whose inverse masses sum to `inverseMassSum`: zero up to the slop, then a fixed share of
   * the excess, per unit of inverse mass.
   */
  function Correction(penetration: real, inverseMassSum: real, normal: Vector2): (c: Vector2)
    requires inverseMassSum != 0.0
    ensures penetration <= Slop ==> c == Zero
    ensures penetration > Slop ==> c == Scale(normal, (penetration - Slop) / inverseMassSum * Percent)
  {
    Scale(normal, Max(penetration - Slop, 0.0) / inverseMassSum * Percent)
  }

  /**
   * Moving body A by -c / mA and body B by c / mB leaves the centre of mass where it was:
   * the mass-weighted sum of the positions is unchanged.
   */
  lemma CorrectionKeepsCentreOfMass(massA: real, inverseMassA: real, posA: Vector2,
                                    massB: real, inverseMassB: real, posB: Vector2, c: Vector2)
    requires massA * inverseMassA == 1.0 && massB * inverseMassB == 1.0
    ensures var newA, newB := Sub(posA, Scale(c, inverseMassA)), Add(posB, Scale(c, inverseMassB));
      Add(Scale(newA, massA), Scale(newB, massB)) == Add(Scale(posA, massA), Scale(posB, massB))
  {
    MovedBy(posA.X, -c.X, massA, inverseMassA);
    MovedBy(posA.Y, -c.Y, massA, inverseMassA);
    MovedBy(posB.X, c.X, massB, inverseMassB);
    MovedBy(posB.Y, c.Y, massB, inverseMassB);
  }

  /** One coordinate moved by d / m, weighted by m: the weighted coordinate moves by d. */
  lemma MovedBy(p: real, d: real, mass: real, inverseMass: real)
    requires mass * inverseMass == 1.0
    ensures (p + d * inverseMass) * mass == p * mass + d
    ensures (p - -d * inverseMass) * mass == p * mass + d
  {
    calc {
      (p + d * inverseMass) * mass;
      p * mass + d * (mass * inverseMass);
      p * mass + d;
    }
  }

  /** The linear and angular velocities of the two bodies of a manifold: what the solver changes. */
  datatype Motion = Motion(VelocityA: Vector2, SpinA: real, VelocityB: Vector2, SpinB: real)

  /** What the solver reads of a manifold and its bodies and never changes. */
  datatype Setting = Setting(PositionA: Vector2, InverseMassA: real, InverseInertiaA: real,
                             PositionB: Vector2, InverseMassB: real, InverseInertiaB: real,
                             Normal: Vector2, Restitution: real, StaticFriction: real, KineticFriction: real,
                             Count: nat)

  /**
   * The inverse masses and inertias are non-negative (reciprocals of non-negative masses,
   * zero for infinite ones), their sum is not within Epsilon of zero, and there is a point.
   */
  ghost predicate Physical(k: Setting)
  {
    && k.InverseMassA >= 0.0 && k.InverseMassB >= 0.0
    && k.InverseInertiaA >= 0.0 && k.InverseInertiaB >= 0.0
    && !EpsilonEqual(k.InverseMassA + k.InverseMassB, 0.0)
    && k.Count > 0
  }

  /** The velocity of B relative to A at the contact point, arms ra and rb from the centres. */
  function RelativeVelocity(s: Motion, ra: Vector2, rb: Vector2): Vector2
  {
    Add(Sub(s.VelocityB, s.VelocityA), Sub(CrossScalarVector(s.SpinB, rb), CrossScalarVector(s.SpinA, ra)))
  }

  /**
   * The effective inverse mass of the pair along `dir` at arms ra and rb: positive for a
   * physical setting, so the solver never divides by zero.
   */
  function InverseMassAlong(k: Setting, ra: Vector2, rb: Vector2, dir: Vector2): (r: real)
    ensures Physical(k) ==> r > 0.0
  {
    var ca, cb := Cross(ra, dir), Cross(rb, dir);
    EpsilonPositive();
    WeightedSquare(ca, k.InverseInertiaA);
    WeightedSquare(cb, k.InverseInertiaB);
    k.InverseMassA + k.InverseMassB + ca * ca * k.InverseInertiaA + cb * cb * k.InverseInertiaB
  }

  /**
   * The normal impulse j at one contact point, shared out over the manifold's points. A point
   * whose bodies approach (normalLen <= 0) with restitution at least -1 gets j >= 0: the
   * impulse pushes the bodies apart, never together.
   */
  function NormalImpulse(k: Setting, ra: Vector2, rb: Vector2, normalLen: real): (j: real)
    requires Physical(k)
    ensures normalLen <= 0.0 && k.Restitution >= -1.0 ==> j >= 0.0
  {
    var denominator := InverseMassAlong(k, ra, rb, k.Normal);
    var numerator := -(k.Restitution + 1.0) * normalLen;
    ImpulseSign(k.Restitution, normalLen, denominator, k.Count as real);
    numerator / denominator / k.Count as real
  }

  lemma WeightedSquare(c: real, weight: real)
    ensures weight >= 0.0 ==> c * c * weight >= 0.0
  {
    SquareNonNegative(c);
    if weight >= 0.0 {
      MulNonNegative(c * c, weight);
    }
  }

  lemma ImpulseSign(restitution: real, normalLen: real, denominator: real, count: real)
    requires denominator > 0.0 && count > 0.0
    ensures normalLen <= 0.0 && restitution >= -1.0 ==> -(restitution + 1.0) * normalLen / denominator / count >= 0.0
  {
    if normalLen <= 0.0 && restitution >= -1.0 {
      var numerator := -(restitution + 1.0) * normalLen;
      MulNonNegative(restitution + 1.0, -normalLen);
      QuotientNonNegative(numerator, denominator);
      QuotientNonNegative(numerator / denominator, count);
    }
  }

  lemma QuotientNonNegative(x: real, y: real)
    requires x >= 0.0 && y > 0.0
    ensures x / y >= 0.0
  {
  }

  /**
   * Coulomb's law as the solver applies it: the tangent impulse jt when it is within the
   * static cone |jt| < j·us, else kinetic friction -(j·uk). Either way its magnitude is at
   * most j times the larger coefficient.
   */
  function FrictionScalar(jt: real, j: real, us: real, uk: real): (f: real)
    ensures Abs(jt) < j * us ==> f == jt
    ensures Abs(jt) >= j * us ==> f == -(j * uk)
    ensures j >= 0.0 && us >= 0.0 && uk >= 0.0 ==> Abs(f) <= j * Max(us, uk)
  {
    FrictionBounds(j, us, uk);
    if Abs(jt) < j * us then jt else -(j * uk)
  }

  lemma FrictionBounds(j: real, us: real, uk: real)
    ensures j >= 0.0 && us >= 0.0 && uk >= 0.0 ==>
      j * us <= j * Max(us, uk) && 0.0 <= j * uk <= j * Max(us, uk)
  {
    if j >= 0.0 && us >= 0.0 && uk >= 0.0 {
      MulNonNegative(j, Max(us, uk) - us);
      MulNonNegative(j, Max(us, uk) - uk);
      MulNonNegative(j, uk);
    }
  }

  /** The tangent direction of a relative velocity: its part across the normal, normalised. */
  function Tangent(rv: Vector2, normalLen: real, normal: Vector2, sqrt: real -> real, normalize: Normalizer): Vector2
  {
    var tangent := Sub(rv, Scale(normal, normalLen));
    if Length(tangent, sqrt) == 0.0 then Zero else normalize(tangent)
  }

  /** The velocity of a body of inverse mass `inverseMass` after `impulse` (RigidBody.ApplyImpulse). */
  function Push(v: Vector2, impulse: Vector2, inverseMass: real): Vector2
  {
    Add(v, Scale(impulse, inverseMass))
  }

  /** The angular velocity of a body after `impulse` at arm `arm` (RigidBody.ApplyImpulse). */
  function Turn(w: real, arm: Vector2, impulse: Vector2, inverseInertia: real): real
  {
    w + inverseInertia * Cross(arm, impulse)
  }

  /** A applies -impulse at arm ra and B applies impulse at arm rb (RigidBody.ApplyImpulse on each). */
  function Exchange(s: Motion, k: Setting, ra: Vector2, rb: Vector2, impulse: Vector2): Motion
  {
    Motion(Push(s.VelocityA, Neg(impulse), k.InverseMassA), Turn(s.SpinA, ra, Neg(impulse), k.InverseInertiaA),
           Push(s.VelocityB, impulse, k.InverseMassB), Turn(s.SpinB, rb, impulse, k.InverseInertiaB))
  }

  /** Two pushes of one body are one push of the summed impulse. */
  lemma PushAdditive(v: Vector2, i1: Vector2, i2: Vector2, inverseMass: real)
    ensures Push(Push(v, i1, inverseMass), i2, inverseMass) == Push(v, Add(i1, i2), inverseMass)
  {
    assert i1.X * inverseMass + i2.X * inverseMass == (i1.X + i2.X) * inverseMass;
    assert i1.Y * inverseMass + i2.Y * inverseMass == (i1.Y + i2.Y) * inverseMass;
  }

  /** Two turns at the same arm are one turn of the summed impulse. */
  lemma TurnAdditive(w: real, arm: Vector2, i1: Vector2, i2: Vector2, inverseInertia: real)
    ensures Turn(Turn(w, arm, i1, inverseInertia), arm, i2, inverseInertia) == Turn(w, arm, Add(i1, i2), inverseInertia)
  {
    var c1, c2, c := Cross(arm, i1), Cross(arm, i2), Cross(arm, Add(i1, i2));
    assert c1 + c2 == c;
    assert inverseInertia * c1 + inverseInertia * c2 == inverseInertia * c;
  }

  /** Two exchanges at the same arms are one exchange of the summed impulse. */
  lemma ExchangeAdditive(s: Motion, k: Setting, ra: Vector2, rb: Vector2, i1: Vector2, i2: Vector2)
    ensures Exchange(Exchange(s, k, ra, rb, i1), k, ra, rb, i2) == Exchange(s, k, ra, rb, Add(i1, i2))
  {
    assert Neg(Add(i1, i2)) == Add(Neg(i1), Neg(i2));
    PushAdditive(s.VelocityA, Neg(i1), Neg(i2), k.InverseMassA);
    TurnAdditive(s.SpinA, ra, Neg(i1), Neg(i2), k.InverseInertiaA);
    PushAdditive(s.VelocityB, i1, i2, k.InverseMassB);
    TurnAdditive(s.SpinB, rb, i1, i2, k.InverseInertiaB);
  }

  /**
   * An exchange between two bodies of finite non-zero mass conserves linear momentum: the
   * mass-weighted sum of the velocities is unchanged.
   */
  lemma ExchangeConservesMomentum(s: Motion, k: Setting, ra: Vector2, rb: Vector2, impulse: Vector2,
                                  massA: real, massB: real)
    requires massA * k.InverseMassA == 1.0 && massB * k.InverseMassB == 1.0
    ensures var t := Exchange(s, k, ra, rb, impulse);
      Momentum(t, massA, massB) == Momentum(s, massA, massB)
  {
    var va, vb, imA, imB := s.VelocityA, s.VelocityB, k.InverseMassA, k.InverseMassB;
    assert (va.X + -impulse.X * imA) * massA == va.X * massA - impulse.X * (massA * imA);
    assert (va.Y + -impulse.Y * imA) * massA == va.Y * massA - impulse.Y * (massA * imA);
    assert (vb.X + impulse.X * imB) * massB == vb.X * massB + impulse.X * (massB * imB);
    assert (vb.Y + impulse.Y * imB) * massB == vb.Y * massB + impulse.Y * (massB * imB);
  }

  /** The linear momentum of the pair. */
  function Momentum(s: Motion, massA: real, massB: real): Vector2
  {
    Add(Scale(s.VelocityA, massA), Scale(s.VelocityB, massB))
  }

  /** The relative velocity along the normal at contact point p (normal_len). */
  function NormalSpeed(s: Motion, k: Setting, p: Vector2): real
  {
    Dot(RelativeVelocity(s, Sub(p, k.PositionA), Sub(p, k.PositionB)), k.Normal)
  }

  /** The tangent direction at contact point p. */
  function TangentAt(s: Motion, k: Setting, p: Vector2, sqrt: real -> real, normalize: Normalizer): Vector2
  {
    Tangent(RelativeVelocity(s, Sub(p, k.PositionA), Sub(p, k.PositionB)), NormalSpeed(s, k, p), k.Normal,
            sqrt, normalize)
  }

  /** The tangent impulse jt at contact point p, shared out over the manifold's points. */
  function TangentImpulse(s: Motion, k: Setting, p: Vector2, sqrt: real -> real, normalize: Normalizer): real
    requires Physical(k)
  {
    var ra, rb := Sub(p, k.PositionA), Sub(p, k.PositionB);
    var tangent := TangentAt(s, k, p, sqrt, normalize);
    -Dot(tangent, RelativeVelocity(s, ra, rb)) / InverseMassAlong(k, ra, rb, tangent) / k.Count as real
  }

  /** The normal impulse vector j·normal at contact point p. */
  function NormalImpulseAt(s: Motion, k: Setting, p: Vector2): Vector2
    requires Physical(k)
  {
    Scale(k.Normal, NormalImpulse(k, Sub(p, k.PositionA), Sub(p, k.PositionB), NormalSpeed(s, k, p)))
  }

  /** The friction impulse vector at contact point p. */
  function FrictionImpulseAt(s: Motion, k: Setting, p: Vector2, sqrt: real -> real, normalize: Normalizer): Vector2
    requires Physical(k)
  {
    var j := NormalImpulse(k, Sub(p, k.PositionA), Sub(p, k.PositionB), NormalSpeed(s, k, p));
    Scale(TangentAt(s, k, p, sqrt, normalize),
          FrictionScalar(TangentImpulse(s, k, p, sqrt, normalize), j, k.StaticFriction, k.KineticFriction))
  }

  /**
   * What the solver does at a point where the bodies approach, given the normal impulse, the
   * tangent impulse jt and the friction impulse there: the normal exchange, then it stops when
   * jt is zero and otherwise carries on after the friction exchange.
   */
  function Stage(s: Motion, k: Setting, ra: Vector2, rb: Vector2, normal: Vector2, jt: real, friction: Vector2): (Motion, bool)
  {
    var afterNormal := Exchange(s, k, ra, rb, normal);
    if jt == 0.0 then (afterNormal, true) else (Exchange(afterNormal, k, ra, rb, friction), false)
  }

  /** The impulse a Stage exchanges: the normal impulse, plus the friction impulse when jt is not zero. */
  function StageImpulse(normal: Vector2, jt: real, friction: Vector2): Vector2
  {
    if jt == 0.0 then normal else Add(normal, friction)
  }

  /** A Stage is one exchange of its StageImpulse. */
  lemma StageIsExchange(s: Motion, k: Setting, ra: Vector2, rb: Vector2, normal: Vector2, jt: real, friction: Vector2)
    ensures Stage(s, k, ra, rb, normal, jt, friction).0 == Exchange(s, k, ra, rb, StageImpulse(normal, jt, friction))
  {
    if jt != 0.0 {
      ExchangeAdditive(s, k, ra, rb, normal, friction);
    }
  }

  /**
   * The solver's work at contact point p (one pass of the loop in Manifold.ApplyImpluse):
   * the new motion and whether the solver stops there. It stops without change when the
   * bodies separate at p, and after the normal impulse when there is no tangent impulse;
   * otherwise the friction impulse follows the normal one.
   */
  function PointImpulse(s: Motion, k: Setting, p: Vector2, sqrt: real -> real, normalize: Normalizer): (Motion, bool)
    requires Physical(k)
  {
    if NormalSpeed(s, k, p) > 0.0 then (s, true)
    else Stage(s, k, Sub(p, k.PositionA), Sub(p, k.PositionB), NormalImpulseAt(s, k, p),
               TangentImpulse(s, k, p, sqrt, normalize), FrictionImpulseAt(s, k, p, sqrt, normalize))
  }

  /**
   * The impulse PointImpulse exchanges at p: none when the bodies separate there, the normal
   * impulse alone when there is no tangent impulse, else normal plus friction impulse. The
   * whole change at p is one equal-and-opposite exchange of it.
   */
  function TotalImpulse(s: Motion, k: Setting, p: Vector2, sqrt: real -> real, normalize: Normalizer): (impulse: Vector2)
    requires Physical(k)
    ensures PointImpulse(s, k, p, sqrt, normalize).0 ==
            Exchange(s, k, Sub(p, k.PositionA), Sub(p, k.PositionB), impulse)
  {
    var ra, rb := Sub(p, k.PositionA), Sub(p, k.PositionB);
    if NormalSpeed(s, k, p) > 0.0 then
      ExchangeZero(s, k, ra, rb);
      Zero
    else
      var normal, jt, friction := NormalImpulseAt(s, k, p), TangentImpulse(s, k, p, sqrt, normalize),
                                  FrictionImpulseAt(s, k, p, sqrt, normalize);
      StageIsExchange(s, k, ra, rb, normal, jt, friction);
      StageImpulse(normal, jt, friction)
  }

  /** Exchanging no impulse changes nothing. */
  lemma ExchangeZero(s: Motion, k: Setting, ra: Vector2, rb: Vector2)
    ensures Exchange(s, k, ra, rb, Zero) == s
  {
  }

  /**
   * Manifold.ApplyImpluse's loop over the points ps from motion s: PointImpulse at each point
   * in order, up to and including the first point at which the solver stops.
   */
  function Impulses(s: Motion, k: Setting, ps: seq<Vector2>, sqrt: real -> real, normalize: Normalizer): Motion
    requires Physical(k)
    decreases |ps|
  {
    if |ps| == 0 then s
    else
      var (next, stop) := PointImpulse(s, k, ps[0], sqrt, normalize);
      if stop then next else Impulses(next, k, ps[1..], sqrt, normalize)
  }

  /** The solver stops at the first point where the bodies separate, and changes nothing there. */
  lemma ImpulsesStopWhenSeparating(s: Motion, k: Setting, ps: seq<Vector2>, sqrt: real -> real, normalize: Normalizer)
    requires Physical(k) && |ps| > 0 && NormalSpeed(s, k, ps[0]) > 0.0
    ensures Impulses(s, k, ps, sqrt, normalize) == s
  {
  }

  /**
   * However many points the solver works through, between bodies of finite non-zero mass the
   * linear momentum of the pair is what it was.
   */
  lemma {:induction false} ImpulsesConserveMomentum(s: Motion, k: Setting, ps: seq<Vector2>, sqrt: real -> real,
                                                    normalize: Normalizer, massA: real, massB: real)
    requires Physical(k)
    requires massA * k.InverseMassA == 1.0 && massB * k.InverseMassB == 1.0
    ensures Momentum(Impulses(s, k, ps, sqrt, normalize), massA, massB) == Momentum(s, massA, massB)
    decreases |ps|
  {
    if |ps| > 0 {
      var p := ps[0];
      var impulse := TotalImpulse(s, k, p, sqrt, normalize);
      ExchangeConservesMomentum(s, k, Sub(p, k.PositionA), Sub(p, k.PositionB), impulse, massA, massB);
      var (next, stop) := PointImpulse(s, k, p, sqrt, normalize);
      if !stop {
        ImpulsesConserveMomentum(next, k, ps[1..], sqrt, normalize, massA, massB);
      }
    }
  }

  /** The normal, penetration and contact points of a new manifold: zero, zero and null. */
  const Unsolved: Contact := Contact(Zero, 0.0, None)

  /** Manifold: a pair of bodies and what the narrow phase and the solver keep about it. */
  class Manifold {
    const A: RigidBody
    const B: RigidBody
    /** The normal, penetration and contact points (normal, penetration, contact_points) the narrow phase wrote last. */
    var Found: Contact
    var Restitution: real
    var StaticFriction: real
    var KineticFriction: real

    /** The manifold of bodies a and b, with the default (zero and null) fields of a new object. */
    constructor (a: RigidBody, b: RigidBody)
      ensures A == a && B == b && Found == Unsolved
      ensures Restitution == 0.0 && StaticFriction == 0.0 && KineticFriction == 0.0
    {
      A := a;
      B := b;
      Found := Contact(Zero, 0.0, None);
      Restitution := 0.0;
      StaticFriction := 0.0;
      KineticFriction := 0.0;
    }

    /** The velocities of the two bodies. */
    function Velocities(): Motion
      reads A, B
    {
      Motion(A.Velocity, A.AngularVelocity, B.Velocity, B.AngularVelocity)
    }

    /** What ApplyImpluse reads and does not change. */
    function CurrentSetting(): Setting
      reads this, A, B
    {
      Setting(A.Position, A.InverseMass, A.InverseInertia, B.Position, B.InverseMass, B.InverseInertia,
              Found.Normal, Restitution, StaticFriction, KineticFriction,
              if Found.Points.Some? then |Found.Points.value| else 0)
    }

    /**
     * Manifold.Solve: forget any earlier contact points, then let the routine for the two
     * shape kinds compute the contact from the bodies as they are.
     */
    method Solve(sqrt: real -> real, normalize: Normalizer)
      requires IsSqrt(sqrt) && A.Linked() && B.Linked()
      modifies this`Found
      ensures Collides(old(Found).(Points := None), Found, old(Pose(A)), old(Pose(B)), sqrt, normalize)
    {
      ghost var pa, pb := Pose(A), Pose(B);
      var r := Dispatch(Found.(Points := None), A, B, pa, pb, sqrt, normalize);
      Found := r;
    }

    /**
     * Manifold.Init: restitution is the mean of the two materials', each friction coefficient
     * the root of the sum of the squares of the two materials'.
     */
    method Init(sqrt: real -> real)
      requires IsSqrt(sqrt)
      modifies this`Restitution, this`StaticFriction, this`KineticFriction
      ensures Restitution == MeanRestitution(A.Material.Restitution, B.Material.Restitution)
      ensures StaticFriction == CombinedFriction(A.Material.StaticFriction, B.Material.StaticFriction, sqrt)
      ensures KineticFriction == CombinedFriction(A.Material.KineticFriction, B.Material.KineticFriction, sqrt)
    {
      var materialA, materialB := A.Material, B.Material;
      Restitution := MeanRestitution(materialA.Restitution, materialB.Restitution);
      StaticFriction := CombinedFriction(materialA.StaticFriction, materialB.StaticFriction, sqrt);
      KineticFriction := CombinedFriction(materialA.KineticFriction, materialB.KineticFriction, sqrt);
    }

    /**
     * Manifold.PositionalCorrection: move A against the normal and B along it, each by the
     * correction times its inverse mass (a static body does not move). When A and B are the
     * same body the two moves cancel out.
     */
    method PositionalCorrection()
      requires A.InverseMass + B.InverseMass != 0.0
      modifies A`Position, B`Position
      ensures var c := Correction(Found.Penetration, old(A.InverseMass + B.InverseMass), Found.Normal);
        && (A != B ==> A.Position == Sub(old(A.Position), Scale(c, A.InverseMass))
                       && B.Position == Add(old(B.Position), Scale(c, B.InverseMass)))
        && (A == B ==> A.Position == Add(Sub(old(A.Position), Scale(c, A.InverseMass)), Scale(c, A.InverseMass)))
      ensures Found.Penetration <= Slop ==> A.Position == old(A.Position) && B.Position == old(B.Position)
    {
      var normal, penetration := Found.Normal, Found.Penetration;
      var correction := Scale(normal, Max(penetration - Slop, 0.0) / (A.InverseMass + B.InverseMass) * Percent);
      A.Position := Sub(A.Position, Scale(correction, A.InverseMass));
      B.Position := Add(B.Position, Scale(correction, B.InverseMass));
    }

    /**
     * Manifold.ApplyImpluse. With inverse masses summing to within Epsilon of zero, both
     * linear velocities are zeroed and nothing else changes. Otherwise the velocities are
     * those of Impulses: each point in turn gets a normal and a friction impulse, until the
     * first point where the solver stops.
     */
    method ApplyImpulse(sqrt: real -> real, normalize: Normalizer)
      requires A != B
      requires A.InverseMass >= 0.0 && B.InverseMass >= 0.0 && A.InverseInertia >= 0.0 && B.InverseInertia >= 0.0
      requires !EpsilonEqual(A.InverseMass + B.InverseMass, 0.0) ==> Found.Points.Some?
      modifies A`Velocity, A`AngularVelocity, B`Velocity, B`AngularVelocity
      ensures EpsilonEqual(A.InverseMass + B.InverseMass, 0.0) ==>
        && A.Velocity == Zero && B.Velocity == Zero
        && A.AngularVelocity == old(A.AngularVelocity) && B.AngularVelocity == old(B.AngularVelocity)
      ensures !EpsilonEqual(A.InverseMass + B.InverseMass, 0.0) && |Found.Points.value| == 0 ==>
        Velocities() == old(Velocities())
      ensures !EpsilonEqual(A.InverseMass + B.InverseMass, 0.0) && |Found.Points.value| > 0 ==>
        Velocities() == Impulses(old(Velocities()), CurrentSetting(), Found.Points.value, sqrt, normalize)
    {
      var imSum := A.InverseMass + B.InverseMass;
      if EpsilonEqual(imSum, 0.0) {
        A.Velocity := Zero;
        B.Velocity := Zero;
        return;
      }
      var points := Found.Points.value;
      if |points| == 0 {
        return;
      }
      var k := CurrentSetting();
      ghost var start := Velocities();
      for i := 0 to |points|
        invariant CurrentSetting() == k
        invariant Impulses(start, k, points, sqrt, normalize) == Impulses(Velocities(), k, points[i..], sqrt, normalize)
      {
        assert points[i..][1..] == points[i + 1..];
        var stop := ApplyAt(points[i], k, sqrt, normalize);
        if stop {
          return;
        }
      }
    }

    /** One pass of ApplyImpluse's loop: the impulses at contact point p. */
    method ApplyAt(p: Vector2, k: Setting, sqrt: real -> real, normalize: Normalizer) returns (stop: bool)
      requires A != B && Physical(k) && k == CurrentSetting()
      modifies A`Velocity, A`AngularVelocity, B`Velocity, B`AngularVelocity
      ensures (Velocities(), stop) == PointImpulse(old(Velocities()), k, p, sqrt, normalize)
    {
      ghost var s := Velocities();
      var count := |Found.Points.value| as real;
      var normal := Found.Normal;
      var ra := Sub(p, A.Position);
      var rb := Sub(p, B.Position);
      var rv := RelativeVelocity(Velocities(), ra, rb);
      var normalLen := Dot(rv, normal);
      if normalLen > 0.0 {
        return true;
      }
      var j := NormalImpulse(k, ra, rb, normalLen);
      var impulse := Scale(normal, j);
      assert impulse == NormalImpulseAt(s, k, p);
      Trade(impulse, ra, rb, k);
      ghost var afterNormal := Velocities();
      var tangent := Tangent(rv, normalLen, normal, sqrt, normalize);
      var jt := -Dot(tangent, rv) / InverseMassAlong(k, ra, rb, tangent) / count;
      assert jt == TangentImpulse(s, k, p, sqrt, normalize);
      if jt == 0.0 {
        return true;
      }
      var frictionImpulse := Scale(tangent, FrictionScalar(jt, j, StaticFriction, KineticFriction));
      assert frictionImpulse == FrictionImpulseAt(s, k, p, sqrt, normalize);
      Trade(frictionImpulse, ra, rb, k);
      stop := false;
    }

    /** A receives -impulse at arm ra and B receives impulse at arm rb. */
    method Trade(impulse: Vector2, ra: Vector2, rb: Vector2, ghost k: Setting)
      requires A != B && k == CurrentSetting()
      modifies A`Velocity, A`AngularVelocity, B`Velocity, B`AngularVelocity
      ensures Velocities() == Exchange(old(Velocities()), k, ra, rb, impulse)
    {
      ghost var s := Velocities();
      A.ApplyImpulse(Neg(impulse), ra);
      ghost var velocityA, spinA := A.Velocity, A.AngularVelocity;
      assert velocityA == Push(s.VelocityA, Neg(impulse), k.InverseMassA);
      assert spinA == Turn(s.SpinA, ra, Neg(impulse), k.InverseInertiaA);
      B.ApplyImpulse(impulse, rb);
      assert A.Velocity == velocityA && A.AngularVelocity == spinA;
    }
  }
}
