/** Axis-aligned bounding boxes (the AABB struct of BroadPhase.cs), with screen-style Top <= Bottom. */
module Aabb {
  import opened Vectors
  import opened Extrema

  datatype AABB = AABB(Left: real, Top: real, Right: real, Bottom: real)

  /**
   * AABB.Offset: the struct method adds v.X to Left and Right and v.Y to Top and Bottom.
   * AABB is a value type, so the in-place update is the new value.
   */
  function Offset(box: AABB, v: Vector2): (r: AABB)
    ensures r.Right - r.Left == box.Right - box.Left
    ensures r.Bottom - r.Top == box.Bottom - box.Top
    ensures r.Left - box.Left == v.X && r.Top - box.Top == v.Y
  {
    AABB(box.Left + v.X, box.Top + v.Y, box.Right + v.X, box.Bottom + v.Y)
  }

  /** The closed boxes overlap on both axes. */
  predicate IsIntersection(a: AABB, b: AABB)
  {
    var axisX := a.Right - b.Left >= 0.0 && b.Right - a.Left >= 0.0;
    var axisY := a.Bottom - b.Top >= 0.0 && b.Bottom - a.Top >= 0.0;
    axisX && axisY
  }

  /** The closed box contains the point. */
  predicate Contains(box: AABB, p: Vector2)
  {
    box.Left <= p.X <= box.Right && box.Top <= p.Y <= box.Bottom
  }

  predicate WellFormed(box: AABB)
  {
    box.Left <= box.Right && box.Top <= box.Bottom
  }

  /** Two well-formed boxes intersect exactly when some point lies in both. */
  lemma IntersectionMeansCommonPoint(a: AABB, b: AABB)
    requires WellFormed(a) && WellFormed(b)
    ensures IsIntersection(a, b) <==> exists p :: Contains(a, p) && Contains(b, p)
  {
    if IsIntersection(a, b) {
      var p := Vector2(if a.Left >= b.Left then a.Left else b.Left, if a.Top >= b.Top then a.Top else b.Top);
      assert Contains(a, p) && Contains(b, p);
    }
  }

  lemma IntersectionSymmetric(a: AABB, b: AABB)
    ensures IsIntersection(a, b) <==> IsIntersection(b, a)
  {
  }

  /** Boxes that only touch along an edge count as intersecting. */
  lemma TouchingIntersects(a: AABB, b: AABB)
    requires a.Left <= a.Right && b.Left <= b.Right
    requires a.Top <= b.Bottom && b.Top <= a.Bottom
    requires a.Right == b.Left
    ensures IsIntersection(a, b)
  {
  }

  /** Moving both boxes by the same vector does not change whether they intersect. */
  lemma OffsetPreservesIntersection(a: AABB, b: AABB, v: Vector2)
    ensures IsIntersection(Offset(a, v), Offset(b, v)) <==> IsIntersection(a, b)
  {
  }

  function Xs(vs: seq<Vector2>): (r: seq<real>)
    ensures |r| == |vs| && forall i :: 0 <= i < |vs| ==> r[i] == vs[i].X
  {
    seq(|vs|, i requires 0 <= i < |vs| => vs[i].X)
  }

  function Ys(vs: seq<Vector2>): (r: seq<real>)
    ensures |r| == |vs| && forall i :: 0 <= i < |vs| ==> r[i] == vs[i].Y
  {
    seq(|vs|, i requires 0 <= i < |vs| => vs[i].Y)
  }

  function Min(s: seq<real>): real
    requires |s| > 0
  {
    s[ArgMin(s)]
  }

  function Maximum(s: seq<real>): real
    requires |s| > 0
  {
    s[ArgMax(s)]
  }

  lemma XsExtend(vs: seq<Vector2>, v: Vector2)
    ensures Xs(vs + [v]) == Xs(vs) + [v.X] && Ys(vs + [v]) == Ys(vs) + [v.Y]
  {
  }

  /** One more step of a running minimum or maximum, as the orientation cache loop takes it. */
  lemma ExtremaExtend(s: seq<real>, x: real)
    requires |s| > 0
    ensures Min(s + [x]) == if x < Min(s) then x else Min(s)
    ensures Maximum(s + [x]) == if x > Maximum(s) then x else Maximum(s)
  {
    var t := s + [x];
    assert t[..|s|] == s;
    assert t[..|s| + 1] == t;
    ArgMinStep(t, |s|);
    ArgMaxStep(t, |s|);
  }

  /** The box spanned by the least and greatest coordinates of a non-empty point list. */
  function Bounds(vs: seq<Vector2>): AABB
    requires |vs| > 0
  {
    AABB(Min(Xs(vs)), Min(Ys(vs)), Maximum(Xs(vs)), Maximum(Ys(vs)))
  }

  /** The box grown, where needed, to take in one more point. */
  function Extend(box: AABB, v: Vector2): AABB
  {
    AABB(if v.X < box.Left then v.X else box.Left, if v.Y < box.Top then v.Y else box.Top,
         if v.X > box.Right then v.X else box.Right, if v.Y > box.Bottom then v.Y else box.Bottom)
  }

  /** The box as a loop builds it: the first point, then Extend by each following point. */
  function RunningBounds(vs: seq<Vector2>): AABB
    requires |vs| > 0
  {
    if |vs| == 1 then AABB(vs[0].X, vs[0].Y, vs[0].X, vs[0].Y)
    else Extend(RunningBounds(vs[..|vs| - 1]), vs[|vs| - 1])
  }

  /** The bounds of one point more are the old bounds extended by that point. */
  lemma BoundsExtend(vs: seq<Vector2>, v: Vector2)
    requires |vs| > 0
    ensures Bounds(vs + [v]) == Extend(Bounds(vs), v)
  {
    XsExtend(vs, v);
    ExtremaExtend(Xs(vs), v.X);
    ExtremaExtend(Ys(vs), v.Y);
  }

  /** Building the box point by point yields the least and greatest coordinates. */
  lemma {:induction false} RunningBoundsIsBounds(vs: seq<Vector2>)
    requires |vs| > 0
    ensures RunningBounds(vs) == Bounds(vs)
  {
    if |vs| == 1 {
      assert Xs(vs) == [vs[0].X] && Ys(vs) == [vs[0].Y];
    } else {
      var init := vs[..|vs| - 1];
      RunningBoundsIsBounds(init);
      assert vs == init + [vs[|vs| - 1]];
      BoundsExtend(init, vs[|vs| - 1]);
    }
  }

  /** Bounds contains every point of the list. */
  lemma BoundsContain(vs: seq<Vector2>, i: nat)
    requires i < |vs|
    ensures var box := Bounds(vs);
      box.Left <= vs[i].X <= box.Right && box.Top <= vs[i].Y <= box.Bottom
  {
    var xs, ys := Xs(vs), Ys(vs);
    assert xs[i] == vs[i].X && ys[i] == vs[i].Y;
  }

  /** Each side of Bounds touches some point of the list, so no smaller box contains them all. */
  lemma BoundsAttained(vs: seq<Vector2>)
    requires |vs| > 0
    ensures var box := Bounds(vs);
      (exists i :: 0 <= i < |vs| && vs[i].X == box.Left) &&
      (exists i :: 0 <= i < |vs| && vs[i].Y == box.Top) &&
      (exists i :: 0 <= i < |vs| && vs[i].X == box.Right) &&
      (exists i :: 0 <= i < |vs| && vs[i].Y == box.Bottom)
  {
    var xs, ys := Xs(vs), Ys(vs);
    assert vs[ArgMin(xs)].X == Bounds(vs).Left;
    assert vs[ArgMin(ys)].Y == Bounds(vs).Top;
    assert vs[ArgMax(xs)].X == Bounds(vs).Right;
    assert vs[ArgMax(ys)].Y == Bounds(vs).Bottom;
  }
}
