/**
 * The broad phase (BroadPhase.cs): every body contributes its box in world coordinates, and
 * GetPairs lists the pairs of bodies worth handing to the narrow phase.
 *
 * GetPairs is specified by the list of kept index pairs, Kept, which is built the way the two
 * loops visit the pairs; the lemmas below show that Kept holds exactly the pairs i < j that
 * pass both tests, in increasing lexicographic order.
 */
module BroadPhase {
  import opened PhyMath
  import opened Vectors
  import opened Aabb
  import opened Bodies

  /** IShape.GetAABB, dispatched on the kind of shape: the box around the body's origin. */
  function ShapeAABB(shape: Shape): AABB
    reads shape.Footprint()
  {
    match shape
    case CircleShape(c) => c.GetAABB()
    case PolygonShape(p) => p.GetAABB()
  }

  /**
   * AABBCollider: a body together with its box in world coordinates. The source never updates
   * a collider after building it, so it is a value here.
   */
  datatype Collider = Collider(Body: RigidBody, Box: AABB)

  /**
   * The AABBCollider constructor: the shape's box moved to the body's position. A circle's box
   * is the square of half-width Radius around the position; a polygon whose cache is up to
   * date gets the least box around its transformed vertices placed at the position.
   */
  function NewCollider(body: RigidBody): (c: Collider)
    reads body, body.Shape.Footprint()
    ensures c.Body == body
    ensures body.Shape.CircleShape? ==> forall q ::
      Contains(c.Box, q) <==>
        (Abs(q.X - body.Position.X) <= body.Shape.circle.Radius && Abs(q.Y - body.Position.Y) <= body.Shape.circle.Radius)
    ensures body.Shape.PolygonShape? ==>
      var p := body.Shape.polygon;
      p.Valid() && (exists rotate :: p.CacheValid(rotate)) ==>
        forall i :: 0 <= i < |p.TransVertices| ==> Contains(c.Box, Add(p.TransVertices[i], body.Position))
  {
    Collider(body, Offset(ShapeAABB(body.Shape), body.Position))
  }

  /** Pair<RigidBody>: two bodies the narrow phase should test. */
  datatype Pair = Pair(Left: RigidBody, Right: RigidBody)

  /** The boxes of a list of colliders. */
  function Boxes(cs: seq<Collider>): (r: seq<AABB>)
    ensures |r| == |cs| && forall i :: 0 <= i < |cs| ==> r[i] == cs[i].Box
  {
    seq(|cs|, i requires 0 <= i < |cs| => cs[i].Box)
  }

  /** The bodies of a list of colliders. */
  ghost function Owners(cs: seq<Collider>): set<RigidBody>
  {
    set i | 0 <= i < |cs| :: cs[i].Body
  }

  /** The inverse masses of the colliders' bodies, as they stand now. */
  ghost function InverseMasses(cs: seq<Collider>): (r: seq<real>)
    reads Owners(cs)
    ensures |r| == |cs| && forall i :: 0 <= i < |cs| ==> r[i] == cs[i].Body.InverseMass
  {
    seq(|cs|, i requires 0 <= i < |cs| reads Owners(cs) => cs[i].Body.InverseMass)
  }

  /**
   * The two tests GetPairs applies to the pair (i, j): the bodies are not both immovable
   * (inverse masses summing to within Epsilon of zero), and their boxes intersect.
   */
  predicate Keeps(boxes: seq<AABB>, inverseMasses: seq<real>, i: nat, j: nat)
    requires i < |boxes| && j < |boxes| && |inverseMasses| == |boxes|
  {
    !EpsilonEqual(inverseMasses[i] + inverseMasses[j], 0.0) && IsIntersection(boxes[i], boxes[j])
  }

  /** The pairs (i, j') with i < j' < j that are kept, as the inner loop appends them. */
  function RowUpTo(boxes: seq<AABB>, inverseMasses: seq<real>, i: nat, j: nat): (r: seq<(nat, nat)>)
    requires i < j <= |boxes| && |inverseMasses| == |boxes|
    ensures forall k :: 0 <= k < |r| ==> r[k].0 == i && i < r[k].1 < j
    decreases j
  {
    if j == i + 1 then []
    else RowUpTo(boxes, inverseMasses, i, j - 1)
         + (if Keeps(boxes, inverseMasses, i, j - 1) then [(i, j - 1)] else [])
  }

  /** The pairs kept by the first i passes of the outer loop. */
  function AllUpTo(boxes: seq<AABB>, inverseMasses: seq<real>, i: nat): (r: seq<(nat, nat)>)
    requires i <= |boxes| && |inverseMasses| == |boxes|
    ensures forall k :: 0 <= k < |r| ==> r[k].0 < i && r[k].0 < r[k].1 < |boxes|
  {
    if i == 0 then []
    else AllUpTo(boxes, inverseMasses, i - 1) + RowUpTo(boxes, inverseMasses, i - 1, |boxes|)
  }

  /** Every index pair GetPairs keeps, in the order it finds them. */
  function Kept(boxes: seq<AABB>, inverseMasses: seq<real>): (r: seq<(nat, nat)>)
    requires |inverseMasses| == |boxes|
    ensures forall k :: 0 <= k < |r| ==> r[k].0 < r[k].1 < |boxes|
  {
    AllUpTo(boxes, inverseMasses, |boxes|)
  }

  /** The body pairs named by a list of index pairs. */
  function PairsOf(cs: seq<Collider>, idx: seq<(nat, nat)>): (r: seq<Pair>)
    requires forall k :: 0 <= k < |idx| ==> idx[k].0 < |cs| && idx[k].1 < |cs|
    ensures |r| == |idx|
    ensures forall k :: 0 <= k < |idx| ==> r[k] == Pair(cs[idx[k].0].Body, cs[idx[k].1].Body)
  {
    seq(|idx|, k requires 0 <= k < |idx| => Pair(cs[idx[k].0].Body, cs[idx[k].1].Body))
  }

  /** The body pairs of two index lists, one after the other. */
  lemma PairsOfConcat(cs: seq<Collider>, a: seq<(nat, nat)>, b: seq<(nat, nat)>)
    requires forall k :: 0 <= k < |a| ==> a[k].0 < |cs| && a[k].1 < |cs|
    requires forall k :: 0 <= k < |b| ==> b[k].0 < |cs| && b[k].1 < |cs|
    ensures PairsOf(cs, a + b) == PairsOf(cs, a) + PairsOf(cs, b)
  {
    var ab := a + b;
    assert forall k :: 0 <= k < |b| ==> ab[|a| + k] == b[k];
  }

  /** The pairs of the first i + 1 passes: those of the first i, then those of row i. */
  lemma PairsStep(cs: seq<Collider>, i: nat)
    requires i < |cs|
    ensures PairsOf(cs, AllUpTo(Boxes(cs), InverseMasses(cs), i + 1))
      == PairsOf(cs, AllUpTo(Boxes(cs), InverseMasses(cs), i)) + PairsOf(cs, RowUpTo(Boxes(cs), InverseMasses(cs), i, |cs|))
  {
    PairsOfConcat(cs, AllUpTo(Boxes(cs), InverseMasses(cs), i), RowUpTo(Boxes(cs), InverseMasses(cs), i, |cs|));
  }

  /** Lexicographic order on index pairs. */
  predicate Before(p: (nat, nat), q: (nat, nat))
  {
    p.0 < q.0 || (p.0 == q.0 && p.1 < q.1)
  }

  /** The second indices of a list of pairs strictly increase. */
  predicate SecondsIncrease(r: seq<(nat, nat)>)
  {
    forall k, l :: 0 <= k < l < |r| ==> r[k].1 < r[l].1
  }

  /** A list of pairs in strictly increasing lexicographic order. */
  predicate Ascending(r: seq<(nat, nat)>)
  {
    forall k, l :: 0 <= k < l < |r| ==> Before(r[k], r[l])
  }

  /** A row holds exactly the kept pairs (i, j') with i < j' < j. */
  lemma {:induction false} RowMembers(boxes: seq<AABB>, inverseMasses: seq<real>, i: nat, j: nat)
    requires i < j <= |boxes| && |inverseMasses| == |boxes|
    ensures forall q :: q in RowUpTo(boxes, inverseMasses, i, j) <==>
      q.0 == i && i < q.1 < j && Keeps(boxes, inverseMasses, i, q.1)
    decreases j
  {
    if j > i + 1 {
      RowMembers(boxes, inverseMasses, i, j - 1);
    }
  }

  /** A row lists its pairs in increasing order of the second index. */
  lemma {:induction false} RowSorted(boxes: seq<AABB>, inverseMasses: seq<real>, i: nat, j: nat)
    requires i < j <= |boxes| && |inverseMasses| == |boxes|
    ensures SecondsIncrease(RowUpTo(boxes, inverseMasses, i, j))
    decreases j
  {
    if j > i + 1 {
      RowSorted(boxes, inverseMasses, i, j - 1);
      var front := RowUpTo(boxes, inverseMasses, i, j - 1);
      var r := RowUpTo(boxes, inverseMasses, i, j);
      forall k, l | 0 <= k < l < |r|
        ensures r[k].1 < r[l].1
      {
        assert r == front + (if Keeps(boxes, inverseMasses, i, j - 1) then [(i, j - 1)] else []);
        assert r[k] == front[k];
        if l < |front| {
          assert r[l] == front[l];
        } else {
          assert r[l] == (i, j - 1);
          assert front[k].1 < j - 1;
        }
      }
    }
  }

  /** Every pair of the first i passes is kept. */
  lemma {:induction false} AllSound(boxes: seq<AABB>, inverseMasses: seq<real>, i: nat)
    requires i <= |boxes| && |inverseMasses| == |boxes|
    ensures forall k :: 0 <= k < |AllUpTo(boxes, inverseMasses, i)| ==>
      Keeps(boxes, inverseMasses, AllUpTo(boxes, inverseMasses, i)[k].0, AllUpTo(boxes, inverseMasses, i)[k].1)
  {
    if i > 0 {
      AllSound(boxes, inverseMasses, i - 1);
      RowMembers(boxes, inverseMasses, i - 1, |boxes|);
      var front := AllUpTo(boxes, inverseMasses, i - 1);
      var row := RowUpTo(boxes, inverseMasses, i - 1, |boxes|);
      var r := front + row;
      forall k | 0 <= k < |r|
        ensures Keeps(boxes, inverseMasses, r[k].0, r[k].1)
      {
        if k < |front| {
          assert r[k] == front[k] && Keeps(boxes, inverseMasses, front[k].0, front[k].1);
        } else {
          var q := row[k - |front|];
          assert r[k] == q && q in row;
          assert q.0 == i - 1 && Keeps(boxes, inverseMasses, i - 1, q.1);
        }
      }
    }
  }

  /** Every kept pair with first index below i is among the first i passes. */
  lemma {:induction false} AllComplete(boxes: seq<AABB>, inverseMasses: seq<real>, i: nat)
    requires i <= |boxes| && |inverseMasses| == |boxes|
    ensures forall q: (nat, nat) :: q.0 < i && q.0 < q.1 < |boxes| && Keeps(boxes, inverseMasses, q.0, q.1) ==>
      q in AllUpTo(boxes, inverseMasses, i)
  {
    if i > 0 {
      AllComplete(boxes, inverseMasses, i - 1);
      RowMembers(boxes, inverseMasses, i - 1, |boxes|);
      var front := AllUpTo(boxes, inverseMasses, i - 1);
      var row := RowUpTo(boxes, inverseMasses, i - 1, |boxes|);
      forall q: (nat, nat) | q.0 < i && q.0 < q.1 < |boxes| && Keeps(boxes, inverseMasses, q.0, q.1)
        ensures q in front + row
      {
        if q.0 < i - 1 {
          assert q in front;
        } else {
          assert q in row;
        }
      }
      assert AllUpTo(boxes, inverseMasses, i) == front + row;
    }
  }

  /** The first i passes hold exactly the kept pairs whose first index is below i. */
  lemma AllMembers(boxes: seq<AABB>, inverseMasses: seq<real>, i: nat)
    requires i <= |boxes| && |inverseMasses| == |boxes|
    ensures forall q :: q in AllUpTo(boxes, inverseMasses, i) <==>
      q.0 < i && q.0 < q.1 < |boxes| && Keeps(boxes, inverseMasses, q.0, q.1)
  {
    AllSound(boxes, inverseMasses, i);
    AllComplete(boxes, inverseMasses, i);
    var r := AllUpTo(boxes, inverseMasses, i);
    forall q | q in r
      ensures q.0 < i && q.0 < q.1 < |boxes| && Keeps(boxes, inverseMasses, q.0, q.1)
    {
      var k :| 0 <= k < |r| && r[k] == q;
      assert r[k].0 < i && r[k].0 < r[k].1 < |boxes| && Keeps(boxes, inverseMasses, r[k].0, r[k].1);
    }
  }

  /** The first i passes list their pairs in strictly increasing lexicographic order. */
  lemma {:induction false} AllSorted(boxes: seq<AABB>, inverseMasses: seq<real>, i: nat)
    requires i <= |boxes| && |inverseMasses| == |boxes|
    ensures Ascending(AllUpTo(boxes, inverseMasses, i))
  {
    if i > 0 {
      AllSorted(boxes, inverseMasses, i - 1);
      RowSorted(boxes, inverseMasses, i - 1, |boxes|);
      AllSortedStep(boxes, inverseMasses, i - 1);
    }
  }

  /**
   * One pass more: the pairs of the first i passes, all with first index below i, then row i,
   * whose pairs all have first index i, stay ascending.
   */
  lemma AllSortedStep(boxes: seq<AABB>, inverseMasses: seq<real>, i: nat)
    requires i < |boxes| && |inverseMasses| == |boxes|
    requires Ascending(AllUpTo(boxes, inverseMasses, i))
    requires SecondsIncrease(RowUpTo(boxes, inverseMasses, i, |boxes|))
    ensures Ascending(AllUpTo(boxes, inverseMasses, i + 1))
  {
    var front := AllUpTo(boxes, inverseMasses, i);
    var row := RowUpTo(boxes, inverseMasses, i, |boxes|);
    var r := AllUpTo(boxes, inverseMasses, i + 1);
    assert r == front + row;
    forall k, l | 0 <= k < l < |r|
      ensures Before(r[k], r[l])
    {
      if l < |front| {
        assert r[k] == front[k] && r[l] == front[l];
      } else if k < |front| {
        assert r[k] == front[k] && r[l] == row[l - |front|];
        assert front[k].0 < i && row[l - |front|].0 == i;
      } else {
        assert r[k] == row[k - |front|] && r[l] == row[l - |front|];
      }
    }
  }

  /** Soundness: every kept pair has i < j, and its bodies pass both tests. */
  lemma KeptSound(boxes: seq<AABB>, inverseMasses: seq<real>, i: nat, j: nat)
    requires |inverseMasses| == |boxes|
    requires (i, j) in Kept(boxes, inverseMasses)
    ensures i < j < |boxes|
    ensures !EpsilonEqual(inverseMasses[i] + inverseMasses[j], 0.0)
    ensures IsIntersection(boxes[i], boxes[j])
  {
    AllMembers(boxes, inverseMasses, |boxes|);
  }

  /** Completeness: every pair i < j that passes both tests is kept. */
  lemma KeptComplete(boxes: seq<AABB>, inverseMasses: seq<real>, i: nat, j: nat)
    requires |inverseMasses| == |boxes|
    requires i < j < |boxes|
    requires !EpsilonEqual(inverseMasses[i] + inverseMasses[j], 0.0)
    requires IsIntersection(boxes[i], boxes[j])
    ensures (i, j) in Kept(boxes, inverseMasses)
  {
    AllMembers(boxes, inverseMasses, |boxes|);
  }

  /** Two immovable bodies are never paired, however much their boxes overlap. */
  lemma ImmovableNeverPaired(boxes: seq<AABB>, inverseMasses: seq<real>, i: nat, j: nat)
    requires |inverseMasses| == |boxes| && i < |boxes| && j < |boxes|
    requires EpsilonEqual(inverseMasses[i] + inverseMasses[j], 0.0)
    ensures (i, j) !in Kept(boxes, inverseMasses) && (j, i) !in Kept(boxes, inverseMasses)
  {
    AllMembers(boxes, inverseMasses, |boxes|);
    EpsilonEqualSymmetric(inverseMasses[i] + inverseMasses[j], 0.0);
    assert inverseMasses[j] + inverseMasses[i] == inverseMasses[i] + inverseMasses[j];
  }

  /**
   * Ordering: the kept pairs come in strictly increasing lexicographic order, so none is
   * repeated, and no pair appears in both orders or paired with itself.
   */
  lemma KeptOrdered(boxes: seq<AABB>, inverseMasses: seq<real>)
    requires |inverseMasses| == |boxes|
    ensures var r := Kept(boxes, inverseMasses);
      && (forall k, l :: 0 <= k < l < |r| ==> Before(r[k], r[l]) && r[k] != r[l])
      && (forall k, l :: 0 <= k < |r| && 0 <= l < |r| ==> r[k] != (r[l].1, r[l].0))
  {
    AllSorted(boxes, inverseMasses, |boxes|);
    var r := Kept(boxes, inverseMasses);
    assert r == AllUpTo(boxes, inverseMasses, |boxes|);
  }

  class BroadPhase {
    var Colliders: seq<Collider>

    constructor ()
      ensures Colliders == []
    {
      Colliders := [];
    }

    /** BroadPhase.AddBody: one collider for the body, at the end of the list. */
    method AddBody(body: RigidBody)
      modifies this
      ensures Colliders == old(Colliders) + [NewCollider(body)]
    {
      Colliders := Colliders + [NewCollider(body)];
    }

    /**
     * BroadPhase.GetPairs: for every i < j in turn, the pair of collider i's and collider j's
     * bodies, unless both are immovable or their boxes do not intersect. Nothing is changed.
     */
    method GetPairs() returns (pairs: seq<Pair>)
      ensures pairs == PairsOf(Colliders, Kept(Boxes(Colliders), InverseMasses(Colliders)))
    {
      ghost var masses := InverseMasses(Colliders);
      pairs := [];
      for i := 0 to |Colliders|
        invariant pairs == PairsOf(Colliders, AllUpTo(Boxes(Colliders), masses, i))
      {
        var row := PairsWith(i);
        assert masses == InverseMasses(Colliders);
        PairsStep(Colliders, i);
        pairs := pairs + row;
      }
      assert masses == InverseMasses(Colliders);
    }

    /** One pass of GetPairs' inner loop: collider i against every later collider j. */
    method PairsWith(i: nat) returns (row: seq<Pair>)
      requires i < |Colliders|
      ensures row == PairsOf(Colliders, RowUpTo(Boxes(Colliders), InverseMasses(Colliders), i, |Colliders|))
    {
      ghost var boxes, masses := Boxes(Colliders), InverseMasses(Colliders);
      row := [];
      var a := Colliders[i];
      for j := i + 1 to |Colliders|
        invariant row == PairsOf(Colliders, RowUpTo(boxes, masses, i, j))
      {
        var b := Colliders[j];
        ghost var done := RowUpTo(boxes, masses, i, j);
        if EpsilonEqual(a.Body.InverseMass + b.Body.InverseMass, 0.0) {
          assert RowUpTo(boxes, masses, i, j + 1) == done + [];
          continue;
        }
        if IsIntersection(a.Box, b.Box) {
          PairsOfConcat(Colliders, done, [(i, j)]);
          row := row + [Pair(a.Body, b.Body)];
        } else {
          assert RowUpTo(boxes, masses, i, j + 1) == done + [];
        }
      }
      assert boxes == Boxes(Colliders) && masses == InverseMasses(Colliders);
    }
  }
}
