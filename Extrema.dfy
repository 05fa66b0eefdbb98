/**
 * The running-maximum and running-minimum loops of the engine (support point, separating
 * axis, incident face, circle-versus-polygon face search) all keep the FIRST index that
 * attains the extremum, because they replace the current best only on a strict comparison.
 * ArgMax and ArgMin describe that index, defined on prefixes the way the loops see them.
 */
module Extrema {

  /** The first index of a greatest element. */
  function ArgMax(s: seq<real>): (k: nat)
    requires |s| > 0
    ensures k < |s|
    ensures forall i :: 0 <= i < |s| ==> s[i] <= s[k]
    ensures forall i :: 0 <= i < k ==> s[i] < s[k]
  {
    if |s| == 1 then 0
    else
      var k := ArgMax(s[..|s| - 1]);
      if s[|s| - 1] > s[k] then |s| - 1 else k
  }

  /** The first index of a least element. */
  function ArgMin(s: seq<real>): (k: nat)
    requires |s| > 0
    ensures k < |s|
    ensures forall i :: 0 <= i < |s| ==> s[k] <= s[i]
    ensures forall i :: 0 <= i < k ==> s[k] < s[i]
  {
    if |s| == 1 then 0
    else
      var k := ArgMin(s[..|s| - 1]);
      if s[|s| - 1] < s[k] then |s| - 1 else k
  }

  /** One more step of the running maximum: how the loops extend their best index. */
  lemma ArgMaxStep(s: seq<real>, i: nat)
    requires 0 < i < |s|
    ensures ArgMax(s[..i + 1]) == if s[i] > s[ArgMax(s[..i])] then i else ArgMax(s[..i])
  {
    assert s[..i + 1][..i] == s[..i];
  }

  lemma ArgMinStep(s: seq<real>, i: nat)
    requires 0 < i < |s|
    ensures ArgMin(s[..i + 1]) == if s[i] < s[ArgMin(s[..i])] then i else ArgMin(s[..i])
  {
    assert s[..i + 1][..i] == s[..i];
  }

  /**
   * The running maximum of a loop that starts from the sentinel `floor` (float.MinValue) at
   * index 0 and moves on a strict increase: the best value and its index.
   */
  function MaxFrom(floor: real, s: seq<real>): (r: (real, nat))
    ensures (|s| == 0 && r == (floor, 0)) || r.1 < |s|
  {
    if |s| == 0 then (floor, 0)
    else
      var p := MaxFrom(floor, s[..|s| - 1]);
      if s[|s| - 1] > p.0 then (s[|s| - 1], |s| - 1) else p
  }

  /** The running minimum from the sentinel `ceiling` (float.MaxValue), as MaxFrom. */
  function MinFrom(ceiling: real, s: seq<real>): (r: (real, nat))
    ensures (|s| == 0 && r == (ceiling, 0)) || r.1 < |s|
  {
    if |s| == 0 then (ceiling, 0)
    else
      var p := MinFrom(ceiling, s[..|s| - 1]);
      if s[|s| - 1] < p.0 then (s[|s| - 1], |s| - 1) else p
  }

  /**
   * A loop from a sentinel finds the first greatest element, unless no element beats the
   * sentinel, when it keeps the sentinel and index 0.
   */
  lemma {:induction false} MaxFromIsArgMax(floor: real, s: seq<real>)
    requires |s| > 0
    ensures MaxFrom(floor, s) == if s[ArgMax(s)] > floor then (s[ArgMax(s)], ArgMax(s)) else (floor, 0)
  {
    var init := s[..|s| - 1];
    if |init| > 0 {
      MaxFromIsArgMax(floor, init);
    }
  }

  lemma {:induction false} MinFromIsArgMin(ceiling: real, s: seq<real>)
    requires |s| > 0
    ensures MinFrom(ceiling, s) == if s[ArgMin(s)] < ceiling then (s[ArgMin(s)], ArgMin(s)) else (ceiling, 0)
  {
    var init := s[..|s| - 1];
    if |init| > 0 {
      MinFromIsArgMin(ceiling, init);
    }
  }

  /** One more step of a running maximum from a sentinel. */
  lemma MaxFromStep(floor: real, s: seq<real>, i: nat)
    requires i < |s|
    ensures MaxFrom(floor, s[..i + 1]) == if s[i] > MaxFrom(floor, s[..i]).0 then (s[i], i) else MaxFrom(floor, s[..i])
  {
    assert s[..i + 1][..i] == s[..i];
  }

  lemma MinFromStep(ceiling: real, s: seq<real>, i: nat)
    requires i < |s|
    ensures MinFrom(ceiling, s[..i + 1]) == if s[i] < MinFrom(ceiling, s[..i]).0 then (s[i], i) else MinFrom(ceiling, s[..i])
  {
    assert s[..i + 1][..i] == s[..i];
  }
}
