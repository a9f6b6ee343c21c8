/**
  The interaction controller's zoom factor (main.c, lines 86 and 94-100).

  The factor starts at 0.75. In a cycle whose wheel delta is nonzero it moves
  by a tenth of the delta and is then clamped, first from below to 0.5 and
  then from above to 1.0. The arithmetic is over `real`; the source uses
  `float`, but the clamp bounds are exact, so the range does not depend on
  rounding.
*/
module Zoom {

  const Initial: real := 0.75
  const Min: real := 0.5
  const Max: real := 1.0
  /** The change per unit of wheel movement. */
  const Step: real := 0.1

  predicate InRange(z: real) {
    Min <= z <= Max
  }

  function Abs(x: real): real {
    if x < 0.0 then -x else x
  }

  /** Lines 98-99: raise to `Min`, then lower to `Max`. */
  function Clamp(z: real): (r: real)
    ensures InRange(r)
    ensures InRange(z) ==> r == z
    ensures forall y :: InRange(y) ==> Abs(r - z) <= Abs(y - z)
  {
    var raised := if z < Min then Min else z;
    if raised > Max then Max else raised
  }

  /** One cycle of lines 94-100 for the wheel delta `wheel`. */
  function Update(z: real, wheel: real): (r: real)
    ensures wheel == 0.0 ==> r == z
    ensures wheel != 0.0 ==> InRange(r)
    ensures wheel != 0.0 && InRange(z + wheel * Step) ==> r == z + wheel * Step
    ensures wheel != 0.0 ==> forall y :: InRange(y) ==> Abs(r - (z + wheel * Step)) <= Abs(y - (z + wheel * Step))
  {
    if wheel != 0.0 then Clamp(z + wheel * Step) else z
  }

  /**
    The factor after the cycles whose wheel deltas are `wheels`, oldest first.
    Once any cycle has moved the wheel, the factor is in range, whatever it
    started at.
  */
  function After(z: real, wheels: seq<real>): (r: real)
    ensures (exists k :: 0 <= k < |wheels| && wheels[k] != 0.0) ==> InRange(r)
    decreases |wheels|
  {
    if |wheels| == 0 then z else Update(After(z, wheels[..|wheels| - 1]), wheels[|wheels| - 1])
  }

  /** Starting in range, the factor stays in range after any number of cycles. */
  lemma {:induction false} AfterStaysInRange(z: real, wheels: seq<real>)
    requires InRange(z)
    ensures InRange(After(z, wheels))
    decreases |wheels|
  {
    if |wheels| > 0 {
      AfterStaysInRange(z, wheels[..|wheels| - 1]);
    }
  }

  /** Cycles without wheel movement leave the factor as it was. */
  lemma {:induction false} StillWheelKeepsZoom(z: real, wheels: seq<real>)
    requires forall k :: 0 <= k < |wheels| ==> wheels[k] == 0.0
    ensures After(z, wheels) == z
    decreases |wheels|
  {
    if |wheels| > 0 {
      StillWheelKeepsZoom(z, wheels[..|wheels| - 1]);
    }
  }

  /** Wheel deltas +2, -5, +1 from 0.75 give 0.95, then 0.5, then 0.6. */
  lemma WheelExample()
    ensures After(Initial, [2.0]) == 0.95
    ensures After(Initial, [2.0, -5.0]) == 0.5
    ensures After(Initial, [2.0, -5.0, 1.0]) == 0.6
  {
    assert [2.0, -5.0][..1] == [2.0];
    assert [2.0, -5.0, 1.0][..2] == [2.0, -5.0];
  }
}
