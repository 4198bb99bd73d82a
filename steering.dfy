/** The lecturer's per-axis stepping toward a target, on exact reals. */
module Steering {

  /** Distance the lecturer covers per frame on each axis. */
  const Speed: real := 0.015
  /** How close counts as "there", both for catching and for reaching a retreat target. */
  const Tolerance: real := 0.1

  function Abs(a: real): (r: real)
    ensures r >= 0.0 && (r == a || r == -a)
  {
    if a < 0.0 then -a else a
  }

  predicate Near(a: real, b: real) {
    Abs(a - b) < Tolerance
  }

  /** One frame on one axis: step up if below the target, then step down if (now) above it.
      The second test sees the result of the first, so a lecturer less than one step below
      the target steps up and straight back down. */
  function StepAxis(pos: real, target: real): (r: real)
    ensures r == pos - Speed || r == pos || r == pos + Speed
    ensures Abs(r - pos) <= Speed
    ensures pos == target ==> r == pos
    ensures pos < target ==> r >= pos
    ensures pos > target ==> r < pos
    ensures Abs(pos - target) >= Speed ==> Abs(r - target) == Abs(pos - target) - Speed
    ensures Abs(pos - target) < Speed ==> Abs(r - target) < Speed
    ensures pos < target < pos + Speed ==> r == pos
  {
    var up := if pos < target then pos + Speed else pos;
    if up > target then up - Speed else up
  }

  /** The position after `n` frames of stepping toward a fixed target. */
  function Approach(pos: real, target: real, n: nat): real {
    if n == 0 then pos else StepAxis(Approach(pos, target, n - 1), target)
  }

  /** Each frame closes the gap by a full step until the lecturer is within one step. */
  lemma {:induction false} ApproachCloses(pos: real, target: real, n: nat)
    ensures Abs(Approach(pos, target, n) - target) < Speed
         || Abs(Approach(pos, target, n) - target) == Abs(pos - target) - n as real * Speed
  {
    if n > 0 {
      ApproachCloses(pos, target, n - 1);
    }
  }

  /** After enough frames the lecturer is within one step, hence within the tolerance,
      of a fixed target. */
  lemma ApproachArrives(pos: real, target: real, n: nat)
    requires n as real * Speed >= Abs(pos - target)
    ensures Abs(Approach(pos, target, n) - target) < Speed
    ensures Near(Approach(pos, target, n), target)
  {
    ApproachCloses(pos, target, n);
  }
}
