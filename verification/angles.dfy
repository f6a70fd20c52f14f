/** `angle_greater`: the comparison of two polar angles in [0, 2*pi) that
    the layout code uses to order shapes around the centre. The source
    computes on `double`; the model uses exact reals. */
module Angles {

  /** The `PI` constant of the source, to its twenty decimal places. */
  const Pi: real := 3.14159265358979323846

  /** `angle_greater(lhs, rhs)`: `lhs` lies less than half a turn
      counter-clockwise of `rhs`, where a difference of more than `PI` is
      read as going round through zero. */
  predicate AngleGreater(lhs: real, rhs: real)
  {
    if lhs < rhs && rhs - lhs > Pi then true
    else lhs > rhs && lhs - rhs < Pi
  }

  /** An angle in [0, 2*pi). */
  predicate IsAngle(a: real)
  {
    0.0 <= a < 2.0 * Pi
  }

  /** The counter-clockwise turn from `from` to `to`, in [0, 2*pi). */
  function CcwTurn(from: real, to: real): (t: real)
    requires IsAngle(from) && IsAngle(to)
    ensures IsAngle(t)
    ensures t == to - from || t == to - from + 2.0 * Pi
  {
    if to >= from then to - from else to - from + 2.0 * Pi
  }

  /** For angles in [0, 2*pi), `lhs` is greater exactly when the
      counter-clockwise turn from `rhs` to `lhs` is strictly between zero
      and half a turn. */
  lemma AngleGreaterIsShortTurn(lhs: real, rhs: real)
    requires IsAngle(lhs) && IsAngle(rhs)
    ensures AngleGreater(lhs, rhs) <==> 0.0 < CcwTurn(rhs, lhs) < Pi
  {
  }

  /** No angle is greater than itself. */
  lemma AngleGreaterIrreflexive(a: real)
    ensures !AngleGreater(a, a)
  {
  }

  /** Of two angles at most one is greater than the other. */
  lemma AngleGreaterAsymmetric(a: real, b: real)
    ensures AngleGreater(a, b) ==> !AngleGreater(b, a)
  {
  }

  /** Two different angles in [0, 2*pi) that are not opposite are ordered
      one way or the other. */
  lemma AngleGreaterTotal(a: real, b: real)
    requires IsAngle(a) && IsAngle(b)
    requires a != b && a - b != Pi && b - a != Pi
    ensures AngleGreater(a, b) || AngleGreater(b, a)
  {
  }

  /** The cases of `test_angle_greater`. */
  lemma AngleGreaterFixtures()
    ensures AngleGreater(1.0, 0.0)
    ensures !AngleGreater(0.0, 0.0)
    ensures !AngleGreater(0.0, 1.0)
    ensures AngleGreater(2.0, 1.0)
    ensures AngleGreater(1.0, 6.0)
    ensures !AngleGreater(6.0, 1.0)
  {
  }
}
