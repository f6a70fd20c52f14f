/** C++ `int` conventions the model needs: the limits used as sentinels,
    `std::min`/`std::max`/`abs`, and division that truncates toward zero. */
module IntMath {

  const IntMax: int := 0x7fff_ffff
  const IntMin: int := -0x8000_0000

  /** True when `v` fits in a 32-bit C++ `int`. */
  predicate IsInt32(v: int)
  {
    IntMin <= v <= IntMax
  }

  function Min(a: int, b: int): (r: int)
    ensures r <= a && r <= b
    ensures r == a || r == b
  {
    if b < a then b else a
  }

  function Max(a: int, b: int): (r: int)
    ensures r >= a && r >= b
    ensures r == a || r == b
  {
    if a < b then b else a
  }

  function Abs(a: int): (r: int)
    ensures r >= 0
    ensures r == a || r == -a
  {
    if a < 0 then -a else a
  }

  /** C++ `v / 2` on `int`: the quotient is truncated toward zero, so
      `-3 / 2 == -1` where Dafny's Euclidean division gives `-2`. */
  function TruncHalf(v: int): (r: int)
    ensures -1 <= v - 2 * r <= 1
    ensures v >= 0 ==> 0 <= v - 2 * r
    ensures v <= 0 ==> v - 2 * r <= 0
  {
    if v >= 0 then v / 2 else -((-v) / 2)
  }

  /** Truncation differs from Euclidean division on negative odd values. */
  lemma TruncHalfOfMinusOne()
    ensures TruncHalf(-1) == 0 && -1 / 2 == -1
  {
  }

  /** The sum of the values, added left to right. */
  function Sum(s: seq<int>): int
  {
    if s == [] then 0 else Sum(s[..|s| - 1]) + s[|s| - 1]
  }

  /** A sum of non-negative values is non-negative, and zero exactly when
      every value is. */
  lemma {:induction false} SumZeroIff(s: seq<int>)
    requires forall i :: 0 <= i < |s| ==> s[i] >= 0
    ensures Sum(s) >= 0
    ensures Sum(s) == 0 <==> forall i :: 0 <= i < |s| ==> s[i] == 0
  {
    if s != [] {
      var n := |s| - 1;
      assert forall i :: 0 <= i < n ==> s[..n][i] == s[i];
      SumZeroIff(s[..n]);
    }
  }
}
