/** The integer 2D vector `vec2<int>` used for grid cells, offsets and
    placement positions. Components are unbounded integers; the C++ `int`
    overflow is not modelled. */
module Vectors {

  datatype Vec2 = Vec2(x: int, y: int)

  /** The default constructor. */
  function Zero(): (r: Vec2)
    ensures r.x == 0 && r.y == 0
  {
    Vec2(0, 0)
  }

  /** Component-wise sum. */
  function Add(a: Vec2, b: Vec2): Vec2
  {
    Vec2(a.x + b.x, a.y + b.y)
  }

  /** Component-wise difference. */
  function Sub(a: Vec2, b: Vec2): Vec2
  {
    Vec2(a.x - b.x, a.y - b.y)
  }

  /** `operator ==`: both components agree. */
  predicate Eq(a: Vec2, b: Vec2)
  {
    a.x == b.x && a.y == b.y
  }

  /** `a += b`: the updated left-hand side. */
  function AddAssign(a: Vec2, b: Vec2): (r: Vec2)
    ensures r == Add(a, b)
    ensures Sub(r, b) == a
  {
    Vec2(a.x + b.x, a.y + b.y)
  }

  /** Squared Euclidean length. */
  function Len2(a: Vec2): (r: int)
    ensures r >= 0
    ensures r == 0 <==> a == Zero()
  {
    a.x * a.x + a.y * a.y
  }

  /** `==` on vectors coincides with structural equality of the model. */
  lemma EqIsEquality(a: Vec2, b: Vec2)
    ensures Eq(a, b) <==> a == b
  {
  }

  /** Adding the difference recovers the minuend. */
  lemma AddSubInverse(a: Vec2, b: Vec2)
    ensures Add(Sub(a, b), b) == a
    ensures Sub(Add(a, b), b) == a
  {
  }

  /** The four 4-neighbourhood offsets `OFFS`, in source order. */
  const Offs: seq<Vec2> := [Vec2(1, 0), Vec2(0, 1), Vec2(-1, 0), Vec2(0, -1)]

  /** The eight 8-neighbourhood offsets `COFFS`, in source order. */
  const Coffs: seq<Vec2> :=
    [Vec2(1, 0), Vec2(0, 1), Vec2(-1, 0), Vec2(0, -1),
     Vec2(1, -1), Vec2(1, 1), Vec2(-1, 1), Vec2(-1, -1)]

  /** Manhattan distance between two cells. */
  function Manhattan(a: Vec2, b: Vec2): (r: int)
    ensures r >= 0
    ensures r == 0 <==> a == b
  {
    (if a.x >= b.x then a.x - b.x else b.x - a.x) +
    (if a.y >= b.y then a.y - b.y else b.y - a.y)
  }

  /** A 4-neighbour is exactly a cell at Manhattan distance one. */
  lemma OffsAreUnitSteps(a: Vec2, b: Vec2)
    ensures (exists k :: 0 <= k < 4 && Add(a, Offs[k]) == b) <==> Manhattan(a, b) == 1
  {
    if Manhattan(a, b) == 1 {
      if b.x == a.x + 1 { assert Add(a, Offs[0]) == b; }
      else if b.y == a.y + 1 { assert Add(a, Offs[1]) == b; }
      else if b.x == a.x - 1 { assert Add(a, Offs[2]) == b; }
      else { assert Add(a, Offs[3]) == b; }
    }
  }

  /** The two cells are distinct and differ by at most one on each axis. */
  predicate Adjacent(a: Vec2, b: Vec2)
  {
    a != b && -1 <= a.x - b.x <= 1 && -1 <= a.y - b.y <= 1
  }

  /** An 8-neighbour is exactly an adjacent cell. */
  lemma CoffsAreAdjacent(a: Vec2, b: Vec2)
    ensures (exists k :: 0 <= k < 8 && Add(a, Coffs[k]) == b) <==> Adjacent(a, b)
  {
    if Adjacent(a, b) {
      var d := Sub(b, a);
      assert Add(a, d) == b;
      if d == Coffs[0] {} else if d == Coffs[1] {} else if d == Coffs[2] {} else if d == Coffs[3] {}
      else if d == Coffs[4] {} else if d == Coffs[5] {} else if d == Coffs[6] {} else {
        assert d == Coffs[7];
      }
    }
  }
}
