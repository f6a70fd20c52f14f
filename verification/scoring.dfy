/** `score`, the fitness of a layout, and `extract_core`, the enclosed
    space of a layout as a shape of its own. */
module Scoring {
  import opened Vectors
  import opened IntMath
  import opened Shapes
  import opened Contacts
  import opened Layouts
  import opened Flood
  import opened Enclosure

  /** The slot after `i`, cyclically. */
  function Next(n: int, i: int): (j: int)
    requires 0 <= i < n
    ensures 0 <= j < n
  {
    (i + 1) % n
  }

  /** The shape in slot `i` borders the shape in the next slot. */
  predicate Borders(vars: VariationArray, ps: Layout, i: int)
    requires Placeable(vars, ps) && 0 <= i < |ps|
  {
    var j := Next(|ps|, i);
    OverlapStatus(ShapeAt(vars, ps, i), P(ps[i]), ShapeAt(vars, ps, j), P(ps[j])) == Border
  }

  /** `abs(distance(sh1, pos1, sh2, pos2))` for slot `i` and the next: never
      negative, and zero exactly when the two shapes border each other. */
  function PairGap(vars: VariationArray, ps: Layout, i: int): (g: int)
    requires Placeable(vars, ps) && 0 <= i < |ps|
    ensures g >= 0
    ensures g == 0 <==> Borders(vars, ps, i)
  {
    var j := Next(|ps|, i);
    DistanceClassifies(ShapeAt(vars, ps, i), P(ps[i]), ShapeAt(vars, ps, j), P(ps[j]));
    Abs(Distance(ShapeAt(vars, ps, i), P(ps[i]), ShapeAt(vars, ps, j), P(ps[j])))
  }

  /** The gap of every slot, in slot order. */
  function Gaps(vars: VariationArray, ps: Layout): (r: seq<int>)
    requires Placeable(vars, ps)
    ensures |r| == |ps| && forall i {:trigger r[i]} :: 0 <= i < |ps| ==> r[i] == PairGap(vars, ps, i)
  {
    seq(|ps|, i requires 0 <= i < |ps| => PairGap(vars, ps, i))
  }

  /** The cyclic sum of the gaps is never negative, and zero exactly when
      every slot borders the next. */
  lemma GapSumZeroIffBorders(vars: VariationArray, ps: Layout)
    requires Placeable(vars, ps)
    ensures Sum(Gaps(vars, ps)) >= 0
    ensures Sum(Gaps(vars, ps)) == 0 <==> forall i :: 0 <= i < |ps| ==> Borders(vars, ps, i)
  {
    var g := Gaps(vars, ps);
    SumZeroIff(g);
    assert forall i :: 0 <= i < |ps| ==> (g[i] == 0 <==> Borders(vars, ps, i));
  }

  /** The loop of `score` over the slots, `dist += abs(distance(...))`:
      the sum of the gaps. */
  method Dist(vars: VariationArray, ps: Layout) returns (dist: real)
    requires Placeable(vars, ps)
    ensures dist == Sum(Gaps(vars, ps)) as real
  {
    ghost var gaps := Gaps(vars, ps);
    dist := 0.0;
    var i := 0;
    while i < |ps|
      invariant 0 <= i <= |ps|
      invariant dist == Sum(gaps[..i]) as real
    {
      assert gaps[..i + 1][..i] == gaps[..i];
      dist := dist + PairGap(vars, ps, i) as real;
      i := i + 1;
    }
    assert gaps[..|ps|] == gaps;
  }

  /** The score of a layout from its fill result and its gap sum: the area
      when it is positive, minus the gaps otherwise. */
  function ScoreOf(area: int, gaps: int): real
  {
    if area > 0 then area as real else -(gaps as real)
  }

  /** The score `score` is meant to compute. */
  ghost function ScoreSpec(vars: VariationArray, ps: Layout): real
    requires Fillable(vars, ps)
  {
    ScoreOf(Area(vars, ps), Sum(Gaps(vars, ps)))
  }

  /** `score(variations, positions)`: the enclosed area of a closed layout,
      otherwise minus the cyclic sum of the gaps between neighbouring
      slots. It is positive exactly for closed layouts and zero exactly for
      open ones whose every slot borders the next. */
  method Score(vars: VariationArray, ps: Layout) returns (s: real)
    requires Fillable(vars, ps)
    ensures s == ScoreSpec(vars, ps)
    ensures s > 0.0 <==> Area(vars, ps) > 0
    ensures Area(vars, ps) > 0 ==> s == Area(vars, ps) as real
    ensures s == 0.0 <==> Area(vars, ps) <= 0 && forall i :: 0 <= i < |ps| ==> Borders(vars, ps, i)
  {
    var area, _ := FloodFill(vars, ps);
    if area > 0 {
      return area as real;
    }
    var dist := Dist(vars, ps);
    GapSumZeroIffBorders(vars, ps);
    return -dist;
  }

  /** The ranking `score` induces: a closed layout outranks every open
      one, a larger enclosed area outranks a smaller one, and among open
      layouts the smaller gap sum ranks higher. */
  lemma ScoreRanks(vars: VariationArray, ps: Layout, qs: Layout)
    requires Fillable(vars, ps) && Fillable(vars, qs)
    ensures Area(vars, ps) > 0 && Area(vars, qs) <= 0 ==> ScoreSpec(vars, ps) > ScoreSpec(vars, qs)
    ensures Area(vars, ps) > Area(vars, qs) > 0 ==> ScoreSpec(vars, ps) > ScoreSpec(vars, qs)
    ensures Area(vars, ps) <= 0 && Area(vars, qs) <= 0 ==>
      (ScoreSpec(vars, ps) > ScoreSpec(vars, qs) <==> Sum(Gaps(vars, ps)) < Sum(Gaps(vars, qs)))
  {
    GapSumZeroIffBorders(vars, ps);
    GapSumZeroIffBorders(vars, qs);
  }

  /** The score `score` computes as written, from the fill that also runs
      from a covered start. */
  ghost function ScoreSpecAsWritten(vars: VariationArray, ps: Layout): (s: real)
    requires Fillable(vars, ps)
    ensures !Occupied(vars, ps, Add(StartOf(vars, ps), Bounds(vars, ps).lt)) ==> s == ScoreSpec(vars, ps)
  {
    ScoreOf(AreaAsWritten(vars, ps), Sum(Gaps(vars, ps)))
  }

  /** `score(variations, positions)` as written: the same two branches, on
      the area `flood_fill` returns as written. */
  method ScoreAsWritten(vars: VariationArray, ps: Layout) returns (s: real)
    requires Fillable(vars, ps)
    ensures s == ScoreSpecAsWritten(vars, ps)
    ensures s > 0.0 <==> AreaAsWritten(vars, ps) > 0
    ensures AreaAsWritten(vars, ps) > 0 ==> s == AreaAsWritten(vars, ps) as real
    ensures s == 0.0 <==> AreaAsWritten(vars, ps) <= 0 && forall i :: 0 <= i < |ps| ==> Borders(vars, ps, i)
  {
    var area, _ := FloodFillAsWritten(vars, ps);
    if area > 0 {
      return area as real;
    }
    var dist := Dist(vars, ps);
    GapSumZeroIffBorders(vars, ps);
    return -dist;
  }

  /** The ranking of the as-written score: the same three rules, on the
      area as written. */
  lemma ScoreRanksAsWritten(vars: VariationArray, ps: Layout, qs: Layout)
    requires Fillable(vars, ps) && Fillable(vars, qs)
    ensures AreaAsWritten(vars, ps) > 0 && AreaAsWritten(vars, qs) <= 0 ==> ScoreSpecAsWritten(vars, ps) > ScoreSpecAsWritten(vars, qs)
    ensures AreaAsWritten(vars, ps) > AreaAsWritten(vars, qs) > 0 ==> ScoreSpecAsWritten(vars, ps) > ScoreSpecAsWritten(vars, qs)
    ensures AreaAsWritten(vars, ps) <= 0 && AreaAsWritten(vars, qs) <= 0 ==>
      (ScoreSpecAsWritten(vars, ps) > ScoreSpecAsWritten(vars, qs) <==> Sum(Gaps(vars, ps)) < Sum(Gaps(vars, qs)))
  {
    GapSumZeroIffBorders(vars, ps);
    GapSumZeroIffBorders(vars, qs);
  }

  /** `distance` depends only on the offset between the two placements. */
  lemma DistanceShift(sh1: Shape, pos1: Vec2, sh2: Shape, pos2: Vec2, t: Vec2)
    requires Valid(sh1) && Valid(sh2)
    ensures Distance(sh1, Add(pos1, t), sh2, Add(pos2, t)) == Distance(sh1, pos1, sh2, pos2)
  {
    OverlapStatusShift(sh1, pos1, sh2, pos2, t);
    assert Sub(Add(pos1, t), Add(pos2, t)) == Sub(pos1, pos2);
  }

  /** Moving a layout moves its raster's frame with it: the grid, and so the
      mask, stay the same. */
  lemma OccupancyShift(vars: VariationArray, ps: Layout, d: Vec2)
    requires Placeable(vars, ps) && InRange(ps) && |ps| > 0 && InRange(Shift(ps, d))
    ensures Placeable(vars, Shift(ps, d))
    ensures GridW(vars, Shift(ps, d)) == GridW(vars, ps) && GridH(vars, Shift(ps, d)) == GridH(vars, ps)
    ensures Occupancy(vars, Shift(ps, d)) == Occupancy(vars, ps)
  {
    var qs := Shift(ps, d);
    BoundsShift(vars, ps, d);
    var lt := Bounds(vars, ps).lt;
    var lt' := Bounds(vars, qs).lt;
    assert lt' == Add(lt, d);
    var a := seq(|qs|, i requires 0 <= i < |qs| => SquareCells(vars, qs, i, lt'));
    var b := seq(|ps|, i requires 0 <= i < |ps| => SquareCells(vars, ps, i, lt));
    forall i | 0 <= i < |ps| ensures a[i] == b[i] {
      assert ShapeAt(vars, qs, i) == ShapeAt(vars, ps, i);
      assert P(qs[i]) == Add(P(ps[i]), d);
      var sq := ShapeAt(vars, ps, i).squares;
      forall k | 0 <= k < |sq| ensures a[i][k] == b[i][k] {
        assert Sub(Add(Add(P(ps[i]), d), sq[k]), Add(lt, d)) == Sub(Add(P(ps[i]), sq[k]), lt);
      }
    }
    assert a == b;
  }

  /** Moving a layout leaves every gap alone. */
  lemma GapsShift(vars: VariationArray, ps: Layout, d: Vec2)
    requires Placeable(vars, ps)
    ensures Placeable(vars, Shift(ps, d))
    ensures Gaps(vars, Shift(ps, d)) == Gaps(vars, ps)
  {
    var qs := Shift(ps, d);
    assert Placeable(vars, qs) by {
      assert forall i :: 0 <= i < |ps| ==> qs[i].shapeIdx == ps[i].shapeIdx && qs[i].varIdx == ps[i].varIdx;
    }
    forall i | 0 <= i < |ps| ensures Gaps(vars, qs)[i] == Gaps(vars, ps)[i] {
      var j := Next(|ps|, i);
      assert P(qs[i]) == Add(P(ps[i]), d) && P(qs[j]) == Add(P(ps[j]), d);
      assert ShapeAt(vars, qs, i) == ShapeAt(vars, ps, i) && ShapeAt(vars, qs, j) == ShapeAt(vars, ps, j);
      DistanceShift(ShapeAt(vars, ps, i), P(ps[i]), ShapeAt(vars, ps, j), P(ps[j]), d);
    }
  }

  /** The score does not depend on where the layout sits: a moved layout
      scores the same. */
  lemma ScoreShift(vars: VariationArray, ps: Layout, d: Vec2)
    requires Fillable(vars, ps) && InRange(Shift(ps, d))
    ensures Fillable(vars, Shift(ps, d))
    ensures Area(vars, Shift(ps, d)) == Area(vars, ps)
    ensures ScoreSpec(vars, Shift(ps, d)) == ScoreSpec(vars, ps)
  {
    OccupancyShift(vars, ps, d);
    GapsShift(vars, ps, d);
  }

  /** `center`, which the optimiser runs before scoring every layout of a
      generation, does not change the score. */
  lemma CenterKeepsScore(vars: VariationArray, ps: Layout)
    requires Fillable(vars, ps) && InRange(Center(vars, ps))
    ensures Fillable(vars, Center(vars, ps))
    ensures ScoreSpec(vars, Center(vars, ps)) == ScoreSpec(vars, ps)
  {
    CenterTranslates(vars, ps);
    var d :| Center(vars, ps) == Shift(ps, d);
    ScoreShift(vars, ps, d);
  }

  /** The score as written does not depend on where the layout sits
      either: the moved grid, start cell and gaps are the same. */
  lemma ScoreShiftAsWritten(vars: VariationArray, ps: Layout, d: Vec2)
    requires Fillable(vars, ps) && InRange(Shift(ps, d))
    ensures Fillable(vars, Shift(ps, d))
    ensures AreaAsWritten(vars, Shift(ps, d)) == AreaAsWritten(vars, ps)
    ensures ScoreSpecAsWritten(vars, Shift(ps, d)) == ScoreSpecAsWritten(vars, ps)
  {
    OccupancyShift(vars, ps, d);
    GapsShift(vars, ps, d);
    ScoreShift(vars, ps, d);
    assert StartOf(vars, Shift(ps, d)) == StartOf(vars, ps);
  }

  /** `center` does not change the score as written, the one the optimiser
      ranks a generation by. */
  lemma CenterKeepsScoreAsWritten(vars: VariationArray, ps: Layout)
    requires Fillable(vars, ps) && InRange(Center(vars, ps))
    ensures Fillable(vars, Center(vars, ps))
    ensures ScoreSpecAsWritten(vars, Center(vars, ps)) == ScoreSpecAsWritten(vars, ps)
  {
    CenterTranslates(vars, ps);
    var d :| Center(vars, ps) == Shift(ps, d);
    ScoreShiftAsWritten(vars, ps, d);
  }
}
