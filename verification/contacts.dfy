/** How two placed shapes meet: `overlap_status` and `distance`.

    A placed shape is a shape together with the grid position of its
    origin; its square `sq` occupies the cell `sq + pos`. */
module Contacts {
  import opened Vectors
  import opened IntMath
  import opened Shapes

  /** `enum class overlap`. */
  datatype OverlapKind = Overlap | Border | Disjoint

  /** The cell a square occupies once its shape is placed at `pos`. */
  function PlacedAt(sq: Vec2, pos: Vec2): Vec2
  {
    Add(sq, pos)
  }

  /** The bounding-box test at the top of `overlap_status`. The comparisons
      are strict, so boxes one cell apart do not count as apart. */
  predicate BoxesApart(sh1: Shape, pos1: Vec2, sh2: Shape, pos2: Vec2)
    requires Valid(sh1) && Valid(sh2)
  {
    || pos1.x > pos2.x + Width(sh2)
    || pos2.x > pos1.x + Width(sh1)
    || pos1.y > pos2.y + Height(sh2)
    || pos2.y > pos1.y + Height(sh1)
  }

  /** The first loop: some square of `cells`, moved by `d`, is set in `sh2`. */
  predicate AnyOn(sh2: Shape, cells: seq<Vec2>, d: Vec2)
    requires Valid(sh2)
  {
    exists i :: 0 <= i < |cells| && SetAt(sh2, Add(cells[i], d))
  }

  /** The second loop: some 4-neighbour of a square of `cells`, moved by `d`,
      is set in `sh2`. */
  predicate AnyBeside(sh2: Shape, cells: seq<Vec2>, d: Vec2)
    requires Valid(sh2)
  {
    exists i, k :: 0 <= i < |cells| && 0 <= k < 4 && SetAt(sh2, Neighbour(Add(cells[i], d), k))
  }

  /** `overlap_status(sh1, pos1, sh2, pos2)`. */
  function OverlapStatus(sh1: Shape, pos1: Vec2, sh2: Shape, pos2: Vec2): OverlapKind
    requires Valid(sh1) && Valid(sh2)
  {
    if BoxesApart(sh1, pos1, sh2, pos2) then Disjoint
    else
      var d := Sub(pos1, pos2);
      if AnyOn(sh2, sh1.squares, d) then Overlap
      else if AnyBeside(sh2, sh1.squares, d) then Border
      else Disjoint
  }

  /** Some cell is occupied by both placed shapes. */
  ghost predicate CellsMeet(sh1: Shape, pos1: Vec2, sh2: Shape, pos2: Vec2)
  {
    exists i, j :: 0 <= i < |sh1.squares| && 0 <= j < |sh2.squares| &&
      PlacedAt(sh1.squares[i], pos1) == PlacedAt(sh2.squares[j], pos2)
  }

  /** Some cell of one placed shape shares an edge with a cell of the other. */
  ghost predicate CellsTouch(sh1: Shape, pos1: Vec2, sh2: Shape, pos2: Vec2)
  {
    exists i, j :: 0 <= i < |sh1.squares| && 0 <= j < |sh2.squares| &&
      Manhattan(PlacedAt(sh1.squares[i], pos1), PlacedAt(sh2.squares[j], pos2)) == 1
  }

  /** The classification the bounding-box test and the masks stand in for,
      stated on the cells alone. */
  ghost function CellStatus(sh1: Shape, pos1: Vec2, sh2: Shape, pos2: Vec2): OverlapKind
  {
    if CellsMeet(sh1, pos1, sh2, pos2) then Overlap
    else if CellsTouch(sh1, pos1, sh2, pos2) then Border
    else Disjoint
  }

  /** A set cell found by the first loop is a shared cell. */
  lemma OnMeansMeet(sh1: Shape, pos1: Vec2, sh2: Shape, pos2: Vec2)
    requires Valid(sh1) && Valid(sh2)
    requires AnyOn(sh2, sh1.squares, Sub(pos1, pos2))
    ensures CellsMeet(sh1, pos1, sh2, pos2)
  {
    var d := Sub(pos1, pos2);
    var i :| 0 <= i < |sh1.squares| && SetAt(sh2, Add(sh1.squares[i], d));
    IsSetExact(sh2, Add(sh1.squares[i], d));
    var j :| 0 <= j < |sh2.squares| && sh2.squares[j] == Add(sh1.squares[i], d);
    assert PlacedAt(sh1.squares[i], pos1) == PlacedAt(sh2.squares[j], pos2);
  }

  /** A shared cell is a set cell the first loop finds. */
  lemma MeetMeansOn(sh1: Shape, pos1: Vec2, sh2: Shape, pos2: Vec2)
    requires Valid(sh1) && Valid(sh2)
    requires CellsMeet(sh1, pos1, sh2, pos2)
    ensures AnyOn(sh2, sh1.squares, Sub(pos1, pos2))
  {
    var d := Sub(pos1, pos2);
    var i, j :| 0 <= i < |sh1.squares| && 0 <= j < |sh2.squares| &&
      PlacedAt(sh1.squares[i], pos1) == PlacedAt(sh2.squares[j], pos2);
    assert Add(sh1.squares[i], d) == sh2.squares[j];
    IsSetExact(sh2, Add(sh1.squares[i], d));
  }

  /** The first loop finds exactly the shared cells. */
  lemma AnyOnIffMeet(sh1: Shape, pos1: Vec2, sh2: Shape, pos2: Vec2)
    requires Valid(sh1) && Valid(sh2)
    ensures AnyOn(sh2, sh1.squares, Sub(pos1, pos2)) <==> CellsMeet(sh1, pos1, sh2, pos2)
  {
    if AnyOn(sh2, sh1.squares, Sub(pos1, pos2)) {
      OnMeansMeet(sh1, pos1, sh2, pos2);
    }
    if CellsMeet(sh1, pos1, sh2, pos2) {
      MeetMeansOn(sh1, pos1, sh2, pos2);
    }
  }

  /** A set 4-neighbour found by the second loop is a shared edge. */
  lemma BesideMeansTouch(sh1: Shape, pos1: Vec2, sh2: Shape, pos2: Vec2)
    requires Valid(sh1) && Valid(sh2)
    requires AnyBeside(sh2, sh1.squares, Sub(pos1, pos2))
    ensures CellsTouch(sh1, pos1, sh2, pos2)
  {
    var d := Sub(pos1, pos2);
    var i, k :| 0 <= i < |sh1.squares| && 0 <= k < 4 && SetAt(sh2, Neighbour(Add(sh1.squares[i], d), k));
    var a := Add(sh1.squares[i], d);
    var c := Neighbour(a, k);
    IsSetExact(sh2, c);
    var j :| 0 <= j < |sh2.squares| && sh2.squares[j] == c;
    NeighbourIsOffset(a, k);
    OffsAreUnitSteps(a, c);
    assert Manhattan(PlacedAt(sh1.squares[i], pos1), PlacedAt(sh2.squares[j], pos2)) == 1;
  }

  /** A shared edge is a set 4-neighbour the second loop finds. */
  lemma TouchMeansBeside(sh1: Shape, pos1: Vec2, sh2: Shape, pos2: Vec2)
    requires Valid(sh1) && Valid(sh2)
    requires CellsTouch(sh1, pos1, sh2, pos2)
    ensures AnyBeside(sh2, sh1.squares, Sub(pos1, pos2))
  {
    var d := Sub(pos1, pos2);
    var i, j :| 0 <= i < |sh1.squares| && 0 <= j < |sh2.squares| &&
      Manhattan(PlacedAt(sh1.squares[i], pos1), PlacedAt(sh2.squares[j], pos2)) == 1;
    var a := Add(sh1.squares[i], d);
    assert Manhattan(a, sh2.squares[j]) == 1;
    OffsAreUnitSteps(a, sh2.squares[j]);
    var k :| 0 <= k < 4 && Add(a, Offs[k]) == sh2.squares[j];
    NeighbourIsOffset(a, k);
    IsSetExact(sh2, sh2.squares[j]);
  }

  /** The second loop finds exactly the shared edges. */
  lemma AnyBesideIffTouch(sh1: Shape, pos1: Vec2, sh2: Shape, pos2: Vec2)
    requires Valid(sh1) && Valid(sh2)
    ensures AnyBeside(sh2, sh1.squares, Sub(pos1, pos2)) <==> CellsTouch(sh1, pos1, sh2, pos2)
  {
    if AnyBeside(sh2, sh1.squares, Sub(pos1, pos2)) {
      BesideMeansTouch(sh1, pos1, sh2, pos2);
    }
    if CellsTouch(sh1, pos1, sh2, pos2) {
      TouchMeansBeside(sh1, pos1, sh2, pos2);
    }
  }

  /** Boxes the early-out calls apart hold no shared cell and no shared edge:
      every pair of cells is at least two steps apart. */
  lemma ApartIsFar(sh1: Shape, pos1: Vec2, sh2: Shape, pos2: Vec2)
    requires Valid(sh1) && Valid(sh2)
    requires BoxesApart(sh1, pos1, sh2, pos2)
    ensures forall i, j :: 0 <= i < |sh1.squares| && 0 <= j < |sh2.squares| ==>
      Manhattan(PlacedAt(sh1.squares[i], pos1), PlacedAt(sh2.squares[j], pos2)) >= 2
  {
    forall i, j | 0 <= i < |sh1.squares| && 0 <= j < |sh2.squares|
      ensures Manhattan(PlacedAt(sh1.squares[i], pos1), PlacedAt(sh2.squares[j], pos2)) >= 2
    {
      assert sh1.squares[i].x < Width(sh1) && sh1.squares[i].y < Height(sh1);
      assert sh2.squares[j].x < Width(sh2) && sh2.squares[j].y < Height(sh2);
    }
  }

  /** `overlap_status` computes the cell-level classification: the masks
      answer membership exactly and the bounding-box early-out never changes
      the answer. */
  lemma OverlapStatusIsCellStatus(sh1: Shape, pos1: Vec2, sh2: Shape, pos2: Vec2)
    requires Valid(sh1) && Valid(sh2)
    ensures OverlapStatus(sh1, pos1, sh2, pos2) == CellStatus(sh1, pos1, sh2, pos2)
  {
    AnyOnIffMeet(sh1, pos1, sh2, pos2);
    AnyBesideIffTouch(sh1, pos1, sh2, pos2);
    if BoxesApart(sh1, pos1, sh2, pos2) {
      ApartIsFar(sh1, pos1, sh2, pos2);
    }
  }

  /** A shared cell is shared whichever shape comes first. */
  lemma MeetFlips(sh1: Shape, pos1: Vec2, sh2: Shape, pos2: Vec2)
    requires CellsMeet(sh1, pos1, sh2, pos2)
    ensures CellsMeet(sh2, pos2, sh1, pos1)
  {
    var i, j :| 0 <= i < |sh1.squares| && 0 <= j < |sh2.squares| &&
      PlacedAt(sh1.squares[i], pos1) == PlacedAt(sh2.squares[j], pos2);
    assert PlacedAt(sh2.squares[j], pos2) == PlacedAt(sh1.squares[i], pos1);
  }

  /** A shared edge is shared whichever shape comes first. */
  lemma TouchFlips(sh1: Shape, pos1: Vec2, sh2: Shape, pos2: Vec2)
    requires CellsTouch(sh1, pos1, sh2, pos2)
    ensures CellsTouch(sh2, pos2, sh1, pos1)
  {
    var i, j :| 0 <= i < |sh1.squares| && 0 <= j < |sh2.squares| &&
      Manhattan(PlacedAt(sh1.squares[i], pos1), PlacedAt(sh2.squares[j], pos2)) == 1;
    assert Manhattan(PlacedAt(sh2.squares[j], pos2), PlacedAt(sh1.squares[i], pos1)) == 1;
  }

  /** Shared cells and shared edges do not depend on which shape comes first. */
  lemma CellStatusSymmetric(sh1: Shape, pos1: Vec2, sh2: Shape, pos2: Vec2)
    ensures CellStatus(sh1, pos1, sh2, pos2) == CellStatus(sh2, pos2, sh1, pos1)
  {
    if CellsMeet(sh1, pos1, sh2, pos2) { MeetFlips(sh1, pos1, sh2, pos2); }
    if CellsMeet(sh2, pos2, sh1, pos1) { MeetFlips(sh2, pos2, sh1, pos1); }
    if CellsTouch(sh1, pos1, sh2, pos2) { TouchFlips(sh1, pos1, sh2, pos2); }
    if CellsTouch(sh2, pos2, sh1, pos1) { TouchFlips(sh2, pos2, sh1, pos1); }
  }

  /** The classification does not depend on which shape comes first. */
  lemma OverlapStatusSymmetric(sh1: Shape, pos1: Vec2, sh2: Shape, pos2: Vec2)
    requires Valid(sh1) && Valid(sh2)
    ensures OverlapStatus(sh1, pos1, sh2, pos2) == OverlapStatus(sh2, pos2, sh1, pos1)
  {
    OverlapStatusIsCellStatus(sh1, pos1, sh2, pos2);
    OverlapStatusIsCellStatus(sh2, pos2, sh1, pos1);
    CellStatusSymmetric(sh1, pos1, sh2, pos2);
  }

  /** Moving both shapes by the same offset does not change the classification. */
  lemma OverlapStatusShift(sh1: Shape, pos1: Vec2, sh2: Shape, pos2: Vec2, t: Vec2)
    requires Valid(sh1) && Valid(sh2)
    ensures OverlapStatus(sh1, Add(pos1, t), sh2, Add(pos2, t)) == OverlapStatus(sh1, pos1, sh2, pos2)
  {
    assert Sub(Add(pos1, t), Add(pos2, t)) == Sub(pos1, pos2);
  }

  /** The gap the nested loops of `distance` measure between square `a` of
      the first shape and square `b` of the second, the first moved by `d`:
      `abs(x - sq2.x) + abs(y - sq2.y)`. */
  function Gap(a: Vec2, b: Vec2, d: Vec2): int
  {
    Manhattan(Add(a, d), b)
  }

  /** The inner loop: `std::min` of `acc` and the gaps from `a` to each cell. */
  function RowMin(a: Vec2, cells: seq<Vec2>, d: Vec2, acc: int): (r: int)
    ensures r <= acc
    ensures cells != [] ==> r <= Gap(a, cells[|cells| - 1], d)
    decreases |cells|
  {
    if cells == [] then acc
    else
      var n := |cells| - 1;
      Min(RowMin(a, cells[..n], d, acc), Gap(a, cells[n], d))
  }

  /** `RowMin` is at most every gap it ranges over, and is `acc` or one of them. */
  lemma {:induction false} RowMinIsMin(a: Vec2, cells: seq<Vec2>, d: Vec2, acc: int)
    ensures forall j :: 0 <= j < |cells| ==> RowMin(a, cells, d, acc) <= Gap(a, cells[j], d)
    ensures RowMin(a, cells, d, acc) == acc ||
      exists j :: 0 <= j < |cells| && RowMin(a, cells, d, acc) == Gap(a, cells[j], d)
    decreases |cells|
  {
    if cells != [] {
      var n := |cells| - 1;
      RowMinIsMin(a, cells[..n], d, acc);
      assert forall j :: 0 <= j < n ==> cells[j] == cells[..n][j];
    }
  }

  /** Both loops: the running minimum from `INT_MAX` over every pair of
      squares, rows taken in order. */
  function MinGap(cells1: seq<Vec2>, cells2: seq<Vec2>, d: Vec2): (r: int)
    ensures r <= IntMax
    decreases |cells1|
  {
    if cells1 == [] then IntMax
    else
      var n := |cells1| - 1;
      RowMin(cells1[n], cells2, d, MinGap(cells1[..n], cells2, d))
  }

  /** `MinGap` is at most the gap of every pair. */
  lemma {:induction false} MinGapBelow(cells1: seq<Vec2>, cells2: seq<Vec2>, d: Vec2)
    ensures forall i, j :: 0 <= i < |cells1| && 0 <= j < |cells2| ==>
      MinGap(cells1, cells2, d) <= Gap(cells1[i], cells2[j], d)
    decreases |cells1|
  {
    if cells1 != [] {
      var n := |cells1| - 1;
      var prev := MinGap(cells1[..n], cells2, d);
      MinGapBelow(cells1[..n], cells2, d);
      RowMinIsMin(cells1[n], cells2, d, prev);
      assert forall i :: 0 <= i < n ==> cells1[i] == cells1[..n][i];
    }
  }

  /** `MinGap` is `INT_MAX` or the gap of some pair. */
  lemma {:induction false} MinGapAttained(cells1: seq<Vec2>, cells2: seq<Vec2>, d: Vec2)
    ensures MinGap(cells1, cells2, d) == IntMax ||
      exists i, j :: 0 <= i < |cells1| && 0 <= j < |cells2| && MinGap(cells1, cells2, d) == Gap(cells1[i], cells2[j], d)
    decreases |cells1|
  {
    if cells1 != [] {
      var n := |cells1| - 1;
      var prev := MinGap(cells1[..n], cells2, d);
      MinGapAttained(cells1[..n], cells2, d);
      RowMinIsMin(cells1[n], cells2, d, prev);
      if MinGap(cells1, cells2, d) != prev {
        var j :| 0 <= j < |cells2| && MinGap(cells1, cells2, d) == Gap(cells1[n], cells2[j], d);
      } else if prev != IntMax {
        var i, j :| 0 <= i < n && 0 <= j < |cells2| && prev == Gap(cells1[..n][i], cells2[j], d);
        assert cells1[i] == cells1[..n][i];
      }
    }
  }

  /** With no pair of squares the minimum stays `INT_MAX`; otherwise it is
      the smallest gap, which no gap undercuts. */
  lemma MinGapIsMin(cells1: seq<Vec2>, cells2: seq<Vec2>, d: Vec2, g: int)
    requires forall i, j :: 0 <= i < |cells1| && 0 <= j < |cells2| ==> g <= Gap(cells1[i], cells2[j], d)
    requires g <= IntMax
    ensures g <= MinGap(cells1, cells2, d)
  {
    MinGapAttained(cells1, cells2, d);
  }

  /** `distance(sh1, pos1, sh2, pos2)`: 0 for bordering shapes, -1 for
      overlapping ones, otherwise one less than the smallest gap. */
  function Distance(sh1: Shape, pos1: Vec2, sh2: Shape, pos2: Vec2): int
    requires Valid(sh1) && Valid(sh2)
  {
    var ov := OverlapStatus(sh1, pos1, sh2, pos2);
    if ov == Border then 0
    else if ov == Overlap then -1
    else MinGap(sh1.squares, sh2.squares, Sub(pos1, pos2)) - 1
  }

  /** The gap between two squares is the distance of the cells they occupy. */
  lemma GapIsPlacedDistance(a: Vec2, pos1: Vec2, b: Vec2, pos2: Vec2)
    ensures Gap(a, b, Sub(pos1, pos2)) == Manhattan(PlacedAt(a, pos1), PlacedAt(b, pos2))
  {
  }

  /** A shared cell makes the smallest gap 0. */
  lemma MeetMeansGapZero(sh1: Shape, pos1: Vec2, sh2: Shape, pos2: Vec2)
    requires CellsMeet(sh1, pos1, sh2, pos2)
    ensures MinGap(sh1.squares, sh2.squares, Sub(pos1, pos2)) == 0
  {
    var d := Sub(pos1, pos2);
    var i, j :| 0 <= i < |sh1.squares| && 0 <= j < |sh2.squares| &&
      PlacedAt(sh1.squares[i], pos1) == PlacedAt(sh2.squares[j], pos2);
    assert Gap(sh1.squares[i], sh2.squares[j], d) == 0;
    MinGapBelow(sh1.squares, sh2.squares, d);
    MinGapIsMin(sh1.squares, sh2.squares, d, 0);
  }

  /** Without a shared cell every gap is at least 1. */
  lemma NoMeetGapsPositive(sh1: Shape, pos1: Vec2, sh2: Shape, pos2: Vec2)
    requires !CellsMeet(sh1, pos1, sh2, pos2)
    ensures forall i, j :: 0 <= i < |sh1.squares| && 0 <= j < |sh2.squares| ==>
      1 <= Gap(sh1.squares[i], sh2.squares[j], Sub(pos1, pos2))
  {
    forall i, j | 0 <= i < |sh1.squares| && 0 <= j < |sh2.squares|
      ensures 1 <= Gap(sh1.squares[i], sh2.squares[j], Sub(pos1, pos2))
    {
      assert PlacedAt(sh1.squares[i], pos1) != PlacedAt(sh2.squares[j], pos2);
    }
  }

  /** Without a shared cell, a shared edge makes the smallest gap 1. */
  lemma TouchMeansGapOne(sh1: Shape, pos1: Vec2, sh2: Shape, pos2: Vec2)
    requires !CellsMeet(sh1, pos1, sh2, pos2) && CellsTouch(sh1, pos1, sh2, pos2)
    ensures MinGap(sh1.squares, sh2.squares, Sub(pos1, pos2)) == 1
  {
    var d := Sub(pos1, pos2);
    var i, j :| 0 <= i < |sh1.squares| && 0 <= j < |sh2.squares| &&
      Manhattan(PlacedAt(sh1.squares[i], pos1), PlacedAt(sh2.squares[j], pos2)) == 1;
    assert Gap(sh1.squares[i], sh2.squares[j], d) == 1;
    MinGapBelow(sh1.squares, sh2.squares, d);
    NoMeetGapsPositive(sh1, pos1, sh2, pos2);
    MinGapIsMin(sh1.squares, sh2.squares, d, 1);
  }

  /** With neither a shared cell nor a shared edge every gap, and so the
      smallest, is at least 2. */
  lemma ApartMeansGapTwo(sh1: Shape, pos1: Vec2, sh2: Shape, pos2: Vec2)
    requires !CellsMeet(sh1, pos1, sh2, pos2) && !CellsTouch(sh1, pos1, sh2, pos2)
    ensures MinGap(sh1.squares, sh2.squares, Sub(pos1, pos2)) >= 2
  {
    var d := Sub(pos1, pos2);
    forall i, j | 0 <= i < |sh1.squares| && 0 <= j < |sh2.squares|
      ensures 2 <= Gap(sh1.squares[i], sh2.squares[j], d)
    {
      assert PlacedAt(sh1.squares[i], pos1) != PlacedAt(sh2.squares[j], pos2);
    }
    MinGapIsMin(sh1.squares, sh2.squares, d, 2);
  }

  /** The two early returns of `distance` give what the loops would have
      given: the result is always one less than the smallest gap. */
  lemma DistanceIsMinGap(sh1: Shape, pos1: Vec2, sh2: Shape, pos2: Vec2)
    requires Valid(sh1) && Valid(sh2)
    ensures Distance(sh1, pos1, sh2, pos2) == MinGap(sh1.squares, sh2.squares, Sub(pos1, pos2)) - 1
  {
    OverlapStatusIsCellStatus(sh1, pos1, sh2, pos2);
    if CellsMeet(sh1, pos1, sh2, pos2) {
      MeetMeansGapZero(sh1, pos1, sh2, pos2);
    } else if CellsTouch(sh1, pos1, sh2, pos2) {
      TouchMeansGapOne(sh1, pos1, sh2, pos2);
    }
  }

  /** `distance` agrees with `overlap_status`: -1 exactly for overlapping
      shapes, 0 exactly for bordering ones, and at least 1 otherwise. */
  lemma DistanceClassifies(sh1: Shape, pos1: Vec2, sh2: Shape, pos2: Vec2)
    requires Valid(sh1) && Valid(sh2)
    ensures Distance(sh1, pos1, sh2, pos2) >= -1
    ensures Distance(sh1, pos1, sh2, pos2) == -1 <==> OverlapStatus(sh1, pos1, sh2, pos2) == Overlap
    ensures Distance(sh1, pos1, sh2, pos2) == 0 <==> OverlapStatus(sh1, pos1, sh2, pos2) == Border
    ensures Distance(sh1, pos1, sh2, pos2) >= 1 <==> OverlapStatus(sh1, pos1, sh2, pos2) == Disjoint
  {
    if OverlapStatus(sh1, pos1, sh2, pos2) == Disjoint {
      OverlapStatusIsCellStatus(sh1, pos1, sh2, pos2);
      ApartMeansGapTwo(sh1, pos1, sh2, pos2);
    }
  }

  /** `test_overlap_status`, first case: the two fixtures at the origin
      share the cell (1, 1). With `OverlapStatusIsCellStatus` this is the
      answer of `overlap_status`. */
  lemma OverlapFixtureSame()
    ensures CellStatus(Shape1, Vec2(0, 0), Shape2, Vec2(0, 0)) == Overlap
  {
    assert PlacedAt(Shape1.squares[0], Vec2(0, 0)) == PlacedAt(Shape2.squares[1], Vec2(0, 0));
  }

  /** `test_overlap_status`, second and third cases: `SHAPE2` three rows
      below `SHAPE1` borders it, wherever the pair is placed. */
  lemma OverlapFixtureBelow(p: Vec2)
    ensures CellStatus(Shape1, p, Shape2, Add(p, Vec2(0, 3))) == Border
  {
    var q := Add(p, Vec2(0, 3));
    forall i, j | 0 <= i < 5 && 0 <= j < 5
      ensures PlacedAt(Shape1.squares[i], p) != PlacedAt(Shape2.squares[j], q)
    {
    }
    assert Manhattan(PlacedAt(Shape1.squares[4], p), PlacedAt(Shape2.squares[1], q)) == 1;
  }

  /** `test_overlap_status`, fourth case: four rows below, the fixtures
      neither overlap nor border. */
  lemma OverlapFixtureApart()
    ensures CellStatus(Shape1, Vec2(0, 0), Shape2, Vec2(0, 4)) == Disjoint
  {
    var a := Shape1.squares;
    var b := Shape2.squares;
    assert forall i :: 0 <= i < 5 ==> a[i].y <= 2 || a[i] == Vec2(1, 3);
    assert forall j :: 0 <= j < 5 ==> b[j].y >= 1 || b[j] == Vec2(3, 0);
    forall i, j | 0 <= i < 5 && 0 <= j < 5
      ensures Manhattan(PlacedAt(a[i], Vec2(0, 0)), PlacedAt(b[j], Vec2(0, 4))) >= 2
    {
    }
  }

  /** `test_overlap_status`, fifth case: `SHAPE2` placed two columns left
      of and two rows above `SHAPE3` borders it (the test places them at
      (-2, 0) and (0, 2)). */
  lemma OverlapFixtureSide(p: Vec2)
    ensures CellStatus(Shape2, p, Shape3, Add(p, Vec2(2, 2))) == Border
  {
    var q := Add(p, Vec2(2, 2));
    forall i, j | 0 <= i < 5 && 0 <= j < 5
      ensures PlacedAt(Shape2.squares[i], p) != PlacedAt(Shape3.squares[j], q)
    {
    }
    assert Manhattan(PlacedAt(Shape2.squares[2], p), PlacedAt(Shape3.squares[0], q)) == 1;
  }

  /** `g` is the smallest gap between the cells, the first moved by `d`. */
  ghost predicate IsSmallestGap(a: seq<Vec2>, b: seq<Vec2>, d: Vec2, g: int)
  {
    && (forall i, j :: 0 <= i < |a| && 0 <= j < |b| ==> g <= Gap(a[i], b[j], d))
    && (exists i, j :: 0 <= i < |a| && 0 <= j < |b| && g == Gap(a[i], b[j], d))
  }

  /** The loops of `distance` find the smallest gap whenever there is one
      that fits below the starting value `INT_MAX`. */
  lemma MinGapIsSmallest(a: seq<Vec2>, b: seq<Vec2>, d: Vec2, g: int)
    requires IsSmallestGap(a, b, d, g) && g <= IntMax
    ensures MinGap(a, b, d) == g
  {
    var i, j :| 0 <= i < |a| && 0 <= j < |b| && g == Gap(a[i], b[j], d);
    MinGapBelow(a, b, d);
    MinGapIsMin(a, b, d, g);
  }

  /** `test_distance`, first case: `SHAPE2` and `SHAPE3` at the same
      position share a cell, so they overlap and, by
      `OverlapStatusIsCellStatus` and `DistanceClassifies`, are at distance -1. */
  lemma DistanceFixtureOverlap(p: Vec2)
    ensures CellStatus(Shape2, p, Shape3, p) == Overlap
  {
    assert PlacedAt(Shape2.squares[0], p) == PlacedAt(Shape3.squares[3], p);
  }

  /** `test_distance`, remaining cases: `SHAPE2` moved `k` rows up and at
      most one column left of `SHAPE3` leaves a smallest gap of `k - 2`, so
      the distance is `k - 3`: 0 for the offset (0, -3), 1 for (0, -4) and 2
      for (-1, -5). */
  lemma DistanceFixtureRows(dx: int, k: int)
    requires -1 <= dx <= 0 && k >= 3
    ensures IsSmallestGap(Shape2.squares, Shape3.squares, Vec2(dx, -k), k - 2)
  {
    var a, b, d := Shape2.squares, Shape3.squares, Vec2(dx, -k);
    assert Gap(a[4], b[1 + dx], d) == k - 2;
    forall i, j | 0 <= i < 5 && 0 <= j < 5 ensures k - 2 <= Gap(a[i], b[j], d) {
      assert a[i].y <= 2 && b[j].y >= 0;
    }
  }

  /** The answers `test_overlap_status` expects, from `overlap_status`
      itself: the cell-level fixtures above carried over by
      `OverlapStatusIsCellStatus`. */
  lemma OverlapStatusFixtures(p: Vec2)
    ensures Valid(Shape1) && Valid(Shape2) && Valid(Shape3)
    ensures OverlapStatus(Shape1, Vec2(0, 0), Shape2, Vec2(0, 0)) == Overlap
    ensures OverlapStatus(Shape1, p, Shape2, Add(p, Vec2(0, 3))) == Border
    ensures OverlapStatus(Shape1, Vec2(0, 0), Shape2, Vec2(0, 4)) == Disjoint
    ensures OverlapStatus(Shape2, p, Shape3, Add(p, Vec2(2, 2))) == Border
  {
    FixturesValid();
    OverlapFixtureSame();
    OverlapStatusIsCellStatus(Shape1, Vec2(0, 0), Shape2, Vec2(0, 0));
    OverlapFixtureBelow(p);
    OverlapStatusIsCellStatus(Shape1, p, Shape2, Add(p, Vec2(0, 3)));
    OverlapFixtureApart();
    OverlapStatusIsCellStatus(Shape1, Vec2(0, 0), Shape2, Vec2(0, 4));
    OverlapFixtureSide(p);
    OverlapStatusIsCellStatus(Shape2, p, Shape3, Add(p, Vec2(2, 2)));
  }

  /** When the smallest gap fits below `INT_MAX`, `distance` is one less
      than it. */
  lemma DistanceOfSmallestGap(sh1: Shape, pos1: Vec2, sh2: Shape, pos2: Vec2, g: int)
    requires Valid(sh1) && Valid(sh2)
    requires IsSmallestGap(sh1.squares, sh2.squares, Sub(pos1, pos2), g) && g <= IntMax
    ensures Distance(sh1, pos1, sh2, pos2) == g - 1
  {
    MinGapIsSmallest(sh1.squares, sh2.squares, Sub(pos1, pos2), g);
    DistanceIsMinGap(sh1, pos1, sh2, pos2);
  }

  /** `test_distance`, first case, from `distance` itself: the pair at
      one position is at distance -1. */
  lemma DistanceFixtureSame(p: Vec2)
    ensures Valid(Shape2) && Valid(Shape3)
    ensures Distance(Shape2, p, Shape3, p) == -1
  {
    FixturesValid();
    DistanceFixtureOverlap(p);
    OverlapStatusIsCellStatus(Shape2, p, Shape3, p);
  }

  /** `test_distance`, remaining cases, from `distance` itself: `SHAPE2`
      moved `k` rows up and at most one column left of `SHAPE3` is at
      distance `k - 3`, as long as the smallest gap fits below `INT_MAX`. */
  lemma DistanceFixtureShifted(p: Vec2, dx: int, k: int)
    requires -1 <= dx <= 0 && k >= 3
    ensures Valid(Shape2) && Valid(Shape3)
    ensures k - 2 <= IntMax ==> Distance(Shape2, Add(p, Vec2(dx, -k)), Shape3, p) == k - 3
  {
    FixturesValid();
    if k - 2 <= IntMax {
      var q := Add(p, Vec2(dx, -k));
      DistanceFixtureRows(dx, k);
      assert Sub(q, p) == Vec2(dx, -k);
      DistanceOfSmallestGap(Shape2, q, Shape3, p, k - 2);
    }
  }
}
