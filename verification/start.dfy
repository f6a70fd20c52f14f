/** The start of `flood_fill` on a rasterised layout: the fill begins at
    the centre of the grid, nudged to the first free `COFFS` neighbour when
    the centre is occupied, and the fill from there gives the enclosed area
    or -1 for an open layout. */
module Start {
  import opened Vectors
  import opened Cells
  import opened Flood

  /** The first `k` probes of the start nudge all lie in the grid and are
      occupied. */
  predicate AllTaken(occ: Mask, w: int, h: int, s: Vec2, k: int)
    requires Sized(occ, w, h)
  {
    forall j :: 0 <= j < k && j < 8 ==> InBox(Add(s, Coffs[j]), w, h) && At(occ, w, h, Add(s, Coffs[j]))
  }

  /** The nudge only probes grid cells: when `s` is occupied, every `COFFS`
      neighbour it looks at before finding a free one is in the grid. The
      source indexes the mask without checking this. */
  predicate ProbesInGrid(occ: Mask, w: int, h: int, s: Vec2)
    requires Sized(occ, w, h) && InBox(s, w, h)
  {
    At(occ, w, h, s) ==> forall k :: 0 <= k < 8 && AllTaken(occ, w, h, s, k) ==> InBox(Add(s, Coffs[k]), w, h)
  }

  /** The centre of the grid, `{w/2, h/2}`. */
  function Centre(w: int, h: int): Vec2
  {
    Vec2(w / 2, h / 2)
  }

  /** The nudge loop from probe `k` on: the first free `COFFS` neighbour of
      `s`, or `s` when there is none. */
  function NudgeFrom(occ: Mask, w: int, h: int, s: Vec2, k: int): (r: Vec2)
    requires Sized(occ, w, h) && InBox(s, w, h) && At(occ, w, h, s) && ProbesInGrid(occ, w, h, s)
    requires 0 <= k <= 8 && AllTaken(occ, w, h, s, k)
    ensures InBox(r, w, h)
    decreases 8 - k
  {
    if k == 8 then s
    else
      var c := Add(s, Coffs[k]);
      if !At(occ, w, h, c) then c else NudgeFrom(occ, w, h, s, k + 1)
  }

  /** The start cell of `flood_fill`: the centre, or its first free
      `COFFS` neighbour when the centre is occupied. */
  function StartCell(occ: Mask, w: int, h: int): (r: Vec2)
    requires Sized(occ, w, h) && w >= 1 && h >= 1
    requires ProbesInGrid(occ, w, h, Centre(w, h))
    ensures InBox(r, w, h)
  {
    var s := Centre(w, h);
    if At(occ, w, h, s) then NudgeFrom(occ, w, h, s, 0) else s
  }

  /** The nudge from probe `k` ends on a free probe with all earlier ones
      taken, or back on `s` when all eight are taken. */
  lemma {:induction false} NudgeFromIsFirstFree(occ: Mask, w: int, h: int, s: Vec2, k: int)
    requires Sized(occ, w, h) && InBox(s, w, h) && At(occ, w, h, s) && ProbesInGrid(occ, w, h, s)
    requires 0 <= k <= 8 && AllTaken(occ, w, h, s, k)
    ensures var r := NudgeFrom(occ, w, h, s, k);
      || (AllTaken(occ, w, h, s, 8) && r == s)
      || (exists j :: k <= j < 8 && AllTaken(occ, w, h, s, j) && r == Add(s, Coffs[j]) && !At(occ, w, h, r))
    decreases 8 - k
  {
    if k < 8 {
      var c := Add(s, Coffs[k]);
      if At(occ, w, h, c) {
        assert AllTaken(occ, w, h, s, k + 1);
        NudgeFromIsFirstFree(occ, w, h, s, k + 1);
      }
    }
  }

  /** The start is the centre when that is free; otherwise the first free
      `COFFS` neighbour of the centre, all earlier ones being occupied;
      and it is occupied only when the centre and all eight neighbours
      are. */
  lemma StartIsFirstFree(occ: Mask, w: int, h: int)
    requires Sized(occ, w, h) && w >= 1 && h >= 1
    requires ProbesInGrid(occ, w, h, Centre(w, h))
    ensures var s := Centre(w, h);
      var r := StartCell(occ, w, h);
      && (!At(occ, w, h, s) ==> r == s)
      && (At(occ, w, h, s) ==>
            || (AllTaken(occ, w, h, s, 8) && r == s)
            || (exists j :: 0 <= j < 8 && AllTaken(occ, w, h, s, j) && r == Add(s, Coffs[j]) && !At(occ, w, h, r)))
      && (At(occ, w, h, r) <==> At(occ, w, h, s) && AllTaken(occ, w, h, s, 8))
  {
    var s := Centre(w, h);
    if At(occ, w, h, s) {
      NudgeFromIsFirstFree(occ, w, h, s, 0);
      var r := StartCell(occ, w, h);
      if exists j :: 0 <= j < 8 && AllTaken(occ, w, h, s, j) && r == Add(s, Coffs[j]) && !At(occ, w, h, r) {
        var j :| 0 <= j < 8 && AllTaken(occ, w, h, s, j) && r == Add(s, Coffs[j]) && !At(occ, w, h, r);
        assert !AllTaken(occ, w, h, s, 8) by {
          assert !At(occ, w, h, Add(s, Coffs[j]));
        }
      }
    }
  }

  /** `flood_fill` on the grid as the source has it: the fill runs from the
      start cell even when the nudge found no free neighbour, so that the
      occupied centre is handed to `hit_fn` and counted. */
  method FillAsWritten(occ: Mask, w: int, h: int) returns (res: int, hits: seq<Vec2>)
    requires Sized(occ, w, h) && w >= 1 && h >= 1
    requires ProbesInGrid(occ, w, h, Centre(w, h))
    ensures res == FloodSpec(occ, w, h, StartCell(occ, w, h))
    ensures res == -1 || (res >= 1 && res == |hits|)
    ensures forall i, j :: 0 <= i < j < |hits| ==> hits[i] != hits[j]
    ensures forall i :: 0 <= i < |hits| ==> hits[i] in Region(occ, w, h, StartCell(occ, w, h))
    ensures res >= 1 ==> forall c :: c in Region(occ, w, h, StartCell(occ, w, h)) <==> c in hits
  {
    res, hits := FloodFrom(occ, w, h, StartCell(occ, w, h));
  }

  /** What `flood_fill` is meant to give: an occupied start means there is
      no enclosed space to measure, which is an open layout (-1); otherwise
      the fill from the start. */
  ghost function FillSpec(occ: Mask, w: int, h: int): int
    requires Sized(occ, w, h) && w >= 1 && h >= 1
    requires ProbesInGrid(occ, w, h, Centre(w, h))
  {
    var s := StartCell(occ, w, h);
    if At(occ, w, h, s) then -1 else FloodSpec(occ, w, h, s)
  }

  /** `flood_fill` on the grid, with the occupied start reported as open:
      the area of the enclosed region around the start, or -1. Every cell
      handed to `hit_fn` is a distinct free cell of that region. */
  method Fill(occ: Mask, w: int, h: int) returns (res: int, hits: seq<Vec2>)
    requires Sized(occ, w, h) && w >= 1 && h >= 1
    requires ProbesInGrid(occ, w, h, Centre(w, h))
    ensures res == FillSpec(occ, w, h)
    ensures res == -1 || (res >= 1 && res == |hits|)
    ensures forall i, j :: 0 <= i < j < |hits| ==> hits[i] != hits[j]
    ensures forall i :: 0 <= i < |hits| ==> hits[i] in Region(occ, w, h, StartCell(occ, w, h)) && !At(occ, w, h, hits[i])
    ensures res >= 1 ==> forall c :: c in Region(occ, w, h, StartCell(occ, w, h)) <==> c in hits
  {
    var s := StartCell(occ, w, h);
    if At(occ, w, h, s) {
      return -1, [];
    }
    res, hits := FloodFrom(occ, w, h, s);
  }

  /** A start with no move out of it is its own region, and an enclosed
      one of area 1 when it is not on the grid's edge. */
  lemma StuckRegion(occ: Mask, w: int, h: int, s: Vec2)
    requires Sized(occ, w, h) && InBox(s, w, h)
    requires forall b :: !Step(occ, w, h, s, b)
    ensures Region(occ, w, h, s) == {s}
    ensures Interior(s, w, h) ==> FloodSpec(occ, w, h, s) == 1
  {
    ClosedHoldsRegion(occ, w, h, s, {s});
    ReachesSelf(occ, w, h, s);
    RegionHas(occ, w, h, s, s);
    assert |{s}| == 1;
  }

  /** A solid 4 x 4 block in the top-left of a 5 x 5 grid, as one layout of
      a single square tetromino-sized block gives. */
  function SolidBlock(): (m: Mask)
    ensures Sized(m, 5, 5)
    ensures forall c :: InBox(c, 5, 5) ==> (At(m, 5, 5, c) <==> c.x < 4 && c.y < 4)
  {
    seq(5, y => seq(5, x => x < 4 && y < 4))
  }

  /** On the solid block the centre and its eight neighbours are occupied:
      the fill as written starts on an occupied cell, finds it enclosed and
      reports an area of 1, while there is no free cell around it. */
  lemma BlockedStartCounted()
    ensures ProbesInGrid(SolidBlock(), 5, 5, Centre(5, 5))
    ensures StartCell(SolidBlock(), 5, 5) == Vec2(2, 2)
    ensures At(SolidBlock(), 5, 5, Vec2(2, 2))
    ensures FloodSpec(SolidBlock(), 5, 5, Vec2(2, 2)) == 1
    ensures FillSpec(SolidBlock(), 5, 5) == -1
  {
    var m := SolidBlock();
    var s := Vec2(2, 2);
    assert AllTaken(m, 5, 5, s, 8);
    StartIsFirstFree(m, 5, 5);
    assert Interior(s, 5, 5);
    StuckRegion(m, 5, 5, s);
  }
}
