/** `flood_fill`, `score` and `extract_core` on a layout: the placed
    variations are rasterised into the grid spanned by the bounding box of
    `get_bounds` (one column and one row wider than the box, which keeps the
    right and bottom rims free), the grid is filled from its centre, and the
    enclosed area or, for an open layout, the cyclic sum of shape distances
    scores the layout. */
module Enclosure {
  import opened Vectors
  import opened IntMath
  import opened Cells
  import opened Lists
  import opened Shapes
  import opened Contacts
  import opened Layouts
  import opened Flood
  import opened Start

  /** `w = rb.x - lt.x + 1`. */
  function GridW(vars: VariationArray, ps: Layout): int
    requires Placeable(vars, ps)
  {
    Bounds(vars, ps).rb.x - Bounds(vars, ps).lt.x + 1
  }

  /** `h = rb.y - lt.y + 1`. */
  function GridH(vars: VariationArray, ps: Layout): int
    requires Placeable(vars, ps)
  {
    Bounds(vars, ps).rb.y - Bounds(vars, ps).lt.y + 1
  }

  /** The grid cells `pos + sq - lt` of the squares of placement `i`. */
  function SquareCells(vars: VariationArray, ps: Layout, i: int, lt: Vec2): (r: seq<Vec2>)
    requires Placeable(vars, ps) && 0 <= i < |ps|
    ensures |r| == |ShapeAt(vars, ps, i).squares|
    ensures forall k {:trigger r[k]} :: 0 <= k < |r| ==> r[k] == Sub(Add(P(ps[i]), ShapeAt(vars, ps, i).squares[k]), lt)
  {
    var sq := ShapeAt(vars, ps, i).squares;
    seq(|sq|, k requires 0 <= k < |sq| => Sub(Add(P(ps[i]), sq[k]), lt))
  }

  /** The cells the mask loop sets, placement by placement. */
  function Raster(vars: VariationArray, ps: Layout): seq<Vec2>
    requires Placeable(vars, ps)
  {
    MovedCells(vars, ps, Bounds(vars, ps).lt)
  }

  /** Some square of some placed variation covers the cell (in layout
      coordinates). */
  ghost predicate Occupied(vars: VariationArray, ps: Layout, c: Vec2)
    requires Placeable(vars, ps)
  {
    exists i, k :: 0 <= i < |ps| && 0 <= k < |ShapeAt(vars, ps, i).squares| && c == Add(P(ps[i]), ShapeAt(vars, ps, i).squares[k])
  }

  /** The placed cells moved by `-lt`, placement by placement. */
  function MovedCells(vars: VariationArray, ps: Layout, lt: Vec2): seq<Vec2>
    requires Placeable(vars, ps)
  {
    Flatten(seq(|ps|, i requires 0 <= i < |ps| => SquareCells(vars, ps, i, lt)))
  }

  lemma MovedCellsExact(vars: VariationArray, ps: Layout, lt: Vec2, c: Vec2)
    requires Placeable(vars, ps)
    ensures c in MovedCells(vars, ps, lt) <==> Occupied(vars, ps, Add(c, lt))
  {
    var ls := seq(|ps|, i requires 0 <= i < |ps| => SquareCells(vars, ps, i, lt));
    if c in Flatten(ls) {
      FlattenFrom(ls, c);
      var i :| 0 <= i < |ls| && c in ls[i];
      var k :| 0 <= k < |ls[i]| && ls[i][k] == c;
      var sq := ShapeAt(vars, ps, i).squares;
      assert c == Sub(Add(P(ps[i]), sq[k]), lt);
      assert Add(c, lt) == Add(P(ps[i]), sq[k]);
    }
    if Occupied(vars, ps, Add(c, lt)) {
      var i, k :| 0 <= i < |ps| && 0 <= k < |ShapeAt(vars, ps, i).squares| && Add(c, lt) == Add(P(ps[i]), ShapeAt(vars, ps, i).squares[k]);
      var cells := SquareCells(vars, ps, i, lt);
      assert cells[k] == c;
      assert ls[i] == cells;
      FlattenHas(ls, i, c);
    }
  }

  /** The raster holds exactly the occupied cells, moved by `-lt`. */
  lemma RasterExact(vars: VariationArray, ps: Layout, c: Vec2)
    requires Placeable(vars, ps)
    ensures c in Raster(vars, ps) <==> Occupied(vars, ps, Add(c, Bounds(vars, ps).lt))
  {
    MovedCellsExact(vars, ps, Bounds(vars, ps).lt, c);
  }

  /** The grid is at least one cell wide and high, and every square lands in
      it: the mask writes stay in bounds. */
  lemma RasterInGrid(vars: VariationArray, ps: Layout)
    requires Placeable(vars, ps) && InRange(ps) && |ps| > 0
    ensures GridW(vars, ps) >= 1 && GridH(vars, ps) >= 1
    ensures AllInBox(Raster(vars, ps), GridW(vars, ps), GridH(vars, ps))
  {
    BoundsIsBox(vars, ps);
    var b := Bounds(vars, ps);
    var r := Raster(vars, ps);
    forall j | 0 <= j < |r| ensures InBox(r[j], GridW(vars, ps), GridH(vars, ps)) {
      RasterExact(vars, ps, r[j]);
      var i, k :| 0 <= i < |ps| && 0 <= k < |ShapeAt(vars, ps, i).squares| && Add(r[j], b.lt) == Add(P(ps[i]), ShapeAt(vars, ps, i).squares[k]);
      var sq := ShapeAt(vars, ps, i).squares[k];
      assert 0 <= sq.x < Width(ShapeAt(vars, ps, i)) && 0 <= sq.y < Height(ShapeAt(vars, ps, i));
    }
    assert Width(ShapeAt(vars, ps, 0)) >= 0 && Height(ShapeAt(vars, ps, 0)) >= 0;
  }

  /** The mask after the rasterising loops. */
  function Occupancy(vars: VariationArray, ps: Layout): (m: Mask)
    requires Placeable(vars, ps) && InRange(ps) && |ps| > 0
    ensures GridW(vars, ps) >= 1 && GridH(vars, ps) >= 1
    ensures Sized(m, GridW(vars, ps), GridH(vars, ps))
  {
    RasterInGrid(vars, ps);
    Paint(Blank(GridW(vars, ps), GridH(vars, ps)), GridW(vars, ps), GridH(vars, ps), Raster(vars, ps))
  }

  /** A grid cell is set in the mask exactly when a placed square covers
      it. */
  lemma OccupancyExact(vars: VariationArray, ps: Layout, c: Vec2)
    requires Placeable(vars, ps) && InRange(ps) && |ps| > 0
    requires InBox(c, GridW(vars, ps), GridH(vars, ps))
    ensures At(Occupancy(vars, ps), GridW(vars, ps), GridH(vars, ps), c) <==> Occupied(vars, ps, Add(c, Bounds(vars, ps).lt))
  {
    RasterInGrid(vars, ps);
    PaintBlank(GridW(vars, ps), GridH(vars, ps), Raster(vars, ps), c);
    RasterExact(vars, ps, c);
  }

  /** A layout `flood_fill` can run on: one placement per shape, `int`
      positions, and a start nudge that stays in the grid. */
  predicate Fillable(vars: VariationArray, ps: Layout)
  {
    && WellFormed(vars, ps) && InRange(ps) && |ps| > 0
    && ProbesInGrid(Occupancy(vars, ps), GridW(vars, ps), GridH(vars, ps), Centre(GridW(vars, ps), GridH(vars, ps)))
  }

  /** The right and bottom rims of the grid are never covered: every
      square of a placement lies left of and above the far corner `rb`,
      which `get_bounds` puts at or beyond each placement's extent. */
  lemma RimFree(vars: VariationArray, ps: Layout, c: Vec2)
    requires Placeable(vars, ps) && InRange(ps) && |ps| > 0
    requires InBox(c, GridW(vars, ps), GridH(vars, ps))
    requires c.x == GridW(vars, ps) - 1 || c.y == GridH(vars, ps) - 1
    ensures !At(Occupancy(vars, ps), GridW(vars, ps), GridH(vars, ps), c)
  {
    OccupancyExact(vars, ps, c);
    BoundsIsBox(vars, ps);
  }

  /** The nudge of the start never probes outside the grid: a covered
      centre lies off the free rims, so the grid is at least 3×3 and all
      eight `COFFS` neighbours of the centre are in it. Every layout of one
      placement per shape at `int` positions is `Fillable`. */
  lemma NudgeInGrid(vars: VariationArray, ps: Layout)
    requires WellFormed(vars, ps) && InRange(ps) && |ps| > 0
    ensures Fillable(vars, ps)
  {
    var occ, w, h := Occupancy(vars, ps), GridW(vars, ps), GridH(vars, ps);
    var s := Centre(w, h);
    if At(occ, w, h, s) {
      if s.x == w - 1 || s.y == h - 1 {
        RimFree(vars, ps, s);
      }
      assert w >= 3 && h >= 3;
      forall k | 0 <= k < 8 ensures InBox(Add(s, Coffs[k]), w, h) {
      }
    }
  }

  /** The start cell of the fill on the layout's grid. */
  function StartOf(vars: VariationArray, ps: Layout): (c: Vec2)
    requires Fillable(vars, ps)
    ensures InBox(c, GridW(vars, ps), GridH(vars, ps))
  {
    StartCell(Occupancy(vars, ps), GridW(vars, ps), GridH(vars, ps))
  }

  /** The area `flood_fill` is meant to return for the layout: -1 for an
      open layout, otherwise the number of free cells enclosed around the
      start. */
  ghost function Area(vars: VariationArray, ps: Layout): int
    requires Fillable(vars, ps)
  {
    FillSpec(Occupancy(vars, ps), GridW(vars, ps), GridH(vars, ps))
  }

  /** The area `flood_fill` returns as written: the fill from the nudged
      start whether or not that cell is covered. It differs from `Area` only
      on a covered start. */
  ghost function AreaAsWritten(vars: VariationArray, ps: Layout): (a: int)
    requires Fillable(vars, ps)
    ensures !Occupied(vars, ps, Add(StartOf(vars, ps), Bounds(vars, ps).lt)) ==> a == Area(vars, ps)
  {
    OccupancyExact(vars, ps, StartOf(vars, ps));
    FloodSpec(Occupancy(vars, ps), GridW(vars, ps), GridH(vars, ps), StartOf(vars, ps))
  }

  /** The cell, in layout coordinates, belongs to the region the fill
      explores. */
  ghost predicate Enclosed(vars: VariationArray, ps: Layout, c: Vec2)
    requires Fillable(vars, ps)
  {
    Sub(c, Bounds(vars, ps).lt) in Region(Occupancy(vars, ps), GridW(vars, ps), GridH(vars, ps), StartOf(vars, ps))
  }

  /** The start cell, in layout coordinates, is always among the explored
      cells. */
  lemma StartExplored(vars: VariationArray, ps: Layout)
    requires Fillable(vars, ps)
    ensures Enclosed(vars, ps, Add(StartOf(vars, ps), Bounds(vars, ps).lt))
  {
    var occ, w, h, s := Occupancy(vars, ps), GridW(vars, ps), GridH(vars, ps), StartOf(vars, ps);
    ReachesSelf(occ, w, h, s);
    RegionHas(occ, w, h, s, s);
    assert Sub(Add(s, Bounds(vars, ps).lt), Bounds(vars, ps).lt) == s;
  }

  /** The grid cells handed to `hit_fn`, as layout coordinates. */
  function ToLayout(cells: seq<Vec2>, lt: Vec2): (r: seq<Vec2>)
    ensures |r| == |cells| && forall i {:trigger r[i]} :: 0 <= i < |cells| ==> r[i] == Add(cells[i], lt)
  {
    seq(|cells|, i requires 0 <= i < |cells| => Add(cells[i], lt))
  }

  /** Moving distinct cells by the same offset keeps them distinct. */
  lemma MovedDistinct(cells: seq<Vec2>, lt: Vec2)
    requires forall i, j :: 0 <= i < j < |cells| ==> cells[i] != cells[j]
    ensures forall i, j :: 0 <= i < j < |cells| ==> ToLayout(cells, lt)[i] != ToLayout(cells, lt)[j]
  {
    var hits := ToLayout(cells, lt);
    forall i, j | 0 <= i < j < |cells| ensures hits[i] != hits[j] {
      assert Sub(hits[i], lt) == cells[i] && Sub(hits[j], lt) == cells[j];
    }
  }

  /** Moving the cells of a set moves the set: a cell is among the moved
      cells exactly when moving it back lands in the set. */
  lemma MovedExact(region: set<Vec2>, cells: seq<Vec2>, lt: Vec2)
    requires forall c :: c in region <==> c in cells
    ensures forall c :: Sub(c, lt) in region <==> c in ToLayout(cells, lt)
  {
    var hits := ToLayout(cells, lt);
    forall c ensures Sub(c, lt) in region <==> c in hits {
      if Sub(c, lt) in cells {
        var i :| 0 <= i < |cells| && cells[i] == Sub(c, lt);
        assert hits[i] == c;
      }
    }
  }

  /** Interior grid cells moved by `lt` lie strictly inside the box from
      `lt` to `lt + (w - 1, h - 1)`. */
  lemma MovedInside(cells: seq<Vec2>, lt: Vec2, w: int, h: int)
    requires forall i :: 0 <= i < |cells| ==> Interior(cells[i], w, h)
    ensures forall i :: 0 <= i < |cells| ==>
      && lt.x < ToLayout(cells, lt)[i].x < lt.x + w - 1
      && lt.y < ToLayout(cells, lt)[i].y < lt.y + h - 1
  {
  }

  /** `flood_fill(variations, positions, hit_fn)`, returning the cells given
      to `hit_fn`: -1 for an open layout, otherwise the enclosed area, with
      `hit_fn` called once on each enclosed cell, none covered by a placed
      square, all strictly inside the bounding box. */
  method FloodFill(vars: VariationArray, ps: Layout) returns (res: int, hits: seq<Vec2>)
    requires Fillable(vars, ps)
    ensures res == Area(vars, ps)
    ensures res == -1 || (res >= 1 && res == |hits|)
    ensures forall i, j :: 0 <= i < j < |hits| ==> hits[i] != hits[j]
    ensures forall i :: 0 <= i < |hits| ==> Enclosed(vars, ps, hits[i]) && !Occupied(vars, ps, hits[i])
    ensures res >= 1 ==> forall c :: Enclosed(vars, ps, c) <==> c in hits
    ensures res >= 1 ==> forall i :: 0 <= i < |hits| ==>
      && Bounds(vars, ps).lt.x < hits[i].x < Bounds(vars, ps).rb.x
      && Bounds(vars, ps).lt.y < hits[i].y < Bounds(vars, ps).rb.y
  {
    var occ := Occupancy(vars, ps);
    var w, h := GridW(vars, ps), GridH(vars, ps);
    var lt := Bounds(vars, ps).lt;
    var region := Region(occ, w, h, StartCell(occ, w, h));
    var cells;
    res, cells := Fill(occ, w, h);
    hits := ToLayout(cells, lt);
    MovedDistinct(cells, lt);
    forall i | 0 <= i < |hits| ensures Enclosed(vars, ps, hits[i]) && !Occupied(vars, ps, hits[i]) {
      assert Sub(hits[i], lt) == cells[i];
      OccupancyExact(vars, ps, cells[i]);
    }
    if res >= 1 {
      MovedExact(region, cells, lt);
      assert forall i :: 0 <= i < |cells| ==> cells[i] in region;
      MovedInside(cells, lt, w, h);
    }
  }

  /** `flood_fill` as the source has it: the fill also runs, and counts, an
      occupied start cell. */
  method FloodFillAsWritten(vars: VariationArray, ps: Layout) returns (res: int, hits: seq<Vec2>)
    requires Fillable(vars, ps)
    ensures res == AreaAsWritten(vars, ps)
    ensures res == -1 || (res >= 1 && res == |hits|)
    ensures forall i, j :: 0 <= i < j < |hits| ==> hits[i] != hits[j]
    ensures forall i :: 0 <= i < |hits| ==> Enclosed(vars, ps, hits[i])
    ensures res >= 1 ==> forall c :: Enclosed(vars, ps, c) <==> c in hits
    ensures res >= 1 ==> forall i :: 0 <= i < |hits| ==>
      && Bounds(vars, ps).lt.x < hits[i].x < Bounds(vars, ps).rb.x
      && Bounds(vars, ps).lt.y < hits[i].y < Bounds(vars, ps).rb.y
  {
    var occ := Occupancy(vars, ps);
    var w, h := GridW(vars, ps), GridH(vars, ps);
    var lt := Bounds(vars, ps).lt;
    var region := Region(occ, w, h, StartCell(occ, w, h));
    var cells;
    res, cells := FillAsWritten(occ, w, h);
    hits := ToLayout(cells, lt);
    MovedDistinct(cells, lt);
    forall i | 0 <= i < |hits| ensures Enclosed(vars, ps, hits[i]) {
      assert Sub(hits[i], lt) == cells[i];
    }
    if res >= 1 {
      MovedExact(region, cells, lt);
      assert forall i :: 0 <= i < |cells| ==> cells[i] in region;
      MovedInside(cells, lt, w, h);
    }
  }
}
