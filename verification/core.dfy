/** `extract_core`: the free cells a closed layout encloses, as a shape of
    their own placed at the smallest corner of those cells. */
module Cores {
  import opened Vectors
  import opened IntMath
  import opened Shapes
  import opened Layouts
  import opened Enclosure

  /** The running `std::min` over the cells of `hit_fn`, from
      `(INT_MAX, INT_MAX)`: a lower bound on every cell, met by some cell
      on each axis unless the sentinel survives. */
  function Corner(cells: seq<Vec2>): (r: Vec2)
    ensures r.x <= IntMax && r.y <= IntMax
    ensures forall i :: 0 <= i < |cells| ==> r.x <= cells[i].x && r.y <= cells[i].y
    ensures r.x == IntMax || exists i :: 0 <= i < |cells| && cells[i].x == r.x
    ensures r.y == IntMax || exists i :: 0 <= i < |cells| && cells[i].y == r.y
  {
    if cells == [] then Vec2(IntMax, IntMax)
    else
      var n := |cells| - 1;
      var c := Corner(cells[..n]);
      assert forall i :: 0 <= i < n ==> cells[..n][i] == cells[i];
      Vec2(Min(c.x, cells[n].x), Min(c.y, cells[n].y))
  }

  /** `sq = sq - pos` over every cell. */
  function Relative(cells: seq<Vec2>, pos: Vec2): (r: seq<Vec2>)
    ensures |r| == |cells| && forall i {:trigger r[i]} :: 0 <= i < |cells| ==> r[i] == Sub(cells[i], pos)
  {
    seq(|cells|, i requires 0 <= i < |cells| => Sub(cells[i], pos))
  }

  /** The relative cells are the cells moved back to `pos`: a cell is among
      them exactly when adding `pos` gives one of the original cells, and
      distinct cells stay distinct. */
  lemma RelativeExact(cells: seq<Vec2>, pos: Vec2)
    ensures forall c :: c in Relative(cells, pos) <==> Add(c, pos) in cells
    ensures (forall i, j :: 0 <= i < j < |cells| ==> cells[i] != cells[j]) ==>
      forall i, j :: 0 <= i < j < |cells| ==> Relative(cells, pos)[i] != Relative(cells, pos)[j]
  {
    var r := Relative(cells, pos);
    forall c ensures c in r <==> Add(c, pos) in cells {
      if c in r {
        var i :| 0 <= i < |r| && r[i] == c;
        assert Add(c, pos) == cells[i];
      }
      if Add(c, pos) in cells {
        var i :| 0 <= i < |cells| && cells[i] == Add(c, pos);
        assert r[i] == c;
      }
    }
    forall i, j | 0 <= i < j < |cells| && cells[i] != cells[j] ensures r[i] != r[j] {
      assert Add(r[i], pos) == cells[i] && Add(r[j], pos) == cells[j];
    }
  }

  /** Cells moved back by their least coordinates `pos` are
      non-negative, touch both axes, stay distinct, and each one moved by
      `pos` is the original cell. */
  lemma CornerNormalises(cells: seq<Vec2>, pos: Vec2)
    requires forall i :: 0 <= i < |cells| ==> pos.x <= cells[i].x && pos.y <= cells[i].y
    requires exists i :: 0 <= i < |cells| && cells[i].x == pos.x
    requires exists i :: 0 <= i < |cells| && cells[i].y == pos.y
    requires forall i, j :: 0 <= i < j < |cells| ==> cells[i] != cells[j]
    ensures var r := Relative(cells, pos);
      && NonNegative(r)
      && (forall i, j :: 0 <= i < j < |r| ==> r[i] != r[j])
      && (exists i :: 0 <= i < |r| && r[i].x == 0)
      && (exists i :: 0 <= i < |r| && r[i].y == 0)
      && (forall i :: 0 <= i < |r| ==> Add(r[i], pos) == cells[i])
  {
    var r := Relative(cells, pos);
    forall i | 0 <= i < |r| ensures Add(r[i], pos) == cells[i] {
    }
    forall i, j | 0 <= i < j < |r| ensures r[i] != r[j] {
      assert Add(r[i], pos) == cells[i] && Add(r[j], pos) == cells[j];
    }
    var ix :| 0 <= ix < |cells| && cells[ix].x == pos.x;
    var iy :| 0 <= iy < |cells| && cells[iy].y == pos.y;
    assert r[ix].x == 0 && r[iy].y == 0;
  }

  /** `extract_core(variations, positions, sh, pos)` with a fresh `sh`: it
      reports whether the layout is closed, and then the enclosed cells as a
      shape whose squares touch both axes, placed so that square `c` sits on
      enclosed cell `c + pos`; none of those cells is covered by a placed
      square. */
  method ExtractCore(vars: VariationArray, ps: Layout) returns (ok: bool, core: Shape, pos: Vec2)
    requires Fillable(vars, ps)
    requires IsInt32(Bounds(vars, ps).rb.x) && IsInt32(Bounds(vars, ps).rb.y)
    ensures ok <==> Area(vars, ps) > 0
    ensures ok ==>
      && Valid(core)
      && |core.squares| == Area(vars, ps)
      && (forall i, j :: 0 <= i < j < |core.squares| ==> core.squares[i] != core.squares[j])
      && (exists i :: 0 <= i < |core.squares| && core.squares[i].x == 0)
      && (exists i :: 0 <= i < |core.squares| && core.squares[i].y == 0)
      && (forall c :: c in core.squares <==> Enclosed(vars, ps, Add(c, pos)))
      && (forall i :: 0 <= i < |core.squares| ==> !Occupied(vars, ps, Add(core.squares[i], pos)))
  {
    var res, hits := FloodFill(vars, ps);
    pos := Corner(hits);
    core := Shape(Relative(hits, pos));
    ok := res > 0;
    if ok {
      assert hits[0].x < IntMax && hits[0].y < IntMax;
      CornerNormalises(hits, pos);
      RelativeExact(hits, pos);
      var sq := core.squares;
      forall i | 0 <= i < |sq| ensures !Occupied(vars, ps, Add(sq[i], pos)) {
        assert Add(sq[i], pos) == hits[i];
      }
      forall c ensures c in sq <==> Enclosed(vars, ps, Add(c, pos)) {
        assert c in sq <==> Add(c, pos) in hits;
      }
    }
  }

  /** `extract_core` as written, on the fill that runs from a covered start
      too: it succeeds exactly when that fill gives a positive area, and the
      core is the cells the fill explored, one of which may then be
      covered by a placed square. */
  method ExtractCoreAsWritten(vars: VariationArray, ps: Layout) returns (ok: bool, core: Shape, pos: Vec2)
    requires Fillable(vars, ps)
    requires IsInt32(Bounds(vars, ps).rb.x) && IsInt32(Bounds(vars, ps).rb.y)
    ensures ok <==> AreaAsWritten(vars, ps) > 0
    ensures ok ==>
      && Valid(core)
      && |core.squares| == AreaAsWritten(vars, ps)
      && (forall i, j :: 0 <= i < j < |core.squares| ==> core.squares[i] != core.squares[j])
      && (exists i :: 0 <= i < |core.squares| && core.squares[i].x == 0)
      && (exists i :: 0 <= i < |core.squares| && core.squares[i].y == 0)
      && (forall c :: c in core.squares <==> Enclosed(vars, ps, Add(c, pos)))
  {
    var res, hits := FloodFillAsWritten(vars, ps);
    pos := Corner(hits);
    core := Shape(Relative(hits, pos));
    ok := res > 0;
    if ok {
      assert hits[0].x < IntMax && hits[0].y < IntMax;
      CornerNormalises(hits, pos);
      RelativeExact(hits, pos);
      var sq := core.squares;
      forall c ensures c in sq <==> Enclosed(vars, ps, Add(c, pos)) {
        assert c in sq <==> Add(c, pos) in hits;
      }
    }
  }
}
