/** The layout of a single solid 4 x 4 block at the origin, on which the
    start nudge of `flood_fill` finds no free cell: the source then fills
    from an occupied cell, reports an enclosed area of 1 and so scores the
    layout as closed, where it encloses nothing. */
module BlockLayout {
  import opened Vectors
  import opened IntMath
  import opened Cells
  import opened Shapes
  import opened Contacts
  import opened Layouts
  import opened Flood
  import opened Start
  import opened Enclosure
  import opened Scoring

  /** The 4 x 4 block, row by row. */
  predicate IsBlock(sh: Shape)
  {
    |sh.squares| == 16 && forall k {:trigger sh.squares[k]} :: 0 <= k < 16 ==> sh.squares[k] == Vec2(k % 4, k / 4)
  }

  /** The block is a valid shape, 4 wide and 4 high. */
  lemma BlockExtent(sh: Shape)
    requires IsBlock(sh)
    ensures Valid(sh) && Width(sh) == 4 && Height(sh) == 4
  {
    assert sh.squares[3] == Vec2(3, 0) && sh.squares[12] == Vec2(0, 3);
  }

  /** The block covers exactly the cells of [0,4) x [0,4). */
  lemma BlockCells(sh: Shape)
    requires IsBlock(sh)
    ensures Valid(sh)
    ensures forall c :: c in sh.squares <==> 0 <= c.x < 4 && 0 <= c.y < 4
  {
    forall c ensures c in sh.squares <==> 0 <= c.x < 4 && 0 <= c.y < 4 {
      if 0 <= c.x < 4 && 0 <= c.y < 4 {
        assert sh.squares[4 * c.y + c.x] == c;
      }
    }
  }

  /** One shape with one variation, the block, placed once at the
      origin. */
  predicate IsBlockLayout(vars: VariationArray, ps: Layout)
  {
    |vars| == 1 && |vars[0]| == 1 && IsBlock(vars[0][0]) && |ps| == 1 && ps[0] == ShapePos(0, 0, 0, 0)
  }

  /** The block layout exists: the block as a list of squares, one
      variation of it, one placement. */
  lemma BlockLayoutExists()
    ensures var sh := Shape(seq(16, k requires 0 <= k < 16 => Vec2(k % 4, k / 4)));
      IsBlockLayout([[sh]], [ShapePos(0, 0, 0, 0)])
  {
  }

  /** The layout's box is [0,4) x [0,4), so the grid is 5 x 5. */
  lemma BlockBounds(vars: VariationArray, ps: Layout)
    requires IsBlockLayout(vars, ps)
    ensures Placeable(vars, ps) && InRange(ps)
    ensures Bounds(vars, ps) == Box(Vec2(0, 0), Vec2(4, 4))
    ensures GridW(vars, ps) == 5 && GridH(vars, ps) == 5
  {
    BlockExtent(vars[0][0]);
    assert ShapeAt(vars, ps, 0) == vars[0][0];
    BoundsIsBox(vars, ps);
    var b := Bounds(vars, ps);
    var i0 :| 0 <= i0 < |ps| && b.lt.x == ps[i0].x;
    var i1 :| 0 <= i1 < |ps| && b.lt.y == ps[i1].y;
    var i2 :| 0 <= i2 < |ps| && b.rb.x == ps[i2].x + Width(ShapeAt(vars, ps, i2));
    var i3 :| 0 <= i3 < |ps| && b.rb.y == ps[i3].y + Height(ShapeAt(vars, ps, i3));
    assert i0 == 0 && i1 == 0 && i2 == 0 && i3 == 0;
    assert b.lt == Vec2(0, 0) && b.rb == Vec2(4, 4);
  }

  /** One valid shape with one variation, placed once at the origin. */
  predicate IsSingle(vars: VariationArray, ps: Layout)
  {
    |vars| == 1 && |vars[0]| == 1 && Valid(vars[0][0]) && |ps| == 1 && ps[0] == ShapePos(0, 0, 0, 0)
  }

  /** A single shape at the origin covers exactly its own squares. */
  lemma SingleOccupied(vars: VariationArray, ps: Layout, c: Vec2)
    requires IsSingle(vars, ps)
    ensures Placeable(vars, ps)
    ensures Occupied(vars, ps, c) <==> c in vars[0][0].squares
  {
    var sq := vars[0][0].squares;
    assert ShapeAt(vars, ps, 0).squares == sq && P(ps[0]) == Vec2(0, 0);
    if c in sq {
      var k :| 0 <= k < |sq| && sq[k] == c;
      assert c == Add(P(ps[0]), ShapeAt(vars, ps, 0).squares[k]);
    }
  }

  /** A grid cell is covered by the block exactly when it is set in the
      solid-block mask. */
  lemma BlockOccupied(vars: VariationArray, ps: Layout, c: Vec2)
    requires IsBlockLayout(vars, ps) && InBox(c, 5, 5)
    ensures Placeable(vars, ps)
    ensures Occupied(vars, ps, c) <==> At(SolidBlock(), 5, 5, c)
  {
    BlockCells(vars[0][0]);
    SingleOccupied(vars, ps, c);
  }

  /** The mask of the layout is the solid block. */
  lemma BlockGrid(vars: VariationArray, ps: Layout)
    requires IsBlockLayout(vars, ps)
    ensures Placeable(vars, ps) && InRange(ps)
    ensures GridW(vars, ps) == 5 && GridH(vars, ps) == 5
    ensures Bounds(vars, ps).lt == Vec2(0, 0)
    ensures Occupancy(vars, ps) == SolidBlock()
  {
    BlockBounds(vars, ps);
    forall c | InBox(c, 5, 5)
      ensures At(Occupancy(vars, ps), 5, 5, c) == At(SolidBlock(), 5, 5, c)
    {
      OccupancyExact(vars, ps, c);
      BlockOccupied(vars, ps, c);
      assert Add(c, Vec2(0, 0)) == c;
    }
    MaskExtensional(Occupancy(vars, ps), SolidBlock(), 5, 5);
  }

  /** The one gap of a single non-empty shape is its distance to itself,
      which overlaps: `abs(-1) == 1`. */
  lemma SingleGap(vars: VariationArray, ps: Layout)
    requires IsSingle(vars, ps) && |vars[0][0].squares| > 0
    ensures Placeable(vars, ps)
    ensures Sum(Gaps(vars, ps)) == 1
  {
    var sh := ShapeAt(vars, ps, 0);
    var p := P(ps[0]);
    assert Next(1, 0) == 0;
    OverlapStatusIsCellStatus(sh, p, sh, p);
    assert CellsMeet(sh, p, sh, p) by {
      assert PlacedAt(sh.squares[0], p) == PlacedAt(sh.squares[0], p);
    }
    DistanceClassifies(sh, p, sh, p);
    var g := Gaps(vars, ps);
    assert g[0] == 1;
    assert g[..0] == [];
  }

  /** On the block layout the start nudge finds no free cell: the fill
      starts on the occupied cell (2, 2), and that cell is all the region
      there is. */
  lemma BlockStart(vars: VariationArray, ps: Layout)
    requires IsBlockLayout(vars, ps)
    ensures Fillable(vars, ps)
    ensures GridW(vars, ps) == 5 && GridH(vars, ps) == 5 && Bounds(vars, ps).lt == Vec2(0, 0)
    ensures StartOf(vars, ps) == Vec2(2, 2)
    ensures Occupied(vars, ps, Vec2(2, 2))
    ensures Region(Occupancy(vars, ps), 5, 5, Vec2(2, 2)) == {Vec2(2, 2)}
  {
    BlockGrid(vars, ps);
    BlockedStartCounted();
    StuckRegion(SolidBlock(), 5, 5, Vec2(2, 2));
    BlockOccupied(vars, ps, Vec2(2, 2));
  }

  /** The fill as written on the block layout: the region it counts holds
      the occupied cell (2, 2), and it returns 1, so that `score` gives 1.0
      and ranks the layout above every open one. */
  lemma BlockFilledAsWritten(vars: VariationArray, ps: Layout)
    requires IsBlockLayout(vars, ps)
    ensures Fillable(vars, ps)
    ensures FloodSpec(Occupancy(vars, ps), GridW(vars, ps), GridH(vars, ps), StartOf(vars, ps)) == 1
    ensures AreaAsWritten(vars, ps) == 1
  {
    BlockStart(vars, ps);
    BlockGrid(vars, ps);
    BlockFillsOne();
  }

  /** The covered start (2, 2) is a cell of the region the fill explores:
      as written, `hit_fn` is called on a cell under a placed square. */
  lemma BlockStartExplored(vars: VariationArray, ps: Layout)
    requires IsBlockLayout(vars, ps)
    ensures Fillable(vars, ps)
    ensures Occupied(vars, ps, Vec2(2, 2)) && Enclosed(vars, ps, Vec2(2, 2))
  {
    BlockStart(vars, ps);
    StartExplored(vars, ps);
    assert Add(StartOf(vars, ps), Bounds(vars, ps).lt) == Vec2(2, 2);
  }

  /** On the solid-block mask the fill from (2, 2) explores that one
      interior cell. */
  lemma BlockFillsOne()
    ensures Region(SolidBlock(), 5, 5, Vec2(2, 2)) == {Vec2(2, 2)}
    ensures FloodSpec(SolidBlock(), 5, 5, Vec2(2, 2)) == 1
  {
    StuckRegion(SolidBlock(), 5, 5, Vec2(2, 2));
    assert Interior(Vec2(2, 2), 5, 5);
    SingletonArea(SolidBlock(), 5, 5, Vec2(2, 2));
  }

  /** Scored as written, the block layout counts as closed with area 1:
      `score` gives 1.0, above every open layout. */
  lemma BlockScoredAsWritten(vars: VariationArray, ps: Layout)
    requires IsBlockLayout(vars, ps)
    ensures Fillable(vars, ps)
    ensures ScoreSpecAsWritten(vars, ps) == 1.0
  {
    BlockFilledAsWritten(vars, ps);
  }

  /** Treating the occupied start as open, the block layout is open: the
      fill gives -1 and the score is minus the block's gap to itself,
      -1.0. */
  lemma BlockScoredOpen(vars: VariationArray, ps: Layout)
    requires IsBlockLayout(vars, ps)
    ensures Fillable(vars, ps)
    ensures Area(vars, ps) == -1
    ensures ScoreSpec(vars, ps) == -1.0
  {
    BlockGrid(vars, ps);
    BlockedStartCounted();
    BlockExtent(vars[0][0]);
    SingleGap(vars, ps);
  }
}
