/** `struct shape`: a list of unit squares and the data `setup` caches from
    it (extents, occupancy mask, boundary cells), the mask query `is_set`,
    shape equality, the dihedral transforms and `get_variations`.

    The cached fields are never written except by `setup`, which recomputes
    all of them from `squares`; the model therefore keeps only the squares
    and states the cached fields as functions of them (`Width`, `Height`,
    `MaskOf`, `Boundary`). */
module Shapes {
  import opened Vectors
  import opened Cells
  import opened Lists

  datatype Rotation = NoRotation | CW90 | CW180 | CW270

  datatype Shape = Shape(squares: seq<Vec2>)

  /** `setup` indexes the mask with the squares, so they must not be negative. */
  predicate NonNegative(cells: seq<Vec2>)
  {
    forall i :: 0 <= i < |cells| ==> cells[i].x >= 0 && cells[i].y >= 0
  }

  /** A shape `setup` can be run on. */
  predicate Valid(s: Shape)
  {
    NonNegative(s.squares)
  }

  /** The x coordinates of the cells, in order. */
  function Xs(cells: seq<Vec2>): (r: seq<int>)
    ensures |r| == |cells| && forall i {:trigger r[i]} :: 0 <= i < |cells| ==> r[i] == cells[i].x
  {
    seq(|cells|, i requires 0 <= i < |cells| => cells[i].x)
  }

  /** The y coordinates of the cells, in order. */
  function Ys(cells: seq<Vec2>): (r: seq<int>)
    ensures |r| == |cells| && forall i {:trigger r[i]} :: 0 <= i < |cells| ==> r[i] == cells[i].y
  {
    seq(|cells|, i requires 0 <= i < |cells| => cells[i].y)
  }

  /** The running `std::max(extent, v + 1)` over the values, starting at 0:
      one more than the largest value, or 0 when there is none. */
  function Extent(vals: seq<int>): (r: int)
    ensures r >= 0
    ensures forall i :: 0 <= i < |vals| ==> vals[i] < r
    ensures r == 0 || exists i :: 0 <= i < |vals| && vals[i] + 1 == r
  {
    if vals == [] then 0
    else
      var e := Extent(vals[..|vals| - 1]);
      if e < vals[|vals| - 1] + 1 then vals[|vals| - 1] + 1 else e
  }

  /** `width` after `setup`: one more than the largest x, 0 for no squares. */
  function Width(s: Shape): (r: int)
    requires Valid(s)
    ensures forall i :: 0 <= i < |s.squares| ==> s.squares[i].x < r
    ensures |s.squares| == 0 <==> r == 0
    ensures |s.squares| > 0 ==> exists i :: 0 <= i < |s.squares| && s.squares[i].x == r - 1
  {
    var r := Extent(Xs(s.squares));
    assert forall i :: 0 <= i < |s.squares| ==> Xs(s.squares)[i] == s.squares[i].x >= 0;
    r
  }

  /** `height` after `setup`: one more than the largest y, 0 for no squares. */
  function Height(s: Shape): (r: int)
    requires Valid(s)
    ensures forall i :: 0 <= i < |s.squares| ==> s.squares[i].y < r
    ensures |s.squares| == 0 <==> r == 0
    ensures |s.squares| > 0 ==> exists i :: 0 <= i < |s.squares| && s.squares[i].y == r - 1
  {
    var r := Extent(Ys(s.squares));
    assert forall i :: 0 <= i < |s.squares| ==> Ys(s.squares)[i] == s.squares[i].y >= 0;
    r
  }

  /** `mask` after `setup`: a `width` x `height` mask with the squares set. */
  function MaskOf(s: Shape): (m: Mask)
    requires Valid(s)
    ensures Sized(m, Width(s), Height(s))
  {
    var w, h := Width(s), Height(s);
    assert AllInBox(s.squares, w, h);
    Paint(Blank(w, h), w, h, s.squares)
  }

  /** `is_set` on the raw fields: false outside [0,w) x [0,h), otherwise the mask bit. */
  function MaskIsSet(m: Mask, w: int, h: int, c: Vec2): bool
    requires Sized(m, w, h)
  {
    if c.x < 0 || c.y < 0 || c.x >= w || c.y >= h then false
    else At(m, w, h, c)
  }

  /** `is_set(x, y)`. */
  predicate IsSet(s: Shape, x: int, y: int)
    requires Valid(s)
  {
    MaskIsSet(MaskOf(s), Width(s), Height(s), Vec2(x, y))
  }

  /** `is_set` at a cell. */
  predicate SetAt(s: Shape, c: Vec2)
    requires Valid(s)
  {
    IsSet(s, c.x, c.y)
  }

  /** `is_set` holds exactly at the squares; in particular it is false
      outside the extents. */
  lemma IsSetExact(s: Shape, c: Vec2)
    requires Valid(s)
    ensures SetAt(s, c) <==> c in s.squares
    ensures !InBox(c, Width(s), Height(s)) ==> !SetAt(s, c)
  {
    if InBox(c, Width(s), Height(s)) {
      PaintBlank(Width(s), Height(s), s.squares, c);
    }
  }

  /** The `k`-th 4-neighbour of a cell, in `OFFS` order. */
  function Neighbour(c: Vec2, k: int): Vec2
    requires 0 <= k < 4
  {
    if k == 0 then Vec2(c.x + 1, c.y)
    else if k == 1 then Vec2(c.x, c.y + 1)
    else if k == 2 then Vec2(c.x - 1, c.y)
    else Vec2(c.x, c.y - 1)
  }

  /** `Neighbour` adds the `k`-th entry of `OFFS`. */
  lemma NeighbourIsOffset(c: Vec2, k: int)
    requires 0 <= k < 4
    ensures Neighbour(c, k) == Add(c, Offs[k])
  {
  }

  /** The cell as a one-entry list when the mask leaves it unset, else nothing. */
  function IfUnset(m: Mask, w: int, h: int, c: Vec2): (r: seq<Vec2>)
    requires Sized(m, w, h)
    ensures c in r <==> !MaskIsSet(m, w, h, c)
    ensures forall b :: b in r ==> b == c
  {
    if MaskIsSet(m, w, h, c) then [] else [c]
  }

  /** The unset 4-neighbours of one square, in `OFFS` order. */
  function UnsetNeighbours(m: Mask, w: int, h: int, sq: Vec2): (r: seq<Vec2>)
    requires Sized(m, w, h)
    ensures forall j :: 0 <= j < 4 ==> (Neighbour(sq, j) in r <==> !MaskIsSet(m, w, h, Neighbour(sq, j)))
    ensures forall b :: b in r ==> !MaskIsSet(m, w, h, b) && exists j :: 0 <= j < 4 && b == Neighbour(sq, j)
  {
    var n0, n1, n2, n3 := Neighbour(sq, 0), Neighbour(sq, 1), Neighbour(sq, 2), Neighbour(sq, 3);
    IfUnset(m, w, h, n0) + IfUnset(m, w, h, n1) + IfUnset(m, w, h, n2) + IfUnset(m, w, h, n3)
  }

  /** A cell is a boundary candidate of the squares: a 4-neighbour of one of
      them that the mask leaves unset. */
  ghost predicate IsBoundaryOf(m: Mask, w: int, h: int, cells: seq<Vec2>, b: Vec2)
    requires Sized(m, w, h)
  {
    !MaskIsSet(m, w, h, b) &&
    exists i, k :: 0 <= i < |cells| && 0 <= k < 4 && b == Neighbour(cells[i], k)
  }

  /** The unset 4-neighbours of each cell, one list per cell. */
  function NeighbourLists(m: Mask, w: int, h: int, cells: seq<Vec2>): (r: seq<seq<Vec2>>)
    requires Sized(m, w, h)
    ensures |r| == |cells|
    ensures forall i {:trigger r[i]} :: 0 <= i < |cells| ==> r[i] == UnsetNeighbours(m, w, h, cells[i])
  {
    seq(|cells|, i requires 0 <= i < |cells| => UnsetNeighbours(m, w, h, cells[i]))
  }

  /** The boundary loop of `setup`: every square's unset 4-neighbours, square by square. */
  function BoundaryOf(m: Mask, w: int, h: int, cells: seq<Vec2>): seq<Vec2>
    requires Sized(m, w, h)
  {
    Flatten(NeighbourLists(m, w, h, cells))
  }

  /** `BoundaryOf` lists every unset 4-neighbour of the cells. */
  lemma BoundaryOfComplete(m: Mask, w: int, h: int, cells: seq<Vec2>)
    requires Sized(m, w, h)
    ensures forall i, k :: 0 <= i < |cells| && 0 <= k < 4 && !MaskIsSet(m, w, h, Neighbour(cells[i], k)) ==>
      Neighbour(cells[i], k) in BoundaryOf(m, w, h, cells)
  {
    var ls := NeighbourLists(m, w, h, cells);
    forall i, k | 0 <= i < |cells| && 0 <= k < 4 && !MaskIsSet(m, w, h, Neighbour(cells[i], k))
      ensures Neighbour(cells[i], k) in BoundaryOf(m, w, h, cells) {
      assert Neighbour(cells[i], k) in ls[i];
      FlattenHas(ls, i, Neighbour(cells[i], k));
    }
  }

  /** Every entry of `BoundaryOf` is an unset 4-neighbour of one of the cells. */
  lemma BoundaryOfSound(m: Mask, w: int, h: int, cells: seq<Vec2>)
    requires Sized(m, w, h)
    ensures forall b :: b in BoundaryOf(m, w, h, cells) ==> IsBoundaryOf(m, w, h, cells, b)
  {
    var ls := NeighbourLists(m, w, h, cells);
    forall b | b in BoundaryOf(m, w, h, cells) ensures IsBoundaryOf(m, w, h, cells, b) {
      FlattenFrom(ls, b);
      var i :| 0 <= i < |ls| && b in ls[i];
      var k :| 0 <= k < 4 && b == Neighbour(cells[i], k);
    }
  }

  /** `boundary` after `setup`. */
  function Boundary(s: Shape): seq<Vec2>
    requires Valid(s)
  {
    BoundaryOf(MaskOf(s), Width(s), Height(s), s.squares)
  }

  /** The boundary list holds every unset 4-neighbour of every square, and
      nothing else: each entry is unset, is not a square, and is a
      4-neighbour of a square. */
  lemma BoundaryExact(s: Shape)
    requires Valid(s)
    ensures forall i, k :: 0 <= i < |s.squares| && 0 <= k < 4 && Neighbour(s.squares[i], k) !in s.squares ==>
      Neighbour(s.squares[i], k) in Boundary(s)
    ensures forall b :: b in Boundary(s) ==>
      && !SetAt(s, b)
      && b !in s.squares
      && exists i, k :: 0 <= i < |s.squares| && 0 <= k < 4 && b == Neighbour(s.squares[i], k)
  {
    BoundaryOfComplete(MaskOf(s), Width(s), Height(s), s.squares);
    BoundaryOfSound(MaskOf(s), Width(s), Height(s), s.squares);
    forall i, k | 0 <= i < |s.squares| && 0 <= k < 4 && Neighbour(s.squares[i], k) !in s.squares
      ensures Neighbour(s.squares[i], k) in Boundary(s)
    {
      IsSetExact(s, Neighbour(s.squares[i], k));
    }
    forall b | b in Boundary(s) ensures b !in s.squares {
      IsSetExact(s, b);
    }
  }

  /** `operator ==`: same width and same mask. */
  predicate Equal(a: Shape, b: Shape)
    requires Valid(a) && Valid(b)
  {
    Width(a) == Width(b) && MaskOf(a) == MaskOf(b)
  }

  /** A square of `a` lies in the extents of `b` when it is a square of `b`. */
  lemma ExtentsCover(a: Shape, b: Shape)
    requires Valid(a) && Valid(b)
    requires forall c :: c in a.squares ==> c in b.squares
    ensures Width(a) <= Width(b) && Height(a) <= Height(b)
  {
    if |a.squares| > 0 {
      var i :| 0 <= i < |a.squares| && a.squares[i].x == Width(a) - 1;
      var j :| 0 <= j < |a.squares| && a.squares[j].y == Height(a) - 1;
      assert a.squares[i] in b.squares;
      assert a.squares[j] in b.squares;
    }
  }

  /** Two shapes are `==` exactly when they have the same set of squares (in
      any order, with any repetition). */
  lemma EqualIffSameCells(a: Shape, b: Shape)
    requires Valid(a) && Valid(b)
    ensures Equal(a, b) <==> (forall c :: c in a.squares <==> c in b.squares)
  {
    if Equal(a, b) {
      assert Height(a) == Height(b);
      forall c ensures c in a.squares <==> c in b.squares {
        IsSetExact(a, c);
        IsSetExact(b, c);
      }
    }
    if forall c :: c in a.squares <==> c in b.squares {
      ExtentsCover(a, b);
      ExtentsCover(b, a);
      var w, h := Width(a), Height(a);
      forall c | InBox(c, w, h) ensures At(MaskOf(a), w, h, c) == At(MaskOf(b), w, h, c) {
        IsSetExact(a, c);
        IsSetExact(b, c);
      }
      MaskExtensional(MaskOf(a), MaskOf(b), w, h);
    }
  }

  /** A non-empty shape whose bounding box is tight on all four sides: some
      square has x == 0 and some square has y == 0. */
  predicate Normalized(s: Shape)
  {
    Valid(s) && |s.squares| > 0 &&
    (exists i :: 0 <= i < |s.squares| && s.squares[i].x == 0) &&
    (exists i :: 0 <= i < |s.squares| && s.squares[i].y == 0)
  }

  /** Where `rotated` sends one square of a `w` x `h` shape. */
  function RotateCell(c: Vec2, w: int, h: int, rot: Rotation): Vec2
  {
    match rot
    case CW90 => Vec2(h - c.y - 1, c.x)
    case CW180 => Vec2(w - c.x - 1, h - c.y - 1)
    case CW270 => Vec2(c.y, w - c.x - 1)
    case NoRotation => c
  }

  /** The square of the source shape that `rotated` sends to `c`. */
  function UnrotateCell(c: Vec2, w: int, h: int, rot: Rotation): (d: Vec2)
    ensures RotateCell(d, w, h, rot) == c
  {
    match rot
    case CW90 => Vec2(c.y, h - 1 - c.x)
    case CW180 => Vec2(w - 1 - c.x, h - 1 - c.y)
    case CW270 => Vec2(w - 1 - c.y, c.x)
    case NoRotation => c
  }

  /** Every cell turned inside a `w` x `h` box, in order. */
  function RotateAll(cells: seq<Vec2>, w: int, h: int, rot: Rotation): (r: seq<Vec2>)
    ensures |r| == |cells|
    ensures forall i {:trigger r[i]} :: 0 <= i < |cells| ==> r[i] == RotateCell(cells[i], w, h, rot)
  {
    seq(|cells|, i requires 0 <= i < |cells| => RotateCell(cells[i], w, h, rot))
  }

  /** Turning cells of a `w` x `h` box keeps them non-negative. */
  lemma RotateAllInBox(cells: seq<Vec2>, w: int, h: int, rot: Rotation)
    requires forall i :: 0 <= i < |cells| ==> 0 <= cells[i].x < w && 0 <= cells[i].y < h
    ensures NonNegative(RotateAll(cells, w, h, rot))
  {
    var r := RotateAll(cells, w, h, rot);
    forall i | 0 <= i < |r| ensures r[i].x >= 0 && r[i].y >= 0 {
      assert r[i] == RotateCell(cells[i], w, h, rot);
    }
  }

  /** `rotated`: each square turned clockwise inside the bounding box, in the
      original order. */
  function Rotated(s: Shape, rot: Rotation): (r: Shape)
    requires Valid(s)
    ensures Valid(r)
    ensures |r.squares| == |s.squares|
    ensures forall i {:trigger r.squares[i]} :: 0 <= i < |s.squares| ==>
      r.squares[i] == RotateCell(s.squares[i], Width(s), Height(s), rot)
  {
    RotateAllInBox(s.squares, Width(s), Height(s), rot);
    Shape(RotateAll(s.squares, Width(s), Height(s), rot))
  }

  /** A cell is a square of the rotated shape exactly when the inverse turn
      sends it to a square of the original. */
  lemma RotatedHas(s: Shape, rot: Rotation, c: Vec2)
    requires Valid(s)
    ensures c in Rotated(s, rot).squares <==> UnrotateCell(c, Width(s), Height(s), rot) in s.squares
  {
    var r := Rotated(s, rot);
    var d := UnrotateCell(c, Width(s), Height(s), rot);
    if d in s.squares {
      var i :| 0 <= i < |s.squares| && s.squares[i] == d;
      assert r.squares[i] == c;
    }
    if c in r.squares {
      var i :| 0 <= i < |r.squares| && r.squares[i] == c;
      assert s.squares[i] == d;
    }
  }

  /** `None` leaves the squares as they are. */
  lemma RotatedNone(s: Shape)
    requires Valid(s)
    ensures Rotated(s, NoRotation) == s
  {
  }

  /** The extents of a non-empty shape are `w` and `h` when every square lies
      below them and both are attained. */
  lemma ExtentsAre(s: Shape, w: int, h: int, iw: int, ih: int)
    requires Valid(s)
    requires forall i :: 0 <= i < |s.squares| ==> s.squares[i].x < w && s.squares[i].y < h
    requires 0 <= iw < |s.squares| && s.squares[iw].x == w - 1
    requires 0 <= ih < |s.squares| && s.squares[ih].y == h - 1
    ensures Width(s) == w && Height(s) == h
  {
    var a :| 0 <= a < |s.squares| && s.squares[a].x == Width(s) - 1;
    var b :| 0 <= b < |s.squares| && s.squares[b].y == Height(s) - 1;
  }

  /** Indices of squares touching each side of the bounding box. */
  lemma Corners(s: Shape) returns (x0: nat, y0: nat, xm: nat, ym: nat)
    requires Normalized(s)
    ensures x0 < |s.squares| && s.squares[x0].x == 0
    ensures y0 < |s.squares| && s.squares[y0].y == 0
    ensures xm < |s.squares| && s.squares[xm].x == Width(s) - 1
    ensures ym < |s.squares| && s.squares[ym].y == Height(s) - 1
  {
    x0 :| 0 <= x0 < |s.squares| && s.squares[x0].x == 0;
    y0 :| 0 <= y0 < |s.squares| && s.squares[y0].y == 0;
    xm :| 0 <= xm < |s.squares| && s.squares[xm].x == Width(s) - 1;
    ym :| 0 <= ym < |s.squares| && s.squares[ym].y == Height(s) - 1;
  }

  /** A quarter turn of a normalised shape is normalised, with the extents
      swapped. */
  lemma Rotated90Normalized(s: Shape)
    requires Normalized(s)
    ensures Normalized(Rotated(s, CW90))
    ensures Width(Rotated(s, CW90)) == Height(s) && Height(Rotated(s, CW90)) == Width(s)
  {
    var r := Rotated(s, CW90);
    var x0, y0, xm, ym := Corners(s);
    assert forall i :: 0 <= i < |r.squares| ==> r.squares[i].x < Height(s) && r.squares[i].y < Width(s);
    ExtentsAre(r, Height(s), Width(s), y0, xm);
    assert r.squares[ym].x == 0 && r.squares[x0].y == 0;
  }

  /** A half turn of a normalised shape is normalised, with the same extents. */
  lemma Rotated180Normalized(s: Shape)
    requires Normalized(s)
    ensures Normalized(Rotated(s, CW180))
    ensures Width(Rotated(s, CW180)) == Width(s) && Height(Rotated(s, CW180)) == Height(s)
  {
    var r := Rotated(s, CW180);
    var x0, y0, xm, ym := Corners(s);
    assert forall i :: 0 <= i < |r.squares| ==> r.squares[i].x < Width(s) && r.squares[i].y < Height(s);
    ExtentsAre(r, Width(s), Height(s), x0, y0);
    assert r.squares[xm].x == 0 && r.squares[ym].y == 0;
  }

  /** Three quarter turns of a normalised shape give a normalised shape, with
      the extents swapped. */
  lemma Rotated270Normalized(s: Shape)
    requires Normalized(s)
    ensures Normalized(Rotated(s, CW270))
    ensures Width(Rotated(s, CW270)) == Height(s) && Height(Rotated(s, CW270)) == Width(s)
  {
    var r := Rotated(s, CW270);
    var x0, y0, xm, ym := Corners(s);
    assert forall i :: 0 <= i < |r.squares| ==> r.squares[i].x < Height(s) && r.squares[i].y < Width(s);
    ExtentsAre(r, Height(s), Width(s), ym, x0);
    assert r.squares[y0].x == 0 && r.squares[xm].y == 0;
  }

  /** Turning a normalised shape gives a normalised shape; a quarter turn
      swaps the extents and a half turn keeps them. */
  lemma RotatedNormalized(s: Shape, rot: Rotation)
    requires Normalized(s)
    ensures Normalized(Rotated(s, rot))
    ensures rot == CW90 || rot == CW270 ==>
      Width(Rotated(s, rot)) == Height(s) && Height(Rotated(s, rot)) == Width(s)
    ensures rot == NoRotation || rot == CW180 ==>
      Width(Rotated(s, rot)) == Width(s) && Height(Rotated(s, rot)) == Height(s)
  {
    match rot {
      case NoRotation => RotatedNone(s);
      case CW90 => Rotated90Normalized(s);
      case CW180 => Rotated180Normalized(s);
      case CW270 => Rotated270Normalized(s);
    }
  }

  /** Where `mirrored` sends one square of a shape `w` wide. */
  function MirrorCell(c: Vec2, w: int): Vec2
  {
    Vec2(w - c.x - 1, c.y)
  }

  /** Every cell reflected inside a box `w` wide, in order. */
  function MirrorAll(cells: seq<Vec2>, w: int): (r: seq<Vec2>)
    ensures |r| == |cells|
    ensures forall i {:trigger r[i]} :: 0 <= i < |cells| ==> r[i] == MirrorCell(cells[i], w)
  {
    seq(|cells|, i requires 0 <= i < |cells| => MirrorCell(cells[i], w))
  }

  /** `mirrored`: each square reflected across the vertical axis of the box. */
  function Mirrored(s: Shape): (r: Shape)
    requires Valid(s)
    ensures Valid(r)
    ensures |r.squares| == |s.squares|
    ensures forall i {:trigger r.squares[i]} :: 0 <= i < |s.squares| ==> r.squares[i] == MirrorCell(s.squares[i], Width(s))
  {
    var r := Shape(MirrorAll(s.squares, Width(s)));
    assert NonNegative(r.squares) by {
      forall i | 0 <= i < |r.squares| ensures r.squares[i].x >= 0 {
        assert s.squares[i].x < Width(s);
      }
    }
    r
  }

  /** A cell is a square of the mirrored shape exactly when its reflection is
      a square of the original. */
  lemma MirroredHas(s: Shape, c: Vec2)
    requires Valid(s)
    ensures c in Mirrored(s).squares <==> MirrorCell(c, Width(s)) in s.squares
  {
    var r := Mirrored(s);
    var d := MirrorCell(c, Width(s));
    if d in s.squares {
      var i :| 0 <= i < |s.squares| && s.squares[i] == d;
      assert r.squares[i] == c;
    }
    if c in r.squares {
      var i :| 0 <= i < |r.squares| && r.squares[i] == c;
      assert s.squares[i] == d;
    }
  }

  /** Mirroring a normalised shape gives a normalised shape of the same extents. */
  lemma MirroredNormalized(s: Shape)
    requires Normalized(s)
    ensures Normalized(Mirrored(s))
    ensures Width(Mirrored(s)) == Width(s) && Height(Mirrored(s)) == Height(s)
  {
    var r := Mirrored(s);
    var x0, y0, xm, ym := Corners(s);
    assert forall i :: 0 <= i < |r.squares| ==> r.squares[i].x < Width(s) && r.squares[i].y < Height(s);
    ExtentsAre(r, Width(s), Height(s), x0, ym);
    assert r.squares[xm].x == 0 && r.squares[y0].y == 0;
  }

  /** Mirroring a normalised shape twice gives back the same squares. */
  lemma MirrorInvolution(s: Shape)
    requires Normalized(s)
    ensures Mirrored(Mirrored(s)) == s
  {
    MirroredNormalized(s);
    var a := Mirrored(s);
    var r := Mirrored(a);
    forall i | 0 <= i < |s.squares| ensures r.squares[i] == s.squares[i] {
      assert r.squares[i] == MirrorCell(a.squares[i], Width(s));
    }
    assert r.squares == s.squares;
  }

  /** A quarter turn clockwise followed by a quarter turn counter-clockwise
      gives back the same squares. */
  lemma RotateQuarterInverse(s: Shape)
    requires Normalized(s)
    ensures Rotated(Rotated(s, CW90), CW270) == s
  {
    Rotated90Normalized(s);
    var a := Rotated(s, CW90);
    var r := Rotated(a, CW270);
    forall i | 0 <= i < |s.squares| ensures r.squares[i] == s.squares[i] {
      assert r.squares[i] == RotateCell(a.squares[i], Height(s), Width(s), CW270);
    }
    assert r.squares == s.squares;
  }

  /** Two quarter turns make a half turn, square by square. */
  lemma RotateTwoQuarters(s: Shape)
    requires Normalized(s)
    ensures Rotated(Rotated(s, CW90), CW90) == Rotated(s, CW180)
  {
    Rotated90Normalized(s);
    var a := Rotated(s, CW90);
    var r := Rotated(a, CW90);
    var t := Rotated(s, CW180);
    forall i | 0 <= i < |s.squares| ensures r.squares[i] == t.squares[i] {
      assert r.squares[i] == RotateCell(a.squares[i], Height(s), Width(s), CW90);
    }
    assert r.squares == t.squares;
  }

  /** A half turn is its own inverse. */
  lemma RotateHalfInvolution(s: Shape)
    requires Normalized(s)
    ensures Rotated(Rotated(s, CW180), CW180) == s
  {
    Rotated180Normalized(s);
    var a := Rotated(s, CW180);
    var r := Rotated(a, CW180);
    forall i | 0 <= i < |s.squares| ensures r.squares[i] == s.squares[i] {
      assert r.squares[i] == RotateCell(a.squares[i], Width(s), Height(s), CW180);
    }
    assert r.squares == s.squares;
  }

  /** The eight shapes `get_variations` offers to `add_shape`, in call order. */
  function Candidates(s: Shape): (r: seq<Shape>)
    requires Valid(s)
    ensures |r| == 8 && r[0] == s
    ensures forall i :: 0 <= i < |r| ==> Valid(r[i])
  {
    var m := Mirrored(s);
    [s, Rotated(s, CW90), Rotated(s, CW180), Rotated(s, CW270),
     m, Rotated(m, CW90), Rotated(m, CW180), Rotated(m, CW270)]
  }

  predicate AllValid(shapes: seq<Shape>)
  {
    forall i :: 0 <= i < |shapes| ==> Valid(shapes[i])
  }

  /** The shape `operator ==` as a total relation, for the `std::find` of
      `add_shape`. */
  predicate SameShape(a: Shape, b: Shape)
  {
    if Valid(a) && Valid(b) then Equal(a, b) else a == b
  }

  /** Every shape is `==` to itself. */
  lemma SameShapeReflexive()
    ensures forall a :: SameShape(a, a)
  {
  }

  /** `get_variations`: the orientations of a shape, each once up to `==`,
      the shape itself first. */
  function Variations(s: Shape): (r: seq<Shape>)
    requires Valid(s)
    ensures 1 <= |r| <= 8
    ensures r[0] == s
    ensures AllValid(r) && Distinct(r, SameShape)
    ensures forall j :: 0 <= j < |r| ==> r[j] in Candidates(s)
    ensures forall i :: 0 <= i < 8 ==> Found(r, Candidates(s)[i], SameShape)
  {
    var cands := Candidates(s);
    SameShapeReflexive();
    AddAllFromEmpty(cands, SameShape);
    var r := AddAll([], cands, SameShape);
    assert AllValid(r) by {
      forall j | 0 <= j < |r| ensures Valid(r[j]) {
        assert r[j] in cands;
      }
    }
    r
  }

  /** The test fixture `SHAPE1`, as `parse` reads it. */
  const Shape1: Shape := Shape([Vec2(1, 1), Vec2(1, 2), Vec2(2, 2), Vec2(3, 2), Vec2(1, 3)])

  /** The test fixture `SHAPE2`, as `parse` reads it. */
  const Shape2: Shape := Shape([Vec2(3, 0), Vec2(1, 1), Vec2(2, 1), Vec2(3, 1), Vec2(1, 2)])

  /** The test fixture `SHAPE3`. */
  const Shape3: Shape := Shape([Vec2(0, 0), Vec2(1, 0), Vec2(2, 0), Vec2(3, 0), Vec2(3, 1)])

  /** The three test fixtures have no negative coordinate. */
  lemma FixturesValid()
    ensures Valid(Shape1) && Valid(Shape2) && Valid(Shape3)
  {
  }

  /** `SHAPE3` is four wide and two high. */
  lemma Shape3Extents()
    ensures Valid(Shape3) && Width(Shape3) == 4 && Height(Shape3) == 2
  {
    ExtentsAre(Shape3, 4, 2, 3, 4);
  }

  /** The quarter turn of `SHAPE3`, square for square, and its extents. */
  lemma Shape3Turn90()
    ensures Rotated(Shape3, CW90).squares == [Vec2(1, 0), Vec2(1, 1), Vec2(1, 2), Vec2(1, 3), Vec2(0, 3)]
    ensures Width(Rotated(Shape3, CW90)) == 2 && Height(Rotated(Shape3, CW90)) == 4
  {
    Shape3Extents();
    var r := Rotated(Shape3, CW90);
    assert r.squares == [Vec2(1, 0), Vec2(1, 1), Vec2(1, 2), Vec2(1, 3), Vec2(0, 3)];
    ExtentsAre(r, 2, 4, 0, 3);
  }

  /** The half turn of `SHAPE3`, square for square, and its extents. */
  lemma Shape3Turn180()
    ensures Rotated(Shape3, CW180).squares == [Vec2(3, 1), Vec2(2, 1), Vec2(1, 1), Vec2(0, 1), Vec2(0, 0)]
    ensures Width(Rotated(Shape3, CW180)) == 4 && Height(Rotated(Shape3, CW180)) == 2
  {
    Shape3Extents();
    var r := Rotated(Shape3, CW180);
    assert r.squares == [Vec2(3, 1), Vec2(2, 1), Vec2(1, 1), Vec2(0, 1), Vec2(0, 0)];
    ExtentsAre(r, 4, 2, 0, 0);
  }

  /** The three-quarter turn of `SHAPE3`, square for square, and its extents. */
  lemma Shape3Turn270()
    ensures Rotated(Shape3, CW270).squares == [Vec2(0, 3), Vec2(0, 2), Vec2(0, 1), Vec2(0, 0), Vec2(1, 0)]
    ensures Width(Rotated(Shape3, CW270)) == 2 && Height(Rotated(Shape3, CW270)) == 4
  {
    Shape3Extents();
    var r := Rotated(Shape3, CW270);
    assert r.squares == [Vec2(0, 3), Vec2(0, 2), Vec2(0, 1), Vec2(0, 0), Vec2(1, 0)];
    ExtentsAre(r, 2, 4, 4, 0);
  }
}
