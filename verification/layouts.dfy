/** Layouts: one `shape_pos` per shape, naming the shape, its variation and
    where it is placed; the bounding box `get_bounds` computes over the
    placed variations, and `center`, which translates a layout so that box
    sits on the origin. */
module Layouts {
  import opened Vectors
  import opened IntMath
  import opened Shapes

  /** `struct shape_pos`; its `operator ==` compares all four fields, which
      is the structural equality of the datatype. */
  datatype ShapePos = ShapePos(x: int, y: int, shapeIdx: nat, varIdx: nat)

  /** `shape_pos::p()`. */
  function P(sp: ShapePos): Vec2
  {
    Vec2(sp.x, sp.y)
  }

  /** `shape::variation_array`: the variations of each input shape. */
  type VariationArray = seq<seq<Shape>>

  type Layout = seq<ShapePos>

  /** Every variation is a shape `setup` can run on. */
  predicate ValidVariations(vars: VariationArray)
  {
    forall s, v :: 0 <= s < |vars| && 0 <= v < |vars[s]| ==> Valid(vars[s][v])
  }

  /** Every placement names an existing variation of an existing shape. */
  predicate Placeable(vars: VariationArray, ps: Layout)
  {
    && ValidVariations(vars)
    && forall i :: 0 <= i < |ps| ==> ps[i].shapeIdx < |vars| && ps[i].varIdx < |vars[ps[i].shapeIdx]|
  }

  /** A layout as the scoring functions receive it: one placement per shape
      (`n = variations.size()` placements are read). */
  predicate WellFormed(vars: VariationArray, ps: Layout)
  {
    Placeable(vars, ps) && |ps| == |vars|
  }

  /** `variations[pos.shape_idx][pos.var_idx]` for placement `i`. */
  function ShapeAt(vars: VariationArray, ps: Layout, i: int): (s: Shape)
    requires Placeable(vars, ps) && 0 <= i < |ps|
    ensures Valid(s)
  {
    vars[ps[i].shapeIdx][ps[i].varIdx]
  }

  /** Positions are C++ `int`s. */
  predicate InRange(ps: Layout)
  {
    forall i :: 0 <= i < |ps| ==> IsInt32(ps[i].x) && IsInt32(ps[i].y)
  }

  /** The corners `lt` (inclusive) and `rb` (exclusive) of `get_bounds`. */
  datatype Box = Box(lt: Vec2, rb: Vec2)

  /** The rectangle a placement covers: from its position to its position
      plus the extents of its variation. */
  function Frame(vars: VariationArray, ps: Layout, i: int): Box
    requires Placeable(vars, ps) && 0 <= i < |ps|
  {
    var sh := ShapeAt(vars, ps, i);
    Box(P(ps[i]), Vec2(ps[i].x + Width(sh), ps[i].y + Height(sh)))
  }

  /** The rectangles of all placements, in order. */
  function Frames(vars: VariationArray, ps: Layout): (r: seq<Box>)
    requires Placeable(vars, ps)
    ensures |r| == |ps| && forall i {:trigger r[i]} :: 0 <= i < |ps| ==> r[i] == Frame(vars, ps, i)
  {
    seq(|ps|, i requires 0 <= i < |ps| => Frame(vars, ps, i))
  }

  /** The `get_bounds` loop over the rectangles: `lt` starts at `INT_MAX`
      and `rb` at `INT_MIN`, and each rectangle lowers `lt` to its top-left
      corner and raises `rb` to its bottom-right one. */
  function Hull(bs: seq<Box>): Box
    decreases |bs|
  {
    if bs == [] then Box(Vec2(IntMax, IntMax), Vec2(IntMin, IntMin))
    else
      var n := |bs| - 1;
      var b := Hull(bs[..n]);
      Box(Vec2(Min(b.lt.x, bs[n].lt.x), Min(b.lt.y, bs[n].lt.y)),
          Vec2(Max(b.rb.x, bs[n].rb.x), Max(b.rb.y, bs[n].rb.y)))
  }

  /** `get_bounds`. */
  function Bounds(vars: VariationArray, ps: Layout): Box
    requires Placeable(vars, ps)
  {
    Hull(Frames(vars, ps))
  }

  /** Rectangles whose corners are C++ `int`s. */
  predicate IntBoxes(bs: seq<Box>)
  {
    forall i :: 0 <= i < |bs| ==> bs[i].lt.x <= IntMax && bs[i].lt.y <= IntMax && bs[i].rb.x >= IntMin && bs[i].rb.y >= IntMin
  }

  /** The least top-left corner and greatest bottom-right corner over the
      rectangles, each reached by some rectangle. */
  predicate IsHullOf(bs: seq<Box>, b: Box)
  {
    && (forall i :: 0 <= i < |bs| ==>
          b.lt.x <= bs[i].lt.x && b.lt.y <= bs[i].lt.y && bs[i].rb.x <= b.rb.x && bs[i].rb.y <= b.rb.y)
    && (exists i :: 0 <= i < |bs| && b.lt.x == bs[i].lt.x)
    && (exists i :: 0 <= i < |bs| && b.lt.y == bs[i].lt.y)
    && (exists i :: 0 <= i < |bs| && b.rb.x == bs[i].rb.x)
    && (exists i :: 0 <= i < |bs| && b.rb.y == bs[i].rb.y)
  }

  /** For a non-empty list of `int` rectangles the sentinels never survive:
      the loop computes the bounding box. */
  lemma {:induction false} HullIsHull(bs: seq<Box>)
    requires IntBoxes(bs) && |bs| > 0
    ensures IsHullOf(bs, Hull(bs))
    decreases |bs|
  {
    var n := |bs| - 1;
    var pre := bs[..n];
    assert forall i :: 0 <= i < n ==> pre[i] == bs[i];
    if n > 0 {
      HullIsHull(pre);
    }
  }

  /** A bounding box is determined by the rectangles it bounds. */
  lemma HullUnique(bs: seq<Box>, a: Box, b: Box)
    requires IsHullOf(bs, a) && IsHullOf(bs, b)
    ensures a == b
  {
  }

  /** The rectangles of an `int` layout have `int` corners. */
  lemma FramesInRange(vars: VariationArray, ps: Layout)
    requires Placeable(vars, ps) && InRange(ps)
    ensures IntBoxes(Frames(vars, ps))
  {
  }

  /** For a non-empty layout of `int` positions, `get_bounds` gives the least
      position and the greatest far corner over the placed variations, each
      reached by some placement. */
  lemma BoundsIsBox(vars: VariationArray, ps: Layout)
    requires Placeable(vars, ps) && InRange(ps) && |ps| > 0
    ensures forall i :: 0 <= i < |ps| ==>
      && Bounds(vars, ps).lt.x <= ps[i].x && Bounds(vars, ps).lt.y <= ps[i].y
      && ps[i].x + Width(ShapeAt(vars, ps, i)) <= Bounds(vars, ps).rb.x
      && ps[i].y + Height(ShapeAt(vars, ps, i)) <= Bounds(vars, ps).rb.y
    ensures exists i :: 0 <= i < |ps| && Bounds(vars, ps).lt.x == ps[i].x
    ensures exists i :: 0 <= i < |ps| && Bounds(vars, ps).lt.y == ps[i].y
    ensures exists i :: 0 <= i < |ps| && Bounds(vars, ps).rb.x == ps[i].x + Width(ShapeAt(vars, ps, i))
    ensures exists i :: 0 <= i < |ps| && Bounds(vars, ps).rb.y == ps[i].y + Height(ShapeAt(vars, ps, i))
  {
    var fs := Frames(vars, ps);
    FramesInRange(vars, ps);
    HullIsHull(fs);
    var b := Bounds(vars, ps);
    assert b == Hull(fs);
    forall i | 0 <= i < |ps|
      ensures b.lt.x <= ps[i].x && b.lt.y <= ps[i].y
      ensures ps[i].x + Width(ShapeAt(vars, ps, i)) <= b.rb.x
      ensures ps[i].y + Height(ShapeAt(vars, ps, i)) <= b.rb.y
    {
      assert fs[i] == Frame(vars, ps, i);
    }
    var i0 :| 0 <= i0 < |fs| && b.lt.x == fs[i0].lt.x;
    assert fs[i0] == Frame(vars, ps, i0);
    var i1 :| 0 <= i1 < |fs| && b.lt.y == fs[i1].lt.y;
    assert fs[i1] == Frame(vars, ps, i1);
    var i2 :| 0 <= i2 < |fs| && b.rb.x == fs[i2].rb.x;
    assert fs[i2] == Frame(vars, ps, i2);
    var i3 :| 0 <= i3 < |fs| && b.rb.y == fs[i3].rb.y;
    assert fs[i3] == Frame(vars, ps, i3);
  }

  /** Every placement moved by `d`; shapes and variations kept. */
  function Shift(ps: Layout, d: Vec2): (r: Layout)
    ensures |r| == |ps|
    ensures forall i {:trigger r[i]} :: 0 <= i < |ps| ==>
      && P(r[i]) == Add(P(ps[i]), d)
      && r[i].shapeIdx == ps[i].shapeIdx && r[i].varIdx == ps[i].varIdx
  {
    seq(|ps|, i requires 0 <= i < |ps| => ps[i].(x := ps[i].x + d.x, y := ps[i].y + d.y))
  }

  /** A box moved by `d`. */
  function MoveBox(b: Box, d: Vec2): Box
  {
    Box(Add(b.lt, d), Add(b.rb, d))
  }

  /** Moving every rectangle moves their bounding box. */
  lemma HullOfMoved(bs: seq<Box>, cs: seq<Box>, d: Vec2, b: Box)
    requires |cs| == |bs| && forall i :: 0 <= i < |bs| ==> cs[i] == MoveBox(bs[i], d)
    requires IsHullOf(bs, b)
    ensures IsHullOf(cs, MoveBox(b, d))
  {
    var i0 :| 0 <= i0 < |bs| && b.lt.x == bs[i0].lt.x;
    var i1 :| 0 <= i1 < |bs| && b.lt.y == bs[i1].lt.y;
    var i2 :| 0 <= i2 < |bs| && b.rb.x == bs[i2].rb.x;
    var i3 :| 0 <= i3 < |bs| && b.rb.y == bs[i3].rb.y;
    var m := MoveBox(b, d);
    assert m.lt.x == cs[i0].lt.x && m.lt.y == cs[i1].lt.y && m.rb.x == cs[i2].rb.x && m.rb.y == cs[i3].rb.y;
  }

  /** Moving every rectangle moves the computed bounding box with it. */
  lemma HullMove(bs: seq<Box>, cs: seq<Box>, d: Vec2)
    requires IntBoxes(bs) && IntBoxes(cs) && |bs| > 0
    requires |cs| == |bs| && forall i :: 0 <= i < |bs| ==> cs[i] == MoveBox(bs[i], d)
    ensures Hull(cs) == MoveBox(Hull(bs), d)
  {
    HullIsHull(bs);
    HullIsHull(cs);
    HullOfMoved(bs, cs, d, Hull(bs));
    HullUnique(cs, Hull(cs), MoveBox(Hull(bs), d));
  }

  /** Moving every placement moves the bounding box with it. */
  lemma BoundsShift(vars: VariationArray, ps: Layout, d: Vec2)
    requires Placeable(vars, ps) && InRange(ps) && |ps| > 0
    requires InRange(Shift(ps, d))
    ensures Placeable(vars, Shift(ps, d))
    ensures Bounds(vars, Shift(ps, d)) == MoveBox(Bounds(vars, ps), d)
  {
    var qs := Shift(ps, d);
    FramesInRange(vars, ps);
    FramesInRange(vars, qs);
    forall i | 0 <= i < |ps| ensures Frames(vars, qs)[i] == MoveBox(Frames(vars, ps)[i], d) {
      assert ShapeAt(vars, qs, i) == ShapeAt(vars, ps, i);
    }
    HullMove(Frames(vars, ps), Frames(vars, qs), d);
  }

  /** The translation `center` subtracts: half the sum of the corners, each
      halved as C++ `int` division does. */
  function CenterOffset(b: Box): Vec2
  {
    Vec2(TruncHalf(b.rb.x + b.lt.x), TruncHalf(b.rb.y + b.lt.y))
  }

  /** `center`. */
  function Center(vars: VariationArray, ps: Layout): (r: Layout)
    requires Placeable(vars, ps)
    ensures |r| == |ps|
  {
    var c := CenterOffset(Bounds(vars, ps));
    Shift(ps, Vec2(-c.x, -c.y))
  }

  /** Centring moves every placement by one common vector and changes no
      shape or variation: the layout's shape is kept, and so are the
      offsets between placements. */
  lemma CenterTranslates(vars: VariationArray, ps: Layout)
    requires Placeable(vars, ps)
    ensures Placeable(vars, Center(vars, ps))
    ensures exists d :: Center(vars, ps) == Shift(ps, d)
    ensures forall i, j :: 0 <= i < |ps| && 0 <= j < |ps| ==>
      Sub(P(Center(vars, ps)[i]), P(Center(vars, ps)[j])) == Sub(P(ps[i]), P(ps[j]))
  {
    var c := CenterOffset(Bounds(vars, ps));
    assert Center(vars, ps) == Shift(ps, Vec2(-c.x, -c.y));
  }

  /** After centring, the corners of the bounding box sum to -1, 0 or 1 on
      each axis: the box sits on the origin up to the truncated halving. */
  lemma CenterCentres(vars: VariationArray, ps: Layout)
    requires Placeable(vars, ps) && InRange(ps) && |ps| > 0
    requires InRange(Center(vars, ps))
    ensures Placeable(vars, Center(vars, ps))
    ensures -1 <= Bounds(vars, Center(vars, ps)).lt.x + Bounds(vars, Center(vars, ps)).rb.x <= 1
    ensures -1 <= Bounds(vars, Center(vars, ps)).lt.y + Bounds(vars, Center(vars, ps)).rb.y <= 1
  {
    var b := Bounds(vars, ps);
    var c := CenterOffset(b);
    var d := Vec2(-c.x, -c.y);
    assert Center(vars, ps) == Shift(ps, d);
    BoundsShift(vars, ps, d);
    var m := MoveBox(b, d);
    assert Bounds(vars, Center(vars, ps)) == m;
    assert m.lt.x + m.rb.x == b.lt.x + b.rb.x - 2 * c.x;
    assert m.lt.y + m.rb.y == b.lt.y + b.rb.y - 2 * c.y;
  }

  /** Centring a centred layout changes nothing. */
  lemma CenterIdempotent(vars: VariationArray, ps: Layout)
    requires Placeable(vars, ps) && InRange(ps) && |ps| > 0
    requires InRange(Center(vars, ps))
    ensures Placeable(vars, Center(vars, ps))
    ensures Center(vars, Center(vars, ps)) == Center(vars, ps)
  {
    CenterCentres(vars, ps);
    var qs := Center(vars, ps);
    var c := CenterOffset(Bounds(vars, qs));
    assert c == Vec2(0, 0);
    assert Shift(qs, Vec2(-c.x, -c.y)) == qs;
  }
}
