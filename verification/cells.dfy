/** Occupancy masks, as both `shape::mask` and the flood-fill grid use them.
    The source stores a `w` x `h` mask flat, cell (x, y) at `x + y*w`; the
    model keeps the same cells as `h` rows of `w` entries, `m[y][x]`, which
    is the same data for a fixed width. */
module Cells {
  import opened Vectors

  type Mask = seq<seq<bool>>

  /** The cell lies in the rectangle [0,w) x [0,h). */
  predicate InBox(c: Vec2, w: int, h: int)
  {
    0 <= c.x < w && 0 <= c.y < h
  }

  /** The mask has `h` rows of `w` entries each. */
  predicate Sized(m: Mask, w: int, h: int)
  {
    w >= 0 && h >= 0 && |m| == h && forall r :: 0 <= r < |m| ==> |m[r]| == w
  }

  /** The mask entry of a cell of the rectangle. */
  function At(m: Mask, w: int, h: int, c: Vec2): bool
    requires Sized(m, w, h) && InBox(c, w, h)
  {
    m[c.y][c.x]
  }

  /** The mask with one cell set (`mask[x + y*w] = 1`). */
  function Mark(m: Mask, w: int, h: int, c: Vec2): (r: Mask)
    requires Sized(m, w, h) && InBox(c, w, h)
    ensures Sized(r, w, h)
    ensures forall d :: InBox(d, w, h) ==> At(r, w, h, d) == (d == c || At(m, w, h, d))
  {
    m[c.y := m[c.y][c.x := true]]
  }

  /** All cells lie in the rectangle. */
  predicate AllInBox(cells: seq<Vec2>, w: int, h: int)
  {
    forall i :: 0 <= i < |cells| ==> InBox(cells[i], w, h)
  }

  /** The all-zero mask of `std::vector<char> mask(w*h, 0)`. */
  function Blank(w: int, h: int): (m: Mask)
    requires w >= 0 && h >= 0
    ensures Sized(m, w, h)
    ensures forall c :: InBox(c, w, h) ==> !At(m, w, h, c)
  {
    seq(h, _ => seq(w, _ => false))
  }

  /** Sets the entry of every cell, in list order, as the loops
      `mask[x + y*w] = 1` do. */
  function Paint(m: Mask, w: int, h: int, cells: seq<Vec2>): (r: Mask)
    requires Sized(m, w, h)
    requires AllInBox(cells, w, h)
    ensures Sized(r, w, h)
    decreases |cells|
  {
    if cells == [] then m
    else
      var n := |cells| - 1;
      Mark(Paint(m, w, h, cells[..n]), w, h, cells[n])
  }

  /** After painting, a cell is set exactly when it was set before or is one
      of the painted cells. */
  lemma {:induction false} PaintSets(m: Mask, w: int, h: int, cells: seq<Vec2>, c: Vec2)
    requires Sized(m, w, h)
    requires AllInBox(cells, w, h)
    requires InBox(c, w, h)
    ensures At(Paint(m, w, h, cells), w, h, c) <==> At(m, w, h, c) || c in cells
    decreases |cells|
  {
    if cells != [] {
      var n := |cells| - 1;
      PaintSets(m, w, h, cells[..n], c);
      assert cells == cells[..n] + [cells[n]];
    }
  }

  /** A blank mask painted with `cells` holds exactly the cells. */
  lemma PaintBlank(w: int, h: int, cells: seq<Vec2>, c: Vec2)
    requires w >= 0 && h >= 0
    requires AllInBox(cells, w, h)
    requires InBox(c, w, h)
    ensures At(Paint(Blank(w, h), w, h, cells), w, h, c) <==> c in cells
  {
    PaintSets(Blank(w, h), w, h, cells, c);
  }

  /** Two masks of the same size that agree on every cell are equal. */
  lemma MaskExtensional(a: Mask, b: Mask, w: int, h: int)
    requires Sized(a, w, h) && Sized(b, w, h)
    requires forall c :: InBox(c, w, h) ==> At(a, w, h, c) == At(b, w, h, c)
    ensures a == b
  {
    forall y | 0 <= y < h ensures a[y] == b[y] {
      forall x | 0 <= x < w ensures a[y][x] == b[y][x] {
        assert At(a, w, h, Vec2(x, y)) == At(b, w, h, Vec2(x, y));
      }
    }
  }
}
