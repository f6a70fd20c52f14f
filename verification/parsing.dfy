/** `shape::parse`: reading shapes drawn as text, one line per row, any
    character other than a space marking a square, an empty line ending the
    shape. The stream is modelled as the list of lines `std::getline` would
    return. */
module Parsing {
  import opened Vectors
  import opened Shapes
  import opened Lists

  /** The squares one line contributes: `(i, row)` for each non-space
      character `line[i]`, left to right. */
  function RowCells(line: string, row: int): seq<Vec2>
    decreases |line|
  {
    if line == [] then []
    else
      var n := |line| - 1;
      RowCells(line[..n], row) + (if line[n] != ' ' then [Vec2(n, row)] else [])
  }

  /** A line contributes exactly its non-space characters, in increasing
      column order. */
  lemma {:induction false} RowCellsExact(line: string, row: int)
    ensures forall c :: c in RowCells(line, row) <==> c.y == row && 0 <= c.x < |line| && line[c.x] != ' '
    ensures forall i, j :: 0 <= i < j < |RowCells(line, row)| ==> RowCells(line, row)[i].x < RowCells(line, row)[j].x
    decreases |line|
  {
    if line != [] {
      var n := |line| - 1;
      RowCellsExact(line[..n], row);
      assert forall x :: 0 <= x < n ==> line[x] == line[..n][x];
    }
  }

  /** The index of the first empty line, or the number of lines when there
      is none: the lines before it are the rows of the shape. */
  function StopAt(lines: seq<string>): (k: nat)
    ensures k <= |lines|
    ensures forall i :: 0 <= i < k ==> lines[i] != ""
    ensures k < |lines| ==> lines[k] == ""
  {
    if lines == [] || lines[0] == "" then 0 else 1 + StopAt(lines[1..])
  }

  /** The reading loop of `parse` from row `row` on: the squares read and
      the number of lines consumed, the terminating empty line included. */
  function ReadRows(lines: seq<string>, row: int): (r: (seq<Vec2>, nat))
    ensures r.1 <= |lines|
    decreases |lines|
  {
    if lines == [] then ([], 0)
    else if lines[0] == "" then ([], 1)
    else
      var rest := ReadRows(lines[1..], row + 1);
      (RowCells(lines[0], row) + rest.0, rest.1 + 1)
  }

  /** What `parse` leaves behind: whether it read a square, the shape, and
      the lines still unread. */
  datatype Parsed = Parsed(ok: bool, shape: Shape, rest: seq<string>)

  /** `parse(is, sh)` on a fresh `sh`. */
  function Parse(lines: seq<string>): (p: Parsed)
    ensures p.ok <==> |p.shape.squares| > 0
    ensures |p.rest| <= |lines|
    ensures p.ok ==> |p.rest| < |lines|
  {
    var (cells, used) := ReadRows(lines, 0);
    ReadRowsConsumes(lines, 0);
    Parsed(|cells| > 0, Shape(cells), lines[used..])
  }

  /** Reading stops after the first empty line, or at the end: the rows
      read are the lines before `StopAt`, and a square means a line was
      consumed. */
  lemma {:induction false} ReadRowsConsumes(lines: seq<string>, row: int)
    ensures ReadRows(lines, row).1 == if StopAt(lines) < |lines| then StopAt(lines) + 1 else |lines|
    ensures |ReadRows(lines, row).0| > 0 ==> ReadRows(lines, row).1 > 0
    decreases |lines|
  {
    if lines != [] && lines[0] != "" {
      ReadRowsConsumes(lines[1..], row + 1);
    }
  }

  /** The squares read are exactly the non-space characters of the rows
      before the first empty line, each at (column, `row` + line index). */
  lemma {:induction false} ReadRowsCells(lines: seq<string>, row: int, c: Vec2)
    ensures c in ReadRows(lines, row).0 <==>
      && row <= c.y < row + StopAt(lines)
      && 0 <= c.x < |lines[c.y - row]|
      && lines[c.y - row][c.x] != ' '
    decreases |lines|
  {
    if lines != [] && lines[0] != "" {
      var sub := lines[1..];
      ReadRowsCells(sub, row + 1, c);
      RowCellsExact(lines[0], row);
      assert StopAt(lines) == 1 + StopAt(sub);
      if row < c.y < row + StopAt(lines) {
        assert lines[c.y - row] == sub[c.y - (row + 1)];
      }
    }
  }

  /** Reading order: an earlier row, or the same row and an earlier column. */
  predicate ReadingBefore(a: Vec2, b: Vec2)
  {
    a.y < b.y || (a.y == b.y && a.x < b.x)
  }

  /** The squares come out in reading order, all on row `row` or below. */
  lemma {:induction false} ReadRowsOrdered(lines: seq<string>, row: int)
    ensures StrictlySorted(ReadRows(lines, row).0, ReadingBefore)
    ensures forall i :: 0 <= i < |ReadRows(lines, row).0| ==> ReadRows(lines, row).0[i].y >= row
    decreases |lines|
  {
    if lines != [] && lines[0] != "" {
      var head := RowCells(lines[0], row);
      var tail := ReadRows(lines[1..], row + 1).0;
      ReadRowsOrdered(lines[1..], row + 1);
      RowCellsExact(lines[0], row);
      var all := ReadRows(lines, row).0;
      assert all == head + tail;
      forall i | 0 <= i < |head| ensures head[i].y == row {
        assert head[i] in head;
      }
      forall i, j | 0 <= i < j < |all| ensures ReadingBefore(all[i], all[j]) {
        if j < |head| {
          assert all[i] == head[i] && all[j] == head[j];
        } else if i < |head| {
          assert all[i] == head[i] && all[j] == tail[j - |head|];
        } else {
          assert all[i] == tail[i - |head|] && all[j] == tail[j - |head|];
        }
      }
    }
  }

  /** A parsed square `(x, y)` is exactly a non-space character at column
      `x` of line `y`, above the first empty line; so the shape is one
      `setup` can run on. */
  lemma ParseCells(lines: seq<string>, c: Vec2)
    ensures c in Parse(lines).shape.squares <==>
      0 <= c.y < StopAt(lines) && 0 <= c.x < |lines[c.y]| && lines[c.y][c.x] != ' '
  {
    ReadRowsCells(lines, 0, c);
  }

  /** Parsed shapes have no negative square. */
  lemma ParseValid(lines: seq<string>)
    ensures Valid(Parse(lines).shape)
  {
    var s := Parse(lines).shape;
    forall i | 0 <= i < |s.squares| ensures s.squares[i].x >= 0 && s.squares[i].y >= 0 {
      ParseCells(lines, s.squares[i]);
    }
  }

  /** The list form of `parse`: shapes are read one after another until one
      comes back without squares. */
  function ParseAll(lines: seq<string>): (r: seq<Shape>)
    ensures forall i :: 0 <= i < |r| ==> |r[i].squares| > 0 && Valid(r[i])
    decreases |lines|
  {
    var p := Parse(lines);
    if !p.ok then []
    else
      ParseValid(lines);
      [p.shape] + ParseAll(p.rest)
  }

  /** The squares of a parse are in reading order. */
  lemma ParseOrdered(lines: seq<string>)
    ensures StrictlySorted(Parse(lines).shape.squares, ReadingBefore)
  {
    ReadRowsOrdered(lines, 0);
  }

  /** Parsing text with no empty line consumes all of it, and yields the
      one list in reading order of its non-space characters. */
  lemma ParseWhole(lines: seq<string>, cells: seq<Vec2>)
    requires forall i :: 0 <= i < |lines| ==> lines[i] != ""
    requires StrictlySorted(cells, ReadingBefore)
    requires forall c :: c in cells <==> 0 <= c.y < |lines| && 0 <= c.x < |lines[c.y]| && lines[c.y][c.x] != ' '
    ensures Parse(lines).shape.squares == cells
    ensures Parse(lines).rest == []
  {
    ReadRowsConsumes(lines, 0);
    ParseOrdered(lines);
    forall c ensures c in Parse(lines).shape.squares <==> c in cells {
      ParseCells(lines, c);
    }
    SortedUnique(Parse(lines).shape.squares, cells, ReadingBefore);
  }

  /** `test_shape_parse`: the text of `SHAPE1` reads as the squares the test
      lists. */
  lemma ParseFixture1()
    ensures Parse(["   ", " O", " OOO ", " O"]) == Parsed(true, Shape1, [])
  {
    ParseWhole(["   ", " O", " OOO ", " O"], Shape1.squares);
  }

  /** `test_shape_parse`: the text of `SHAPE2` reads as the squares the test
      lists. */
  lemma ParseFixture2()
    ensures Parse(["   O", " OOO ", " O"]) == Parsed(true, Shape2, [])
  {
    ParseWhole(["   O", " OOO ", " O"], Shape2.squares);
  }

  /** The text of `SHAPE3` reads as the shape the rotation tests start from. */
  lemma ParseFixture3()
    ensures Parse(["OOOO", "   O"]) == Parsed(true, Shape3, [])
  {
    ParseWhole(["OOOO", "   O"], Shape3.squares);
  }
}
