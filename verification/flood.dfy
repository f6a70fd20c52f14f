/** The grid half of `flood_fill`: choosing the start cell and the
    depth-first 8-connected fill over unoccupied cells, on a `w` x `h`
    occupancy mask. The fill is stated against a reference definition:
    the cells reachable from the start through unoccupied 8-neighbours.
    It gives -1 when one of them lies on the rim of the grid, and
    otherwise their number. */
module Flood {
  import opened Vectors
  import opened Cells
  import opened Lists

  /** A cell whose eight neighbours all lie in the grid. */
  predicate Interior(c: Vec2, w: int, h: int)
  {
    0 < c.x < w - 1 && 0 < c.y < h - 1
  }

  /** A grid cell is interior exactly when none of its `COFFS` neighbours
      leaves the grid. */
  lemma InteriorIffNeighboursIn(c: Vec2, w: int, h: int)
    requires InBox(c, w, h)
    ensures Interior(c, w, h) <==> forall k :: 0 <= k < 8 ==> InBox(Add(c, Coffs[k]), w, h)
  {
    if !Interior(c, w, h) {
      if c.x == 0 { assert !InBox(Add(c, Coffs[2]), w, h); }
      else if c.y == 0 { assert !InBox(Add(c, Coffs[3]), w, h); }
      else if c.x == w - 1 { assert !InBox(Add(c, Coffs[0]), w, h); }
      else { assert !InBox(Add(c, Coffs[1]), w, h); }
    }
  }

  /** One move of the fill: to an adjacent grid cell that is not occupied. */
  predicate Step(occ: Mask, w: int, h: int, a: Vec2, b: Vec2)
    requires Sized(occ, w, h)
  {
    InBox(b, w, h) && !At(occ, w, h, b) && Adjacent(a, b)
  }

  /** A sequence of moves. */
  ghost predicate Walk(occ: Mask, w: int, h: int, p: seq<Vec2>)
    requires Sized(occ, w, h)
  {
    |p| >= 1 && forall i :: 0 <= i < |p| - 1 ==> Step(occ, w, h, p[i], p[i + 1])
  }

  /** Some walk leads from `s` to `c`. */
  ghost predicate Reaches(occ: Mask, w: int, h: int, s: Vec2, c: Vec2)
    requires Sized(occ, w, h)
  {
    exists p :: Walk(occ, w, h, p) && p[0] == s && p[|p| - 1] == c
  }

  /** The grid cells reachable from `s`, `s` itself included. */
  ghost function Region(occ: Mask, w: int, h: int, s: Vec2): set<Vec2>
    requires Sized(occ, w, h)
  {
    set x, y | 0 <= x < w && 0 <= y < h && Reaches(occ, w, h, s, Vec2(x, y)) :: Vec2(x, y)
  }

  lemma RegionHas(occ: Mask, w: int, h: int, s: Vec2, c: Vec2)
    requires Sized(occ, w, h)
    ensures c in Region(occ, w, h, s) <==> InBox(c, w, h) && Reaches(occ, w, h, s, c)
  {
    if InBox(c, w, h) && Reaches(occ, w, h, s, c) {
      assert c == Vec2(c.x, c.y);
    }
  }

  /** The fill from `s` as specified: -1 when a reachable cell lies on the
      rim of the grid (the region is open), otherwise the size of the
      region. */
  ghost function FloodSpec(occ: Mask, w: int, h: int, s: Vec2): int
    requires Sized(occ, w, h)
  {
    if exists c :: c in Region(occ, w, h, s) && !Interior(c, w, h) then -1
    else |Region(occ, w, h, s)|
  }

  /** A region that is one interior cell is closed and has area 1. */
  lemma SingletonArea(occ: Mask, w: int, h: int, s: Vec2)
    requires Sized(occ, w, h) && Region(occ, w, h, s) == {s} && Interior(s, w, h)
    ensures FloodSpec(occ, w, h, s) == 1
  {
    assert |{s}| == 1;
  }

  /** Every cell reaches itself. */
  lemma ReachesSelf(occ: Mask, w: int, h: int, s: Vec2)
    requires Sized(occ, w, h)
    ensures Reaches(occ, w, h, s, s)
  {
    assert Walk(occ, w, h, [s]);
  }

  /** A walk extended by one move is a walk. */
  lemma ReachesStep(occ: Mask, w: int, h: int, s: Vec2, a: Vec2, b: Vec2)
    requires Sized(occ, w, h)
    requires Reaches(occ, w, h, s, a) && Step(occ, w, h, a, b)
    ensures Reaches(occ, w, h, s, b)
  {
    var p :| Walk(occ, w, h, p) && p[0] == s && p[|p| - 1] == a;
    var q := p + [b];
    assert forall i :: 0 <= i < |p| ==> q[i] == p[i];
    assert Walk(occ, w, h, q);
  }

  /** A walk that starts in a set closed under moves stays in it. */
  lemma {:induction false} WalkStaysIn(occ: Mask, w: int, h: int, p: seq<Vec2>, cells: set<Vec2>)
    requires Sized(occ, w, h)
    requires Walk(occ, w, h, p) && p[0] in cells
    requires forall a, b :: a in cells && Step(occ, w, h, a, b) ==> b in cells
    ensures p[|p| - 1] in cells
    decreases |p|
  {
    if |p| > 1 {
      var n := |p| - 1;
      var q := p[..n];
      assert forall i :: 0 <= i < n ==> q[i] == p[i];
      assert Walk(occ, w, h, q);
      WalkStaysIn(occ, w, h, q, cells);
      assert Step(occ, w, h, p[n - 1], p[n]);
    }
  }

  /** A set holding `s` and closed under moves holds the whole region. */
  lemma ClosedHoldsRegion(occ: Mask, w: int, h: int, s: Vec2, cells: set<Vec2>)
    requires Sized(occ, w, h)
    requires s in cells
    requires forall a, b :: a in cells && Step(occ, w, h, a, b) ==> b in cells
    ensures Region(occ, w, h, s) <= cells
  {
    forall c | c in Region(occ, w, h, s) ensures c in cells {
      RegionHas(occ, w, h, s, c);
      var p :| Walk(occ, w, h, p) && p[0] == s && p[|p| - 1] == c;
      WalkStaysIn(occ, w, h, p, cells);
    }
  }

  /** The cells of the grid. */
  function GridCells(w: int, h: int): (r: set<Vec2>)
    ensures forall c :: c in r <==> InBox(c, w, h)
  {
    var r := set x, y | 0 <= x < w && 0 <= y < h :: Vec2(x, y);
    assert forall c :: InBox(c, w, h) ==> c == Vec2(c.x, c.y);
    r
  }

  /** What the fill loop keeps true between pops. `seen` holds the cells
      ever pushed: the ones popped (`hits`) and the ones waiting (`stack`);
      they are the marks the fill added to the occupancy mask. */
  ghost predicate FillState(occ: Mask, w: int, h: int, c0: Vec2, mask: Mask, stack: seq<Vec2>, hits: seq<Vec2>, seen: set<Vec2>)
    requires Sized(occ, w, h)
  {
    && Sized(mask, w, h)
    && (forall c :: InBox(c, w, h) ==> (At(mask, w, h, c) <==> At(occ, w, h, c) || c in seen))
    && (forall c :: c in seen <==> c in hits || c in stack)
    && (forall c :: c in seen ==> InBox(c, w, h) && Reaches(occ, w, h, c0, c) && (c == c0 || !At(occ, w, h, c)))
    && (forall i, j :: 0 <= i < j < |hits| ==> hits[i] != hits[j])
    && (forall i, j :: 0 <= i < j < |stack| ==> stack[i] != stack[j])
    && (forall i, j :: 0 <= i < |hits| && 0 <= j < |stack| ==> hits[i] != stack[j])
  }

  /** The popped cells are interior and everything one move away from them
      has been pushed. */
  ghost predicate Expanded(occ: Mask, w: int, h: int, hits: seq<Vec2>, seen: set<Vec2>)
    requires Sized(occ, w, h)
  {
    && (forall i :: 0 <= i < |hits| ==> Interior(hits[i], w, h))
    && (forall i, d :: 0 <= i < |hits| && Step(occ, w, h, hits[i], d) ==> d in seen)
  }

  /** The state right after the start cell is pushed and marked. */
  lemma FillStarts(occ: Mask, w: int, h: int, c0: Vec2)
    requires Sized(occ, w, h) && InBox(c0, w, h)
    ensures FillState(occ, w, h, c0, Mark(occ, w, h, c0), [c0], [], {c0})
    ensures Expanded(occ, w, h, [], {c0})
  {
    ReachesSelf(occ, w, h, c0);
  }

  /** Popping the top of the stack and handing it to `hit_fn` keeps the
      state. */
  lemma FillPops(occ: Mask, w: int, h: int, c0: Vec2, mask: Mask, stack: seq<Vec2>, hits: seq<Vec2>, seen: set<Vec2>)
    requires Sized(occ, w, h)
    requires FillState(occ, w, h, c0, mask, stack, hits, seen) && stack != []
    ensures var n := |stack| - 1;
      FillState(occ, w, h, c0, mask, stack[..n], hits + [stack[n]], seen)
  {
    var n := |stack| - 1;
    var hs := hits + [stack[n]];
    var st := stack[..n];
    assert forall i :: 0 <= i < |hits| ==> hs[i] == hits[i];
    assert forall c :: c in stack <==> c in st || c == stack[n];
    forall i, j | 0 <= i < |hs| && 0 <= j < |st| ensures hs[i] != st[j] {
      if i < |hits| { assert st[j] == stack[j]; } else { assert st[j] == stack[j]; }
    }
  }

  /** Pushing and marking an unmarked grid cell adjacent to a pushed one
      keeps the state: the cell is unoccupied, so the start reaches it. */
  lemma FillPushes(occ: Mask, w: int, h: int, c0: Vec2, mask: Mask, stack: seq<Vec2>, hits: seq<Vec2>, seen: set<Vec2>, c: Vec2, c1: Vec2)
    requires Sized(occ, w, h)
    requires FillState(occ, w, h, c0, mask, stack, hits, seen)
    requires c in seen && Adjacent(c, c1) && InBox(c1, w, h) && !At(mask, w, h, c1)
    ensures Step(occ, w, h, c, c1)
    ensures FillState(occ, w, h, c0, Mark(mask, w, h, c1), stack + [c1], hits, seen + {c1})
  {
    ReachesStep(occ, w, h, c0, c, c1);
    var st := stack + [c1];
    assert forall i :: 0 <= i < |stack| ==> st[i] == stack[i];
    assert forall c :: c in st <==> c in stack || c == c1;
  }

  /** A neighbour of `c` that has been looked at: it lies in the grid and,
      if the fill may move there, it has been pushed. */
  predicate Checked(occ: Mask, w: int, h: int, seen: set<Vec2>, c: Vec2, d: Vec2)
    requires Sized(occ, w, h)
  {
    InBox(d, w, h) && (Step(occ, w, h, c, d) ==> d in seen)
  }

  /** A marked neighbour needs no push: it is occupied or already pushed. */
  lemma FillSkips(occ: Mask, w: int, h: int, c0: Vec2, mask: Mask, stack: seq<Vec2>, hits: seq<Vec2>, seen: set<Vec2>, c: Vec2, c1: Vec2)
    requires Sized(occ, w, h)
    requires FillState(occ, w, h, c0, mask, stack, hits, seen)
    requires InBox(c1, w, h) && At(mask, w, h, c1)
    ensures Checked(occ, w, h, seen, c, c1)
  {
  }

  /** Marking more cells keeps the popped cells expanded. */
  lemma ExpandedGrows(occ: Mask, w: int, h: int, hits: seq<Vec2>, seen: set<Vec2>, more: set<Vec2>)
    requires Sized(occ, w, h)
    requires Expanded(occ, w, h, hits, seen) && seen <= more
    ensures Expanded(occ, w, h, hits, more)
  {
  }

  /** A popped cell all of whose neighbours were checked joins the
      expanded ones. */
  lemma ExpandedAppend(occ: Mask, w: int, h: int, hits: seq<Vec2>, c: Vec2, seen: set<Vec2>)
    requires Sized(occ, w, h) && InBox(c, w, h)
    requires Expanded(occ, w, h, hits, seen)
    requires forall j :: 0 <= j < 8 ==> Checked(occ, w, h, seen, c, Add(c, Coffs[j]))
    ensures Expanded(occ, w, h, hits + [c], seen)
  {
    InteriorIffNeighboursIn(c, w, h);
    forall d | Step(occ, w, h, c, d) ensures d in seen {
      CoffsAreAdjacent(c, d);
    }
    var hs := hits + [c];
    assert forall i :: 0 <= i < |hits| ==> hs[i] == hits[i];
  }

  /** A popped cell with a neighbour outside the grid makes the region
      open. */
  lemma FillEscapes(occ: Mask, w: int, h: int, c0: Vec2, mask: Mask, stack: seq<Vec2>, hits: seq<Vec2>, seen: set<Vec2>, c: Vec2, k: int)
    requires Sized(occ, w, h)
    requires FillState(occ, w, h, c0, mask, stack, hits, seen) && c in seen
    requires 0 <= k < 8 && !InBox(Add(c, Coffs[k]), w, h)
    ensures FloodSpec(occ, w, h, c0) == -1
  {
    InteriorIffNeighboursIn(c, w, h);
    RegionHas(occ, w, h, c0, c);
  }

  /** The cells handed to `hit_fn` so far are distinct cells of the region,
      none occupied unless it is the start. */
  lemma FillHits(occ: Mask, w: int, h: int, c0: Vec2, mask: Mask, stack: seq<Vec2>, hits: seq<Vec2>, seen: set<Vec2>)
    requires Sized(occ, w, h)
    requires FillState(occ, w, h, c0, mask, stack, hits, seen)
    ensures forall i, j :: 0 <= i < j < |hits| ==> hits[i] != hits[j]
    ensures forall i :: 0 <= i < |hits| ==> hits[i] in Region(occ, w, h, c0) && (hits[i] == c0 || !At(occ, w, h, hits[i]))
  {
    forall i | 0 <= i < |hits| ensures hits[i] in Region(occ, w, h, c0) {
      RegionHas(occ, w, h, c0, hits[i]);
    }
  }

  /** With the stack empty, the popped cells are the whole region, each
      once, and none of them on the rim. */
  lemma FillEnds(occ: Mask, w: int, h: int, c0: Vec2, mask: Mask, hits: seq<Vec2>, seen: set<Vec2>)
    requires Sized(occ, w, h)
    requires FillState(occ, w, h, c0, mask, [], hits, seen) && Expanded(occ, w, h, hits, seen) && c0 in seen
    ensures FloodSpec(occ, w, h, c0) == |hits| >= 1
    ensures forall c :: c in Region(occ, w, h, c0) <==> c in hits
    ensures forall i :: 0 <= i < |hits| ==> hits[i] in Region(occ, w, h, c0) && (hits[i] == c0 || !At(occ, w, h, hits[i]))
  {
    forall a, b | a in seen && Step(occ, w, h, a, b) ensures b in seen {
      var i :| 0 <= i < |hits| && hits[i] == a;
    }
    ClosedHoldsRegion(occ, w, h, c0, seen);
    forall c | c in seen ensures c in Region(occ, w, h, c0) {
      RegionHas(occ, w, h, c0, c);
    }
    assert Region(occ, w, h, c0) == Elements(hits);
    DistinctCount(hits);
  }

  /** Pushing more cells keeps the first `k` neighbours of `c` checked, and
      with the `k`-th one checked too, the first `k + 1` are. */
  lemma CheckedGrows(occ: Mask, w: int, h: int, seen: set<Vec2>, more: set<Vec2>, c: Vec2, k: int)
    requires Sized(occ, w, h) && seen <= more && 0 <= k < 8
    requires forall j :: 0 <= j < k ==> Checked(occ, w, h, seen, c, Add(c, Coffs[j]))
    requires Checked(occ, w, h, more, c, Add(c, Coffs[k]))
    ensures forall j :: 0 <= j < k + 1 ==> Checked(occ, w, h, more, c, Add(c, Coffs[j]))
  {
  }

  /** One in-grid neighbour `c1` of the popped cell `c`: pushed and marked
      when it is not marked yet, left alone otherwise. */
  method Visit(occ: Mask, w: int, h: int, c0: Vec2, mask: Mask, stack: seq<Vec2>, hits: seq<Vec2>,
               ghost seen: set<Vec2>, ghost done: seq<Vec2>, c: Vec2, c1: Vec2)
    returns (mask': Mask, stack': seq<Vec2>, ghost seen': set<Vec2>)
    requires Sized(occ, w, h)
    requires FillState(occ, w, h, c0, mask, stack, hits, seen) && Expanded(occ, w, h, done, seen)
    requires c in seen && Adjacent(c, c1) && InBox(c1, w, h)
    ensures seen <= seen'
    ensures FillState(occ, w, h, c0, mask', stack', hits, seen') && Expanded(occ, w, h, done, seen')
    ensures Checked(occ, w, h, seen', c, c1)
    ensures seen' == seen ==> stack' == stack
    ensures Sized(mask', w, h) && At(mask', w, h, c1)
    ensures if At(mask, w, h, c1) then stack' == stack else stack' == stack + [c1]
  {
    if !At(mask, w, h, c1) {
      FillPushes(occ, w, h, c0, mask, stack, hits, seen, c, c1);
      stack' := stack + [c1];
      mask' := Mark(mask, w, h, c1);
      seen' := seen + {c1};
      ExpandedGrows(occ, w, h, done, seen, seen');
    } else {
      FillSkips(occ, w, h, c0, mask, stack, hits, seen, c, c1);
      mask', stack', seen' := mask, stack, seen;
    }
  }

  /** The inner loop of the fill for the popped cell `c`: the `COFFS`
      neighbours in order, returning at the first one outside the grid and
      pushing and marking each unmarked one. */
  method Expand(occ: Mask, w: int, h: int, c0: Vec2, mask: Mask, stack: seq<Vec2>, hits: seq<Vec2>,
                ghost seen: set<Vec2>, ghost done: seq<Vec2>, c: Vec2)
    returns (escaped: bool, mask': Mask, stack': seq<Vec2>, ghost seen': set<Vec2>)
    requires Sized(occ, w, h)
    requires FillState(occ, w, h, c0, mask, stack, hits, seen) && Expanded(occ, w, h, done, seen)
    requires hits == done + [c] && c in seen && InBox(c, w, h)
    ensures seen <= seen'
    ensures FillState(occ, w, h, c0, mask', stack', hits, seen')
    ensures escaped ==> FloodSpec(occ, w, h, c0) == -1
    ensures !escaped ==> Expanded(occ, w, h, hits, seen')
    ensures !escaped && seen' == seen ==> stack' == stack
  {
    mask', stack', seen' := mask, stack, seen;
    var k := 0;
    while k < 8
      invariant 0 <= k <= 8
      invariant FillState(occ, w, h, c0, mask', stack', hits, seen')
      invariant Expanded(occ, w, h, done, seen')
      invariant seen <= seen' && c in seen'
      invariant forall j :: 0 <= j < k ==> Checked(occ, w, h, seen', c, Add(c, Coffs[j]))
      invariant seen' == seen ==> stack' == stack
    {
      var c1 := Add(c, Coffs[k]);
      if c1.x < 0 || c1.y < 0 || c1.x >= w || c1.y >= h {
        FillEscapes(occ, w, h, c0, mask', stack', hits, seen', c, k);
        return true, mask', stack', seen';
      }
      CoffsAreAdjacent(c, c1);
      ghost var before := seen';
      mask', stack', seen' := Visit(occ, w, h, c0, mask', stack', hits, seen', done, c, c1);
      CheckedGrows(occ, w, h, before, seen', c, k);
      k := k + 1;
    }
    ExpandedAppend(occ, w, h, done, c, seen');
    escaped := false;
  }

  /** The fill loop of `flood_fill` from `c0` on the occupancy mask `occ`:
      -1 as soon as a popped cell has a neighbour outside the grid, and
      otherwise the number of popped cells. `hits` lists the cells passed
      to `hit_fn`, in call order. */
  method FloodFrom(occ: Mask, w: int, h: int, c0: Vec2) returns (res: int, hits: seq<Vec2>)
    requires Sized(occ, w, h) && InBox(c0, w, h)
    ensures res == FloodSpec(occ, w, h, c0)
    ensures res == -1 || (res >= 1 && res == |hits|)
    ensures forall i, j :: 0 <= i < j < |hits| ==> hits[i] != hits[j]
    ensures forall i :: 0 <= i < |hits| ==> hits[i] in Region(occ, w, h, c0) && (hits[i] == c0 || !At(occ, w, h, hits[i]))
    ensures res >= 1 ==> forall c :: c in Region(occ, w, h, c0) <==> c in hits
  {
    var mask := Mark(occ, w, h, c0);
    var stack := [c0];
    hits := [];
    ghost var seen: set<Vec2> := {c0};
    ghost var grid := GridCells(w, h);
    FillStarts(occ, w, h, c0);
    while stack != []
      invariant FillState(occ, w, h, c0, mask, stack, hits, seen)
      invariant Expanded(occ, w, h, hits, seen)
      invariant seen <= grid && c0 in seen
      decreases grid - seen, |stack|
    {
      ghost var seen0 := seen;
      ghost var done := hits;
      var rest := stack[..|stack| - 1];
      var c := stack[|stack| - 1];
      FillPops(occ, w, h, c0, mask, stack, hits, seen);
      hits := hits + [c];
      var escaped;
      escaped, mask, stack, seen := Expand(occ, w, h, c0, mask, rest, hits, seen, done, c);
      if escaped {
        FillHits(occ, w, h, c0, mask, stack, hits, seen);
        return -1, hits;
      }
      if seen != seen0 {
        var x :| x in seen && x !in seen0;
        assert x in grid - seen0 && x !in grid - seen;
      }
    }
    FillEnds(occ, w, h, c0, mask, hits, seen);
    res := |hits|;
  }
}
