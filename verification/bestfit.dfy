/** `shape::best_fit`: over every variation, every boundary cell of this
    shape and every square of the variation, the placement that puts that
    square on that boundary cell is scored by a caller-supplied cost, and
    the first placement of least cost is written into `res`. The cost is
    the lambda of `arrange_circle`; here it is any function of the
    candidate position and shape. */
module BestFit {
  import opened Vectors
  import opened Shapes
  import opened Lists
  import opened Selection
  import opened Layouts

  /** One `(var, bpos, cpos)` triple of the loops: the variation index, the
      placement `pos + bpos - cpos` and the variation itself. */
  datatype Candidate = Candidate(varIdx: nat, p: Vec2, sh: Shape)

  /** The placement that puts square `cpos` of a shape on cell `bpos` of the
      shape placed at `pos`. */
  function Anchor(pos: Vec2, bpos: Vec2, cpos: Vec2): Vec2
  {
    Sub(Add(pos, bpos), cpos)
  }

  /** The candidates for one boundary cell, one per square, in order. */
  function SquareCandidates(v: nat, sh: Shape, pos: Vec2, bpos: Vec2): (r: seq<Candidate>)
    ensures |r| == |sh.squares| && forall c {:trigger r[c]} :: 0 <= c < |sh.squares| ==>
      r[c] == Candidate(v, Anchor(pos, bpos, sh.squares[c]), sh)
  {
    seq(|sh.squares|, c requires 0 <= c < |sh.squares| => Candidate(v, Anchor(pos, bpos, sh.squares[c]), sh))
  }

  /** The candidates for one variation, boundary cell by boundary cell. */
  function VariationCandidates(v: nat, sh: Shape, pos: Vec2, boundary: seq<Vec2>): seq<Candidate>
  {
    Flatten(seq(|boundary|, b requires 0 <= b < |boundary| => SquareCandidates(v, sh, pos, boundary[b])))
  }

  /** All candidates in the order of the three nested loops. */
  function Candidates(pos: Vec2, boundary: seq<Vec2>, variations: seq<Shape>): seq<Candidate>
  {
    Flatten(seq(|variations|, v requires 0 <= v < |variations| => VariationCandidates(v, variations[v], pos, boundary)))
  }

  /** A triple of the loops puts some square of variation `v` on some
      boundary cell; the candidate list holds exactly those. */
  ghost predicate IsCandidate(pos: Vec2, boundary: seq<Vec2>, variations: seq<Shape>, c: Candidate)
  {
    && c.varIdx < |variations| && c.sh == variations[c.varIdx]
    && exists b, k :: 0 <= b < |boundary| && 0 <= k < |c.sh.squares| && c.p == Anchor(pos, boundary[b], c.sh.squares[k])
  }

  lemma VariationCandidatesExact(v: nat, sh: Shape, pos: Vec2, boundary: seq<Vec2>, c: Candidate)
    ensures c in VariationCandidates(v, sh, pos, boundary) <==>
      c.varIdx == v && c.sh == sh &&
      exists b, k :: 0 <= b < |boundary| && 0 <= k < |sh.squares| && c.p == Anchor(pos, boundary[b], sh.squares[k])
  {
    var ls := seq(|boundary|, b requires 0 <= b < |boundary| => SquareCandidates(v, sh, pos, boundary[b]));
    if c in Flatten(ls) {
      FlattenFrom(ls, c);
      var b :| 0 <= b < |ls| && c in ls[b];
      var k :| 0 <= k < |sh.squares| && ls[b][k] == c;
    }
    if c.varIdx == v && c.sh == sh &&
      exists b, k :: 0 <= b < |boundary| && 0 <= k < |sh.squares| && c.p == Anchor(pos, boundary[b], sh.squares[k])
    {
      var b, k :| 0 <= b < |boundary| && 0 <= k < |sh.squares| && c.p == Anchor(pos, boundary[b], sh.squares[k]);
      assert ls[b][k] == c;
      FlattenHas(ls, b, c);
    }
  }

  /** The candidate list holds exactly the triples of the loops. */
  lemma CandidatesExact(pos: Vec2, boundary: seq<Vec2>, variations: seq<Shape>, c: Candidate)
    ensures c in Candidates(pos, boundary, variations) <==> IsCandidate(pos, boundary, variations, c)
  {
    var ls := seq(|variations|, v requires 0 <= v < |variations| => VariationCandidates(v, variations[v], pos, boundary));
    if c in Flatten(ls) {
      FlattenFrom(ls, c);
      var v :| 0 <= v < |ls| && c in ls[v];
      VariationCandidatesExact(v, variations[v], pos, boundary, c);
    }
    if IsCandidate(pos, boundary, variations, c) {
      VariationCandidatesExact(c.varIdx, variations[c.varIdx], pos, boundary, c);
      FlattenHas(ls, c.varIdx, c);
    }
  }

  /** The cost of each candidate, in order. */
  function Costs(cands: seq<Candidate>, cost: (Vec2, Shape) -> real): (r: seq<real>)
    ensures |r| == |cands| && forall i {:trigger r[i]} :: 0 <= i < |cands| ==> r[i] == cost(cands[i].p, cands[i].sh)
  {
    seq(|cands|, i requires 0 <= i < |cands| => cost(cands[i].p, cands[i].sh))
  }

  /** The loops of `best_fit` over a given boundary list: the index of the
      candidate `res` ends up holding, -1 when it is never written. */
  function FitIndex(boundary: seq<Vec2>, pos: Vec2, variations: seq<Shape>, cost: (Vec2, Shape) -> real): (k: int)
    ensures -1 <= k < |Candidates(pos, boundary, variations)|
  {
    FirstMin(Costs(Candidates(pos, boundary, variations), cost), DblMax)
  }

  /** `res` after the loops over a given boundary list. */
  function FitOn(boundary: seq<Vec2>, res: ShapePos, pos: Vec2, variations: seq<Shape>, cost: (Vec2, Shape) -> real): ShapePos
  {
    var cands := Candidates(pos, boundary, variations);
    var k := FitIndex(boundary, pos, variations, cost);
    if k < 0 then res
    else res.(x := cands[k].p.x, y := cands[k].p.y, varIdx := cands[k].varIdx)
  }

  /** `self.best_fit(res, pos, variations, fit_fn)`: the loops run over the
      boundary of `self`. */
  function BestFitOf(self: Shape, res: ShapePos, pos: Vec2, variations: seq<Shape>, cost: (Vec2, Shape) -> real): ShapePos
    requires Valid(self)
  {
    FitOn(Boundary(self), res, pos, variations, cost)
  }

  /** Nothing is written when every candidate costs `DBL_MAX` or more;
      otherwise the written candidate is a triple of the loops, of least
      cost, and the first of least cost in loop order. The shape index is
      never written. */
  lemma FitOnIsFirstLeast(boundary: seq<Vec2>, res: ShapePos, pos: Vec2, variations: seq<Shape>, cost: (Vec2, Shape) -> real)
    ensures var cands := Candidates(pos, boundary, variations);
      var k := FitIndex(boundary, pos, variations, cost);
      && (k == -1 <==> forall i :: 0 <= i < |cands| ==> cost(cands[i].p, cands[i].sh) >= DblMax)
      && (k == -1 ==> FitOn(boundary, res, pos, variations, cost) == res)
      && (k >= 0 ==>
            && FitOn(boundary, res, pos, variations, cost) == res.(x := cands[k].p.x, y := cands[k].p.y, varIdx := cands[k].varIdx)
            && IsCandidate(pos, boundary, variations, cands[k])
            && cost(cands[k].p, cands[k].sh) < DblMax
            && (forall i :: 0 <= i < |cands| ==> cost(cands[k].p, cands[k].sh) <= cost(cands[i].p, cands[i].sh))
            && (forall i :: 0 <= i < k ==> cost(cands[k].p, cands[k].sh) < cost(cands[i].p, cands[i].sh)))
  {
    var cands := Candidates(pos, boundary, variations);
    var costs := Costs(cands, cost);
    FirstMinIsFirstLeast(costs, DblMax);
    var k := FirstMin(costs, DblMax);
    assert forall i :: 0 <= i < |cands| ==> costs[i] == cost(cands[i].p, cands[i].sh);
    if k >= 0 {
      CandidatesExact(pos, boundary, variations, cands[k]);
      assert forall i :: 0 <= i < |cands| ==> costs[k] <= costs[i];
      assert forall i :: 0 <= i < k ==> costs[k] < costs[i];
    }
  }

  /** `best_fit` on the boundary of `self`: the written placement keeps its
      shape index and, when written at all, puts a square of the chosen
      variation on a boundary cell of `self` at least cost. */
  lemma BestFitIsFirstLeast(self: Shape, res: ShapePos, pos: Vec2, variations: seq<Shape>, cost: (Vec2, Shape) -> real)
    requires Valid(self)
    ensures var cands := Candidates(pos, Boundary(self), variations);
      var k := FitIndex(Boundary(self), pos, variations, cost);
      && BestFitOf(self, res, pos, variations, cost).shapeIdx == res.shapeIdx
      && (k == -1 <==> forall i :: 0 <= i < |cands| ==> cost(cands[i].p, cands[i].sh) >= DblMax)
      && (k == -1 ==> BestFitOf(self, res, pos, variations, cost) == res)
      && (k >= 0 ==>
            && IsCandidate(pos, Boundary(self), variations, cands[k])
            && BestFitOf(self, res, pos, variations, cost) == res.(x := cands[k].p.x, y := cands[k].p.y, varIdx := cands[k].varIdx)
            && (forall i :: 0 <= i < |cands| ==> cost(cands[k].p, cands[k].sh) <= cost(cands[i].p, cands[i].sh))
            && (forall i :: 0 <= i < k ==> cost(cands[k].p, cands[k].sh) < cost(cands[i].p, cands[i].sh)))
  {
    FitOnIsFirstLeast(Boundary(self), res, pos, variations, cost);
  }
}
