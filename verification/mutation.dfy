/** The three mutation operators of the optimiser (`main`, the inner loop
    over `num_flips`): each flip draws an operator and two slots from
    `rand()`, and some operators draw more. The draws are parameters here.
    Slots are positions in the layout; a slot's `shape_idx` says which input
    shape it holds. */
module Mutation {
  import opened Vectors
  import opened Layouts

  /** One flip, decoded from its draws: `mutation == 0` re-draws the
      variations of slots `p1` and `p2` from `r1` and `r2`; `mutation == 1`
      moves the slots `p1..p2` by `COFFS[dir]`; `mutation == 2` exchanges the
      shapes of slots `p1` and `p2`. */
  datatype Flip =
    | ReVary(p1: nat, p2: nat, r1: nat, r2: nat)
    | RangeShift(p1: nat, p2: nat, dir: nat)
    | Swap(p1: nat, p2: nat)

  /** The slots of the flip exist in a layout of `n` slots and its direction
      indexes `COFFS`. */
  predicate Fits(f: Flip, n: nat)
  {
    f.p1 < n && f.p2 < n && (f.RangeShift? ==> f.dir < 8)
  }

  /** `rand() % 3`, `rand() % nshapes` twice, then the operator's own draws:
      two for a re-variation (`r1`, `r2`), one for a shift (`r1 % 8`). */
  function Decode(n: nat, mutation: nat, a: nat, b: nat, r1: nat, r2: nat): (f: Flip)
    requires n > 0
    ensures Fits(f, n)
    ensures f.p1 == a % n && f.p2 == b % n
    ensures mutation % 3 == 0 <==> f.ReVary?
    ensures mutation % 3 == 1 <==> f.RangeShift?
  {
    var p1, p2 := a % n, b % n;
    if mutation % 3 == 0 then ReVary(p1, p2, r1, r2)
    else if mutation % 3 == 1 then RangeShift(p1, p2, r1 % 8)
    else Swap(p1, p2)
  }

  /** The `(uint16_t)` cast of a new `var_idx`. */
  function U16(v: nat): (r: nat)
    ensures r < 0x1_0000 && r <= v
    ensures v < 0x1_0000 ==> r == v
  {
    v % 0x1_0000
  }

  /** Mutation 0: slot `p1`, then slot `p2`, gets the variation
      `rand() % variations[shape_idx].size()`. */
  function Revaried(vars: VariationArray, t: Layout, p1: nat, p2: nat, r1: nat, r2: nat): (r: Layout)
    requires Placeable(vars, t) && p1 < |t| && p2 < |t|
    ensures Placeable(vars, r) && |r| == |t|
    ensures forall i :: 0 <= i < |t| ==>
      P(r[i]) == P(t[i]) && r[i].shapeIdx == t[i].shapeIdx
    ensures forall i :: 0 <= i < |t| && i != p1 && i != p2 ==> r[i] == t[i]
    ensures r[p2].varIdx == U16(r2 % |vars[t[p2].shapeIdx]|)
    ensures p1 != p2 ==> r[p1].varIdx == U16(r1 % |vars[t[p1].shapeIdx]|)
  {
    var t1 := t[p1 := t[p1].(varIdx := U16(r1 % |vars[t[p1].shapeIdx]|))];
    t1[p2 := t1[p2].(varIdx := U16(r2 % |vars[t1[p2].shapeIdx]|))]
  }

  /** Mutation 1: every slot `k` with `p1 <= k <= p2` moves by `offs`; an
      empty range when `p1 > p2`. */
  function Shifted(t: Layout, p1: int, p2: int, offs: Vec2): (r: Layout)
    ensures |r| == |t|
    ensures forall i :: 0 <= i < |t| ==>
      r[i].shapeIdx == t[i].shapeIdx && r[i].varIdx == t[i].varIdx
    ensures forall i :: 0 <= i < |t| && p1 <= i <= p2 ==> P(r[i]) == Add(P(t[i]), offs)
    ensures forall i :: 0 <= i < |t| && !(p1 <= i <= p2) ==> r[i] == t[i]
  {
    seq(|t|, i requires 0 <= i < |t| =>
      if p1 <= i <= p2 then t[i].(x := t[i].x + offs.x, y := t[i].y + offs.y) else t[i])
  }

  /** Mutation 2: slots `p1` and `p2` exchange their shape and variation. */
  function Swapped(t: Layout, p1: nat, p2: nat): (r: Layout)
    requires p1 < |t| && p2 < |t|
    ensures |r| == |t|
    ensures forall i :: 0 <= i < |t| ==> P(r[i]) == P(t[i])
    ensures r[p1].shapeIdx == t[p2].shapeIdx && r[p1].varIdx == t[p2].varIdx
    ensures r[p2].shapeIdx == t[p1].shapeIdx && r[p2].varIdx == t[p1].varIdx
    ensures forall i :: 0 <= i < |t| && i != p1 && i != p2 ==> r[i] == t[i]
  {
    var a, b := t[p1], t[p2];
    var t1 := t[p1 := a.(shapeIdx := b.shapeIdx, varIdx := b.varIdx)];
    t1[p2 := t1[p2].(shapeIdx := a.shapeIdx, varIdx := a.varIdx)]
  }

  /** The shape index of every slot, in slot order. */
  function Order(t: Layout): (r: seq<nat>)
    ensures |r| == |t| && forall i {:trigger r[i]} :: 0 <= i < |t| ==> r[i] == t[i].shapeIdx
  {
    seq(|t|, i requires 0 <= i < |t| => t[i].shapeIdx)
  }

  /** The seed layout: `n` slots at the origin, slot `i` holding shape `i`
      in its first variation. */
  function Identity(n: nat): (r: Layout)
    ensures |r| == n && forall i {:trigger r[i]} :: 0 <= i < n ==> r[i] == ShapePos(0, 0, i, 0)
  {
    seq(n, i requires 0 <= i < n => ShapePos(0, 0, i, 0))
  }

  /** Every input shape `0..n-1` sits in exactly one slot. */
  predicate OnePerShape(t: Layout)
  {
    multiset(Order(t)) == multiset(Order(Identity(|t|)))
  }

  /** A seed layout holds each shape once and names existing variations
      when every shape has one. */
  lemma IdentityOnePerShape(vars: VariationArray, n: nat)
    requires ValidVariations(vars) && |vars| == n
    requires forall s :: 0 <= s < n ==> |vars[s]| > 0
    ensures OnePerShape(Identity(n)) && WellFormed(vars, Identity(n))
  {
  }

  /** `std::swap` of two entries leaves the multiset of entries alone. */
  lemma SwapEntries<T>(s: seq<T>, i: nat, j: nat)
    requires i < |s| && j < |s|
    ensures multiset(s[i := s[j]][j := s[i]]) == multiset(s)
  {
    if i != j {
      var s1 := s[i := s[j]];
      assert multiset(s1) == multiset(s) - multiset{s[i]} + multiset{s[j]};
      assert s1[j] == s[j];
    }
  }

  /** One flip. */
  function Apply(vars: VariationArray, t: Layout, f: Flip): (r: Layout)
    requires Placeable(vars, t) && Fits(f, |t|)
    ensures Placeable(vars, r) && |r| == |t|
    ensures multiset(Order(r)) == multiset(Order(t))
  {
    match f
    case ReVary(p1, p2, r1, r2) =>
      var r := Revaried(vars, t, p1, p2, r1, r2);
      assert Order(r) == Order(t);
      r
    case RangeShift(p1, p2, dir) =>
      ShiftedKeepsSlots(vars, t, p1, p2, Coffs[dir]);
      Shifted(t, p1, p2, Coffs[dir])
    case Swap(p1, p2) =>
      SwappedPermutes(t, p1, p2);
      Swapped(t, p1, p2)
  }

  /** A shift moves slots and keeps what they hold. */
  lemma ShiftedKeepsSlots(vars: VariationArray, t: Layout, p1: int, p2: int, offs: Vec2)
    requires Placeable(vars, t)
    ensures Placeable(vars, Shifted(t, p1, p2, offs))
    ensures Order(Shifted(t, p1, p2, offs)) == Order(t)
  {
    var r := Shifted(t, p1, p2, offs);
    assert forall i :: 0 <= i < |t| ==> r[i].shapeIdx == t[i].shapeIdx && r[i].varIdx == t[i].varIdx;
    assert Order(r) == Order(t);
  }

  /** A swap exchanges two entries of the order. */
  lemma SwappedPermutes(t: Layout, p1: nat, p2: nat)
    requires p1 < |t| && p2 < |t|
    ensures multiset(Order(Swapped(t, p1, p2))) == multiset(Order(t))
  {
    var o := Order(t);
    assert Order(Swapped(t, p1, p2)) == o[p1 := o[p2]][p2 := o[p1]];
    SwapEntries(o, p1, p2);
  }

  /** The flips of one retry, applied in order to a copy of the parent. */
  function ApplyAll(vars: VariationArray, t: Layout, fs: seq<Flip>): (r: Layout)
    requires Placeable(vars, t) && forall k :: 0 <= k < |fs| ==> Fits(fs[k], |t|)
    ensures Placeable(vars, r) && |r| == |t|
    ensures multiset(Order(r)) == multiset(Order(t))
    decreases |fs|
  {
    if fs == [] then t
    else
      var n := |fs| - 1;
      assert forall k :: 0 <= k < n ==> fs[..n][k] == fs[k];
      Apply(vars, ApplyAll(vars, t, fs[..n]), fs[n])
  }

  /** Whatever flips are drawn, a layout holding each shape once still
      does, and it still names existing variations. */
  lemma FlipsKeepOnePerShape(vars: VariationArray, t: Layout, fs: seq<Flip>)
    requires WellFormed(vars, t) && OnePerShape(t)
    requires forall k :: 0 <= k < |fs| ==> Fits(fs[k], |t|)
    ensures WellFormed(vars, ApplyAll(vars, t, fs)) && OnePerShape(ApplyAll(vars, t, fs))
  {
  }

  /** Swapping the same two slots again undoes a swap. */
  lemma SwapInvolution(t: Layout, p1: nat, p2: nat)
    requires p1 < |t| && p2 < |t|
    ensures Swapped(Swapped(t, p1, p2), p1, p2) == t
  {
    var r := Swapped(Swapped(t, p1, p2), p1, p2);
    assert forall i :: 0 <= i < |t| ==> r[i] == t[i];
  }

  /** Shifting the same range by the opposite offset undoes a shift. */
  lemma ShiftInverse(t: Layout, p1: int, p2: int, offs: Vec2)
    ensures Shifted(Shifted(t, p1, p2, offs), p1, p2, Sub(Zero(), offs)) == t
  {
    var r := Shifted(Shifted(t, p1, p2, offs), p1, p2, Sub(Zero(), offs));
    assert forall i :: 0 <= i < |t| ==> r[i] == t[i];
  }

  /** A shift of the whole range translates the layout, which leaves its
      score unchanged. */
  lemma FullShiftTranslates(t: Layout, offs: Vec2)
    ensures Shifted(t, 0, |t| - 1, offs) == Shift(t, offs)
  {
    var r := Shifted(t, 0, |t| - 1, offs);
    assert forall i :: 0 <= i < |t| ==> r[i] == Shift(t, offs)[i];
  }

  /** Re-drawing the same variations again changes nothing more: the new
      variation of a slot depends only on the draw and on the slot's shape. */
  lemma ReVaryIdempotent(vars: VariationArray, t: Layout, p1: nat, p2: nat, r1: nat, r2: nat)
    requires Placeable(vars, t) && p1 < |t| && p2 < |t|
    ensures Revaried(vars, Revaried(vars, t, p1, p2, r1, r2), p1, p2, r1, r2) == Revaried(vars, t, p1, p2, r1, r2)
  {
    var r := Revaried(vars, t, p1, p2, r1, r2);
    var r' := Revaried(vars, r, p1, p2, r1, r2);
    assert forall i :: 0 <= i < |t| ==> r'[i] == r[i];
  }
}
