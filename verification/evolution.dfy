/** The generational loop of `main`: the constants, the elite copy, the
    rank-biased choice of a parent, best-of-retries selection and the order
    in which the slots of a generation are written. The population is given
    in ranked order (best score first, as `std::sort` leaves it under
    `lscore::operator <`); scores come from a caller-supplied function, and
    every `rand()` draw is a parameter. */
module Evolution {
  import opened Lists
  import opened Selection
  import opened Layouts
  import opened Mutation

  const GenerationSize: nat := 10000
  const NumElite: nat := 1
  /** `(int)(GENERATION_SIZE*0.9)`: the double product is 9000 to within
      rounding and truncates to 9000. */
  const NumMutated: nat := GenerationSize * 9 / 10
  const NumRetries: nat := 1000
  const MinFlips: nat := 2
  const MaxFlips: nat := 4

  /** `rand() % (MAX_FLIPS - MIN_FLIPS + 1) + MIN_FLIPS`. */
  function NumFlips(d: nat): (k: nat)
    ensures MinFlips <= k <= MaxFlips
    ensures d < MaxFlips - MinFlips + 1 ==> k == MinFlips + d
  {
    d % (MaxFlips - MinFlips + 1) + MinFlips
  }

  /** The integer square root `floor(sqrt(n))`, found by counting up. */
  function ISqrt(n: nat): (r: nat)
    ensures r * r <= n < (r + 1) * (r + 1)
  {
    if n == 0 then 0
    else
      var s := ISqrt(n - 1);
      if (s + 1) * (s + 1) <= n then s + 1 else s
  }

  /** Squares grow with their roots. */
  lemma SquareLess(a: nat, b: nat)
    requires a < b
    ensures a * a < b * b
  {
    assert a * a <= a * b < b * b;
  }

  /** Only one root fits between two consecutive squares. */
  lemma ISqrtUnique(n: nat, r: nat)
    requires r * r <= n < (r + 1) * (r + 1)
    ensures ISqrt(n) == r
  {
    var s := ISqrt(n);
    if s < r {
      SquareLess(s + 1, r + 1);
      if s + 1 < r { SquareLess(s + 1, r); }
    } else if r < s {
      SquareLess(r + 1, s + 1);
      if r + 1 < s { SquareLess(r + 1, s); }
    }
  }

  /** The parent pick as written, `(int)sqrtf((float)(rand() % (P*P)))`
      with an exact square root: an index into the ranked population. */
  function ParentIndex(d: nat, pop: nat): (k: nat)
    requires pop >= 1
    ensures k < pop
  {
    var v := d % (pop * pop);
    RootBelow(v, pop);
    ISqrt(v)
  }

  /** Below a square, the root is below its root. */
  lemma RootBelow(v: nat, pop: nat)
    requires v < pop * pop
    ensures ISqrt(v) < pop
  {
    if ISqrt(v) >= pop {
      if ISqrt(v) > pop { SquareLess(pop, ISqrt(v)); }
    }
  }

  /** Index `k` is picked by exactly the residues from `k*k` up to
      `(k+1)*(k+1)`. */
  lemma ParentIndexIff(d: nat, pop: nat, k: nat)
    requires pop >= 1
    ensures ParentIndex(d, pop) == k <==> k * k <= d % (pop * pop) < (k + 1) * (k + 1)
  {
    var v := d % (pop * pop);
    if k * k <= v < (k + 1) * (k + 1) { ISqrtUnique(v, k); }
  }

  /** A residue is its own reduction. */
  lemma ResidueIsDraw(v: nat, m: nat)
    requires v < m
    ensures v % m == v
  {
  }

  /** The residues below `pop * pop` that a `rand()` bounded by `randMax`
      can produce and that land on index `k` under `pick`. */
  function Picks(pop: nat, k: nat, pick: nat -> nat, randMax: nat): set<nat>
  {
    set v: nat | v < pop * pop && v <= randMax && pick(v) == k
  }

  predicate Between(v: nat, a: nat, b: nat)
  {
    a <= v < b
  }

  /** The integers from `a` up to `b`. */
  function Span(a: nat, b: nat): set<nat>
  {
    set v: nat | v < b && Between(v, a, b)
  }

  lemma {:induction false} SpanSize(a: nat, b: nat)
    requires a <= b
    ensures |Span(a, b)| == b - a
    decreases b - a
  {
    if a < b {
      SpanSize(a, b - 1);
      assert Span(a, b) == Span(a, b - 1) + {b - 1};
    } else {
      assert Span(a, b) == {};
    }
  }

  /** The draw as the parent pick reduces it: the residue modulo `P*P`. */
  function AsWrittenPick(pop: nat): nat -> nat
    requires pop >= 1
  {
    (v: nat) => ParentIndex(v, pop)
  }

  /** As written, when `rand()` reaches every residue below `P*P`
      (`RAND_MAX + 1 >= P*P`), rank `k` is picked by `2k + 1` of them: the
      best-ranked layout by one residue and the worst by `2P - 1`, so the
      pick favours the worst layouts. */
  lemma AsWrittenFavoursWorst(pop: nat, k: nat, randMax: nat)
    requires pop >= 1 && k < pop && randMax + 1 >= pop * pop
    ensures |Picks(pop, k, AsWrittenPick(pop), randMax)| == 2 * k + 1
  {
    var lo, hi, m := k * k, (k + 1) * (k + 1), pop * pop;
    assert hi <= m by {
      if k + 1 < pop { SquareLess(k + 1, pop); }
    }
    assert hi - lo == 2 * k + 1;
    PicksAreSpan(pop, k, lo, hi, m, randMax);
    SpanSize(lo, hi);
  }

  /** The residues that land on `k` are those from `k*k` up to
      `(k+1)*(k+1)`. */
  lemma PicksAreSpan(pop: nat, k: nat, lo: nat, hi: nat, m: nat, randMax: nat)
    requires pop >= 1 && lo == k * k && hi == (k + 1) * (k + 1) && m == pop * pop && hi <= m && m <= randMax + 1
    ensures Picks(pop, k, AsWrittenPick(pop), randMax) == Span(lo, hi)
  {
    forall v: nat ensures v in Picks(pop, k, AsWrittenPick(pop), randMax) <==> v in Span(lo, hi) {
      if v < m {
        ResidueIsDraw(v, m);
        ParentIndexIff(v, pop, k);
      }
    }
  }

  /** `RAND_MAX` of the Microsoft C runtime, 15 bits. */
  const MsvcRandMax: nat := 32767

  /** A remainder is no larger than what was divided. */
  lemma ModBelow(d: nat, m: nat)
    requires m > 0
    ensures d % m <= d
  {
    if d < m { ResidueIsDraw(d, m); }
  }

  /** A draw no larger than `randMax` picks an index no larger than the
      root of `randMax`, whatever the population. */
  lemma ParentIndexBelowRoot(d: nat, pop: nat, randMax: nat)
    requires pop >= 1 && d <= randMax
    ensures ParentIndex(d, pop) <= ISqrt(randMax)
  {
    var m := pop * pop;
    var v := d % m;
    ModBelow(d, m);
    var k, r := ISqrt(v), ISqrt(randMax);
    assert k == ParentIndex(d, pop);
    if k > r {
      if k > r + 1 { SquareLess(r + 1, k); }
      assert false;
    }
  }

  /** With a 15-bit `rand()`, `rand() % (P*P)` never exceeds 32767 for the
      generation size, so every parent comes from the best 182 ranks. */
  lemma MsvcPicksBestRanks(d: nat)
    requires d <= MsvcRandMax
    ensures ParentIndex(d, GenerationSize) <= 181
  {
    ISqrtUnique(MsvcRandMax, 181);
    ParentIndexBelowRoot(d, GenerationSize, MsvcRandMax);
  }

  /** The pick the rank bias calls for: the same square-root draw, counted
      from the best end of the ranking. */
  function RankedParent(d: nat, pop: nat): (k: nat)
    requires pop >= 1
    ensures k < pop
  {
    pop - 1 - ParentIndex(d, pop)
  }

  function RankedPick(pop: nat): nat -> nat
    requires pop >= 1
  {
    (v: nat) => RankedParent(v, pop)
  }

  /** Rank `k` is picked by `2(P - 1 - k) + 1` residues: the better the
      rank, the more often it is a parent, rank 0 most of all. */
  lemma RankedFavoursBest(pop: nat, k: nat, randMax: nat)
    requires pop >= 1 && k < pop && randMax + 1 >= pop * pop
    ensures |Picks(pop, k, RankedPick(pop), randMax)| == 2 * (pop - 1 - k) + 1
  {
    var j := pop - 1 - k;
    forall v: nat ensures v in Picks(pop, k, RankedPick(pop), randMax) <==> v in Picks(pop, j, AsWrittenPick(pop), randMax) {
    }
    assert Picks(pop, k, RankedPick(pop), randMax) == Picks(pop, j, AsWrittenPick(pop), randMax);
    AsWrittenFavoursWorst(pop, j, randMax);
  }

  /** Layout equality, `std::vector<shape_pos>::operator ==`. */
  predicate SameLayout(a: Layout, b: Layout)
  {
    a == b
  }

  /** The elite copy over the ranked population: each layout not equal to
      one already copied is copied, and the scan stops once `cap` are. */
  function Elites(ranked: seq<Layout>, cap: nat): (r: seq<Layout>)
    requires cap >= 1
    ensures |r| <= cap && Distinct(r, SameLayout)
    ensures forall j :: 0 <= j < |r| ==> r[j] in ranked
    ensures |ranked| > 0 ==> |r| > 0 && r[0] == ranked[0]
    decreases |ranked|
  {
    if ranked == [] then []
    else
      var n := |ranked| - 1;
      var prev := Elites(ranked[..n], cap);
      if |prev| == cap then prev
      else
        AddNewKeeps(prev, ranked[n], SameLayout);
        var r := AddNew(prev, ranked[n], SameLayout);
        assert n > 0 ==> ranked[..n][0] == ranked[0];
        assert forall j :: 0 <= j < |prev| ==> r[j] == prev[j];
        r
  }

  /** The elites are the first `cap` distinct layouts of the ranking, in
      rank order: the front of the full de-duplicated ranking. */
  lemma {:induction false} ElitesAreFirstDistinct(ranked: seq<Layout>, cap: nat)
    requires cap >= 1
    ensures var all := AddAll([], ranked, SameLayout);
      Elites(ranked, cap) == all[..if |all| < cap then |all| else cap]
    decreases |ranked|
  {
    if ranked != [] {
      var n := |ranked| - 1;
      ElitesAreFirstDistinct(ranked[..n], cap);
      var prev := AddAll([], ranked[..n], SameLayout);
      var all := AddAll([], ranked, SameLayout);
      assert all == AddNew(prev, ranked[n], SameLayout);
      var e := Elites(ranked[..n], cap);
      if |prev| < cap {
        assert e == prev;
        assert Elites(ranked, cap) == all;
      } else {
        assert all[..|prev|] == prev;
        assert |e| == cap && Elites(ranked, cap) == e;
        assert all[..cap] == prev[..cap];
      }
    }
  }

  /** The scores of the retries, in order. */
  function Scores(targets: seq<Layout>, score: Layout -> real): (r: seq<real>)
    ensures |r| == |targets| && forall i {:trigger r[i]} :: 0 <= i < |targets| ==> r[i] == score(targets[i])
  {
    seq(|targets|, i requires 0 <= i < |targets| => score(targets[i]))
  }

  /** Best of the retries: `max_target` starts empty and takes each target
      that scores strictly above `max_score`, which starts at `-DBL_MAX`. */
  function BestOf(targets: seq<Layout>, score: Layout -> real): Layout
  {
    var k := FirstMax(Scores(targets, score), -DblMax);
    if k < 0 then [] else targets[k]
  }

  /** The kept target is the first retry of greatest score; when no retry
      scores above `-DBL_MAX` the offspring is the empty layout. */
  lemma BestOfIsFirstBest(targets: seq<Layout>, score: Layout -> real)
    ensures (forall i :: 0 <= i < |targets| ==> score(targets[i]) <= -DblMax) ==> BestOf(targets, score) == []
    ensures (exists i :: 0 <= i < |targets| && score(targets[i]) > -DblMax) ==>
      exists k :: 0 <= k < |targets| && BestOf(targets, score) == targets[k]
        && (forall i :: 0 <= i < |targets| ==> score(targets[k]) >= score(targets[i]))
        && (forall i :: 0 <= i < k ==> score(targets[k]) > score(targets[i]))
  {
    var s := Scores(targets, score);
    FirstMaxIsFirstGreatest(s, -DblMax);
    var k := FirstMax(s, -DblMax);
    if k >= 0 {
      assert score(targets[k]) > -DblMax;
      assert BestOf(targets, score) == targets[k];
      forall i | 0 <= i < |targets| ensures score(targets[k]) >= score(targets[i]) {
        assert s[k] >= s[i];
      }
      forall i | 0 <= i < k ensures score(targets[k]) > score(targets[i]) {
        assert s[k] > s[i];
      }
    } else {
      forall i | 0 <= i < |targets| ensures score(targets[i]) <= -DblMax {
        assert s[i] <= -DblMax;
      }
    }
  }

  /** Every retry's flips fit the parent, and each retry draws between
      `MIN_FLIPS` and `MAX_FLIPS` of them. */
  predicate RetriesFit(n: nat, retries: seq<seq<Flip>>)
  {
    && (forall j :: 0 <= j < |retries| ==> MinFlips <= |retries[j]| <= MaxFlips)
    && (forall j, k :: 0 <= j < |retries| && 0 <= k < |retries[j]| ==> Fits(retries[j][k], n))
  }

  /** The layout the draw `d` picks as the parent from the ranking,
      `scores[idx].pos`: rank `ParentIndex(d, P)`, counted from the best. */
  function Parent(ranked: seq<Layout>, d: nat): (r: Layout)
    requires |ranked| >= 1
    ensures exists k :: (0 <= k < |ranked| && r == ranked[k] &&
                         k * k <= d % (|ranked| * |ranked|) < (k + 1) * (k + 1))
  {
    ranked[ParentIndex(d, |ranked|)]
  }

  /** The targets of the retries: each a copy of the parent with its own
      flips applied. */
  function Targets(vars: VariationArray, parent: Layout, retries: seq<seq<Flip>>): (r: seq<Layout>)
    requires Placeable(vars, parent) && RetriesFit(|parent|, retries)
    ensures |r| == |retries|
    ensures forall j {:trigger r[j]} :: 0 <= j < |retries| ==>
      Placeable(vars, r[j]) && |r[j]| == |parent| && multiset(Order(r[j])) == multiset(Order(parent))
  {
    seq(|retries|, j requires 0 <= j < |retries| => ApplyAll(vars, parent, retries[j]))
  }

  /** One offspring: the ranked parent the draw `d` picks, mutated once per
      retry, and the best target kept. */
  function Offspring(vars: VariationArray, ranked: seq<Layout>, d: nat, retries: seq<seq<Flip>>, score: Layout -> real): (r: Layout)
    requires |ranked| >= 1 && forall i :: 0 <= i < |ranked| ==> Placeable(vars, ranked[i])
    requires RetriesFit(|Parent(ranked, d)|, retries)
    ensures r == [] || r in Targets(vars, Parent(ranked, d), retries)
  {
    var targets := Targets(vars, Parent(ranked, d), retries);
    BestOfIsFirstBest(targets, score);
    BestOf(targets, score)
  }

  /** With at least one retry and a score above `-DBL_MAX` everywhere (as
      `score` always is), an offspring of layouts that hold each shape once
      holds each shape once. */
  lemma OffspringOnePerShape(vars: VariationArray, ranked: seq<Layout>, d: nat, retries: seq<seq<Flip>>, score: Layout -> real)
    requires |ranked| >= 1
    requires forall i :: 0 <= i < |ranked| ==> Placeable(vars, ranked[i]) && |ranked[i]| == |vars| && OnePerShape(ranked[i])
    requires RetriesFit(|Parent(ranked, d)|, retries) && |retries| > 0
    requires forall t :: score(t) > -DblMax
    ensures WellFormed(vars, Offspring(vars, ranked, d, retries, score))
    ensures OnePerShape(Offspring(vars, ranked, d, retries, score))
  {
    var parent := Parent(ranked, d);
    var targets := Targets(vars, parent, retries);
    assert score(targets[0]) > -DblMax;
    BestOfIsFirstBest(targets, score);
  }

  /** A generation, slot by slot: the elites from slot 0 (`ii` counts them),
      then `NUM_MUTATED` offspring at `ii++`, then fresh layouts until slot
      `GENERATION_SIZE - 1`. `seeds[k]` is the fresh layout slot `k` would
      get. */
  method FillGeneration(elites: seq<Layout>, offspring: seq<Layout>, seeds: seq<Layout>) returns (gen: seq<Layout>)
    requires |elites| <= NumElite && |offspring| == NumMutated && |seeds| == GenerationSize
    ensures |gen| == GenerationSize
    ensures forall k :: 0 <= k < |elites| ==> gen[k] == elites[k]
    ensures forall i :: 0 <= i < NumMutated ==> gen[|elites| + i] == offspring[i]
    ensures forall k :: |elites| + NumMutated <= k < GenerationSize ==> gen[k] == seeds[k]
  {
    gen := elites;
    var ii := |elites|;
    var i := 0;
    while i < NumMutated
      invariant 0 <= i <= NumMutated && ii == |elites| + i == |gen|
      invariant forall k :: 0 <= k < |elites| ==> gen[k] == elites[k]
      invariant forall j :: 0 <= j < i ==> gen[|elites| + j] == offspring[j]
    {
      gen := gen + [offspring[i]];
      ii := ii + 1;
      i := i + 1;
    }
    while ii < GenerationSize
      invariant |elites| + NumMutated <= ii <= GenerationSize && ii == |gen|
      invariant forall k :: 0 <= k < |elites| ==> gen[k] == elites[k]
      invariant forall j :: 0 <= j < NumMutated ==> gen[|elites| + j] == offspring[j]
      invariant forall k :: |elites| + NumMutated <= k < ii ==> gen[k] == seeds[k]
    {
      gen := gen + [seeds[ii]];
      ii := ii + 1;
    }
  }
}
