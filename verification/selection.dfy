/** The "keep the first strict improvement" scans of the program: `best_fit`
    keeps the candidate of least cost (`if (d < min_d)`, starting from
    `DBL_MAX`) and the retry loop of the optimiser keeps the target of
    greatest score (`if (score > max_score)`, starting from `-DBL_MAX`).
    Doubles are modelled as reals. */
module Selection {

  /** `std::numeric_limits<double>::max()`. */
  const DblMax: real := 179769313486231570814527423731704356798070567525844996598917476803157260780028538760589558632766878171540458953514382464234321326889464182768467546703537516986049910576551282076245490090389328944075868508455133942304583236903222948165808559332123348274797826204144723168738177180919299881250404026184124858368.0

  /** The scan over `costs` from the bound `bound`: -1 when no cost is below
      the bound, otherwise the index of the cost the scan ends holding. */
  function FirstMin(costs: seq<real>, bound: real): (r: int)
    ensures -1 <= r < |costs|
    decreases |costs|
  {
    if costs == [] then -1
    else
      var n := |costs| - 1;
      var k := FirstMin(costs[..n], bound);
      var held := if k < 0 then bound else costs[k];
      if costs[n] < held then n else k
  }

  /** The scan finds the first least cost below the bound, and nothing when
      every cost is at least the bound. */
  lemma {:induction false} FirstMinIsFirstLeast(costs: seq<real>, bound: real)
    ensures FirstMin(costs, bound) == -1 <==> forall i :: 0 <= i < |costs| ==> costs[i] >= bound
    ensures FirstMin(costs, bound) >= 0 ==>
      && costs[FirstMin(costs, bound)] < bound
      && (forall i :: 0 <= i < |costs| ==> costs[FirstMin(costs, bound)] <= costs[i])
      && (forall i :: 0 <= i < FirstMin(costs, bound) ==> costs[FirstMin(costs, bound)] < costs[i])
    decreases |costs|
  {
    if costs != [] {
      var n := |costs| - 1;
      FirstMinIsFirstLeast(costs[..n], bound);
      assert forall i :: 0 <= i < n ==> costs[..n][i] == costs[i];
    }
  }

  /** The costs with their signs flipped. */
  function Negated(scores: seq<real>): (r: seq<real>)
    ensures |r| == |scores| && forall i {:trigger r[i]} :: 0 <= i < |scores| ==> r[i] == -scores[i]
  {
    seq(|scores|, i requires 0 <= i < |scores| => -scores[i])
  }

  /** The scan for the greatest score above `floor` with a strict `>`: the
      same scan as `FirstMin` on the negated scores. */
  function FirstMax(scores: seq<real>, floor: real): (r: int)
    ensures -1 <= r < |scores|
  {
    FirstMin(Negated(scores), -floor)
  }

  /** The scan finds the first greatest score above the floor, and nothing
      when every score is at most the floor. */
  lemma FirstMaxIsFirstGreatest(scores: seq<real>, floor: real)
    ensures FirstMax(scores, floor) == -1 <==> forall i :: 0 <= i < |scores| ==> scores[i] <= floor
    ensures FirstMax(scores, floor) >= 0 ==>
      && scores[FirstMax(scores, floor)] > floor
      && (forall i :: 0 <= i < |scores| ==> scores[FirstMax(scores, floor)] >= scores[i])
      && (forall i :: 0 <= i < FirstMax(scores, floor) ==> scores[FirstMax(scores, floor)] > scores[i])
  {
    var neg := Negated(scores);
    FirstMinIsFirstLeast(neg, -floor);
    assert forall i :: 0 <= i < |scores| ==> (neg[i] >= -floor <==> scores[i] <= floor);
    var k := FirstMax(scores, floor);
    if k >= 0 {
      assert forall i :: 0 <= i < |scores| ==> neg[k] <= neg[i] ==> scores[k] >= scores[i];
      assert forall i :: 0 <= i < |scores| ==> neg[k] < neg[i] ==> scores[k] > scores[i];
    }
  }
}
