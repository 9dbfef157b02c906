/** Baker's percentages to weights (`compute_from_bakers`): fill in a flour
    row when no flour percentage is given, pick the flour weight, and turn
    every percentage into grams. */
module Inverse {
  import opened Options
  import opened Keywords
  import opened Rounding
  import opened Recipe
  import opened Forward

  /** The flour weight used when neither an override nor a usable target
      total is given. */
  const DefaultFlourWeight: real := 300.0

  /** The index of the first flour row, in table order. */
  function FirstFlour(rows: seq<Row>, words: seq<string>): (first: Option<nat>)
    ensures first.Some? ==> first.value < |rows| && IsFlour(rows[first.value].name, words)
    ensures first.Some? ==> forall j :: 0 <= j < first.value ==> !IsFlour(rows[j].name, words)
    ensures first.None? ==> forall j :: 0 <= j < |rows| ==> !IsFlour(rows[j].name, words)
  {
    if |rows| == 0 then None
    else if IsFlour(rows[0].name, words) then Some(0)
    else
      match FirstFlour(rows[1..], words)
      case None => None
      case Some(j) => Some(j + 1)
  }

  /** The fallback for a table whose flour percentages sum to 0: the first
      flour row is set to 100 % on the working copy. Without a flour row, or
      with a non-zero flour sum, the table is used as given. */
  function Bootstrap(rows: seq<Row>, words: seq<string>): (out: seq<Row>)
    ensures SameColumn(out, rows, Weight)
    ensures SumWhere(rows, Percent, FlourRows(words)) != 0.0 || FirstFlour(rows, words).None? ==> out == rows
    ensures SumWhere(rows, Percent, FlourRows(words)) == 0.0 && FirstFlour(rows, words).Some? ==>
              var i := FirstFlour(rows, words).value;
              && out[i].pct == Some(100.0)
              && forall j :: 0 <= j < |rows| && j != i ==> out[j] == rows[j]
  {
    var first := FirstFlour(rows, words);
    if SumWhere(rows, Percent, FlourRows(words)) == 0.0 && first.Some? then
      rows[first.value := rows[first.value].(pct := Some(100.0))]
    else
      rows
  }

  /** The flour weight: a positive override as given; else, for a non-zero
      target total and a positive percentage sum, the flour weight at which
      the percentages add up to the target; else the default. */
  function ResolveFlourWeight(override: Option<real>, target: Option<real>, percentSum: real): (fw: real)
    ensures override.Some? && override.value > 0.0 ==> fw == override.value
    ensures !(override.Some? && override.value > 0.0) && target.Some? && target.value != 0.0 && percentSum > 0.0
            ==> fw * percentSum == target.value * 100.0
    ensures !(override.Some? && override.value > 0.0) && !(target.Some? && target.value != 0.0 && percentSum > 0.0)
            ==> fw == DefaultFlourWeight
  {
    if override.Some? && override.value > 0.0 then override.value
    else if target.Some? && target.value != 0.0 && percentSum > 0.0 then target.value * (100.0 / percentSum)
    else DefaultFlourWeight
  }

  /** One row's weight: its percentage of the flour weight; blank when the
      percentage is blank. */
  function WeightCell(pct: Option<real>, flourWeight: real): (w: Option<real>)
    ensures w.Some? <==> pct.Some?
    ensures w.Some? ==> w.value * 100.0 == pct.value * flourWeight
  {
    if pct.Some? then Some(pct.value / 100.0 * flourWeight) else None
  }

  /** The weight column recomputed from the percentage column; names and
      percentages are kept. */
  function WeightsOf(rows: seq<Row>, flourWeight: real): (out: seq<Row>)
    ensures SameColumn(out, rows, Percent)
    ensures forall i :: 0 <= i < |rows| ==> out[i].weight == WeightCell(rows[i].pct, flourWeight)
  {
    if |rows| == 0 then []
    else [rows[0].(weight := WeightCell(rows[0].pct, flourWeight))] + WeightsOf(rows[1..], flourWeight)
  }

  /** The flour weight `compute_from_bakers` settles on. */
  function InverseFlourWeight(rows: seq<Row>, words: seq<string>, override: Option<real>, target: Option<real>): real {
    ResolveFlourWeight(override, target, SumWhere(Bootstrap(rows, words), Percent, AllRows))
  }

  /** The flour weight is resolved against the percentage sum of the
      bootstrapped table, not of the table as given. */
  lemma InverseFlourWeightCases(rows: seq<Row>, words: seq<string>, override: Option<real>, target: Option<real>)
    ensures var fw := InverseFlourWeight(rows, words, override, target);
            override.Some? && override.value > 0.0 ==> fw == override.value
    ensures var fw := InverseFlourWeight(rows, words, override, target);
            var ps := SumWhere(Bootstrap(rows, words), Percent, AllRows);
            !(override.Some? && override.value > 0.0) && target.Some? && target.value != 0.0 && ps > 0.0
            ==> fw * ps == target.value * 100.0
    ensures var fw := InverseFlourWeight(rows, words, override, target);
            var ps := SumWhere(Bootstrap(rows, words), Percent, AllRows);
            !(override.Some? && override.value > 0.0) && !(target.Some? && target.value != 0.0 && ps > 0.0)
            ==> fw == DefaultFlourWeight
  {
    var ps := SumWhere(Bootstrap(rows, words), Percent, AllRows);
    assert InverseFlourWeight(rows, words, override, target) == ResolveFlourWeight(override, target, ps);
  }

  /** The weights before rounding. */
  function ExactWeights(rows: seq<Row>, words: seq<string>, override: Option<real>, target: Option<real>): seq<Row> {
    WeightsOf(Bootstrap(rows, words), InverseFlourWeight(rows, words, override, target))
  }

  /** `compute_from_bakers`: weights rounded to 1 decimal, the flour weight
      (always defined here), and the total and liquid weight summed over the
      rounded weights. The percentage column is the bootstrapped one. */
  function ComputeFromBakers(rows: seq<Row>, words: seq<string>, override: Option<real>, target: Option<real>)
    : (c: Conversion)
    ensures SameColumn(c.rows, Bootstrap(rows, words), Percent)
    ensures c.flourWeight == Some(InverseFlourWeight(rows, words, override, target))
    ensures forall i :: 0 <= i < |rows| ==>
              c.rows[i].weight == RoundCell(WeightCell(Bootstrap(rows, words)[i].pct, c.flourWeight.value), 1)
    ensures c.totalDough == SumWhere(c.rows, Weight, AllRows)
    ensures c.hydration == SumWhere(c.rows, Weight, LiquidRows)
  {
    var fw := InverseFlourWeight(rows, words, override, target);
    var out := RoundColumn(WeightsOf(Bootstrap(rows, words), fw), Weight, 1);
    assert SameColumn(out, Bootstrap(rows, words), Percent);
    Conversion(out, Some(fw), SumWhere(out, Weight, AllRows), SumWhere(out, Weight, LiquidRows))
  }

  /** Summing weights under a mask is summing percentages under it and
      taking that share of the flour weight. */
  lemma {:induction false} WeightSumIsPercentShare(rows: seq<Row>, flourWeight: real, mask: seq<bool>)
    requires |mask| == |rows|
    ensures Sum(WeightsOf(rows, flourWeight), Weight, mask) == Sum(rows, Percent, mask) / 100.0 * flourWeight
  {
    if |rows| > 0 {
      var out := WeightsOf(rows, flourWeight);
      assert out[0] == rows[0].(weight := WeightCell(rows[0].pct, flourWeight));
      assert out[1..] == WeightsOf(rows[1..], flourWeight);
      var a := Share(rows[0], Percent, mask[0]);
      var x := Sum(rows[1..], Percent, mask[1..]);
      assert Sum(rows, Percent, mask) == a + x;
      assert Sum(out, Weight, mask) == Share(out[0], Weight, mask[0]) + Sum(out[1..], Weight, mask[1..]);
      WeightSumIsPercentShare(rows[1..], flourWeight, mask[1..]);
      WeightShare(rows[0], flourWeight, mask[0]);
      MulDistributes(a, x, flourWeight);
    }
  }

  lemma WeightShare(r: Row, flourWeight: real, keep: bool)
    ensures Share(r.(weight := WeightCell(r.pct, flourWeight)), Weight, keep) == Share(r, Percent, keep) / 100.0 * flourWeight
  {
  }

  lemma MulDistributes(a: real, x: real, fw: real)
    ensures (a + x) / 100.0 * fw == a / 100.0 * fw + x / 100.0 * fw
  {
  }

  /** On the target route the weights add up to exactly the target total
      before rounding. */
  lemma TargetRouteHitsTarget(rows: seq<Row>, words: seq<string>, override: Option<real>, target: Option<real>)
    requires !(override.Some? && override.value > 0.0)
    requires target.Some? && target.value != 0.0
    requires SumWhere(Bootstrap(rows, words), Percent, AllRows) > 0.0
    ensures SumWhere(ExactWeights(rows, words, override, target), Weight, AllRows) == target.value
  {
    var boot := Bootstrap(rows, words);
    var ps := SumWhere(boot, Percent, AllRows);
    var fw := ResolveFlourWeight(override, target, ps);
    assert fw * ps == target.value * 100.0;
    var exact := WeightsOf(boot, fw);
    assert exact == ExactWeights(rows, words, override, target);
    WeightTotalIsPercentShare(boot, fw);
    ShareOfPercentSum(ps, fw, target.value);
  }

  /** The total weight is the percentage total's share of the flour weight. */
  lemma WeightTotalIsPercentShare(rows: seq<Row>, flourWeight: real)
    ensures SumWhere(WeightsOf(rows, flourWeight), Weight, AllRows)
            == SumWhere(rows, Percent, AllRows) / 100.0 * flourWeight
  {
    MaskOfSameNames(WeightsOf(rows, flourWeight), rows, AllRows);
    WeightSumIsPercentShare(rows, flourWeight, Mask(rows, AllRows));
  }

  /** Grams of a percentage, as a percentage again. */
  lemma ShareBack(p: real, fw: real)
    requires fw > 0.0
    ensures p / 100.0 * fw / fw * 100.0 == p
  {
  }

  lemma ShareOfPercentSum(ps: real, fw: real, t: real)
    requires ps > 0.0 && fw * ps == t * 100.0
    ensures ps / 100.0 * fw == t
  {
  }

  /** After rounding to 1 decimal the total dough weight on the target route
      is within 0.05 g per row of the target. */
  lemma RoundedTotalNearTarget(rows: seq<Row>, words: seq<string>, override: Option<real>, target: Option<real>)
    requires !(override.Some? && override.value > 0.0)
    requires target.Some? && target.value != 0.0
    requires SumWhere(Bootstrap(rows, words), Percent, AllRows) > 0.0
    ensures Near(ComputeFromBakers(rows, words, override, target).totalDough, target.value, Tolerance(|rows|, 0.05))
  {
    TargetRouteHitsTarget(rows, words, override, target);
    ExactTotalBoundsRounded(rows, words, override, target);
  }

  /** Whatever the exact weights add up to, the rounded total is within
      0.05 g per row of it. */
  lemma ExactTotalBoundsRounded(rows: seq<Row>, words: seq<string>, override: Option<real>, target: Option<real>)
    ensures Near(ComputeFromBakers(rows, words, override, target).totalDough,
                 SumWhere(ExactWeights(rows, words, override, target), Weight, AllRows), Tolerance(|rows|, 0.05))
  {
    var exact := ExactWeights(rows, words, override, target);
    BakersTotalIsRoundedExact(rows, words, override, target);
    RoundedTotalNear(exact, SumWhere(exact, Weight, AllRows));
  }

  /** The total dough weight is the sum of the exact weights after rounding. */
  lemma BakersTotalIsRoundedExact(rows: seq<Row>, words: seq<string>, override: Option<real>, target: Option<real>)
    ensures var exact := ExactWeights(rows, words, override, target);
            && |exact| == |rows|
            && ComputeFromBakers(rows, words, override, target).totalDough
               == SumWhere(RoundColumn(exact, Weight, 1), Weight, AllRows)
  {
    BakersRoundsExactWeights(rows, words, override, target);
  }

  /** A total weight that is exactly `s` stays within 0.05 per row of `s`
      after rounding the weights to 1 decimal. */
  lemma RoundedTotalNear(rows: seq<Row>, s: real)
    requires SumWhere(rows, Weight, AllRows) == s
    ensures Near(SumWhere(RoundColumn(rows, Weight, 1), Weight, AllRows), s, Tolerance(|rows|, 0.05))
  {
    RoundColumnKeepsMask(rows, Weight, 1, AllRows);
    RoundedWeightsNear(rows, Mask(rows, AllRows), s);
  }

  /** The converted table is the exact one with its weights rounded. */
  lemma BakersRoundsExactWeights(rows: seq<Row>, words: seq<string>, override: Option<real>, target: Option<real>)
    ensures ComputeFromBakers(rows, words, override, target).rows
            == RoundColumn(ExactWeights(rows, words, override, target), Weight, 1)
  {
  }

  /** A weight sum that is exactly `s` stays within 0.05 per row of `s` after
      rounding to 1 decimal. */
  lemma RoundedWeightsNear(rows: seq<Row>, mask: seq<bool>, s: real)
    requires |mask| == |rows| && Sum(rows, Weight, mask) == s
    ensures Near(Sum(RoundColumn(rows, Weight, 1), Weight, mask), s, Tolerance(|rows|, 0.05))
  {
    RoundColumnSumDrift(rows, Weight, 1, mask);
    assert Step(1) / 2.0 == 0.05;
  }

  /** When the flour percentages sum to 0, the bootstrap row's 100 % replaces
      its old share: the flour sum becomes 100 minus what that row held. */
  lemma BootstrapFlourSum(rows: seq<Row>, words: seq<string>)
    requires SumWhere(rows, Percent, FlourRows(words)) == 0.0 && FirstFlour(rows, words).Some?
    ensures var i := FirstFlour(rows, words).value;
            SumWhere(Bootstrap(rows, words), Percent, FlourRows(words)) == 100.0 - rows[i].pct.GetOr(0.0)
  {
    var i := FirstFlour(rows, words).value;
    var out := Bootstrap(rows, words);
    var mask := Mask(rows, FlourRows(words));
    assert out == rows[i := rows[i].(pct := Some(100.0))];
    MaskOfSameNames(out, rows, FlourRows(words));
    SumAfterUpdate(rows, i, rows[i].(pct := Some(100.0)), Percent, mask);
  }

  /** With no negative cells, every selected cell is at most the sum. */
  lemma {:induction false} ShareAtMostSum(rows: seq<Row>, c: Column, mask: seq<bool>, j: nat)
    requires |mask| == |rows| && NonNegative(rows, c) && j < |rows|
    ensures 0.0 <= Share(rows[j], c, mask[j]) <= Sum(rows, c, mask)
  {
    if j == 0 {
      if |rows| > 1 {
        ShareAtMostSum(rows[1..], c, mask[1..], 0);
      }
    } else {
      ShareAtMostSum(rows[1..], c, mask[1..], j - 1);
    }
  }

  /** With no negative percentages, a table whose flour percentages sum to 0
      but that has a flour row gets a flour sum of exactly 100 from the
      bootstrap. */
  lemma BootstrapGivesFlour100(rows: seq<Row>, words: seq<string>)
    requires NonNegative(rows, Percent)
    requires SumWhere(rows, Percent, FlourRows(words)) == 0.0 && FirstFlour(rows, words).Some?
    ensures SumWhere(Bootstrap(rows, words), Percent, FlourRows(words)) == 100.0
  {
    var i := FirstFlour(rows, words).value;
    var mask := Mask(rows, FlourRows(words));
    BootstrapFlourSum(rows, words);
    ShareAtMostSum(rows, Percent, mask, i);
    assert Share(rows[i], Percent, mask[i]) == rows[i].pct.GetOr(0.0);
  }
}
