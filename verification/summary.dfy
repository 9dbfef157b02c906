/** The summary figures shown under a converted table: the hydration
    percentage, the liquid weight over the flour weight. */
module Summary {
  import opened Options
  import opened Rounding
  import opened Recipe
  import opened Forward
  import opened Inverse

  /** The hydration percentage: the liquid weight as a percentage of the
      flour weight; undefined (shown as "-") unless the flour weight is
      defined and positive. */
  function HydrationPercent(hydration: real, flour: Option<real>): (h: Option<real>)
    ensures h.Some? <==> flour.Some? && flour.value > 0.0
    ensures h.Some? ==> h.value * flour.value == hydration * 100.0
  {
    if flour.Some? && flour.value > 0.0 then Some(hydration / flour.value * 100.0) else None
  }

  /** From weights, the hydration percentage is exactly the sum of the
      liquid rows' unrounded percentages; without a flour basis it is
      undefined. */
  lemma ForwardHydrationIsLiquidPercentSum(rows: seq<Row>, words: seq<string>)
    ensures var c := ComputeFromWeights(rows, words);
            var h := HydrationPercent(c.hydration, c.flourWeight);
            && (h.Some? <==> FlourBasis(rows, words).Some?)
            && (h.Some? ==> h.value == SumWhere(ExactPercents(rows, words), Percent, LiquidRows))
  {
    var c := ComputeFromWeights(rows, words);
    var b := FlourBasis(rows, words);
    if b.Some? {
      var exact := ExactPercents(rows, words);
      var mask := Mask(rows, LiquidRows);
      SumWhereOfSameColumn(c.rows, rows, Weight, LiquidRows);
      MaskOfSameNames(exact, rows, LiquidRows);
      PercentSumIsWeightRatio(rows, b.value, mask);
      assert exact == PercentsOf(rows, Some(b.value));
      assert HydrationPercent(c.hydration, c.flourWeight).value == Sum(rows, Weight, mask) / b.value * 100.0;
    }
  }

  /** From percentages, the hydration percentage of the unrounded weights
      is exactly the sum of the liquid rows' percentages, whatever flour
      weight was chosen, as long as it is positive. */
  lemma InverseHydrationIsLiquidPercentSum(rows: seq<Row>, words: seq<string>, override: Option<real>, target: Option<real>)
    requires InverseFlourWeight(rows, words, override, target) > 0.0
    ensures var fw := InverseFlourWeight(rows, words, override, target);
            var h := HydrationPercent(SumWhere(ExactWeights(rows, words, override, target), Weight, LiquidRows), Some(fw));
            h.Some? && h.value == SumWhere(Bootstrap(rows, words), Percent, LiquidRows)
  {
    var fw := InverseFlourWeight(rows, words, override, target);
    assert ExactWeights(rows, words, override, target) == WeightsOf(Bootstrap(rows, words), fw);
    HydrationOfWeights(Bootstrap(rows, words), fw, LiquidRows);
  }

  /** The weights at flour weight `fw`, summed over the rows a filter
      keeps, are that share of `fw`. */
  lemma HydrationOfWeights(rows: seq<Row>, fw: real, f: Filter)
    requires fw > 0.0
    ensures HydrationPercent(SumWhere(WeightsOf(rows, fw), Weight, f), Some(fw))
            == Some(SumWhere(rows, Percent, f))
  {
    WeightSumWhere(rows, fw, f);
    HydrationOfShare(SumWhere(rows, Percent, f), SumWhere(WeightsOf(rows, fw), Weight, f), fw);
  }

  lemma WeightSumWhere(rows: seq<Row>, fw: real, f: Filter)
    ensures SumWhere(WeightsOf(rows, fw), Weight, f) == SumWhere(rows, Percent, f) / 100.0 * fw
  {
    var m := Mask(rows, f);
    WeightSumIsPercentShare(rows, fw, m);
    SumWhereUnderMaskOf(WeightsOf(rows, fw), rows, Weight, f);
  }

  /** A liquid weight that is the share `p` % of the flour weight has a
      hydration of `p` %. */
  lemma HydrationOfShare(p: real, liquid: real, fw: real)
    requires fw > 0.0 && liquid == p / 100.0 * fw
    ensures HydrationPercent(liquid, Some(fw)) == Some(p)
  {
    ShareBack(p, fw);
    assert liquid / fw * 100.0 == p;
    assert HydrationPercent(liquid, Some(fw)).value == p;
  }

  /** From percentages, the reported liquid weight is within 0.05 g per row
      of the liquid weight before rounding. */
  lemma BakersHydrationNear(rows: seq<Row>, words: seq<string>, override: Option<real>, target: Option<real>)
    ensures Near(ComputeFromBakers(rows, words, override, target).hydration,
                 SumWhere(ExactWeights(rows, words, override, target), Weight, LiquidRows), Tolerance(|rows|, 0.05))
  {
    var exact := ExactWeights(rows, words, override, target);
    BakersRoundsExactWeights(rows, words, override, target);
    RoundColumnKeepsMask(exact, Weight, 1, LiquidRows);
    RoundColumnSumDrift(exact, Weight, 1, Mask(exact, LiquidRows));
    assert Step(1) / 2.0 == 0.05;
  }

  /** Scaling the liquid and the flour weight by the same positive factor
      leaves the hydration percentage unchanged. */
  lemma HydrationScaleFree(hydration: real, flour: real, s: real)
    requires flour > 0.0 && s > 0.0
    ensures HydrationPercent(hydration * s, Some(flour * s)) == HydrationPercent(hydration, Some(flour))
  {
    assert flour * s > 0.0;
    assert hydration * s / (flour * s) * 100.0 == hydration / flour * 100.0;
    assert HydrationPercent(hydration * s, Some(flour * s)).value == HydrationPercent(hydration, Some(flour)).value;
  }
}
