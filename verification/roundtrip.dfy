/** How the two converters undo each other before rounding: percentages
    computed from weights give the weights back, and weights computed from
    percentages give the percentages back. */
module RoundTrip {
  import opened Options
  import opened Recipe
  import opened Forward
  import opened Inverse

  /** A weight turned into a percentage of `b` and back is the weight. */
  lemma WeightCellUndoesPercentCell(w: Option<real>, b: real)
    requires b > 0.0
    ensures WeightCell(PercentCell(w, Some(b)), b) == w
  {
    if w.Some? {
      PercentAndBack(w.value, b);
      assert WeightCell(PercentCell(w, Some(b)), b).value == w.value;
    }
  }

  lemma PercentAndBack(w: real, b: real)
    requires b > 0.0
    ensures w / b * 100.0 / 100.0 * b == w
  {
  }

  /** A percentage turned into grams of flour weight `fw` and back is the
      percentage. */
  lemma PercentCellUndoesWeightCell(p: Option<real>, fw: real)
    requires fw > 0.0
    ensures PercentCell(WeightCell(p, fw), Some(fw)) == p
  {
    if p.Some? {
      ShareBack(p.value, fw);
      assert PercentCell(WeightCell(p, fw), Some(fw)).value == p.value;
    }
  }

  /** The percentage table of a recipe with a flour basis is left alone by
      the bootstrap, since its flour percentages add up to 100. */
  lemma ExactPercentsNeedNoBootstrap(rows: seq<Row>, words: seq<string>)
    requires FlourBasis(rows, words).Some?
    ensures Bootstrap(ExactPercents(rows, words), words) == ExactPercents(rows, words)
  {
    FlourPercentsSumTo100(rows, words);
  }

  /** The weights recomputed from percentages, at flour weight `fw`, of a
      table that needs no bootstrap and whose percentages were computed
      against the same `fw`, are the original weights. */
  lemma WeightsOfPercents(rows: seq<Row>, fw: real)
    requires fw > 0.0
    ensures SameColumn(WeightsOf(PercentsOf(rows, Some(fw)), fw), rows, Weight)
  {
    var pcts := PercentsOf(rows, Some(fw));
    var back := WeightsOf(pcts, fw);
    forall i | 0 <= i < |rows| ensures back[i].weight == rows[i].weight {
      assert back[i].weight == WeightCell(pcts[i].pct, fw);
      WeightCellUndoesPercentCell(rows[i].weight, fw);
    }
  }

  /** Weights to percentages, then percentages back to weights with the
      flour weight entered as the override, gives the original weights and
      names. */
  lemma ForwardThenInverse(rows: seq<Row>, words: seq<string>)
    requires FlourBasis(rows, words).Some?
    ensures var b := FlourBasis(rows, words).value;
            SameColumn(ExactWeights(ExactPercents(rows, words), words, Some(b), None), rows, Weight)
  {
    var b := FlourBasis(rows, words).value;
    var pcts := ExactPercents(rows, words);
    ExactPercentsNeedNoBootstrap(rows, words);
    assert pcts == PercentsOf(rows, Some(b));
    assert InverseFlourWeight(pcts, words, Some(b), None) == b;
    WeightsOfPercents(rows, b);
  }

  /** The target route recovers the flour weight: taking as target total
      the total weight of a recipe, the percentages computed from it lead
      back to its flour weight. */
  lemma TargetRecoversFlourWeight(rows: seq<Row>, words: seq<string>)
    requires FlourBasis(rows, words).Some? && SumWhere(rows, Weight, AllRows) > 0.0
    ensures var total := SumWhere(rows, Weight, AllRows);
            InverseFlourWeight(ExactPercents(rows, words), words, None, Some(total))
            == FlourBasis(rows, words).value
  {
    var b := FlourBasis(rows, words).value;
    var total := SumWhere(rows, Weight, AllRows);
    var pcts := ExactPercents(rows, words);
    ExactPercentsNeedNoBootstrap(rows, words);
    assert pcts == PercentsOf(rows, Some(b));
    MaskOfSameNames(pcts, rows, AllRows);
    PercentSumIsWeightRatio(rows, b, Mask(rows, AllRows));
    var ps := SumWhere(pcts, Percent, AllRows);
    assert ps == total / b * 100.0;
    TotalOverPercentSum(total, b, ps);
  }

  lemma TotalOverPercentSum(total: real, b: real, ps: real)
    requires total > 0.0 && b > 0.0 && ps == total / b * 100.0
    ensures ps > 0.0 && total * (100.0 / ps) == b
  {
    assert ps * b == total * 100.0;
  }

  /** Weights to percentages, then percentages back to weights aiming at the
      recipe's own total weight, gives the original weights. */
  lemma ForwardThenInverseByTotal(rows: seq<Row>, words: seq<string>)
    requires FlourBasis(rows, words).Some? && SumWhere(rows, Weight, AllRows) > 0.0
    ensures var total := SumWhere(rows, Weight, AllRows);
            SameColumn(ExactWeights(ExactPercents(rows, words), words, None, Some(total)), rows, Weight)
  {
    var b := FlourBasis(rows, words).value;
    TargetRecoversFlourWeight(rows, words);
    ExactPercentsNeedNoBootstrap(rows, words);
    assert ExactPercents(rows, words) == PercentsOf(rows, Some(b));
    WeightsOfPercents(rows, b);
  }

  /** Percentages to weights, then weights back to percentages, gives the
      (bootstrapped) percentages, and the flour weight comes back as the
      basis, when the flour percentages add up to 100. */
  lemma InverseThenForward(rows: seq<Row>, words: seq<string>, override: Option<real>, target: Option<real>)
    requires InverseFlourWeight(rows, words, override, target) > 0.0
    requires SumWhere(Bootstrap(rows, words), Percent, FlourRows(words)) == 100.0
    ensures var weights := ExactWeights(rows, words, override, target);
            && FlourBasis(weights, words) == Some(InverseFlourWeight(rows, words, override, target))
            && SameColumn(ExactPercents(weights, words), Bootstrap(rows, words), Percent)
  {
    var fw := InverseFlourWeight(rows, words, override, target);
    var boot := Bootstrap(rows, words);
    var weights := ExactWeights(rows, words, override, target);
    assert weights == WeightsOf(boot, fw);
    var mask := Mask(boot, FlourRows(words));
    MaskOfSameNames(weights, boot, FlourRows(words));
    WeightSumIsPercentShare(boot, fw, mask);
    HundredPercent(fw);
    assert FlourWeight(weights, words) == fw;
    assert FlourBasis(weights, words).value == fw;
    var back := ExactPercents(weights, words);
    forall i | 0 <= i < |rows| ensures back[i].pct == boot[i].pct {
      assert back[i].pct == PercentCell(weights[i].weight, Some(fw));
      PercentCellUndoesWeightCell(boot[i].pct, fw);
    }
  }

  lemma HundredPercent(fw: real)
    ensures 100.0 / 100.0 * fw == fw
  {
  }
}
