/** Weights to baker's percentages (`compute_from_weights`): the summed
    weight of the flour rows is the 100 % basis. */
module Forward {
  import opened Options
  import opened Rounding
  import opened Recipe

  /** The summed weight of the flour rows, blanks counted as 0. */
  function FlourWeight(rows: seq<Row>, words: seq<string>): real {
    SumWhere(rows, Weight, FlourRows(words))
  }

  /** The flour weight is never negative when no weight is. */
  lemma FlourWeightNonNegative(rows: seq<Row>, words: seq<string>)
    requires NonNegative(rows, Weight)
    ensures FlourWeight(rows, words) >= 0.0
  {
  }

  /** The percentage basis: the flour weight when it is positive, otherwise
      undefined (the warning case, where the source substitutes NaN). */
  function FlourBasis(rows: seq<Row>, words: seq<string>): (basis: Option<real>)
    ensures basis.Some? <==> FlourWeight(rows, words) > 0.0
    ensures basis.Some? ==> basis.value == FlourWeight(rows, words)
  {
    var w := FlourWeight(rows, words);
    if w <= 0.0 then None else Some(w)
  }

  /** One row's percentage: its weight over the basis, times 100; blank when
      the weight is blank or the basis undefined. */
  function PercentCell(weight: Option<real>, basis: Option<real>): (p: Option<real>)
    requires basis.Some? ==> basis.value > 0.0
    ensures p.Some? <==> weight.Some? && basis.Some?
    ensures p.Some? ==> p.value * basis.value == weight.value * 100.0
  {
    if weight.Some? && basis.Some? then Some(weight.value / basis.value * 100.0) else None
  }

  /** The percentage column recomputed from the weight column against
      `basis`; names and weights are kept. */
  function PercentsOf(rows: seq<Row>, basis: Option<real>): (out: seq<Row>)
    requires basis.Some? ==> basis.value > 0.0
    ensures SameColumn(out, rows, Weight)
    ensures forall i :: 0 <= i < |rows| ==> out[i].pct == PercentCell(rows[i].weight, basis)
  {
    if |rows| == 0 then []
    else [rows[0].(pct := PercentCell(rows[0].weight, basis))] + PercentsOf(rows[1..], basis)
  }

  /** The percentages before rounding. */
  function ExactPercents(rows: seq<Row>, words: seq<string>): seq<Row> {
    PercentsOf(rows, FlourBasis(rows, words))
  }

  /** `compute_from_weights`: percentages rounded to 2 decimals, the flour
      weight (or the undefined marker), the total of the weight column and
      the weight of the liquid rows. The caller's table is left as it is:
      the result is a new table that differs only in the percentage column. */
  function ComputeFromWeights(rows: seq<Row>, words: seq<string>): (c: Conversion)
    ensures SameColumn(c.rows, rows, Weight)
    ensures c.flourWeight == FlourBasis(rows, words)
    ensures c.flourWeight.None? ==> forall i :: 0 <= i < |c.rows| ==> c.rows[i].pct.None?
    ensures forall i :: 0 <= i < |rows| ==>
              c.rows[i].pct == RoundCell(PercentCell(rows[i].weight, c.flourWeight), 2)
    ensures c.totalDough == SumWhere(rows, Weight, AllRows) == SumWhere(c.rows, Weight, AllRows)
    ensures c.hydration == SumWhere(c.rows, Weight, LiquidRows)
  {
    var basis := FlourBasis(rows, words);
    var out := RoundColumn(PercentsOf(rows, basis), Percent, 2);
    assert SameColumn(out, rows, Weight);
    SumWhereOfSameColumn(out, rows, Weight, AllRows);
    Conversion(out, basis, SumWhere(rows, Weight, AllRows), SumWhere(out, Weight, LiquidRows))
  }

  /** Summing percentages under a mask is summing weights under it and
      dividing by the basis. */
  lemma {:induction false} PercentSumIsWeightRatio(rows: seq<Row>, basis: real, mask: seq<bool>)
    requires basis > 0.0 && |mask| == |rows|
    ensures Sum(PercentsOf(rows, Some(basis)), Percent, mask) == Sum(rows, Weight, mask) / basis * 100.0
  {
    if |rows| > 0 {
      var out := PercentsOf(rows, Some(basis));
      assert out[0] == rows[0].(pct := PercentCell(rows[0].weight, Some(basis)));
      assert out[1..] == PercentsOf(rows[1..], Some(basis));
      PercentSumIsWeightRatio(rows[1..], basis, mask[1..]);
      PercentShare(rows[0], basis, mask[0]);
      DivDistributes(Share(rows[0], Weight, mask[0]), Sum(rows[1..], Weight, mask[1..]), basis);
    }
  }

  /** One row's share of the percentage sum is its weight share over the
      basis. */
  lemma PercentShare(r: Row, basis: real, keep: bool)
    requires basis > 0.0
    ensures Share(r.(pct := PercentCell(r.weight, Some(basis))), Percent, keep) == Share(r, Weight, keep) / basis * 100.0
  {
  }

  lemma DivDistributes(a: real, x: real, b: real)
    requires b > 0.0
    ensures (a + x) / b * 100.0 == a / b * 100.0 + x / b * 100.0
  {
  }

  /** Percentages taken against the very sum of the rows a mask selects add
      up, over those rows, to 100. */
  lemma BasisPercentsSumTo100(rows: seq<Row>, basis: real, mask: seq<bool>)
    requires |mask| == |rows| && basis == Sum(rows, Weight, mask) && basis > 0.0
    ensures Sum(PercentsOf(rows, Some(basis)), Percent, mask) == 100.0
  {
    PercentSumIsWeightRatio(rows, basis, mask);
    SelfRatio(basis);
  }

  lemma SelfRatio(b: real)
    requires b > 0.0
    ensures b / b * 100.0 == 100.0
  {
  }

  /** With a defined basis the flour rows' percentages add up to exactly
      100 before rounding. */
  lemma FlourPercentsSumTo100(rows: seq<Row>, words: seq<string>)
    requires FlourBasis(rows, words).Some?
    ensures SumWhere(ExactPercents(rows, words), Percent, FlourRows(words)) == 100.0
  {
    var b := FlourBasis(rows, words).value;
    var exact := PercentsOf(rows, Some(b));
    assert ExactPercents(rows, words) == exact;
    MaskOfSameNames(exact, rows, FlourRows(words));
    BasisPercentsSumTo100(rows, b, Mask(rows, FlourRows(words)));
  }

  /** After rounding to 2 decimals the flour rows' percentages stay within
      0.005 per row of 100. */
  lemma RoundedFlourPercentsNear100(rows: seq<Row>, words: seq<string>)
    requires FlourBasis(rows, words).Some?
    ensures Near(SumWhere(ComputeFromWeights(rows, words).rows, Percent, FlourRows(words)), 100.0, Tolerance(|rows|, 0.005))
  {
    var exact := ExactPercents(rows, words);
    FlourPercentsSumTo100(rows, words);
    assert ComputeFromWeights(rows, words).rows == RoundColumn(exact, Percent, 2);
    RoundColumnKeepsMask(exact, Percent, 2, FlourRows(words));
    RoundedPercentsNear(exact, Mask(exact, FlourRows(words)), 100.0);
  }

  /** A percentage sum that is exactly `s` stays within 0.005 per row of `s`
      after rounding to 2 decimals. */
  lemma RoundedPercentsNear(rows: seq<Row>, mask: seq<bool>, s: real)
    requires |mask| == |rows| && Sum(rows, Percent, mask) == s
    ensures Near(Sum(RoundColumn(rows, Percent, 2), Percent, mask), s, Tolerance(|rows|, 0.005))
  {
    RoundColumnSumDrift(rows, Percent, 2, mask);
    assert Step(2) / 2.0 == 0.005;
  }

  /** Without a positive flour weight no row gets a percentage, not even 0:
      the undefined basis is visible in every cell. */
  lemma UndefinedBasisBlanksPercents(rows: seq<Row>, words: seq<string>)
    requires FlourWeight(rows, words) <= 0.0
    ensures ComputeFromWeights(rows, words).flourWeight == None
    ensures forall i :: 0 <= i < |rows| ==> ComputeFromWeights(rows, words).rows[i].pct == None
  {
  }
}
