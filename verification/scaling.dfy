/** Scaling a converted table to a new total dough weight: the new total
    comes from a total target, or from a piece count times a piece weight,
    or stays the current total; every weight is multiplied by the ratio of
    the new total to the current one and rounded to 1 decimal. The
    percentage column is carried over unchanged. */
module Scaling {
  import opened Options
  import opened Rounding
  import opened Recipe
  import opened Forward
  import opened Inverse

  /** What the scaling step shows: the scaled table, the total it aims at
      and the factor it applied. */
  datatype Scaled = Scaled(rows: seq<Row>, newTotal: real, scale: real)

  /** The total to scale to: a positive total target wins, then a positive
      piece weight times the number of pieces, then the current total. */
  function NewTotal(totalWeight: real, pieces: int, eachWeight: real, totalTarget: real): (t: real)
    ensures totalTarget > 0.0 ==> t == totalTarget
    ensures (totalTarget > 0.0 || (eachWeight > 0.0 && pieces >= 1)) ==> t > 0.0
    ensures totalTarget <= 0.0 && eachWeight <= 0.0 ==> t == totalWeight
  {
    if totalTarget > 0.0 then totalTarget
    else if eachWeight > 0.0 then eachWeight * pieces as real
    else totalWeight
  }

  /** The factor that takes the current total to the new one; 1 when the
      current total is not positive. */
  function ScaleFactor(totalWeight: real, newTotal: real): (s: real)
    ensures totalWeight > 0.0 ==> s * totalWeight == newTotal
    ensures totalWeight <= 0.0 ==> s == 1.0
  {
    if totalWeight > 0.0 then newTotal / totalWeight else 1.0
  }

  /** One weight times the factor; a blank weight stays blank. */
  function ScaleCell(w: Option<real>, s: real): (r: Option<real>)
    ensures r.Some? <==> w.Some?
    ensures r.Some? ==> r.value == w.value * s
  {
    if w.Some? then Some(w.value * s) else None
  }

  /** The weight column multiplied by `s`; names and percentages are kept. */
  function ScaleWeights(rows: seq<Row>, s: real): (out: seq<Row>)
    ensures SameColumn(out, rows, Percent)
    ensures forall i :: 0 <= i < |rows| ==> out[i].weight == ScaleCell(rows[i].weight, s)
  {
    if |rows| == 0 then []
    else [rows[0].(weight := ScaleCell(rows[0].weight, s))] + ScaleWeights(rows[1..], s)
  }

  /** `(df["重さ(g)"] * scale).round(1)` on a copy of the table. */
  function ScaleRecipe(rows: seq<Row>, s: real): (out: seq<Row>)
    ensures SameColumn(out, rows, Percent)
    ensures forall i :: 0 <= i < |rows| ==> out[i].weight == RoundCell(ScaleCell(rows[i].weight, s), 1)
  {
    RoundColumn(ScaleWeights(rows, s), Weight, 1)
  }

  /** The scaling step applied to a converter's result. */
  function ApplyScaling(c: Conversion, pieces: int, eachWeight: real, totalTarget: real): (r: Scaled)
    ensures r.newTotal == NewTotal(c.totalDough, pieces, eachWeight, totalTarget)
    ensures c.totalDough > 0.0 ==> r.scale * c.totalDough == r.newTotal
    ensures c.totalDough <= 0.0 ==> r.scale == 1.0
    ensures SameColumn(r.rows, c.rows, Percent)
    ensures r.scale == ScaleFactor(c.totalDough, r.newTotal)
    ensures r.rows == ScaleRecipe(c.rows, r.scale)
  {
    var newTotal := NewTotal(c.totalDough, pieces, eachWeight, totalTarget);
    var s := ScaleFactor(c.totalDough, newTotal);
    Scaled(ScaleRecipe(c.rows, s), newTotal, s)
  }

  /** Without a total target, a positive piece weight splits the new total
      into `pieces` pieces of exactly that weight. */
  lemma PiecesWeighEachWeight(totalWeight: real, pieces: int, eachWeight: real, totalTarget: real)
    requires totalTarget <= 0.0 && eachWeight > 0.0 && pieces >= 1
    ensures NewTotal(totalWeight, pieces, eachWeight, totalTarget) / pieces as real == eachWeight
  {
    PieceShare(eachWeight, pieces as real);
  }

  lemma PieceShare(e: real, n: real)
    requires n > 0.0
    ensures e * n / n == e
  {
  }

  /** With neither target the factor is 1: the recipe keeps its size. */
  lemma NoTargetNoScaling(totalWeight: real, pieces: int, eachWeight: real, totalTarget: real)
    requires totalTarget <= 0.0 && eachWeight <= 0.0
    ensures ScaleFactor(totalWeight, NewTotal(totalWeight, pieces, eachWeight, totalTarget)) == 1.0
  {
    if totalWeight > 0.0 {
      SelfQuotient(totalWeight);
    }
  }

  lemma SelfQuotient(t: real)
    requires t > 0.0
    ensures t / t == 1.0
  {
  }

  /** Scaling the weights scales every masked weight sum by the same
      factor. */
  lemma {:induction false} ScaledSum(rows: seq<Row>, s: real, mask: seq<bool>)
    requires |mask| == |rows|
    ensures Sum(ScaleWeights(rows, s), Weight, mask) == Sum(rows, Weight, mask) * s
  {
    ScaledSumBy(rows, s, mask);
  }

  /** `x * s` under a name, so that equal sums times `s` are equal terms. */
  function TimesFactor(x: real, s: real): real {
    x * s
  }

  /** `ScaledSum` by induction on the rows, with the product named. */
  lemma {:induction false} ScaledSumBy(rows: seq<Row>, s: real, mask: seq<bool>)
    requires |mask| == |rows|
    ensures Sum(ScaleWeights(rows, s), Weight, mask) == TimesFactor(Sum(rows, Weight, mask), s)
  {
    if |rows| > 0 {
      var out := ScaleWeights(rows, s);
      assert out[1..] == ScaleWeights(rows[1..], s);
      ScaledSumBy(rows[1..], s, mask[1..]);
      assert Share(out[0], Weight, mask[0]) == TimesFactor(Share(rows[0], Weight, mask[0]), s);
      TimesFactorAdds(Share(rows[0], Weight, mask[0]), Sum(rows[1..], Weight, mask[1..]), s);
    }
  }

  lemma TimesFactorAdds(a: real, x: real, s: real)
    ensures TimesFactor(a + x, s) == TimesFactor(a, s) + TimesFactor(x, s)
  {
  }

  /** Before rounding, the scaled weights add up to exactly the new total
      whenever the current total is the positive sum of the weights. */
  lemma ExactScalingHitsNewTotal(rows: seq<Row>, totalWeight: real, newTotal: real)
    requires totalWeight == SumWhere(rows, Weight, AllRows) && totalWeight > 0.0
    ensures SumWhere(ScaleWeights(rows, ScaleFactor(totalWeight, newTotal)), Weight, AllRows) == newTotal
  {
    var s := ScaleFactor(totalWeight, newTotal);
    var out := ScaleWeights(rows, s);
    MaskOfSameNames(out, rows, AllRows);
    ScaledSum(rows, s, Mask(rows, AllRows));
  }

  /** After rounding, the scaled table's total is within 0.05 g per row of
      the new total, for any converter result whose total is the positive
      sum of its weights. */
  lemma ScaledTotalNear(c: Conversion, pieces: int, eachWeight: real, totalTarget: real)
    requires c.totalDough == SumWhere(c.rows, Weight, AllRows) && c.totalDough > 0.0
    ensures var r := ApplyScaling(c, pieces, eachWeight, totalTarget);
            Near(SumWhere(r.rows, Weight, AllRows), r.newTotal, Tolerance(|c.rows|, 0.05))
  {
    var r := ApplyScaling(c, pieces, eachWeight, totalTarget);
    var exact := ScaleWeights(c.rows, r.scale);
    ExactScalingHitsNewTotal(c.rows, c.totalDough, r.newTotal);
    RoundColumnKeepsMask(exact, Weight, 1, AllRows);
    RoundColumnSumDrift(exact, Weight, 1, Mask(exact, AllRows));
    assert Step(1) / 2.0 == 0.05;
  }

  /** Scaling the table from the weights converter lands within 0.05 g per
      row of the new total. */
  lemma ScaleAfterWeights(rows: seq<Row>, words: seq<string>, pieces: int, eachWeight: real, totalTarget: real)
    requires SumWhere(rows, Weight, AllRows) > 0.0
    ensures var c := ComputeFromWeights(rows, words);
            var r := ApplyScaling(c, pieces, eachWeight, totalTarget);
            Near(SumWhere(r.rows, Weight, AllRows), r.newTotal, Tolerance(|rows|, 0.05))
  {
    ScaledTotalNear(ComputeFromWeights(rows, words), pieces, eachWeight, totalTarget);
  }

  /** Scaling the table from the percentage converter lands within 0.05 g
      per row of the new total. */
  lemma ScaleAfterBakers(rows: seq<Row>, words: seq<string>, override: Option<real>, target: Option<real>,
                         pieces: int, eachWeight: real, totalTarget: real)
    requires ComputeFromBakers(rows, words, override, target).totalDough > 0.0
    ensures var c := ComputeFromBakers(rows, words, override, target);
            var r := ApplyScaling(c, pieces, eachWeight, totalTarget);
            Near(SumWhere(r.rows, Weight, AllRows), r.newTotal, Tolerance(|rows|, 0.05))
  {
    ScaledTotalNear(ComputeFromBakers(rows, words, override, target), pieces, eachWeight, totalTarget);
  }

  /** Scaling by a non-zero factor and then by its reciprocal gives the
      exact weights back. */
  lemma ScaleUndo(rows: seq<Row>, s: real)
    requires s != 0.0
    ensures ScaleWeights(ScaleWeights(rows, s), 1.0 / s) == rows
  {
    var mid := ScaleWeights(rows, s);
    var back := ScaleWeights(mid, 1.0 / s);
    forall i | 0 <= i < |rows| ensures back[i] == rows[i] {
      assert back[i].weight == ScaleCell(mid[i].weight, 1.0 / s);
      assert mid[i].weight == ScaleCell(rows[i].weight, s);
      assert back[i].pct == rows[i].pct && back[i].name == rows[i].name;
      ScaleCellUndo(rows[i].weight, s);
    }
  }

  lemma ScaleCellUndo(w: Option<real>, s: real)
    requires s != 0.0
    ensures ScaleCell(ScaleCell(w, s), 1.0 / s) == w
  {
    if w.Some? {
      MulInverse(w.value, s);
      assert ScaleCell(ScaleCell(w, s), 1.0 / s).value == w.value;
    }
  }

  lemma MulInverse(w: real, s: real)
    requires s != 0.0
    ensures w * s * (1.0 / s) == w
  {
  }

  /** Scaling the weights scales the flour weight by the same factor. */
  lemma FlourWeightScales(rows: seq<Row>, words: seq<string>, s: real)
    ensures FlourWeight(ScaleWeights(rows, s), words) == FlourWeight(rows, words) * s
  {
    MaskOfSameNames(ScaleWeights(rows, s), rows, FlourRows(words));
    ScaledSum(rows, s, Mask(rows, FlourRows(words)));
  }

  /** The basis scaled by `s`, undefined when it was undefined. */
  function ScaleBasis(b: Option<real>, s: real): Option<real> {
    if b.Some? then Some(b.value * s) else None
  }

  /** Scaling by a positive factor scales the percentage basis, and keeps
      it undefined when it was. */
  lemma FlourBasisScales(rows: seq<Row>, words: seq<string>, s: real)
    requires s > 0.0
    ensures FlourBasis(ScaleWeights(rows, s), words) == ScaleBasis(FlourBasis(rows, words), s)
  {
    var scaled := ScaleWeights(rows, s);
    FlourWeightScales(rows, words, s);
    BasisOfScaledWeight(FlourBasis(rows, words), FlourBasis(scaled, words),
                        FlourWeight(rows, words), FlourWeight(scaled, words), s);
  }

  /** The basis of a weight `w`, and of its scaled weight `ws`. */
  lemma BasisOfScaledWeight(b: Option<real>, bs: Option<real>, w: real, ws: real, s: real)
    requires s > 0.0 && ws == w * s
    requires (b.Some? <==> w > 0.0) && (b.Some? ==> b.value == w)
    requires (bs.Some? <==> ws > 0.0) && (bs.Some? ==> bs.value == ws)
    ensures bs == ScaleBasis(b, s)
  {
    PositiveScale(w, s);
    if w > 0.0 {
      assert bs.value == ScaleBasis(b, s).value;
    }
  }

  /** A weight and its basis scaled together give the same percentage. */
  lemma PercentCellScales(w: Option<real>, b: Option<real>, s: real)
    requires s > 0.0 && (b.Some? ==> b.value > 0.0)
    ensures ScaleBasis(b, s).Some? ==> ScaleBasis(b, s).value > 0.0
    ensures PercentCell(ScaleCell(w, s), ScaleBasis(b, s)) == PercentCell(w, b)
  {
    if b.Some? {
      PositiveScale(b.value, s);
      if w.Some? {
        RatioOfScaled(w.value, b.value, s);
        assert PercentCell(ScaleCell(w, s), ScaleBasis(b, s)).value == PercentCell(w, b).value;
      }
    }
  }

  /** Scaling the weights by a positive factor scales the flour weight by
      the same factor and leaves every exact percentage as it was, so the
      carried-over percentage column still describes the scaled table. */
  lemma ScalingKeepsPercentages(rows: seq<Row>, words: seq<string>, s: real)
    requires s > 0.0
    ensures var scaled := ScaleWeights(rows, s);
            && FlourWeight(scaled, words) == FlourWeight(rows, words) * s
            && SameColumn(ExactPercents(scaled, words), ExactPercents(rows, words), Percent)
  {
    var scaled := ScaleWeights(rows, s);
    FlourWeightScales(rows, words, s);
    FlourBasisScales(rows, words, s);
    var b := FlourBasis(rows, words);
    var a := ExactPercents(scaled, words);
    var e := ExactPercents(rows, words);
    forall i | 0 <= i < |rows| ensures a[i].pct == e[i].pct {
      assert a[i].pct == PercentCell(ScaleCell(rows[i].weight, s), ScaleBasis(b, s));
      PercentCellScales(rows[i].weight, b, s);
    }
  }

  lemma PositiveScale(x: real, s: real)
    requires s > 0.0
    ensures x * s > 0.0 <==> x > 0.0
  {
    if x > 0.0 {
      assert x * s > 0.0;
    }
    if x <= 0.0 {
      assert x * s <= 0.0;
    }
  }

  lemma RatioOfScaled(w: real, b: real, s: real)
    requires b > 0.0 && s > 0.0
    ensures w * s / (b * s) * 100.0 == w / b * 100.0
  {
  }

  /** A table already on the 1-decimal grid is left as it is by the scaling
      step when no target is set; in particular the percentage converter's
      table, whose weights are rounded to 1 decimal. */
  lemma NoTargetKeepsBakersTable(rows: seq<Row>, words: seq<string>, override: Option<real>, target: Option<real>,
                                 pieces: int, eachWeight: real, totalTarget: real)
    requires totalTarget <= 0.0 && eachWeight <= 0.0
    ensures var c := ComputeFromBakers(rows, words, override, target);
            ApplyScaling(c, pieces, eachWeight, totalTarget).rows == c.rows
  {
    var c := ComputeFromBakers(rows, words, override, target);
    var exact := ExactWeights(rows, words, override, target);
    NoTargetNoScaling(c.totalDough, pieces, eachWeight, totalTarget);
    ScaleByOne(c.rows);
    BakersRoundsExactWeights(rows, words, override, target);
    RoundColumnIdempotent(exact, Weight, 1);
  }

  /** Scaling by 1 changes nothing. */
  lemma ScaleByOne(rows: seq<Row>)
    ensures ScaleWeights(rows, 1.0) == rows
  {
    var out := ScaleWeights(rows, 1.0);
    forall i | 0 <= i < |rows| ensures out[i] == rows[i] {
    }
  }
}
