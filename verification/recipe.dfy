/** The ingredient table both converters work on: one row per ingredient
    with its name, weight in grams and baker's percentage, any of which may
    be blank. Column sums treat a blank cell as 0, like `fillna(0).sum()`. */
module Recipe {
  import opened Options
  import opened Keywords
  import opened Rounding

  /** One line of the table: the name column `材料`, the weight column
      `重さ(g)` and the percentage column `ベーカーズ%`. */
  datatype Row = Row(name: Option<string>, weight: Option<real>, pct: Option<real>)

  datatype Column = Weight | Percent

  /** Which rows a column sum runs over. */
  datatype Filter = AllRows | FlourRows(words: seq<string>) | LiquidRows

  /** What a converter hands back: the converted table, the flour weight
      (`None` when the basis is undefined), the total dough weight and the
      weight of the liquid rows. */
  datatype Conversion = Conversion(rows: seq<Row>, flourWeight: Option<real>, totalDough: real, hydration: real)

  function Cell(r: Row, c: Column): Option<real> {
    match c
    case Weight => r.weight
    case Percent => r.pct
  }

  /** Whether filter `f` keeps a row with this name. */
  predicate Keeps(f: Filter, name: Option<string>) {
    match f
    case AllRows => true
    case FlourRows(words) => IsFlour(name, words)
    case LiquidRows => IsLiquid(name)
  }

  /** The boolean row mask of `f` over the table, as `df["材料"].apply(...)`
      or `str.contains(...)` produce it. */
  function Mask(rows: seq<Row>, f: Filter): (m: seq<bool>)
    ensures |m| == |rows|
    ensures forall i :: 0 <= i < |rows| ==> m[i] == Keeps(f, rows[i].name)
  {
    seq(|rows|, i requires 0 <= i < |rows| => Keeps(f, rows[i].name))
  }

  /** What one row adds to a masked column sum. */
  function Share(r: Row, c: Column, keep: bool): real {
    if keep then Cell(r, c).GetOr(0.0) else 0.0
  }

  /** `df.loc[mask, c].fillna(0).sum()`: the sum of column `c` over the rows
      the mask selects, blanks counted as 0. */
  function Sum(rows: seq<Row>, c: Column, mask: seq<bool>): real
    requires |mask| == |rows|
  {
    if |rows| == 0 then 0.0 else Share(rows[0], c, mask[0]) + Sum(rows[1..], c, mask[1..])
  }

  /** No cell of column `c` is negative; blanks count as 0. */
  predicate NonNegative(rows: seq<Row>, c: Column) {
    |rows| == 0 || (Cell(rows[0], c).GetOr(0.0) >= 0.0 && NonNegative(rows[1..], c))
  }

  /** The sum of column `c` over the rows filter `f` keeps; it is not
      negative when no cell of the column is. */
  function SumWhere(rows: seq<Row>, c: Column, f: Filter): (s: real)
    ensures NonNegative(rows, c) ==> s >= 0.0
  {
    SumNonNegative(rows, c, Mask(rows, f));
    Sum(rows, c, Mask(rows, f))
  }

  lemma {:induction false} SumNonNegative(rows: seq<Row>, c: Column, mask: seq<bool>)
    requires |mask| == |rows|
    ensures NonNegative(rows, c) ==> Sum(rows, c, mask) >= 0.0
  {
    if |rows| > 0 {
      SumNonNegative(rows[1..], c, mask[1..]);
    }
  }

  /** Two tables with the same names row by row. */
  predicate SameNames(a: seq<Row>, b: seq<Row>) {
    |a| == |b| && forall i :: 0 <= i < |a| ==> a[i].name == b[i].name
  }

  /** Two tables that agree on names and on column `c`. */
  predicate SameColumn(a: seq<Row>, b: seq<Row>, c: Column) {
    SameNames(a, b) && forall i :: 0 <= i < |a| ==> Cell(a[i], c) == Cell(b[i], c)
  }

  /** Every filter selects the same rows of two tables with the same names. */
  lemma MaskOfSameNames(a: seq<Row>, b: seq<Row>, f: Filter)
    requires SameNames(a, b)
    ensures Mask(a, f) == Mask(b, f)
  {
  }

  /** A masked column sum depends only on the mask and that column. */
  lemma {:induction false} SumOfSameColumn(a: seq<Row>, b: seq<Row>, c: Column, mask: seq<bool>)
    requires SameColumn(a, b, c) && |mask| == |a|
    ensures Sum(a, c, mask) == Sum(b, c, mask)
  {
    if |a| > 0 {
      assert Share(a[0], c, mask[0]) == Share(b[0], c, mask[0]);
      SumOfSameColumn(a[1..], b[1..], c, mask[1..]);
    }
  }

  /** Two tables with the same names and the same column `c` have the same
      filtered sums of `c`. */
  lemma SumWhereOfSameColumn(a: seq<Row>, b: seq<Row>, c: Column, f: Filter)
    requires SameColumn(a, b, c)
    ensures SumWhere(a, c, f) == SumWhere(b, c, f)
  {
    MaskOfSameNames(a, b, f);
    SumOfSameColumn(a, b, c, Mask(a, f));
  }

  /** A filtered sum over a table is its sum under the mask the filter
      gives on any table with the same names. */
  lemma SumWhereUnderMaskOf(a: seq<Row>, b: seq<Row>, c: Column, f: Filter)
    requires SameNames(a, b)
    ensures SumWhere(a, c, f) == Sum(a, c, Mask(b, f))
  {
    MaskOfSameNames(a, b, f);
  }

  /** Replacing one row while keeping the mask changes a column sum by the
      difference of the two rows' shares. */
  lemma {:induction false} SumAfterUpdate(rows: seq<Row>, i: nat, r: Row, c: Column, mask: seq<bool>)
    requires i < |rows| && |mask| == |rows|
    ensures Sum(rows[i := r], c, mask) == Sum(rows, c, mask) - Share(rows[i], c, mask[i]) + Share(r, c, mask[i])
  {
    if i == 0 {
      assert rows[i := r][1..] == rows[1..];
    } else {
      assert rows[i := r][1..] == rows[1..][i - 1 := r];
      SumAfterUpdate(rows[1..], i - 1, r, c, mask[1..]);
    }
  }

  /** A row with column `c` rounded to `d` decimals. */
  function RoundRow(r: Row, c: Column, d: nat): Row {
    match c
    case Weight => r.(weight := RoundCell(r.weight, d))
    case Percent => r.(pct := RoundCell(r.pct, d))
  }

  /** `df[c].round(d)`: only column `c` changes, each cell to its rounded
      value, blanks stay blank. */
  function RoundColumn(rows: seq<Row>, c: Column, d: nat): (out: seq<Row>)
    ensures |out| == |rows|
    ensures forall i :: 0 <= i < |rows| ==> out[i] == RoundRow(rows[i], c, d)
  {
    if |rows| == 0 then [] else [RoundRow(rows[0], c, d)] + RoundColumn(rows[1..], c, d)
  }

  /** Rounding one row moves its share by at most half a step. */
  lemma RoundRowShare(r: Row, c: Column, d: nat, keep: bool)
    ensures -Step(d) / 2.0 <= Share(RoundRow(r, c, d), c, keep) - Share(r, c, keep) <= Step(d) / 2.0
  {
  }

  /** `n` times the tolerance `h`, built up one row at a time. */
  function Tolerance(n: nat, h: real): real {
    if n == 0 then 0.0 else Tolerance(n - 1, h) + h
  }

  /** `x` lies within `tol` of `y`, on either side. */
  predicate Near(x: real, y: real, tol: real) {
    -tol <= x - y <= tol
  }

  /** Rounding a column moves its sum by at most half a step per row. */
  lemma {:induction false} RoundColumnSumDrift(rows: seq<Row>, c: Column, d: nat, mask: seq<bool>)
    requires |mask| == |rows|
    ensures Near(Sum(RoundColumn(rows, c, d), c, mask), Sum(rows, c, mask), Tolerance(|rows|, Step(d) / 2.0))
  {
    if |rows| > 0 {
      var out := RoundColumn(rows, c, d);
      assert out[1..] == RoundColumn(rows[1..], c, d);
      RoundColumnSumDrift(rows[1..], c, d, mask[1..]);
      RoundRowShare(rows[0], c, d, mask[0]);
    }
  }

  /** Rounding a column keeps the names, so every filter keeps the same rows. */
  lemma RoundColumnKeepsMask(rows: seq<Row>, c: Column, d: nat, f: Filter)
    ensures Mask(RoundColumn(rows, c, d), f) == Mask(rows, f)
  {
    MaskOfSameNames(RoundColumn(rows, c, d), rows, f);
  }

  /** Rounding a column twice is rounding it once. */
  lemma RoundColumnIdempotent(rows: seq<Row>, c: Column, d: nat)
    ensures RoundColumn(RoundColumn(rows, c, d), c, d) == RoundColumn(rows, c, d)
  {
    var once := RoundColumn(rows, c, d);
    var twice := RoundColumn(once, c, d);
    forall i | 0 <= i < |rows| ensures twice[i] == once[i] {
      match c
      case Weight => RoundCellIdempotent(rows[i].weight, d);
      case Percent => RoundCellIdempotent(rows[i].pct, d);
    }
  }
}
