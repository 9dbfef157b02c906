# Baker's percentage converter — a Dafny model

This project models the calculation core of a small baker's-percentage tool.
A recipe is a table of ingredient rows. Each row has a name, a weight in grams
and a baker's percentage, and any of the three may be blank. The flour rows
count together as 100 %. The tool does four things:

- **Flour and liquid rows.** A comma-separated keyword text is parsed into
  keywords that are stripped, lower-cased and non-empty. A row is flour when
  one of those keywords occurs in its lower-cased name. A row is liquid when
  its name contains 水, water, 牛乳, milk, 卵 or egg, ignoring case.
- **Weights → percentages.** The flour weight is the sum of the flour rows'
  weights. Every percentage becomes weight / flour weight × 100, rounded to
  two decimals. When the flour weight is not positive, the basis is
  undefined and every percentage is blank.
- **Percentages → weights.** First a bootstrap step runs: when the flour
  percentages add up to 0, the first flour row is set to 100 %. Then the
  flour weight is chosen:
  - a positive override, if one is given;
  - otherwise, for a non-zero target total with a positive percentage sum,
    the flour weight at which the weights add up to the target;
  - otherwise 300 g.

  Every weight becomes percentage / 100 × flour weight, rounded to one
  decimal.
- **Summary and scaling.** The summary reports the flour weight (or `-` when
  it is undefined), the total dough weight and the hydration (liquid weight /
  flour weight × 100); the liquid weight is computed for the hydration but
  not shown. The
  scaling step picks a new total from the total target, from pieces × weight
  per piece, or from the current total, in that order. When the current
  total is positive it multiplies every weight by new total / current
  total; otherwise the factor is 1 and the weights are kept, though the
  chosen new total is still reported. Each weight is then rounded to one
  decimal.

Modules, one per file:

| module | file | contents |
|---|---|---|
| `Options` | `options.dfy` | `Option`; `None` stands for a blank (NaN) cell |
| `Text` | `text.dfy` | Python's `strip`, `lower`, `split(",")` and substring `in` on `seq<char>` |
| `Keywords` | `keywords.dfy` | keyword parsing, `is_flour`, the liquid pattern |
| `Rounding` | `rounding.dfy` | round-half-even to `d` decimals on exact reals |
| `Recipe` | `recipe.dfy` | rows, columns, filtered column sums, rounding a column |
| `Forward` | `forward.dfy` | `compute_from_weights` |
| `Inverse` | `inverse.dfy` | `compute_from_bakers`, including the bootstrap and the choice of flour weight |
| `Summary` | `summary.dfy` | the hydration percentage |
| `Scaling` | `scaling.dfy` | the scaling step |
| `RoundTrip` | `roundtrip.dfy` | how the two converters undo each other before rounding |
| `Presets` | `presets.dfy` | `load_preset`, the default keyword text, worked examples on the default recipe |

Arithmetic is on exact reals. Rounding is round-half-even at the decimal
grid, the way numpy rounds. So every rounded quantity has two statements:
- an exact one about the unrounded values;
- a bound on how far rounding moves it: at most half a grid step per row.

`compute_from_bakers` takes the target route for any non-zero target, by
Python truthiness (line 125); the page passes only a positive target or
`None` (line 151). `Inverse.ResolveFlourWeight` and
`Inverse.TargetRouteHitsTarget` state the route for any non-zero target.

The sidebar's initial keyword text is written in the model as its ten
comma-separated pieces joined by commas (`Presets.DefaultKeywordText`);
`Presets.DefaultKeywordsParsed` proves that it parses to the keyword list the
worked examples use.

## Model

| member | source | states |
|---|---|---|
| Text.Strip | streamlit_app.py:26 | the stripped piece has no surrounding whitespace, is the input minus leading and trailing whitespace runs, and is empty exactly when the input is all whitespace |
| Text.Lower | streamlit_app.py:26 | lower-casing keeps the length, maps every character through the ASCII lower-case map and yields a string with no capitals |
| Text.LowerIdempotent | streamlit_app.py:26 | lower-casing twice is lower-casing once |
| Text.JoinSplit | streamlit_app.py:26 | joining the pieces of a split with the separator gives the original text back |
| Text.SplitJoin | streamlit_app.py:26 | splitting a join of separator-free pieces gives the pieces back |
| Text.Split | streamlit_app.py:26 | splitting yields at least one piece and no piece contains the separator |
| Text.Contains | streamlit_app.py:100 | an empty needle is contained in any text, and a contained needle is no longer than the text |
| Keywords.ParseKeywords | streamlit_app.py:26 | every parsed keyword is non-empty, stripped, lower-case and comma-free, and there are at most as many keywords as comma-separated pieces |
| Keywords.ParseJoinRoundTrip | streamlit_app.py:26 | parsing the comma-joined text of a keyword list gives the list back |
| Keywords.ParseIdempotent | streamlit_app.py:26 | re-parsing the joined keywords of a text gives the same keywords |
| Keywords.ParseKeepsOrder | streamlit_app.py:26 | the keywords of `a,b` are those of `a` followed by those of `b` |
| Keywords.ParseSinglePiece | streamlit_app.py:26 | a comma-free text gives no keyword when blank, else its stripped, lower-cased self |
| Keywords.ParseWordPieces | streamlit_app.py:26 | a text made of comma-joined pieces, each a stripped comma-free word with at most one leading space, parses to those words lower-cased, in order |
| Presets.DefaultKeywordsParsed | streamlit_app.py:24-26 | the sidebar's initial keyword text parses to 強力粉, 薄力粉, 準強力粉, ライ麦, 全粒粉, 中力粉, bread flour, flour, rye, whole wheat |
| Text.ContainsIff | streamlit_app.py:100 | substring containment holds iff the needle occurs at some index of the haystack |
| Text.AnyContainsIff | streamlit_app.py:100 | `any(w in s for w in words)` holds iff some listed word occurs in `s` |
| Keywords.IsFlour | streamlit_app.py:98-100 | with no keywords no row is flour |
| Keywords.FlourIffKeywordOccurs | streamlit_app.py:98-100 | a row is flour iff its name is present and some parsed keyword occurs in the lower-cased name; a missing or empty name is never flour |
| Keywords.FlourIgnoresCase | streamlit_app.py:98-100 | the flour test gives the same answer for a name and its lower-cased form |
| Keywords.LiquidIff | streamlit_app.py:110 | a row is liquid iff its name is present and one of 水, water, 牛乳, milk, 卵, egg occurs in the lower-cased name |
| Keywords.IsLiquid | streamlit_app.py:110 | a liquid row always has a present, non-empty name (`na=False`) |
| Rounding.RoundHalfEven | streamlit_app.py:108 | the rounded integer is within 0.5 of the value and even at an exact half |
| Rounding.RoundTo | streamlit_app.py:108 | a value rounded to `d` decimals lies on the `d`-decimal grid and within half a grid step of the value |
| Rounding.RoundToOnGrid | streamlit_app.py:108 | a value already on the grid is left unchanged |
| Rounding.RoundToIdempotent | streamlit_app.py:108 | rounding twice is rounding once |
| Rounding.RoundCell | streamlit_app.py:108 | a blank cell stays blank; a filled one lands on the grid within half a step |
| Recipe.RoundColumnSumDrift | streamlit_app.py:130 | rounding a column moves any masked column sum by at most half a grid step per row |
| Recipe.RoundColumn | streamlit_app.py:108 | rounding a column keeps the row count and changes only that column of each row, to its rounded cell |
| Recipe.SumWhere | streamlit_app.py:104 | a filtered `fillna(0).sum()` is never negative when no cell of the column is |
| Recipe.RoundColumnIdempotent | streamlit_app.py:130 | rounding a column twice is rounding it once |
| Recipe.SumWhereOfSameColumn | streamlit_app.py:104 | a filtered column sum depends only on the names and that column |
| Recipe.SumAfterUpdate | streamlit_app.py:120 | replacing one row changes a masked column sum by the difference of that row's old and new shares |
| Forward.FlourWeightNonNegative | streamlit_app.py:104 | the flour rows' weight sum, blanks counted as 0, is never negative when no weight is |
| Forward.PercentsOf | streamlit_app.py:108 | the unrounded percentage column: names and weights are kept and each row's percentage is its `PercentCell` against the basis |
| Forward.FlourBasis | streamlit_app.py:104-107 | the basis is defined exactly when the flour weight is positive, and then equals it |
| Forward.PercentCell | streamlit_app.py:108 | a percentage is blank iff the weight or the basis is blank; otherwise percentage × basis = weight × 100 |
| Forward.ComputeFromWeights | streamlit_app.py:102-111 | names and weights are kept; each percentage is the weight's share of the basis, rounded to two decimals; an undefined basis blanks every percentage; the total is the weight sum and the liquid weight the liquid rows' sum |
| Forward.PercentSumIsWeightRatio | streamlit_app.py:108 | under any mask, the unrounded percentages add up to the masked weight sum over the basis, times 100 |
| Forward.FlourPercentsSumTo100 | streamlit_app.py:104-108 | with a defined basis the flour rows' unrounded percentages add up to exactly 100 |
| Forward.RoundedFlourPercentsNear100 | streamlit_app.py:104-108 | with a defined basis, the flour rows' reported percentages add up to 100 within 0.005 per row |
| Forward.UndefinedBasisBlanksPercents | streamlit_app.py:105-108 | a flour weight that is not positive leaves the basis undefined and every percentage blank |
| Inverse.FirstFlour | streamlit_app.py:118-119 | the index found is a flour row with no flour row before it; none is found only when no row is flour |
| Inverse.Bootstrap | streamlit_app.py:115-120 | with a zero flour percentage sum and a flour row, exactly the first flour row's percentage becomes 100; otherwise the table is unchanged; weights are never touched |
| Inverse.BootstrapFlourSum | streamlit_app.py:116-120 | after the bootstrap the flour percentage sum is 100 minus the first flour row's old share |
| Inverse.BootstrapGivesFlour100 | streamlit_app.py:115-120 | for non-negative percentages, the bootstrap brings a zero flour percentage sum to exactly 100 |
| Inverse.ResolveFlourWeight | streamlit_app.py:122-128 | a positive override wins; otherwise a non-zero target with a positive percentage sum gives the flour weight whose percentage share is the target; otherwise 300 g |
| Inverse.InverseFlourWeightCases | streamlit_app.py:122-128 | `ResolveFlourWeight`'s three cases, with the percentage sum taken after the bootstrap rather than over the table as given |
| Inverse.WeightsOf | streamlit_app.py:130 | the unrounded weight column: names and percentages are kept and each row's weight is its `WeightCell` of the flour weight |
| Inverse.WeightCell | streamlit_app.py:130 | a weight is blank iff its percentage is; otherwise weight × 100 = percentage × flour weight |
| Inverse.ComputeFromBakers | streamlit_app.py:113-133 | names and bootstrapped percentages are kept; the flour weight is the resolved one; every weight is its percentage share of it, rounded to one decimal; total and liquid weight are the sums of the new weights |
| Inverse.WeightSumIsPercentShare | streamlit_app.py:130 | under any mask the unrounded weights add up to the masked percentage sum's share of the flour weight |
| Inverse.TargetRouteHitsTarget | streamlit_app.py:125-130 | on the target route the unrounded weights add up to exactly the target |
| Inverse.RoundedTotalNearTarget | streamlit_app.py:125-131 | on the target route the reported total is within 0.05 g per row of the target |
| Inverse.ExactTotalBoundsRounded | streamlit_app.py:130-131 | the reported total is within 0.05 g per row of the unrounded total |
| Summary.HydrationPercent | streamlit_app.py:164 | hydration is defined exactly when the flour weight is defined and positive, and then hydration × flour weight = liquid weight × 100 |
| Summary.ForwardHydrationIsLiquidPercentSum | streamlit_app.py:164 | from weights, the hydration is defined iff the basis is, and equals the sum of the liquid rows' unrounded percentages |
| Summary.InverseHydrationIsLiquidPercentSum | streamlit_app.py:164 | from percentages, the hydration of the unrounded weights is the liquid rows' percentage sum, whatever positive flour weight was chosen |
| Summary.BakersHydrationNear | streamlit_app.py:130-132 | from percentages, the reported liquid weight is within 0.05 g per row of the unrounded one |
| Summary.HydrationScaleFree | streamlit_app.py:164 | scaling liquid and flour weight by one positive factor leaves the hydration unchanged |
| Scaling.NewTotal | streamlit_app.py:178-183 | a positive total target is the new total; a total target or a positive piece weight with at least one piece gives a positive new total; with neither the current total is kept |
| Scaling.ApplyScaling | streamlit_app.py:178-187 | the new total is the one chosen from the targets; the factor times a positive current total is the new total, and 1 otherwise; percentages are kept and every weight is scaled by the factor and rounded to one decimal |
| Scaling.PiecesWeighEachWeight | streamlit_app.py:180-181 | without a total target, the new total split over the pieces is the weight per piece |
| Scaling.NoTargetNoScaling | streamlit_app.py:182-185 | with neither a total target nor a piece weight the factor is 1 |
| Scaling.ScaleFactor | streamlit_app.py:185 | with a positive current total, factor × current total = new total; otherwise the factor is 1 |
| Scaling.ScaleRecipe | streamlit_app.py:186-187 | names and percentages are kept, and every weight is the old weight times the factor, rounded to one decimal |
| Scaling.ScaleWeights | streamlit_app.py:187 | the unrounded scaled weight column: names and percentages are kept and each weight is multiplied by the factor, a blank staying blank |
| Scaling.ScaledSum | streamlit_app.py:187 | under any mask, scaling the unrounded weights scales their sum by the same factor |
| Scaling.ExactScalingHitsNewTotal | streamlit_app.py:185-187 | when the current total is the positive weight sum, the scaled weights before rounding add up to exactly the new total |
| Scaling.ScaledTotalNear | streamlit_app.py:178-187 | when the current total is positive and is the weight sum, the scaled weights add up to the new total within 0.05 g per row |
| Scaling.ScaleAfterWeights | streamlit_app.py:178-187 | after converting from weights, when the current total is positive, the scaled table adds up to the new total within 0.05 g per row |
| Scaling.ScaleAfterBakers | streamlit_app.py:178-187 | after converting from percentages, when the current total is positive, the scaled table adds up to the new total within 0.05 g per row |
| Scaling.ScaleUndo | streamlit_app.py:187 | before rounding, scaling by a non-zero factor and then by its reciprocal gives the table back (after rounding it need not: 0.1 g scaled by 0.5 rounds to 0.0 g) |
| Scaling.FlourBasisScales | streamlit_app.py:187 | scaling the unrounded weights by a positive factor scales the percentage basis and keeps an undefined basis undefined |
| Scaling.ScalingKeepsPercentages | streamlit_app.py:186-187 | the unrounded percentages recomputed from the unrounded scaled weights are the ones recomputed from the original weights |
| Scaling.NoTargetKeepsBakersTable | streamlit_app.py:182-187 | with neither a total target nor a piece weight, scaling a converted percentage table leaves it unchanged |
| RoundTrip.WeightCellUndoesPercentCell | streamlit_app.py:108 | a weight turned into a percentage of a positive basis and back is the weight |
| RoundTrip.PercentCellUndoesWeightCell | streamlit_app.py:130 | a percentage turned into grams of a positive flour weight and back is the percentage |
| RoundTrip.ExactPercentsNeedNoBootstrap | streamlit_app.py:116-120 | with a defined basis, the unrounded percentage table computed from weights is not changed by the bootstrap |
| RoundTrip.ForwardThenInverse | streamlit_app.py:113-130 | before rounding, weights → percentages → weights, with the flour weight as override, gives the original weights (after rounding it need not: 1 g at a 3000 g basis is 0.03 % and comes back as 0.9 g) |
| RoundTrip.TargetRecoversFlourWeight | streamlit_app.py:125-126 | the target route, aimed at a recipe's own total and given the unrounded percentages, recovers its flour weight |
| RoundTrip.ForwardThenInverseByTotal | streamlit_app.py:125-130 | before rounding, weights → percentages → weights, aiming at the recipe's own total, gives the original weights |
| RoundTrip.InverseThenForward | streamlit_app.py:102-108 | before rounding, percentages → weights → percentages gives the bootstrapped percentages back and the chosen flour weight as basis, when the flour percentages add up to 100 |
| Presets.LoadPreset | streamlit_app.py:34-74 | every preset has at least four rows, each with a name, a positive weight and a blank percentage |
| Presets.StrongFlourIsFlour | streamlit_app.py:98-100 | 強力粉 is flour under the default keywords |
| Presets.DefaultFlourMask | streamlit_app.py:69-74 | in the default recipe only 強力粉 is flour |
| Presets.DefaultLiquidMask | streamlit_app.py:69-74 | in the default recipe only 水 is liquid |
| Presets.DefaultForward | streamlit_app.py:102-111 | the default recipe converts to flour 300 g, total 489 g, liquid 180 g and percentages 100, 60, 2, 1 |
| Presets.DefaultHydration | streamlit_app.py:164 | the default recipe's hydration is 60 % |
| Presets.DefaultBackward | streamlit_app.py:122-133 | the percentages 100, 60, 2, 1 with no override or target weigh 300, 180, 6 and 3 g, 489 g in all |
| Presets.DefaultBackwardToTarget | streamlit_app.py:125-133 | the same percentages with a 978 g target give a 600 g flour weight and doubled weights totalling 978 g |
| Presets.BlankFlourBootstraps | streamlit_app.py:116-120 | a blank flour percentage is filled in as 100 |
| Presets.BlankFlourSameAsHundred | streamlit_app.py:116-120 | leaving the flour percentage blank converts exactly like entering 100 |
| Presets.DefaultScaledTo978 | streamlit_app.py:178-187 | scaling the default recipe to a 978 g target uses factor 2 and doubles every weight |
| Presets.RoundedScalingLosesWeight | streamlit_app.py:186-187 | with rounding, scaling 0.1 g by 0.5 and then by 2 gives 0.0 g, so `Scaling.ScaleUndo` holds only before rounding |
| Presets.RoundedRoundTripLosesWeight | streamlit_app.py:102-133 | with rounding, 1 g of salt beside 3000 g of flour becomes 0.03 % and comes back as 0.9 g with the flour weight as override, so `RoundTrip.ForwardThenInverse` holds only before rounding |

## Left out

- The Streamlit page: the sidebar, the data editor, session state, buttons, warnings, metric formatting (`:.1f`, `:.3f`) and the `st.info` line. The page's inputs become parameters of the modelled functions.
- CSV and JSON export and the download buttons (lines 192-200): these serialise a table and compute nothing.
- Floating point. Weights and percentages are exact reals, so binary representation error is not modelled. Rounding is exact round-half-even at the decimal grid.
- Rounding.RoundTo: numpy rounds the float product `x × 10^d`, so a value whose float image falls just below a half can round differently from the exact real.
- Text.Lower: only ASCII capitals are lowered. Python's `str.lower` also lowers other scripts, which the keyword and liquid tests would see.
- Keywords.LiquidIff: the regular expression `水|water|牛乳|milk|卵|egg` with `case=False` is modelled as six literal alternatives on the ASCII-lowered name. Unicode case-insensitive matching is not modelled.
- Keywords.IsFlour: a blank name is `None` and counts as the empty string, as `(name or "")` does for Python `None`. A float NaN name, which would make `.lower()` raise, is not modelled.
- Inverse.Bootstrap: rows are addressed by position. The source uses DataFrame index labels, which select the same row unless labels repeat; repeated labels are not modelled.
- Inverse.ResolveFlourWeight: the override is an `Option<real>`, as the page passes it (`None` unless positive). Truthiness of NaN inputs is not modelled.
- Scaling.PiecesWeighEachWeight: the piece count is any integer in the model; the page's `min_value=1` appears only as this lemma's requirement.
- The number inputs' lower bounds of 0 are not modelled: every operation is defined for negative inputs too.
