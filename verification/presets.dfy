/** The built-in recipes and the default keyword text, with worked examples
    of both converters and the scaling step on the default recipe. */
module Presets {
  import opened Options
  import opened Text
  import opened Keywords
  import opened Rounding
  import opened Recipe
  import opened Forward
  import opened Inverse
  import opened Scaling
  import opened Summary

  /** The pieces of the sidebar's initial keyword text between its commas,
      and the word each piece holds. */
  const DefaultKeywordPieces: seq<string> :=
    ["強力粉", " 薄力粉", " 準強力粉", " ライ麦", " 全粒粉", " 中力粉", " Bread Flour", " Flour", " Rye", " Whole Wheat"]

  const DefaultKeywordWords: seq<string> :=
    ["強力粉", "薄力粉", "準強力粉", "ライ麦", "全粒粉", "中力粉", "Bread Flour", "Flour", "Rye", "Whole Wheat"]

  /** The sidebar's initial keyword text,
      `強力粉, 薄力粉, 準強力粉, ライ麦, 全粒粉, 中力粉, Bread Flour, Flour, Rye, Whole Wheat`,
      written as its pieces joined by commas. */
  const DefaultKeywordText: string := Join(DefaultKeywordPieces, ',')

  /** The keyword list that text yields (see `DefaultKeywordsParsed`). */
  const DefaultKeywords: seq<string> :=
    ["強力粉", "薄力粉", "準強力粉", "ライ麦", "全粒粉", "中力粉", "bread flour", "flour", "rye", "whole wheat"]

  /** The Japanese pieces are word pieces of their keywords. */
  lemma JapanesePiecesAreWords()
    ensures forall i :: 0 <= i < 6 ==>
              WordPiece(DefaultKeywordPieces[i], DefaultKeywordWords[i], DefaultKeywords[i])
  {
  }

  /** The two-word English pieces are word pieces of their lower-cased
      keywords. */
  lemma EnglishPiecesAreWords()
    ensures forall i :: 6 <= i < 8 ==>
              WordPiece(DefaultKeywordPieces[i], DefaultKeywordWords[i], DefaultKeywords[i])
  {
  }

  /** So are the one-word English pieces. */
  lemma ShortEnglishPiecesAreWords()
    ensures forall i :: 8 <= i < 10 ==>
              WordPiece(DefaultKeywordPieces[i], DefaultKeywordWords[i], DefaultKeywords[i])
  {
  }

  /** The sidebar's initial text parses to the default keyword list. */
  lemma DefaultKeywordsParsed()
    ensures ParseKeywords(DefaultKeywordText) == DefaultKeywords
  {
    JapanesePiecesAreWords();
    EnglishPiecesAreWords();
    ShortEnglishPiecesAreWords();
    ParseWordPieces(DefaultKeywordPieces, DefaultKeywordWords, DefaultKeywords);
  }

  function Ingredient(name: string, grams: real): Row {
    Row(Some(name), Some(grams), None)
  }

  /** The recipe loaded when no preset is chosen. */
  const DefaultRecipe: seq<Row> :=
    [Ingredient("強力粉", 300.0), Ingredient("水", 180.0), Ingredient("塩", 6.0), Ingredient("ドライイースト", 3.0)]

  /** `load_preset`: the recipe of a named preset; any other name gives the
      default recipe. Every preset row has a name, a positive weight and a
      blank percentage. */
  function LoadPreset(name: string): (rows: seq<Row>)
    ensures |rows| >= 4
    ensures forall i :: 0 <= i < |rows| ==>
              rows[i].name.Some? && rows[i].weight.Some? && rows[i].weight.value > 0.0 && rows[i].pct.None?
  {
    if name == "食パン 基本" then
      [Ingredient("強力粉", 300.0), Ingredient("水", 180.0), Ingredient("塩", 6.0),
       Ingredient("砂糖", 15.0), Ingredient("ドライイースト", 3.0), Ingredient("バター", 15.0)]
    else if name == "ハード系（高加水）" then
      [Ingredient("準強力粉", 300.0), Ingredient("水", 225.0), Ingredient("塩", 6.0),
       Ingredient("インスタントドライイースト", 1.5)]
    else if name == "ピザ生地" then
      [Ingredient("強力粉", 250.0), Ingredient("水", 160.0), Ingredient("塩", 5.0),
       Ingredient("オリーブオイル", 10.0), Ingredient("ドライイースト", 2.5)]
    else if name == "菓子パン（甘め）" then
      [Ingredient("強力粉", 250.0), Ingredient("牛乳", 160.0), Ingredient("砂糖", 40.0),
       Ingredient("塩", 4.0), Ingredient("卵", 50.0), Ingredient("バター", 25.0), Ingredient("ドライイースト", 4.0)]
    else
      DefaultRecipe
  }

  /** A name free of ASCII capitals is its own lower-case text. */
  lemma NameTextOf(name: string)
    requires IsLower(name)
    ensures NameText(Some(name)) == name
  {
    LowerOfLower(name);
  }

  lemma NotFlourByDefault(name: string)
    requires IsLower(name)
    requires forall j :: 0 <= j < |DefaultKeywords| ==> DefaultKeywords[j][|DefaultKeywords[j]| - 1] !in name
    ensures !IsFlour(Some(name), DefaultKeywords)
  {
    NameTextOf(name);
    NoWordOccurs(name, DefaultKeywords);
  }

  lemma NotLiquid(name: string)
    requires IsLower(name)
    requires forall j :: 0 <= j < |LiquidPattern| ==> LiquidPattern[j][|LiquidPattern[j]| - 1] !in name
    ensures !IsLiquid(Some(name))
  {
    LowerOfLower(name);
    NoWordOccurs(name, LiquidPattern);
  }

  lemma StrongFlourIsFlour()
    ensures IsFlour(Some("強力粉"), DefaultKeywords)
  {
    NameTextOf("強力粉");
    assert Contains("強力粉", DefaultKeywords[0]);
  }

  lemma WaterIsNotFlour()
    ensures !IsFlour(Some("水"), DefaultKeywords)
  {
    NotFlourByDefault("水");
  }

  lemma SaltIsNotFlour()
    ensures !IsFlour(Some("塩"), DefaultKeywords)
  {
    NotFlourByDefault("塩");
  }

  lemma YeastIsNotFlour()
    ensures !IsFlour(Some("ドライイースト"), DefaultKeywords)
  {
    NotFlourByDefault("ドライイースト");
  }

  /** Under the default keywords only the first row of the default recipe
      is flour. */
  lemma MaskOfFour(rows: seq<Row>, f: Filter, m: seq<bool>)
    requires |rows| == 4 && |m| == 4
    requires Keeps(f, rows[0].name) == m[0] && Keeps(f, rows[1].name) == m[1]
    requires Keeps(f, rows[2].name) == m[2] && Keeps(f, rows[3].name) == m[3]
    ensures Mask(rows, f) == m
  {
  }

  lemma DefaultFlourMask()
    ensures Mask(DefaultRecipe, FlourRows(DefaultKeywords)) == [true, false, false, false]
  {
    var rows := DefaultRecipe;
    var f := FlourRows(DefaultKeywords);
    StrongFlourIsFlour();
    WaterIsNotFlour();
    SaltIsNotFlour();
    YeastIsNotFlour();
    assert Keeps(f, rows[0].name);
    assert !Keeps(f, rows[1].name);
    assert !Keeps(f, rows[2].name);
    assert !Keeps(f, rows[3].name);
    MaskOfFour(rows, f, [true, false, false, false]);
  }

  lemma WaterIsLiquid()
    ensures IsLiquid(Some("水"))
  {
    LowerOfLower("水");
    assert Contains("水", LiquidPattern[0]);
  }

  lemma OthersAreNotLiquid()
    ensures !IsLiquid(Some("強力粉")) && !IsLiquid(Some("塩"))
  {
    NotLiquid("強力粉");
    NotLiquid("塩");
  }

  lemma YeastIsNotLiquid()
    ensures !IsLiquid(Some("ドライイースト"))
  {
    NotLiquid("ドライイースト");
  }

  /** In the default recipe only the water row is liquid. */
  lemma DefaultLiquidMask()
    ensures Mask(DefaultRecipe, LiquidRows) == [false, true, false, false]
  {
    var rows := DefaultRecipe;
    WaterIsLiquid();
    OthersAreNotLiquid();
    YeastIsNotLiquid();
    assert !Keeps(LiquidRows, rows[0].name);
    assert Keeps(LiquidRows, rows[1].name);
    assert !Keeps(LiquidRows, rows[2].name);
    assert !Keeps(LiquidRows, rows[3].name);
    MaskOfFour(rows, LiquidRows, [false, true, false, false]);
  }

  lemma {:induction false} SumOfFour(rows: seq<Row>, c: Column, m: seq<bool>)
    requires |rows| == 4 && |m| == 4
    ensures Sum(rows, c, m) == Share(rows[0], c, m[0]) + Share(rows[1], c, m[1])
                               + Share(rows[2], c, m[2]) + Share(rows[3], c, m[3])
  {
    assert rows[1..][1..][1..][1..] == [];
    assert Sum(rows[1..][1..][1..], c, m[1..][1..][1..]) == Share(rows[3], c, m[3]);
    assert Sum(rows[1..][1..], c, m[1..][1..]) == Share(rows[2], c, m[2]) + Share(rows[3], c, m[3]);
  }

  /** A value on the grid is its own rounded cell. */
  lemma GridCell(x: real, d: nat)
    requires OnGrid(x, d)
    ensures RoundCell(Some(x), d) == Some(x)
  {
    RoundToOnGrid(x, d);
    assert RoundCell(Some(x), d).value == x;
  }

  lemma DefaultRecipeFlourWeight()
    ensures FlourWeight(DefaultRecipe, DefaultKeywords) == 300.0
  {
    DefaultFlourMask();
    SumOfFour(DefaultRecipe, Weight, Mask(DefaultRecipe, FlourRows(DefaultKeywords)));
  }

  lemma DefaultWeightSums()
    ensures SumWhere(DefaultRecipe, Weight, AllRows) == 489.0
    ensures SumWhere(DefaultRecipe, Weight, LiquidRows) == 180.0
  {
    DefaultLiquidMask();
    SumOfFour(DefaultRecipe, Weight, Mask(DefaultRecipe, AllRows));
    SumOfFour(DefaultRecipe, Weight, Mask(DefaultRecipe, LiquidRows));
  }

  /** The default recipe's percentages against 300 g, rounded to 2
      decimals. */
  lemma DefaultPercentCells(rows: seq<Row>)
    requires rows == DefaultRecipe
    ensures RoundCell(PercentCell(rows[0].weight, Some(300.0)), 2) == Some(100.0)
    ensures RoundCell(PercentCell(rows[1].weight, Some(300.0)), 2) == Some(60.0)
    ensures RoundCell(PercentCell(rows[2].weight, Some(300.0)), 2) == Some(2.0)
    ensures RoundCell(PercentCell(rows[3].weight, Some(300.0)), 2) == Some(1.0)
  {
    assert PercentCell(rows[0].weight, Some(300.0)).value == 100.0;
    assert PercentCell(rows[1].weight, Some(300.0)).value == 60.0;
    assert PercentCell(rows[2].weight, Some(300.0)).value == 2.0;
    assert PercentCell(rows[3].weight, Some(300.0)).value == 1.0;
    GridCell(100.0, 2);
    GridCell(60.0, 2);
    GridCell(2.0, 2);
    GridCell(1.0, 2);
  }

  /** The default recipe from weights: 300 g of flour is the basis, so the
      percentages are 100, 60, 2 and 1, the total is 489 g and the water
      gives 180 g of liquid. */
  lemma DefaultForward()
    ensures var c := ComputeFromWeights(DefaultRecipe, DefaultKeywords);
            && c.flourWeight == Some(300.0)
            && c.totalDough == 489.0 && c.hydration == 180.0
            && c.rows[0].pct == Some(100.0) && c.rows[1].pct == Some(60.0)
            && c.rows[2].pct == Some(2.0) && c.rows[3].pct == Some(1.0)
  {
    var c := ComputeFromWeights(DefaultRecipe, DefaultKeywords);
    DefaultRecipeFlourWeight();
    DefaultWeightSums();
    SumWhereOfSameColumn(c.rows, DefaultRecipe, Weight, LiquidRows);
    DefaultPercentCells(DefaultRecipe);
  }

  /** The hydration shown for the default recipe: 180 g of water on 300 g
      of flour. */
  lemma DefaultHydration()
    ensures var c := ComputeFromWeights(DefaultRecipe, DefaultKeywords);
            HydrationPercent(c.hydration, c.flourWeight) == Some(60.0)
  {
    DefaultForward();
    assert HydrationPercent(180.0, Some(300.0)).value == 60.0;
  }

  /** The default recipe written as percentages, weights blank. */
  const PercentRecipe: seq<Row> :=
    [Row(Some("強力粉"), None, Some(100.0)), Row(Some("水"), None, Some(60.0)),
     Row(Some("塩"), None, Some(2.0)), Row(Some("ドライイースト"), None, Some(1.0))]

  /** The same with the flour percentage left blank. */
  const BlankFlourRecipe: seq<Row> :=
    [Row(Some("強力粉"), None, None), Row(Some("水"), None, Some(60.0)),
     Row(Some("塩"), None, Some(2.0)), Row(Some("ドライイースト"), None, Some(1.0))]

  lemma PercentRecipeSums()
    ensures SumWhere(PercentRecipe, Percent, FlourRows(DefaultKeywords)) == 100.0
    ensures SumWhere(PercentRecipe, Percent, AllRows) == 163.0
  {
    MaskOfSameNames(PercentRecipe, DefaultRecipe, FlourRows(DefaultKeywords));
    DefaultFlourMask();
    SumOfFour(PercentRecipe, Percent, Mask(PercentRecipe, FlourRows(DefaultKeywords)));
    SumOfFour(PercentRecipe, Percent, Mask(PercentRecipe, AllRows));
  }

  /** A blank flour percentage is filled in with 100 by the bootstrap. */
  lemma BlankFlourBootstraps()
    ensures Bootstrap(BlankFlourRecipe, DefaultKeywords) == PercentRecipe
  {
    BlankFlourFacts(BlankFlourRecipe);
    assert Bootstrap(BlankFlourRecipe, DefaultKeywords)
           == BlankFlourRecipe[0 := BlankFlourRecipe[0].(pct := Some(100.0))];
  }

  /** The blank-flour recipe has a zero flour percentage sum and its first
      row is the flour row. */
  lemma BlankFlourFacts(rows: seq<Row>)
    requires rows == BlankFlourRecipe
    ensures SumWhere(rows, Percent, FlourRows(DefaultKeywords)) == 0.0
    ensures FirstFlour(rows, DefaultKeywords) == Some(0)
  {
    MaskOfSameNames(rows, DefaultRecipe, FlourRows(DefaultKeywords));
    DefaultFlourMask();
    SumOfFour(rows, Percent, Mask(rows, FlourRows(DefaultKeywords)));
    StrongFlourIsFlour();
  }

  /** The percentage recipe's flour percentages already add up to 100, so
      the bootstrap leaves it alone. */
  lemma PercentRecipeNeedsNoBootstrap()
    ensures Bootstrap(PercentRecipe, DefaultKeywords) == PercentRecipe
  {
    PercentRecipeSums();
  }

  /** The flour weight `compute_from_bakers` settles on for the percentage
      recipe: the 300 g default, or the share 100 / 163 of a target. */
  lemma PercentRecipeFlourWeight(target: real)
    requires target > 0.0
    ensures InverseFlourWeight(PercentRecipe, DefaultKeywords, None, None) == 300.0
    ensures InverseFlourWeight(PercentRecipe, DefaultKeywords, None, Some(target)) == target * (100.0 / 163.0)
  {
    PercentRecipeSums();
    PercentRecipeNeedsNoBootstrap();
  }

  /** The shares of 300 g and of 600 g lie on the 0.1 g grid. */
  lemma SharesOnGrid()
    ensures OnGrid(300.0, 1) && OnGrid(180.0, 1) && OnGrid(6.0, 1) && OnGrid(3.0, 1)
    ensures OnGrid(600.0, 1) && OnGrid(360.0, 1) && OnGrid(12.0, 1)
  {
  }

  /** The rounded weights of the percentage recipe at flour weight `fw`,
      for a flour weight whose every share lies on the 0.1 g grid. */
  lemma PercentRecipeWeights(rows: seq<Row>, fw: real)
    requires rows == PercentRecipe
    requires OnGrid(fw, 1) && OnGrid(0.6 * fw, 1) && OnGrid(0.02 * fw, 1) && OnGrid(0.01 * fw, 1)
    ensures RoundCell(WeightCell(rows[0].pct, fw), 1) == Some(fw)
    ensures RoundCell(WeightCell(rows[1].pct, fw), 1) == Some(0.6 * fw)
    ensures RoundCell(WeightCell(rows[2].pct, fw), 1) == Some(0.02 * fw)
    ensures RoundCell(WeightCell(rows[3].pct, fw), 1) == Some(0.01 * fw)
  {
    assert WeightCell(rows[0].pct, fw).value == fw;
    assert WeightCell(rows[1].pct, fw).value == 0.6 * fw;
    assert WeightCell(rows[2].pct, fw).value == 0.02 * fw;
    assert WeightCell(rows[3].pct, fw).value == 0.01 * fw;
    GridCell(fw, 1);
    GridCell(0.6 * fw, 1);
    GridCell(0.02 * fw, 1);
    GridCell(0.01 * fw, 1);
  }

  /** The total of a converted four-row table is the sum of its four
      weights. */
  lemma TotalOfFour(c: Conversion, w0: real, w1: real, w2: real, w3: real)
    requires |c.rows| == 4 && c.totalDough == SumWhere(c.rows, Weight, AllRows)
    requires c.rows[0].weight == Some(w0) && c.rows[1].weight == Some(w1)
    requires c.rows[2].weight == Some(w2) && c.rows[3].weight == Some(w3)
    ensures c.totalDough == w0 + w1 + w2 + w3
  {
    SumOfFour(c.rows, Weight, Mask(c.rows, AllRows));
  }

  /** The conversion of the percentage recipe at a flour weight whose
      shares lie on the 0.1 g grid: every weight is its exact share and the
      total is 163 % of the flour weight. */
  lemma WeighedPercentRecipe(c: Conversion, fw: real)
    requires c.flourWeight == Some(fw) && |c.rows| == 4
    requires forall i :: 0 <= i < 4 ==>
               c.rows[i].weight == RoundCell(WeightCell(PercentRecipe[i].pct, fw), 1)
    requires c.totalDough == SumWhere(c.rows, Weight, AllRows)
    requires OnGrid(fw, 1) && OnGrid(0.6 * fw, 1) && OnGrid(0.02 * fw, 1) && OnGrid(0.01 * fw, 1)
    ensures c.rows[0].weight == Some(fw) && c.rows[1].weight == Some(0.6 * fw)
    ensures c.rows[2].weight == Some(0.02 * fw) && c.rows[3].weight == Some(0.01 * fw)
    ensures c.totalDough == 1.63 * fw
  {
    PercentRecipeWeights(PercentRecipe, fw);
    TotalOfFour(c, fw, 0.6 * fw, 0.02 * fw, 0.01 * fw);
  }

  /** Without override or target the percentage recipe is weighed against
      the default 300 g of flour: 300, 180, 6 and 3 g, 489 g in all. */
  lemma DefaultBackward()
    ensures var c := ComputeFromBakers(PercentRecipe, DefaultKeywords, None, None);
            && c.flourWeight == Some(300.0)
            && c.rows[0].weight == Some(300.0) && c.rows[1].weight == Some(180.0)
            && c.rows[2].weight == Some(6.0) && c.rows[3].weight == Some(3.0)
            && c.totalDough == 489.0
  {
    var c := ComputeFromBakers(PercentRecipe, DefaultKeywords, None, None);
    PercentRecipeFlourWeight(1.0);
    PercentRecipeNeedsNoBootstrap();
    SharesOnGrid();
    WeighedPercentRecipe(c, 300.0);
  }

  /** A target of 978 g makes the flour weight 978 * 100 / 163 = 600 g and
      doubles every weight. */
  lemma DefaultBackwardToTarget()
    ensures var c := ComputeFromBakers(PercentRecipe, DefaultKeywords, None, Some(978.0));
            && c.flourWeight == Some(600.0)
            && c.rows[0].weight == Some(600.0) && c.rows[1].weight == Some(360.0)
            && c.rows[2].weight == Some(12.0) && c.rows[3].weight == Some(6.0)
            && c.totalDough == 978.0
  {
    var c := ComputeFromBakers(PercentRecipe, DefaultKeywords, None, Some(978.0));
    PercentRecipeFlourWeight(978.0);
    PercentRecipeNeedsNoBootstrap();
    assert 978.0 * (100.0 / 163.0) == 600.0;
    SharesOnGrid();
    WeighedPercentRecipe(c, 600.0);
  }

  /** Leaving the flour percentage blank gives the same result as entering
      100. */
  lemma BlankFlourSameAsHundred(override: Option<real>, target: Option<real>)
    ensures ComputeFromBakers(BlankFlourRecipe, DefaultKeywords, override, target)
            == ComputeFromBakers(PercentRecipe, DefaultKeywords, override, target)
  {
    BlankFlourBootstraps();
    PercentRecipeNeedsNoBootstrap();
  }

  /** Scaling the default recipe to 978 g doubles it. */
  lemma DefaultScaledTo978()
    ensures var r := ApplyScaling(ComputeFromWeights(DefaultRecipe, DefaultKeywords), 1, 0.0, 978.0);
            && r.newTotal == 978.0 && r.scale == 2.0
            && r.rows[0].weight == Some(600.0) && r.rows[1].weight == Some(360.0)
            && r.rows[2].weight == Some(12.0) && r.rows[3].weight == Some(6.0)
  {
    var c := ComputeFromWeights(DefaultRecipe, DefaultKeywords);
    DefaultForward();
    var r := ApplyScaling(c, 1, 0.0, 978.0);
    assert r.scale == 2.0;
    ScaledDefaultCells(c.rows);
  }

  lemma ScaledDefaultCells(rows: seq<Row>)
    requires |rows| == 4
    requires rows[0].weight == Some(300.0) && rows[1].weight == Some(180.0)
    requires rows[2].weight == Some(6.0) && rows[3].weight == Some(3.0)
    ensures RoundCell(ScaleCell(rows[0].weight, 2.0), 1) == Some(600.0)
    ensures RoundCell(ScaleCell(rows[1].weight, 2.0), 1) == Some(360.0)
    ensures RoundCell(ScaleCell(rows[2].weight, 2.0), 1) == Some(12.0)
    ensures RoundCell(ScaleCell(rows[3].weight, 2.0), 1) == Some(6.0)
  {
    GridCell(600.0, 1);
    GridCell(360.0, 1);
    GridCell(12.0, 1);
    GridCell(6.0, 1);
    assert ScaleCell(rows[0].weight, 2.0).value == 600.0;
    assert ScaleCell(rows[1].weight, 2.0).value == 360.0;
    assert ScaleCell(rows[2].weight, 2.0).value == 12.0;
    assert ScaleCell(rows[3].weight, 2.0).value == 6.0;
  }

  /** After rounding, scaling by 0.5 and then by 2 need not give the table
      back: 0.1 g halves to 0.05 g, which rounds to 0.0 g at an exact half. */
  lemma RoundedScalingLosesWeight()
    ensures var rows := [Row(Some("塩"), Some(0.1), None)];
            ScaleRecipe(ScaleRecipe(rows, 0.5), 2.0)[0].weight == Some(0.0)
  {
    var rows := [Row(Some("塩"), Some(0.1), None)];
    assert RoundHalfEven(0.5) == 0;
    assert RoundTo(0.05, 1) == 0.0;
    var half := ScaleRecipe(rows, 0.5);
    assert half[0].weight == Some(0.0);
    GridCell(0.0, 1);
  }

  /** 3 kg of flour and 1 g of salt. */
  const LossyRecipe: seq<Row> := [Row(Some("強力粉"), Some(3000.0), None), Row(Some("塩"), Some(1.0), None)]

  /** After rounding, weights to percentages and back need not give the
      weights back: 1 g at a 3000 g basis is 0.03 %, which is 0.9 g. */
  lemma RoundedRoundTripLosesWeight()
    ensures var c := ComputeFromWeights(LossyRecipe, DefaultKeywords);
            ComputeFromBakers(c.rows, DefaultKeywords, Some(3000.0), None).rows[1].weight == Some(0.9)
  {
    var c := ComputeFromWeights(LossyRecipe, DefaultKeywords);
    LossyForward(LossyRecipe);
    LossyBackward(c.rows);
  }

  /** Only the first of two rows named 強力粉 and 塩 is flour. */
  lemma LossyFlourMask(rows: seq<Row>)
    requires |rows| == 2 && rows[0].name == Some("強力粉") && rows[1].name == Some("塩")
    ensures Mask(rows, FlourRows(DefaultKeywords)) == [true, false]
  {
    var f := FlourRows(DefaultKeywords);
    StrongFlourIsFlour();
    SaltIsNotFlour();
    assert Keeps(f, rows[0].name);
    assert !Keeps(f, rows[1].name);
    MaskOfTwo(rows, f, [true, false]);
  }

  lemma MaskOfTwo(rows: seq<Row>, f: Filter, m: seq<bool>)
    requires |rows| == 2 && |m| == 2
    requires Keeps(f, rows[0].name) == m[0] && Keeps(f, rows[1].name) == m[1]
    ensures Mask(rows, f) == m
  {
  }

  lemma {:induction false} SumOfTwo(rows: seq<Row>, c: Column, m: seq<bool>)
    requires |rows| == 2 && |m| == 2
    ensures Sum(rows, c, m) == Share(rows[0], c, m[0]) + Share(rows[1], c, m[1])
  {
    assert rows[1..][1..] == [];
    assert Sum(rows[1..], c, m[1..]) == Share(rows[1], c, m[1]);
  }

  /** 1 g against 3000 g is 1/30 %, which rounds to 0.03 %. */
  lemma ThirtiethRounds()
    ensures RoundCell(Some(1.0 / 30.0), 2) == Some(0.03)
  {
    assert 1.0 / 30.0 * Pow10(2) as real == 10.0 / 3.0;
    assert (10.0 / 3.0).Floor == 3;
    assert RoundHalfEven(10.0 / 3.0) == 3;
  }

  lemma LossyForward(rows: seq<Row>)
    requires rows == LossyRecipe
    ensures var c := ComputeFromWeights(rows, DefaultKeywords);
            |c.rows| == 2 && c.rows[0].name == Some("強力粉") && c.rows[1].name == Some("塩")
            && c.rows[0].pct == Some(100.0) && c.rows[1].pct == Some(0.03)
  {
    LossyFlourMask(rows);
    SumOfTwo(rows, Weight, [true, false]);
    assert FlourWeight(rows, DefaultKeywords) == 3000.0;
    LossyPercentCells(rows);
  }

  /** 3000 g and 1 g against 3000 g, rounded to 2 decimals. */
  lemma LossyPercentCells(rows: seq<Row>)
    requires rows == LossyRecipe
    ensures RoundCell(PercentCell(rows[0].weight, Some(3000.0)), 2) == Some(100.0)
    ensures RoundCell(PercentCell(rows[1].weight, Some(3000.0)), 2) == Some(0.03)
  {
    assert PercentCell(rows[0].weight, Some(3000.0)).value == 100.0;
    GridCell(100.0, 2);
    assert PercentCell(rows[1].weight, Some(3000.0)) == Some(1.0 / 30.0);
    ThirtiethRounds();
  }

  lemma LossyBackward(rows: seq<Row>)
    requires |rows| == 2 && rows[0].name == Some("強力粉") && rows[1].name == Some("塩")
    requires rows[0].pct == Some(100.0) && rows[1].pct == Some(0.03)
    ensures ComputeFromBakers(rows, DefaultKeywords, Some(3000.0), None).rows[1].weight == Some(0.9)
  {
    LossyFlourMask(rows);
    SumOfTwo(rows, Percent, [true, false]);
    assert SumWhere(rows, Percent, FlourRows(DefaultKeywords)) == 100.0;
    assert Bootstrap(rows, DefaultKeywords) == rows;
    LossyWeightCell(rows[1].pct);
  }

  /** 0.03 % of 3000 g is 0.9 g, already on the 1-decimal grid. */
  lemma LossyWeightCell(pct: Option<real>)
    requires pct == Some(0.03)
    ensures RoundCell(WeightCell(pct, 3000.0), 1) == Some(0.9)
  {
    assert WeightCell(pct, 3000.0).value == 0.9;
    GridCell(0.9, 1);
  }
}
