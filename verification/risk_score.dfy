/** The risk score: a weighted sum of the nine rule flags, clipped to the
    range 0 to 100. */
module RiskScore {

  /** The flag columns the score reads, in the order of the weight table. */
  datatype FlagName =
    | RoundDollarFlag | AfterHoursFlag | WeekendFlag | PeriodCloseFlag
    | ApprovalPendingFlag | KeywordMatchFlag | RarePairFlag | AmountOutlierFlag
    | VolumeOutlierFlag

  /** The nine flags of one row. */
  datatype Flags = Flags(
    roundDollar: bool,
    afterHours: bool,
    weekend: bool,
    periodClose: bool,
    approvalPending: bool,
    keyword: bool,
    rarePair: bool,
    amountOutlier: bool,
    volumeOutlier: bool)

  /** The weight table, in its declaration order. */
  const Weights: seq<(FlagName, int)> := [
    (RoundDollarFlag, 10),
    (AfterHoursFlag, 15),
    (WeekendFlag, 10),
    (PeriodCloseFlag, 10),
    (ApprovalPendingFlag, 10),
    (KeywordMatchFlag, 5),
    (RarePairFlag, 15),
    (AmountOutlierFlag, 20),
    (VolumeOutlierFlag, 15)]

  /** The 0/1 value of one flag column. */
  function FlagValue(f: Flags, name: FlagName): (v: int)
    ensures v == 0 || v == 1
  {
    var b := match name
      case RoundDollarFlag => f.roundDollar
      case AfterHoursFlag => f.afterHours
      case WeekendFlag => f.weekend
      case PeriodCloseFlag => f.periodClose
      case ApprovalPendingFlag => f.approvalPending
      case KeywordMatchFlag => f.keyword
      case RarePairFlag => f.rarePair
      case AmountOutlierFlag => f.amountOutlier
      case VolumeOutlierFlag => f.volumeOutlier;
    if b then 1 else 0
  }

  /** The score accumulated over the entries `ws` of the table, each adding
      its flag's 0/1 value times its weight. */
  function WeightedSum(f: Flags, ws: seq<(FlagName, int)>): int
  {
    if ws == [] then 0
    else WeightedSum(f, ws[..|ws| - 1]) + FlagValue(f, ws[|ws| - 1].0) * ws[|ws| - 1].1
  }

  /** The weights of the entries `ws` added up. */
  function TotalWeight(ws: seq<(FlagName, int)>): int {
    if ws == [] then 0 else TotalWeight(ws[..|ws| - 1]) + ws[|ws| - 1].1
  }

  /** The points one flag contributes. */
  function Pts(isSet: bool, weight: int): int {
    if isSet then weight else 0
  }

  /** The score written out flag by flag, independently of the table walk. */
  function Points(f: Flags): int {
    Pts(f.roundDollar, 10) + Pts(f.afterHours, 15) + Pts(f.weekend, 10)
    + Pts(f.periodClose, 10) + Pts(f.approvalPending, 10) + Pts(f.keyword, 5)
    + Pts(f.rarePair, 15) + Pts(f.amountOutlier, 20) + Pts(f.volumeOutlier, 15)
  }

  /** The points lie between 0 and 110, and are zero exactly when no flag
      is set. */
  lemma PointsRange(f: Flags)
    ensures 0 <= Points(f) <= 110
    ensures Points(f) == 0 <==>
            !f.roundDollar && !f.afterHours && !f.weekend && !f.periodClose &&
            !f.approvalPending && !f.keyword && !f.rarePair && !f.amountOutlier && !f.volumeOutlier
  {
  }

  /** `np.clip(x, lo, hi)`. */
  function Clip(x: int, lo: int, hi: int): (r: int)
    requires lo <= hi
    ensures lo <= r <= hi
    ensures lo <= x <= hi ==> r == x
    ensures x < lo ==> r == lo
    ensures x > hi ==> r == hi
  {
    if x < lo then lo else if x > hi then hi else x
  }

  /** `risk_score` of one row. */
  function Score(f: Flags): (r: int)
    ensures 0 <= r <= 100
  {
    Clip(WeightedSum(f, Weights), 0, 100)
  }

  // ---------------------------------------------------------------------
  // What the score means

  /** Each table entry adds nothing or its weight, so with non-negative
      weights the sum lies between 0 and the entries' total weight. */
  lemma {:induction false} WeightedSumBounds(f: Flags, ws: seq<(FlagName, int)>)
    requires forall k :: 0 <= k < |ws| ==> ws[k].1 >= 0
    ensures 0 <= WeightedSum(f, ws) <= TotalWeight(ws)
  {
    if ws != [] {
      var n := |ws| - 1;
      WeightedSumBounds(f, ws[..n]);
      var v := FlagValue(f, ws[n].0);
      assert v * ws[n].1 == if v == 1 then ws[n].1 else 0;
    }
  }

  /** One more table entry adds that entry's points. */
  lemma WeightedSumStep(f: Flags, ws: seq<(FlagName, int)>, k: int)
    requires 0 <= k < |ws|
    ensures WeightedSum(f, ws[..k + 1]) == WeightedSum(f, ws[..k]) + FlagValue(f, ws[k].0) * ws[k].1
  {
    assert ws[..k + 1][..k] == ws[..k];
  }

  /** Walking the table adds up each flag's weight exactly once. */
  lemma WeightedSumIsPoints(f: Flags)
    ensures WeightedSum(f, Weights) == Points(f)
  {
    var ws := Weights;
    assert ws[..0] == [];
    WeightedSumStep(f, ws, 0);
    WeightedSumStep(f, ws, 1);
    WeightedSumStep(f, ws, 2);
    WeightedSumStep(f, ws, 3);
    WeightedSumStep(f, ws, 4);
    WeightedSumStep(f, ws, 5);
    WeightedSumStep(f, ws, 6);
    WeightedSumStep(f, ws, 7);
    WeightedSumStep(f, ws, 8);
    assert ws[..9] == ws;
  }

  /** The weighted sum lies between 0 and 110, so the clip only ever cuts
      the top: the score is the sum, capped at 100. */
  lemma ScoreIsCappedPoints(f: Flags)
    ensures Score(f) == if Points(f) > 100 then 100 else Points(f)
  {
    WeightedSumIsPoints(f);
    PointsRange(f);
  }

  /** The table's weights add up to 110. */
  lemma TableTotal()
    ensures TotalWeight(Weights) == 110
  {
    var ws := Weights;
    assert ws[..0] == [];
    TotalWeightStep(ws, 0);
    TotalWeightStep(ws, 1);
    TotalWeightStep(ws, 2);
    TotalWeightStep(ws, 3);
    TotalWeightStep(ws, 4);
    TotalWeightStep(ws, 5);
    TotalWeightStep(ws, 6);
    TotalWeightStep(ws, 7);
    TotalWeightStep(ws, 8);
    assert ws[..9] == ws;
  }

  lemma TotalWeightStep(ws: seq<(FlagName, int)>, k: int)
    requires 0 <= k < |ws|
    ensures TotalWeight(ws[..k + 1]) == TotalWeight(ws[..k]) + ws[k].1
  {
    assert ws[..k + 1][..k] == ws[..k];
  }

  /** No flag, no score. */
  lemma NoFlagsScoreZero(f: Flags)
    requires !f.roundDollar && !f.afterHours && !f.weekend && !f.periodClose
    requires !f.approvalPending && !f.keyword && !f.rarePair
    requires !f.amountOutlier && !f.volumeOutlier
    ensures Score(f) == 0
  {
    WeightedSumIsPoints(f);
  }

  /** All nine flags weigh 110 together; the score stops at 100. */
  lemma AllFlagsScoreHundred(f: Flags)
    requires f.roundDollar && f.afterHours && f.weekend && f.periodClose
    requires f.approvalPending && f.keyword && f.rarePair
    requires f.amountOutlier && f.volumeOutlier
    ensures WeightedSum(f, Weights) == 110 && Score(f) == 100
  {
    WeightedSumIsPoints(f);
  }

  /** The four heavy flags (15 and 20 points) must all be set to reach
      100: any one of them missing leaves at most 95. */
  lemma FullScoreNeedsHeavyFlags(f: Flags)
    requires Score(f) == 100
    ensures f.afterHours && f.rarePair && f.amountOutlier && f.volumeOutlier
  {
    WeightedSumIsPoints(f);
  }

  /** `g` carries every flag `f` carries. */
  predicate FlagsBelow(f: Flags, g: Flags) {
    (f.roundDollar ==> g.roundDollar) && (f.afterHours ==> g.afterHours) &&
    (f.weekend ==> g.weekend) && (f.periodClose ==> g.periodClose) &&
    (f.approvalPending ==> g.approvalPending) && (f.keyword ==> g.keyword) &&
    (f.rarePair ==> g.rarePair) && (f.amountOutlier ==> g.amountOutlier) &&
    (f.volumeOutlier ==> g.volumeOutlier)
  }

  /** Raising a flag never lowers the score. */
  lemma ScoreMonotone(f: Flags, g: Flags)
    requires FlagsBelow(f, g)
    ensures Score(f) <= Score(g)
  {
    WeightedSumMonotone(f, g, Weights);
  }

  /** Over any table with non-negative weights, more flags never give a
      smaller sum. */
  lemma {:induction false} WeightedSumMonotone(f: Flags, g: Flags, ws: seq<(FlagName, int)>)
    requires FlagsBelow(f, g)
    requires forall k :: 0 <= k < |ws| ==> ws[k].1 >= 0
    ensures WeightedSum(f, ws) <= WeightedSum(g, ws)
  {
    if ws != [] {
      var n := |ws| - 1;
      WeightedSumMonotone(f, g, ws[..n]);
      var name := ws[n].0;
      assert FlagValue(f, name) <= FlagValue(g, name);
      assert FlagValue(f, name) * ws[n].1 <= FlagValue(g, name) * ws[n].1;
    }
  }

  // ---------------------------------------------------------------------
  // The scoring loop

  /** `compute_risk_score`: a zeroed score per row, then one pass per entry
      of the weight table adding `flag * weight` to every row, then the clip. */
  method ComputeRiskScore(flags: seq<Flags>) returns (scores: seq<int>)
    ensures |scores| == |flags|
    ensures forall i :: 0 <= i < |flags| ==> scores[i] == Score(flags[i])
  {
    var score := new int[|flags|](_ => 0);
    var w := 0;
    while w < |Weights|
      invariant 0 <= w <= |Weights|
      invariant forall i :: 0 <= i < |flags| ==> score[i] == WeightedSum(flags[i], Weights[..w])
    {
      var (name, weight) := Weights[w];
      var i := 0;
      while i < |flags|
        invariant 0 <= i <= |flags|
        invariant forall j :: 0 <= j < i ==> score[j] == WeightedSum(flags[j], Weights[..w + 1])
        invariant forall j :: i <= j < |flags| ==> score[j] == WeightedSum(flags[j], Weights[..w])
      {
        WeightedSumStep(flags[i], Weights, w);
        score[i] := score[i] + FlagValue(flags[i], name) * weight;
        i := i + 1;
      }
      w := w + 1;
    }
    assert Weights[..w] == Weights;
    scores := seq(|flags|, i requires 0 <= i < |flags| reads score => Clip(score[i], 0, 100));
  }
}
