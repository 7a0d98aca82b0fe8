/** The scoring run: the stages applied in order to the loaded ledger,
    producing one scored row per journal line, in input order. */
module Pipeline {
  import opened Entries
  import opened Stats
  import Calendar
  import RuleFlags
  import AmountStats
  import UserVolume
  import PairRarity
  import RiskScore

  /** One row of the scored output: the journal line and the columns the
      stages add to it. */
  datatype ScoredEntry = ScoredEntry(
    entry: Entry,
    dow: int,
    amountZ: ZScore,
    volumeZ: ZScore,
    flags: RiskScore.Flags,
    riskScore: int)

  /** The nine flags of row `i`, given its rare-pair verdict, each in the
      terms of the row's own columns. */
  function FlagsWith(rows: seq<Entry>, i: int, rarePair: bool): (f: RiskScore.Flags)
    requires 0 <= i < |rows|
    ensures var e := rows[i];
            (f.afterHours <==> e.localHour < (if e.entity == "APAC" then 9 else 8) || e.localHour >= 18) &&
            (f.weekend <==> Calendar.DayOfWeek(e.postingDate) in {5, 6}) &&
            (f.periodClose <==> e.postingDate.day >= 26) &&
            (f.roundDollar <==> Abs(e.amountCents) % 10000 == 0) &&
            (e.approvalStatus.None? ==> f.approvalPending) &&
            f.rarePair == rarePair
    ensures var e := rows[i];
            e.approvalStatus.Some? ==>
              (!f.approvalPending <==>
               RuleFlags.CaseVariantOf(e.approvalStatus.value, "approved") ||
               RuleFlags.CaseVariantOf(e.approvalStatus.value, "posted"))
    ensures f.keyword <==>
              exists k, p :: 0 <= k < |RuleFlags.Keywords| &&
                RuleFlags.OccursAt(RuleFlags.Lower(rows[i].description), RuleFlags.Keywords[k], p)
    ensures f.amountOutlier ==> |set j | 0 <= j < |rows| && rows[j].account == rows[i].account| >= 6
    ensures f.volumeOutlier ==> |UserVolume.UserMonths(rows, rows[i].createdBy)| >= 6
  {
    var e := rows[i];
    RiskScore.Flags(
      roundDollar := RuleFlags.RoundDollar(e.amountCents),
      afterHours := RuleFlags.AfterHours(e.entity, e.localHour),
      weekend := RuleFlags.Weekend(e.entity, e.postingDate),
      periodClose := RuleFlags.PeriodClose(e.postingDate),
      approvalPending := RuleFlags.ApprovalPending(e.approvalStatus),
      keyword := RuleFlags.KeywordFlag(e.description),
      rarePair := rarePair,
      amountOutlier := AmountStats.AmountOutlier(rows, i),
      volumeOutlier := UserVolume.VolumeOutlier(rows, i))
  }

  /** Row `i` of the output, stage by stage: the line itself, a weekday
      between 0 and 6 and a score between 0 and 100 that is the capped sum
      of its flags' weights. */
  function ScoreRow(rows: seq<Entry>, i: int): (r: ScoredEntry)
    requires 0 <= i < |rows|
    ensures r.entry == rows[i] && 0 <= r.dow <= 6
    ensures r.flags.rarePair == PairRarity.RarePair(rows, i)
    ensures 0 <= r.riskScore <= 100
    ensures r.riskScore == if RiskScore.Points(r.flags) > 100 then 100 else RiskScore.Points(r.flags)
  {
    var flags := FlagsWith(rows, i, PairRarity.RarePair(rows, i));
    RiskScore.ScoreIsCappedPoints(flags);
    ScoredEntry(
      rows[i],
      Calendar.DayOfWeek(rows[i].postingDate),
      AmountStats.AmountZ(rows, i),
      UserVolume.VolumeZ(rows, i),
      flags,
      RiskScore.Score(flags))
  }

  /** `run` without the file I/O: the time features, the amount and volume
      statistics, the pair rarity loop, the rule flags and the score loop.
      Each stage only adds columns computed from the input rows and from
      columns of earlier stages, so the model evaluates them in the order
      its data needs (the rarity loop first, the statistics inside each
      row) with the same result. Rows are neither dropped, added nor
      reordered. */
  method Run(rows: seq<Entry>) returns (out: seq<ScoredEntry>)
    ensures |out| == |rows|
    ensures forall i :: 0 <= i < |rows| ==> out[i] == ScoreRow(rows, i)
  {
    var rare := PairRarity.ComputePairRarity(rows);
    assert forall i :: 0 <= i < |rows| ==> (rare[i] == 1) == PairRarity.RarePair(rows, i);
    var flags := seq(|rows|, i requires 0 <= i < |rows| => FlagsWith(rows, i, rare[i] == 1));
    var scores := RiskScore.ComputeRiskScore(flags);
    out := seq(|rows|, i requires 0 <= i < |rows| =>
             ScoredEntry(
               rows[i],
               Calendar.DayOfWeek(rows[i].postingDate),
               AmountStats.AmountZ(rows, i),
               UserVolume.VolumeZ(rows, i),
               flags[i],
               scores[i]));
    forall i | 0 <= i < |rows| ensures out[i] == ScoreRow(rows, i) {
      assert flags[i] == FlagsWith(rows, i, PairRarity.RarePair(rows, i));
      assert scores[i] == RiskScore.Score(flags[i]);
    }
  }

  /** A ledger of one line: both statistics are degenerate and score 0, the
      line's pair occurs once and is rare, so the line scores at least 15. */
  lemma SingleLineLedger(e: Entry)
    ensures var r := ScoreRow([e], 0);
            r.amountZ == Zero && r.volumeZ == Zero &&
            r.flags.rarePair && !r.flags.amountOutlier && !r.flags.volumeOutlier &&
            15 <= r.riskScore <= 100
  {
    var rows := [e];
    AmountStats.SingleEntryAccount(rows, 0);
    UserVolume.SingleMonthUser(rows, 0);
    PairRarity.MinimumCountIsRare(rows, 0);
  }
}
