# Journal-entry risk scoring, modelled in Dafny

This project models the rule-based risk scorer of the Journal-Entry-Risk-Analytics
repository (`src/risk_scoring.py`). It scores general-ledger journal lines for audit
review. Every line gets nine 0/1 flags:

- six per-row rules: round dollar, after hours, weekend, period close, approval
  pending, and keyword in the description;
- three group-wide statistics:
  - an amount outlier within the line's account;
  - a monthly-volume outlier for the user who created the line;
  - a rare (account, offset account) pair within the account.

The score is the weighted sum of the flags (weights 10, 15, 10, 10, 10, 5, 15, 20,
15; 110 in total), clipped to the range 0 to 100.

Modules, in the order of the pipeline:

| module | file | models |
|---|---|---|
| `Seqs` | seqs.dfy | group-by positions (`IndicesOf`), distinct values (`Dedup`, pandas `nunique`), sorting (for `np.percentile`) |
| `Calendar` | calendar.dfy | proleptic Gregorian day numbers, month starts, pandas `dayofweek` with Monday = 0 |
| `Entries` | entries.dfy | the journal line with the columns the scorer reads; amounts in integer cents |
| `Stats` | stats.dfy | mean, the pandas default sample variance (`ddof = 1`), and the z-score with its zero/NaN rule. The z-score is kept as a deviation and a variance, so no square root is needed |
| `RuleFlags` | rule_flags.dfy | `hours_for_entity`, `KEYWORDS` and the per-row rules of `compute_rule_flags`, plus the round-dollar rule |
| `AmountStats` | amount_stats.dfy | `compute_amount_stats`: per-account z-score of `abs(amount)` and its outlier flag |
| `UserVolume` | user_volume.dfy | `compute_user_volume`: distinct entries per (user, month), and the per-user z-score of that count |
| `PairRarity` | pair_rarity.dfy | `compute_pair_rarity`: pair counts, the 25th percentile per account, and the in-place flagging loop over account groups (an `array<int>` written per group) |
| `RiskScore` | risk_score.dfy | `compute_risk_score`: the weight table and the accumulation loop into a zeroed score array, then the clip |
| `Pipeline` | pipeline.dfy | `run` without file I/O: the stages in order, one scored row per input row |

Two stages are imperative, as in the source:

- `compute_pair_rarity` becomes `PairRarity.ComputePairRarity`:
  - a zeroed array is overwritten one account group at a time (`FlagAccount`, `Scatter` for `df.loc[...] = ...`);
  - `FlagAccount` and `ComputePairRarity` are proved against the specification function `RareFlag`, whose meaning (count at most the account's order statistic at index (n - 1) / 4) is stated by the lemma `RarePairRule`.
- `compute_risk_score` becomes `RiskScore.ComputeRiskScore`:
  - one pass per weight-table entry adds `flag * weight` to every row, then the clip;
  - it is proved against `Score`.

The rest is pure functions, with lemmas about them.

The code differs from the repository's written design in several places. The model follows the code:

- **Standard deviation.** The design asks for the population standard deviation. The code uses the pandas default, the sample standard deviation (`ddof = 1`).
- **Weekday numbering.** The design numbers weekdays from Sunday = 0. The code uses pandas `dayofweek`, where Monday = 0, and flags days 5 and 6 (Saturday and Sunday) for every entity.
  - So 2024-03-15 is day 4, not 5 (`RuleFlags.WeekendExamples`).
- **Period close.** The design says the last three days of the month. The code flags day 26 onwards.
- **Keywords.** The design lists two. The code has four, including "write-off" and "write off".
- **Rare pairs.** The design ranks pairs into quartiles. The code compares each count with the account's 25th percentile.
- **Scores and output.** The code never caps z-scores, has no entity calendar input, and does not sort its output.

## Model

| member | source | states |
|---|---|---|
| Seqs.IndicesOf | src/risk_scoring.py:89 | The rows of one group-by group: increasing positions, and a position is listed exactly when its key equals the group key. |
| Seqs.IndicesCount | src/risk_scoring.py:89 | A group's position list has exactly as many entries as there are rows whose key equals the group key. |
| Seqs.Dedup | src/risk_scoring.py:65 | The distinct values, each once, with the same membership as the input. |
| Seqs.DedupCountsDistinct | src/risk_scoring.py:65 | The length of `Dedup` is the number of distinct values (`nunique`). |
| Seqs.Sort | src/risk_scoring.py:91 | Sorted, and a permutation of the input (the sort `np.percentile` performs). |
| Seqs.SortedUnique | src/risk_scoring.py:91 | Two sorted sequences with the same elements are equal. |
| Seqs.SortPermutation | src/risk_scoring.py:91 | Inputs that are permutations of each other sort to the same sequence. |
| Seqs.SortedFirstIsMinimum | src/risk_scoring.py:91 | The first sorted value is at most every value of the input. |
| Seqs.SortedLowerBound | src/risk_scoring.py:91 | A bound below every input value is below every sorted position. |
| Calendar.DaysInMonth | src/risk_scoring.py:117 | 28 to 31 days. February has 28 exactly in a non-leap year. |
| Calendar.DayOfWeek | src/risk_scoring.py:44 | The weekday lies in 0..6. |
| Calendar.MonthStart | src/risk_scoring.py:64 | `datetime64[M]` keeps the year and month. For a valid month it is a valid date lying `day - 1` days before the posting date: the first of the month. |
| Calendar.YearLength | src/risk_scoring.py:44 | Consecutive March 1sts are 366 days apart when the later counted year has a leap day, and 365 otherwise. |
| Calendar.NextDateIsNextDay | src/risk_scoring.py:44 | The next calendar date has the next day number, across month and year ends and leap days. |
| Calendar.NextDateWeekday | src/risk_scoring.py:44 | The weekday of the next date is the following weekday, modulo 7. |
| Entries.AccountIndex | src/risk_scoring.py:89 | Every row belongs to its own account's group. |
| Entries.AccountSize | src/risk_scoring.py:89 | The account's group has one position per row of the account. |
| Stats.Mean | src/risk_scoring.py:52 | The deviations of the group from its mean sum to zero. |
| Stats.SampleVariance | src/risk_scoring.py:52 | Defined (not NaN) exactly for groups of two or more values. It is then non-negative, and zero exactly when all values are equal. |
| Stats.ZScoreOf | src/risk_scoring.py:56-57 | The score is non-zero exactly when the group has at least two values that are not all equal. It is then (x - mean) over the square root of the group's sample variance (`ddof = 1`), which is positive; the model keeps the pair (deviation, variance). Otherwise it is the 0 that replaces a NaN or zero std. |
| Stats.AtLeastMatchesQuotient | src/risk_scoring.py:58 | The square-root-free test `d >= 0 && d^2 >= k^2 v` is `d / s >= k` for the positive root s of v. |
| Stats.ConstantIffNoSpread | src/risk_scoring.py:52 | The squared deviations from the mean sum to 0 exactly when all values are equal. |
| Stats.DegenerateGroupScoresZero | src/risk_scoring.py:56-58 | A group of one value, or of equal values, gives score 0 and no flag. |
| Stats.Samuelson | src/risk_scoring.py:52-56 | n (x - mean)^2 <= (n - 1) times the sum of squared deviations, for every member x. |
| Stats.OutlierNeedsSixValues | src/risk_scoring.py:56-58 | A member of the group flagged by `z >= 2` lies above the mean, and the group has at least six values. |
| Stats.SumPermutation | src/risk_scoring.py:52 | The sum of a group does not depend on the order of its values. |
| Stats.SquaredDeviationPermutation | src/risk_scoring.py:52 | Nor does the sum of squared deviations around any centre. |
| Stats.ZScorePermutation | src/risk_scoring.py:50-57 | Reordering a group changes neither its mean, nor its sample variance, nor the z-score of any value against it. |
| RuleFlags.HoursForEntity | src/risk_scoring.py:97-103 | APAC opens at 9. Every other entity, listed or not, opens at 8. All close at 18, with weekend days {5, 6}. |
| RuleFlags.AfterHours | src/risk_scoring.py:105-111 | The flag is set iff the local hour is before the entity's opening hour (9 for APAC, 8 otherwise) or is 18 or later. |
| RuleFlags.Weekend | src/risk_scoring.py:113-115 | The flag is set iff `dow` is 5 or 6, whatever the entity. |
| RuleFlags.WeekendExamples | src/risk_scoring.py:44 | 2024-03-15 is day 4 and not flagged. The 16th and 17th are flagged. The 18th is day 0. |
| RuleFlags.EpochIsThursday | src/risk_scoring.py:44 | 1970-01-01 is day 3 (Thursday). |
| RuleFlags.PeriodClose | src/risk_scoring.py:116-118 | "On or after month start + 25 days" holds iff the day of the month is at least 26. |
| RuleFlags.PeriodCloseWindow | src/risk_scoring.py:116-118 | The flagged window always holds the month's last three days, and never more than its last six. |
| RuleFlags.PeriodCloseLongMonth | src/risk_scoring.py:116-118 | January 26 is flagged and January 25 is not. February 26, 2023 (two days before month end) is flagged. |
| RuleFlags.Lower | src/risk_scoring.py:119 | `str.lower()` keeps the length and leaves no upper-case letter; each character is kept or is the lower-case form of the input's. |
| RuleFlags.LowerEqualsIffCaseVariant | src/risk_scoring.py:119 | `s.lower() == w`, for lower-case `w`, iff `s` spells `w` with each letter in either case. |
| RuleFlags.ApprovalPending | src/risk_scoring.py:119 | A missing status is flagged. A present one is clear iff it spells "approved" or "posted" in any mix of cases. |
| RuleFlags.ContainsAt | src/risk_scoring.py:121 | Python's substring `in` holds iff some position starts a copy of the keyword. |
| RuleFlags.KeywordFlag | src/risk_scoring.py:120-122 | The flag is set iff one of the four keywords occurs at some position of the lower-cased description. |
| RuleFlags.KeywordInContext | src/risk_scoring.py:120-122 | A description with a keyword keeps the flag with any text before or after it. |
| RuleFlags.KeywordIgnoresCase | src/risk_scoring.py:120-122 | Lower-casing the description first does not change the flag. |
| RuleFlags.KeywordExamples | src/risk_scoring.py:10 | "WRITE-OFF", "write off" and "Manual adj" are flagged. |
| RuleFlags.RoundDollar | src/risk_scoring.py:59 | The cent-level test holds iff Python's `abs(amount) % 100` on the dollar amount is 0. |
| RuleFlags.FloatMod | src/risk_scoring.py:59 | Python's float `%`: the result lies in [0, m) for m > 0 and in (m, 0] for m < 0, and x minus it is a whole multiple of m. |
| AmountStats.AccountAbsAmounts | src/risk_scoring.py:49-51 | The account's series has one value per row of the account; its k-th value is the `abs_amount` of the account's k-th row. |
| AmountStats.AccountAmountMembers | src/risk_scoring.py:51-55 | Each row's `abs_amount` is in its account's series, and each value of the series is the `abs_amount` of a row of the account. |
| AmountStats.RowInAccount | src/risk_scoring.py:55 | The join puts each row's own amount into its account's series. |
| AmountStats.AmountZ | src/risk_scoring.py:55-57 | The score is non-zero iff the account has two or more rows whose amounts are not all equal. It is then the row's `abs_amount` minus the account mean, over the square root of the account's sample variance (`ddof = 1`), kept as the pair (deviation, variance). |
| AmountStats.AmountOutlier | src/risk_scoring.py:58 | A flagged row's account has at least six rows, and the row's amount is above the account mean. |
| AmountStats.SingleEntryAccount | src/risk_scoring.py:50-58 | An account with a single entry gives it score 0 and no outlier flag. |
| AmountStats.EqualAmountsAccount | src/risk_scoring.py:50-58 | An account whose absolute amounts are all equal gives score 0 and no flag. |
| UserVolume.MonthlyVolume | src/risk_scoring.py:64-65 | The number of distinct `entry_id`s among the rows of that (user, month). |
| UserVolume.UserMonths | src/risk_scoring.py:66 | The user's months without repeats, as many as the distinct months of the user's rows. |
| UserVolume.UserMonthMembers | src/risk_scoring.py:64-66 | A month is listed iff one of the user's rows is posted in it. |
| UserVolume.UserVolumes | src/risk_scoring.py:66 | One value per distinct month of the user; the k-th is the volume of the k-th listed month. |
| UserVolume.UserVolumeMembers | src/risk_scoring.py:65-79 | Each row's bucket volume is in its user's series, and each value of the series is the bucket volume of a row of the user. |
| UserVolume.MonthHasRow | src/risk_scoring.py:65-66 | Every listed month is the month of one of the user's rows. |
| UserVolume.RowMonth | src/risk_scoring.py:75-79 | The left merge finds each row's own (user, month) bucket, so no row gets a NaN score. |
| UserVolume.RowVolume | src/risk_scoring.py:75-79 | A row's bucket volume is at least 1 and at most the number of rows in the bucket. |
| UserVolume.VolumeCountsRowsWhenIdsUnique | src/risk_scoring.py:65 | With unique entry ids, the volume is the number of rows in the bucket. |
| UserVolume.VolumeZ | src/risk_scoring.py:69-79 | The score is non-zero iff the user has two or more months whose volumes are not all equal. It is then the row's bucket volume minus the user's mean, over the square root of the user's sample variance (`ddof = 1`), kept as the pair (deviation, variance). |
| UserVolume.VolumeOutlier | src/risk_scoring.py:80 | A flagged row's user has at least six months, and the row's volume is above the user's mean. |
| UserVolume.SingleMonthUser | src/risk_scoring.py:66-80 | A user active in one month only gets score 0 and no flag. |
| UserVolume.EqualVolumesUser | src/risk_scoring.py:66-80 | A user with equal volumes in every month gets score 0 and no flag. |
| PairRarity.PairCount | src/risk_scoring.py:85-86 | `pair_count` lies between 1 and the number of rows. |
| PairRarity.PairCountIsGroupSize | src/risk_scoring.py:85-86 | `pair_count` is the number of rows with the row's (account, offset_account) pair: the size of its group. |
| PairRarity.AccountPairCounts | src/risk_scoring.py:89-90 | `subset["pair_count"]` has one count per row of the account, each at least 1; the k-th is the pair count of the account's k-th row. |
| PairRarity.AccountCountMembers | src/risk_scoring.py:89-90 | Each row's pair count is among its account's counts, and each of those counts is the pair count of a row of the account. |
| PairRarity.SortedPercentile25Parts | src/risk_scoring.py:91 | numpy's linear percentile at 25 interpolates between sorted positions (n-1)/4 and the next one, by a fraction of 0, 1/4, 1/2 or 3/4. |
| PairRarity.Interpolation | src/risk_scoring.py:91 | The interpolated value lies between its two neighbours, and strictly below the upper one when they differ. |
| PairRarity.Percentile25Rank | src/risk_scoring.py:91 | For a value of the data, `c <= np.percentile(xs, 25)` iff `c <= sorted(xs)[(n-1)/4]`. |
| PairRarity.Percentile25Permutation | src/risk_scoring.py:91 | The percentile does not depend on the order of the account's rows. |
| PairRarity.PercentileRuleIsThreshold | src/risk_scoring.py:91-92 | For positive counts, `c <= threshold or c == 1` iff `c` is at most the order statistic; the `== 1` clause adds nothing. |
| PairRarity.RarePairRule | src/risk_scoring.py:92 | A row's pair is rare iff its count is at most its account's sorted counts at index (n-1)/4, and a count of 1 is always flagged. |
| PairRarity.MinimumCountIsRare | src/risk_scoring.py:85-92 | A row with its account's smallest pair count is flagged. |
| PairRarity.SamePairSameFlag | src/risk_scoring.py:85-92 | Rows with the same (account, offset_account) get the same count and the same flag. |
| PairRarity.Scatter | src/risk_scoring.py:92 | `df.loc[idx] = vals`: each listed position receives its value, and every other position keeps its old one. |
| PairRarity.AccountTest | src/risk_scoring.py:90-92 | One verdict per row of the account, in row order; the l-th is the `rare_pair_flag` of the account's l-th row. |
| PairRarity.FlagAccount | src/risk_scoring.py:89-92 | After one group, the account's rows hold their rare-pair verdict, and all other rows are unchanged. |
| PairRarity.ComputePairRarity | src/risk_scoring.py:84-93 | After the zero initialisation and the loop over account groups, every row holds its `RareFlag`. |
| RiskScore.FlagValue | src/risk_scoring.py:140 | A flag column is 0 or 1. |
| RiskScore.Clip | src/risk_scoring.py:141 | `np.clip`: the result lies in [lo, hi]; a value already inside is unchanged, one below is raised to lo and one above is cut to hi. |
| RiskScore.Score | src/risk_scoring.py:138-141 | The risk score lies in [0, 100]. |
| RiskScore.WeightedSumBounds | src/risk_scoring.py:138-140 | With non-negative weights, the accumulated score lies between 0 and the total of the weights walked. |
| RiskScore.TableTotal | src/risk_scoring.py:127-137 | The nine weights add up to 110. |
| RiskScore.PointsRange | src/risk_scoring.py:127-140 | The flag-by-flag points lie in [0, 110], and are 0 exactly when no flag is set. |
| RiskScore.WeightedSumIsPoints | src/risk_scoring.py:127-140 | Walking the weight table adds each flag's weight exactly once: 10·round + 15·after + 10·weekend + 10·close + 10·pending + 5·keyword + 15·rare + 20·amount + 15·volume. |
| RiskScore.ScoreIsCappedPoints | src/risk_scoring.py:126-141 | The score is min(points, 100): the clip never acts at 0. |
| RiskScore.NoFlagsScoreZero | src/risk_scoring.py:126-141 | No flag set gives a score of 0. |
| RiskScore.AllFlagsScoreHundred | src/risk_scoring.py:126-141 | All nine flags give a sum of 110 and a score of 100. |
| RiskScore.FullScoreNeedsHeavyFlags | src/risk_scoring.py:126-141 | A score of 100 needs all four heavy flags: after hours, rare pair, amount outlier and volume outlier. |
| RiskScore.WeightedSumMonotone | src/risk_scoring.py:138-140 | With non-negative weights, setting more flags never lowers the accumulated sum. |
| RiskScore.ScoreMonotone | src/risk_scoring.py:126-141 | Setting more flags never lowers the score. |
| RiskScore.ComputeRiskScore | src/risk_scoring.py:138-141 | The zeroed array, the loop over the weights and the clip give every row `Score` of its flags. |
| Pipeline.FlagsWith | src/risk_scoring.py:105-122 | Each flag in terms of the row's columns: hours against the entity's opening and 18, `dow` in {5, 6}, day 26 onwards, whole hundreds of dollars, the approval status and keyword tests, the given rare-pair verdict; an outlier flag needs six account rows or six user months. |
| Pipeline.ScoreRow | src/risk_scoring.py:147-152 | An output row carries its entry, `dow` in 0..6, the row's rare-pair verdict, and a score in 0..100 that is its capped points. |
| Pipeline.Run | src/risk_scoring.py:147-152 | One output row per input row, in input order, each equal to `ScoreRow` of that row. |
| Pipeline.SingleLineLedger | src/risk_scoring.py:147-152 | A one-line ledger has both z-scores 0, is a rare pair, has no outlier flags, and scores between 15 and 100. |

## Left out

- `load_data`, `run`'s file writing, `parse_args` and the `__main__` block (src/risk_scoring.py:13-36, 154-168): CSV I/O, the column-presence check, directory creation, printing and argument parsing. `Pipeline.Run` takes the rows as a sequence and returns them.
- Time-zone localisation in `add_time_features` (src/risk_scoring.py:40-43) is a call into pandas and the IANA database. `local_hour` is an input field of `Entry`. Localising a naive timestamp does not shift its hour.
- Floating point. Amounts are integer cents, and z-scores, means and the percentile are exact reals.
  - The float `%` of the round-dollar rule is computed exactly (`RuleFlags.FloatMod`).
  - Rounding error in the float statistics is not modelled.
- AmountStats.AmountZ: the unit is cents, not the source's dollars. A z-score is unchanged when every amount of a group is scaled by 100, but no lemma states that.
- The square root in the standard deviation is not computed. `Stats.ZScore` keeps the deviation and the variance, and `Stats.AtLeastMatchesQuotient` ties the test to the quotient.
- NaN handling beyond the two cases the scorer relies on. An undefined or zero std gives 0, and a missing approval status is flagged.
  - Missing `account`, `offset_account` or `created_by` values, which pandas `groupby` drops, cannot occur in the model (the fields are plain strings).
  - A missing `description`, which makes line 121 raise, cannot occur either.
- Lower-casing covers ASCII letters only. Non-ASCII case mapping of `str.lower()` is not modelled.
- The `df.get(flag, 0)` fallback at line 140: in `run` every flag column exists when the score is computed.
- In-place column addition to the data frame by every stage. Each column is a function of the rows, and `Pipeline.Run` collects them into `ScoredEntry`.
- Group iteration order. `ComputePairRarity` visits accounts in first-occurrence order, where pandas visits them in sorted key order. Each group writes only its own rows, and the postcondition is per row, so the order does not change the result.
- Columns the scorer does not read (`je_number`, `line_num`, `currency`, `debit_credit`, `source`, `time_zone`, `posting_timestamp` beyond its hour) and the intermediate columns (`avg_abs_amount`, `std_abs_amount`, `month_start`, `pair_count`) are not carried in the output row.
- A ledger in which every `approval_status` is missing: pandas then reads the column as float64, and `.str.lower()` at line 119 raises. The model instead flags each such row as pending (`RuleFlags.ApprovalPending`), so `Pipeline.SingleLineLedger` with a missing status describes a ledger on which the source stops with an error.
- Row order. Order independence is proved per group statistic (`Stats.ZScorePermutation`, `PairRarity.Percentile25Permutation`, `Seqs.SortPermutation`), not as a lemma that reorders a whole ledger.
- PairRarity.RarePair and PairRarity.RareFlag carry no `ensures` of their own; their meaning is the lemma `PairRarity.RarePairRule`. Likewise PairRarity.Percentile25's meaning is the lemma `PairRarity.Percentile25Rank`, and PairRarity.PairCount's group size is the lemma `PairRarity.PairCountIsGroupSize`.
