/** Account/offset-account pair rarity: how often each (account,
    offset_account) pair occurs, and which rows carry a pair whose count is
    in the bottom quartile of their account (or occurs only once). */
module PairRarity {
  import opened Seqs
  import opened Entries

  /** The (`account`, `offset_account`) key of every row. */
  function PairKeys(rows: seq<Entry>): seq<(string, string)> {
    seq(|rows|, i requires 0 <= i < |rows| => (rows[i].account, rows[i].offsetAccount))
  }

  /** `pair_count`: the size of the row's (account, offset_account) group,
      i.e. how many rows carry the same pair. */
  function PairCount(rows: seq<Entry>, i: int): (c: nat)
    requires 0 <= i < |rows|
    ensures 1 <= c <= |rows|
  {
    var keys := PairKeys(rows);
    |IndicesOf(keys, keys[i])|
  }

  /** `pair_count` is the number of rows that carry the row's pair. */
  lemma PairCountIsGroupSize(rows: seq<Entry>, i: int)
    requires 0 <= i < |rows|
    ensures PairCount(rows, i) == |set j | 0 <= j < |rows| && PairKeys(rows)[j] == PairKeys(rows)[i]|
  {
    var keys := PairKeys(rows);
    IndicesCount(keys, keys[i]);
    assert Positions(keys, keys[i]) == set j | 0 <= j < |rows| && keys[j] == keys[i];
  }

  /** `subset["pair_count"]`: the pair counts of one account's rows, in
      row order: one count, at least 1, per row of the account. */
  function AccountPairCounts(rows: seq<Entry>, account: string): (counts: seq<int>)
    ensures |counts| == |set j | 0 <= j < |rows| && rows[j].account == account|
    ensures forall k :: 0 <= k < |counts| ==> counts[k] >= 1
    ensures var idx := IndicesOf(Accounts(rows), account);
            |counts| == |idx| &&
            forall k :: 0 <= k < |idx| ==> counts[k] == PairCount(rows, idx[k])
  {
    var idx := IndicesOf(Accounts(rows), account);
    var counts := seq(|idx|, k requires 0 <= k < |idx| => PairCount(rows, idx[k]));
    AccountSize(rows, account);
    counts
  }

  /** The account's counts are those of its rows: every row of the account
      has its count there, and every count there is that of such a row. */
  lemma AccountCountMembers(rows: seq<Entry>, account: string)
    ensures var counts := AccountPairCounts(rows, account);
            forall j :: 0 <= j < |rows| && rows[j].account == account ==> PairCount(rows, j) in counts
    ensures var counts := AccountPairCounts(rows, account);
            forall c :: c in counts ==>
              exists j :: 0 <= j < |rows| && rows[j].account == account && PairCount(rows, j) == c
  {
    CountsCover(rows, account);
    CountsFromRows(rows, account);
  }

  lemma CountsCover(rows: seq<Entry>, account: string)
    ensures var counts := AccountPairCounts(rows, account);
            forall j :: 0 <= j < |rows| && rows[j].account == account ==> PairCount(rows, j) in counts
  {
    var counts := AccountPairCounts(rows, account);
    var idx := IndicesOf(Accounts(rows), account);
    forall j | 0 <= j < |rows| && rows[j].account == account ensures PairCount(rows, j) in counts {
      assert Accounts(rows)[j] == account;
      var k :| 0 <= k < |idx| && idx[k] == j;
      assert counts[k] == PairCount(rows, j);
    }
  }

  lemma CountsFromRows(rows: seq<Entry>, account: string)
    ensures var counts := AccountPairCounts(rows, account);
            forall c :: c in counts ==>
              exists j :: 0 <= j < |rows| && rows[j].account == account && PairCount(rows, j) == c
  {
    var counts := AccountPairCounts(rows, account);
    var idx := IndicesOf(Accounts(rows), account);
    forall c | c in counts
      ensures exists j :: 0 <= j < |rows| && rows[j].account == account && PairCount(rows, j) == c
    {
      var k :| 0 <= k < |counts| && counts[k] == c;
      assert Accounts(rows)[idx[k]] == account;
    }
  }

  /** `np.percentile(xs, 25)` with numpy's default linear method
      (`Percentile25Rank` states what it means for a value of the data). */
  function Percentile25(xs: seq<int>): real
    requires |xs| > 0
  {
    SortedPercentile25(Sort(xs))
  }

  /** The value at rank 0.25 * (n - 1) of sorted data, interpolated between
      the two neighbouring order statistics. */
  function SortedPercentile25(s: seq<int>): real
    requires |s| > 0
  {
    RankParts(|s|);
    var rank := (|s| - 1) as real * 0.25;
    var lo := rank.Floor;
    var hi := if lo + 1 < |s| then lo + 1 else |s| - 1;
    Lerp(s[lo] as real, s[hi] as real, rank - lo as real)
  }

  /** Linear interpolation a fraction `t` of the way from `a` to `b`. */
  function Lerp(a: real, b: real, t: real): real {
    a + t * (b - a)
  }

  /** The rank's integer part is `(n - 1) / 4` and its fraction one of
      0, 1/4, 1/2, 3/4. */
  lemma RankParts(n: int)
    requires n > 0
    ensures var rank := (n - 1) as real * 0.25;
            rank.Floor == (n - 1) / 4 &&
            rank - rank.Floor as real == ((n - 1) % 4) as real * 0.25
  {
    var q, r := (n - 1) / 4, (n - 1) % 4;
    assert (n - 1) as real * 0.25 == q as real + r as real * 0.25;
  }

  /** The test `compute_pair_rarity` applies to one count of an account:
      at most the account's 25th percentile, or a pair that occurs once. */
  predicate PercentileRule(c: int, counts: seq<int>)
    requires |counts| > 0
  {
    c as real <= Percentile25(counts) || c == 1
  }

  /** The smallest count of the account's top three quarters. */
  function RareThreshold(counts: seq<int>): int
    requires |counts| > 0
  {
    Sort(counts)[(|counts| - 1) / 4]
  }

  /** Row i passes its account's test (`RarePairRule` states it without
      interpolation). */
  predicate RarePair(rows: seq<Entry>, i: int)
    requires 0 <= i < |rows|
  {
    AccountHasCounts(rows, i);
    PercentileRule(PairCount(rows, i), AccountPairCounts(rows, rows[i].account))
  }

  lemma AccountHasCounts(rows: seq<Entry>, i: int)
    requires 0 <= i < |rows|
    ensures |AccountPairCounts(rows, rows[i].account)| > 0
  {
    var _ := AccountIndex(rows, i);
  }

  /** `rare_pair_flag`. */
  function RareFlag(rows: seq<Entry>, i: int): int
    requires 0 <= i < |rows|
  {
    if RarePair(rows, i) then 1 else 0
  }

  // ---------------------------------------------------------------------
  // What the rule means

  /** The percentile spelled out with integer ranks. */
  lemma SortedPercentile25Parts(s: seq<int>)
    requires |s| > 0
    ensures var lo := (|s| - 1) / 4;
            var hi := if lo + 1 < |s| then lo + 1 else |s| - 1;
            SortedPercentile25(s) == Lerp(s[lo] as real, s[hi] as real, ((|s| - 1) % 4) as real * 0.25)
  {
    RankParts(|s|);
  }

  /** Interpolating a fraction below 1 of the way from `a` to `b` lands
      between them, and strictly below `b` when `a < b`. */
  lemma Interpolation(a: int, b: int, r: int)
    requires a <= b && 0 <= r < 4
    ensures var p := Lerp(a as real, b as real, r as real * 0.25);
            a as real <= p <= b as real && (a < b ==> p < b as real)
  {
    var d := (b - a) as real;
    if r == 0 {
      assert (r as real * 0.25) * d == 0.0;
    } else if r == 1 {
      assert (r as real * 0.25) * d == d * 0.25;
    } else if r == 2 {
      assert (r as real * 0.25) * d == d * 0.5;
    } else {
      assert (r as real * 0.25) * d == d * 0.75;
    }
  }

  /** A member of sorted data above position `lo` sits beyond it. */
  lemma AboveOrderStatistic(s: seq<int>, c: int, lo: int)
    requires Sorted(s) && c in s && 0 <= lo < |s| && c > s[lo]
    ensures lo + 1 < |s| && c >= s[lo + 1]
  {
    var q :| 0 <= q < |s| && s[q] == c;
    assert q > lo;
  }

  /** On sorted data holding `c`, being at most the interpolated 25th
      percentile is the same as being at most the order statistic at index
      `(n - 1) / 4`. */
  lemma SortedThreshold(s: seq<int>, c: int)
    requires Sorted(s) && c in s
    ensures c as real <= SortedPercentile25(s) <==> c <= s[(|s| - 1) / 4]
  {
    var n := |s|;
    SortedPercentile25Parts(s);
    var lo := (n - 1) / 4;
    var hi := if lo + 1 < n then lo + 1 else n - 1;
    Interpolation(s[lo], s[hi], (n - 1) % 4);
    if c > s[lo] {
      AboveOrderStatistic(s, c, lo);
    }
  }

  /** `SortedThreshold` for every value of the data, read through the sort. */
  lemma SortedThresholds(xs: seq<int>, s: seq<int>)
    requires s == Sort(xs) && |xs| > 0
    ensures forall c :: c in xs ==> (c as real <= SortedPercentile25(s) <==> c <= s[(|xs| - 1) / 4])
  {
    forall c | c in xs ensures c as real <= SortedPercentile25(s) <==> c <= s[(|xs| - 1) / 4] {
      assert c in multiset(s);
      SortedThreshold(s, c);
    }
  }

  /** For a value of the data, being at most the interpolated percentile
      is the same as being at most the order statistic at index
      `(n - 1) / 4`. */
  lemma Percentile25Rank(xs: seq<int>)
    requires |xs| > 0
    ensures forall c :: c in xs ==> (c as real <= Percentile25(xs) <==> c <= Sort(xs)[(|xs| - 1) / 4])
  {
    SortedThresholds(xs, Sort(xs));
  }

  /** Over positive counts, the percentile test on a count of the data is
      the order-statistic test. The single-occurrence clause adds nothing: a
      count of 1 is the smallest there is, so it is already at most the
      quartile. */
  lemma PercentileRuleIsThreshold(counts: seq<int>, c: int)
    requires c in counts
    requires forall k :: 0 <= k < |counts| ==> counts[k] >= 1
    ensures PercentileRule(c, counts) <==> c <= RareThreshold(counts)
  {
    Percentile25Rank(counts);
    if c == 1 {
      var s := Sort(counts);
      SortedFirstIsMinimum(counts, c);
      assert s[0] in multiset(counts);
    }
  }

  /** A row's pair is rare exactly when its count is at most the order
      statistic at index `(n - 1) / 4` of its account's sorted counts; a
      pair that occurs once is always rare. */
  lemma RarePairRule(rows: seq<Entry>, i: int)
    requires 0 <= i < |rows|
    ensures var counts := AccountPairCounts(rows, rows[i].account);
            |counts| > 0 && (RarePair(rows, i) <==> PairCount(rows, i) <= RareThreshold(counts))
    ensures PairCount(rows, i) == 1 ==> RareFlag(rows, i) == 1
  {
    AccountCountMembers(rows, rows[i].account);
    PercentileRuleIsThreshold(AccountPairCounts(rows, rows[i].account), PairCount(rows, i));
  }

  /** The percentile, and so the account's test, does not depend on the
      order of the account's rows. */
  lemma Percentile25Permutation(xs: seq<int>, ys: seq<int>)
    requires |xs| > 0 && multiset(xs) == multiset(ys)
    ensures |ys| == |xs| && Percentile25(xs) == Percentile25(ys)
  {
    SortPermutation(xs, ys);
    assert |xs| == |multiset(xs)| == |multiset(ys)| == |ys|;
  }

  /** The pair with the smallest count in its account is always flagged,
      so every account has at least one flagged row. */
  lemma MinimumCountIsRare(rows: seq<Entry>, i: int)
    requires 0 <= i < |rows|
    requires forall j :: 0 <= j < |rows| && rows[j].account == rows[i].account ==>
               PairCount(rows, i) <= PairCount(rows, j)
    ensures RarePair(rows, i)
  {
    var counts := AccountPairCounts(rows, rows[i].account);
    var idx := IndicesOf(Accounts(rows), rows[i].account);
    RarePairRule(rows, i);
    forall k | 0 <= k < |counts| ensures PairCount(rows, i) <= counts[k] {
      assert Accounts(rows)[idx[k]] == rows[i].account;
    }
    SortedLowerBound(counts, PairCount(rows, i), (|counts| - 1) / 4);
  }

  /** Rows with the same (account, offset_account) pair get the same flag. */
  lemma SamePairSameFlag(rows: seq<Entry>, i: int, j: int)
    requires 0 <= i < |rows| && 0 <= j < |rows|
    requires rows[i].account == rows[j].account && rows[i].offsetAccount == rows[j].offsetAccount
    ensures PairCount(rows, i) == PairCount(rows, j)
    ensures RarePair(rows, i) == RarePair(rows, j)
  {
    assert PairKeys(rows)[i] == PairKeys(rows)[j];
  }

  // ---------------------------------------------------------------------
  // The flagging loop

  /** `a.loc[idx] = vals`: position `idx[l]` receives `vals[l]`, every other
      position keeps its value. */
  method Scatter(a: array<int>, idx: seq<nat>, vals: seq<int>)
    requires |idx| == |vals|
    requires forall l :: 0 <= l < |idx| ==> idx[l] < a.Length
    requires forall l, m :: 0 <= l < m < |idx| ==> idx[l] < idx[m]
    modifies a
    ensures forall l :: 0 <= l < |idx| ==> a[idx[l]] == vals[l]
    ensures forall i :: 0 <= i < a.Length && i !in idx ==> a[i] == old(a[i])
  {
    var k := 0;
    while k < |idx|
      invariant 0 <= k <= |idx|
      invariant forall l :: 0 <= l < k ==> a[idx[l]] == vals[l]
      invariant forall i :: 0 <= i < a.Length && i !in idx[..k] ==> a[i] == old(a[i])
    {
      a[idx[k]] := vals[k];
      PrefixMembership(idx, k);
      k := k + 1;
    }
    assert idx[..k] == idx;
  }

  /** After the account's positions receive their wanted values and every
      other position is kept, each row of the account holds its wanted
      value. */
  lemma AccountVerdicts(rows: seq<Entry>, account: string, idx: seq<nat>, vals: seq<int>,
                        want: seq<int>, before: seq<int>, after: seq<int>)
    requires idx == IndicesOf(Accounts(rows), account)
    requires |before| == |after| == |want| == |rows|
    requires |vals| == |idx| && forall l :: 0 <= l < |idx| ==> vals[l] == want[idx[l]]
    requires forall l :: 0 <= l < |idx| ==> after[idx[l]] == vals[l]
    requires forall i :: 0 <= i < |after| && i !in idx ==> after[i] == before[i]
    ensures forall i :: 0 <= i < |rows| ==>
              after[i] == if rows[i].account == account then want[i] else before[i]
  {
    forall i | 0 <= i < |rows|
      ensures after[i] == if rows[i].account == account then want[i] else before[i]
    {
      assert Accounts(rows)[i] == rows[i].account;
      if rows[i].account == account {
        var _ := AccountIndex(rows, i);
      }
    }
  }

  /** The account's `counts`, its `threshold` and the test on each count,
      in the order of the account's rows: each of the account's rows gets
      its `rare_pair_flag`. */
  method AccountTest(rows: seq<Entry>, account: string) returns (vals: seq<int>)
    requires account in Accounts(rows)
    ensures var idx := IndicesOf(Accounts(rows), account);
            |vals| == |idx| && forall l :: 0 <= l < |idx| ==> vals[l] == RareFlag(rows, idx[l])
  {
    var counts := AccountPairCounts(rows, account);
    ghost var idx := IndicesOf(Accounts(rows), account);
    ghost var first :| 0 <= first < |rows| && Accounts(rows)[first] == account;
    assert rows[first].account == account;
    var threshold := Percentile25(counts);
    vals := seq(|counts|, k requires 0 <= k < |counts| =>
              if counts[k] as real <= threshold || counts[k] == 1 then 1 else 0);
    forall l | 0 <= l < |idx| ensures vals[l] == RareFlag(rows, idx[l]) {
      assert Accounts(rows)[idx[l]] == account;
      assert counts[l] == PairCount(rows, idx[l]);
      assert RarePair(rows, idx[l]) == PercentileRule(counts[l], counts);
    }
  }

  /** One account's group of `compute_pair_rarity`: the account's rows
      are overwritten with their verdict, every other row is left alone. */
  method FlagAccount(rows: seq<Entry>, account: string, rare: array<int>)
    requires rare.Length == |rows| && account in Accounts(rows)
    modifies rare
    ensures forall i :: 0 <= i < |rows| ==>
              rare[i] == if rows[i].account == account then RareFlag(rows, i) else old(rare[i])
  {
    var idx := IndicesOf(Accounts(rows), account);
    var vals := AccountTest(rows, account);
    ghost var want := seq(|rows|, i requires 0 <= i < |rows| => RareFlag(rows, i));
    ghost var before := rare[..];
    Scatter(rare, idx, vals);
    AccountVerdicts(rows, account, idx, vals, want, before, rare[..]);
  }

  /** `compute_pair_rarity`: every flag starts at 0, then each account's
      rows are overwritten with that account's verdict. */
  method ComputePairRarity(rows: seq<Entry>) returns (flags: seq<int>)
    ensures |flags| == |rows|
    ensures forall i :: 0 <= i < |rows| ==> flags[i] == RareFlag(rows, i)
  {
    var rare := new int[|rows|](_ => 0);
    var accounts := Dedup(Accounts(rows));
    var g := 0;
    while g < |accounts|
      invariant 0 <= g <= |accounts|
      invariant forall i :: 0 <= i < |rows| ==>
                  rare[i] == if rows[i].account in accounts[..g] then RareFlag(rows, i) else 0
    {
      FlagAccount(rows, accounts[g], rare);
      PrefixMembership(accounts, g);
      g := g + 1;
    }
    forall i | 0 <= i < |rows| ensures rows[i].account in accounts {
      assert Accounts(rows)[i] == rows[i].account;
    }
    assert accounts[..g] == accounts;
    flags := rare[..];
  }
}
