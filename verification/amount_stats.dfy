/** Per-account amount statistics: each row's `abs_amount` is scored
    against the mean and sample standard deviation of its account. */
module AmountStats {
  import opened Seqs
  import opened Entries
  import opened Stats

  /** The `abs_amount` values of the rows of one account, in row order:
      one value per row of the account. */
  function AccountAbsAmounts(rows: seq<Entry>, account: string): (xs: seq<real>)
    ensures |xs| == |set j | 0 <= j < |rows| && rows[j].account == account|
    ensures var idx := IndicesOf(Accounts(rows), account);
            |xs| == |idx| &&
            forall k :: 0 <= k < |idx| ==> xs[k] == AbsAmount(rows[idx[k]])
  {
    var idx := IndicesOf(Accounts(rows), account);
    var xs := seq(|idx|, k requires 0 <= k < |idx| => AbsAmount(rows[idx[k]]));
    AccountSize(rows, account);
    xs
  }

  /** The account's series holds the amount of every row of the account,
      and every value in it is the amount of such a row. */
  lemma AccountAmountMembers(rows: seq<Entry>, account: string)
    ensures var xs := AccountAbsAmounts(rows, account);
            forall j :: 0 <= j < |rows| && rows[j].account == account ==> AbsAmount(rows[j]) in xs
    ensures var xs := AccountAbsAmounts(rows, account);
            forall x :: x in xs ==>
              exists j :: 0 <= j < |rows| && rows[j].account == account && AbsAmount(rows[j]) == x
  {
    var xs := AccountAbsAmounts(rows, account);
    var idx := IndicesOf(Accounts(rows), account);
    forall j | 0 <= j < |rows| && rows[j].account == account ensures AbsAmount(rows[j]) in xs {
      assert Accounts(rows)[j] == account;
      var k :| 0 <= k < |idx| && idx[k] == j;
      assert xs[k] == AbsAmount(rows[j]);
    }
    forall x | x in xs
      ensures exists j :: 0 <= j < |rows| && rows[j].account == account && AbsAmount(rows[j]) == x
    {
      var k :| 0 <= k < |xs| && xs[k] == x;
      assert Accounts(rows)[idx[k]] == account;
    }
  }

  /** A row's amount sits in its own account's series, at some position `k`. */
  lemma RowInAccount(rows: seq<Entry>, i: int) returns (k: int)
    requires 0 <= i < |rows|
    ensures var idx := IndicesOf(Accounts(rows), rows[i].account);
            0 <= k < |idx| && idx[k] == i &&
            AccountAbsAmounts(rows, rows[i].account)[k] == AbsAmount(rows[i])
  {
    k := AccountIndex(rows, i);
  }

  lemma AccountNotEmpty(rows: seq<Entry>, i: int)
    requires 0 <= i < |rows|
    ensures |AccountAbsAmounts(rows, rows[i].account)| > 0
  {
    var _ := RowInAccount(rows, i);
  }

  /** `amount_z`: zero when the account has fewer than two entries or
      only equal amounts (pandas' NaN std); otherwise the row's deviation
      from the account mean, over the account's sample variance. */
  function AmountZ(rows: seq<Entry>, i: int): (z: ZScore)
    requires 0 <= i < |rows|
    ensures var xs := AccountAbsAmounts(rows, rows[i].account);
            (z.Scaled? <==> |xs| >= 2 && !Constant(xs)) &&
            (z.Scaled? ==> z.deviation == AbsAmount(rows[i]) - Mean(xs) && SampleVariance(xs) == Some(z.variance))
  {
    AccountNotEmpty(rows, i);
    ZScoreOf(AbsAmount(rows[i]), AccountAbsAmounts(rows, rows[i].account))
  }

  /** `amount_outlier_flag`. It can only fire in an account of at least six
      entries, and only for an amount above the account's mean. */
  predicate AmountOutlier(rows: seq<Entry>, i: int)
    requires 0 <= i < |rows|
    ensures AmountOutlier(rows, i) ==>
              |set j | 0 <= j < |rows| && rows[j].account == rows[i].account| >= 6 &&
              AbsAmount(rows[i]) > Mean(AccountAbsAmounts(rows, rows[i].account))
  {
    AccountAmountMembers(rows, rows[i].account);
    OutlierNeedsSixValues(AbsAmount(rows[i]), AccountAbsAmounts(rows, rows[i].account));
    IsOutlier(AmountZ(rows, i))
  }

  /** An account with a single entry gives that entry a zero score and no
      outlier flag (pandas' std of one value is NaN). */
  lemma SingleEntryAccount(rows: seq<Entry>, i: int)
    requires 0 <= i < |rows|
    requires forall j :: 0 <= j < |rows| && rows[j].account == rows[i].account ==> j == i
    ensures AmountZ(rows, i) == Zero && !AmountOutlier(rows, i)
  {
    var _ := RowInAccount(rows, i);
    DegenerateGroupScoresZero(AbsAmount(rows[i]), AccountAbsAmounts(rows, rows[i].account));
  }

  /** An account whose entries all have the same absolute amount gives
      every entry a zero score (the std is 0 and is replaced by NaN). */
  lemma EqualAmountsAccount(rows: seq<Entry>, i: int)
    requires 0 <= i < |rows|
    requires forall j :: 0 <= j < |rows| && rows[j].account == rows[i].account ==>
               Abs(rows[j].amountCents) == Abs(rows[i].amountCents)
    ensures AmountZ(rows, i) == Zero && !AmountOutlier(rows, i)
  {
    var xs := AccountAbsAmounts(rows, rows[i].account);
    var idx := IndicesOf(Accounts(rows), rows[i].account);
    var _ := RowInAccount(rows, i);
    forall k | 0 <= k < |xs| ensures xs[k] == xs[0] {
      assert Accounts(rows)[idx[k]] == rows[i].account;
      assert Accounts(rows)[idx[0]] == rows[i].account;
    }
    DegenerateGroupScoresZero(AbsAmount(rows[i]), xs);
  }
}
