/** Per-user monthly volume: the number of distinct entries a user posted
    in each calendar month, scored against the mean and sample standard
    deviation of that user's monthly numbers. */
module UserVolume {
  import opened Seqs
  import opened Calendar
  import opened Entries
  import opened Stats

  /** A calendar month (`month_start`, numpy `datetime64[M]`). */
  datatype Month = Month(year: int, month: int)

  function MonthOf(d: Date): Month {
    Month(d.year, d.month)
  }

  /** The `created_by` column. */
  function Users(rows: seq<Entry>): seq<string> {
    seq(|rows|, i requires 0 <= i < |rows| => rows[i].createdBy)
  }

  /** The (`created_by`, `month_start`) key of every row. */
  function BucketKeys(rows: seq<Entry>): seq<(string, Month)> {
    seq(|rows|, i requires 0 <= i < |rows| => (rows[i].createdBy, MonthOf(rows[i].postingDate)))
  }

  /** The `entry_id`s of one (user, month) bucket in row order, repeats kept. */
  function BucketIds(rows: seq<Entry>, user: string, month: Month): seq<string> {
    var idx := IndicesOf(BucketKeys(rows), (user, month));
    seq(|idx|, k requires 0 <= k < |idx| => rows[idx[k]].entryId)
  }

  lemma BucketIdSet(rows: seq<Entry>, user: string, month: Month)
    ensures (set x | x in BucketIds(rows, user, month)) ==
            (set j | 0 <= j < |rows| && BucketKeys(rows)[j] == (user, month) :: rows[j].entryId)
  {
    var idx := IndicesOf(BucketKeys(rows), (user, month));
    var ids := BucketIds(rows, user, month);
    forall x | x in ids
      ensures x in (set j | 0 <= j < |rows| && BucketKeys(rows)[j] == (user, month) :: rows[j].entryId)
    {
      var k :| 0 <= k < |ids| && ids[k] == x;
      assert BucketKeys(rows)[idx[k]] == (user, month);
    }
    forall j | 0 <= j < |rows| && BucketKeys(rows)[j] == (user, month)
      ensures rows[j].entryId in ids
    {
      var k :| 0 <= k < |idx| && idx[k] == j;
      assert ids[k] == rows[j].entryId;
    }
  }

  /** `groupby([created_by, month_start])[entry_id].nunique()`: the number
      of distinct entry ids among the user's rows of that month. */
  function MonthlyVolume(rows: seq<Entry>, user: string, month: Month): (c: nat)
    ensures c == |set j | 0 <= j < |rows| && BucketKeys(rows)[j] == (user, month) :: rows[j].entryId|
  {
    DedupCountsDistinct(BucketIds(rows, user, month));
    BucketIdSet(rows, user, month);
    |Dedup(BucketIds(rows, user, month))|
  }

  /** The months in which `user` posted, each once: as many as the
      distinct months of the user's rows. */
  function UserMonths(rows: seq<Entry>, user: string): (ms: seq<Month>)
    ensures NoDup(ms)
    ensures |ms| == |set j | 0 <= j < |rows| && rows[j].createdBy == user :: MonthOf(rows[j].postingDate)|
  {
    var idx := IndicesOf(Users(rows), user);
    var s := seq(|idx|, k requires 0 <= k < |idx| => MonthOf(rows[idx[k]].postingDate));
    MonthsRead(rows, user, s);
    MonthSet(rows, user, s);
    DedupCountsDistinct(s);
    Dedup(s)
  }

  lemma MonthSet(rows: seq<Entry>, user: string, s: seq<Month>)
    requires forall m :: m in s <==>
               exists j :: 0 <= j < |rows| && rows[j].createdBy == user && MonthOf(rows[j].postingDate) == m
    ensures (set m | m in s) == set j | 0 <= j < |rows| && rows[j].createdBy == user :: MonthOf(rows[j].postingDate)
  {
  }

  /** The user's listed months are exactly the months of the user's rows. */
  lemma UserMonthMembers(rows: seq<Entry>, user: string)
    ensures var ms := UserMonths(rows, user);
            forall m :: m in ms <==>
              exists j :: 0 <= j < |rows| && rows[j].createdBy == user && MonthOf(rows[j].postingDate) == m
  {
    var idx := IndicesOf(Users(rows), user);
    var s := seq(|idx|, k requires 0 <= k < |idx| => MonthOf(rows[idx[k]].postingDate));
    MonthsRead(rows, user, s);
  }

  /** The months read off the user's group, row by row, are exactly the
      months of the user's rows. */
  lemma MonthsRead(rows: seq<Entry>, user: string, s: seq<Month>)
    requires var idx := IndicesOf(Users(rows), user);
             |s| == |idx| && forall k :: 0 <= k < |idx| ==> s[k] == MonthOf(rows[idx[k]].postingDate)
    ensures forall m :: m in s <==>
              exists j :: 0 <= j < |rows| && rows[j].createdBy == user && MonthOf(rows[j].postingDate) == m
  {
    MonthsCover(rows, user, s);
    MonthsFromRows(rows, user, s);
  }

  lemma MonthsCover(rows: seq<Entry>, user: string, s: seq<Month>)
    requires var idx := IndicesOf(Users(rows), user);
             |s| == |idx| && forall k :: 0 <= k < |idx| ==> s[k] == MonthOf(rows[idx[k]].postingDate)
    ensures forall j :: 0 <= j < |rows| && rows[j].createdBy == user ==> MonthOf(rows[j].postingDate) in s
  {
    var idx := IndicesOf(Users(rows), user);
    forall j | 0 <= j < |rows| && rows[j].createdBy == user ensures MonthOf(rows[j].postingDate) in s {
      assert Users(rows)[j] == user;
      var k :| 0 <= k < |idx| && idx[k] == j;
      assert s[k] == MonthOf(rows[j].postingDate);
    }
  }

  lemma MonthsFromRows(rows: seq<Entry>, user: string, s: seq<Month>)
    requires var idx := IndicesOf(Users(rows), user);
             |s| == |idx| && forall k :: 0 <= k < |idx| ==> s[k] == MonthOf(rows[idx[k]].postingDate)
    ensures forall m :: m in s ==>
              exists j :: 0 <= j < |rows| && rows[j].createdBy == user && MonthOf(rows[j].postingDate) == m
  {
    var idx := IndicesOf(Users(rows), user);
    forall m | m in s
      ensures exists j :: 0 <= j < |rows| && rows[j].createdBy == user && MonthOf(rows[j].postingDate) == m
    {
      var k :| 0 <= k < |s| && s[k] == m;
      assert Users(rows)[idx[k]] == user;
    }
  }

  /** Every listed month is the month of one of the user's rows. */
  lemma MonthHasRow(rows: seq<Entry>, user: string, k: int) returns (j: int)
    requires 0 <= k < |UserMonths(rows, user)|
    ensures 0 <= j < |rows| && rows[j].createdBy == user
    ensures MonthOf(rows[j].postingDate) == UserMonths(rows, user)[k]
  {
    var idx := IndicesOf(Users(rows), user);
    var s := seq(|idx|, l requires 0 <= l < |idx| => MonthOf(rows[idx[l]].postingDate));
    var m := UserMonths(rows, user)[k];
    assert m in s;
    var l :| 0 <= l < |s| && s[l] == m;
    j := idx[l];
    assert Users(rows)[j] == user;
  }

  /** The per-user series the mean and std are taken over: one monthly
      volume per distinct month in which the user posted. */
  function UserVolumes(rows: seq<Entry>, user: string): (xs: seq<real>)
    ensures |xs| == |set j | 0 <= j < |rows| && rows[j].createdBy == user :: MonthOf(rows[j].postingDate)|
    ensures |xs| == |UserMonths(rows, user)|
    ensures forall k :: 0 <= k < |xs| ==> xs[k] == MonthlyVolume(rows, user, UserMonths(rows, user)[k]) as real
  {
    var ms := UserMonths(rows, user);
    seq(|ms|, k requires 0 <= k < |ms| => MonthlyVolume(rows, user, ms[k]) as real)
  }

  /** The user's series holds the volume of the month of every row of the
      user, and every value in it is the volume of such a row's month. */
  lemma UserVolumeMembers(rows: seq<Entry>, user: string)
    ensures var xs := UserVolumes(rows, user);
            forall j :: 0 <= j < |rows| && rows[j].createdBy == user ==> RowVolume(rows, j) as real in xs
    ensures var xs := UserVolumes(rows, user);
            forall x :: x in xs ==>
              exists j :: 0 <= j < |rows| && rows[j].createdBy == user && RowVolume(rows, j) as real == x
  {
    var xs := UserVolumes(rows, user);
    var ms := UserMonths(rows, user);
    forall j | 0 <= j < |rows| && rows[j].createdBy == user ensures RowVolume(rows, j) as real in xs {
      var k := RowMonth(rows, j);
      assert xs[k] == RowVolume(rows, j) as real;
    }
    forall x | x in xs
      ensures exists j :: 0 <= j < |rows| && rows[j].createdBy == user && RowVolume(rows, j) as real == x
    {
      var k :| 0 <= k < |xs| && xs[k] == x;
      var j := MonthHasRow(rows, user, k);
      assert RowVolume(rows, j) as real == x;
    }
  }

  /** The month of each of the user's rows is listed. */
  lemma RowMonth(rows: seq<Entry>, i: int) returns (k: int)
    requires 0 <= i < |rows|
    ensures var ms := UserMonths(rows, rows[i].createdBy);
            0 <= k < |ms| && ms[k] == MonthOf(rows[i].postingDate)
  {
    var user := rows[i].createdBy;
    var idx := IndicesOf(Users(rows), user);
    var s := seq(|idx|, l requires 0 <= l < |idx| => MonthOf(rows[idx[l]].postingDate));
    assert Users(rows)[i] == user;
    var l :| 0 <= l < |idx| && idx[l] == i;
    assert s[l] == MonthOf(rows[i].postingDate);
    var ms := UserMonths(rows, user);
    assert s[l] in s;
    k :| 0 <= k < |ms| && ms[k] == MonthOf(rows[i].postingDate);
  }

  lemma UserNotEmpty(rows: seq<Entry>, i: int)
    requires 0 <= i < |rows|
    ensures |UserVolumes(rows, rows[i].createdBy)| > 0
  {
    var _ := RowMonth(rows, i);
  }

  /** The volume of the row's own (user, month) bucket: the bucket holds
      at least the row's id, and at most one id per row. */
  function RowVolume(rows: seq<Entry>, i: int): (v: nat)
    requires 0 <= i < |rows|
    ensures 1 <= v <= |IndicesOf(BucketKeys(rows), BucketKeys(rows)[i])|
  {
    var user, month := rows[i].createdBy, MonthOf(rows[i].postingDate);
    assert BucketKeys(rows)[i] == (user, month);
    assert rows[i].entryId in set j | 0 <= j < |rows| && BucketKeys(rows)[j] == (user, month) :: rows[j].entryId;
    assert |Dedup(BucketIds(rows, user, month))| <= |BucketIds(rows, user, month)|;
    MonthlyVolume(rows, user, month)
  }

  /** `entry_volume_z`, merged back onto the row by (user, month): zero
      when the user has fewer than two months or only equal volumes;
      otherwise the deviation of the row's month from the user's mean, over
      the user's sample variance. */
  function VolumeZ(rows: seq<Entry>, i: int): (z: ZScore)
    requires 0 <= i < |rows|
    ensures var xs := UserVolumes(rows, rows[i].createdBy);
            (z.Scaled? <==> |xs| >= 2 && !Constant(xs)) &&
            (z.Scaled? ==> z.deviation == RowVolume(rows, i) as real - Mean(xs) && SampleVariance(xs) == Some(z.variance))
  {
    UserNotEmpty(rows, i);
    ZScoreOf(RowVolume(rows, i) as real, UserVolumes(rows, rows[i].createdBy))
  }

  /** `user_volume_outlier_flag`. It can only fire for a user active in at
      least six months, and only for a month busier than the user's average. */
  predicate VolumeOutlier(rows: seq<Entry>, i: int)
    requires 0 <= i < |rows|
    ensures VolumeOutlier(rows, i) ==>
              |UserMonths(rows, rows[i].createdBy)| >= 6 &&
              RowVolume(rows, i) as real > Mean(UserVolumes(rows, rows[i].createdBy))
  {
    UserVolumeMembers(rows, rows[i].createdBy);
    OutlierNeedsSixValues(RowVolume(rows, i) as real, UserVolumes(rows, rows[i].createdBy));
    IsOutlier(VolumeZ(rows, i))
  }

  /** When entry ids are unique, the volume is the number of rows in the
      bucket. */
  lemma VolumeCountsRowsWhenIdsUnique(rows: seq<Entry>, user: string, month: Month)
    requires forall j, l :: 0 <= j < l < |rows| ==> rows[j].entryId != rows[l].entryId
    ensures MonthlyVolume(rows, user, month) == |IndicesOf(BucketKeys(rows), (user, month))|
  {
    var idx := IndicesOf(BucketKeys(rows), (user, month));
    var ids := BucketIds(rows, user, month);
    assert NoDup(ids) by {
      forall k, l | 0 <= k < l < |ids| ensures ids[k] != ids[l] {
        assert idx[k] < idx[l];
      }
    }
    NoDupCard(ids);
    DedupCountsDistinct(ids);
  }

  /** A user who posted in a single month gets a zero score and no flag. */
  lemma SingleMonthUser(rows: seq<Entry>, i: int)
    requires 0 <= i < |rows|
    requires forall j :: 0 <= j < |rows| && rows[j].createdBy == rows[i].createdBy ==>
               MonthOf(rows[j].postingDate) == MonthOf(rows[i].postingDate)
    ensures VolumeZ(rows, i) == Zero && !VolumeOutlier(rows, i)
  {
    var ms := UserMonths(rows, rows[i].createdBy);
    var _ := RowMonth(rows, i);
    if |ms| > 1 {
      var j0 := MonthHasRow(rows, rows[i].createdBy, 0);
      var j1 := MonthHasRow(rows, rows[i].createdBy, 1);
      assert false;
    }
    DegenerateGroupScoresZero(RowVolume(rows, i) as real, UserVolumes(rows, rows[i].createdBy));
  }

  /** A user whose monthly volumes are all the same gets a zero score and
      no flag in every month. */
  lemma EqualVolumesUser(rows: seq<Entry>, i: int)
    requires 0 <= i < |rows|
    requires forall j :: 0 <= j < |rows| && rows[j].createdBy == rows[i].createdBy ==>
               RowVolume(rows, j) == RowVolume(rows, i)
    ensures VolumeZ(rows, i) == Zero && !VolumeOutlier(rows, i)
  {
    var user := rows[i].createdBy;
    var ms := UserMonths(rows, user);
    var xs := UserVolumes(rows, user);
    var _ := RowMonth(rows, i);
    forall k | 0 <= k < |xs| ensures xs[k] == RowVolume(rows, i) as real {
      var j := MonthHasRow(rows, user, k);
      assert RowVolume(rows, j) == MonthlyVolume(rows, user, ms[k]);
    }
    DegenerateGroupScoresZero(RowVolume(rows, i) as real, xs);
  }
}
