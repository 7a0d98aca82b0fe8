/** The journal-entry row as the scoring stages read it. */
module Entries {
  import opened Seqs
  import opened Calendar

  /** One journal line. Only the columns the scoring reads are kept;
      `localHour` is the hour of `posting_timestamp` after localisation. */
  datatype Entry = Entry(
    entryId: string,
    entity: string,
    account: string,
    offsetAccount: string,
    description: string,
    amountCents: int,
    postingDate: CivilDate,
    localHour: int,
    createdBy: string,
    approvalStatus: Option<string>)

  function Abs(x: int): nat {
    if x < 0 then -x else x
  }

  /** `abs_amount`, in cents. */
  function AbsAmount(e: Entry): real {
    Abs(e.amountCents) as real
  }

  /** The `account` column. */
  function Accounts(rows: seq<Entry>): seq<string> {
    seq(|rows|, i requires 0 <= i < |rows| => rows[i].account)
  }

  /** A row sits in its own account's group, at some position `k`. */
  lemma AccountIndex(rows: seq<Entry>, i: int) returns (k: int)
    requires 0 <= i < |rows|
    ensures var idx := IndicesOf(Accounts(rows), rows[i].account);
            0 <= k < |idx| && idx[k] == i
  {
    var idx := IndicesOf(Accounts(rows), rows[i].account);
    assert Accounts(rows)[i] == rows[i].account;
    k :| 0 <= k < |idx| && idx[k] == i;
  }

  /** The account's group has one index per row of the account. */
  lemma AccountSize(rows: seq<Entry>, account: string)
    ensures |IndicesOf(Accounts(rows), account)| == |set j | 0 <= j < |rows| && rows[j].account == account|
  {
    IndicesCount(Accounts(rows), account);
    assert Positions(Accounts(rows), account) == set j | 0 <= j < |rows| && rows[j].account == account;
  }
}
