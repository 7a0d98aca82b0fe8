/** The per-row rules: after-hours, weekend, period close, pending
    approval, keyword and round-dollar flags. Each is a predicate on the
    columns of one row. */
module RuleFlags {
  import opened Seqs
  import opened Calendar
  import opened Entries

  /** Business hours and weekend days of an entity. */
  datatype Hours = Hours(start: int, end: int, weekendDays: set<int>)

  const EntityHours: map<string, Hours> :=
    map["US" := Hours(8, 18, {5, 6}),
        "UK" := Hours(8, 18, {5, 6}),
        "APAC" := Hours(9, 18, {5, 6})]

  /** Used for every entity missing from the table. */
  const DefaultHours: Hours := Hours(8, 18, {5, 6})

  /** The entity's hours: APAC opens at 9, every other entity (listed or
      not) at 8; all close at 18 and rest on days 5 and 6. */
  function HoursForEntity(entity: string): (h: Hours)
    ensures h.start == (if entity == "APAC" then 9 else 8)
    ensures h.end == 18 && h.weekendDays == {5, 6}
  {
    if entity in EntityHours then EntityHours[entity] else DefaultHours
  }

  /** After hours is before the entity's opening hour (9 for APAC, 8 for
      every other entity, listed or not) or from 18:00 on. */
  predicate AfterHours(entity: string, localHour: int)
    ensures AfterHours(entity, localHour) <==>
            localHour < (if entity == "APAC" then 9 else 8) || localHour >= 18
  {
    var h := HoursForEntity(entity);
    localHour < h.start || localHour >= h.end
  }

  /** `dow` is pandas `dayofweek` of the posting date (Monday = 0). The
      weekend is Saturday and Sunday (5 and 6) for every entity. */
  predicate Weekend(entity: string, postingDate: CivilDate)
    ensures Weekend(entity, postingDate) <==> DayOfWeek(postingDate) == 5 || DayOfWeek(postingDate) == 6
  {
    DayOfWeek(postingDate) in HoursForEntity(entity).weekendDays
  }

  /** On or after the month start plus 25 days: the 26th of the month
      onwards. */
  predicate PeriodClose(postingDate: CivilDate)
    ensures PeriodClose(postingDate) <==> postingDate.day >= 26
  {
    DayNumber(postingDate) >= DayNumber(MonthStart(postingDate)) + 25
  }

  // ---------------------------------------------------------------------
  // Lower-casing and substrings

  /** ASCII lower-casing of one character. */
  function LowerChar(c: char): char {
    if 'A' <= c <= 'Z' then (c as int + 32) as char else c
  }

  function UpperChar(c: char): char {
    if 'a' <= c <= 'z' then (c as int - 32) as char else c
  }

  /** `str.lower()` on ASCII: no upper-case letter is left, and every
      character is kept or replaced by its lower-case form. */
  function Lower(s: string): (r: string)
    ensures |r| == |s|
    ensures forall i :: 0 <= i < |r| ==> !('A' <= r[i] <= 'Z')
    ensures forall i :: 0 <= i < |r| ==> r[i] == s[i] || s[i] == UpperChar(r[i])
  {
    seq(|s|, i requires 0 <= i < |s| => LowerChar(s[i]))
  }

  /** Python's `k in s` for strings: `k` occurs in `s` as a contiguous run. */
  predicate Contains(s: string, k: string)
    decreases |s|
  {
    if |k| > |s| then false
    else s[..|k|] == k || (|s| > 0 && Contains(s[1..], k))
  }

  /** Only "approved" or "posted", in any mix of upper and lower case,
      clears the flag; a missing status (NaN) is never in the list, so it
      is pending. */
  predicate ApprovalPending(status: Option<string>)
    ensures status.None? ==> ApprovalPending(status)
    ensures status.Some? ==>
              (!ApprovalPending(status) <==>
               CaseVariantOf(status.value, "approved") || CaseVariantOf(status.value, "posted"))
  {
    match status
    case None => true
    case Some(s) =>
      LowerEqualsIffCaseVariant(s, "approved");
      LowerEqualsIffCaseVariant(s, "posted");
      Lower(s) !in ["approved", "posted"]
  }

  const Keywords: seq<string> := ["gift", "manual", "write-off", "write off"]

  /** Some keyword occurs, at some position, in the lower-cased description. */
  predicate KeywordFlag(description: string)
    ensures KeywordFlag(description) <==>
            exists i, p :: 0 <= i < |Keywords| && OccursAt(Lower(description), Keywords[i], p)
  {
    var d := Lower(description);
    ContainsAt(d, Keywords[0]);
    ContainsAt(d, Keywords[1]);
    ContainsAt(d, Keywords[2]);
    ContainsAt(d, Keywords[3]);
    exists i :: 0 <= i < |Keywords| && Contains(d, Keywords[i])
  }

  /** `abs(amount) % 100 == 0` with the amount in dollars, i.e. a multiple
      of 100 dollars, tested on integer cents; the contract states that this
      is the float test on the dollar amount, computed exactly. */
  predicate RoundDollar(amountCents: int)
    ensures RoundDollar(amountCents) <==> FloatMod(Abs(amountCents) as real / 100.0, 100.0) == 0.0
  {
    var a := Abs(amountCents);
    var q, r := a / 10000, a % 10000;
    var x := a as real / 100.0;
    assert x / 100.0 == q as real + r as real / 10000.0;
    assert (x / 100.0).Floor == q;
    assert FloatMod(x, 100.0) == r as real / 100.0;
    r == 0
  }

  // ---------------------------------------------------------------------
  // What the rules mean

  /** 2024-03-15 is a Friday (dayofweek 4) and not a weekend day; the 16th
      and 17th are Saturday and Sunday; the 18th is a Monday. */
  lemma WeekendExamples()
    ensures DayOfWeek(Date(2024, 3, 15)) == 4 && !Weekend("US", Date(2024, 3, 15))
    ensures Weekend("US", Date(2024, 3, 16)) && Weekend("APAC", Date(2024, 3, 17))
    ensures DayOfWeek(Date(2024, 3, 18)) == 0 && !Weekend("UK", Date(2024, 3, 18))
  {
    assert MarchFirst(2024) == 19783;
    assert DayNumber(Date(2024, 3, 15)) == 19797;
    assert DayNumber(Date(2024, 3, 16)) == 19798;
    assert DayNumber(Date(2024, 3, 17)) == 19799;
    assert DayNumber(Date(2024, 3, 18)) == 19800;
  }

  /** 1 January 1970 was a Thursday. */
  lemma EpochIsThursday()
    ensures DayOfWeek(Date(1970, 1, 1)) == 3
  {
    assert MarchFirst(1969) == -306;
    assert DayNumber(Date(1970, 1, 1)) == 0;
  }

  /** The window always covers the last three days of the month and never
      more than the last six. */
  lemma PeriodCloseWindow(postingDate: CivilDate)
    ensures var n := DaysInMonth(postingDate.year, postingDate.month);
            (postingDate.day > n - 3 ==> PeriodClose(postingDate)) &&
            (PeriodClose(postingDate) ==> postingDate.day > n - 6)
  {
  }

  /** In a 31-day month the 26th is flagged although it is six days before
      the month end. */
  lemma PeriodCloseLongMonth()
    ensures PeriodClose(Date(2024, 1, 26)) && !PeriodClose(Date(2024, 1, 25))
    ensures PeriodClose(Date(2023, 2, 26)) && Date(2023, 2, 26).day == DaysInMonth(2023, 2) - 2
  {
  }

  lemma LowerCharMatches(c: char, l: char)
    requires 'a' <= l <= 'z'
    ensures LowerChar(c) == l <==> c == l || c == UpperChar(l)
  {
  }

  /** A status that a `lower()` maps to `w`, spelled out: the same length
      and each letter in either case. */
  predicate CaseVariantOf(s: string, w: string) {
    |s| == |w| && forall i :: 0 <= i < |s| ==> s[i] == w[i] || s[i] == UpperChar(w[i])
  }

  lemma {:induction false} LowerEqualsIffCaseVariant(s: string, w: string)
    requires forall i :: 0 <= i < |w| ==> 'a' <= w[i] <= 'z'
    ensures Lower(s) == w <==> CaseVariantOf(s, w)
  {
    if |s| == |w| {
      if Lower(s) == w {
        forall i | 0 <= i < |s| ensures s[i] == w[i] || s[i] == UpperChar(w[i]) {
          assert Lower(s)[i] == LowerChar(s[i]);
          LowerCharMatches(s[i], w[i]);
        }
      }
      if CaseVariantOf(s, w) {
        forall i | 0 <= i < |s| ensures Lower(s)[i] == w[i] {
          LowerCharMatches(s[i], w[i]);
        }
      }
    }
  }

  /** `k` occurs in `s` starting at position `p`. */
  predicate OccursAt(s: string, k: string, p: int) {
    0 <= p <= |s| - |k| && s[p..p + |k|] == k
  }

  /** `Contains` finds `k` exactly when some position of `s` starts a copy of it. */
  lemma {:induction false} ContainsAt(s: string, k: string)
    ensures Contains(s, k) <==> exists p :: OccursAt(s, k, p)
    decreases |s|
  {
    if |k| <= |s| && s[..|k|] != k && |s| > 0 {
      ContainsAt(s[1..], k);
      if Contains(s[1..], k) {
        var p :| OccursAt(s[1..], k, p);
        assert s[p + 1..p + 1 + |k|] == k;
        assert OccursAt(s, k, p + 1);
      }
      if exists p :: OccursAt(s, k, p) {
        var p :| OccursAt(s, k, p);
        assert p != 0;
        assert s[1..][p - 1..p - 1 + |k|] == k;
        assert OccursAt(s[1..], k, p - 1);
      }
    } else if |k| <= |s| && s[..|k|] == k {
      assert OccursAt(s, k, 0);
    }
  }

  lemma LowerAppend(a: string, b: string)
    ensures Lower(a + b) == Lower(a) + Lower(b)
  {
  }

  /** A keyword found in a description is still found with any text
      around it. */
  lemma KeywordInContext(before: string, description: string, after: string)
    requires KeywordFlag(description)
    ensures KeywordFlag(before + description + after)
  {
    var i, p :| 0 <= i < |Keywords| && OccursAt(Lower(description), Keywords[i], p);
    var k, d := Keywords[i], Lower(description);
    var whole := Lower(before + description + after);
    assert whole == Lower(before) + d + Lower(after) by {
      LowerAppend(before, description);
      LowerAppend(before + description, after);
    }
    var q := |before| + p;
    assert OccursAt(whole, k, q) by {
      assert whole[q..q + |k|] == d[p..p + |k|];
    }
  }

  /** The keyword rule ignores case. */
  lemma KeywordIgnoresCase(description: string)
    ensures KeywordFlag(description) == KeywordFlag(Lower(description))
  {
    assert Lower(Lower(description)) == Lower(description);
  }

  /** Both spellings of "write off" are caught, whatever their case. */
  lemma KeywordExamples()
    ensures KeywordFlag("WRITE-OFF") && KeywordFlag("write off")
    ensures KeywordFlag("Manual adj")
  {
    assert OccursAt(Lower("WRITE-OFF"), Keywords[2], 0);
    ContainsAt(Lower("WRITE-OFF"), Keywords[2]);
    assert OccursAt(Lower("write off"), Keywords[3], 0);
    ContainsAt(Lower("write off"), Keywords[3]);
    assert OccursAt(Lower("Manual adj"), Keywords[1], 0);
    ContainsAt(Lower("Manual adj"), Keywords[1]);
  }

  /** Python's float `%`: x minus a whole multiple of m, with the result
      between 0 and m and so taking the sign of the divisor. */
  function FloatMod(x: real, m: real): (r: real)
    requires m != 0.0
    ensures m > 0.0 ==> 0.0 <= r < m
    ensures m < 0.0 ==> m < r <= 0.0
    ensures ((x - r) / m).Floor as real == (x - r) / m
  {
    var f := (x / m).Floor;
    FloatModParts(x, m, f);
    x - m * f as real
  }

  lemma FloatModParts(x: real, m: real, f: int)
    requires m != 0.0 && f == (x / m).Floor
    ensures m > 0.0 ==> 0.0 <= x - m * f as real < m
    ensures m < 0.0 ==> m < x - m * f as real <= 0.0
    ensures (x - (x - m * f as real)) / m == f as real
  {
    var q := x / m;
    var t := q - f as real;
    assert 0.0 <= t < 1.0;
    assert x == m * q;
    assert x - m * f as real == m * t by {
      assert m * q - m * f as real == m * (q - f as real);
    }
    ScaledFraction(m, t);
    assert x - (x - m * f as real) == m * f as real;
  }

  /** A fraction in [0, 1) of `m` lies between 0 and `m`. */
  lemma ScaledFraction(m: real, t: real)
    requires 0.0 <= t < 1.0
    ensures m > 0.0 ==> 0.0 <= m * t < m
    ensures m < 0.0 ==> m < m * t <= 0.0
  {
    assert m - m * t == m * (1.0 - t);
  }
}
