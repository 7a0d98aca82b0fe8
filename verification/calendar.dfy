/** Proleptic Gregorian calendar dates, as pandas/numpy `datetime64` count
    them: a day number since 1970-01-01, month starts, and the weekday with
    Monday numbered 0 (pandas `dayofweek`). */
module Calendar {

  datatype Date = Date(year: int, month: int, day: int)

  predicate IsLeapYear(y: int) {
    y % 4 == 0 && (y % 100 != 0 || y % 400 == 0)
  }

  function DaysInMonth(y: int, m: int): (n: int)
    requires 1 <= m <= 12
    ensures 28 <= n <= 31
    ensures n == 28 <==> m == 2 && !IsLeapYear(y)
  {
    if m == 2 then (if IsLeapYear(y) then 29 else 28)
    else if m == 4 || m == 6 || m == 9 || m == 11 then 30
    else 31
  }

  predicate ValidDate(d: Date) {
    1 <= d.month <= 12 && 1 <= d.day <= DaysInMonth(d.year, d.month)
  }

  /** A date that exists in the calendar, as every parsed pandas date does. */
  type CivilDate = d: Date | ValidDate(d) witness Date(1970, 1, 1)

  /** Day number of March 1 of year `y`; years are counted from March so
      that a leap day is the last day of its counted year. */
  function MarchFirst(y: int): int {
    var era := y / 400;
    var yoe := y - era * 400;
    era * 146097 + yoe * 365 + yoe / 4 - yoe / 100 - 719468
  }

  /** Days from March 1 to the first day of month `m` of the same counted year. */
  function MonthOffset(m: int): int
    requires 1 <= m <= 12
  {
    [306, 337, 0, 31, 61, 92, 122, 153, 184, 214, 245, 275][m - 1]
  }

  /** Days from 1970-01-01 to `d` (negative before it). */
  function DayNumber(d: Date): int
    requires 1 <= d.month <= 12
  {
    MarchFirst(if d.month <= 2 then d.year - 1 else d.year) + MonthOffset(d.month) + d.day - 1
  }

  /** Weekday with Monday = 0 and Sunday = 6; 1970-01-01 was a Thursday. */
  function DayOfWeek(d: Date): (w: int)
    requires 1 <= d.month <= 12
    ensures 0 <= w < 7
  {
    (DayNumber(d) + 3) % 7
  }

  /** The first day of the month holding `d` (numpy `datetime64[M]`). */
  function MonthStart(d: Date): (s: Date)
    ensures s.year == d.year && s.month == d.month
    ensures 1 <= d.month <= 12 ==> ValidDate(s) && DayNumber(d) == DayNumber(s) + d.day - 1
  {
    Date(d.year, d.month, 1)
  }

  /** The civil date that follows `d`. */
  function NextDate(d: Date): (n: Date)
    requires ValidDate(d)
    ensures ValidDate(n)
  {
    if d.day < DaysInMonth(d.year, d.month) then Date(d.year, d.month, d.day + 1)
    else if d.month < 12 then Date(d.year, d.month + 1, 1)
    else Date(d.year + 1, 1, 1)
  }

  /** Splits the March 1st day number of year `y` into its 400-year era
      and the year within the era. */
  lemma MarchFirstParts(y: int, era: int, yoe: int)
    requires y == era * 400 + yoe && 0 <= yoe < 400
    ensures MarchFirst(y) == era * 146097 + yoe * 365 + yoe / 4 - yoe / 100 - 719468
  {
    assert y / 400 == era;
  }

  /** Leap years repeat every 400 years. */
  lemma LeapCycle(era: int, k: int)
    requires 0 <= k <= 400
    ensures IsLeapYear(era * 400 + k) == IsLeapYear(k)
  {
    var y := era * 400 + k;
    assert y % 4 == k % 4 by { assert y == 4 * (era * 100) + k; }
    assert y % 100 == k % 100 by { assert y == 100 * (era * 4) + k; }
    assert y % 400 == k % 400;
  }

  /** Within a 400-year cycle, the leap-day corrections of March 1 grow by
      one exactly when the next counted year ends with a leap day. */
  lemma InEraStep(k: int)
    requires 0 <= k < 399
    ensures ((k + 1) / 4 - k / 4) - ((k + 1) / 100 - k / 100) == if IsLeapYear(k + 1) then 1 else 0
  {
    assert (k + 1) / 4 - k / 4 == (if (k + 1) % 4 == 0 then 1 else 0);
    assert (k + 1) / 100 - k / 100 == (if (k + 1) % 100 == 0 then 1 else 0);
    assert (k + 1) % 400 == k + 1;
  }

  /** A counted year that ends with a leap day is one day longer. */
  lemma YearLength(y: int)
    ensures MarchFirst(y + 1) == MarchFirst(y) + (if IsLeapYear(y + 1) then 366 else 365)
  {
    var era := y / 400;
    var yoe := y % 400;
    MarchFirstParts(y, era, yoe);
    LeapCycle(era, yoe + 1);
    if yoe == 399 {
      MarchFirstParts(y + 1, era + 1, 0);
    } else {
      MarchFirstParts(y + 1, era, yoe + 1);
      InEraStep(yoe);
    }
  }

  /** The day after `d` has the next day number: the day numbering has no
      gaps or repeats across month and year ends, leap days included. */
  lemma {:induction false} NextDateIsNextDay(d: Date)
    requires ValidDate(d)
    ensures DayNumber(NextDate(d)) == DayNumber(d) + 1
  {
    if d.day == DaysInMonth(d.year, d.month) && d.month == 2 {
      YearLength(d.year - 1);
    }
  }

  /** The weekday of the next day is the following weekday. */
  lemma NextDateWeekday(d: Date)
    requires ValidDate(d)
    ensures DayOfWeek(NextDate(d)) == (DayOfWeek(d) + 1) % 7
  {
    NextDateIsNextDay(d);
    WeekdayStep(DayNumber(d));
  }

  lemma WeekdayStep(n: int)
    ensures (n + 1 + 3) % 7 == ((n + 3) % 7 + 1) % 7
  {
    var q, r := (n + 3) / 7, (n + 3) % 7;
    assert n + 3 == 7 * q + r;
    if r < 6 {
      assert n + 4 == 7 * q + (r + 1);
    } else {
      assert n + 4 == 7 * (q + 1);
    }
  }
}
