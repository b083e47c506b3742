/**
 The months of the cache against the Gregorian calendar in closed form: when the `j`-th month of the `k`-th year after
 1970 begins, in seconds, by the rule of 365 days a year and the leap days before it.
 */
module CivilCalendar {
  import opened Arith
  import opened Calendar

  /** The days of a common year before each month. */
  const BEFORE: seq<nat> := [0, 31, 59, 90, 120, 151, 181, 212, 243, 273, 304, 334]

  /** The leap days from year 1 to the end of `year`: every fourth, not every hundredth, but every four hundredth. */
  function LeapDays(year: nat): int { year / 4 - year / 100 + year / 400 }

  /** The start of a month: 477 leap days came before 1970, and that of the year itself counts from March on. */
  function Civil(k: nat, j: nat): int
    requires j < 12
  {
    86400 * (365 * k + BEFORE[j] + LeapDays(if j >= 2 then 1970 + k else 1969 + k) - 477)
  }

  lemma {:induction false} LeapAdds(year: nat)
    requires year > 0
    ensures LeapDays(year) - LeapDays(year - 1) == if IsLeap(year) then 1 else 0
  {
    QuotientSteps(year, 4);
    QuotientSteps(year, 100);
    QuotientSteps(year, 400);
    if year % 400 == 0 { RemainderIs(year, 100, 4 * (year / 400), 0); }
    if year % 100 == 0 { RemainderIs(year, 4, 25 * (year / 100), 0); }
  }

  lemma {:induction false} QuotientSteps(y: nat, n: nat)
    requires y > 0 && n > 1
    ensures y / n - (y - 1) / n == if y % n == 0 then 1 else 0
  {
    assert y == n * (y / n) + y % n;
    if y % n == 0 {
      assert n * (y / n - 1) == n * (y / n) - n;
      RemainderIs(y - 1, n, y / n - 1, n - 1);
    } else {
      RemainderIs(y - 1, n, y / n, y % n - 1);
    }
  }

  lemma {:induction false} MonthNumber(k: nat, j: nat)
    requires j < 12
    ensures (12 * k + j) % 12 == j && (12 * k + j) / 12 == k
  {
    RemainderIs(12 * k + j, 12, k, j);
  }

  /** A month is as long as the calendar says. */
  lemma {:induction false} DaysAre(k: nat, j: nat)
    requires j < 12
    ensures 86400 * DaysIn(12 * k + j) == (if j < 11 then Civil(k, j + 1) else Civil(k + 1, 0)) - Civil(k, j)
  {
    hide IsLeap, LeapDays;
    MonthNumber(k, j);
    LeapAdds(1970 + k);
  }

  lemma {:induction false} StartNext(m: nat)
    ensures Start(m + 1) == Start(m) + 86400 * DaysIn(m)
  {
    hide DaysIn;
  }

  /** Every month of the model begins when that month of the Gregorian calendar begins. */
  lemma {:induction false} StartIsCivil(k: nat, j: nat)
    requires j < 12
    ensures Start(12 * k + j) == Civil(k, j)
    decreases k, j
  {
    hide DaysIn, Civil, Start;
    if j > 0 {
      StartIsCivil(k, j - 1);
      StartNext(12 * k + (j - 1));
      DaysAre(k, j - 1);
    } else if k > 0 {
      StartIsCivil(k - 1, 11);
      StartNext(12 * (k - 1) + 11);
      DaysAre(k - 1, 11);
    } else {
      EpochIsZero();
    }
  }

  lemma {:induction false} EpochIsZero()
    ensures Start(12 * 0 + 0) == Civil(0, 0) == 0
  {
  }

  /** The month that follows. */
  function Following(k: nat, j: nat): int
    requires j < 12
  {
    if j < 11 then Civil(k, j + 1) else Civil(k + 1, 0)
  }

  /** `begin_month` and `end_month` of a time in a month of the Gregorian calendar. */
  lemma {:induction false} BoundariesAreCivil(ts: nat, k: nat, j: nat)
    requires j < 12 && Civil(k, j) <= ts < Following(k, j)
    ensures BeginMonth(ts) == Civil(k, j) && EndMonth(ts) == Following(k, j)
  {
    hide Civil, MonthOf, Start;
    StartIsCivil(k, j);
    if j < 11 { StartIsCivil(k, j + 1); } else { StartIsCivil(k + 1, 0); }
    assert 12 * (k + 1) == 12 * k + 12;
    MonthUnique(ts, 12 * k + j);
  }

  /** The calendar repeats after 400 years of 146097 days. */
  lemma {:induction false} Repeats(m: nat)
    ensures Start(m + 4800) == Start(m) + 146097 * 86400
  {
    hide Start;
    var k, j := m / 12, m % 12;
    StartIsCivil(k, j);
    StartIsCivil(k + 400, j);
    assert m + 4800 == 12 * (k + 400) + j;
    LeapCycle(1970 + k);
    LeapCycle(1969 + k);
  }

  lemma {:induction false} LeapCycle(year: nat)
    ensures LeapDays(year + 400) == LeapDays(year) + 97
  {
    RemainderIs(year + 400, 4, year / 4 + 100, year % 4);
    RemainderIs(year + 400, 100, year / 100 + 4, year % 100);
    RemainderIs(year + 400, 400, year / 400 + 1, year % 400);
  }

  /** 1 March 2023, and the leap day of 2024. */
  lemma {:induction false} MarchOf2023()
    ensures BeginMonth(1677628800) == 1677628800 && EndMonth(1709164800) - BeginMonth(1709164800) == 29 * 86400
  {
    hide MonthOf, Start;
    BoundariesAreCivil(1677628800, 53, 2);
    BoundariesAreCivil(1709164800, 54, 1);
  }
}
