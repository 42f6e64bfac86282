/**
  The proleptic Gregorian calendar: month lengths as in section 5.7 of RFC 3339,
  day numbers, and adding months with the day clamped to the target month.

  A month index counts months from year 0, so that January of year 1 is 12 and
  adding months is adding to the index.
 */
module Calendar {
  datatype Date = Date(year: int, month: int, day: int)

  predicate IsLeap(year: int) {
    year % 4 == 0 && (year % 100 != 0 || year % 400 == 0)
  }

  function DaysInMonth(year: int, month: int): (n: int)
    ensures 28 <= n <= 31
  {
    if month == 2 then (if IsLeap(year) then 29 else 28)
    else if month == 4 || month == 6 || month == 9 || month == 11 then 30
    else 31
  }

  function MonthLength(m: int): (n: int)
    ensures 28 <= n <= 31
  {
    DaysInMonth(m / 12, m % 12 + 1)
  }

  function MonthIndex(d: Date): int {
    d.year * 12 + d.month - 1
  }

  predicate IsDate(d: Date) {
    d.year >= 1 && 1 <= d.month <= 12 && 1 <= d.day <= DaysInMonth(d.year, d.month)
  }

  function InMonth(m: int, day: int): Date {
    Date(m / 12, m % 12 + 1, day)
  }

  /** Days from the first of January of year 1 to the first day of a month. */
  function DaysBefore(m: int): int
    decreases m
  {
    if m <= 12 then 0 else DaysBefore(m - 1) + MonthLength(m - 1)
  }

  /** The first of January of year 1 is day 1. */
  function DayNumber(d: Date): int {
    DaysBefore(MonthIndex(d)) + d.day
  }

  function Locate(n: int, m: int): Date
    requires n >= 1
    decreases n
  {
    if n <= MonthLength(m) then InMonth(m, n) else Locate(n - MonthLength(m), m + 1)
  }

  /** The date with a given day number. */
  function DateOf(n: int): Date
    requires n >= 1
  {
    Locate(n, 12)
  }

  lemma NextMonthStarts(m: int)
    requires m >= 12
    ensures DaysBefore(m + 1) == DaysBefore(m) + MonthLength(m)
  {
  }

  lemma InMonthIs(m: int, day: int)
    requires m >= 12
    ensures MonthIndex(InMonth(m, day)) == m
    ensures IsDate(InMonth(m, day)) <==> 1 <= day <= MonthLength(m)
  {
  }

  lemma {:induction false} LocateIsRight(n: int, m: int)
    requires n >= 1 && m >= 12
    ensures IsDate(Locate(n, m)) && DayNumber(Locate(n, m)) == DaysBefore(m) + n
    decreases n
  {
    InMonthIs(m, n);
    if n > MonthLength(m) {
      LocateIsRight(n - MonthLength(m), m + 1);
    }
  }

  lemma {:induction false} LocateFinds(m: int, target: int, day: int)
    requires 12 <= m <= target && 1 <= day <= MonthLength(target)
    ensures DaysBefore(target) - DaysBefore(m) + day >= 1
    ensures Locate(DaysBefore(target) - DaysBefore(m) + day, m) == InMonth(target, day)
    decreases target - m
  {
    if m < target {
      LocateFinds(m + 1, target, day);
      NextMonthStarts(m);
    }
  }

  /** Dates and day numbers determine each other. */
  lemma DateRoundTrip(d: Date)
    requires IsDate(d)
    ensures DayNumber(d) >= 1 && DateOf(DayNumber(d)) == d
  {
    MonthIndexSplits(d);
    LocateFinds(12, MonthIndex(d), d.day);
  }

  lemma DayNumberRoundTrip(n: int)
    requires n >= 1
    ensures IsDate(DateOf(n)) && DayNumber(DateOf(n)) == n
  {
    LocateIsRight(n, 12);
  }

  lemma MonthIndexSplits(d: Date)
    requires 1 <= d.month <= 12
    ensures MonthIndex(d) / 12 == d.year && MonthIndex(d) % 12 + 1 == d.month
    ensures MonthLength(MonthIndex(d)) == DaysInMonth(d.year, d.month)
  {
  }

  /** A year has 365 days, and one more when it is divisible by 4 but not by 100, or by 400. */
  lemma YearLength(year: int)
    requires year >= 1
    ensures DaysBefore(year * 12 + 12) - DaysBefore(year * 12) ==
            365 + (year / 4 - (year - 1) / 4) - (year / 100 - (year - 1) / 100) + (year / 400 - (year - 1) / 400)
  {
    hide DaysBefore;
    DaysBeforeByYear(year, 12);
    Multiples(year, 4);
    Multiples(year, 100);
    Multiples(year, 400);
  }

  lemma Multiples(year: int, m: int)
    requires m == 4 || m == 100 || m == 400
    ensures year / m - (year - 1) / m == if year % m == 0 then 1 else 0
  {
  }

  /** Day numbers are the proleptic Gregorian ordinals: whole years by the rule, then whole months. */
  lemma {:induction false} DaysBeforeYear(year: int)
    requires year >= 1
    ensures DaysBefore(year * 12) ==
            (year - 1) * 365 + (year - 1) / 4 - (year - 1) / 100 + (year - 1) / 400
    decreases year
  {
    hide DaysBefore;
    if year == 1 {
      NothingBefore();
    } else {
      DaysBeforeYear(year - 1);
      YearLength(year - 1);
    }
  }

  lemma NothingBefore()
    ensures DaysBefore(12) == 0
  {
  }

  function Min(a: int, b: int): int {
    if a < b then a else b
  }

  /** The same day that many months later, or the last day of that month. */
  function AddMonths(d: Date, months: int): Date {
    var total := d.year * 12 + d.month - 1 + months;
    var year, month := total / 12, total % 12 + 1;
    Date(year, month, Min(d.day, DaysInMonth(year, month)))
  }

  lemma AddMonthsByIndex(d: Date, months: nat)
    requires IsDate(d)
    ensures var e := AddMonths(d, months);
            && IsDate(e)
            && MonthIndex(e) == MonthIndex(d) + months
            && e.day == Min(d.day, MonthLength(MonthIndex(d) + months))
            && DayNumber(e) - DayNumber(d) ==
               DaysBefore(MonthIndex(d) + months) - DaysBefore(MonthIndex(d)) + e.day - d.day
  {
  }

  lemma OneMonthOn(d: Date)
    requires IsDate(d)
    ensures 28 <= DayNumber(AddMonths(d, 1)) - DayNumber(d) <= 31
  {
    hide DaysBefore, AddMonths, DaysInMonth, MonthLength, IsLeap;
    var m := MonthIndex(d);
    assert d.day <= MonthLength(m) by { MonthIndexSplits(d); }
    NextMonthStarts(m);
    AddMonthsByIndex(d, 1);
  }

  /** Days of a common year before its k-th month, counting months from 0. */
  function CommonDays(k: nat): int {
    match k
    case 0 => 0 case 1 => 31 case 2 => 59 case 3 => 90 case 4 => 120 case 5 => 151
    case 6 => 181 case 7 => 212 case 8 => 243 case 9 => 273 case 10 => 304 case 11 => 334
    case _ => 365
  }

  /** Days of a year before its k-th month. */
  function DaysIntoYear(year: int, k: nat): int {
    CommonDays(k) + if k >= 2 && IsLeap(year) then 1 else 0
  }

  lemma {:induction false} DaysBeforeByYear(year: int, k: nat)
    requires year >= 1 && k <= 12
    ensures DaysBefore(year * 12 + k) == DaysBefore(year * 12) + DaysIntoYear(year, k)
  {
    if k > 0 {
      DaysBeforeByYear(year, k - 1);
      NextMonthStarts(year * 12 + (k - 1));
      assert MonthLength(year * 12 + (k - 1)) == DaysInMonth(year, k) by { MonthIndexSplits(Date(year, k, 1)); }
      MonthInTable(year, k);
    }
  }

  lemma MonthInTable(year: int, k: nat)
    requires 0 < k <= 12
    ensures DaysIntoYear(year, k) == DaysIntoYear(year, k - 1) + DaysInMonth(year, k)
  {
  }

  lemma MonthLengthAhead(m: int, k: int)
    ensures MonthLength(m + k) == DaysInMonth((m + k) / 12, (m % 12 + k) % 12 + 1)
  {
    assert (m + k) % 12 == (m % 12 + k) % 12;
  }

  /** Three months in a row, and the most that clamping to the fourth can take off. */
  lemma ThreeMonthLengths(m: int)
    ensures var s := MonthLength(m) + MonthLength(m + 1) + MonthLength(m + 2);
            && 89 <= s <= 92
            && 89 <= s - (MonthLength(m) - Min(MonthLength(m), MonthLength(m + 3)))
  {
    MonthLengthAhead(m, 1);
    MonthLengthAhead(m, 2);
    MonthLengthAhead(m, 3);
  }

  lemma ThreeMonthsOn(d: Date)
    requires IsDate(d)
    ensures 89 <= DayNumber(AddMonths(d, 3)) - DayNumber(d) <= 92
  {
    hide DaysBefore, AddMonths, DaysInMonth, MonthLength, IsLeap;
    var m := MonthIndex(d);
    assert d.day <= MonthLength(m) by { MonthIndexSplits(d); }
    ThreeMonthLengths(m);
    NextMonthStarts(m);
    NextMonthStarts(m + 1);
    NextMonthStarts(m + 2);
    AddMonthsByIndex(d, 3);
  }

  /** From the k-th month of a year to the same month a year on, one February is passed. */
  lemma YearGap(year: int, k: nat)
    requires year >= 1 && k < 12
    ensures DaysBefore(year * 12 + k + 12) - DaysBefore(year * 12 + k) ==
            365 + if IsLeap(if k >= 2 then year + 1 else year) then 1 else 0
  {
    hide DaysBefore;
    DaysBeforeByYear(year, 12);
    DaysBeforeByYear(year, k);
    DaysBeforeByYear(year + 1, k);
    TableGap(year, k);
  }

  /** In the table of month starts, too, the k-th month of the next year is one February further on. */
  lemma TableGap(year: int, k: nat)
    requires k < 12
    ensures DaysIntoYear(year, 12) + DaysIntoYear(year + 1, k) - DaysIntoYear(year, k) ==
            365 + if IsLeap(if k >= 2 then year + 1 else year) then 1 else 0
  {
    hide IsLeap;
  }

  lemma LeapYearsApart(year: int)
    requires IsLeap(year)
    ensures !IsLeap(year + 1)
  {
  }

  /** A day carried a year on is clamped only from 29 February, to the 28th. */
  lemma DayAYearOn(d: Date)
    requires IsDate(d)
    ensures AddMonths(d, 12).day == if d.month == 2 && d.day == 29 then 28 else d.day
    ensures d.month == 2 && d.day == 29 ==> IsLeap(d.year)
  {
    var total := d.year * 12 + d.month - 1 + 12;
    assert total / 12 == d.year + 1 && total % 12 + 1 == d.month;
    assert AddMonths(d, 12).day == Min(d.day, DaysInMonth(d.year + 1, d.month));
    if d.month == 2 && IsLeap(d.year) { LeapYearsApart(d.year); }
  }

  lemma OneYearOn(d: Date)
    requires IsDate(d)
    ensures 365 <= DayNumber(AddMonths(d, 12)) - DayNumber(d) <= 366
  {
    hide DaysBefore, AddMonths, IsLeap, DayNumber, DaysInMonth;
    AddMonthsByIndex(d, 12);
    YearGap(d.year, d.month - 1);
    DayAYearOn(d);
  }
}
