/**
  Calendar arithmetic, base/htime.c:102-146, against the number of days in the proleptic
  Gregorian calendar.
  */
module Dates {

  /** IS_LEAP_YEAR. */
  predicate Leap(year: int) { (year % 4 == 0 && year % 100 != 0) || year % 400 == 0 }

  const MONTH_DAYS: seq<int> := [31, 28, 31, 30, 31, 30, 31, 31, 30, 31, 30, 31]

  /** days_of_month. */
  function DaysOfMonth(month: int, year: int): int {
    if month < 1 || month > 12 then 0
    else MONTH_DAYS[month - 1] + if month == 2 && Leap(year) then 1 else 0
  }

  predicate ValidDate(year: int, month: int, day: int) {
    1 <= month <= 12 && 1 <= day <= DaysOfMonth(month, year)
  }

  /** The days before the first of January, counted from the first of January of the year 1. */
  function BeforeYear(year: int): int {
    var n := year - 1;
    365 * n + n / 4 - n / 100 + n / 400
  }

  function BeforeMonth(month: int, year: int): int
    requires 1 <= month <= 12
  {
    [0, 31, 59, 90, 120, 151, 181, 212, 243, 273, 304, 334][month - 1] + if month > 2 && Leap(year) then 1 else 0
  }

  function DayNumber(year: int, month: int, day: int): int
    requires 1 <= month <= 12
  {
    BeforeYear(year) + BeforeMonth(month, year) + day
  }

  lemma YearLength(year: int)
    ensures BeforeYear(year + 1) == BeforeYear(year) + 365 + if Leap(year) then 1 else 0
  {
    var q := year / 400;
    var r := year % 400;
    assert year == 400 * q + r;
    assert year / 4 == 100 * q + r / 4 && year / 100 == 4 * q + r / 100;
    assert (year - 1) / 400 == if r == 0 then q - 1 else q;
    assert (year - 1) / 100 == if r % 100 == 0 then year / 100 - 1 else year / 100;
    assert (year - 1) / 4 == if r % 4 == 0 then year / 4 - 1 else year / 4;
    assert year % 4 == r % 4 && year % 100 == r % 100;
  }

  /** The months of the calendar. */
  lemma Months(month: int, year: int)
    ensures DaysOfMonth(month, year) == 31 <==> month in {1, 3, 5, 7, 8, 10, 12}
    ensures DaysOfMonth(month, year) == 30 <==> month in {4, 6, 9, 11}
    ensures month == 2 ==> DaysOfMonth(month, year) == if Leap(year) then 29 else 28
  {
    hide Leap;
    if 1 <= month <= 12 { assert MONTH_DAYS[month - 1] == if month in {4, 6, 9, 11} then 30 else if month == 2 then 28 else 31; }
  }

  /** No day is before the year 1, and 719162 days are before the Unix epoch. */
  lemma Epoch()
    ensures BeforeYear(1) == 0 && BeforeYear(1970) == 719162
  {
    assert 1969 / 4 == 492 && 1969 / 100 == 19 && 1969 / 400 == 4;
  }

  /** The first of a month follows the last of the month before. */
  lemma MonthLength(month: int, year: int)
    requires 1 <= month <= 12
    ensures month < 12 ==> BeforeMonth(month + 1, year) == BeforeMonth(month, year) + DaysOfMonth(month, year)
    ensures month == 12 ==> DayNumber(year + 1, 1, 0) == DayNumber(year, 12, DaysOfMonth(12, year))
  {
    YearLength(year);
  }

  /** The day before the first of a month. */
  lemma MonthBack(year: int, month: int)
    requires 1 <= month <= 12
    ensures var (y, m) := if month == 1 then (year - 1, 12) else (year, month - 1);
      ValidDate(y, m, DaysOfMonth(m, y)) && DayNumber(y, m, DaysOfMonth(m, y)) == DayNumber(year, month, 0)
  {
    MonthLength(if month == 1 then 12 else month - 1, if month == 1 then year - 1 else year);
    hide BeforeYear, Leap;
  }

  lemma {:induction false} YearsGrow(a: int, b: int)
    requires a <= b
    ensures BeforeYear(a) <= BeforeYear(b)
    decreases b - a
  {
    if a < b {
      YearLength(b - 1);
      YearsGrow(a, b - 1);
    }
  }

  lemma InYear(year: int, month: int, day: int)
    requires ValidDate(year, month, day)
    ensures BeforeYear(year) < DayNumber(year, month, day) <= BeforeYear(year + 1)
  {
    YearLength(year);
  }

  /** No two dates have the same number. */
  lemma NumbersDiffer(y: int, m: int, d: int, y': int, m': int, d': int)
    requires ValidDate(y, m, d) && ValidDate(y', m', d')
    requires DayNumber(y, m, d) == DayNumber(y', m', d')
    ensures y == y' && m == m' && d == d'
  {
    hide BeforeYear;
    InYear(y, m, d);
    InYear(y', m', d');
    if y < y' {
      YearsGrow(y + 1, y');
    } else if y' < y {
      YearsGrow(y' + 1, y);
    }
  }

  class DateTime {
    var year: int
    var month: int
    var day: int

    ghost predicate Valid()
      reads this
    {
      ValidDate(year, month, day)
    }

    ghost function Number(): int
      reads this
      requires Valid()
    {
      DayNumber(year, month, day)
    }

    constructor (y: int, m: int, d: int)
      requires ValidDate(y, m, d)
      ensures Valid() && year == y && month == m && day == d
    {
      year, month, day := y, m, d;
    }

    /** datetime_past. */
    method Past(days: nat)
      requires Valid()
      modifies this
      ensures Valid() && Number() == old(Number()) - days
    {
      hide BeforeYear, BeforeMonth, Leap;
      var sub := days;
      while sub > 0
        invariant sub >= 0 && Valid() && Number() - sub == old(Number()) - days
        decreases sub
      {
        if day > sub {
          day := day - sub;
          break;
        }
        sub := sub - day;
        MonthBack(year, month);
        month := month - 1;
        if month == 0 {
          month := 12;
          year := year - 1;
        }
        day := DaysOfMonth(month, year);
      }
    }

    /** datetime_future. */
    method Future(days: nat)
      requires Valid()
      modifies this
      ensures Valid() && Number() == old(Number()) + days
    {
      var sub := days;
      while sub > 0
        invariant sub >= 0 && Valid() && Number() + sub == old(Number()) + days
        decreases sub
      {
        var mdays := DaysOfMonth(month, year);
        if day + sub <= mdays {
          day := day + sub;
          break;
        }
        sub := sub - (mdays - day + 1);
        MonthLength(month, year);
        month := month + 1;
        if month > 12 {
          month := 1;
          year := year + 1;
        }
        day := 1;
      }
    }

    /** Going forward and back, or back and forward, ends where it began. */
    method ThereAndBack(days: nat, forward: bool)
      requires Valid()
      modifies this
      ensures year == old(year) && month == old(month) && day == old(day)
    {
      if forward {
        Future(days);
        Past(days);
      } else {
        Past(days);
        Future(days);
      }
      NumbersDiffer(year, month, day, old(year), old(month), old(day));
    }
  }
}
