/** The proleptic Gregorian calendar. Days are numbered from 1970-01-01, so dates can be compared and
    advanced as numbers; surplus days carry into the following months the way JavaScript's `Date.UTC`
    carries them. Both the series buckets (month steps) and the text band (date texts) are built on this
    numbering. */
module Calendar {
  datatype Date = Date(year: int, month: int, day: int)

  predicate IsLeap(year: int) { year % 4 == 0 && (year % 100 != 0 || year % 400 == 0) }

  function DaysInMonth(year: int, month: int): (days: int)
    ensures 28 <= days <= 31
  {
    if month == 2 then if IsLeap(year) then 29 else 28
    else if month == 4 || month == 6 || month == 9 || month == 11 then 30
    else 31
  }

  function YearLength(year: int): int { if IsLeap(year) then 366 else 365 }

  /** Leap years before `year`, up to a constant. */
  function Leaps(year: int): int { (year - 1) / 4 - (year - 1) / 100 + (year - 1) / 400 }

  /** The number of the year's first day. */
  function YearStart(year: int): int { 365 * (year - 1970) + Leaps(year) - 477 }

  function Bit(b: bool): int { if b then 1 else 0 }

  lemma FourYears(year: int)
    ensures year / 4 - (year - 1) / 4 == Bit(year % 4 == 0)
  {
  }

  lemma Century(year: int)
    ensures year / 100 - (year - 1) / 100 == Bit(year % 100 == 0)
  {
  }

  lemma FourCenturies(year: int)
    ensures year / 400 - (year - 1) / 400 == Bit(year % 400 == 0)
  {
  }

  lemma CenturyDivides(year: int)
    requires year % 400 == 0
    ensures year % 100 == 0
  {
    var k := year / 400;
    assert year == 100 * (4 * k);
  }

  lemma FourDivides(year: int)
    requires year % 100 == 0
    ensures year % 4 == 0
  {
    var k := year / 100;
    assert year == 4 * (25 * k);
  }

  lemma LeapsAre(year: int)
    ensures Bit(year % 4 == 0) - Bit(year % 100 == 0) + Bit(year % 400 == 0) == Bit(IsLeap(year))
  {
    if year % 400 == 0 {
      CenturyDivides(year);
    }
    if year % 100 == 0 {
      FourDivides(year);
    }
  }

  lemma YearStep(year: int)
    ensures YearStart(year + 1) == YearStart(year) + YearLength(year)
  {
    hide IsLeap, Bit;
    FourYears(year);
    Century(year);
    FourCenturies(year);
    LeapsAre(year);
    LengthIs(year);
  }

  lemma LengthIs(year: int)
    ensures YearLength(year) == 365 + Bit(IsLeap(year))
  {
  }

  /** Days of the year before the month; 13 stands for the next January. */
  function MonthStart(year: int, month: int): (days: int)
    requires 1 <= month <= 13
    decreases month
  {
    if month == 1 then 0 else MonthStart(year, month - 1) + DaysInMonth(year, month - 1)
  }

  lemma YearIsItsMonths(year: int)
    ensures MonthStart(year, 13) == YearLength(year)
  {
    assert MonthStart(year, 5) == MonthStart(year, 3) + 61;
    assert MonthStart(year, 9) == MonthStart(year, 5) + 123;
    assert MonthStart(year, 13) == MonthStart(year, 9) + 122;
  }

  predicate Valid(d: Date) { 1 <= d.month <= 12 && 1 <= d.day <= DaysInMonth(d.year, d.month) }

  function DayNumber(d: Date): int
    requires 1 <= d.month <= 12
  {
    YearStart(d.year) + MonthStart(d.year, d.month) + d.day - 1
  }

  predicate Before(d: Date, e: Date) {
    d.year < e.year || (d.year == e.year && (d.month < e.month || (d.month == e.month && d.day < e.day)))
  }

  lemma {:induction false} MonthStartGrows(year: int, m: int, n: int)
    requires 1 <= m < n <= 13
    ensures MonthStart(year, m) + DaysInMonth(year, m) <= MonthStart(year, n)
    decreases n
  {
    if n > m + 1 {
      MonthStartGrows(year, m, n - 1);
    }
  }

  lemma {:induction false} YearStartGrows(y: int, z: int)
    requires y < z
    ensures YearStart(y) + YearLength(y) <= YearStart(z)
    decreases z - y
  {
    hide YearStart;
    YearStep(y);
    if y + 1 < z {
      YearStartGrows(y + 1, z);
    }
  }

  /** Dates in order are days in order. */
  lemma LaterDateLaterDay(d: Date, e: Date)
    requires Valid(d) && Valid(e) && Before(d, e)
    ensures DayNumber(d) < DayNumber(e)
  {
    hide YearStart, MonthStart;
    if d.year == e.year {
      if d.month < e.month {
        MonthStartGrows(d.year, d.month, e.month);
      }
    } else {
      MonthStartGrows(d.year, d.month, 13);
      YearIsItsMonths(d.year);
      YearStartGrows(d.year, e.year);
      MonthStartIsNonnegative(e.year, e.month);
    }
  }

  lemma MonthStartIsNonnegative(year: int, month: int)
    requires 1 <= month <= 13
    ensures 0 <= MonthStart(year, month)
  {
    if month > 1 {
      MonthStartGrows(year, 1, month);
    }
  }

  /** The calendar order is exactly the day order, so a day has one date. */
  lemma DayOrderIsDateOrder(d: Date, e: Date)
    requires Valid(d) && Valid(e)
    ensures Before(d, e) <==> DayNumber(d) < DayNumber(e)
    ensures DayNumber(d) == DayNumber(e) ==> d == e
  {
    if Before(d, e) {
      LaterDateLaterDay(d, e);
    } else if d != e {
      LaterDateLaterDay(e, d);
    }
  }

  /** The day after a date is the next day of its month, or the first of the next month when the month is
      over: at 31 days, at 30 in April, June, September and November, and in February at 28, or 29 in a
      year divisible by 4 but not by 100, or by 400. */
  lemma NextDay(d: Date)
    requires Valid(d)
    ensures DayNumber(d) + 1 == DayNumber(
              if d.day < (if d.month == 2 then (if d.year % 400 == 0 || (d.year % 4 == 0 && d.year % 100 != 0) then 29 else 28)
                          else if d.month in {4, 6, 9, 11} then 30 else 31)
              then Date(d.year, d.month, d.day + 1)
              else if d.month < 12 then Date(d.year, d.month + 1, 1)
              else Date(d.year + 1, 1, 1))
  {
    hide YearStart;
    LeapYears(d.year);
    YearStep(d.year);
    YearIsItsMonths(d.year);
  }

  lemma LeapYears(year: int)
    ensures IsLeap(year) <==> year % 400 == 0 || (year % 4 == 0 && year % 100 != 0)
  {
    if year % 400 == 0 {
      CenturyDivides(year);
      FourDivides(year);
    }
  }

  /** Days are counted from the first of January 1970. */
  lemma DayZero()
    ensures Civil(0) == Date(1970, 1, 1)
  {
    hide Civil, DayNumber, IsLeap, DaysInMonth;
    FirstDayNumber();
    CivilIsInverse(0, Date(1970, 1, 1));
  }

  lemma FirstDayNumber()
    ensures Valid(Date(1970, 1, 1)) && DayNumber(Date(1970, 1, 1)) == 0
  {
    assert Leaps(1970) == 477;
  }

  // ----- from day numbers back to dates

  /** Carries surplus days into the following months, as `Date.UTC` does. */
  function Normalize(year: int, month: int, day: int): (d: Date)
    requires 1 <= month <= 12 && day >= 1
    ensures Valid(d)
    decreases day
  {
    if day <= DaysInMonth(year, month) then Date(year, month, day)
    else if month == 12 then Normalize(year + 1, 1, day - DaysInMonth(year, month))
    else Normalize(year, month + 1, day - DaysInMonth(year, month))
  }

  lemma {:induction false} NormalizeKeepsDay(year: int, month: int, day: int)
    requires 1 <= month <= 12 && day >= 1
    ensures DayNumber(Normalize(year, month, day)) == DayNumber(Date(year, month, day))
    decreases day
  {
    hide YearStart;
    if day > DaysInMonth(year, month) {
      if month == 12 {
        NormalizeKeepsDay(year + 1, 1, day - DaysInMonth(year, month));
        YearStep(year);
        YearIsItsMonths(year);
      } else {
        NormalizeKeepsDay(year, month + 1, day - DaysInMonth(year, month));
      }
    }
  }

  /** The date of a day: counts on from a new year not after it. */
  function Civil(n: int): (d: Date)
    ensures Valid(d)
  {
    var year := if n >= 0 then 1970 else 1970 + n / 365;
    StartsBefore(n);
    Normalize(year, 1, n - YearStart(year) + 1)
  }

  lemma StartsBefore(n: int)
    ensures YearStart(if n >= 0 then 1970 else 1970 + n / 365) <= n
  {
    if n < 0 {
      var k := n / 365;
      assert 365 * k <= n;
      assert Leaps(1970 + k) <= 477;
    }
  }

  /** Dates and day numbers are in bijection. */
  lemma CivilIsInverse(n: int, d: Date)
    ensures DayNumber(Civil(n)) == n
    ensures Valid(d) ==> Civil(DayNumber(d)) == d
  {
    CivilDay(n);
    if Valid(d) {
      CivilDay(DayNumber(d));
      DayOrderIsDateOrder(Civil(DayNumber(d)), d);
    }
  }

  lemma CivilDay(n: int)
    ensures DayNumber(Civil(n)) == n
  {
    hide YearStart, MonthStart;
    var year := if n >= 0 then 1970 else 1970 + n / 365;
    StartsBefore(n);
    NormalizeKeepsDay(year, 1, n - YearStart(year) + 1);
    JanuaryFirst(year);
  }

  lemma JanuaryFirst(year: int)
    ensures MonthStart(year, 1) == 0
  {
  }

  // ----- the same day of the next month

  /** One calendar month on, keeping the day of the month; a day the month lacks rolls over. */
  function NextMonth(n: int): int {
    var d := Civil(n);
    DayNumber(if d.month == 12 then Normalize(d.year + 1, 1, d.day) else Normalize(d.year, d.month + 1, d.day))
  }

  /** It is as many days on as the old month has. */
  lemma NextMonthAdvances(n: int)
    ensures NextMonth(n) == n + DaysInMonth(Civil(n).year, Civil(n).month)
  {
    hide YearStart;
    var d := Civil(n);
    CivilDay(n);
    if d.month == 12 {
      NormalizeKeepsDay(d.year + 1, 1, d.day);
      YearStep(d.year);
      YearIsItsMonths(d.year);
    } else {
      NormalizeKeepsDay(d.year, d.month + 1, d.day);
    }
  }
}
