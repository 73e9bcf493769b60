/** The proleptic Gregorian calendar of Python's `datetime.date`: years 1 to 9999, the
    4/100/400 leap-year rule, comparison of dates, and the day after a date. */
module Calendar {
  import opened Wrappers

  const MinYear := 1
  const MaxYear := 9999

  datatype Date = Date(year: int, month: int, day: int)

  /** The Gregorian rule: every fourth year, except centuries not divisible by 400. */
  predicate IsLeap(year: int): (r: bool)
    ensures year % 400 == 0 ==> r
    ensures year % 100 == 0 && year % 400 != 0 ==> !r
    ensures year % 4 == 0 && year % 100 != 0 ==> r
    ensures year % 4 != 0 ==> !r
  {
    year % 4 == 0 && (year % 100 != 0 || year % 400 == 0)
  }

  function DaysInMonth(year: int, month: int): (n: int)
    requires 1 <= month <= 12
    ensures 28 <= n <= 31
  {
    if month == 2 then (if IsLeap(year) then 29 else 28)
    else if month == 4 || month == 6 || month == 9 || month == 11 then 30
    else 31
  }

  /** The dates `date(year, month, day)` accepts. */
  predicate Valid(d: Date) {
    && MinYear <= d.year <= MaxYear
    && 1 <= d.month <= 12
    && 1 <= d.day <= DaysInMonth(d.year, d.month)
  }

  /** `date.max`. */
  const LastDate := Date(MaxYear, 12, 31)

  /** `a < b` on dates: year first, then month, then day. */
  predicate Before(a: Date, b: Date): (r: bool)
    ensures r ==> a != b
    ensures Valid(a) && Valid(b) ==>
              (r <==> a.year * 10000 + a.month * 100 + a.day < b.year * 10000 + b.month * 100 + b.day)
  {
    || a.year < b.year
    || (a.year == b.year && a.month < b.month)
    || (a.year == b.year && a.month == b.month && a.day < b.day)
  }

  /** The day after `d` (`d + timedelta(days=1)`), or `None` where that would pass `date.max`
      and Python raises `OverflowError`. */
  function Tomorrow(d: Date): (r: Option<Date>)
    requires Valid(d)
    ensures r.None? <==> d == LastDate
    ensures r.Some? ==> Valid(r.value) && Before(d, r.value)
  {
    if d.day < DaysInMonth(d.year, d.month) then Some(Date(d.year, d.month, d.day + 1))
    else if d.month < 12 then Some(Date(d.year, d.month + 1, 1))
    else if d.year < MaxYear then Some(Date(d.year + 1, 1, 1))
    else None
  }

  function YearLength(year: int): int {
    if IsLeap(year) then 366 else 365
  }

  /** The days of the months before `month` in `year`; `month` may be 13, for the whole year. */
  function DaysBeforeMonth(year: int, month: int): (n: nat)
    requires 1 <= month <= 13
    decreases month
  {
    if month == 1 then 0 else DaysBeforeMonth(year, month - 1) + DaysInMonth(year, month - 1)
  }

  /** The days of the years from 1 up to, not including, `year`. */
  function DaysBeforeYear(year: int): (n: nat)
    requires year >= MinYear
    decreases year
  {
    if year == MinYear then 0 else DaysBeforeYear(year - 1) + YearLength(year - 1)
  }

  /** `date.toordinal()`: the day number counted from 1 January of year 1, which is day 1. */
  function DayNumber(d: Date): (n: int)
    requires Valid(d)
    ensures n >= 1
  {
    DaysBeforeYear(d.year) + DaysBeforeMonth(d.year, d.month) + d.day
  }

  /** The twelve months make up the year. */
  lemma MonthsFillYear(year: int)
    ensures DaysBeforeMonth(year, 13) == YearLength(year)
  {
    assert DaysBeforeMonth(year, 3) == 31 + DaysInMonth(year, 2);
    assert DaysBeforeMonth(year, 7) == DaysBeforeMonth(year, 3) + 122;
    assert DaysBeforeMonth(year, 11) == DaysBeforeMonth(year, 7) + 123;
  }

  /** Later months start later in the year. */
  lemma {:induction false} MonthStartsIncrease(year: int, m: int, m': int)
    requires 1 <= m < m' <= 13
    ensures DaysBeforeMonth(year, m) + DaysInMonth(year, m) <= DaysBeforeMonth(year, m')
    decreases m' - m
  {
    if m' > m + 1 {
      MonthStartsIncrease(year, m, m' - 1);
    }
  }

  /** Later years start later. */
  lemma {:induction false} YearStartsIncrease(y: int, y': int)
    requires MinYear <= y < y'
    ensures DaysBeforeYear(y) + YearLength(y) <= DaysBeforeYear(y')
    decreases y' - y
  {
    if y' > y + 1 {
      YearStartsIncrease(y, y' - 1);
    }
  }

  /** A date ends no later than its year does. */
  lemma WithinYear(d: Date)
    requires Valid(d)
    ensures DayNumber(d) <= DaysBeforeYear(d.year) + YearLength(d.year)
  {
    MonthsFillYear(d.year);
    if d.month < 12 {
      MonthStartsIncrease(d.year, d.month, 13);
    }
  }

  /** Comparing dates is comparing their day numbers. */
  lemma BeforeIffEarlierDay(a: Date, b: Date)
    requires Valid(a) && Valid(b)
    ensures Before(a, b) <==> DayNumber(a) < DayNumber(b)
  {
    if a.year != b.year {
      var (x, y) := if a.year < b.year then (a, b) else (b, a);
      WithinYear(x);
      YearStartsIncrease(x.year, y.year);
    } else if a.month != b.month {
      var (x, y) := if a.month < b.month then (a, b) else (b, a);
      MonthStartsIncrease(a.year, x.month, y.month);
    }
  }

  /** The day after a date is the next day number. */
  lemma TomorrowIsNextDay(d: Date)
    requires Valid(d) && d != LastDate
    ensures DayNumber(Tomorrow(d).value) == DayNumber(d) + 1
  {
    if d.day == DaysInMonth(d.year, d.month) && d.month == 12 {
      MonthsFillYear(d.year);
    }
  }

  /** No valid date lies strictly between a date and the day after it, and none follows
      `date.max`: the day after is the least later date. */
  lemma TomorrowIsNext(d: Date, e: Date)
    requires Valid(d) && Valid(e) && Before(d, e)
    ensures Tomorrow(d).Some?
    ensures !Before(e, Tomorrow(d).value)
  {
    BeforeIffEarlierDay(d, e);
    TomorrowIsNextDay(d);
    BeforeIffEarlierDay(e, Tomorrow(d).value);
  }

}
