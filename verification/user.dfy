/** Names and ages: `full_name` joins a family and a given name, `time_basis_age` counts the
    birthdays a person has reached by a date, and `date_basis_age` counts them as of the end of
    that date, that is, by the next day. */
module User {
  import opened Wrappers
  import opened Decimal
  import opened Arithmetic
  import opened Calendar

  /** The exceptions these functions raise. */
  datatype Error =
    | ValueError
    | OverflowError

  /** `full_name(family_name, given_name, separator)`. */
  function FullName(family: string, given: string, separator: string): (r: Result<string, Error>)
    ensures r.Failure? <==> |family| == 0 || |given| == 0
    ensures r.Failure? ==> r.error == ValueError
    ensures r.Success? ==> |r.value| == |family| + |separator| + |given|
  {
    if |family| == 0 then Failure(ValueError)
    else if |given| == 0 then Failure(ValueError)
    else Success(family + separator + given)
  }

  /** `full_name(family_name, given_name)`: the default separator is a single space. */
  function FullNameDefault(family: string, given: string): (r: Result<string, Error>)
    ensures r.Failure? <==> |family| == 0 || |given| == 0
    ensures r.Failure? ==> r.error == ValueError
    ensures r.Success? ==> r.value == family + " " + given
  {
    FullName(family, given, " ")
  }

  /** The full name splits back into the two names and the separator between them. */
  lemma FullNameParts(family: string, given: string, separator: string)
    requires FullName(family, given, separator).Success?
    ensures var name := FullName(family, given, separator).value;
      && name[..|family|] == family
      && name[|family|..|family| + |separator|] == separator
      && name[|family| + |separator|..] == given
  {
  }

  /** `date.strftime("%Y%m%d")`: the year in four digits, month and day in two. */
  function Strftime(d: Date): (s: string)
    requires Valid(d)
    ensures |s| == 8 && AllDigits(s)
  {
    ZeroPad(d.year, 4) + ZeroPad(d.month, 2) + ZeroPad(d.day, 2)
  }

  /** `int(date.strftime("%Y%m%d"))`: the date read as the decimal number YYYYMMDD. */
  function ToInt(d: Date): (n: int)
    requires Valid(d)
    ensures n == d.year * 10000 + d.month * 100 + d.day
  {
    var y, m, dd := ZeroPad(d.year, 4), ZeroPad(d.month, 2), ZeroPad(d.day, 2);
    assert Pow10(2) == 100;
    ValueOfConcat(y, m);
    var ym := Value(y + m);
    assert ym == d.year * 100 + d.month;
    ValueOfConcat(y + m, dd);
    assert Value(y + m + dd) == ym * 100 + d.day;
    Value(Strftime(d))
  }

  /** The reference count: full years from `birthday` to `today`, one fewer if the anniversary
      in `today`'s year has not yet come (by month, then day). */
  function CompletedYears(birthday: Date, today: Date): int {
    var early := today.month < birthday.month || (today.month == birthday.month && today.day < birthday.day);
    today.year - birthday.year - (if early then 1 else 0)
  }

  /** `time_basis_age(birthday, today)`: `ValueError` when `today < birthday`, otherwise the
      difference of the two YYYYMMDD numbers floor-divided by 10000. */
  method TimeBasisAge(birthday: Date, today: Date) returns (r: Result<int, Error>)
    requires Valid(birthday) && Valid(today)
    ensures r.Failure? <==> Before(today, birthday)
    ensures r.Failure? ==> r.error == ValueError
    ensures r.Success? ==> r.value == CompletedYears(birthday, today) && r.value >= 0
  {
    if Before(today, birthday) {
      return Failure(ValueError);
    }
    var n := ToInt(today) - ToInt(birthday);
    AgeByDivision(birthday, today);
    return Success(n / 10000);
  }

  /** Floor division of a YYYYMMDD difference, on plain numbers: months and days stay below
      100, so the month-and-day part only decides whether to take one year off. */
  lemma FloorYears(y1: int, m1: int, d1: int, y0: int, m0: int, d0: int)
    requires 1 <= m1 <= 12 && 1 <= d1 <= 31 && 1 <= m0 <= 12 && 1 <= d0 <= 31
    ensures ((y1 * 10000 + m1 * 100 + d1) - (y0 * 10000 + m0 * 100 + d0)) / 10000 ==
            y1 - y0 - (if m1 < m0 || (m1 == m0 && d1 < d0) then 1 else 0)
  {
    var n := (y1 * 10000 + m1 * 100 + d1) - (y0 * 10000 + m0 * 100 + d0);
    var x := (m1 * 100 + d1) - (m0 * 100 + d0);
    assert n == (y1 - y0) * 10000 + x;
    if x >= 0 {
      DivUnique(n, 10000, y1 - y0, x);
    } else {
      DivUnique(n, 10000, y1 - y0 - 1, x + 10000);
    }
  }

  /** Floor-dividing the difference of the YYYYMMDD numbers by 10000 counts completed years. */
  lemma AgeByDivision(birthday: Date, today: Date)
    requires Valid(birthday) && Valid(today)
    ensures (ToInt(today) - ToInt(birthday)) / 10000 == CompletedYears(birthday, today)
  {
    FloorYears(today.year, today.month, today.day, birthday.year, birthday.month, birthday.day);
  }

  /** On the birthday itself the age is zero. */
  lemma AgeZeroOnBirthday(birthday: Date)
    ensures CompletedYears(birthday, birthday) == 0
  {
  }

  /** The age never decreases as `today` moves forward. */
  lemma AgeMonotone(birthday: Date, today: Date, later: Date)
    requires !Before(later, today)
    ensures CompletedYears(birthday, today) <= CompletedYears(birthday, later)
  {
  }

  /** Someone born on 29 February turns a year older on 29 February when that day exists,
      and on 1 March in a common year; on 28 February the year is not yet complete. */
  lemma LeapDayBirthday(birthday: Date, today: Date)
    requires birthday.month == 2 && birthday.day == 29
    ensures today.month == 2 && today.day == 28 ==>
              CompletedYears(birthday, today) == today.year - birthday.year - 1
    ensures today.month == 2 && today.day == 29 ==>
              CompletedYears(birthday, today) == today.year - birthday.year
    ensures today.month == 3 && today.day == 1 ==>
              CompletedYears(birthday, today) == today.year - birthday.year
  {
  }

  /** `date_basis_age(birthday, today)`: `ValueError` when `today < birthday`, otherwise the
      time-basis age at the day after `today` (`OverflowError` if that passes `date.max`). */
  method DateBasisAge(birthday: Date, today: Date) returns (r: Result<int, Error>)
    requires Valid(birthday) && Valid(today)
    ensures r.Failure? <==> Before(today, birthday) || today == LastDate
    ensures r.Failure? ==> r.error == (if Before(today, birthday) then ValueError else OverflowError)
    ensures r.Success? ==> r.value == CompletedYears(birthday, Tomorrow(today).value)
  {
    if Before(today, birthday) {
      return Failure(ValueError);
    }
    match Tomorrow(today)
    case None =>
      return Failure(OverflowError);
    case Some(tomorrow) =>
      r := TimeBasisAge(birthday, tomorrow);
  }

  /** The date-basis age is the time-basis age or one more: it turns over a day earlier. */
  lemma DateBasisAgeBounds(birthday: Date, today: Date)
    requires Valid(today) && today != LastDate
    ensures var age := CompletedYears(birthday, today);
      age <= CompletedYears(birthday, Tomorrow(today).value) <= age + 1
  {
  }

  /** Someone born on 1 March turns a year older a day early: on 29 February in a leap year
      and on 28 February in a common year. */
  lemma MarchFirstBirthday(birthday: Date, today: Date)
    requires Valid(today) && birthday.month == 3 && birthday.day == 1
    requires today.month == 2 && today.day >= 27
    ensures var age := CompletedYears(birthday, Tomorrow(today).value);
      age == today.year - birthday.year - (if today.day < DaysInMonth(today.year, 2) then 1 else 0)
  {
  }
}
