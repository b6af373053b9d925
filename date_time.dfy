/**
 * The user age of 3_ecosystem/3_3_date_time/src/main.rs: a user born on a
 * proleptic Gregorian date, its age in whole years at the fixed date
 * 2019-06-26 and whether it is an adult. The calendar of the chrono crate
 * (`NaiveDate::from_ymd_opt` and `NaiveDate::years_since`) is written out
 * here.
 */
module DateTime {
  import opened Wrappers

  type I32 = x: int | -0x8000_0000 <= x < 0x8000_0000
  type U32 = x: int | 0 <= x < 0x1_0000_0000

  /**
   * The year range of NaiveDate in the chrono 0.4 releases that bound it by
   * the 32-bit year shifted right by 13 bits (later releases give up one
   * year at each end).
   */
  const MIN_YEAR: int := -262144
  const MAX_YEAR: int := 262143

  datatype Date = Date(year: int, month: int, day: int)

  /** Gregorian leap years: divisible by 4, and not by 100 unless by 400. */
  predicate IsLeapYear(y: int) {
    y % 4 == 0 && (y % 100 != 0 || y % 400 == 0)
  }

  function DaysInMonth(y: int, m: int): int
    requires 1 <= m <= 12
  {
    if m == 2 then (if IsLeapYear(y) then 29 else 28)
    else if m == 4 || m == 6 || m == 9 || m == 11 then 30
    else 31
  }

  /** The dates `from_ymd_opt` accepts: a year in range, a month of the year and a day of that month. */
  predicate IsValidDate(d: Date) {
    MIN_YEAR <= d.year <= MAX_YEAR && 1 <= d.month <= 12 && 1 <= d.day <= DaysInMonth(d.year, d.month)
  }

  /** `d1` is on or before `d2`: the dates ordered by year, then month, then day. */
  predicate OnOrBefore(d1: Date, d2: Date) {
    d1.year < d2.year
    || (d1.year == d2.year && (d1.month < d2.month || (d1.month == d2.month && d1.day <= d2.day)))
  }

  /** NOW, which the program parses from "2019-06-26". */
  const NOW: Date := Date(2019, 6, 26)

  lemma NowIsValid()
    ensures IsValidDate(NOW)
  {
  }

  datatype User = User(birthDate: Date)

  /** User::with_birthdate: None where the program panics on a date `from_ymd_opt` refuses. */
  function WithBirthdate(year: I32, month: U32, day: U32): (r: Option<User>)
    ensures r.Some? <==> IsValidDate(Date(year, month, day))
    ensures r.Some? ==> r.value.birthDate == Date(year, month, day)
  {
    var d := Date(year, month, day);
    if MIN_YEAR <= year <= MAX_YEAR && 1 <= month <= 12 && 1 <= day <= DaysInMonth(year, month) then Some(User(d))
    else None
  }

  /** The month and day packed as chrono compares them: the month shifted left by five bits, or-ed with the day. */
  function MonthDay(d: Date): int
    requires 1 <= d.day < 32 && d.month >= 0
  {
    d.month * 32 + d.day
  }

  /** For days below 32 the packed comparison is the comparison of (month, day) pairs. */
  lemma MonthDayOrder(a: Date, b: Date)
    requires 1 <= a.day < 32 && 1 <= b.day < 32 && a.month >= 0 && b.month >= 0
    ensures MonthDay(a) < MonthDay(b) <==> a.month < b.month || (a.month == b.month && a.day < b.day)
  {
    if a.month < b.month {
      assert a.month * 32 + 32 <= b.month * 32;
    } else if a.month > b.month {
      assert b.month * 32 + 32 <= a.month * 32;
    }
  }

  /**
   * NaiveDate::years_since: the difference of the years, less one when the
   * month and day of `now` come before those of `base`; None when that is
   * negative.
   */
  function YearsSince(now: Date, base: Date): (r: Option<U32>)
    requires IsValidDate(now) && IsValidDate(base)
    ensures r.Some? <==> OnOrBefore(base, now)
    ensures r.Some? ==> OnOrBefore(Date(base.year + r.value, base.month, base.day), now)
    ensures r.Some? ==> !OnOrBefore(Date(base.year + r.value + 1, base.month, base.day), now)
  {
    MonthDayOrder(now, base);
    var years := now.year - base.year - (if MonthDay(now) < MonthDay(base) then 1 else 0);
    if years >= 0 then Some(years) else None
  }

  /** User::age: the whole years since birth at NOW, 0 for a birth date after NOW. */
  function Age(u: User): (r: U32)
    requires IsValidDate(u.birthDate)
    ensures OnOrBefore(NOW, u.birthDate) && u.birthDate != NOW ==> r == 0
  {
    match YearsSince(NOW, u.birthDate)
    case Some(years) => years
    case None => 0
  }

  /** User::is_adult. */
  predicate IsAdult(u: User)
    requires IsValidDate(u.birthDate)
  {
    Age(u) >= 18
  }

  /** An adult is a user whose 18th birthday, as month and day of the year, is not after NOW. */
  lemma IsAdultIff(u: User)
    requires IsValidDate(u.birthDate)
    ensures IsAdult(u) <==> OnOrBefore(Date(u.birthDate.year + 18, u.birthDate.month, u.birthDate.day), NOW)
  {
    var b := u.birthDate;
    if OnOrBefore(b, NOW) {
      var n := YearsSince(NOW, b).value;
      assert OnOrBefore(Date(b.year + n, b.month, b.day), NOW);
      assert !OnOrBefore(Date(b.year + n + 1, b.month, b.day), NOW);
    }
  }

  /** The age is the count of whole years lived: the last birthday is not after NOW and the next one is. */
  lemma AgeIsWholeYears(u: User)
    requires IsValidDate(u.birthDate) && OnOrBefore(u.birthDate, NOW)
    ensures OnOrBefore(Date(u.birthDate.year + Age(u), u.birthDate.month, u.birthDate.day), NOW)
    ensures !OnOrBefore(Date(u.birthDate.year + Age(u) + 1, u.birthDate.month, u.birthDate.day), NOW)
  {
  }

  /** February 29 is a date exactly in leap years. */
  lemma LeapDay(y: int)
    requires MIN_YEAR <= y <= MAX_YEAR
    ensures IsValidDate(Date(y, 2, 29)) <==> IsLeapYear(y)
  {
  }

  /** The tests that expect a panic: year 300000, month 13, February 29 of 2023. */
  lemma InvalidBirthdates()
    ensures WithBirthdate(300000, 1, 1) == None
    ensures WithBirthdate(2023, 13, 1) == None
    ensures WithBirthdate(2023, 2, 29) == None
  {
  }

  /** The test counts_age. */
  lemma CountsAge()
    ensures Age(User(Date(1990, 6, 4))) == 29
    ensures Age(User(Date(1990, 7, 4))) == 28
    ensures Age(User(Date(0, 1, 1))) == 2019
    ensures Age(User(Date(1970, 1, 1))) == 49
    ensures Age(User(Date(2019, 6, 25))) == 0
  {
  }

  /** The test zero_if_birthdate_in_future. */
  lemma ZeroIfBirthdateInFuture()
    ensures Age(User(Date(2032, 6, 25))) == 0
    ensures Age(User(Date(3000, 6, 27))) == 0
    ensures Age(User(Date(9999, 6, 27))) == 0
  {
  }

  /** The three is_adult tests: born 2001-06-27 is not an adult; born 2001-06-25 or 2001-06-26 is. */
  lemma AdultTests()
    ensures !IsAdult(User(Date(2001, 6, 27)))
    ensures IsAdult(User(Date(2001, 6, 25)))
    ensures IsAdult(User(Date(2001, 6, 26)))
  {
  }
}
