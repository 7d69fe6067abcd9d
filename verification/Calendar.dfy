/** Calendar time of a UNIX timestamp. */
module Calendar {
  import opened Bytes

  datatype DateTime =
    DateTime(year: nat, month: nat, day: nat, hour: nat, minute: nat, second: nat, millisecond: u64)

  predicate IsLeapYear(year: nat) {
    (year % 4 == 0 && year % 100 != 0) || year % 400 == 0
  }

  function DaysInYear(year: nat): nat { if IsLeapYear(year) then 366 else 365 }

  /** 0 outside 1..12. */
  function DaysInMonth(year: nat, month: nat): nat {
    match month
    case 1 => 31
    case 2 => if IsLeapYear(year) then 29 else 28
    case 3 => 31
    case 4 => 30
    case 5 => 31
    case 6 => 30
    case 7 => 31
    case 8 => 31
    case 9 => 30
    case 10 => 31
    case 11 => 30
    case 12 => 31
    case _ => 0
  }

  // ----- the forward count -----

  /** Days from the epoch to the first of January of `year`. */
  function DaysBeforeYear(year: nat): nat
    requires year >= 1970
  {
    if year == 1970 then 0 else DaysBeforeYear(year - 1) + DaysInYear(year - 1)
  }

  /** Days from the first of January to the first of `month`. */
  function DaysBeforeMonth(year: nat, month: nat): nat
    requires 1 <= month <= 13
  {
    if month == 1 then 0 else DaysBeforeMonth(year, month - 1) + DaysInMonth(year, month - 1)
  }

  /** A date of the Gregorian calendar, from 1970 on. */
  predicate Valid(d: DateTime) {
    && d.year >= 1970 && 1 <= d.month <= 12 && 1 <= d.day <= DaysInMonth(d.year, d.month)
    && d.hour < 24 && d.minute < 60 && d.second < 60
  }

  function ToDays(d: DateTime): nat
    requires Valid(d)
  {
    DaysBeforeYear(d.year) + DaysBeforeMonth(d.year, d.month) + (d.day - 1)
  }

  function ToSeconds(d: DateTime): nat
    requires Valid(d)
  {
    86400 * ToDays(d) + 3600 * d.hour + 60 * d.minute + d.second
  }

  /** The months of a year add up to the year, so the month loop ends in December at the latest. */
  lemma MonthsFillTheYear(year: nat)
    ensures DaysBeforeMonth(year, 13) == DaysInYear(year)
  {
    assert DaysBeforeMonth(year, 2) == 31;
    assert DaysBeforeMonth(year, 3) == 31 + DaysInMonth(year, 2);
    assert DaysBeforeMonth(year, 5) == DaysBeforeMonth(year, 3) + 61;
    assert DaysBeforeMonth(year, 7) == DaysBeforeMonth(year, 5) + 61;
    assert DaysBeforeMonth(year, 9) == DaysBeforeMonth(year, 7) + 62;
    assert DaysBeforeMonth(year, 11) == DaysBeforeMonth(year, 9) + 61;
    assert DaysBeforeMonth(year, 13) == DaysBeforeMonth(year, 11) + 61;
  }

  lemma {:induction false} MonthsGrow(year: nat, m: nat, n: nat)
    requires 1 <= m <= n <= 13
    ensures DaysBeforeMonth(year, m) + (if m < n then DaysInMonth(year, m) else 0)
            <= DaysBeforeMonth(year, n)
  {
    if m < n { MonthsGrow(year, m, n - 1); }
  }

  lemma {:induction false} YearsGrow(y: nat, z: nat)
    requires 1970 <= y <= z
    ensures DaysBeforeYear(y) + (if y < z then DaysInYear(y) else 0) <= DaysBeforeYear(z)
  {
    if y < z { YearsGrow(y, z - 1); }
  }

  /** The calendar of a timestamp: a valid date whose forward count is that timestamp. */
  method UnixToDateTime(unixSeconds: u64, unixMillis: u64) returns (d: DateTime)
    ensures Valid(d) && ToSeconds(d) == unixSeconds && d.millisecond == unixMillis
  {
    var daysSinceEpoch: nat := unixSeconds / 86400;
    var secondsInDay := unixSeconds % 86400;
    var hour := secondsInDay / 3600;
    var minute := secondsInDay % 3600 / 60;
    var second := secondsInDay % 60;
    assert secondsInDay == 3600 * hour + 60 * minute + second;
    ghost var total := daysSinceEpoch;

    var year: nat := 1970;
    while daysSinceEpoch >= DaysInYear(year)
      invariant year >= 1970 && total == DaysBeforeYear(year) + daysSinceEpoch
    {
      daysSinceEpoch := daysSinceEpoch - DaysInYear(year);
      year := year + 1;
    }

    var month: nat := 1;
    MonthsFillTheYear(year);
    ghost var inYear := daysSinceEpoch;
    while daysSinceEpoch >= DaysInMonth(year, month)
      invariant 1 <= month <= 12 && inYear < DaysBeforeMonth(year, 13)
      invariant inYear == DaysBeforeMonth(year, month) + daysSinceEpoch
    {
      daysSinceEpoch := daysSinceEpoch - DaysInMonth(year, month);
      month := month + 1;
      MonthsGrow(year, month, 13);
    }

    d := DateTime(year, month, daysSinceEpoch + 1, hour, minute, second, unixMillis);
  }

  // ----- what the conversion promises -----

  /** Earlier in the calendar, to the second. */
  predicate Earlier(a: DateTime, b: DateTime) {
    a.year < b.year || (a.year == b.year &&
    (a.month < b.month || (a.month == b.month &&
    (a.day < b.day || (a.day == b.day &&
    (a.hour < b.hour || (a.hour == b.hour &&
    (a.minute < b.minute || (a.minute == b.minute && a.second < b.second)))))))))
  }

  predicate EarlierDay(a: DateTime, b: DateTime) {
    a.year < b.year || (a.year == b.year &&
    (a.month < b.month || (a.month == b.month && a.day < b.day)))
  }

  lemma DaysAreOrdered(a: DateTime, b: DateTime)
    requires Valid(a) && Valid(b) && EarlierDay(a, b)
    ensures ToDays(a) < ToDays(b)
  {
    if a.year < b.year {
      MonthsGrow(a.year, a.month, 13);
      MonthsFillTheYear(a.year);
      YearsGrow(a.year, b.year);
    } else if a.month < b.month {
      MonthsGrow(a.year, a.month, b.month);
    }
  }

  /** The calendar is strictly monotone in the timestamp, in both directions. With the method's
      contract it follows that a timestamp has one date and a date one timestamp. */
  lemma CalendarIsMonotone(a: DateTime, b: DateTime)
    requires Valid(a) && Valid(b)
    ensures ToSeconds(a) < ToSeconds(b) <==> Earlier(a, b)
  {
    if EarlierDay(a, b) { DaysAreOrdered(a, b); }
    else if EarlierDay(b, a) { DaysAreOrdered(b, a); }
  }

  /** Two valid dates of the same second are the same date. */
  lemma DateIsUnique(a: DateTime, b: DateTime)
    requires Valid(a) && Valid(b) && ToSeconds(a) == ToSeconds(b)
    ensures a == b.(millisecond := a.millisecond)
  {
    CalendarIsMonotone(a, b);
    CalendarIsMonotone(b, a);
  }

  lemma Fours(y: nat)
    requires y >= 1970
    ensures (y - 1968) / 4 == (y - 1969) / 4 + if y % 4 == 0 then 1 else 0
  {
  }

  lemma Hundreds(y: nat)
    requires y >= 1970
    ensures (y - 1900) / 100 == (y - 1901) / 100 + if y % 100 == 0 then 1 else 0
  {
  }

  lemma FourHundreds(y: nat)
    requires y >= 1970
    ensures (y - 1600) / 400 == (y - 1601) / 400 + if y % 400 == 0 then 1 else 0
  {
  }

  /** The forward count of years is the one of POSIX.1-2017, Base Definitions, section 4.16, with
      `tm_year` written as `year - 1900`. */
  lemma {:induction false} PosixYears(year: nat)
    requires year >= 1970
    ensures DaysBeforeYear(year) ==
            365 * (year - 1970) + (year - 1969) / 4 - (year - 1901) / 100 + (year - 1601) / 400
  {
    if year > 1970 {
      var y := year - 1;
      PosixYears(y);
      Fours(y);
      Hundreds(y);
      FourHundreds(y);
      Multiples(y);
    }
  }

  lemma Multiples(y: nat)
    ensures y % 400 == 0 ==> y % 100 == 0
    ensures y % 100 == 0 ==> y % 4 == 0
  {
    if y % 400 == 0 { assert y == 100 * (4 * (y / 400)); }
    if y % 100 == 0 { assert y == 4 * (25 * (y / 100)); }
  }

  /** The months of the Gregorian calendar. */
  lemma MonthsAre(year: nat, month: nat)
    requires 1 <= month <= 12
    ensures DaysInMonth(year, month) ==
            if month in {4, 6, 9, 11} then 30
            else if month != 2 then 31
            else if year % 400 == 0 || (year % 4 == 0 && year % 100 != 0) then 29 else 28
  {
  }

  /** The days before a month, in closed form. */
  lemma DaysBeforeMonthIs(year: nat, month: nat)
    requires 1 <= month <= 12
    ensures DaysBeforeMonth(year, month) ==
            (367 * month - 362) / 12 -
            if month <= 2 then 0
            else if year % 400 == 0 || (year % 4 == 0 && year % 100 != 0) then 1 else 2
  {
    MonthsFillTheYear(year);
    assert DaysBeforeMonth(year, 2) == 31;
    assert DaysBeforeMonth(year, 3) == 31 + DaysInMonth(year, 2);
    assert DaysBeforeMonth(year, 5) == DaysBeforeMonth(year, 3) + 61;
    assert DaysBeforeMonth(year, 7) == DaysBeforeMonth(year, 5) + 61;
    assert DaysBeforeMonth(year, 9) == DaysBeforeMonth(year, 7) + 62;
    assert DaysBeforeMonth(year, 11) == DaysBeforeMonth(year, 9) + 61;
  }

  /** A date's timestamp in closed form: the formula of POSIX.1-2017, Base Definitions, section 4.16, the day of
      the year written out. */
  lemma PosixTime(d: DateTime)
    requires Valid(d)
    ensures ToSeconds(d) ==
            86400 * (365 * (d.year - 1970) + (d.year - 1969) / 4 - (d.year - 1901) / 100 + (d.year - 1601) / 400
                     + (367 * d.month - 362) / 12
                     - (if d.month <= 2 then 0
                        else if d.year % 400 == 0 || (d.year % 4 == 0 && d.year % 100 != 0) then 1 else 2)
                     + d.day - 1)
            + 3600 * d.hour + 60 * d.minute + d.second
  {
    PosixYears(d.year);
    DaysBeforeMonthIs(d.year, d.month);
    hide DaysBeforeYear;
    hide DaysBeforeMonth;
  }
}
