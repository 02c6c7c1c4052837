/** The UTC calendar of section 21.4.1 of ECMA-262, in whole seconds.

    A month is numbered by `12 * year + month`, month counted from 0, so that adding
    months is adding integers.  Every division here has a positive divisor and so
    rounds towards minus infinity, as the `floor` of the standard does. */
module Calendar {
  const SECONDS_PER_DAY := 86400

  // ------------------------------------------------------------ years and months

  /** DayFromYear: the day number of 1 January. */
  function YearStart(y: int): int {
    365 * (y - 1970) + (y - 1969) / 4 - (y - 1901) / 100 + (y - 1601) / 400
  }

  predicate LeapYear(y: int) {
    y % 4 == 0 && (y % 100 != 0 || y % 400 == 0)
  }

  function DaysInYear(y: int): int {
    if LeapYear(y) then 366 else 365
  }

  lemma YearStartNext(y: int)
    ensures YearStart(y + 1) == YearStart(y) + DaysInYear(y)
  {
    Leaps4(y);
    Leaps100(y);
    Leaps400(y);
  }

  lemma Leaps4(y: int)
    ensures (y - 1968) / 4 == (y - 1969) / 4 + (if y % 4 == 0 then 1 else 0)
  {
  }

  lemma Leaps100(y: int)
    ensures (y - 1900) / 100 == (y - 1901) / 100 + (if y % 100 == 0 then 1 else 0)
    ensures y % 100 == 0 ==> y % 4 == 0
  {
    var q, r := y / 100, y % 100;
    assert y - 1900 == 100 * (q - 19) + r;
    assert y - 1901 == if r == 0 then 100 * (q - 20) + 99 else 100 * (q - 19) + r - 1;
    assert y == 4 * (25 * q) + r;
  }

  lemma Leaps400(y: int)
    ensures (y - 1600) / 400 == (y - 1601) / 400 + (if y % 400 == 0 then 1 else 0)
    ensures y % 400 == 0 ==> y % 100 == 0
  {
    var q, r := y / 400, y % 400;
    assert y - 1600 == 400 * (q - 4) + r;
    assert y - 1601 == if r == 0 then 400 * (q - 5) + 399 else 400 * (q - 4) + r - 1;
    assert y == 100 * (4 * q) + r;
  }

  /** The days of the year before the month, months counted from 0. */
  function DaysBefore(leap: bool, month: int): int
    requires 0 <= month <= 11
  {
    [0, 31, 59, 90, 120, 151, 181, 212, 243, 273, 304, 334][month] + (if leap && month >= 2 then 1 else 0)
  }

  /** The day number of the first day of a month: MakeDay(year, month, 1). */
  function MonthStart(m: int): int {
    YearStart(m / 12) + DaysBefore(LeapYear(m / 12), m % 12)
  }

  function MonthLength(m: int): (r: int)
    ensures 28 <= r <= 31
  {
    var month := m % 12;
    if month == 1 then (if LeapYear(m / 12) then 29 else 28)
    else if month == 3 || month == 5 || month == 8 || month == 10 then 30
    else 31
  }

  lemma MonthStartNext(m: int)
    ensures MonthStart(m + 1) == MonthStart(m) + MonthLength(m)
  {
    hide YearStart, LeapYear;
    YearStartNext(m / 12);
    if m % 12 == 11 {
      assert (m + 1) / 12 == m / 12 + 1 && (m + 1) % 12 == 0;
    } else {
      assert (m + 1) / 12 == m / 12 && (m + 1) % 12 == m % 12 + 1;
    }
  }

  lemma {:induction false} MonthsApart(m: int, n: int)
    requires m <= n
    ensures 28 * (n - m) <= MonthStart(n) - MonthStart(m) <= 31 * (n - m)
    decreases n - m
  {
    hide *;
    if m < n {
      MonthStartNext(n - 1);
      MonthsApart(m, n - 1);
    }
  }

  lemma MonthStartMonotone(m: int, n: int)
    requires m <= n
    ensures MonthStart(m) <= MonthStart(n)
    ensures m < n ==> MonthStart(m) + MonthLength(m) <= MonthStart(n)
  {
    MonthsApart(m, n);
    if m < n {
      MonthStartNext(m);
      MonthsApart(m + 1, n);
    }
  }

  /** The same day number from a year that starts in March: 153 days to every five months, and the leap day last. */
  function CivilDay(year: int, month: int): int {
    var y := if month < 2 then year - 1 else year;
    365 * y + y / 4 - y / 100 + y / 400 + (153 * ((month + 10) % 12) + 2) / 5 - 719_468
  }

  /** Every month, of every year, starts where that formula says. */
  lemma MonthStartIsCivil(year: int, month: int)
    requires 0 <= month < 12
    ensures MonthStart(12 * year + month) == CivilDay(year, month)
  {
    hide YearStart, LeapYear;
    assert (12 * year + month) / 12 == year && (12 * year + month) % 12 == month;
    if month < 2 {
      YearStartIsCivil(year);
      assert (153 * ((month + 10) % 12) + 2) / 5 == 306 + 31 * month;
    } else {
      YearStartIsCivil(year + 1);
      YearStartNext(year);
      MarchMonths(month);
    }
  }

  lemma MarchMonths(month: int)
    requires 2 <= month < 12
    ensures (153 * ((month + 10) % 12) + 2) / 5 == DaysBefore(false, month) - 59
  {
  }

  lemma YearStartIsCivil(year: int)
    ensures YearStart(year) == 365 * (year - 1) + (year - 1) / 4 - (year - 1) / 100 + (year - 1) / 400 + 306 - 719_468
  {
    var y := year - 1;
    assert (year - 1969) / 4 == (y - 4 * 492) / 4 == y / 4 - 492;
    assert (year - 1901) / 100 == (y - 100 * 19) / 100 == y / 100 - 19;
    assert (year - 1601) / 400 == (y - 400 * 4) / 400 == y / 400 - 4;
  }

  // ------------------------------------------------------------ reading a time value

  /** The month that holds a day: YearFromTime and MonthFromTime together. */
  function MonthOf(day: int): (m: int)
    ensures MonthStart(m) <= day < MonthStart(m) + MonthLength(m)
  {
    MonthFrom(12 * 1970 + day / 31, day)
  }

  function MonthFrom(m: int, day: int): (r: int)
    ensures MonthStart(r) <= day < MonthStart(r) + MonthLength(r)
    decreases if day < MonthStart(m) then MonthStart(m) - day
              else if MonthStart(m + 1) <= day then day - MonthStart(m) else 0
  {
    hide *;
    MonthStartNext(m - 1);
    MonthStartNext(m);
    MonthStartNext(m + 1);
    if day < MonthStart(m) then MonthFrom(m - 1, day)
    else if MonthStart(m + 1) <= day then MonthFrom(m + 1, day)
    else m
  }

  lemma MonthIsUnique(day: int, m: int)
    requires MonthStart(m) <= day < MonthStart(m) + MonthLength(m)
    ensures MonthOf(day) == m
  {
    var r := MonthOf(day);
    if r < m {
      MonthStartMonotone(r, m);
    } else if m < r {
      MonthStartMonotone(m, r);
    }
  }

  function DayOf(t: int): int { t / SECONDS_PER_DAY }
  function TimeOfDay(t: int): int { t % SECONDS_PER_DAY }
  function MonthOfTime(t: int): int { MonthOf(DayOf(t)) }
  function YearOf(t: int): int { MonthOfTime(t) / 12 }

  /** The day of the month, counted from 1. */
  function DateOf(t: int): (d: int)
    ensures 1 <= d <= MonthLength(MonthOfTime(t)) <= 31
  {
    DayOf(t) - MonthStart(MonthOfTime(t)) + 1
  }

  /** The second that a month, a day of it and a time of day name. */
  function At(m: int, date: int, seconds: int): int {
    (MonthStart(m) + date - 1) * SECONDS_PER_DAY + seconds
  }

  /** Reading a time value undoes writing it. */
  lemma AtReadsBack(m: int, date: int, seconds: int)
    requires 1 <= date <= MonthLength(m) && 0 <= seconds < SECONDS_PER_DAY
    ensures var t := At(m, date, seconds);
            MonthOfTime(t) == m && DateOf(t) == date && TimeOfDay(t) == seconds
  {
    hide MonthStart, MonthLength, MonthOf;
    MonthIsUnique(MonthStart(m) + date - 1, m);
  }

  /** Writing what was read gives the time value back. */
  lemma ReadsBackAt(t: int)
    ensures At(MonthOfTime(t), DateOf(t), TimeOfDay(t)) == t
  {
  }

  /** Later months are later times, whatever the day and the time of day. */
  lemma AtIsMonotone(m: int, date: int, seconds: int, m': int, date': int, seconds': int)
    requires 1 <= date <= MonthLength(m) && 0 <= seconds < SECONDS_PER_DAY
    requires 1 <= date' <= MonthLength(m') && 0 <= seconds' < SECONDS_PER_DAY
    requires At(m, date, seconds) <= At(m', date', seconds')
    ensures m <= m'
    ensures m == m' ==> date <= date'
    ensures m == m' && date == date' ==> seconds <= seconds'
  {
    if m > m' {
      MonthStartMonotone(m', m);
    }
  }

  /** A time is that day number in seconds of 86400 a day. */
  lemma AtIsCivil(year: int, month: int, date: int, seconds: int)
    requires 0 <= month < 12
    ensures At(12 * year + month, date, seconds) == (CivilDay(year, month) + date - 1) * 86400 + seconds
  {
    hide MonthStart, CivilDay;
    MonthStartIsCivil(year, month);
  }
}
