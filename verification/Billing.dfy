/** Subscription periods: `periodEnd` of src/billing.ts over the Date of ECMA-262. */
module Billing {
  import opened Wrappers
  import opened Calendar

  datatype Period = Month | Year

  function Months(period: Period): int {
    if period == Month then 1 else 12
  }

  // ------------------------------------------------------------ Date (section 21.4)

  /** The largest time value, 10^8 days either side of 1970, in seconds. */
  const MAX_TIME := 8_640_000_000_000

  /** TimeClip; None is an invalid Date, whose every getter is NaN. */
  function TimeClip(t: int): Option<int> {
    if -MAX_TIME <= t <= MAX_TIME then Some(t) else None
  }

  /** MakeFullYear: Date.UTC reads the years 0 to 99 as 1900 to 1999. */
  function FullYear(year: int): int {
    if 0 <= year <= 99 then 1900 + year else year
  }

  /** Date.UTC, which carries months past December into the year. */
  function Utc(year: int, month: int, date: int, hours: int, minutes: int, seconds: int): Option<int> {
    TimeClip(At(12 * FullYear(year) + month, date, 3600 * hours + 60 * minutes + seconds))
  }

  /** setUTCDate, which takes the year as it stands. */
  function SetUtcDate(t: int, date: int): Option<int> {
    TimeClip(At(MonthOfTime(t), date, TimeOfDay(t)))
  }

  function MonthInYear(t: int): int { MonthOfTime(t) % 12 }
  function Hours(t: int): int { TimeOfDay(t) / 3600 }
  function Minutes(t: int): int { TimeOfDay(t) / 60 % 60 }
  function Seconds(t: int): int { TimeOfDay(t) % 60 }

  function Min(a: int, b: int): int { if a <= b then a else b }

  // ------------------------------------------------------------ the end of a period

  /** Plain calendar addition: the same day of the month that many months on, or that
      month's last day when it has no such day. */
  function AddMonths(t: int, n: int): int {
    var m := MonthOfTime(t) + n;
    At(m, Min(DateOf(t), MonthLength(m)), TimeOfDay(t))
  }

  /** August 275760: the last month whose every day a Date can hold. */
  const LAST_MONTH := 12 * 275760 + 7

  /** The month a period ends in, with the years 0 to 99 read as Date.UTC reads them. */
  function EndMonth(from: int, n: int): int {
    12 * FullYear(YearOf(from)) + MonthInYear(from) + n
  }

  /** What `periodEnd` returns, for every start; None is NaN. */
  function End(from: int, n: int): Option<int> {
    var m := EndMonth(from, n);
    if TimeClip(from).None? || m > LAST_MONTH then None
    else Some(At(m, Min(DateOf(from), MonthLength(m)), TimeOfDay(from)))
  }

  /** One month on: the next month, its same day or its last, at the same time of day, 28 to 31 whole days later. */
  predicate MonthOn(from: int, e: int) {
    && MonthOfTime(e) == MonthOfTime(from) + 1 && DateOf(e) == Min(DateOf(from), MonthLength(MonthOfTime(e)))
    && TimeOfDay(e) == TimeOfDay(from)
    && 28 * 86400 <= e - from <= 31 * 86400 && (e - from) % 86400 == 0
  }

  /** One year on: the same month of the next year, its same day or its last, 365 or 366 whole days later. */
  predicate YearOn(from: int, e: int) {
    && MonthOfTime(e) == MonthOfTime(from) + 12 && DateOf(e) == Min(DateOf(from), MonthLength(MonthOfTime(e)))
    && TimeOfDay(e) == TimeOfDay(from)
    && (e - from == 365 * 86400 || e - from == 366 * 86400)
  }

  /** What a period from a start is, by its name; starts that are not plain end where `End` says. */
  predicate IsPeriod(from: int, period: Period, end: Option<int>) {
    match period
    case Month => if Plain(from, 1) then end.Some? && MonthOn(from, end.value) else end == End(from, 1)
    case Year => if Plain(from, 12) then end.Some? && YearOn(from, end.value) else end == End(from, 12)
  }

  method PeriodEnd(from: int, period: Period) returns (end: Option<int>)
    ensures end == End(from, Months(period))
    ensures IsPeriod(from, period, end)
  {
    PeriodIs(from, period);
    hide MonthStart, MonthLength, MonthOf;
    var d := TimeClip(from);
    if d.None? {
      return None;
    }
    var months := Months(period);
    ClockAddsUp(from);
    var first := Utc(YearOf(from), MonthInYear(from) + months, 1, Hours(from), Minutes(from), Seconds(from));
    EndsLater(from, months, 1);
    LastMonthFits(EndMonth(from, months), 1, TimeOfDay(from));
    if first.None? {
      return None;
    }
    var target := first.value;
    AtReadsBack(EndMonth(from, months), 1, TimeOfDay(from));
    var lastDate := Utc(YearOf(target), MonthInYear(target) + 1, 0, 0, 0, 0);
    LastDateOfMonth(from, target, months);
    if lastDate.None? {
      return None;
    }
    var date := Min(DateOf(from), DateOf(lastDate.value));
    EndsLater(from, months, date);
    LastMonthFits(EndMonth(from, months), date, TimeOfDay(from));
    end := SetUtcDate(target, date);
  }

  /** The starts whose period is plain calendar addition, as `EndIsCalendarAddition` finds them. */
  predicate Plain(from: int, n: int) {
    -MAX_TIME <= from <= MAX_TIME && !(0 <= YearOf(from) <= 99) && MonthOfTime(from) + n <= LAST_MONTH
  }

  /** A month is one month and a year is twelve. */
  lemma PeriodIs(from: int, period: Period)
    ensures IsPeriod(from, period, End(from, Months(period)))
  {
    hide MonthStart, MonthLength, MonthOf, End, MonthOn, YearOn;
    if period == Month {
      EndIsCalendarAddition(from, 1);
      AddedMonth(from);
    } else {
      EndIsCalendarAddition(from, 12);
      AddedYear(from);
    }
  }

  lemma AddedMonth(from: int)
    ensures MonthOn(from, AddMonths(from, 1))
  {
    hide MonthStart, MonthLength, MonthOf;
    var m := MonthOfTime(from);
    MonthStartNext(m);
    ReadsBackAt(from);
    AtReadsBack(m + 1, Min(DateOf(from), MonthLength(m + 1)), TimeOfDay(from));
    var days := MonthLength(m) + Min(DateOf(from), MonthLength(m + 1)) - DateOf(from);
    assert AddMonths(from, 1) == from + days * 86400;
  }

  lemma AddedYear(from: int)
    ensures YearOn(from, AddMonths(from, 12))
  {
    hide MonthStart, MonthLength, MonthOf;
    var m := MonthOfTime(from);
    SameMonthNextYear(m);
    ReadsBackAt(from);
    AtReadsBack(m + 12, Min(DateOf(from), MonthLength(m + 12)), TimeOfDay(from));
    var days := MonthStart(m + 12) - MonthStart(m) + Min(DateOf(from), MonthLength(m + 12)) - DateOf(from);
    assert AddMonths(from, 12) == from + days * 86400;
  }

  /** Only a February can be shorter a year on, and the year to it then has its leap day. */
  lemma SameMonthNextYear(m: int)
    ensures 365 <= MonthStart(m + 12) - MonthStart(m) <= 366
    ensures MonthLength(m + 12) >= MonthLength(m) - 1
    ensures MonthLength(m + 12) < MonthLength(m) ==> MonthStart(m + 12) - MonthStart(m) == 366
  {
    hide YearStart;
    YearStartNext(m / 12);
    assert (m + 12) / 12 == m / 12 + 1 && (m + 12) % 12 == m % 12;
    LeapYearsApart(m / 12);
  }

  lemma LeapYearsApart(y: int)
    ensures !(LeapYear(y) && LeapYear(y + 1))
  {
  }

  lemma ClockAddsUp(t: int)
    ensures 3600 * Hours(t) + 60 * Minutes(t) + Seconds(t) == TimeOfDay(t)
  {
    var s := TimeOfDay(t);
    assert s / 60 / 60 == s / 3600;
  }

  /** Every candidate end lies after the start. */
  lemma EndsLater(from: int, n: int, date: int)
    requires n >= 1 && 1 <= date
    ensures At(EndMonth(from, n), date, TimeOfDay(from)) > from
  {
    hide MonthStart, MonthLength, MonthOf;
    MonthStartMonotone(MonthOfTime(from), EndMonth(from, n));
  }

  lemma LastMonthEnds()
    ensures MonthStart(LAST_MONTH + 1) + 12 == 100_000_000
    ensures MonthLength(LAST_MONTH + 1) == 30
  {
  }

  /** A month's days fit a Date up to August 275760; the first of September still fits. */
  lemma LastMonthFits(m: int, date: int, seconds: int)
    requires 1 <= date <= MonthLength(m) && 0 <= seconds < SECONDS_PER_DAY
    ensures m <= LAST_MONTH ==> At(m, date, seconds) <= MAX_TIME
    ensures m > LAST_MONTH + 1 ==> At(m, date, seconds) > MAX_TIME
  {
    hide MonthStart, MonthLength, MonthOf;
    LastMonthEnds();
    if m <= LAST_MONTH {
      MonthStartMonotone(m, LAST_MONTH + 1);
    } else if m > LAST_MONTH + 1 {
      MonthStartMonotone(LAST_MONTH + 1, m);
    }
  }

  /** The last day of the month the period ends in.  For starts in the year -1 it is read
      in the year 1900 instead of the year 0, which changes February alone, and only to a
      length no day of the February before reaches. */
  lemma LastDateOfMonth(from: int, target: int, n: int)
    requires n == 1 || n == 12
    requires target == At(EndMonth(from, n), 1, TimeOfDay(from)) >= -MAX_TIME
    ensures var last := Utc(YearOf(target), MonthInYear(target) + 1, 0, 0, 0, 0);
            var m := EndMonth(from, n);
            && (m <= LAST_MONTH ==> last.Some? && Min(DateOf(from), DateOf(last.value)) == Min(DateOf(from), MonthLength(m)))
            && (m == LAST_MONTH + 1 ==> last.None?)
  {
    hide MonthStart, MonthLength, MonthOf;
    var m := EndMonth(from, n);
    AtReadsBack(m, 1, TimeOfDay(from));
    var read := 12 * FullYear(YearOf(target)) + MonthInYear(target);
    LastDate(read, TimeOfDay(from));
    if m / 12 < 0 || m / 12 > 99 {
      assert read == m;
    } else {
      assert YearOf(from) == -1;
      assert m / 12 == 0 && read == 12 * 1900 + m;
      MonthStartMonotone(m, read);
      FebruaryOf1900(from, n);
    }
  }

  lemma LastDate(m: int, seconds: int)
    requires 0 <= seconds < SECONDS_PER_DAY
    ensures DateOf(At(m + 1, 0, 0)) == MonthLength(m)
    ensures At(m + 1, 0, 0) >= At(m, 1, seconds)
    ensures m <= LAST_MONTH ==> At(m + 1, 0, 0) <= MAX_TIME
    ensures m == LAST_MONTH + 1 ==> At(m + 1, 0, 0) > MAX_TIME
  {
    hide MonthStart, MonthLength, MonthOf;
    MonthStartNext(m);
    AtReadsBack(m, MonthLength(m), 0);
    LastMonthFits(m, MonthLength(m), 0);
    LastMonthEnds();
  }

  lemma FebruaryOf1900(from: int, n: int)
    requires n == 1 || n == 12
    requires YearOf(from) == -1 && EndMonth(from, n) / 12 == 0
    ensures var m := EndMonth(from, n);
            Min(DateOf(from), MonthLength(12 * 1900 + m)) == Min(DateOf(from), MonthLength(m))
  {
    hide MonthStart, MonthOf;
    var m := EndMonth(from, n);
    if m == 1 {
      assert MonthOfTime(from) == -11;
    } else {
      assert (12 * 1900 + m) % 12 == m % 12 == m;
    }
  }

  // ------------------------------------------------------------ when it is calendar addition

  /** `periodEnd` is calendar addition exactly when a Date holds the start and every day of
      the month it ends in, and the start's year is not one of 0 to 99. */
  lemma EndIsCalendarAddition(from: int, n: int)
    requires n >= 1
    ensures End(from, n) == Some(AddMonths(from, n)) <==>
            && -8_640_000_000_000 <= from <= 8_640_000_000_000
            && !(0 <= YearOf(from) <= 99)
            && MonthOfTime(from) + n <= 12 * 275760 + 7
  {
    hide MonthStart, MonthLength, MonthOf;
    var m := EndMonth(from, n);
    if 0 <= YearOf(from) <= 99 && End(from, n).Some? {
      var plain := MonthOfTime(from) + n;
      AtReadsBack(m, Min(DateOf(from), MonthLength(m)), TimeOfDay(from));
      AtReadsBack(plain, Min(DateOf(from), MonthLength(plain)), TimeOfDay(from));
    } else {
      assert !(0 <= YearOf(from) <= 99) ==> m == MonthOfTime(from) + n;
    }
  }

  lemma FirstCenturyFits()
    ensures MonthStart(12 * 50) == -701_265
  {
  }

  /** Midnight of 1 January of the year 50: one month on is in February 1950. */
  lemma FirstCenturyMovesTo1900()
    ensures var from := At(12 * 50, 1, 0);
            End(from, 1) == Some(At(12 * 1950 + 1, 1, 0)) && AddMonths(from, 1) == At(12 * 50 + 1, 1, 0)
  {
    hide MonthStart, MonthLength, MonthOf;
    AtReadsBack(12 * 50, 1, 0);
    LastMonthFits(12 * 50, 1, 0);
    assert YearOf(At(600, 1, 0)) == 50;
    assert At(600, 1, 0) >= -MAX_TIME by { FirstCenturyFits(); }
  }
}
