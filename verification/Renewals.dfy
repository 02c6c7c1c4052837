/** What `periodEnd` promises over whole subscriptions: lengths, order and renewals. */
module Renewals {
  import opened Wrappers
  import opened Calendar
  import opened Billing

  // ------------------------------------------------------------ how long a period lasts

  predicate Lasts(from: int, n: int, days: int) { End(from, n) == Some(from + days * 86400) }

  /** One month is 28 to 31 days, for exactly those starts: the others end 1900 years on or not at all. */
  lemma MonthLasts(from: int)
    ensures (exists days :: 28 <= days <= 31 && Lasts(from, 1, days)) <==> Plain(from, 1)
  {
    hide MonthStart, MonthLength, MonthOf, End, AddMonths;
    EndIsCalendarAddition(from, 1);
    if Plain(from, 1) {
      AddedMonth(from);
      assert Lasts(from, 1, (AddMonths(from, 1) - from) / 86400);
    } else {
      EndsFarAway(from, 1);
    }
  }

  /** One year is 365 or 366 days, for exactly those starts. */
  lemma YearLasts(from: int)
    ensures (exists days :: 365 <= days <= 366 && Lasts(from, 12, days)) <==> Plain(from, 12)
  {
    hide MonthStart, MonthLength, MonthOf, End, AddMonths;
    EndIsCalendarAddition(from, 12);
    if Plain(from, 12) {
      AddedYear(from);
      assert Lasts(from, 12, (AddMonths(from, 12) - from) / 86400);
    } else {
      EndsFarAway(from, 12);
    }
  }

  /** Any other start ends more than a year on, if at all. */
  lemma EndsFarAway(from: int, n: int)
    requires n >= 1 && !Plain(from, n)
    ensures End(from, n).Some? ==> End(from, n).value > from + 366 * SECONDS_PER_DAY
  {
    hide MonthStart, MonthLength, MonthOf;
    if End(from, n).Some? {
      var m, e := MonthOfTime(from), EndMonth(from, n);
      EndMonthOf(from, n);
      MonthsApart(m + 1, e);
      MonthStartNext(m);
      ReadsBackAt(from);
    }
  }

  /** The day of the month a period ends on. */
  function CutDate(from: int, n: int): int { Min(DateOf(from), MonthLength(EndMonth(from, n))) }

  /** Ends are in the order of the months, days and times of day that are read from their starts. */
  lemma EndsInOrder(a: int, b: int, n: int)
    requires n >= 1 && End(a, n).Some? && End(b, n).Some?
    ensures DayOf(End(a, n).value) <= DayOf(End(b, n).value) <==>
            EndMonth(a, n) < EndMonth(b, n) || (EndMonth(a, n) == EndMonth(b, n) && CutDate(a, n) <= CutDate(b, n))
    ensures End(a, n).value < End(b, n).value <==>
            || EndMonth(a, n) < EndMonth(b, n)
            || (EndMonth(a, n) == EndMonth(b, n)
                && (CutDate(a, n) < CutDate(b, n) || (CutDate(a, n) == CutDate(b, n) && TimeOfDay(a) < TimeOfDay(b))))
  {
    hide MonthStart, MonthLength, MonthOf, EndMonth;
    var m, m' := EndMonth(a, n), EndMonth(b, n);
    AtReadsBack(m, CutDate(a, n), TimeOfDay(a));
    AtReadsBack(m', CutDate(b, n), TimeOfDay(b));
    if m < m' {
      MonthStartMonotone(m, m');
    } else if m' < m {
      MonthStartMonotone(m', m);
    }
  }

  /** The earlier start is in a year that Date.UTC moves by 1900 years, the later one is not and is not
      that far on, by month and day. */
  predicate Overtaken(from: int, later: int, n: int) {
    && 0 <= YearOf(from) <= 99 < YearOf(later)
    && (|| MonthOfTime(later) < MonthOfTime(from) + 12 * 1900
        || (MonthOfTime(later) == MonthOfTime(from) + 12 * 1900
            && Min(DateOf(later), MonthLength(MonthOfTime(later) + n)) < Min(DateOf(from), MonthLength(MonthOfTime(later) + n))))
  }

  /** A later start never ends on an earlier day, so never a full day or more earlier, except for exactly
      the pairs that are overtaken. */
  lemma LaterStartsEndLater(from: int, later: int, n: int)
    requires n >= 1 && from <= later && End(from, n).Some? && End(later, n).Some?
    ensures var e, e' := End(from, n).value, End(later, n).value;
            && (DayOf(e) <= DayOf(e') <==> !Overtaken(from, later, n))
            && (!Overtaken(from, later, n) ==> e' > e - SECONDS_PER_DAY)
  {
    hide MonthStart, MonthLength, MonthOf, EndMonth, End, Overtaken;
    EndsInOrder(from, later, n);
    StartsInOrder(from, later, n);
  }

  lemma StartsInOrder(from: int, later: int, n: int)
    requires from <= later
    ensures Overtaken(from, later, n) <==>
            !(EndMonth(from, n) < EndMonth(later, n) || (EndMonth(from, n) == EndMonth(later, n) && CutDate(from, n) <= CutDate(later, n)))
  {
    hide MonthStart, MonthLength, MonthOf, EndMonth;
    ReadsBackAt(from);
    ReadsBackAt(later);
    AtIsMonotone(MonthOfTime(from), DateOf(from), TimeOfDay(from), MonthOfTime(later), DateOf(later), TimeOfDay(later));
    EndMonthOf(from, n);
    EndMonthOf(later, n);
  }

  /** It ends earlier on the same day only when both are cut back to the last day of a month, or when the
      earlier start is moved by 1900 years and the later one is not. */
  lemma EarlierOnlyWithinTheLastDay(from: int, later: int, n: int)
    requires n >= 1 && from <= later && End(from, n).Some? && End(later, n).Some? && !Overtaken(from, later, n)
    requires !(0 <= YearOf(from) <= 99 < YearOf(later)) && End(later, n).value < End(from, n).value
    ensures CutDate(from, n) == CutDate(later, n) == MonthLength(EndMonth(from, n)) && EndMonth(from, n) == EndMonth(later, n)
  {
    hide MonthStart, MonthLength, MonthOf, EndMonth, End;
    EndsInOrder(from, later, n);
    EndsInOrder(later, from, n);
    ReadsBackAt(from);
    ReadsBackAt(later);
    AtIsMonotone(MonthOfTime(from), DateOf(from), TimeOfDay(from), MonthOfTime(later), DateOf(later), TimeOfDay(later));
    EndMonthOf(from, n);
    EndMonthOf(later, n);
  }

  /** Such a pair: one month from 1 January of the year 99 ends after one month from 1 January of the year 100. */
  lemma YearNinetyNineIsOvertaken()
    ensures Overtaken(At(12 * 99, 1, 0), At(12 * 100, 1, 0), 1)
  {
    hide MonthStart, MonthLength, MonthOf;
    AtReadsBack(12 * 99, 1, 0);
    AtReadsBack(12 * 100, 1, 0);
  }

  // ------------------------------------------------------------ renewing back to back

  /** The end after `k` periods, each paid for when the one before ends. */
  function Renew(from: int, n: int, k: nat): Option<int> {
    if k == 0 then TimeClip(from)
    else
      var before := Renew(from, n, k - 1);
      if before.None? then None else End(before.value, n)
  }

  /** The least of a day of the month and the lengths of the `k` months passed through. */
  function LeastDate(date: int, m: int, n: int, k: nat): int {
    if k == 0 then date else Min(LeastDate(date, m, n, k - 1), MonthLength(m + n * k))
  }

  lemma {:induction false} LeastDateIsLeast(date: int, m: int, n: int, k: nat)
    ensures LeastDate(date, m, n, k) <= date
    ensures forall j :: 1 <= j <= k ==> LeastDate(date, m, n, k) <= MonthLength(m + n * j)
    ensures LeastDate(date, m, n, k) == date
            || exists j :: 1 <= j <= k && LeastDate(date, m, n, k) == MonthLength(m + n * j)
  {
    hide MonthLength;
    if k > 0 {
      LeastDateIsLeast(date, m, n, k - 1);
    }
  }

  /** No period of the run starts in a year Date.UTC reads as another. */
  predicate AvoidsFirstCentury(m: int, n: int, k: nat) {
    k == 0 || m >= 12 * 100 || m + n * (k - 1) < 0
  }

  lemma {:induction false} LeastDateFits(date: int, m: int, n: int, k: nat)
    requires 1 <= date <= MonthLength(m)
    ensures Min(date, 28) <= LeastDate(date, m, n, k) <= MonthLength(m + n * k)
  {
    hide MonthLength;
    if k > 0 {
      LeastDateFits(date, m, n, k - 1);
    }
  }

  /** The runs `RenewalsAddUp` is about; the others end in NaN or 1900 years on. */
  predicate AddsUp(from: int, n: int, k: nat) {
    && -MAX_TIME <= from <= MAX_TIME
    && AvoidsFirstCentury(MonthOfTime(from), n, k)
    && (k > 0 ==> MonthOfTime(from) + n * k <= LAST_MONTH)
  }

  lemma {:induction false} RenewalRuns(from: int, n: int, k: nat)
    requires n == 1 || n == 12
    ensures var m := MonthOfTime(from);
            var r := Renew(from, n, k);
            if AddsUp(from, n, k) then r == Some(At(m + n * k, LeastDate(DateOf(from), m, n, k), TimeOfDay(from)))
            else r.None? || MonthOfTime(r.value) == m + n * k + 12 * 1900 >= 12 * 1900
    ensures Renew(from, n, k).Some? ==> TimeClip(Renew(from, n, k).value).Some?
  {
    hide MonthStart, MonthLength, MonthOf, End, EndMonth, At, MonthOfTime;
    var m := MonthOfTime(from);
    if k == 0 {
      ReadsBackAt(from);
    } else {
      RenewalRuns(from, n, k - 1);
      assert n * k == n * (k - 1) + n;
      var before := Renew(from, n, k - 1);
      if before.Some? {
        EndMonthOf(before.value, n);
        if AddsUp(from, n, k - 1) {
          LeastDateFits(DateOf(from), m, n, k - 1);
          RenewalStep(before.value, m + n * (k - 1), LeastDate(DateOf(from), m, n, k - 1), TimeOfDay(from), n);
        }
      }
    }
  }

  /** One renewal, from a start given by its month, day and time of day. */
  lemma RenewalStep(t: int, m: int, date: int, seconds: int, n: int)
    requires 1 <= date <= MonthLength(m) && 0 <= seconds < SECONDS_PER_DAY && t == At(m, date, seconds)
    requires -MAX_TIME <= t <= MAX_TIME
    ensures MonthOfTime(t) == m
    ensures m + n <= LAST_MONTH && !(0 <= m < 1200) ==>
              End(t, n) == Some(At(m + n, Min(date, MonthLength(m + n)), seconds))
    ensures m + n > LAST_MONTH && !(0 <= m < 1200) ==> End(t, n).None?
  {
    hide MonthStart, MonthLength, MonthOf;
    AtReadsBack(m, date, seconds);
    EndMonthOf(t, n);
  }

  lemma EndMonthOf(t: int, n: int)
    ensures EndMonth(t, n) == MonthOfTime(t) + n + (if 0 <= MonthOfTime(t) < 1200 then 12 * 1900 else 0)
    ensures n >= 1 && End(t, n).Some? ==>
              MonthOfTime(End(t, n).value) == EndMonth(t, n) && TimeClip(End(t, n).value).Some?
  {
    hide MonthStart, MonthLength, MonthOf;
    var e := EndMonth(t, n);
    var date := Min(DateOf(t), MonthLength(e));
    AtReadsBack(e, date, TimeOfDay(t));
    LastMonthFits(e, date, TimeOfDay(t));
    if n >= 1 {
      EndsLater(t, n, date);
    }
  }

  /** `k` renewals land exactly `k` periods later, on the least of the starting day and
      every month length passed through, at the same time of day: exactly for the runs that
      avoid the years 0 to 99 and stay within the months a Date can hold. */
  lemma RenewalsAddUp(from: int, n: int, k: nat)
    requires n == 1 || n == 12
    ensures var m := MonthOfTime(from);
            Renew(from, n, k) == Some(At(m + n * k, LeastDate(DateOf(from), m, n, k), TimeOfDay(from))) <==>
            && -MAX_TIME <= from <= MAX_TIME
            && AvoidsFirstCentury(m, n, k)
            && (k > 0 ==> m + n * k <= LAST_MONTH)
  {
    hide MonthStart, MonthLength, MonthOf;
    RenewalRuns(from, n, k);
    var m := MonthOfTime(from);
    LeastDateFits(DateOf(from), m, n, k);
    AtReadsBack(m + n * k, LeastDate(DateOf(from), m, n, k), TimeOfDay(from));
  }

  /** Two years of monthly renewals settle the day: the starting day, or 28 if it was later. */
  lemma MonthlyRenewalsSettle(date: int, m: int, k: nat)
    requires 1 <= date && k >= 24
    ensures LeastDate(date, m, 1, k) == Min(date, 28)
  {
    hide MonthLength;
    LeastDateIsLeast(date, m, 1, k);
    var february := ShortFebruary(m);
    assert LeastDate(date, m, 1, k) <= MonthLength(m + 1 * february);
  }

  /** Of any twenty-four months in a row one is a February of 28 days. */
  lemma ShortFebruary(m: int) returns (j: nat)
    ensures 1 <= j <= 24 && MonthLength(m + j) == 28
  {
    hide LeapYear;
    j := 1 + (-m) % 12;
    var y := (m + j) / 12;
    assert (m + j) % 12 == 1;
    LeapYearsApart(y);
    if LeapYear(y) {
      assert (m + j + 12) / 12 == y + 1 && (m + j + 12) % 12 == 1;
      j := j + 12;
    }
  }

  lemma {:induction false} RenewFirst(from: int, n: int, k: nat)
    requires n >= 1
    ensures Renew(from, n, k + 1) == if TimeClip(from).None? || End(from, n).None? then None else Renew(End(from, n).value, n, k)
  {
    hide End;
    if k == 0 {
      EndMonthOf(from, n);
      assert Renew(from, n, 1) == if Renew(from, n, 0).None? then None else End(from, n);
    } else {
      RenewFirst(from, n, k - 1);
    }
  }

  predicate Within3Days(monthly: Option<int>, yearly: Option<int>, days: int) {
    monthly.Some? && yearly.Some? && yearly.value == monthly.value + days * SECONDS_PER_DAY
  }

  /** Twelve monthly payments end at the same time of day as one yearly payment, and zero to three days
      earlier: for every start but the last eleven months before the year 0, whose monthly payments run
      into the years that are moved, and the last twelve months a Date can hold. */
  lemma TwelveMonthsOrOneYear(from: int)
    ensures (exists days :: 0 <= days <= 3 && Within3Days(Renew(from, 1, 12), Renew(from, 12, 1), days)) <==>
            -MAX_TIME <= from <= MAX_TIME && !(-11 <= MonthOfTime(from) < 0) && MonthOfTime(from) + 12 <= LAST_MONTH
  {
    hide MonthStart, MonthLength, MonthOf, End, Renew, LeastDate;
    var m := MonthOfTime(from);
    if TimeClip(from).None? || m + 12 > LAST_MONTH {
      YearlyNeedsAMonth(from);
    } else if 0 <= m < 1200 {
      var days := TwelveMonthsMoved(from);
      assert Within3Days(Renew(from, 1, 12), Renew(from, 12, 1), days);
    } else if -11 <= m < 0 {
      MonthlyRunsIntoTheCentury(from);
    } else {
      var days := TwelveMonthsPlain(from);
      assert Within3Days(Renew(from, 1, 12), Renew(from, 12, 1), days);
    }
  }

  lemma YearlyNeedsAMonth(from: int)
    requires TimeClip(from).None? || MonthOfTime(from) + 12 > LAST_MONTH
    ensures Renew(from, 12, 1).None?
  {
    hide MonthStart, MonthLength, MonthOf;
    RenewFirst(from, 12, 0);
    EndMonthOf(from, 12);
  }

  /** Between the least and the greatest date a run of renewals can land on are at most three days. */
  lemma DatesWithinThreeDays(date: int, m: int, n: int, k: nat, length: int)
    requires 1 <= date <= MonthLength(m) && 28 <= length <= 31 && LeastDate(date, m, n, k) <= length
    ensures 0 <= Min(date, length) - LeastDate(date, m, n, k) <= 3
  {
    hide MonthLength;
    LeastDateIsLeast(date, m, n, k);
    LeastDateFits(date, m, n, k);
  }

  lemma TwelveMonthsPlain(from: int) returns (days: int)
    requires TimeClip(from).Some? && AvoidsFirstCentury(MonthOfTime(from), 1, 12) && MonthOfTime(from) + 12 <= LAST_MONTH
    ensures 0 <= days <= 3 && Within3Days(Renew(from, 1, 12), Renew(from, 12, 1), days)
  {
    hide MonthStart, MonthLength, MonthOf, Renew, End;
    var m, date := MonthOfTime(from), DateOf(from);
    RenewalsAddUp(from, 1, 12);
    RenewalsAddUp(from, 12, 1);
    LeastDateFits(date, m, 1, 12);
    DatesWithinThreeDays(date, m, 1, 12, MonthLength(m + 12));
    assert LeastDate(date, m, 12, 1) == Min(LeastDate(date, m, 12, 0), MonthLength(m + 12));
    days := Min(date, MonthLength(m + 12)) - LeastDate(date, m, 1, 12);
  }

  /** A start in the years 0 to 99 is moved by its first payment, monthly or yearly. */
  lemma TwelveMonthsMoved(from: int) returns (days: int)
    requires TimeClip(from).Some? && 0 <= MonthOfTime(from) < 1200
    ensures 0 <= days <= 3 && Within3Days(Renew(from, 1, 12), Renew(from, 12, 1), days)
  {
    hide MonthStart, MonthLength, MonthOf, Renew;
    var m, date := MonthOfTime(from) + 12 * 1900, DateOf(from);
    EndMonthOf(from, 1);
    EndMonthOf(from, 12);
    RenewFirst(from, 1, 11);
    RenewFirst(from, 12, 0);
    var first := End(from, 1).value;
    var least := Min(date, MonthLength(m + 1));
    AtReadsBack(m + 1, least, TimeOfDay(from));
    RenewalsAddUp(first, 1, 11);
    LeastDateFits(least, m + 1, 1, 11);
    LeastDateIsLeast(least, m + 1, 1, 11);
    EndMonthOf(first, 1);
    assert Renew(End(from, 12).value, 12, 0) == TimeClip(End(from, 12).value) by { RenewNothing(End(from, 12).value, 12); }
    days := Min(date, MonthLength(m + 12)) - LeastDate(least, m + 1, 1, 11);
    assert m + 1 + 1 * 11 == m + 12;
  }

  lemma RenewNothing(from: int, n: int)
    ensures Renew(from, n, 0) == TimeClip(from)
  {
  }

  lemma MonthlyRunsIntoTheCentury(from: int)
    requires TimeClip(from).Some? && -11 <= MonthOfTime(from) < 0
    ensures forall days :: 0 <= days <= 3 ==> !Within3Days(Renew(from, 1, 12), Renew(from, 12, 1), days)
  {
    hide MonthStart, MonthLength, MonthOf, Renew, End;
    var m := MonthOfTime(from);
    RenewalRuns(from, 1, 12);
    RenewalsAddUp(from, 12, 1);
    if Renew(from, 1, 12).Some? {
      var monthly, yearly := Renew(from, 1, 12).value, Renew(from, 12, 1).value;
      LeastDateFits(DateOf(from), m, 12, 1);
      AtReadsBack(m + 12 * 1, LeastDate(DateOf(from), m, 12, 1), TimeOfDay(from));
      LaterMonthIsLater(yearly, monthly);
    }
  }

  lemma LaterMonthIsLater(a: int, b: int)
    requires MonthOfTime(a) < MonthOfTime(b)
    ensures a < b
  {
    hide MonthStart, MonthLength, MonthOf;
    ReadsBackAt(a);
    ReadsBackAt(b);
    MonthStartMonotone(MonthOfTime(a), MonthOfTime(b));
  }
}
