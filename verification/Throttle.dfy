/** Login lockout and the fixed-window rate limiter of src/db.ts, each over its row of login_attempts. */
module Throttle {
  import opened Wrappers

  /** For a rate limit, `count` hits since the window started at `lastAt`. */
  datatype Row = Row(count: int, lastAt: int, lockedUntil: int)

  const LOCKOUT_THRESHOLD := 5
  const LOCKOUT_BASE_SECONDS := 30
  const LOCKOUT_MAX_SECONDS := 900
  const STALE_SECONDS := 86400

  function Max(a: int, b: int): int { if a >= b then a else b }
  function Min(a: int, b: int): int { if a <= b then a else b }

  function Power2(n: nat): nat { if n == 0 then 1 else 2 * Power2(n - 1) }

  // ------------------------------------------------------------ one row

  /** How long the n-th failure in a row locks. */
  function LockSeconds(n: int): int {
    if n <= LOCKOUT_THRESHOLD then 0
    else Min(LOCKOUT_BASE_SECONDS * Power2(n - LOCKOUT_THRESHOLD - 1), LOCKOUT_MAX_SECONDS)
  }

  function Remaining(row: Option<Row>, now: int): int {
    if row.None? || row.value.lockedUntil <= now then 0 else row.value.lockedUntil - now
  }

  function Fail(row: Option<Row>, now: int): Row {
    var n := (if row.None? then 0 else row.value.count) + 1;
    Row(n, now, if LockSeconds(n) > 0 then now + LockSeconds(n) else 0)
  }

  function Wait(row: Option<Row>, now: int, limit: int, window: int): int {
    if row.None? || now - row.value.lastAt >= window || row.value.count < limit then 0
    else Max(1, row.value.lastAt + window - now)
  }

  function Hit(row: Option<Row>, now: int, window: int): Row {
    if row.None? then Row(1, now, 0)
    else if now - row.value.lastAt < window then row.value.(count := row.value.count + 1)
    else row.value.(count := 1, lastAt := now)
  }

  predicate Stale(row: Row, now: int, age: int) { row.lockedUntil <= now && row.lastAt <= now - age }

  lemma {:induction false} PowerIsPositive(n: nat)
    ensures Power2(n) >= 1
  {
    if n > 0 {
      PowerIsPositive(n - 1);
    }
  }

  // ------------------------------------------------------------ lockout over a run of failures

  /** The row after failures at these times, without a clear or a purge between them. */
  function FailedRow(times: seq<int>): Option<Row> {
    if times == [] then None else Some(Fail(FailedRow(times[..|times| - 1]), times[|times| - 1]))
  }

  /** Each attempt is made with nothing left of the lockout, on a clock that does not go back. */
  predicate Patient(times: seq<int>) {
    && (forall k :: 0 < k < |times| ==> times[k - 1] <= times[k])
    && (forall k :: 0 <= k < |times| ==> Remaining(FailedRow(times[..k]), times[k]) == 0)
  }

  /** The lockouts of failures 1 to n together. */
  function TotalLock(n: nat): int { if n == 0 then 0 else TotalLock(n - 1) + LockSeconds(n) }

  lemma {:induction false} FailedRowIs(times: seq<int>)
    requires times != []
    ensures var n, last := |times|, times[|times| - 1];
            FailedRow(times) == Some(Row(n, last, if LockSeconds(n) > 0 then last + LockSeconds(n) else 0))
    decreases |times|
  {
    hide LockSeconds;
    if |times| > 1 {
      FailedRowIs(times[..|times| - 1]);
    }
  }

  /** Lockouts never get shorter along a run, and none is longer than fifteen minutes. */
  lemma {:induction false} LocksGrow(n: nat, m: nat)
    requires n <= m
    ensures 0 <= LockSeconds(n) <= LockSeconds(m) <= LOCKOUT_MAX_SECONDS
    decreases m - n
  {
    if n < m {
      LocksGrow(n, m - 1);
    } else if n > LOCKOUT_THRESHOLD {
      PowerIsPositive(n - LOCKOUT_THRESHOLD - 1);
    }
    if m > LOCKOUT_THRESHOLD {
      PowerIsPositive(m - LOCKOUT_THRESHOLD - 1);
    }
  }

  lemma LockSecondsTable()
    ensures LockSeconds(6) == 30 && LockSeconds(7) == 60 && LockSeconds(8) == 120 && LockSeconds(9) == 240 && LockSeconds(10) == 480
    ensures LockSeconds(11) == 900
  {
  }

  lemma {:induction false} TotalLockIs(n: nat)
    requires n >= 10
    ensures TotalLock(n) == 930 + 900 * (n - 10)
  {
    hide LockSeconds;
    LockSecondsTable();
    if n == 10 {
      TotalLockFirst();
    } else {
      TotalLockIs(n - 1);
      LocksGrow(11, n);
    }
  }

  lemma TotalLockFirst()
    ensures TotalLock(10) == 930
  {
    LockSecondsTable();
    assert TotalLock(5) == 0;
    assert TotalLock(7) == 90;
    assert TotalLock(9) == 450;
  }

  /** The i-th to the j-th failure take at least the lockouts between them. */
  lemma {:induction false} FailuresSpread(times: seq<int>, j: int)
    requires Patient(times) && 0 <= j < |times|
    ensures times[j] - times[0] >= TotalLock(j)
  {
    hide LockSeconds, FailedRow;
    if j > 0 {
      FailuresSpread(times, j - 1);
      FailedRowIs(times[..j]);
      assert Remaining(FailedRow(times[..j]), times[j]) == 0;
    }
  }

  /** Eleven or more failures in a row span at least 930 seconds and 900 more for each
      after the eleventh. */
  lemma LockoutHolds(times: seq<int>)
    requires Patient(times) && |times| >= 11
    ensures times[|times| - 1] - times[0] >= 930 + 900 * (|times| - 11)
  {
    FailuresSpread(times, |times| - 1);
    TotalLockIs(|times| - 1);
  }

  /** Failing again the moment each lockout ends. */
  function Eager(n: nat): seq<int> { seq(n, k requires 0 <= k < n => TotalLock(k)) }

  /** No more than that is promised: the eager run is let through and spans exactly as long. */
  lemma LockoutIsExact(n: nat)
    ensures Patient(Eager(n))
    ensures n >= 11 ==> Eager(n)[n - 1] - Eager(n)[0] == 930 + 900 * (n - 11)
  {
    hide LockSeconds, FailedRow;
    var times := Eager(n);
    forall k | 0 < k < n
      ensures times[k - 1] <= times[k] && Remaining(FailedRow(times[..k]), times[k]) == 0
    {
      LocksGrow(k, k);
      TotalLockIsPositive(k);
      FailedRowIs(times[..k]);
    }
    if n > 0 {
      FirstFailureIsFree(times);
    }
    if n >= 11 {
      TotalLockIs(n - 1);
    }
  }

  lemma {:induction false} TotalLockIsPositive(n: nat)
    ensures TotalLock(n) >= 0
  {
    hide LockSeconds;
    if n > 0 {
      TotalLockIsPositive(n - 1);
      LocksGrow(n, n);
    }
  }

  lemma FirstFailureIsFree(times: seq<int>)
    requires times != []
    ensures Remaining(FailedRow(times[..0]), times[0]) == 0
  {
  }

  // ------------------------------------------------------------ the rate limiter over a run of hits

  /** The row after hits at these times. */
  function HitRow(hits: seq<int>, window: int): Option<Row> {
    if hits == [] then None else Some(Hit(HitRow(hits[..|hits| - 1], window), hits[|hits| - 1], window))
  }

  /** Each hit is recorded only when the wait was 0, on a clock that does not go back. */
  predicate Admitted(hits: seq<int>, limit: int, window: int) {
    && (forall i, j :: 0 <= i < j < |hits| ==> hits[i] <= hits[j])
    && (forall k :: 0 <= k < |hits| ==> Wait(HitRow(hits[..k], window), hits[k], limit, window) == 0)
  }

  /** The hit that started the window the k-th hit fell in. */
  function WindowStart(hits: seq<int>, window: int, k: nat): (b: nat)
    requires k < |hits|
    ensures b <= k
  {
    if k == 0 then 0
    else
      var b := WindowStart(hits, window, k - 1);
      if hits[k] - hits[b] < window then b else k
  }

  lemma {:induction false} HitRowIs(hits: seq<int>, window: int, k: nat)
    requires k < |hits|
    ensures var b := WindowStart(hits, window, k);
            HitRow(hits[..k + 1], window) == Some(Row(k + 1 - b, hits[b], 0))
  {
    assert hits[..k + 1][..k] == hits[..k];
    if k > 0 {
      HitRowIs(hits, window, k - 1);
    }
  }

  /** A window holds at most `limit` hits (and always its first). */
  lemma {:induction false} WindowsHoldLimit(hits: seq<int>, limit: int, window: int, k: nat)
    requires Admitted(hits, limit, window) && k < |hits|
    ensures k + 1 - WindowStart(hits, window, k) <= Max(1, limit)
  {
    hide HitRow;
    if k > 0 {
      WindowsHoldLimit(hits, limit, window, k - 1);
      HitRowIs(hits, window, k - 1);
      assert Wait(HitRow(hits[..k], window), hits[k], limit, window) == 0;
    }
  }

  /** A new window starts at least a window after the one before. */
  lemma {:induction false} WindowsApart(hits: seq<int>, window: int, k: nat)
    requires 0 < k < |hits| && WindowStart(hits, window, k) == k
    ensures hits[k] - hits[WindowStart(hits, window, k - 1)] >= window
  {
  }

  lemma {:induction false} StartStartsItself(hits: seq<int>, window: int, k: nat)
    requires k < |hits|
    ensures WindowStart(hits, window, WindowStart(hits, window, k)) == WindowStart(hits, window, k)
  {
    if k > 0 {
      StartStartsItself(hits, window, k - 1);
    }
  }

  /** Any 2 * limit hits in a row span at least a window, so a span shorter than that never
      holds more than 2 * limit - 1. */
  lemma HitsSpread(hits: seq<int>, limit: int, window: int, i: nat, j: nat)
    requires Admitted(hits, limit, window)
    requires i + 2 * Max(1, limit) - 1 <= j < |hits|
    ensures hits[j] - hits[i] >= window
  {
    hide HitRow, WindowStart, Wait;
    WindowsHoldLimit(hits, limit, window, j);
    var start := WindowStart(hits, window, j);
    StartStartsItself(hits, window, j);
    WindowsApart(hits, window, start);
    WindowsHoldLimit(hits, limit, window, start - 1);
    var previous := WindowStart(hits, window, start - 1);
    assert i <= previous;
  }

  function Within(hits: seq<int>, from: int, until: int): set<nat> {
    set k: nat | k < |hits| && from <= hits[k] < until
  }

  lemma {:induction false} RangeSize(s: set<nat>, lo: nat, hi: nat)
    requires forall k :: k in s ==> lo <= k < hi
    requires lo <= hi
    ensures |s| <= hi - lo
    decreases hi
  {
    if lo < hi {
      RangeSize(s - {hi - 1}, lo, hi - 1);
    } else {
      assert s == {};
    }
  }

  /** Any interval as long as a window holds at most 2 * limit - 1 hits. */
  lemma IntervalsHoldTwice(hits: seq<int>, limit: int, window: int, from: int)
    requires Admitted(hits, limit, window)
    ensures |Within(hits, from, from + window)| <= 2 * Max(1, limit) - 1
  {
    hide HitRow, Wait;
    var s := Within(hits, from, from + window);
    if s != {} {
      var lo := Least(s);
      forall k | k in s
        ensures lo <= k < lo + 2 * Max(1, limit) - 1
      {
        if k >= lo + 2 * Max(1, limit) - 1 {
          HitsSpread(hits, limit, window, lo, k);
        }
      }
      RangeSize(s, lo, lo + 2 * Max(1, limit) - 1);
    }
  }

  lemma {:induction false} Least(s: set<nat>) returns (lo: nat)
    requires s != {}
    ensures lo in s && forall k :: k in s ==> lo <= k
    decreases |s|
  {
    var x :| x in s;
    if s == {x} {
      lo := x;
    } else {
      var other := Least(s - {x});
      assert forall k :: k in s ==> k == x || k in s - {x};
      lo := if other < x then other else x;
    }
  }

  /** The bound is met: one hit, the rest of the window's at its last second, and a new
      window's the second after. */
  function Burst(limit: nat, window: int): seq<int> {
    seq(2 * limit, k => if k == 0 then 0 else if k < limit then window - 1 else window)
  }

  lemma {:induction false} BurstWindows(limit: nat, window: int, k: nat)
    requires limit >= 1 && window >= 1 && k < 2 * limit
    ensures WindowStart(Burst(limit, window), window, k) == if k < limit then 0 else limit
  {
    if k > 0 {
      BurstWindows(limit, window, k - 1);
    }
  }

  lemma BoundIsMet(limit: nat, window: int)
    requires limit >= 1 && window >= 2
    ensures var hits := Burst(limit, window);
            Admitted(hits, limit, window) && |Within(hits, window - 1, window - 1 + window)| == 2 * limit - 1
  {
    hide HitRow, WindowStart;
    var hits := Burst(limit, window);
    forall k | 0 <= k < |hits|
      ensures Wait(HitRow(hits[..k], window), hits[k], limit, window) == 0
    {
      if k == 0 {
        EmptyRow(window);
        assert hits[..0] == [];
      } else {
        BurstWindows(limit, window, k - 1);
        HitRowIs(hits, window, k - 1);
      }
    }
    RangeOf(Within(hits, window - 1, window - 1 + window), 1, 2 * limit);
  }

  lemma EmptyRow(window: int)
    ensures HitRow([], window) == None
  {
  }

  lemma {:induction false} RangeOf(s: set<nat>, lo: nat, hi: nat)
    requires lo <= hi && forall k :: k in s <==> lo <= k < hi
    ensures |s| == hi - lo
    decreases hi
  {
    if lo < hi {
      RangeOf(s - {hi - 1}, lo, hi - 1);
    } else {
      assert s == {};
    }
  }

  /** The wait is exact: not admitted before it has passed, admitted then, if nothing is
      recorded meanwhile. */
  lemma WaitIsExact(row: Option<Row>, now: int, limit: int, window: int, later: int)
    requires Wait(row, now, limit, window) > 0 && now <= later
    ensures Wait(row, later, limit, window) == 0 <==> later >= now + Wait(row, now, limit, window)
  {
  }

  // ------------------------------------------------------------ the purge

  datatype Event = Ask(at: int) | Record(at: int) | Purge(at: int)

  function Purged(row: Option<Row>, now: int): Option<Row> {
    if row.Some? && Stale(row.value, now, STALE_SECONDS) then None else row
  }

  function After(row: Option<Row>, event: Event, window: int, purging: bool): Option<Row> {
    match event
    case Ask(_) => row
    case Record(at) => Some(Hit(row, at, window))
    case Purge(at) => if purging then Purged(row, at) else row
  }

  /** What every Ask of a run is answered, in order. */
  function Answers(row: Option<Row>, events: seq<Event>, limit: int, window: int, purging: bool): seq<int>
    decreases |events|
  {
    if events == [] then []
    else (if events[0].Ask? then [Wait(row, events[0].at, limit, window)] else [])
         + Answers(After(row, events[0], window, purging), events[1..], limit, window, purging)
  }

  predicate ClockGoesOn(now: int, events: seq<Event>) {
    && (forall i :: 0 <= i < |events| ==> now <= events[i].at)
    && (forall i, j :: 0 <= i < j < |events| ==> events[i].at <= events[j].at)
  }

  /** The same row, or one whose window is over and the row a purge left out. */
  predicate Alike(row: Option<Row>, purged: Option<Row>, now: int, window: int) {
    && (row.Some? ==> row.value.lockedUntil == 0)
    && (row == purged || (row.Some? && purged.None? && now - row.value.lastAt >= window))
  }

  lemma {:induction false} AlikeAnswers(row: Option<Row>, purged: Option<Row>, now: int, events: seq<Event>, limit: int, window: int)
    requires Alike(row, purged, now, window) && ClockGoesOn(now, events) && window <= STALE_SECONDS
    ensures Answers(row, events, limit, window, false) == Answers(purged, events, limit, window, true)
    decreases |events|
  {
    if events != [] {
      var e := events[0];
      AlikeAnswers(After(row, e, window, false), After(purged, e, window, true), e.at, events[1..], limit, window);
    }
  }

  /** For windows of up to a day the purge of stale rows changes no answer, in any run. */
  lemma PurgeIsUnobservable(events: seq<Event>, now: int, limit: int, window: int)
    requires ClockGoesOn(now, events) && window <= 86400
    ensures Answers(None, events, limit, window, true) == Answers(None, events, limit, window, false)
  {
    AlikeAnswers(None, None, now, events, limit, window);
  }

  /** For every longer window there is a run in which it does. */
  lemma LongWindowsAreCutShort(window: int)
    requires window > 86400
    ensures var events := [Record(0), Purge(86400), Ask(86400)];
            && ClockGoesOn(0, events)
            && Answers(None, events, 1, window, true) == [0]
            && Answers(None, events, 1, window, false) == [window - 86400]
  {
    var events := [Record(0), Purge(86400), Ask(86400)];
    assert events[1..][1..] == [Ask(86400)] && events[1..][1..][1..] == [];
    var row := Row(1, 0, 0);
    assert Answers(None, events[1..][1..], 1, window, true) == [0];
    assert Answers(Some(row), events[1..][1..], 1, window, false) == [window - 86400];
  }
}
