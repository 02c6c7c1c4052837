/** The login_attempts table of src/db.ts in place: whatever is called, in whatever order, every wait is the one
    that the failures or the hits so far call for. */
module LoginAttempts {
  import opened Wrappers
  import opened Throttle

  /** What an identifier is for.  Accounts are told from rate limits, and each limit has its own window, by
      the way the identifier is made. */
  datatype Use = Account | Limited(window: int)

  datatype Call =
    | AskLockout(id: string, at: int)
    | DoFail(id: string, at: int)
    | DoClear(id: string, at: int)
    | AskRate(id: string, limit: int, at: int)
    | DoHit(id: string, at: int)
    | DoPurge(age: int, at: int)

  // ------------------------------------------------------------ what counts

  /** The failures of an account that still count: since it was last cleared, or purged when the last failure
      was old enough and its lockout over. */
  function Failures(calls: seq<Call>, id: string): seq<int> {
    if calls == [] then [] else FailuresAfter(Failures(calls[..|calls| - 1], id), calls[|calls| - 1], id)
  }

  function FailuresAfter(times: seq<int>, call: Call, id: string): seq<int> {
    match call
    case DoFail(i, at) => if i == id then times + [at] else times
    case DoClear(i, _) => if i == id then [] else times
    case DoPurge(age, at) =>
      if times != [] && times[|times| - 1] <= at - age && times[|times| - 1] + LockSeconds(|times|) <= at then [] else times
    case _ => times
  }

  /** What is left of the lockout after failures at these times. */
  function LockoutLeft(times: seq<int>, now: int): int {
    if times == [] then 0 else Max(0, times[|times| - 1] + LockSeconds(|times|) - now)
  }

  /** The hits of a limit that still count: since it was last purged when its window had started long enough ago. */
  function Hits(calls: seq<Call>, id: string, window: int): seq<int> {
    if calls == [] then [] else HitsAfter(Hits(calls[..|calls| - 1], id, window), calls[|calls| - 1], id, window)
  }

  function HitsAfter(hits: seq<int>, call: Call, id: string, window: int): seq<int> {
    match call
    case DoHit(i, at) => if i == id then hits + [at] else hits
    case DoPurge(age, at) => if hits != [] && hits[WindowStart(hits, window, |hits| - 1)] <= at - age then [] else hits
    case _ => hits
  }

  /** The rest of the window when it holds the limit already. */
  function WindowLeft(hits: seq<int>, limit: int, window: int, now: int): int {
    if hits == [] then 0
    else
      var start := WindowStart(hits, window, |hits| - 1);
      if |hits| - start < limit then 0 else Max(0, hits[start] + window - now)
  }

  /** What a question is to be answered after other calls. */
  function Deserved(use: string -> Use, calls: seq<Call>, call: Call): Option<int> {
    match call
    case AskLockout(id, at) => Some(LockoutLeft(Failures(calls, id), at))
    case AskRate(id, limit, at) =>
      Some(if use(id).Limited? then WindowLeft(Hits(calls, id, use(id).window), limit, use(id).window, at) else 0)
    case _ => None
  }

  /** Calls use each identifier for what it is for. */
  predicate Proper(use: string -> Use, call: Call) {
    match call
    case DoPurge(_, _) => true
    case AskRate(id, _, _) => use(id).Limited?
    case DoHit(id, _) => use(id).Limited?
    case _ => use(call.id).Account?
  }

  // ------------------------------------------------------------ one row

  function RowOf(use: Use, calls: seq<Call>, id: string): Option<Row> {
    if use.Account? then FailedRow(Failures(calls, id)) else HitRow(Hits(calls, id, use.window), use.window)
  }

  predicate NotAhead(times: seq<int>, clock: int) { forall i :: 0 <= i < |times| ==> times[i] <= clock }

  /** A row is what the calls so far make it. */
  ghost predicate RowIs(row: Option<Row>, use: Use, calls: seq<Call>, id: string, clock: int) {
    row == RowOf(use, calls, id) && (use.Account? ==> NotAhead(Failures(calls, id), clock))
  }

  /** What a call does to the row of an identifier. */
  function RowAfter(row: Option<Row>, use: Use, call: Call, id: string): Option<Row> {
    match call
    case DoFail(i, at) => if i == id then Some(Fail(row, at)) else row
    case DoClear(i, _) => if i == id then None else row
    case DoHit(i, at) => if i == id && use.Limited? then Some(Hit(row, at, use.window)) else row
    case DoPurge(age, at) => if row.Some? && Stale(row.value, at, age) then None else row
    case _ => row
  }

  lemma FailuresNext(calls: seq<Call>, call: Call, id: string)
    ensures Failures(calls + [call], id) == FailuresAfter(Failures(calls, id), call, id)
  {
    hide FailuresAfter;
    assert (calls + [call])[..|calls|] == calls;
  }

  lemma HitsNext(calls: seq<Call>, call: Call, id: string, window: int)
    ensures Hits(calls + [call], id, window) == HitsAfter(Hits(calls, id, window), call, id, window)
  {
    hide HitsAfter;
    assert (calls + [call])[..|calls|] == calls;
  }

  lemma AccountMoves(times: seq<int>, call: Call, id: string, clock: int)
    requires NotAhead(times, clock) && 0 <= clock <= call.at
    ensures RowAfter(FailedRow(times), Account, call, id) == FailedRow(FailuresAfter(times, call, id))
    ensures NotAhead(FailuresAfter(times, call, id), call.at)
  {
    hide LockSeconds, Fail;
    match call
    case DoFail(i, at) =>
      assert (times + [at])[..|times|] == times;
    case DoPurge(age, at) =>
      if times != [] {
        FailedRowIs(times);
        LocksGrow(|times|, |times|);
      }
    case _ =>
  }

  lemma LimitMoves(hits: seq<int>, window: int, call: Call, id: string)
    requires 0 <= call.at && !((call.DoFail? || call.DoClear?) && call.id == id)
    ensures RowAfter(HitRow(hits, window), Limited(window), call, id) == HitRow(HitsAfter(hits, call, id, window), window)
  {
    hide Hit, WindowStart;
    match call
    case DoHit(i, at) =>
      assert (hits + [at])[..|hits|] == hits;
    case DoPurge(age, at) =>
      if hits != [] {
        HitRowIs(hits, window, |hits| - 1);
        assert hits[..|hits| - 1 + 1] == hits;
      }
    case _ =>
  }

  lemma RowMoves(row: Option<Row>, use: string -> Use, calls: seq<Call>, call: Call, id: string, clock: int)
    requires RowIs(row, use(id), calls, id, clock) && Proper(use, call) && 0 <= clock <= call.at
    ensures RowIs(RowAfter(row, use(id), call, id), use(id), calls + [call], id, call.at)
  {
    hide Failures, Hits, FailuresAfter, HitsAfter, RowAfter, FailedRow, HitRow;
    if use(id).Account? {
      FailuresNext(calls, call, id);
      AccountMoves(Failures(calls, id), call, id, clock);
    } else {
      HitsNext(calls, call, id, use(id).window);
      LimitMoves(Hits(calls, id, use(id).window), use(id).window, call, id);
    }
  }

  /** What is left of a lockout is told from the row. */
  lemma LockoutIsTold(times: seq<int>, clock: int, now: int)
    requires NotAhead(times, clock) && 0 <= clock <= now
    ensures Remaining(FailedRow(times), now) == LockoutLeft(times, now)
  {
    hide LockSeconds, FailedRow;
    if times == [] {
      assert FailedRow(times) == None by { NoFailures(); }
    } else {
      FailedRowIs(times);
      LocksGrow(|times|, |times|);
    }
  }

  lemma NoFailures()
    ensures FailedRow([]) == None
  {
  }

  /** So is the wait of a limit. */
  lemma WaitIsTold(hits: seq<int>, limit: int, window: int, now: int)
    ensures Wait(HitRow(hits, window), now, limit, window) == WindowLeft(hits, limit, window, now)
  {
    hide HitRow, WindowStart;
    if hits == [] {
      EmptyRow(window);
    } else {
      HitRowIs(hits, window, |hits| - 1);
      assert hits[..|hits| - 1 + 1] == hits;
    }
  }

  // ------------------------------------------------------------ the bounds, over whole runs

  predicate InOrder(calls: seq<Call>) {
    && (forall i :: 0 <= i < |calls| ==> 0 <= calls[i].at)
    && (forall i, j :: 0 <= i < j < |calls| ==> calls[i].at <= calls[j].at)
  }

  function LastAt(calls: seq<Call>): int { if calls == [] then 0 else calls[|calls| - 1].at }

  /** Every failure of the account is recorded only with nothing left of its lockout. */
  predicate WaitsOut(calls: seq<Call>, id: string) {
    forall i :: 0 <= i < |calls| && calls[i].DoFail? && calls[i].id == id ==> LockoutLeft(Failures(calls[..i], id), calls[i].at) == 0
  }

  lemma {:induction false} WaitingOutIsPatient(calls: seq<Call>, id: string)
    requires InOrder(calls) && WaitsOut(calls, id)
    ensures Patient(Failures(calls, id)) && NotAhead(Failures(calls, id), LastAt(calls))
    decreases |calls|
  {
    hide LockoutLeft, LockSeconds;
    if calls != [] {
      var init, call := calls[..|calls| - 1], calls[|calls| - 1];
      assert forall i :: 0 <= i < |init| ==> init[..i] == calls[..i];
      WaitingOutIsPatient(init, id);
      var times := Failures(init, id);
      if call.DoFail? && call.id == id {
        LockoutIsTold(times, LastAt(init), call.at);
        PatientNext(times, call.at);
      }
    }
  }

  lemma PatientNext(times: seq<int>, at: int)
    requires Patient(times) && NotAhead(times, at) && Remaining(FailedRow(times), at) == 0
    ensures Patient(times + [at])
  {
    hide FailedRow, Remaining;
    var after := times + [at];
    assert forall k :: 0 <= k <= |times| ==> after[..k] == times[..k];
    assert times[..|times|] == times;
  }

  /** Over every run in which they are, eleven or more failures that still count span at least 930 seconds and
      900 more for each after the eleventh. */
  lemma LockoutHoldsOverRuns(calls: seq<Call>, id: string)
    requires InOrder(calls) && WaitsOut(calls, id) && |Failures(calls, id)| >= 11
    ensures var times := Failures(calls, id); times[|times| - 1] - times[0] >= 930 + 900 * (|times| - 11)
  {
    hide Patient, WaitsOut, Failures;
    WaitingOutIsPatient(calls, id);
    LockoutHolds(Failures(calls, id));
  }

  /** Every hit ever recorded under a key, purged or not. */
  function AllHits(calls: seq<Call>, id: string): seq<int> {
    if calls == [] then []
    else
      var before, call := AllHits(calls[..|calls| - 1], id), calls[|calls| - 1];
      if call.DoHit? && call.id == id then before + [call.at] else before
  }

  /** Every hit is recorded only when there was nothing to wait, and rows are purged no earlier than their window ends. */
  predicate Abides(calls: seq<Call>, id: string, limit: int, window: int) {
    && (forall i :: 0 <= i < |calls| && calls[i].DoHit? && calls[i].id == id ==>
          WindowLeft(Hits(calls[..i], id, window), limit, window, calls[i].at) == 0)
    && (forall i :: 0 <= i < |calls| && calls[i].DoPurge? ==> calls[i].age >= window)
  }

  lemma {:induction false} AbidingIsAdmitted(calls: seq<Call>, id: string, limit: int, window: int)
    requires InOrder(calls) && Abides(calls, id, limit, window)
    ensures Admitted(AllHits(calls, id), limit, window) && NotAhead(AllHits(calls, id), LastAt(calls))
    ensures Alike(HitRow(AllHits(calls, id), window), HitRow(Hits(calls, id, window), window), LastAt(calls), window)
    decreases |calls|
  {
    hide Admitted, HitRow, WindowLeft, WindowStart;
    if calls == [] {
      EmptyRow(window);
      NothingIsAdmitted(limit, window);
    } else {
      var init, call := calls[..|calls| - 1], calls[|calls| - 1];
      assert forall i :: 0 <= i < |init| ==> init[..i] == calls[..i] && init[i] == calls[i];
      AbidingIsAdmitted(init, id, limit, window);
      assert LastAt(init) <= call.at;
      var all, hits := AllHits(init, id), Hits(init, id, window);
      LimitRowMoves(all, hits, call, id, limit, window, LastAt(init));
    }
  }

  lemma NothingIsAdmitted(limit: int, window: int)
    ensures Admitted([], limit, window)
  {
  }

  lemma LimitRowMoves(all: seq<int>, hits: seq<int>, call: Call, id: string, limit: int, window: int, clock: int)
    requires Admitted(all, limit, window) && NotAhead(all, clock) && 0 <= clock <= call.at
    requires Alike(HitRow(all, window), HitRow(hits, window), clock, window)
    requires call.DoHit? && call.id == id ==> WindowLeft(hits, limit, window, call.at) == 0
    requires call.DoPurge? ==> call.age >= window
    ensures var all' := if call.DoHit? && call.id == id then all + [call.at] else all;
            && Admitted(all', limit, window) && NotAhead(all', call.at)
            && Alike(HitRow(all', window), HitRow(HitsAfter(hits, call, id, window), window), call.at, window)
  {
    hide Admitted, WindowLeft, WindowStart, HitRow;
    if call.DoHit? && call.id == id {
      WaitIsTold(hits, limit, window, call.at);
      HitRowNext(all, call.at, window);
      HitRowNext(hits, call.at, window);
      AdmittedNext(all, call.at, limit, window);
    } else if call.DoPurge? && hits != [] {
      HitRowIs(hits, window, |hits| - 1);
      assert hits[..|hits| - 1 + 1] == hits;
      EmptyRow(window);
    }
  }

  lemma HitRowNext(hits: seq<int>, at: int, window: int)
    ensures HitRow(hits + [at], window) == Some(Hit(HitRow(hits, window), at, window))
  {
    hide Hit;
    assert (hits + [at])[..|hits|] == hits;
  }

  lemma AdmittedNext(hits: seq<int>, at: int, limit: int, window: int)
    requires Admitted(hits, limit, window) && NotAhead(hits, at) && Wait(HitRow(hits, window), at, limit, window) == 0
    ensures Admitted(hits + [at], limit, window)
  {
    hide HitRow, Wait;
    var after := hits + [at];
    assert forall k :: 0 <= k <= |hits| ==> after[..k] == hits[..k];
    assert hits[..|hits|] == hits;
  }

  /** Over every run that abides, no interval as long as a window ever holds more than 2 * limit - 1 hits. */
  lemma RateHoldsOverRuns(calls: seq<Call>, id: string, limit: int, window: int, from: int)
    requires InOrder(calls) && Abides(calls, id, limit, window)
    ensures |Within(AllHits(calls, id), from, from + window)| <= 2 * Max(1, limit) - 1
  {
    hide Admitted, Abides, AllHits;
    AbidingIsAdmitted(calls, id, limit, window);
    IntervalsHoldTwice(AllHits(calls, id), limit, window, from);
  }

  /** Clearing ends the lockout at once, and failures after it count from one. */
  lemma ClearingStartsOver(calls: seq<Call>, id: string, at: int, now: int)
    ensures var cleared := calls + [DoClear(id, at)];
            && LockoutLeft(Failures(cleared, id), now) == 0
            && Failures(cleared + [DoFail(id, now)], id) == [now]
            && LockoutLeft(Failures(cleared + [DoFail(id, now)], id), now) == 0
  {
    var cleared := calls + [DoClear(id, at)];
    FailuresNext(calls, DoClear(id, at), id);
    FailuresNext(cleared, DoFail(id, now), id);
  }

  /** Every failure of an account counts, and nobody else's does. */
  lemma FailuresCount(calls: seq<Call>, id: string, other: string, at: int)
    ensures Failures(calls + [DoFail(id, at)], id) == Failures(calls, id) + [at]
    ensures other != id ==> Failures(calls + [DoFail(id, at)], other) == Failures(calls, other)
    ensures other != id ==> Failures(calls + [DoClear(id, at)], other) == Failures(calls, other)
  {
    hide LockSeconds;
    FailuresNext(calls, DoFail(id, at), id);
    FailuresNext(calls, DoFail(id, at), other);
    FailuresNext(calls, DoClear(id, at), other);
  }

  /** The lockouts in seconds: none up to the fifth failure, then 30 doubling to 900. */
  lemma LockoutsAre(times: seq<int>, now: int)
    requires times != [] && times[|times| - 1] == now
    ensures |times| <= 5 ==> LockoutLeft(times, now) == 0
    ensures |times| == 6 ==> LockoutLeft(times, now) == 30
    ensures |times| == 7 ==> LockoutLeft(times, now) == 60
    ensures |times| == 8 ==> LockoutLeft(times, now) == 120
    ensures |times| == 9 ==> LockoutLeft(times, now) == 240
    ensures |times| == 10 ==> LockoutLeft(times, now) == 480
    ensures |times| >= 11 ==> LockoutLeft(times, now) == 900
  {
    LockSecondsTable();
    if |times| >= 11 {
      LocksGrow(11, |times|);
    }
  }

  // ------------------------------------------------------------ the table

  class Store {
    const use: string -> Use
    var rows: map<string, Row>
    /** Every call so far. */
    ghost var calls: seq<Call>
    ghost var clock: int

    constructor (use: string -> Use)
      ensures Valid() && this.use == use && rows == map[] && calls == [] && clock == 0
    {
      this.use := use;
      rows, calls, clock := map[], [], 0;
    }

    function Get(id: string): Option<Row>
      reads this
    {
      if id in rows then Some(rows[id]) else None
    }

    ghost predicate Valid()
      reads this
    {
      0 <= clock && forall id :: RowIs(Get(id), use(id), calls, id, clock)
    }

    /** Note a call that has done to every row what it does. */
    ghost method Note(call: Call, before: map<string, Row>)
      requires 0 <= clock <= call.at && Proper(use, call)
      requires forall id :: RowIs(if id in before then Some(before[id]) else None, use(id), calls, id, clock)
      requires forall id :: Get(id) == RowAfter(if id in before then Some(before[id]) else None, use(id), call, id)
      modifies this`calls, this`clock
      ensures Valid() && calls == old(calls) + [call] && clock == call.at
    {
      hide RowIs, RowAfter;
      forall id
        ensures RowIs(Get(id), use(id), calls + [call], id, call.at)
      {
        RowMoves(if id in before then Some(before[id]) else None, use, calls, call, id, clock);
      }
      calls, clock := calls + [call], call.at;
    }

    /** What is left of the lockout that the failures so far have earned. */
    method GetLockoutRemaining(id: string, now: int) returns (seconds: int)
      requires Valid() && clock <= now && use(id).Account?
      ensures seconds == LockoutLeft(Failures(calls, id), now)
    {
      hide Failures, LockoutLeft, FailedRow;
      assert RowIs(Get(id), use(id), calls, id, clock);
      LockoutIsTold(Failures(calls, id), clock, now);
      if id !in rows || rows[id].lockedUntil <= now {
        return 0;
      }
      seconds := rows[id].lockedUntil - now;
    }

    method RecordLoginFailure(id: string, now: int)
      requires Valid() && clock <= now && use(id).Account?
      modifies this
      ensures Valid() && calls == old(calls) + [DoFail(id, now)] && clock == now
    {
      hide RowIs, Power2;
      var failed := 1;
      if id in rows {
        failed := rows[id].count + 1;
      }
      var over := Max(0, failed - LOCKOUT_THRESHOLD);
      var lockedUntil := 0;
      if over > 0 {
        PowerIsPositive(over - 1);
        lockedUntil := now + Min(LOCKOUT_BASE_SECONDS * Power2(over - 1), LOCKOUT_MAX_SECONDS);
      }
      rows := rows[id := Row(failed, now, lockedUntil)];
      Note(DoFail(id, now), old(rows));
    }

    method ClearLoginFailures(id: string, ghost now: int)
      requires Valid() && clock <= now && use(id).Account?
      modifies this
      ensures Valid() && calls == old(calls) + [DoClear(id, now)] && clock == now
      ensures Failures(calls, id) == []
    {
      hide RowIs;
      FailuresNext(calls, DoClear(id, now), id);
      rows := rows - {id};
      Note(DoClear(id, now), old(rows));
    }

    /** The rest of the window that the hits so far have filled, or nothing. */
    method RateLimitWait(key: string, limit: int, window: int, now: int) returns (seconds: int)
      requires Valid() && clock <= now && use(key) == Limited(window)
      ensures seconds == WindowLeft(Hits(calls, key, window), limit, window, now)
    {
      hide Hits, WindowLeft, HitRow;
      assert RowIs(Get(key), use(key), calls, key, clock);
      WaitIsTold(Hits(calls, key, window), limit, window, now);
      if key !in rows || now - rows[key].lastAt >= window {
        return 0;
      }
      if rows[key].count < limit {
        return 0;
      }
      seconds := Max(1, rows[key].lastAt + window - now);
    }

    method RecordRateLimitHit(key: string, window: int, now: int)
      requires Valid() && clock <= now && use(key) == Limited(window)
      modifies this
      ensures Valid() && calls == old(calls) + [DoHit(key, now)] && clock == now
    {
      hide RowIs;
      if key in rows {
        var row := rows[key];
        var count := if now - row.lastAt < window then row.count + 1 else 1;
        var lastAt := if now - row.lastAt < window then row.lastAt else now;
        rows := rows[key := Row(count, lastAt, row.lockedUntil)];
      } else {
        rows := rows[key := Row(1, now, 0)];
      }
      Note(DoHit(key, now), old(rows));
    }

    method PurgeStaleLoginAttempts(age: int, now: int)
      requires Valid() && clock <= now
      modifies this
      ensures Valid() && calls == old(calls) + [DoPurge(age, now)] && clock == now
    {
      hide RowIs;
      rows := map id | id in rows && !(rows[id].lockedUntil <= now && rows[id].lastAt <= now - age) :: rows[id];
      Note(DoPurge(age, now), old(rows));
    }

    method Do(call: Call) returns (answer: Option<int>)
      requires Valid() && clock <= call.at && Proper(use, call)
      modifies this
      ensures Valid() && calls == old(calls) + [call] && clock == call.at
      ensures answer == Deserved(use, old(calls), call)
    {
      hide RowIs, Failures, Hits, LockoutLeft, WindowLeft;
      answer := None;
      match call
      case AskLockout(id, at) =>
        var seconds := GetLockoutRemaining(id, at);
        answer := Some(seconds);
        Note(call, rows);
      case DoFail(id, at) => RecordLoginFailure(id, at);
      case DoClear(id, at) => ClearLoginFailures(id, at);
      case AskRate(id, limit, at) =>
        var seconds := RateLimitWait(id, limit, use(id).window, at);
        answer := Some(seconds);
        Note(call, rows);
      case DoHit(id, at) => RecordRateLimitHit(id, use(id).window, at);
      case DoPurge(age, at) => PurgeStaleLoginAttempts(age, at);
    }

    /** Over every run of calls, in order of time, each question is answered from the calls before it. */
    method Replay(run: seq<Call>) returns (answers: seq<Option<int>>)
      requires Valid() && forall i :: 0 <= i < |run| ==> clock <= run[i].at && Proper(use, run[i])
      requires forall i, j :: 0 <= i < j < |run| ==> run[i].at <= run[j].at
      modifies this
      ensures Valid() && calls == old(calls) + run && |answers| == |run|
      ensures forall i :: 0 <= i < |run| ==> answers[i] == Deserved(use, old(calls) + run[..i], run[i])
    {
      hide RowIs, Deserved, Proper;
      answers := [];
      while |answers| < |run|
        invariant |answers| <= |run| && Valid() && calls == old(calls) + run[..|answers|]
        invariant forall i :: |answers| <= i < |run| ==> clock <= run[i].at
        invariant forall i :: 0 <= i < |answers| ==> answers[i] == Deserved(use, old(calls) + run[..i], run[i])
      {
        var answer := Do(run[|answers|]);
        assert run[..|answers| + 1] == run[..|answers|] + [run[|answers|]];
        answers := answers + [answer];
      }
      assert run[..|answers|] == run;
    }
  }
}
