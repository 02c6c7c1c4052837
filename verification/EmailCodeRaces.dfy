/** `checkEmailCode` of src/conversations.ts when calls for one address interleave: the row is read by one
    statement and the wrong guess written by another, and codes are issued and discarded in between. */
module EmailCodeRaces {
  import opened Wrappers
  import EmailCodes

  const MAX_ATTEMPTS := EmailCodes.MAX_ATTEMPTS

  type CallId = nat

  /** The row of the address: the number of the code it holds, in order of issue, and its attempts. */
  datatype Held = Held(code: nat, attempts: nat)

  /** calls: those that read the row and found their guess wrong, with what they read; answers: the code each
      wrong answer was about. */
  datatype State = State(row: Option<Held>, issued: nat, calls: map<CallId, Held>, answers: seq<nat>)

  datatype Step = IssueCode | RemoveCode | ReadWrong(c: CallId) | WriteWrong(c: CallId) | StopCall(c: CallId)

  /** The second statement: discard on the last attempt read, one more attempt otherwise, on whatever row is there. */
  function Counted(row: Option<Held>, read: Held): Option<Held> {
    if read.attempts + 1 >= MAX_ATTEMPTS || row.None? then None else Some(row.value.(attempts := row.value.attempts + 1))
  }

  /** One step, with at most `k` calls under way; one that is not enabled changes nothing. */
  function Apply(s: State, step: Step, k: nat): State {
    match step
    case IssueCode => s.(row := Some(Held(s.issued, 0)), issued := s.issued + 1)
    case RemoveCode => s.(row := None)
    case ReadWrong(c) =>
      if c !in s.calls && |s.calls| < k && s.row.Some? && s.row.value.attempts < MAX_ATTEMPTS
      then s.(calls := s.calls[c := s.row.value]) else s
    case WriteWrong(c) =>
      if c in s.calls
      then s.(row := Counted(s.row, s.calls[c]), calls := s.calls - {c}, answers := s.answers + [s.calls[c].code]) else s
    case StopCall(c) => s.(calls := s.calls - {c})
  }

  /** With no call in between, the two statements do to the row what a check does in the sequential model. */
  lemma AloneIsACheck(hash: EmailCodes.Code -> string, row: EmailCodes.Row, guess: EmailCodes.Code, now: int, code: nat, s: State, c: CallId)
    requires EmailCodes.Checked(hash, Some(row), guess, now) == EmailCodes.Wrong && 0 <= row.attempts
    requires s.row == Some(Held(code, row.attempts)) && s.calls == map[]
    ensures var s' := Apply(Apply(s, ReadWrong(c), 1), WriteWrong(c), 1);
            var after := EmailCodes.AfterCheck(hash, Some(row), guess, now);
            && (after.None? ==> s'.row == None) && (after.Some? ==> s'.row == Some(Held(code, after.value.attempts)))
            && s'.calls == map[] && s'.answers == s.answers + [code]
  {
    assert map[c := s.row.value] - {c} == map[];
  }

  function Run(s: State, steps: seq<Step>, k: nat): State {
    if steps == [] then s else Apply(Run(s, steps[..|steps| - 1], k), steps[|steps| - 1], k)
  }

  function Start(): State { State(None, 0, map[], []) }

  /** How many wrong answers were about a code. */
  function Wrong(answers: seq<nat>, code: nat): nat {
    if answers == [] then 0
    else Wrong(answers[..|answers| - 1], code) + (if answers[|answers| - 1] == code then 1 else 0)
  }

  lemma WrongNext(answers: seq<nat>, last: nat, code: nat)
    ensures Wrong(answers + [last], code) == Wrong(answers, code) + (if last == code then 1 else 0)
  {
    assert (answers + [last])[..|answers|] == answers;
  }

  /** The calls under way that read a code. */
  function About(calls: map<CallId, Held>, code: nat): set<CallId> { set c | c in calls && calls[c].code == code }

  lemma AboutIsPart(calls: map<CallId, Held>, code: nat)
    ensures |About(calls, code)| <= |calls|
  {
    SmallerSet(About(calls, code), calls.Keys);
  }

  lemma SmallerSet(a: set<CallId>, b: set<CallId>)
    requires a <= b
    ensures |a| <= |b|
  {
    assert b == a + (b - a);
  }

  // ------------------------------------------------------------ the bound

  /** What was answered about the code held has been counted against it. */
  predicate RowCounts(s: State) {
    s.row.Some? ==> s.row.value.code < s.issued && Wrong(s.answers, s.row.value.code) <= s.row.value.attempts
  }

  /** Nothing is about a code not issued yet. */
  ghost predicate NothingAhead(s: State) {
    && (forall c :: c in s.calls ==> s.calls[c].code < s.issued)
    && (forall code :: s.issued <= code ==> Wrong(s.answers, code) == 0)
  }

  /** Answered and still to be answered, each code stays within four and the calls under way at once. */
  ghost predicate Bounded(s: State, k: nat) {
    |s.calls| <= k && forall code :: Wrong(s.answers, code) + |About(s.calls, code)| <= MAX_ATTEMPTS - 1 + k
  }

  ghost predicate Sound(s: State, k: nat) { RowCounts(s) && NothingAhead(s) && Bounded(s, k) }

  lemma ReadKeepsSound(s: State, c: CallId, k: nat)
    requires Sound(s, k)
    ensures Sound(Apply(s, ReadWrong(c), k), k)
  {
    hide Wrong;
    var s' := Apply(s, ReadWrong(c), k);
    if s' != s {
      assert s'.calls.Keys == s.calls.Keys + {c};
      forall code
        ensures Wrong(s'.answers, code) + |About(s'.calls, code)| <= MAX_ATTEMPTS - 1 + k
      {
        if code == s.row.value.code {
          AboutIsPart(s'.calls, code);
        } else {
          assert About(s'.calls, code) == About(s.calls, code);
        }
      }
    }
  }

  lemma WriteKeepsSound(s: State, c: CallId, k: nat)
    requires Sound(s, k)
    ensures Sound(Apply(s, WriteWrong(c), k), k)
  {
    hide Wrong;
    if c in s.calls {
      var s' := Apply(s, WriteWrong(c), k);
      forall code
        ensures Wrong(s'.answers, code) == Wrong(s.answers, code) + (if s.calls[c].code == code then 1 else 0)
        ensures Wrong(s'.answers, code) + |About(s'.calls, code)| == Wrong(s.answers, code) + |About(s.calls, code)|
      {
        WrongNext(s.answers, s.calls[c].code, code);
        AboutWithout(s.calls, c, code);
      }
      FewerCalls(s.calls, c);
    }
  }

  lemma StopKeepsSound(s: State, c: CallId, k: nat)
    requires Sound(s, k)
    ensures Sound(Apply(s, StopCall(c), k), k)
  {
    hide Wrong;
    var s' := Apply(s, StopCall(c), k);
    if c in s.calls {
      FewerCalls(s.calls, c);
      forall code
        ensures |About(s'.calls, code)| <= |About(s.calls, code)|
      {
        AboutWithout(s.calls, c, code);
      }
    } else {
      assert s'.calls == s.calls;
    }
  }

  lemma AboutWithout(calls: map<CallId, Held>, c: CallId, code: nat)
    requires c in calls
    ensures |About(calls - {c}, code)| == |About(calls, code)| - (if calls[c].code == code then 1 else 0)
  {
    if calls[c].code == code {
      assert c in About(calls, code) && About(calls - {c}, code) == About(calls, code) - {c};
    } else {
      assert About(calls - {c}, code) == About(calls, code);
    }
  }

  lemma FewerCalls(calls: map<CallId, Held>, c: CallId)
    requires c in calls
    ensures |calls - {c}| == |calls| - 1
  {
    assert (calls - {c}).Keys == calls.Keys - {c};
  }

  lemma StepKeepsSound(s: State, step: Step, k: nat)
    requires Sound(s, k)
    ensures Sound(Apply(s, step, k), k)
  {
    hide Wrong, About;
    match step
    case ReadWrong(c) => ReadKeepsSound(s, c, k);
    case WriteWrong(c) => WriteKeepsSound(s, c, k);
    case StopCall(c) => StopKeepsSound(s, c, k);
    case IssueCode =>
    case RemoveCode =>
  }

  lemma {:induction false} RunKeepsSound(steps: seq<Step>, k: nat)
    ensures Sound(Run(Start(), steps, k), k)
    decreases |steps|
  {
    hide Apply, Sound;
    if steps == [] {
      StartIsSound(k);
    } else {
      RunKeepsSound(steps[..|steps| - 1], k);
      StepKeepsSound(Run(Start(), steps[..|steps| - 1], k), steps[|steps| - 1], k);
    }
  }

  lemma StartIsSound(k: nat)
    ensures Sound(Start(), k)
  {
    forall code: nat
      ensures |About(map[], code)| == 0
    {
    }
  }

  /** In every interleaving with at most `k` calls under way at once, a code is answered wrong at most four
      times and once more for each of them; with one at a time that is the five the source means. */
  lemma WrongAnswersAreBounded(steps: seq<Step>, k: nat, code: nat)
    ensures Wrong(Run(Start(), steps, k).answers, code) <= MAX_ATTEMPTS - 1 + k
  {
    RunKeepsSound(steps, k);
    assert Bounded(Run(Start(), steps, k), k);
  }

  // ------------------------------------------------------------ and it is met

  /** Four calls one after the other. */
  function InTurn(n: nat): seq<Step> { if n == 0 then [IssueCode] else InTurn(n - 1) + [ReadWrong(0)] + [WriteWrong(0)] }

  /** Then so many that all read before any writes. */
  function AtOnce(n: nat): seq<Step> { if n == 0 then InTurn(MAX_ATTEMPTS - 1) else AtOnce(n - 1) + [ReadWrong(n - 1)] }

  function Answered(k: nat, n: nat): seq<Step> { if n == 0 then AtOnce(k) else Answered(k, n - 1) + [WriteWrong(n - 1)] }

  function Zeros(n: nat): seq<nat> { seq(n, _ => 0) }

  lemma RunNext(s: State, steps: seq<Step>, step: Step, k: nat)
    ensures Run(s, steps + [step], k) == Apply(Run(s, steps, k), step, k)
  {
    hide Apply;
    assert (steps + [step])[..|steps|] == steps;
  }

  lemma {:induction false} AfterInTurn(n: nat, k: nat)
    requires n < MAX_ATTEMPTS && k >= 1
    ensures Run(Start(), InTurn(n), k) == State(Some(Held(0, n)), 1, map[], Zeros(n))
  {
    hide Run;
    if n == 0 {
      RunNext(Start(), [], IssueCode, k);
      assert Run(Start(), [], k) == Start() by { RunOfNothing(Start(), k); }
      assert [] + [IssueCode] == [IssueCode];
    } else {
      AfterInTurn(n - 1, k);
      RunNext(Start(), InTurn(n - 1), ReadWrong(0), k);
      RunNext(Start(), InTurn(n - 1) + [ReadWrong(0)], WriteWrong(0), k);
      assert Zeros(n - 1) + [0] == Zeros(n);
      assert map[0 := Held(0, n - 1)] - {0} == map[];
    }
  }

  lemma RunOfNothing(s: State, k: nat)
    ensures Run(s, [], k) == s
  {
  }

  predicate Between(low: nat, c: nat, high: nat) { low <= c < high }

  /** The calls of a range, each having read the fourth attempt. */
  function Reading(low: nat, high: nat): map<CallId, Held> {
    map c: nat | low <= c < high && Between(low, c, high) :: Held(0, MAX_ATTEMPTS - 1)
  }

  lemma {:induction false} ReadingSize(low: nat, high: nat)
    requires low <= high
    ensures |Reading(low, high)| == high - low
    decreases high
  {
    if low < high {
      ReadingSize(low, high - 1);
      assert Reading(low, high) == Reading(low, high - 1)[high - 1 := Held(0, MAX_ATTEMPTS - 1)];
    } else {
      assert Reading(low, high) == map[];
    }
  }

  lemma {:induction false} AfterAtOnce(n: nat, k: nat)
    requires 1 <= k && n <= k
    ensures Run(Start(), AtOnce(n), k) == State(Some(Held(0, MAX_ATTEMPTS - 1)), 1, Reading(0, n), Zeros(MAX_ATTEMPTS - 1))
  {
    hide Run, Zeros;
    if n == 0 {
      AfterInTurn(MAX_ATTEMPTS - 1, k);
      assert Reading(0, 0) == map[];
    } else {
      AfterAtOnce(n - 1, k);
      RunNext(Start(), AtOnce(n - 1), ReadWrong(n - 1), k);
      ReadingSize(0, n - 1);
      assert Reading(0, n) == Reading(0, n - 1)[n - 1 := Held(0, MAX_ATTEMPTS - 1)];
    }
  }

  lemma {:induction false} AfterAnswered(k: nat, n: nat)
    requires 1 <= k && n <= k
    ensures var s := Run(Start(), Answered(k, n), k);
            s.calls == Reading(n, k) && s.answers == Zeros(MAX_ATTEMPTS - 1 + n)
  {
    hide Run;
    if n == 0 {
      AfterAtOnce(k, k);
    } else {
      AfterAnswered(k, n - 1);
      RunNext(Start(), Answered(k, n - 1), WriteWrong(n - 1), k);
      assert n - 1 in Reading(n - 1, k) && Reading(n - 1, k) - {n - 1} == Reading(n, k);
      assert Zeros(MAX_ATTEMPTS - 1 + n - 1) + [0] == Zeros(MAX_ATTEMPTS - 1 + n);
    }
  }

  lemma {:induction false} WrongOfZeros(n: nat)
    ensures Wrong(Zeros(n), 0) == n
  {
    if n > 0 {
      WrongOfZeros(n - 1);
      assert Zeros(n)[..n - 1] == Zeros(n - 1);
    }
  }

  /** The bound is met for every number of calls: four guesses in turn, then `k` that all read the fourth attempt. */
  lemma BoundIsMet(k: nat)
    requires k >= 1
    ensures Wrong(Run(Start(), Answered(k, k), k).answers, 0) == MAX_ATTEMPTS - 1 + k
  {
    hide Run;
    AfterAnswered(k, k);
    WrongOfZeros(MAX_ATTEMPTS - 1 + k);
  }
}
