/** Automatic bug reports of src/bug_reports.ts as a machine of single statements: issues are listed, organizations
    opt in and out, and the hourly run looks a problem up, writes to GitHub, records the report and marks the
    issue, stopping anywhere. */
module BugReports {
  type Id = string
  type Signature = string

  const MAX_ISSUES_PER_RUN := 20
  const MAX_WRITES_PER_RUN := 5

  datatype ReportState = NotReported | Pending | Sent(signature: Signature)

  /** A listed issue with the signature of its redacted text. */
  datatype Issue = Issue(tenant: Id, signature: Signature, createdAt: int, state: ReportState)

  /** Whether an organization opted in, and whether to the terms that are current. */
  datatype Org = Org(enabled: bool, currentTerms: bool)

  /** A row as the run read it. */
  datatype Row = Row(id: Id, signature: Signature)

  /** How far the run is with its first row: not looked up, found absent, written to GitHub, to be marked. */
  datatype Phase = Looking | Absent | Wrote | Marking

  datatype Job = Idle | Running(queue: seq<Row>, writes: nat, phase: Phase)

  /** log: every write GitHub took; lost: those of them that were never recorded; start: the length of the log
      when the last run began; taken: the issues runs read. */
  datatype State = State(orgs: map<Id, Org>, issues: map<Id, Issue>, reports: set<Signature>, job: Job,
                         log: seq<Signature>, lost: seq<Signature>, start: nat, taken: set<Id>)

  datatype Step =
    | List(id: Id, tenant: Id, signature: Signature, at: int)
    | ListPrivately(id: Id, tenant: Id, signature: Signature, at: int)
    | Forget(ids: set<Id>)
    | OptIn(tenant: Id)
    | OptOut(tenant: Id)
    | TermsChange
    | Begin(queue: seq<Row>)
    | LookUp
    | Write
    | WriteUnheard
    | Insert
    | Mark
    | Stop

  // ------------------------------------------------------------ steps

  function OptedOut(issues: map<Id, Issue>, tenant: Id): map<Id, Issue> {
    map id | id in issues ::
      if issues[id].tenant == tenant && issues[id].state == Pending then issues[id].(state := NotReported) else issues[id]
  }

  /** A row the run may read: pending, of an organization opted in under the current terms. */
  predicate Due(s: State, row: Row) {
    && row.id in s.issues && s.issues[row.id].state == Pending && row.signature == s.issues[row.id].signature
    && s.issues[row.id].tenant in s.orgs && s.orgs[s.issues[row.id].tenant] == Org(true, true)
  }

  function Ids(queue: seq<Row>): set<Id> { set row | row in queue :: row.id }

  function MarkSent(issues: map<Id, Issue>, row: Row): map<Id, Issue> {
    if row.id in issues then issues[row.id := issues[row.id].(state := Sent(row.signature))] else issues
  }

  predicate Enabled(s: State, step: Step) {
    match step
    // Ids are random, or of another kind: one that a run has read is not given again.
    case List(id, _, _, _) => id !in s.issues && id !in s.taken
    case ListPrivately(id, _, _, _) => id !in s.issues && id !in s.taken
    case Begin(queue) => s.job.Idle? && |queue| <= MAX_ISSUES_PER_RUN && forall i :: 0 <= i < |queue| ==> Due(s, queue[i])
    case LookUp => s.job.Running? && s.job.queue != [] && s.job.phase == Looking
    case Write => s.job.Running? && s.job.queue != [] && s.job.phase == Absent && s.job.writes < MAX_WRITES_PER_RUN
    case WriteUnheard => s.job.Running? && s.job.queue != [] && s.job.phase == Absent && s.job.writes < MAX_WRITES_PER_RUN
    case Insert => s.job.Running? && s.job.queue != [] && s.job.phase == Wrote
    case Mark => s.job.Running? && s.job.queue != [] && s.job.phase == Marking
    case Stop => s.job.Running?
    case _ => true
  }

  function Next(s: State, step: Step): State
    requires Enabled(s, step)
  {
    match step
    case List(id, tenant, signature, at) =>
      // INSERT ... SELECT ... FROM tenants: nothing for an organization that does not exist.
      if tenant !in s.orgs then s
      else s.(issues := s.issues[id := Issue(tenant, signature, at, if s.orgs[tenant].enabled then Pending else NotReported)])
    case ListPrivately(id, tenant, signature, at) => s.(issues := s.issues[id := Issue(tenant, signature, at, NotReported)])
    case Forget(ids) => s.(issues := s.issues - ids)
    case OptIn(tenant) => if tenant in s.orgs then s.(orgs := s.orgs[tenant := Org(true, true)]) else s
    case OptOut(tenant) =>
      s.(orgs := if tenant in s.orgs then s.orgs[tenant := s.orgs[tenant].(enabled := false)] else s.orgs,
         issues := OptedOut(s.issues, tenant))
    case TermsChange => s.(orgs := map t | t in s.orgs :: s.orgs[t].(currentTerms := false))
    case Begin(queue) => s.(job := Running(queue, 0, Looking), start := |s.log|, taken := s.taken + Ids(queue))
    case LookUp => s.(job := s.job.(phase := if s.job.queue[0].signature in s.reports then Marking else Absent))
    case Write =>
      s.(job := s.job.(phase := Wrote, writes := s.job.writes + 1), log := s.log + [s.job.queue[0].signature])
    case WriteUnheard =>
      s.(job := Idle, log := s.log + [s.job.queue[0].signature], lost := s.lost + [s.job.queue[0].signature])
    case Insert => s.(job := s.job.(phase := Marking), reports := s.reports + {s.job.queue[0].signature})
    case Mark => s.(job := s.job.(queue := s.job.queue[1..], phase := Looking), issues := MarkSent(s.issues, s.job.queue[0]))
    case Stop =>
      if s.job.phase == Wrote && s.job.queue != [] then s.(job := Idle, lost := s.lost + [s.job.queue[0].signature])
      else s.(job := Idle)
  }

  // ------------------------------------------------------------ what every step keeps

  function Occurs(log: seq<Signature>, signature: Signature): nat {
    if log == [] then 0 else Occurs(log[..|log| - 1], signature) + (if log[|log| - 1] == signature then 1 else 0)
  }

  lemma OccursOneMore(log: seq<Signature>, last: Signature, signature: Signature)
    ensures Occurs(log + [last], signature) == Occurs(log, signature) + (if last == signature then 1 else 0)
  {
  }

  /** A pending issue belongs to an organization that is opted in. */
  predicate PendingIsOptedIn(s: State) {
    forall id :: id in s.issues && s.issues[id].state == Pending ==>
      s.issues[id].tenant in s.orgs && s.orgs[s.issues[id].tenant].enabled
  }

  /** A sent issue has a report, and was read by a run. */
  predicate SentIsReported(s: State) {
    forall id :: id in s.issues && s.issues[id].state.Sent? ==> s.issues[id].state.signature in s.reports && id in s.taken
  }

  /** The signature written to GitHub but not yet recorded. */
  predicate InFlight(s: State, signature: Signature) {
    s.job.Running? && s.job.phase == Wrote && s.job.queue != [] && s.job.queue[0].signature == signature
  }

  /** Every write is in the reports once, in flight or lost. */
  ghost predicate WritesAccounted(s: State) {
    forall signature :: Occurs(s.log, signature)
      == Occurs(s.lost, signature) + (if signature in s.reports then 1 else 0) + (if InFlight(s, signature) then 1 else 0)
  }

  predicate JobSound(s: State) {
    && s.start <= |s.log| <= s.start + MAX_WRITES_PER_RUN
    && (s.job.Running? ==>
          && |s.log| == s.start + s.job.writes
          && (forall i :: 0 <= i < |s.job.queue| ==> s.job.queue[i].id in s.taken)
          && (s.job.queue == [] ==> s.job.phase == Looking)
          && (s.job.queue != [] && s.job.phase == Marking ==> s.job.queue[0].signature in s.reports)
          && (s.job.queue != [] && (s.job.phase == Absent || s.job.phase == Wrote) ==> s.job.queue[0].signature !in s.reports))
  }

  ghost predicate Inv(s: State) {
    PendingIsOptedIn(s) && SentIsReported(s) && WritesAccounted(s) && JobSound(s)
  }

  lemma StepKeepsPending(s: State, step: Step)
    requires PendingIsOptedIn(s) && Enabled(s, step)
    ensures PendingIsOptedIn(Next(s, step))
  {
  }

  lemma StepKeepsSent(s: State, step: Step)
    requires SentIsReported(s) && JobSound(s) && Enabled(s, step)
    ensures SentIsReported(Next(s, step))
  {
  }

  lemma StepKeepsJob(s: State, step: Step)
    requires JobSound(s) && Enabled(s, step)
    ensures JobSound(Next(s, step))
  {
  }

  lemma StepKeepsWrites(s: State, step: Step)
    requires WritesAccounted(s) && JobSound(s) && Enabled(s, step)
    ensures WritesAccounted(Next(s, step))
  {
    hide Occurs;
    var t := Next(s, step);
    forall signature
      ensures Occurs(t.log, signature)
           == Occurs(t.lost, signature) + (if signature in t.reports then 1 else 0) + (if InFlight(t, signature) then 1 else 0)
    {
      if s.job.Running? && s.job.queue != [] {
        OccursOneMore(s.log, s.job.queue[0].signature, signature);
        OccursOneMore(s.lost, s.job.queue[0].signature, signature);
      }
    }
  }

  lemma StepKeepsInv(s: State, step: Step)
    requires Inv(s) && Enabled(s, step)
    ensures Inv(Next(s, step))
  {
    StepKeepsPending(s, step);
    StepKeepsSent(s, step);
    StepKeepsJob(s, step);
    StepKeepsWrites(s, step);
  }

  // ------------------------------------------------------------ whole runs

  function Start(orgs: map<Id, Org>): State { State(orgs, map[], {}, Idle, [], [], 0, {}) }

  predicate Possible(s: State, steps: seq<Step>)
    decreases |steps|
  {
    steps == [] || (Enabled(s, steps[0]) && Possible(Next(s, steps[0]), steps[1..]))
  }

  function After(s: State, steps: seq<Step>): State
    requires Possible(s, steps)
    decreases |steps|
  {
    if steps == [] then s else After(Next(s, steps[0]), steps[1..])
  }

  lemma {:induction false} RunKeepsInv(s: State, steps: seq<Step>)
    requires Inv(s) && Possible(s, steps)
    ensures Inv(After(s, steps))
    decreases |steps|
  {
    hide Inv, Enabled, Next;
    if steps != [] {
      StepKeepsInv(s, steps[0]);
      RunKeepsInv(Next(s, steps[0]), steps[1..]);
    }
  }

  /** In every state that can be reached, pending issues are of organizations opted in, sent ones have a
      report, and the last run wrote to GitHub at most five times. */
  lemma Reached(orgs: map<Id, Org>, steps: seq<Step>)
    requires Possible(Start(orgs), steps)
    ensures var s := After(Start(orgs), steps);
            PendingIsOptedIn(s) && SentIsReported(s) && |s.log| - s.start <= 5
  {
    RunKeepsInv(Start(orgs), steps);
  }

  /** Over all runs a signature is written once for its report and once for every write that was lost;
      with none lost, at most once, and exactly once when it has a report. */
  lemma OneWriteEach(orgs: map<Id, Org>, steps: seq<Step>, signature: Signature)
    requires Possible(Start(orgs), steps) && After(Start(orgs), steps).job.Idle?
    ensures var s := After(Start(orgs), steps);
            && Occurs(s.log, signature) == Occurs(s.lost, signature) + (if signature in s.reports then 1 else 0)
            && (Occurs(s.lost, signature) == 0 ==> Occurs(s.log, signature) <= 1 && (Occurs(s.log, signature) == 1 <==> signature in s.reports))
  {
    RunKeepsInv(Start(orgs), steps);
    assert WritesAccounted(After(Start(orgs), steps));
  }

  lemma {:induction false} OneMoreStep(s: State, steps: seq<Step>, step: Step)
    requires Possible(s, steps) && Enabled(After(s, steps), step)
    ensures Possible(s, steps + [step]) && After(s, steps + [step]) == Next(After(s, steps), step)
    decreases |steps|
  {
    hide Enabled, Next;
    var all := steps + [step];
    if steps == [] {
      assert all[1..] == [];
    } else {
      assert all[1..] == steps[1..] + [step];
      OneMoreStep(Next(s, steps[0]), steps[1..], step);
    }
  }

  // ------------------------------------------------------------ what is sent, and of whom

  lemma {:induction false} LastStep(s: State, steps: seq<Step>)
    requires steps != [] && Possible(s, steps)
    ensures var init, last := steps[..|steps| - 1], steps[|steps| - 1];
            Possible(s, init) && Enabled(After(s, init), last) && After(s, steps) == Next(After(s, init), last)
    decreases |steps|
  {
    hide Enabled, Next;
    var init := steps[..|steps| - 1];
    if |steps| > 1 {
      LastStep(Next(s, steps[0]), steps[1..]);
      assert steps[1..][..|steps| - 2] == init[1..] && init[0] == steps[0];
      assert steps[1..][|steps| - 2] == steps[|steps| - 1];
    } else {
      assert init == [] && steps[1..] == [];
    }
  }

  /** The step starts a run that reads the issue, pending, of an organization opted in to the current terms. */
  predicate ReadsUnderTerms(s: State, step: Step, id: Id) {
    && step.Begin? && id in Ids(step.queue) && id in s.issues && s.issues[id].state == Pending
    && s.issues[id].tenant in s.orgs && s.orgs[s.issues[id].tenant].enabled && s.orgs[s.issues[id].tenant].currentTerms
  }

  ghost predicate WasReadUnderTerms(s: State, steps: seq<Step>, id: Id) {
    exists k :: 0 <= k < |steps| && Possible(s, steps[..k]) && ReadsUnderTerms(After(s, steps[..k]), steps[k], id)
  }

  lemma {:induction false} TakenWasRead(orgs: map<Id, Org>, steps: seq<Step>, id: Id)
    requires Possible(Start(orgs), steps) && id in After(Start(orgs), steps).taken
    ensures WasReadUnderTerms(Start(orgs), steps, id)
    decreases |steps|
  {
    hide ReadsUnderTerms, Enabled, Next;
    if steps != [] {
      var init, last := steps[..|steps| - 1], steps[|steps| - 1];
      LastStep(Start(orgs), steps);
      var before := After(Start(orgs), init);
      if id in before.taken {
        TakenWasRead(orgs, init, id);
        var k :| 0 <= k < |init| && Possible(Start(orgs), init[..k]) && ReadsUnderTerms(After(Start(orgs), init[..k]), init[k], id);
        assert steps[..k] == init[..k] && steps[k] == init[k];
      } else {
        NewlyTaken(before, last, id);
      }
    }
  }

  lemma NewlyTaken(s: State, step: Step, id: Id)
    requires Enabled(s, step) && id !in s.taken && id in Next(s, step).taken
    ensures ReadsUnderTerms(s, step, id)
  {
    var row :| row in step.queue && row.id == id;
    var i :| 0 <= i < |step.queue| && step.queue[i] == row;
    assert Due(s, step.queue[i]);
  }

  /** Over every run, an issue is sent only after a run read it while it was pending and its organization was opted in
      under the terms then current. */
  lemma SentWasReadUnderTerms(orgs: map<Id, Org>, steps: seq<Step>, id: Id)
    requires Possible(Start(orgs), steps) && IsSent(After(Start(orgs), steps), id)
    ensures WasReadUnderTerms(Start(orgs), steps, id)
  {
    hide WasReadUnderTerms;
    Reached(orgs, steps);
    TakenWasRead(orgs, steps, id);
  }

  /** What listing, opting in and out and new terms do: a boot issue waits exactly when its organization has opted in,
      any other never does, and nobody else's choice or issue changes. */
  lemma ListedIsPending(s: State, id: Id, t: Id, signature: Signature, at: int)
    requires id !in s.issues && id !in s.taken && t in s.orgs
    ensures Next(s, List(id, t, signature, at)).issues
         == s.issues[id := Issue(t, signature, at, if s.orgs[t].enabled then Pending else NotReported)]
    ensures Next(s, ListPrivately(id, t, signature, at)).issues == s.issues[id := Issue(t, signature, at, NotReported)]
  {
  }

  lemma ChoicesAre(s: State, t: Id, other: Id)
    requires t in s.orgs
    ensures Next(s, OptIn(t)).orgs == s.orgs[t := Org(true, true)] && Next(s, OptIn(t)).issues == s.issues
    ensures Next(s, OptOut(t)).orgs == s.orgs[t := Org(false, s.orgs[t].currentTerms)]
    ensures other in s.orgs ==> var after := Next(s, TermsChange).orgs; other in after && after[other] == Org(s.orgs[other].enabled, false)
  {
  }

  // ------------------------------------------------------------ when opting out is honoured

  predicate OptedOutOf(s: State, t: Id) { t in s.orgs ==> !s.orgs[t].enabled }

  /** The run under way has read the issue and not come to it yet. */
  predicate InQueue(s: State, id: Id) { s.job.Running? && exists i :: 0 <= i < |s.job.queue| && s.job.queue[i].id == id }

  predicate IsSent(s: State, id: Id) { id in s.issues && s.issues[id].state.Sent? }

  /** Against the state in which an organization had opted out: it still has, what is queued of it was queued
      then, and what is sent of it was sent or queued then. */
  ghost predicate Honours(was: State, s: State, t: Id) {
    && OptedOutOf(s, t)
    && (forall id :: id in s.issues && s.issues[id].tenant == t && InQueue(s, id) ==> InQueue(was, id))
    && (forall id :: id in s.issues && s.issues[id].tenant == t && IsSent(s, id) ==> IsSent(was, id) || InQueue(was, id))
  }

  lemma StepHonours(was: State, s: State, step: Step, t: Id)
    requires Inv(s) && Enabled(s, step) && step != OptIn(t) && Honours(was, s, t)
    ensures Honours(was, Next(s, step), t)
  {
    hide WritesAccounted;
    match step
    case Begin(queue) => BeginHonours(was, s, queue, t);
    case Mark => MarkHonours(was, s, t);
    case _ => OtherStepHonours(was, s, step, t);
  }

  lemma BeginHonours(was: State, s: State, queue: seq<Row>, t: Id)
    requires Enabled(s, Begin(queue)) && Honours(was, s, t)
    ensures Honours(was, Next(s, Begin(queue)), t)
  {
    hide Ids;
    var s' := Next(s, Begin(queue));
    forall id | id in s'.issues && s'.issues[id].tenant == t
      ensures !InQueue(s', id)
    {
      assert forall i :: 0 <= i < |queue| ==> Due(s, queue[i]);
    }
    assert forall id :: IsSent(s', id) <==> IsSent(s, id);
  }

  lemma MarkHonours(was: State, s: State, t: Id)
    requires Enabled(s, Mark) && Honours(was, s, t)
    ensures Honours(was, Next(s, Mark), t)
  {
    var s', row := Next(s, Mark), s.job.queue[0];
    assert InQueue(s, row.id);
    forall id | InQueue(s', id)
      ensures InQueue(s, id)
    {
      var i :| 0 <= i < |s'.job.queue| && s'.job.queue[i].id == id;
      assert s.job.queue[i + 1].id == id;
    }
  }

  lemma OtherStepHonours(was: State, s: State, step: Step, t: Id)
    requires JobSound(s) && Enabled(s, step) && step != OptIn(t) && !step.Begin? && !step.Mark? && Honours(was, s, t)
    ensures Honours(was, Next(s, step), t)
  {
    var s' := Next(s, step);
    forall id | InQueue(s', id)
      ensures InQueue(s, id) && id in s.taken
    {
    }
  }

  predicate Without(steps: seq<Step>, step: Step) { forall i :: 0 <= i < |steps| ==> steps[i] != step }

  lemma {:induction false} RunHonours(was: State, s: State, steps: seq<Step>, t: Id)
    requires Inv(s) && Possible(s, steps) && Without(steps, OptIn(t)) && Honours(was, s, t)
    ensures Honours(was, After(s, steps), t)
    decreases |steps|
  {
    hide Inv, Enabled, Next, Honours;
    if steps != [] {
      StepKeepsInv(s, steps[0]);
      StepHonours(was, s, steps[0], t);
      RunHonours(was, Next(s, steps[0]), steps[1..], t);
    }
  }

  /** Opting out is honoured: over every run until the organization opts in again, an issue of it becomes sent
      only if the run under way at the time had it still to come. */
  lemma OptOutIsHonoured(s: State, steps: seq<Step>, t: Id, id: Id)
    requires Inv(s) && OptedOutOf(s, t) && Possible(s, steps) && Without(steps, OptIn(t))
    requires id in After(s, steps).issues && After(s, steps).issues[id].tenant == t && IsSent(After(s, steps), id)
    ensures IsSent(s, id) || InQueue(s, id)
  {
    hide Inv, Possible, After;
    assert Honours(s, s, t);
    RunHonours(s, s, steps, t);
  }

  /** The steps with which a run sends the row it is at. */
  function StepsToSend(s: State): seq<Step>
    requires s.job.Running? && s.job.queue != []
  {
    if s.job.queue[0].signature in s.reports then [LookUp, Mark] else [LookUp, Write, Insert, Mark]
  }

  /** And that is all that is honoured: the row a run is at is sent whatever its organization has done
      since, exactly when its problem has a report or a write is left to the run. */
  lemma HeadIsSent(s: State)
    requires s.job.Running? && s.job.queue != [] && s.job.phase == Looking && s.job.queue[0].id in s.issues
    ensures Possible(s, StepsToSend(s)) <==> s.job.queue[0].signature in s.reports || s.job.writes < 5
    ensures Possible(s, StepsToSend(s)) ==>
              var s' := After(s, StepsToSend(s));
              && s'.issues == MarkSent(s.issues, s.job.queue[0]) && IsSent(s', s.job.queue[0].id) && s'.orgs == s.orgs
  {
    hide Possible, After, Next, Enabled, MarkSent;
    if s.job.queue[0].signature in s.reports {
      ReportedIsMarked(s);
      TwoSteps(s, LookUp, Mark);
    } else {
      AbsentIsWritten(s);
      FourSteps(s, LookUp, Write, Insert, Mark);
    }
    assert s.job.queue[0].id in MarkSent(s.issues, s.job.queue[0]) && MarkSent(s.issues, s.job.queue[0])[s.job.queue[0].id].state.Sent? by {
      MarkedIsSent(s.issues, s.job.queue[0]);
    }
  }

  lemma MarkedIsSent(issues: map<Id, Issue>, row: Row)
    requires row.id in issues
    ensures row.id in MarkSent(issues, row) && MarkSent(issues, row)[row.id].state == Sent(row.signature)
  {
  }

  lemma ReportedIsMarked(s: State)
    requires s.job.Running? && s.job.queue != [] && s.job.phase == Looking && s.job.queue[0].signature in s.reports
    ensures Enabled(s, LookUp) && Enabled(Next(s, LookUp), Mark)
    ensures var s' := Next(Next(s, LookUp), Mark); s'.issues == MarkSent(s.issues, s.job.queue[0]) && s'.orgs == s.orgs
  {
    hide MarkSent, Due, Ids, OptedOut;
  }

  lemma AbsentIsWritten(s: State)
    requires s.job.Running? && s.job.queue != [] && s.job.phase == Looking && s.job.queue[0].signature !in s.reports
    ensures Enabled(s, LookUp) && (Enabled(Next(s, LookUp), Write) <==> s.job.writes < 5)
    ensures s.job.writes < 5 ==>
              var written := Next(Next(s, LookUp), Write);
              && Enabled(written, Insert) && Enabled(Next(written, Insert), Mark)
              && Next(Next(written, Insert), Mark).issues == MarkSent(s.issues, s.job.queue[0])
              && Next(Next(written, Insert), Mark).orgs == s.orgs
  {
    hide MarkSent, Due, Ids, OptedOut;
  }

  lemma TwoSteps(s: State, a: Step, b: Step)
    ensures Possible(s, [a, b]) <==> Enabled(s, a) && Enabled(Next(s, a), b)
    ensures Possible(s, [a, b]) ==> After(s, [a, b]) == Next(Next(s, a), b)
  {
    hide Enabled, Next;
    assert [a, b][1..] == [b] && [b][1..] == [];
    assert Possible(s, [a, b]) <==> Enabled(s, a) && Possible(Next(s, a), [b]);
    if Possible(s, [a, b]) {
      assert After(s, [a, b]) == After(Next(s, a), [b]);
    }
  }

  lemma FourSteps(s: State, a: Step, b: Step, c: Step, d: Step)
    ensures Possible(s, [a, b, c, d]) <==> Enabled(s, a) && Enabled(Next(s, a), b) && Possible(Next(Next(s, a), b), [c, d])
    ensures Possible(s, [a, b, c, d]) ==> After(s, [a, b, c, d]) == After(Next(Next(s, a), b), [c, d])
    ensures Enabled(s, a) && Enabled(Next(s, a), b) ==>
              (Possible(Next(Next(s, a), b), [c, d]) <==>
                Enabled(Next(Next(s, a), b), c) && Enabled(Next(Next(Next(s, a), b), c), d))
    ensures Possible(s, [a, b, c, d]) ==> After(s, [a, b, c, d]) == Next(Next(Next(Next(s, a), b), c), d)
  {
    hide Enabled, Next;
    var all := [a, b, c, d];
    assert all[1..] == [b, c, d] && [b, c, d][1..] == [c, d];
    assert Possible(s, all) <==> Enabled(s, a) && Possible(Next(s, a), [b, c, d]);
    if Enabled(s, a) {
      assert Possible(Next(s, a), [b, c, d]) <==> Enabled(Next(s, a), b) && Possible(Next(Next(s, a), b), [c, d]);
      if Enabled(Next(s, a), b) {
        TwoSteps(Next(Next(s, a), b), c, d);
      }
    }
  }

  /** So an organization that opts out while the run is at one of its issues comes too late for it. */
  lemma OptOutMayComeTooLate(s: State)
    requires s.job.Running? && s.job.queue != [] && s.job.phase == Looking && s.job.queue[0].id in s.issues
    requires s.job.queue[0].signature in s.reports || s.job.writes < MAX_WRITES_PER_RUN
    ensures var row := s.job.queue[0];
            var out := Next(s, OptOut(s.issues[row.id].tenant));
            && OptedOutOf(out, s.issues[row.id].tenant) && Possible(out, StepsToSend(out)) && IsSent(After(out, StepsToSend(out)), row.id)
  {
    hide StepsToSend, After, Possible;
    var out := Next(s, OptOut(s.issues[s.job.queue[0].id].tenant));
    assert out.job == s.job && out.reports == s.reports && out.issues.Keys == s.issues.Keys;
    HeadIsSent(out);
  }

  /** A stop between the write and its record makes the next run that reads the issue write again. */
  lemma LostWriteIsRepeated(s: State)
    requires s.job.Running? && s.job.queue != [] && s.job.phase == Absent && s.job.writes < MAX_WRITES_PER_RUN
    requires Due(s, s.job.queue[0]) && s.job.queue[0].signature !in s.reports
    ensures var row := s.job.queue[0];
            var stopped := Next(Next(s, Write), Stop);
            && stopped.lost == s.lost + [row.signature] && Enabled(stopped, Begin([row]))
            && Next(Next(Next(stopped, Begin([row])), LookUp), Write).log == s.log + [row.signature] + [row.signature]
  {
    var row := s.job.queue[0];
    var stopped := Next(Next(s, Write), Stop);
    assert Due(stopped, row);
  }

  /** Such states are reached, for every organization that opted in, every issue and every problem. */
  lemma RunComesToAnIssue(orgs: map<Id, Org>, t: Id, id: Id, signature: Signature, at: int)
    requires t in orgs && orgs[t] == Org(true, true)
    ensures var steps := [List(id, t, signature, at), Begin([Row(id, signature)])];
            && Possible(Start(orgs), steps)
            && After(Start(orgs), steps).job == Running([Row(id, signature)], 0, Looking)
            && id in After(Start(orgs), steps).issues && After(Start(orgs), steps).issues[id].tenant == t
  {
    hide Ids;
    TwoSteps(Start(orgs), List(id, t, signature, at), Begin([Row(id, signature)]));
  }
}
