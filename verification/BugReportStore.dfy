/** The hourly bug report run and the opt-in switch of src/bug_reports.ts, in place, each tied to the machine. */
module BugReportStore {
  import opened BugReports

  /** What goes wrong while a row is handled, if anything; at the reply, GitHub has taken the write. */
  datatype Fault = NoFault | AtTriage | AtWrite | AtReply | AtInsert | AtMark

  /** What the outside answers for a row: whether open reports could be the same problem, whether the model
      calls it one of them, and the fault met. */
  datatype Answer = Answer(candidates: bool, existing: bool, fault: Fault)

  datatype Tally = Tally(filed: nat, matched: nat, linked: nat)

  function Written(t: Tally): nat { t.filed + t.matched }

  function Counted(t: Tally, r: Outcome): (after: Tally)
    ensures Handled(after) == Handled(t) + (if r.Stopped? then 0 else 1)
    ensures Written(after) == Written(t) + (if r.Filed? || r.Matched? then 1 else 0)
  {
    match r
    case Linked => t.(linked := t.linked + 1)
    case Filed => t.(filed := t.filed + 1)
    case Matched => t.(matched := t.matched + 1)
    case Stopped => t
  }

  function Handled(t: Tally): nat { t.filed + t.matched + t.linked }

  predicate DistinctIds(queue: seq<Row>) { forall i, j :: 0 <= i < j < |queue| ==> queue[i].id != queue[j].id }

  /** The first rows of the queue are sent and no other issue has changed. */
  ghost predicate Sending(before: map<Id, Issue>, issues: map<Id, Issue>, queue: seq<Row>, n: int)
    requires 0 <= n <= |queue|
  {
    && issues.Keys == before.Keys
    && (forall i :: 0 <= i < n ==> queue[i].id in issues && issues[queue[i].id].state == Sent(queue[i].signature))
    && (forall id :: id in issues && (forall i :: 0 <= i < n ==> queue[i].id != id) ==> issues[id] == before[id])
  }

  lemma SendNext(before: map<Id, Issue>, issues: map<Id, Issue>, queue: seq<Row>, n: int)
    requires 0 <= n < |queue| && DistinctIds(queue) && Sending(before, issues, queue, n) && queue[n].id in issues
    ensures Sending(before, MarkSent(issues, queue[n]), queue, n + 1)
  {
  }

  // ------------------------------------------------------------ oldest first

  /** The rows taken are sorted, and no issue still left is older than one of them. */
  ghost predicate Ordered(issues: map<Id, Issue>, due: set<Id>, left: set<Id>, queue: seq<Row>) {
    && left <= due <= issues.Keys && DistinctIds(queue)
    && (forall i :: 0 <= i < |queue| ==> queue[i].id in due - left && queue[i].signature == issues[queue[i].id].signature)
    && (forall i, j :: 0 <= i < j < |queue| ==> issues[queue[i].id].createdAt <= issues[queue[j].id].createdAt)
    && (forall i, id :: 0 <= i < |queue| && id in left ==> issues[queue[i].id].createdAt <= issues[id].createdAt)
    && (forall id :: id in due - left ==> Row(id, issues[id].signature) in queue)
  }

  lemma OrderedIsPart(issues: map<Id, Issue>, due: set<Id>, left: set<Id>, queue: seq<Row>)
    requires Ordered(issues, due, left, queue)
    ensures left <= issues.Keys
  {
  }

  lemma OrderedNext(issues: map<Id, Issue>, due: set<Id>, left: set<Id>, queue: seq<Row>, id: Id)
    requires Ordered(issues, due, left, queue) && id in left
    requires forall other :: other in left ==> issues[id].createdAt <= issues[other].createdAt
    ensures Ordered(issues, due, left - {id}, queue + [Row(id, issues[id].signature)])
  {
    var row := Row(id, issues[id].signature);
    var after := queue + [row];
    assert after[|queue|] == row;
    forall other | other in due - (left - {id})
      ensures Row(other, issues[other].signature) in after
    {
      assert other == id || Row(other, issues[other].signature) in queue;
    }
  }

  /** An issue no other of them is older than. */
  method Oldest(issues: map<Id, Issue>, ids: set<Id>) returns (id: Id)
    requires ids != {} && ids <= issues.Keys
    ensures id in ids && forall other :: other in ids ==> issues[id].createdAt <= issues[other].createdAt
  {
    id :| id in ids;
    var left := ids - {id};
    while left != {}
      invariant id in ids && left <= ids
      invariant forall other :: other in ids - left ==> issues[id].createdAt <= issues[other].createdAt
      decreases |left|
    {
      var other :| other in left;
      if issues[other].createdAt < issues[id].createdAt {
        id := other;
      }
      left := left - {other};
    }
  }

  class Store {
    var orgs: map<Id, Org>
    var issues: map<Id, Issue>
    var reports: set<Signature>
    /** The machine's state, between runs. */
    ghost var machine: State

    ghost predicate Valid()
      reads this
    {
      Inv(machine) && Agrees()
    }

    ghost predicate Agrees()
      reads this
    {
      machine.orgs == orgs && machine.issues == issues && machine.reports == reports && machine.job == Idle
    }

    constructor (orgs: map<Id, Org>)
      ensures Valid() && machine == Start(orgs)
    {
      this.orgs, issues, reports := orgs, map[], {};
      machine := Start(orgs);
    }

    /** Turn an organization's bug reports on, or off with what was still waiting. */
    method SetBugReportsEnabled(tenant: Id, enabled: bool)
      requires Valid()
      modifies this
      ensures Valid() && machine == Next(old(machine), if enabled then OptIn(tenant) else OptOut(tenant))
      ensures tenant in orgs <==> tenant in old(orgs)
      ensures tenant in orgs ==> orgs == old(orgs)[tenant := Org(enabled, if enabled then true else old(orgs)[tenant].currentTerms)]
      ensures enabled ==> issues == old(issues)
      ensures !enabled ==> issues.Keys == old(issues).Keys && forall id :: id in issues ==>
        issues[id] == if old(issues)[id].tenant == tenant && old(issues)[id].state == Pending
                      then old(issues)[id].(state := NotReported) else old(issues)[id]
    {
      StepKeepsInv(machine, if enabled then OptIn(tenant) else OptOut(tenant));
      hide Inv;
      machine := Next(machine, if enabled then OptIn(tenant) else OptOut(tenant));
      if enabled {
        if tenant in orgs {
          orgs := orgs[tenant := Org(true, true)];
        }
      } else {
        if tenant in orgs {
          orgs := orgs[tenant := orgs[tenant].(enabled := false)];
        }
        issues := OptedOut(issues, tenant);
      }
    }

    /** SELECT the pending issues of organizations opted in under the current terms, oldest first, at most
        twenty: what is left out is no older than anything taken, and nothing is when there are fewer. */
    method ReadPending() returns (queue: seq<Row>)
      requires Valid()
      ensures |queue| <= 20 && DistinctIds(queue) && forall i :: 0 <= i < |queue| ==> Due(machine, queue[i])
      ensures forall i :: 0 <= i < |queue| ==> queue[i].id in issues
      ensures forall i, j :: 0 <= i < j < |queue| ==> issues[queue[i].id].createdAt <= issues[queue[j].id].createdAt
      ensures forall id :: id in issues && Due(machine, Row(id, issues[id].signature)) && Row(id, issues[id].signature) !in queue ==>
        |queue| == 20 && forall i :: 0 <= i < |queue| ==> issues[queue[i].id].createdAt <= issues[id].createdAt
    {
      hide Inv;
      var due := set id | id in issues && issues[id].state == Pending && issues[id].tenant in orgs && orgs[issues[id].tenant] == Org(true, true);
      queue := [];
      var left := due;
      while left != {} && |queue| < MAX_ISSUES_PER_RUN
        invariant Ordered(issues, due, left, queue) && |queue| <= MAX_ISSUES_PER_RUN
        decreases |left|
      {
        hide Ordered, Due;
        OrderedIsPart(issues, due, left, queue);
        var id := Oldest(issues, left);
        OrderedNext(issues, due, left, queue, id);
        queue := queue + [Row(id, issues[id].signature)];
        left := left - {id};
      }
    }

    /** The tables are the machine's, whatever its job. */
    ghost predicate Mirrors()
      reads this
    {
      machine.orgs == orgs && machine.issues == issues && machine.reports == reports && Inv(machine)
    }

    /** Let the machine take a step. */
    ghost method Take(origin: State, steps: seq<Step>, step: Step) returns (more: seq<Step>)
      requires Inv(machine) && Enabled(machine, step) && Led(origin, steps, machine)
      modifies this`machine
      ensures machine == Next(old(machine), step) && Inv(machine)
      ensures more == steps + [step] && Led(origin, more, machine)
    {
      hide Inv, Enabled, Next;
      StepKeepsInv(machine, step);
      OneMoreStep(origin, steps, step);
      machine := Next(machine, step);
      more := steps + [step];
    }

    ghost method TakeBegin(queue: seq<Row>) returns (steps: seq<Step>)
      requires Valid() && |queue| <= MAX_ISSUES_PER_RUN && forall i :: 0 <= i < |queue| ==> Due(machine, queue[i])
      modifies this`machine
      ensures Mirrors() && machine.job == Running(queue, 0, Looking) && Led(old(machine), steps, machine)
    {
      hide Inv, Due, Led;
      LedNowhere(machine);
      steps := Take(machine, [], Begin(queue));
    }

    ghost method TakeStop(origin: State, steps: seq<Step>) returns (more: seq<Step>)
      requires Mirrors() && machine.job.Running? && Led(origin, steps, machine)
      modifies this`machine
      ensures Mirrors() && machine.job == Idle && Led(origin, more, machine)
    {
      hide Inv, Led;
      more := Take(origin, steps, BugReports.Stop);
    }

    /** Mark the row at the head of the run. */
    method MarkRow(queue: seq<Row>, n: nat, writes: nat, ghost origin: State, ghost steps: seq<Step>) returns (ghost more: seq<Step>)
      requires Mirrors() && n < |queue| && machine.job == Running(queue[n..], writes, Marking) && Led(origin, steps, machine)
      modifies this`issues, this`machine
      ensures Mirrors() && Led(origin, more, machine) && issues == MarkSent(old(issues), queue[n])
      ensures machine.job == Running(queue[n + 1..], writes, Looking)
    {
      hide Inv, Led, MarkSent;
      assert queue[n..][0] == queue[n] && queue[n..][1..] == queue[n + 1..];
      issues := MarkSent(issues, queue[n]);
      more := Take(origin, steps, Mark);
    }

    /** Write a problem without a report to GitHub and record it. */
    method FileRow(queue: seq<Row>, n: nat, writes: nat, answer: Answer, ghost origin: State, ghost steps: seq<Step>)
      returns (r: Outcome, ghost more: seq<Step>)
      requires Mirrors() && n < |queue| && machine.job == Running(queue[n..], writes, Absent) && Led(origin, steps, machine)
      modifies this`reports, this`machine
      ensures Mirrors() && Led(origin, more, machine)
      ensures r.Stopped? ==> machine.job == Idle
      ensures r.Filed? || r.Matched? ==>
        machine.job == Running(queue[n..], writes + 1, Marking) && reports == old(reports) + {queue[n].signature}
      ensures !r.Linked? && (writes >= MAX_WRITES_PER_RUN ==> r.Stopped?)
      ensures answer.fault == AtTriage && answer.candidates ==> r.Stopped?
      ensures r.Matched? || r.Filed? ==> (r.Matched? <==> answer.existing && answer.fault != AtTriage)
      ensures r.Stopped? ==> answer.fault != NoFault || writes >= MAX_WRITES_PER_RUN
    {
      hide Inv, Led;
      assert queue[n..][0] == queue[n];
      if writes >= MAX_WRITES_PER_RUN || (answer.fault == AtTriage && answer.candidates) || answer.fault == AtWrite {
        more := TakeStop(origin, steps);
        return Stopped, more;
      }
      if answer.fault == AtReply {
        more := Take(origin, steps, WriteUnheard);
        return Stopped, more;
      }
      more := Take(origin, steps, Write);
      if answer.fault == AtInsert {
        more := TakeStop(origin, more);
        return Stopped, more;
      }
      reports := reports + {queue[n].signature};
      more := Take(origin, more, Insert);
      r := if answer.existing && answer.fault != AtTriage then Matched else Filed;
    }

    /** Handle one row: it is linked to its report, or written to GitHub and recorded, and marked; or the run stops. */
    method HandleRow(queue: seq<Row>, n: nat, writes: nat, answer: Answer, ghost origin: State, ghost steps: seq<Step>)
      returns (r: Outcome, ghost more: seq<Step>)
      requires Mirrors() && n < |queue| && machine.job == Running(queue[n..], writes, Looking) && Led(origin, steps, machine)
      modifies this
      ensures Mirrors() && orgs == old(orgs) && Led(origin, more, machine)
      ensures r.Stopped? ==> machine.job == Idle && issues == old(issues)
      ensures r.Stopped? ==> answer.fault != NoFault || writes >= MAX_WRITES_PER_RUN
      ensures !r.Stopped? ==>
        && machine.job == Running(queue[n + 1..], if r.Linked? then writes else writes + 1, Looking)
        && issues == MarkSent(old(issues), queue[n])
      ensures r.Linked? ==> queue[n].signature in old(reports) && reports == old(reports)
      ensures answer.fault == AtTriage && answer.candidates && queue[n].signature !in old(reports) ==> r.Stopped?
      ensures r.Matched? || r.Filed? ==> (r.Matched? <==> answer.existing && answer.fault != AtTriage)
      ensures r.Filed? || r.Matched? ==> queue[n].signature !in old(reports) && reports == old(reports) + {queue[n].signature}
    {
      hide Inv, Led, MarkSent;
      assert queue[n..][0] == queue[n];
      more := Take(origin, steps, LookUp);
      r := Linked;
      if queue[n].signature !in reports {
        r, more := FileRow(queue, n, writes, answer, origin, more);
        if r.Stopped? {
          return;
        }
      }
      hide Next, Enabled;
      if answer.fault == AtMark {
        more := TakeStop(origin, more);
        return Stopped, more;
      }
      more := MarkRow(queue, n, if r.Linked? then writes else writes + 1, origin, more);
    }

    /** A run: it is a run of the machine, the rows it handled are sent, and it writes at most five times. */
    method ProcessBugReports(answers: nat -> Answer) returns (run: Tally, queue: seq<Row>, ghost steps: seq<Step>)
      requires Valid()
      modifies this
      ensures Valid() && orgs == old(orgs) && Led(old(machine), steps, machine)
      ensures Handled(run) <= |queue| <= 20 && forall i :: 0 <= i < |queue| ==> Due(old(machine), queue[i])
      ensures Sending(old(issues), issues, queue, Handled(run))
      ensures Written(run) <= 5
      ensures Handled(run) < |queue| ==> answers(Handled(run)).fault != NoFault || Written(run) == 5
    {
      hide Inv, Led, Sending, MarkSent, Due, Next, Enabled, DistinctIds, Counted;
      queue := ReadPending();
      ghost var origin := machine;
      SendNothing(issues, queue);
      DueAreListed(machine, queue);
      steps := TakeBegin(queue);
      run := Tally(0, 0, 0);
      var writes, n := 0, 0;
      assert queue[0..] == queue;
      while n < |queue|
        invariant 0 <= n <= |queue| && Mirrors() && orgs == old(orgs) && Led(origin, steps, machine)
        invariant machine.job == Running(queue[n..], writes, Looking)
        invariant Handled(run) == n && writes == Written(run) && writes <= MAX_WRITES_PER_RUN
        invariant Sending(old(issues), issues, queue, n)
      {
        SendingListed(old(issues), issues, queue, n);
        SendNext(old(issues), issues, queue, n);
        var r;
        r, steps := HandleRow(queue, n, writes, answers(n), origin, steps);
        WritesAreFew(machine);
        if r.Stopped? {
          return;
        }
        writes := if r.Linked? then writes else writes + 1;
        run := Counted(run, r);
        n := n + 1;
      }
      steps := TakeStop(origin, steps);
    }
  }

  datatype Outcome = Linked | Filed | Matched | Stopped

  ghost predicate Led(origin: State, steps: seq<Step>, s: State) { Possible(origin, steps) && After(origin, steps) == s }

  lemma LedNowhere(s: State)
    ensures Led(s, [], s)
  {
  }

  lemma SendNothing(issues: map<Id, Issue>, queue: seq<Row>)
    ensures Sending(issues, issues, queue, 0)
  {
  }

  lemma DueAreListed(s: State, queue: seq<Row>)
    requires forall i :: 0 <= i < |queue| ==> Due(s, queue[i])
    ensures forall i :: 0 <= i < |queue| ==> queue[i].id in s.issues
  {
  }

  lemma SendingListed(before: map<Id, Issue>, issues: map<Id, Issue>, queue: seq<Row>, n: int)
    requires 0 <= n < |queue| && Sending(before, issues, queue, n) && queue[n].id in before
    ensures queue[n].id in issues
  {
  }

  lemma WritesAreFew(s: State)
    requires Inv(s)
    ensures s.job.Running? ==> s.job.writes <= MAX_WRITES_PER_RUN
  {
  }
}
