/** Errors & Warnings of src/boot_report.ts: boot, restart and disk reports, their daily budgets
    over the whole history, and the retention that forgets old ones. */
module WorkstationIssues {
  import opened Wrappers

  const DAY := 86400
  const RETENTION := 90 * 86400
  const MIN_GAP := 60

  datatype Place = Place(tenant: string, client: string)

  datatype Kind = UnexpectedRestart | WatchdogReset | DiskHealth | UpdateFailed | UpdateRolledBack | BootError | BootFallback

  datatype Issue = Issue(id: string, place: Place, kind: Kind, createdAt: int)

  datatype Budget = Restarts | Disks

  function Limit(budget: Budget): int { if budget.Restarts? then 24 else 8 }

  predicate Spends(issue: Issue, place: Place, budget: Budget) {
    && issue.place == place
    && (budget.Restarts? ==> issue.kind == UnexpectedRestart || issue.kind == WatchdogReset)
    && (budget.Disks? ==> issue.kind == DiskHealth)
  }

  // ------------------------------------------------------------ counting

  function Since(issues: seq<Issue>, place: Place, budget: Budget, after: int): nat {
    if issues == [] then 0
    else
      var last := issues[|issues| - 1];
      Since(issues[..|issues| - 1], place, budget, after) + (if Spends(last, place, budget) && last.createdAt > after then 1 else 0)
  }

  /** A restart of a workstation, with or without the watchdog, or a disk of it, listed in the day after a time. */
  predicate IsInDay(issue: Issue, place: Place, budget: Budget, after: int) {
    && issue.place == place && after < issue.createdAt <= after + 86400
    && match budget
       case Restarts => issue.kind == UnexpectedRestart || issue.kind == WatchdogReset
       case Disks => issue.kind == DiskHealth
  }

  /** How many there were. */
  function InDay(issues: seq<Issue>, place: Place, budget: Budget, after: int): nat {
    if issues == [] then 0
    else
      InDay(issues[..|issues| - 1], place, budget, after) + (if IsInDay(issues[|issues| - 1], place, budget, after) then 1 else 0)
  }

  /** With nothing listed ahead of now, what counts against a budget is what was listed in the day up to now. */
  lemma {:induction false} SinceIsInDay(issues: seq<Issue>, place: Place, budget: Budget, now: int)
    requires NotAhead(issues, now)
    ensures Since(issues, place, budget, now - DAY) == InDay(issues, place, budget, now - 86400)
  {
    if issues != [] {
      SinceIsInDay(issues[..|issues| - 1], place, budget, now);
    }
  }

  predicate NotAhead(issues: seq<Issue>, clock: int) { forall i :: 0 <= i < |issues| ==> issues[i].createdAt <= clock }

  lemma {:induction false} InDayAtMostSince(issues: seq<Issue>, place: Place, budget: Budget, after: int, start: int)
    requires start <= after
    ensures InDay(issues, place, budget, after) <= Since(issues, place, budget, start)
  {
    if issues != [] {
      InDayAtMostSince(issues[..|issues| - 1], place, budget, after, start);
    }
  }

  /** No day of a workstation, whenever it starts, holds more than 24 restarts or 8 disks. */
  ghost predicate WindowsHold(log: seq<Issue>) {
    forall place, after :: InDay(log, place, Restarts, after) <= 24 && InDay(log, place, Disks, after) <= 8
  }

  /** An issue listed while its budget had room, counting back one day, keeps every window. */
  lemma ListedKeepsWindows(log: seq<Issue>, issue: Issue)
    requires WindowsHold(log)
    requires forall budget :: Spends(issue, issue.place, budget) ==>
               Since(log, issue.place, budget, issue.createdAt - DAY) < Limit(budget)
    ensures WindowsHold(log + [issue])
  {
    hide Since;
    var after := log + [issue];
    forall place, start
      ensures InDay(after, place, Restarts, start) <= 24 && InDay(after, place, Disks, start) <= 8
    {
      assert InDay(log, place, Restarts, start) <= 24 && InDay(log, place, Disks, start) <= 8;
      InDayNext(log, issue, place, Restarts, start);
      InDayNext(log, issue, place, Disks, start);
    }
  }

  /** One more issue counts in a day only where it spends a budget, and that had room. */
  lemma InDayNext(log: seq<Issue>, issue: Issue, place: Place, budget: Budget, start: int)
    requires InDay(log, place, budget, start) <= Limit(budget)
    requires Spends(issue, issue.place, budget) ==> Since(log, issue.place, budget, issue.createdAt - DAY) < Limit(budget)
    ensures InDay(log + [issue], place, budget, start) <= Limit(budget)
  {
    hide Limit, Since;
    var after := log + [issue];
    assert after[..|after| - 1] == log && after[|after| - 1] == issue;
    if IsInDay(issue, place, budget, start) {
      InDayAtMostSince(log, place, budget, start, issue.createdAt - DAY);
    }
  }

  // ------------------------------------------------------------ retention

  function Retained(log: seq<Issue>, cut: int): seq<Issue> {
    if log == [] then []
    else
      var n := |log| - 1;
      if log[n].createdAt >= cut then Retained(log[..n], cut) + [log[n]] else Retained(log[..n], cut)
  }

  lemma {:induction false} RetainedAre(log: seq<Issue>, cut: int, issue: Issue)
    ensures issue in Retained(log, cut) <==> issue in log && issue.createdAt >= cut
  {
    if log != [] {
      RetainedAre(log[..|log| - 1], cut, issue);
      assert log == log[..|log| - 1] + [log[|log| - 1]];
    }
  }

  lemma RetainedOfOne(log: seq<Issue>, issue: Issue, cut: int)
    ensures Retained(log + [issue], cut) == if issue.createdAt >= cut then Retained(log, cut) + [issue] else Retained(log, cut)
  {
  }

  /** Forgetting twice is forgetting up to the later time. */
  lemma {:induction false} RetainedTwice(log: seq<Issue>, cut: int, later: int)
    requires cut <= later
    ensures Retained(Retained(log, cut), later) == Retained(log, later)
  {
    if log != [] {
      var n := |log| - 1;
      RetainedTwice(log[..n], cut, later);
      RetainedOfOne(Retained(log[..n], cut), log[n], later);
    }
  }

  lemma SinceOfOne(log: seq<Issue>, issue: Issue, place: Place, budget: Budget, after: int)
    ensures Since(log + [issue], place, budget, after)
         == Since(log, place, budget, after) + (if Spends(issue, place, budget) && issue.createdAt > after then 1 else 0)
  {
  }

  /** What is forgotten is too old to be counted. */
  lemma {:induction false} ForgettingKeepsCounts(log: seq<Issue>, cut: int, place: Place, budget: Budget, after: int)
    requires cut <= after
    ensures Since(Retained(log, cut), place, budget, after) == Since(log, place, budget, after)
  {
    hide Spends;
    if log != [] {
      var n := |log| - 1;
      ForgettingKeepsCounts(log[..n], cut, place, budget, after);
      SinceOfOne(Retained(log[..n], cut), log[n], place, budget, after);
    }
  }

  predicate DistinctIds(issues: seq<Issue>) {
    forall i, j :: 0 <= i < j < |issues| ==> issues[i].id != issues[j].id
  }

  predicate Listed(issues: seq<Issue>, id: string) {
    exists issue :: issue in issues && issue.id == id
  }

  predicate ListedFor(issues: seq<Issue>, id: string, tenant: string)
    ensures ListedFor(issues, id, tenant) ==> Listed(issues, id)
  {
    exists issue :: issue in issues && issue.id == id && issue.place.tenant == tenant
  }

  lemma {:induction false} RetainedAreDistinct(log: seq<Issue>, cut: int)
    requires DistinctIds(log)
    ensures DistinctIds(Retained(log, cut))
  {
    if log != [] {
      var n := |log| - 1;
      RetainedAreDistinct(log[..n], cut);
      var kept := Retained(log[..n], cut);
      forall i | 0 <= i < |kept|
        ensures kept[i].id != log[n].id
      {
        RetainedAre(log[..n], cut, kept[i]);
        assert kept[i] in log[..n];
      }
    }
  }

  lemma AppendIsDistinct(issues: seq<Issue>, issue: Issue)
    requires DistinctIds(issues) && !Listed(issues, issue.id)
    ensures DistinctIds(issues + [issue])
  {
  }

  // ------------------------------------------------------------ boot reports

  datatype BootState = Installed | Failed | RolledBack | Fallback | Error | Running

  datatype BootReport = BootReport(state: BootState, version: string, at: int)

  datatype Device = Device(version: string, state: BootState, stateAt: int)

  /** How an outcome is listed; an installed update is not an issue. */
  function IssueKind(state: BootState): Option<Kind> {
    match state
    case Failed => Some(UpdateFailed)
    case RolledBack => Some(UpdateRolledBack)
    case Error => Some(BootError)
    case Fallback => Some(BootFallback)
    case _ => None
  }

  /** What each outcome of a boot is listed as; a running or an installed image is not. */
  predicate BootListed(state: BootState, id: string, place: Place, now: int, added: seq<Issue>) {
    match state
    case Failed => added == [Issue(id, place, UpdateFailed, now)]
    case RolledBack => added == [Issue(id, place, UpdateRolledBack, now)]
    case Error => added == [Issue(id, place, BootError, now)]
    case Fallback => added == [Issue(id, place, BootFallback, now)]
    case Installed => added == []
    case Running => added == []
  }

  /** Times at least a minute apart, in order. */
  predicate Spaced(times: seq<int>) {
    forall i, j :: 0 <= i < j < |times| ==> times[i] + 60 <= times[j]
  }

  /** The reports each row took since it was created are spaced, the row holding the last. */
  ghost predicate BootsSpaced(devices: map<Place, Device>, boots: map<Place, seq<int>>) {
    forall place :: place in devices ==>
      place in boots && Spaced(boots[place]) && forall i :: 0 <= i < |boots[place]| ==> boots[place][i] <= devices[place].stateAt
  }

  /** Clashed: the row took the report and the listing threw, its random id being in use. */
  datatype BootOutcome = BootRecorded | BootDuplicate | BootUnknown | BootClashed

  datatype RestartKind = Unexpected | Watchdog

  datatype RestartOutcome = Recorded | Duplicate | UnknownWorkstation | TooMany

  datatype Disk = Disk(device: string, serial: string, failing: bool)

  datatype DiskOutcome = DisksRecorded(recorded: nat) | DisksUnknown | DisksTooMany

  /** Ids are derived from what happened, so that the same thing has the same id. */
  datatype Ids = Ids(restart: (Place, string) -> string, disk: (Place, Disk) -> string)

  /** What the table holds against everything ever listed. */
  ghost predicate Kept(issues: seq<Issue>, log: seq<Issue>, cut: int, clock: int) {
    && issues == Retained(log, cut) && cut <= clock - RETENTION && DistinctIds(issues) && NotAhead(log, clock)
    && WindowsHold(log)
  }

  lemma ListingKeeps(issues: seq<Issue>, log: seq<Issue>, cut: int, clock: int, issue: Issue)
    requires Kept(issues, log, cut, clock) && clock <= issue.createdAt && !Listed(issues, issue.id)
    requires forall budget :: Spends(issue, issue.place, budget) ==>
               Since(issues, issue.place, budget, issue.createdAt - DAY) < Limit(budget)
    ensures Kept(issues + [issue], log + [issue], cut, issue.createdAt)
  {
    forall budget | Spends(issue, issue.place, budget)
      ensures Since(log, issue.place, budget, issue.createdAt - DAY) < Limit(budget)
    {
      ForgettingKeepsCounts(log, cut, issue.place, budget, issue.createdAt - DAY);
    }
    hide Spends, Since, Limit, Retained;
    ListedKeepsWindows(log, issue);
    RetainedOfOne(log, issue, cut);
    AppendIsDistinct(issues, issue);
  }

  lemma PurgeKeeps(issues: seq<Issue>, log: seq<Issue>, cut: int, clock: int, now: int)
    requires Kept(issues, log, cut, clock) && clock <= now
    ensures Kept(Retained(issues, now - RETENTION), log, now - RETENTION, now)
  {
    RetainedTwice(log, cut, now - RETENTION);
    RetainedAreDistinct(issues, now - RETENTION);
  }

  class Workstations {
    var devices: map<Place, Device>
    var issues: seq<Issue>
    const ids: Ids
    /** Every issue ever listed, and every boot report each present row took. */
    ghost var log: seq<Issue>
    ghost var boots: map<Place, seq<int>>
    ghost var cut: int
    ghost var clock: int

    ghost predicate Valid()
      reads this
    {
      Kept(issues, log, cut, clock) && BootsSpaced(devices, boots)
    }

    constructor (ids: Ids)
      ensures Valid() && issues == [] && log == [] && devices == map[] && clock == 0
    {
      this.ids := ids;
      devices, issues := map[], [];
      log, boots, cut, clock := [], map[], -RETENTION, 0;
    }

    /** The organization's hub writes a workstation's row, or writes it again. */
    method AddDevice(place: Place)
      requires Valid()
      modifies this`devices, this`boots
      ensures Valid() && devices == if place in old(devices) then old(devices) else old(devices)[place := Device("", Running, 0)]
    {
      if place !in devices {
        devices := devices[place := Device("", Running, 0)];
        boots := boots[place := []];
      }
    }

    method DeleteDevice(place: Place)
      requires Valid()
      modifies this`devices
      ensures Valid() && devices == old(devices) - {place}
    {
      devices := devices - {place};
    }

    /** A boot report is taken exactly when it is at least a minute newer than the one held. */
    method RecordBootReport(place: Place, report: BootReport, id: string, now: int) returns (r: BootOutcome)
      requires Valid() && clock <= now
      modifies this
      ensures Valid() && clock == now
      ensures r.BootUnknown? <==> place !in old(devices)
      ensures r.BootRecorded? || r.BootClashed? <==> place in old(devices) && old(devices)[place].stateAt + 60 <= report.at
      ensures r.BootClashed? ==> Listed(old(issues), id) && IssueKind(report.state).Some?
      ensures r.BootRecorded? && IssueKind(report.state).Some? ==> !Listed(old(issues), id)
      ensures r.BootRecorded? || r.BootClashed? ==>
        && devices == old(devices)[place := Device(report.version, report.state, report.at)]
        && place in old(boots) && boots == old(boots)[place := old(boots)[place] + [report.at]]
      ensures r.BootUnknown? || r.BootDuplicate? ==> devices == old(devices) && boots == old(boots)
      ensures var added := if r.BootRecorded? && IssueKind(report.state).Some? then [Issue(id, place, IssueKind(report.state).value, now)] else [];
              issues == old(issues) + added && log == old(log) + added
      ensures r.BootRecorded? ==> BootListed(report.state, id, place, now, log[|old(log)|..])
    {
      hide Since, InDay, Kept, Listed;
      PurgeNothing(issues, log, cut, clock, now);
      clock := now;
      if place !in devices {
        return BootUnknown;
      }
      if devices[place].stateAt + MIN_GAP > report.at {
        return BootDuplicate;
      }
      devices := devices[place := Device(report.version, report.state, report.at)];
      boots := boots[place := boots[place] + [report.at]];
      if IssueKind(report.state).Some? {
        if Listed(issues, id) {
          return BootClashed;
        }
        var issue := Issue(id, place, IssueKind(report.state).value, now);
        ListingKeeps(issues, log, cut, now, issue);
        issues, log := issues + [issue], log + [issue];
      }
      r := BootRecorded;
    }

    /** A restart is listed once a boot, within the day's budget. */
    method RecordRestartReport(place: Place, boot: string, kind: RestartKind, now: int) returns (r: RestartOutcome)
      requires Valid() && clock <= now
      modifies this`issues, this`log, this`clock
      ensures Valid() && clock == now
      ensures r.UnknownWorkstation? <==> place !in devices
      ensures r.Recorded? <==>
        && place in devices && !Listed(old(issues), ids.restart(place, boot))
        && InDay(old(log), place, Restarts, now - 86400) < 24
      ensures r.TooMany? <==>
        && place in devices && !ListedFor(old(issues), ids.restart(place, boot), place.tenant)
        && InDay(old(log), place, Restarts, now - 86400) >= 24
      ensures var listed := if kind == Unexpected then UnexpectedRestart else WatchdogReset;
              var added := if r.Recorded? then [Issue(ids.restart(place, boot), place, listed, now)] else [];
              issues == old(issues) + added && log == old(log) + added
    {
      hide Since, InDay, Retained, DistinctIds, WindowsHold;
      SinceIsInDay(log, place, Restarts, now);
      PurgeNothing(issues, log, cut, clock, now);
      clock := now;
      if place !in devices {
        return UnknownWorkstation;
      }
      var id := ids.restart(place, boot);
      ForgettingKeepsCounts(log, cut, place, Restarts, now - DAY);
      if ListedFor(issues, id, place.tenant) {
        return Duplicate;
      }
      if Since(issues, place, Restarts, now - DAY) >= Limit(Restarts) {
        return TooMany;
      }
      if Listed(issues, id) {
        return Duplicate;
      }
      var issue := Issue(id, place, ListedAs(kind), now);
      ListingKeeps(issues, log, cut, now, issue);
      hide Kept, Listed;
      issues, log := issues + [issue], log + [issue];
      r := Recorded;
    }

    /** Each disk is listed once a state, the day's budget spent over the whole report. */
    method RecordDiskHealthReport(place: Place, disks: seq<Disk>, now: int) returns (r: DiskOutcome)
      requires Valid() && clock <= now
      modifies this`issues, this`log, this`clock
      ensures Valid() && clock == now
      ensures r.DisksUnknown? <==> place !in devices
      ensures r.DisksRecorded? ==> |issues| == |old(issues)| + r.recorded
      ensures !r.DisksRecorded? ==> issues == old(issues)
      ensures Added(old(issues), issues, old(log), log, place, disks, ids, now)
      ensures r.DisksRecorded? && (r.recorded == 0 || InDay(log, place, Disks, now - 86400) < 8) ==>
        forall disk :: disk in disks ==> Listed(issues, ids.disk(place, disk))
      ensures r.DisksTooMany? ==>
        && InDay(log, place, Disks, now - 86400) >= 8
        && exists disk :: disk in disks && !ListedFor(issues, ids.disk(place, disk), place.tenant)
    {
      hide InDay, Retained, DistinctIds, WindowsHold, Kept, Added, Since, Listed;
      AddedNone(issues, log, place, disks, ids, now);
      PurgeNothing(issues, log, cut, clock, now);
      clock := now;
      if place !in devices {
        return DisksUnknown;
      }
      var budget := Limit(Disks) - Since(issues, place, Disks, now - DAY);
      var recorded := 0;
      var n := 0;
      while n < |disks|
        invariant 0 <= n <= |disks| && Valid() && clock == now
        invariant budget == Limit(Disks) - Since(issues, place, Disks, now - DAY)
        invariant |issues| == |old(issues)| + recorded && (recorded == 0 ==> issues == old(issues))
        invariant Added(old(issues), issues, old(log), log, place, disks, ids, now)
        invariant forall j :: 0 <= j < n ==> Listed(issues, ids.disk(place, disks[j]))
      {
        var id := ids.disk(place, disks[n]);
        if !ListedFor(issues, id, place.tenant) {
          if budget <= 0 {
            SinceKept(issues, log, cut, now, place, Disks, now - DAY);
            KeptInDay(issues, log, cut, now, place);
            return if recorded > 0 then DisksRecorded(recorded) else DisksTooMany;
          }
          if !Listed(issues, id) {
            var issue := Issue(id, place, DiskHealth, now);
            ListingKeeps(issues, log, cut, now, issue);
            SinceOfOne(issues, issue, place, Disks, now - DAY);
            AppendIsListed(issues, issue);
            AddedNext(old(issues), issues, old(log), log, place, disks, ids, now, n);
            issues, log := issues + [issue], log + [issue];
            recorded, budget := recorded + 1, budget - 1;
          }
        }
        n := n + 1;
      }
      r := DisksRecorded(recorded);
    }

    method PurgeOldWorkstationIssues(now: int) returns (count: nat)
      requires Valid() && clock <= now
      modifies this`issues, this`cut, this`clock
      ensures Valid() && clock == now
      ensures issues == Retained(old(issues), now - 90 * 86400) && count == |old(issues)| - |issues|
      ensures forall issue :: issue in issues <==> issue in old(issues) && issue.createdAt >= now - 90 * 86400
    {
      hide Since, InDay, DistinctIds, WindowsHold, Retained;
      PurgeKeeps(issues, log, cut, clock, now);
      RetainedIsNoLonger(issues, now - RETENTION);
      forall issue
        ensures issue in Retained(issues, now - RETENTION) <==> issue in issues && issue.createdAt >= now - RETENTION
      {
        RetainedAre(issues, now - RETENTION, issue);
      }
      hide Kept;
      count := |issues| - |Retained(issues, now - RETENTION)|;
      issues := Retained(issues, now - RETENTION);
      cut, clock := now - RETENTION, now;
    }

    method Do(call: Call)
      requires Valid() && clock <= call.at
      modifies this
      ensures Valid() && clock <= call.at && old(log) <= log
    {
      hide Kept, BootsSpaced, Listed, Since, Retained, Added, IssueKind;
      match call
      case Add(place, _) => AddDevice(place);
      case Delete(place, _) => DeleteDevice(place);
      case Boot(place, report, id, at) =>
        var _ := RecordBootReport(place, report, id, at);
      case Restart(place, boot, kind, at) =>
        var _ := RecordRestartReport(place, boot, kind, at);
      case DiskReport(place, disks, at) =>
        var _ := RecordDiskHealthReport(place, disks, at);
        AddedIsMore(old(issues), issues, old(log), log, place, disks, ids, at);
      case Purge(at) =>
        var _ := PurgeOldWorkstationIssues(at);
    }

    /** Over every run of calls, in order of time: no workstation was ever listed more restarts or disks in a day
        than its budget, whatever was purged; no two issues in the table share an id; and the reports a row took
        are at least a minute apart. */
    method Replay(run: seq<Call>)
      requires Valid() && forall i :: 0 <= i < |run| ==> clock <= run[i].at
      requires forall i, j :: 0 <= i < j < |run| ==> run[i].at <= run[j].at
      modifies this
      ensures Valid() && old(log) <= log && WindowsHold(log) && DistinctIds(issues)
      ensures forall place :: place in devices ==> place in boots && Spaced(boots[place])
    {
      hide WindowsHold, DistinctIds, Retained;
      var n := 0;
      while n < |run|
        invariant 0 <= n <= |run| && Valid() && old(log) <= log
        invariant forall i :: n <= i < |run| ==> clock <= run[i].at
      {
        hide Kept, BootsSpaced;
        Do(run[n]);
        n := n + 1;
      }
    }
  }

  datatype Call =
    | Add(place: Place, at: int)
    | Delete(place: Place, at: int)
    | Boot(place: Place, report: BootReport, id: string, at: int)
    | Restart(place: Place, boot: string, kind: RestartKind, at: int)
    | DiskReport(place: Place, disks: seq<Disk>, at: int)
    | Purge(at: int)

  lemma AddedIsMore(was: seq<Issue>, issues: seq<Issue>, history: seq<Issue>, log: seq<Issue>,
                    place: Place, disks: seq<Disk>, ids: Ids, now: int)
    requires Added(was, issues, history, log, place, disks, ids, now)
    ensures history <= log
  {
  }

  function ListedAs(kind: RestartKind): Kind { if kind == Unexpected then UnexpectedRestart else WatchdogReset }

  ghost predicate FromDisks(issue: Issue, place: Place, disks: seq<Disk>, ids: Ids, now: int) {
    && issue.place == place && issue.kind == DiskHealth && issue.createdAt == now
    && exists disk :: disk in disks && issue.id == ids.disk(place, disk)
  }

  /** The same issues were added to the table and to the history, each for a disk of the report. */
  ghost predicate Added(was: seq<Issue>, issues: seq<Issue>, history: seq<Issue>, log: seq<Issue>,
                        place: Place, disks: seq<Disk>, ids: Ids, now: int) {
    && was <= issues && history <= log && issues[|was|..] == log[|history|..]
    && forall i :: |was| <= i < |issues| ==> FromDisks(issues[i], place, disks, ids, now)
  }

  lemma AddedNone(issues: seq<Issue>, log: seq<Issue>, place: Place, disks: seq<Disk>, ids: Ids, now: int)
    ensures Added(issues, issues, log, log, place, disks, ids, now)
  {
  }

  lemma AddedNext(was: seq<Issue>, issues: seq<Issue>, history: seq<Issue>, log: seq<Issue>,
                  place: Place, disks: seq<Disk>, ids: Ids, now: int, n: int)
    requires Added(was, issues, history, log, place, disks, ids, now) && 0 <= n < |disks|
    ensures var issue := Issue(ids.disk(place, disks[n]), place, DiskHealth, now);
            Added(was, issues + [issue], history, log + [issue], place, disks, ids, now)
  {
  }

  lemma KeptInDay(issues: seq<Issue>, log: seq<Issue>, cut: int, now: int, place: Place)
    requires Kept(issues, log, cut, now)
    ensures Since(log, place, Disks, now - DAY) == InDay(log, place, Disks, now - 86400)
  {
    SinceIsInDay(log, place, Disks, now);
  }

  lemma SinceKept(issues: seq<Issue>, log: seq<Issue>, cut: int, clock: int, place: Place, budget: Budget, after: int)
    requires Kept(issues, log, cut, clock) && clock - RETENTION <= after
    ensures Since(issues, place, budget, after) == Since(log, place, budget, after)
  {
    ForgettingKeepsCounts(log, cut, place, budget, after);
  }

  lemma AppendIsListed(issues: seq<Issue>, issue: Issue)
    ensures Listed(issues + [issue], issue.id)
    ensures forall id :: Listed(issues, id) ==> Listed(issues + [issue], id)
  {
  }

  lemma PurgeNothing(issues: seq<Issue>, log: seq<Issue>, cut: int, clock: int, now: int)
    requires Kept(issues, log, cut, clock) && clock <= now
    ensures Kept(issues, log, cut, now)
  {
  }

  lemma RetainedIsNoLonger(log: seq<Issue>, cut: int)
    ensures |Retained(log, cut)| <= |log|
  {
  }
}
