/** The audit log of src/db.ts: an at-least-once queue into D1, and an archive that writes a file
    to R2 before it deletes the entries from D1.  Every statement, put and batch is one
    atomic step; the archive may stop between any two of them. */
module Audit {
  import Calendar
  import Uniform

  type Id = string

  datatype Entry = Entry(id: Id, createdAt: int, text: string)

  const RETENTION_SECONDS := 180 * 86400
  const ARCHIVE_BATCH := 5000
  const DELETE_SLICE := 90

  // ------------------------------------------------------------ names of the archive files

  /** A file is named after the day and the id of its first entry. */
  datatype Key = Key(day: int, id: Id)

  function KeyOf(first: Entry): Key { Key(first.createdAt / 86400, first.id) }

  /** The key as text; `day` is the first ten characters of an ISO date. */
  function KeyText(day: string, id: Id): string
    requires |day| == 10
  {
    "audit/" + day[..4] + "/" + day + "-" + id + ".ndjson"
  }

  /** Whatever the days, two equal keys name the same entry. */
  lemma KeyNamesOneEntry(day: string, id: Id, day': string, id': Id)
    requires |day| == 10 && |day'| == 10
    requires KeyText(day, id) == KeyText(day', id')
    ensures id == id'
  {
    var k, k' := KeyText(day, id), KeyText(day', id');
    assert |k| == 29 + |id| && |k'| == 29 + |id'|;
    assert k[22..22 + |id|] == id;
    assert k'[22..22 + |id'|] == id';
  }

  lemma KeyTextOfOne()
    ensures KeyText("2026-01-31", "x") == "audit/2026/2026-01-31-x.ndjson"
  {
    assert "2026-01-31"[..4] == "2026";
  }

  /** The first ten characters of toISOString, in the years 0 to 9999. */
  function DayText(t: int): string
    requires 0 <= Calendar.YearOf(t) <= 9999
  {
    Padded(Calendar.YearOf(t), 4) + "-" + Padded(Calendar.MonthOfTime(t) % 12 + 1, 2) + "-" + Padded(Calendar.DateOf(t), 2)
  }

  function Padded(n: nat, width: nat): string { Uniform.PadStart(Uniform.Decimal(n), width) }

  lemma PaddedTells(n: nat, width: nat)
    requires width >= 1 && n < Uniform.Power10(width)
    ensures |Padded(n, width)| == width && Uniform.ValueOf(Padded(n, width)) == n
  {
    Uniform.DecimalIsShort(n, width);
    Uniform.DecimalReadsBack(n);
    Uniform.PadKeepsValue(Uniform.Decimal(n), width);
  }

  /** The text tells the year, the month and the day. */
  lemma DayTextTells(t: int)
    requires 0 <= Calendar.YearOf(t) <= 9999
    ensures var d := DayText(t);
            && |d| == 10 && Uniform.ValueOf(d[..4]) == Calendar.YearOf(t)
            && Uniform.ValueOf(d[5..7]) == Calendar.MonthOfTime(t) % 12 + 1 && Uniform.ValueOf(d[8..]) == Calendar.DateOf(t)
  {
    hide Padded, Calendar.MonthOf, Calendar.MonthStart, Calendar.MonthLength;
    assert Uniform.Power10(2) == 100 && Uniform.Power10(4) == 10000;
    var y, m, date := Calendar.YearOf(t), Calendar.MonthOfTime(t) % 12 + 1, Calendar.DateOf(t);
    PaddedTells(y, 4);
    PaddedTells(m, 2);
    PaddedTells(date, 2);
    var d := DayText(t);
    assert d[..4] == Padded(y, 4) && d[5..7] == Padded(m, 2) && d[8..] == Padded(date, 2);
  }

  lemma SameTextSameDay(t: int, u: int)
    requires 0 <= Calendar.YearOf(t) <= 9999 && 0 <= Calendar.YearOf(u) <= 9999
    ensures DayText(t) == DayText(u) <==> t / 86400 == u / 86400
  {
    hide DayText, Calendar.MonthOf, Calendar.MonthStart, Calendar.MonthLength;
    if DayText(t) == DayText(u) {
      DayTextTells(t);
      DayTextTells(u);
      assert Calendar.MonthOfTime(t) == Calendar.MonthOfTime(u);
      Calendar.ReadsBackAt(t);
      Calendar.ReadsBackAt(u);
    } else if t / 86400 == u / 86400 {
      SameDaySameText(t, u);
    }
  }

  lemma SameDaySameText(t: int, u: int)
    requires 0 <= Calendar.YearOf(t) <= 9999 && t / 86400 == u / 86400
    ensures 0 <= Calendar.YearOf(u) <= 9999 && DayText(t) == DayText(u)
  {
    hide Padded, Calendar.MonthOf, Calendar.MonthStart, Calendar.MonthLength;
    assert Calendar.DayOf(t) == Calendar.DayOf(u);
  }

  /** Two entries have the same key exactly when their files have the same name. */
  lemma KeysAreNames(a: Entry, b: Entry)
    requires 0 <= Calendar.YearOf(a.createdAt) <= 9999 && 0 <= Calendar.YearOf(b.createdAt) <= 9999
    ensures |DayText(a.createdAt)| == 10 && |DayText(b.createdAt)| == 10
    ensures KeyOf(a) == KeyOf(b) <==> KeyText(DayText(a.createdAt), a.id) == KeyText(DayText(b.createdAt), b.id)
  {
    hide DayText, Calendar.MonthOf, Calendar.MonthStart, Calendar.MonthLength;
    DayTextTells(a.createdAt);
    DayTextTells(b.createdAt);
    SameTextSameDay(a.createdAt, b.createdAt);
    var d, e := DayText(a.createdAt), DayText(b.createdAt);
    if KeyText(d, a.id) == KeyText(e, b.id) {
      KeyNamesOneEntry(d, a.id, e, b.id);
      assert KeyText(d, a.id)[11..21] == d && KeyText(e, b.id)[11..21] == e;
    }
  }

  // ------------------------------------------------------------ the machine

  datatype Archiver = Idle | HasRead(rows: seq<Entry>, cutoff: int) | HasPut(rows: seq<Entry>, cutoff: int)

  /** D1, R2 and the archive run under way; `seen` remembers every entry ever inserted and
      `filed` the file each deleted entry was last archived in. */
  datatype State = State(
    d1: map<Id, Entry>, r2: map<Key, seq<Entry>>, archiver: Archiver, seen: map<Id, Entry>, filed: map<Id, Key>)

  datatype Step =
    | Insert(entries: seq<Entry>)
    | Select(rows: seq<Entry>, now: int)
    | Put
    | DeleteBatch
    | Stop

  /** INSERT OR IGNORE of a delivered batch: the first entry under an id stays. */
  function InsertAll(d1: map<Id, Entry>, entries: seq<Entry>): map<Id, Entry> {
    if entries == [] then d1
    else
      var before := InsertAll(d1, entries[..|entries| - 1]);
      var e := entries[|entries| - 1];
      if e.id in before then before else before[e.id := e]
  }

  function Ids(rows: seq<Entry>): set<Id> { set i | 0 <= i < |rows| :: rows[i].id }

  /** What SELECT ... WHERE created_at < cutoff ORDER BY created_at LIMIT may give: ties fall
      as the database pleases. */
  ghost predicate Selects(d1: map<Id, Entry>, cutoff: int, rows: seq<Entry>) {
    && (forall i :: 0 <= i < |rows| ==> rows[i].id in d1 && d1[rows[i].id] == rows[i] && rows[i].createdAt < cutoff)
    && (forall i, j :: 0 <= i < j < |rows| ==> rows[i].id != rows[j].id && rows[i].createdAt <= rows[j].createdAt)
    && |rows| <= ARCHIVE_BATCH
    && (forall id :: id in d1 && d1[id].createdAt < cutoff && id !in Ids(rows) ==>
          |rows| == ARCHIVE_BATCH && d1[id].createdAt >= rows[ARCHIVE_BATCH - 1].createdAt)
  }

  /** One step; a step that is not enabled changes nothing. */
  ghost function Apply(s: State, step: Step): State {
    match step
    case Insert(entries) => s.(d1 := InsertAll(s.d1, entries), seen := InsertAll(s.seen, entries))
    case Select(rows, now) =>
      var cutoff := now - RETENTION_SECONDS;
      if s.archiver.Idle? && rows != [] && Selects(s.d1, cutoff, rows)
      then s.(archiver := HasRead(rows, cutoff)) else s
    case Put =>
      if s.archiver.HasRead? && s.archiver.rows != []
      then s.(r2 := s.r2[KeyOf(s.archiver.rows[0]) := s.archiver.rows],
              archiver := HasPut(s.archiver.rows, s.archiver.cutoff))
      else s
    case DeleteBatch =>
      if s.archiver.HasPut? && s.archiver.rows != [] then
        var rows := s.archiver.rows;
        s.(d1 := s.d1 - Ids(rows), archiver := Idle, filed := s.filed + map id | id in Ids(rows) :: KeyOf(rows[0]))
      else s
    case Stop => s.(archiver := Idle)
  }

  ghost function Run(s: State, steps: seq<Step>): State {
    if steps == [] then s else Apply(Run(s, steps[..|steps| - 1]), steps[|steps| - 1])
  }

  // ------------------------------------------------------------ what the queue may do

  /** The queue may deliver any message again, with the same content, except one whose id
      names an archive file after its entry left D1. */
  ghost predicate Deliverable(s: State, e: Entry) {
    && (e.id in s.seen ==> s.seen[e.id] == e)
    && (e.id in s.d1 || forall k :: k in s.r2 ==> k.id != e.id)
  }

  ghost predicate Fair(s: State, step: Step) {
    step.Insert? ==>
      && (forall i :: 0 <= i < |step.entries| ==> Deliverable(s, step.entries[i]))
      && (forall i, j :: 0 <= i < j < |step.entries| && step.entries[i].id == step.entries[j].id ==> step.entries[i] == step.entries[j])
  }

  ghost predicate FairRun(s: State, steps: seq<Step>) {
    steps != [] ==> FairRun(s, steps[..|steps| - 1]) && Fair(Run(s, steps[..|steps| - 1]), steps[|steps| - 1])
  }

  lemma {:induction false} InsertAllAdds(d1: map<Id, Entry>, entries: seq<Entry>)
    ensures var after := InsertAll(d1, entries);
            && (forall id :: id in d1 ==> id in after && after[id] == d1[id])
            && (forall id :: id in after && id !in d1 ==> exists i :: 0 <= i < |entries| && entries[i] == after[id] && entries[i].id == id)
            && (forall i :: 0 <= i < |entries| ==> entries[i].id in after)
    decreases |entries|
  {
    if entries != [] {
      InsertAllAdds(d1, entries[..|entries| - 1]);
      var before, after := InsertAll(d1, entries[..|entries| - 1]), InsertAll(d1, entries);
      forall id | id in after && id !in d1
        ensures exists i :: 0 <= i < |entries| && entries[i] == after[id] && entries[i].id == id
      {
        if id in before {
          var i :| 0 <= i < |entries| - 1 && entries[..|entries| - 1][i] == before[id] && entries[..|entries| - 1][i].id == id;
          assert entries[i] == after[id];
        } else {
          assert entries[|entries| - 1] == after[id];
        }
      }
    }
  }

  // ------------------------------------------------------------ nothing is lost

  /** The entry is in a file whose naming entry has left D1. */
  predicate InFile(s: State, e: Entry, k: Key) {
    k in s.r2 && e in s.r2[k] && k.id !in s.d1
  }

  predicate Tables(s: State) {
    && (forall id :: id in s.d1 ==> s.d1[id].id == id && id in s.seen && s.seen[id] == s.d1[id])
    && (forall id :: id in s.seen ==> s.seen[id].id == id)
    && (forall k :: k in s.r2 ==> k.id in s.seen)
  }

  predicate StillThere(d1: map<Id, Entry>, rows: seq<Entry>, cutoff: int) {
    forall i :: 0 <= i < |rows| ==> rows[i].id in d1 && d1[rows[i].id] == rows[i] && rows[i].createdAt < cutoff
  }

  /** What an archive run has read is still in D1, and in R2 once it has been put there. */
  predicate Reading(s: State) {
    !s.archiver.Idle? ==>
      && s.archiver.rows != []
      && StillThere(s.d1, s.archiver.rows, s.archiver.cutoff)
      && (s.archiver.HasPut? ==> KeyOf(s.archiver.rows[0]) in s.r2 && s.r2[KeyOf(s.archiver.rows[0])] == s.archiver.rows)
  }

  /** Each entry ever inserted is in D1 or in a file whose naming entry has left D1. */
  predicate AllKept(s: State) {
    forall id :: id in s.seen ==> id in s.d1 || (id in s.filed && InFile(s, s.seen[id], s.filed[id]))
  }

  /** What every run keeps. */
  predicate Safe(s: State) {
    Tables(s) && Reading(s) && AllKept(s)
  }

  lemma InsertKeepsTables(s: State, entries: seq<Entry>)
    requires Safe(s) && Fair(s, Insert(entries))
    ensures Tables(Apply(s, Insert(entries))) && Reading(Apply(s, Insert(entries)))
  {
    hide AllKept, InsertAll, Fair;
    var d1, seen := InsertAll(s.d1, entries), InsertAll(s.seen, entries);
    forall id
      ensures id in s.d1 ==> id in d1 && d1[id] == s.d1[id]
      ensures id in s.seen ==> id in seen && seen[id] == s.seen[id]
      ensures id in seen ==> seen[id].id == id
      ensures id in d1 ==> id in seen && seen[id] == d1[id]
    {
      InsertedRow(s, entries, id);
    }
  }

  lemma InsertedRow(s: State, entries: seq<Entry>, id: Id)
    requires Tables(s) && Fair(s, Insert(entries))
    ensures var d1, seen := InsertAll(s.d1, entries), InsertAll(s.seen, entries);
            && (id in s.d1 ==> id in d1 && d1[id] == s.d1[id])
            && (id in s.seen ==> id in seen && seen[id] == s.seen[id])
            && (id in seen ==> seen[id].id == id)
            && (id in d1 ==> id in seen && seen[id] == d1[id])
  {
    hide InsertAll;
    InsertAllAdds(s.d1, entries);
    InsertAllAdds(s.seen, entries);
    var d1, seen := InsertAll(s.d1, entries), InsertAll(s.seen, entries);
    if id in d1 && id !in s.d1 {
      var i :| 0 <= i < |entries| && entries[i] == d1[id] && entries[i].id == id;
      assert Deliverable(s, entries[i]);
    }
  }

  /** An insert brings back no entry that names a file. */
  lemma InsertLeavesNamesOut(s: State, entries: seq<Entry>, k: Key)
    requires Fair(s, Insert(entries)) && k in s.r2 && k.id !in s.d1
    ensures k.id !in InsertAll(s.d1, entries)
  {
  }

  lemma InsertKeepsAll(s: State, entries: seq<Entry>)
    requires Safe(s) && Fair(s, Insert(entries))
    ensures AllKept(Apply(s, Insert(entries)))
  {
    hide InsertAll, Reading, Tables;
    var s' := Apply(s, Insert(entries));
    InsertAllAdds(s.d1, entries);
    InsertAllAdds(s.seen, entries);
    forall id | id in s'.seen && id !in s'.d1
      ensures id in s'.filed && InFile(s', s'.seen[id], s'.filed[id])
    {
      if id in s.seen {
        assert InFile(s, s.seen[id], s.filed[id]);
        InsertLeavesNamesOut(s, entries, s.filed[id]);
      }
    }
  }

  lemma PutKeepsSafe(s: State)
    requires Safe(s)
    ensures Safe(Apply(s, Put))
  {
    hide InsertAll, Selects, Ids;
  }

  /** An entry the batch deletes is in the file just put. */
  lemma DeletedIsFiled(s: State, id: Id)
    requires Safe(s) && s.archiver.HasPut? && id in Ids(s.archiver.rows)
    ensures var s', k := Apply(s, DeleteBatch), KeyOf(s.archiver.rows[0]);
            id in s'.filed && s'.filed[id] == k && id in s.seen && InFile(s', s.seen[id], k)
  {
    hide InsertAll, Selects, AllKept;
    var rows := s.archiver.rows;
    assert rows[0].id in Ids(rows);
    var i :| 0 <= i < |rows| && rows[i].id == id;
    assert rows[i] == s.seen[id];
  }

  /** Any other is where it was. */
  lemma OthersStayFiled(s: State, id: Id)
    requires Safe(s) && s.archiver.HasPut? && id in s.seen && id !in s.d1 && id !in Ids(s.archiver.rows)
    ensures var s' := Apply(s, DeleteBatch); id in s'.filed && InFile(s', s.seen[id], s'.filed[id])
  {
    hide InsertAll, Selects, Ids, Reading, Tables;
    assert InFile(s, s.seen[id], s.filed[id]);
  }

  lemma DeleteFiles(s: State, id: Id)
    requires Safe(s) && s.archiver.HasPut? && id in s.seen
    ensures var s' := Apply(s, DeleteBatch);
            id in s'.d1 || (id in s'.filed && InFile(s', s.seen[id], s'.filed[id]))
  {
    hide InsertAll, Selects, InFile, Safe, Ids;
    if id in Ids(s.archiver.rows) {
      DeletedIsFiled(s, id);
    } else if id !in s.d1 {
      OthersStayFiled(s, id);
    }
  }

  lemma DeleteKeepsSafe(s: State)
    requires Safe(s)
    ensures Safe(Apply(s, DeleteBatch))
  {
    hide InsertAll, Selects, Ids, InFile;
    var s' := Apply(s, DeleteBatch);
    if s.archiver.HasPut? {
      forall id | id in s.seen
        ensures id in s'.d1 || (id in s'.filed && InFile(s', s'.seen[id], s'.filed[id]))
      {
        DeleteFiles(s, id);
      }
    }
  }

  lemma SelectKeepsSafe(s: State, rows: seq<Entry>, now: int)
    requires Safe(s)
    ensures Safe(Apply(s, Select(rows, now)))
  {
  }

  lemma StopKeepsSafe(s: State)
    requires Safe(s)
    ensures Safe(Apply(s, Stop))
  {
  }

  lemma InsertKeepsSafe(s: State, entries: seq<Entry>)
    requires Safe(s) && Fair(s, Insert(entries))
    ensures Safe(Apply(s, Insert(entries)))
  {
    InsertKeepsTables(s, entries);
    InsertKeepsAll(s, entries);
    hide Tables, Reading, AllKept, Apply, Fair;
  }

  lemma StepKeepsSafe(s: State, step: Step)
    requires Safe(s) && Fair(s, step)
    ensures Safe(Apply(s, step))
  {
    hide Safe, Apply, Fair;
    match step
    case Insert(entries) => InsertKeepsSafe(s, entries);
    case Put => PutKeepsSafe(s);
    case DeleteBatch => DeleteKeepsSafe(s);
    case Select(rows, now) => SelectKeepsSafe(s, rows, now);
    case Stop => StopKeepsSafe(s);
  }

  /** Over every run of inserts, duplicate deliveries, archive runs and stops, each entry
      ever inserted is in D1 or in a file whose naming entry has left D1. */
  lemma {:induction false} NothingIsLost(s: State, steps: seq<Step>)
    requires Safe(s) && FairRun(s, steps)
    ensures Safe(Run(s, steps))
    decreases |steps|
  {
    hide Safe, Apply, Fair;
    if steps != [] {
      NothingIsLost(s, steps[..|steps| - 1]);
      StepKeepsSafe(Run(s, steps[..|steps| - 1]), steps[|steps| - 1]);
    }
  }

  function Empty(): State { State(map[], map[], Idle, map[], map[]) }

  /** From empty stores: whatever was ever inserted, and whenever the run is looked at, the entry can be read
      back in D1 or in a file that is final. */
  lemma EveryEntryCanBeRead(steps: seq<Step>, id: Id)
    requires FairRun(Empty(), steps) && id in Run(Empty(), steps).seen
    ensures var s := Run(Empty(), steps);
            || (id in s.d1 && s.d1[id] == s.seen[id])
            || exists k :: k in s.r2 && s.seen[id] in s.r2[k] && k.id !in s.d1
  {
    assert Safe(Empty());
    NothingIsLost(Empty(), steps);
    hide Run, Reading;
    var s := Run(Empty(), steps);
    assert id in s.d1 || InFile(s, s.seen[id], s.filed[id]);
  }

  /** Once the naming entry of a file has left D1, no run changes the file: no later put
      overwrites it. */
  lemma {:induction false} FilesAreFinal(s: State, steps: seq<Step>, k: Key)
    requires Safe(s) && FairRun(s, steps) && k in s.r2 && k.id !in s.d1
    ensures var s' := Run(s, steps); k in s'.r2 && s'.r2[k] == s.r2[k] && k.id !in s'.d1
    decreases |steps|
  {
    hide Safe, Apply, Fair;
    if steps != [] {
      FilesAreFinal(s, steps[..|steps| - 1], k);
      NothingIsLost(s, steps[..|steps| - 1]);
      StepKeepsFile(Run(s, steps[..|steps| - 1]), steps[|steps| - 1], k);
    }
  }

  lemma StepKeepsFile(s: State, step: Step, k: Key)
    requires Safe(s) && Fair(s, step) && k in s.r2 && k.id !in s.d1
    ensures var s' := Apply(s, step); k in s'.r2 && s'.r2[k] == s.r2[k] && k.id !in s'.d1
  {
    hide AllKept, Tables, InsertAll;
    if step.Insert? {
      InsertLeavesNamesOut(s, step.entries, k);
    } else if step.Put? && s.archiver.HasRead? {
      assert s.archiver.rows[0].id in s.d1;
    }
  }

  /** Only entries past the retention period leave D1. */
  lemma OnlyOldEntriesLeave(s: State, step: Step, id: Id)
    requires Safe(s) && id in s.d1 && id !in Apply(s, step).d1
    ensures step == DeleteBatch && s.archiver.HasPut? && s.d1[id].createdAt < s.archiver.cutoff
  {
    hide AllKept, Tables, InsertAll;
    if step.Insert? {
      InsertAllAdds(s.d1, step.entries);
    }
  }

  /** What a run selects: at most 5000 entries, the oldest first, each more than 180 days old, and all that are when
      they are fewer. */
  lemma SelectedAreOld(s: State, rows: seq<Entry>, now: int)
    requires s.archiver.Idle? && Apply(s, Select(rows, now)) != s
    ensures Apply(s, Select(rows, now)) == s.(archiver := HasRead(rows, now - 180 * 24 * 60 * 60))
    ensures 0 < |rows| <= 5000 && forall i :: 0 <= i < |rows| ==> now > rows[i].createdAt + 180 * 24 * 60 * 60
    ensures forall i, j :: 0 <= i < j < |rows| ==> rows[i].createdAt <= rows[j].createdAt
    ensures forall id :: id in s.d1 && now > s.d1[id].createdAt + 180 * 24 * 60 * 60 && id !in Ids(rows) ==> |rows| == 5000
  {
    hide InsertAll;
  }

  // ------------------------------------------------------------ and when the queue is unfair

  ghost function ArchiveRun(s: State, rows: seq<Entry>, now: int): State {
    Apply(Apply(Apply(s, Select(rows, now)), Put), DeleteBatch)
  }

  lemma ArchiveRunMoves(s: State, rows: seq<Entry>, now: int)
    requires s.archiver.Idle? && rows != [] && Selects(s.d1, now - RETENTION_SECONDS, rows)
    ensures var s' := ArchiveRun(s, rows, now);
            s'.d1 == s.d1 - Ids(rows) && s'.r2 == s.r2[KeyOf(rows[0]) := rows] && s'.archiver.Idle? && s'.seen == s.seen
  {
  }

  lemma IdsOfFew(a: Entry, b: Entry)
    ensures Ids([a]) == {a.id} && Ids([a, b]) == {a.id, b.id}
  {
    assert [a][0].id in Ids([a]);
    assert [a, b][0].id in Ids([a, b]) && [a, b][1].id in Ids([a, b]);
  }

  lemma InsertFew(d1: map<Id, Entry>, a: Entry, b: Entry)
    requires a.id != b.id
    ensures InsertAll(map[], [a]) == map[a.id := a]
    ensures InsertAll(map[], [a, b]) == map[a.id := a, b.id := b]
    ensures a.id in d1 ==> InsertAll(d1, [a]) == d1
  {
  }

  /** The one delivery `Deliverable` rules out does lose an entry: when the naming entry of
      a file comes again after it was archived, the next archive run puts a file of the
      same name and the other entry of the old file is gone. */
  lemma RedeliveredNameLosesEntries(a: Entry, b: Entry, now: int)
    requires a.id != b.id && a.createdAt <= b.createdAt < now - RETENTION_SECONDS
    ensures var archived := ArchiveRun(Apply(Empty(), Insert([a, b])), [a, b], now);
            var again := ArchiveRun(Apply(archived, Insert([a])), [a], now);
            && !Deliverable(archived, a)
            && b.id in again.seen && again.d1 == map[] && again.r2 == map[KeyOf(a) := [a]]
  {
    hide ArchiveRun, InsertAll, Ids;
    IdsOfFew(a, b);
    var s1 := Apply(Empty(), Insert([a, b]));
    InsertFew(map[], a, b);
    ArchiveRunMoves(s1, [a, b], now);
    var archived := ArchiveRun(s1, [a, b], now);
    assert archived.d1 == map[];
    assert KeyOf(a) in archived.r2;
    InsertFew(archived.seen, a, b);
    var s2 := Apply(archived, Insert([a]));
    ArchiveRunMoves(s2, [a], now);
  }

  // ------------------------------------------------------------ as the code is written

  function Flatten(slices: seq<seq<Id>>): seq<Id> {
    if slices == [] then [] else Flatten(slices[..|slices| - 1]) + slices[|slices| - 1]
  }

  /** The ids cut into slices of at most ninety, in order and without a gap. */
  method Slices(ids: seq<Id>) returns (slices: seq<seq<Id>>)
    ensures Flatten(slices) == ids
    ensures forall i :: 0 <= i < |slices| ==> 0 < |slices[i]| <= 90
  {
    slices := [];
    var i := 0;
    while i < |ids|
      invariant 0 <= i <= |ids|
      invariant Flatten(slices) == ids[..i]
      invariant forall j :: 0 <= j < |slices| ==> 0 < |slices[j]| <= DELETE_SLICE
    {
      var end := if i + DELETE_SLICE <= |ids| then i + DELETE_SLICE else |ids|;
      var slice := ids[i..end];
      assert (slices + [slice])[..|slices|] == slices;
      assert ids[..i] + slice == ids[..end];
      slices := slices + [slice];
      i := end;
    }
    assert ids[..i] == ids;
  }

  class Store {
    var d1: map<Id, Entry>
    var r2: map<Key, seq<Entry>>

    method InsertAuditEntries(entries: seq<Entry>)
      modifies this`d1
      ensures d1 == InsertAll(old(d1), entries)
    {
      var i := 0;
      while i < |entries|
        invariant 0 <= i <= |entries|
        invariant d1 == InsertAll(old(d1), entries[..i])
      {
        if entries[i].id !in d1 {
          d1 := d1[entries[i].id := entries[i]];
        }
        assert entries[..i + 1][..i] == entries[..i];
        i := i + 1;
      }
      assert entries[..i] == entries;
    }

    /** One archive run that nothing interrupts; `rows` is what the SELECT gave.  It puts
        one file and deletes exactly the rows it read. */
    method ArchiveOldAuditLogs(rows: seq<Entry>, now: int) returns (archived: nat)
      requires Selects(d1, now - RETENTION_SECONDS, rows)
      modifies this
      ensures archived == |rows|
      ensures rows == [] ==> d1 == old(d1) && r2 == old(r2)
      ensures rows != [] ==> d1 == old(d1) - Ids(rows) && r2 == old(r2)[KeyOf(rows[0]) := rows]
    {
      if rows == [] {
        return 0;
      }
      r2 := r2[KeyOf(rows[0]) := rows];
      var ids := seq(|rows|, i requires 0 <= i < |rows| => rows[i].id);
      var statements := Slices(ids);
      var i := 0;
      while i < |statements|
        invariant 0 <= i <= |statements|
        invariant d1 == old(d1) - (set id | id in Flatten(statements[..i]))
        invariant r2 == old(r2)[KeyOf(rows[0]) := rows]
      {
        assert statements[..i + 1][..i] == statements[..i];
        d1 := d1 - (set id | id in statements[i]);
        i := i + 1;
      }
      assert statements[..i] == statements;
      assert Ids(rows) == set id | id in ids by {
        forall id | id in Ids(rows) ensures id in ids {
          var j :| 0 <= j < |rows| && rows[j].id == id;
          assert ids[j] == id;
        }
      }
      archived := |rows|;
    }
  }
}
