/** rebuildHardwareModels of src/hardware.ts: the pass over the reports and the rows it writes. */
module HardwareList {
  import opened Wrappers
  import opened FirmwareText
  import opened Hardware

  datatype Model = Model(vendor: string, model: string, organizations: nat, workstations: nat, uefi: nat, touch: nat, minMemoryMb: Option<int>)

  function ModelGroup(locale: Locale, row: Model): Group { NamesOf(locale, row.vendor, row.model) }

  // ------------------------------------------------------------ what the list is

  /** A row states its group: how many machines, of how many organizations, the least memory, and of the spellings
      none is more frequent than the first in the platform's order. */
  ghost predicate Describes(locale: Locale, row: Model, ms: seq<Machine>) {
    var g := ModelGroup(locale, row);
    && row.workstations == Count(locale, ms, g, Any) && row.uefi == Count(locale, ms, g, Uefi) && row.touch == Count(locale, ms, g, Touch)
    && row.organizations == |Organizations(locale, ms, g)|
    && row.minMemoryMb.Some? && IsMinimum(locale, ms, g, row.minMemoryMb.value)
    && (exists m :: m in ms && m.vendor == row.vendor && m.model == row.model)
    && (forall m :: m in ms ==>
          Count(locale, ms, g, Spelled(m.vendor, m.model)) <= Count(locale, ms, g, Spelled(row.vendor, row.model)))
    && (forall m :: m in ms && Count(locale, ms, g, Spelled(m.vendor, m.model)) == Count(locale, ms, g, Spelled(row.vendor, row.model)) ==>
          locale.compare(Joined(row.vendor, row.model), Joined(m.vendor, m.model)) <= 0)
  }

  function Total(models: seq<Model>): nat {
    if models == [] then 0 else Total(models[..|models| - 1]) + models[|models| - 1].workstations
  }

  // ------------------------------------------------------------ the totals

  function Groups(locale: Locale, models: seq<Model>): seq<Group> { seq(|models|, i requires 0 <= i < |models| => ModelGroup(locale, models[i])) }

  function SumOver(locale: Locale, ms: seq<Machine>, groups: seq<Group>): nat {
    if groups == [] then 0 else SumOver(locale, ms, groups[..|groups| - 1]) + Count(locale, ms, groups[|groups| - 1], Any)
  }

  predicate Distinct(groups: seq<Group>) { forall i, j :: 0 <= i < j < |groups| ==> groups[i] != groups[j] }

  lemma {:induction false} SumOverNone(locale: Locale, groups: seq<Group>)
    ensures SumOver(locale, [], groups) == 0
  {
    if groups != [] {
      SumOverNone(locale, groups[..|groups| - 1]);
    }
  }

  /** One more machine counts once, in its own group. */
  lemma {:induction false} SumOverOneMore(locale: Locale, ms: seq<Machine>, m: Machine, groups: seq<Group>)
    requires Distinct(groups)
    ensures SumOver(locale, ms + [m], groups) == SumOver(locale, ms, groups) + (if GroupOf(locale, m) in groups then 1 else 0)
  {
    hide GroupOf, Count;
    if groups != [] {
      var n := |groups| - 1;
      SumOverOneMore(locale, ms, m, groups[..n]);
      CountOfOne(locale, ms, m, groups[n], Any);
      assert groups == groups[..n] + [groups[n]] && groups[n] !in groups[..n];
    }
  }

  lemma {:induction false} GroupsAddUp(locale: Locale, ms: seq<Machine>, groups: seq<Group>)
    requires Distinct(groups) && forall m :: m in ms ==> GroupOf(locale, m) in groups
    ensures SumOver(locale, ms, groups) == |ms|
  {
    hide GroupOf, SumOver, Distinct;
    if ms == [] {
      SumOverNone(locale, groups);
    } else {
      var n := |ms| - 1;
      assert ms == ms[..n] + [ms[n]];
      GroupsAddUp(locale, ms[..n], groups);
      SumOverOneMore(locale, ms[..n], ms[n], groups);
    }
  }

  lemma {:induction false} TotalIsSum(locale: Locale, models: seq<Model>, ms: seq<Machine>)
    requires forall i :: 0 <= i < |models| ==> Describes(locale, models[i], ms)
    ensures Total(models) == SumOver(locale, ms, Groups(locale, models))
  {
    hide ModelGroup, Count;
    if models != [] {
      var n := |models| - 1;
      TotalIsSum(locale, models[..n], ms);
      assert Groups(locale, models)[..n] == Groups(locale, models[..n]);
      assert Describes(locale, models[n], ms);
    }
  }

  // ------------------------------------------------------------ the pass over the reports

  predicate Started(t: Tally) { t.minMemoryMb.Some? && t.spellings != map[] }

  /** Every machine is tallied, and every tally is that of the group its key names. */
  ghost predicate AllTallied(locale: Locale, tallies: map<string, Tally>, ms: seq<Machine>) {
    && (forall m :: m in ms ==> MachineKey(locale, m) in tallies)
    && (forall key :: key in tallies ==>
          GroupKey(KeyGroup(key)) == key && Tallied(locale, tallies[key], ms, KeyGroup(key)) && Started(tallies[key]))
  }

  lemma OneMoreTallied(locale: Locale, tallies: map<string, Tally>, ms: seq<Machine>, m: Machine)
    requires Sane(locale) && AllTallied(locale, tallies, ms) && NulFree(m) && AllNulFree(ms)
    ensures var key := MachineKey(locale, m);
            var t := if key in tallies then tallies[key] else Empty();
            AllTallied(locale, tallies[key := Add(t, m)], ms + [m])
  {
    hide Spelling, KeyGroup, Joined, CountsRight, SpellingsRight, MembersRight, SpellingsSeen, Sane, NulFree;
    var key, after, g := MachineKey(locale, m), ms + [m], GroupOf(locale, m);
    KeyNamesItsGroup(locale, m);
    var t := if key in tallies then tallies[key] else Empty();
    if key !in tallies {
      NewGroup(locale, tallies, ms, m);
      EmptyIsTallied(locale, ms, g);
    }
    AddCounts(locale, t, ms, m);
    AddMembers(locale, t, ms, m);
    assert Tallied(locale, Add(t, m), after, g) && Started(Add(t, m)) by {
      assert Spelling(m) in Add(t, m).spellings;
    }
    forall other | other in tallies && other != key
      ensures Tallied(locale, tallies[other], after, KeyGroup(other))
    {
      assert KeyGroup(other) != g;
      OthersStay(locale, tallies[other], ms, m, KeyGroup(other));
    }
    hide Tallied, Add;
    assert forall x :: x in after ==> x in ms || x == m;
  }

  /** A machine whose key is new is the first of its group. */
  lemma NewGroup(locale: Locale, tallies: map<string, Tally>, ms: seq<Machine>, m: Machine)
    requires Sane(locale) && AllTallied(locale, tallies, ms) && NulFree(m) && AllNulFree(ms) && MachineKey(locale, m) !in tallies
    ensures forall x :: x in ms ==> GroupOf(locale, x) != GroupOf(locale, m)
  {
    hide Tallied, KeyGroup, Sane;
    forall x | x in ms
      ensures GroupOf(locale, x) != GroupOf(locale, m)
    {
      KeysAreNames(locale, x, m);
    }
  }

  ghost predicate AllNulFree(ms: seq<Machine>) { forall m :: m in ms ==> NulFree(m) }

  lemma NothingTallied(locale: Locale)
    ensures AllTallied(locale, map[], Machines(locale, []))
  {
  }

  lemma MachinesNext(locale: Locale, rows: seq<Row>, n: int)
    requires 0 <= n < |rows|
    ensures var m := Read(locale, rows[n]);
            Machines(locale, rows[..n + 1]) == if m.Some? then Machines(locale, rows[..n]) + [m.value] else Machines(locale, rows[..n])
  {
    hide Read;
    assert rows[..n + 1][..n] == rows[..n] && rows[..n + 1][n] == rows[n];
  }

  method TallyReports(locale: Locale, rows: seq<Row>) returns (tallies: map<string, Tally>)
    requires Sane(locale)
    ensures AllTallied(locale, tallies, Machines(locale, rows))
  {
    hide Sane, AllTallied, Machines, Read, MachineKey, Add, Empty, NulFree, AllNulFree;
    NothingTallied(locale);
    tallies := map[];
    var n := 0;
    assert rows[..n] == [];
    while n < |rows|
      invariant 0 <= n <= |rows|
      invariant AllTallied(locale, tallies, Machines(locale, rows[..n]))
    {
      MachinesNext(locale, rows, n);
      var hardware := Read(locale, rows[n]);
      if hardware.Some? {
        var m := hardware.value;
        MachinesAreNulFree(locale, rows[..n]);
        ReadIsNulFree(locale, rows[n]);
        OneMoreTallied(locale, tallies, Machines(locale, rows[..n]), m);
        var key := MachineKey(locale, m);
        var tally := if key in tallies then tallies[key] else Empty();
        tallies := tallies[key := Add(tally, m)];
      }
      n := n + 1;
    }
    assert rows[..n] == rows;
  }

  // ------------------------------------------------------------ the spelling shown

  /** The first in order of falling count, then of the platform's order of strings. */
  method BestSpelling(locale: Locale, spellings: map<string, nat>) returns (best: string)
    requires Sane(locale) && spellings != map[]
    ensures best in spellings && forall s :: s in spellings ==> spellings[s] <= spellings[best]
    ensures forall s :: s in spellings && spellings[s] == spellings[best] ==> locale.compare(best, s) <= 0
  {
    best :| best in spellings;
    var todo := spellings.Keys - {best};
    while todo != {}
      invariant best in spellings && todo <= spellings.Keys
      invariant forall s :: s in spellings && s !in todo ==>
        spellings[s] < spellings[best] || (spellings[s] == spellings[best] && locale.compare(best, s) <= 0)
      decreases |todo|
    {
      var s :| s in todo;
      if spellings[s] > spellings[best] || (spellings[s] == spellings[best] && locale.compare(s, best) <= 0) {
        best := s;
      }
      todo := todo - {s};
    }
  }

  // ------------------------------------------------------------ the rows written

  lemma ReadIsNulFree(locale: Locale, row: Row)
    ensures Read(locale, row).Some? ==> NulFree(Read(locale, row).value)
  {
    hide FirmwareName, Nul;
    if row.report.Some? {
      FirmwareNameHasNoNul(locale, row.report.value.vendor, MAX_VENDOR);
      FirmwareNameHasNoNul(locale, row.report.value.model, MAX_MODEL);
    }
  }

  lemma {:induction false} MachinesAreNulFree(locale: Locale, rows: seq<Row>)
    ensures AllNulFree(Machines(locale, rows))
  {
    hide Read, NulFree;
    if rows != [] {
      MachinesAreNulFree(locale, rows[..|rows| - 1]);
      ReadIsNulFree(locale, rows[|rows| - 1]);
    }
  }

  function RowOf(t: Tally, vendor: string, model: string): Model {
    Model(vendor, model, |t.tenants|, t.workstations, t.uefi, t.touch, t.minMemoryMb)
  }

  /** The row made of a group's tally and a most frequent spelling describes that group. */
  lemma RowDescribes(locale: Locale, t: Tally, ms: seq<Machine>, g: Group, best: string)
    requires Tallied(locale, t, ms, g) && Started(t) && AllNulFree(ms)
    requires best in t.spellings && forall s :: s in t.spellings ==> t.spellings[s] <= t.spellings[best]
    requires forall s :: s in t.spellings && t.spellings[s] == t.spellings[best] ==> locale.compare(best, s) <= 0
    ensures var parts := Split(best);
            && |parts| == 2 && best == Joined(parts[0], parts[1])
            && ModelGroup(locale, RowOf(t, parts[0], parts[1])) == g && Describes(locale, RowOf(t, parts[0], parts[1]), ms)
  {
    hide Split, Joined, Count, Organizations, IsMinimum, Nul;
    var m :| m in ms && GroupOf(locale, m) == g && Spelling(m) == best;
    SplitRecovers(m.vendor, m.model);
    forall x | x in ms
      ensures Count(locale, ms, g, Spelled(x.vendor, x.model)) <= Count(locale, ms, g, Spelled(m.vendor, m.model))
    {
      assert Nul() !in x.vendor && Nul() !in x.model;
    }
    forall x | x in ms && Count(locale, ms, g, Spelled(x.vendor, x.model)) == Count(locale, ms, g, Spelled(m.vendor, m.model))
      ensures locale.compare(Joined(m.vendor, m.model), Joined(x.vendor, x.model)) <= 0
    {
      assert Nul() !in x.vendor && Nul() !in x.model && t.spellings[best] > 0;
      assert Joined(x.vendor, x.model) in t.spellings;
    }
  }

  /** What has been written so far: rows of distinct groups, each described. */
  ghost predicate Written(locale: Locale, models: seq<Model>, ms: seq<Machine>, written: set<string>) {
    && Distinct(Groups(locale, models))
    && (forall i :: 0 <= i < |models| ==> Describes(locale, models[i], ms) && GroupKey(ModelGroup(locale, models[i])) in written)
    && (forall key :: key in written ==> KeyGroup(key) in Groups(locale, models))
  }

  function GroupKey(g: Group): string { Joined(g.vendor, g.model) }

  lemma WriteOne(locale: Locale, models: seq<Model>, ms: seq<Machine>, written: set<string>, row: Model, key: string)
    requires Written(locale, models, ms, written) && Describes(locale, row, ms) && key !in written
    requires ModelGroup(locale, row) == KeyGroup(key) && GroupKey(KeyGroup(key)) == key
    ensures Written(locale, models + [row], ms, written + {key})
  {
    hide Describes, ModelGroup, KeyGroup, GroupKey;
    assert Groups(locale, models + [row]) == Groups(locale, models) + [ModelGroup(locale, row)];
  }

  /** The list is the group-by without regard to case: no two rows have the same names then, every row
      describes the machines of its names, every machine has a row, and the workstations add up. */
  ghost predicate IsGroupBy(locale: Locale, models: seq<Model>, ms: seq<Machine>) {
    && Distinct(Groups(locale, models))
    && (forall i :: 0 <= i < |models| ==> Describes(locale, models[i], ms))
    && (forall m :: m in ms ==> GroupOf(locale, m) in Groups(locale, models))
    && Total(models) == |ms|
  }

  /** No two rows collide on the primary key. */
  lemma NamesAreDistinct(locale: Locale, models: seq<Model>, i: int, j: int)
    requires Distinct(Groups(locale, models)) && 0 <= i < j < |models|
    ensures (models[i].vendor, models[i].model) != (models[j].vendor, models[j].model)
  {
    assert Groups(locale, models)[i] != Groups(locale, models)[j];
  }

  lemma AllWritten(locale: Locale, tallies: map<string, Tally>, models: seq<Model>, ms: seq<Machine>)
    requires Sane(locale) && AllNulFree(ms) && AllTallied(locale, tallies, ms) && Written(locale, models, ms, tallies.Keys)
    ensures IsGroupBy(locale, models, ms)
  {
    hide Sane, Tallied, Started, Describes, KeyGroup, Distinct, Groups, GroupOf, MachineKey;
    forall m | m in ms
      ensures GroupOf(locale, m) in Groups(locale, models)
    {
      KeyNamesItsGroup(locale, m);
      assert KeyGroup(MachineKey(locale, m)) in Groups(locale, models);
    }
    TotalIsSum(locale, models, ms);
    GroupsAddUp(locale, ms, Groups(locale, models));
  }

  // ------------------------------------------------------------ by the rows of the table

  function CountReads(locale: Locale, rows: seq<Row>): nat {
    if rows == [] then 0 else CountReads(locale, rows[..|rows| - 1]) + (if Reads(locale, rows[|rows| - 1]) then 1 else 0)
  }

  /** The machine is what a row of the table reports. */
  predicate Reported(locale: Locale, m: Machine, row: Row) {
    && Reads(locale, row) && m.tenant == row.tenant
    && m.vendor == Text(row.report.value.vendor.value, 80) && m.model == Text(row.report.value.model.value, 80)
    && m.uefi == row.report.value.uefi && m.touch == row.report.value.touch && m.memoryMb == row.report.value.memoryMb
  }

  /** The machines are those the rows report, one for each row that reads. */
  lemma {:induction false} MachinesAreReported(locale: Locale, rows: seq<Row>)
    ensures |Machines(locale, rows)| == CountReads(locale, rows)
    ensures forall m :: m in Machines(locale, rows) ==> exists row :: row in rows && Reported(locale, m, row)
    ensures forall row :: row in rows && Reads(locale, row) ==> exists m :: m in Machines(locale, rows) && Reported(locale, m, row)
  {
    hide Read, Reads, Reported;
    if rows != [] {
      var n := |rows| - 1;
      var init, last := rows[..n], rows[n];
      MachinesAreReported(locale, init);
      OneReported(locale, last);
      assert rows == init + [last];
      var ms := Machines(locale, rows);
      forall m | m in ms
        ensures exists row :: row in rows && Reported(locale, m, row)
      {
        if m in Machines(locale, init) {
          var row :| row in init && Reported(locale, m, row);
          assert row in rows;
        } else {
          assert last in rows && Reported(locale, m, last);
        }
      }
      forall row | row in rows && Reads(locale, row)
        ensures exists m :: m in ms && Reported(locale, m, row)
      {
        if row in init {
          var m :| m in Machines(locale, init) && Reported(locale, m, row);
          assert m in ms;
        } else {
          assert row == last && ms[|ms| - 1] == Read(locale, last).value;
        }
      }
    }
  }

  lemma OneReported(locale: Locale, row: Row)
    ensures Read(locale, row).Some? <==> Reads(locale, row)
    ensures Read(locale, row).Some? ==> Reported(locale, Read(locale, row).value, row)
  {
    hide Read, Reads, Text;
    ReadIs(locale, row);
  }

  /** A row of the list is under the names a report gives, without regard to case. */
  predicate Under(locale: Locale, model: Model, vendor: string, name: string) {
    locale.lower(model.vendor) == locale.lower(vendor) && locale.lower(model.model) == locale.lower(name)
  }

  predicate IsListed(locale: Locale, models: seq<Model>, row: Row)
    requires Reads(locale, row)
  {
    exists i :: 0 <= i < |models|
      && Under(locale, models[i], Text(row.report.value.vendor.value, 80), Text(row.report.value.model.value, 80))
  }

  predicate Spells(locale: Locale, row: Row, model: Model) {
    && Reads(locale, row)
    && model.vendor == Text(row.report.value.vendor.value, 80) && model.model == Text(row.report.value.model.value, 80)
  }

  /** The list against the table: every row that reads is listed under its names, every listed name is spelled as
      some row reports it, and the workstations are as many as the rows that read. */
  ghost predicate ListsRows(locale: Locale, models: seq<Model>, rows: seq<Row>) {
    && Total(models) == CountReads(locale, rows)
    && (forall row :: row in rows && Reads(locale, row) ==> IsListed(locale, models, row))
    && (forall i :: 0 <= i < |models| ==> exists row :: row in rows && Spells(locale, row, models[i]))
  }

  lemma RowIsListed(locale: Locale, models: seq<Model>, ms: seq<Machine>, m: Machine, row: Row)
    requires forall x :: x in ms ==> GroupOf(locale, x) in Groups(locale, models)
    requires m in ms && Reported(locale, m, row)
    ensures IsListed(locale, models, row)
  {
    hide Text, Reads;
    var i :| 0 <= i < |models| && Groups(locale, models)[i] == GroupOf(locale, m);
    assert Under(locale, models[i], m.vendor, m.model);
  }

  lemma DescribedIsNamed(locale: Locale, model: Model, ms: seq<Machine>) returns (m: Machine)
    requires Describes(locale, model, ms)
    ensures m in ms && m.vendor == model.vendor && m.model == model.model
  {
    m :| m in ms && m.vendor == model.vendor && m.model == model.model;
  }

  lemma GroupByListsRows(locale: Locale, models: seq<Model>, rows: seq<Row>)
    requires IsGroupBy(locale, models, Machines(locale, rows))
    ensures ListsRows(locale, models, rows)
  {
    hide Machines, Text, Reads, Describes, GroupOf, Groups, Distinct, IsListed, Reported;
    MachinesAreReported(locale, rows);
    var ms := Machines(locale, rows);
    forall row | row in rows && Reads(locale, row)
      ensures IsListed(locale, models, row)
    {
      var m :| m in ms && Reported(locale, m, row);
      RowIsListed(locale, models, ms, m, row);
    }
    forall i | 0 <= i < |models|
      ensures exists row :: row in rows && Spells(locale, row, models[i])
    {
      var m := DescribedIsNamed(locale, models[i], ms);
      var row :| row in rows && Reported(locale, m, row);
      ReportedSpells(locale, m, row, models[i]);
    }
  }

  lemma ReportedSpells(locale: Locale, m: Machine, row: Row, model: Model)
    requires Reported(locale, m, row) && m.vendor == model.vendor && m.model == model.model
    ensures Spells(locale, row, model)
  {
    hide Text, Reads;
  }

  method RebuildHardwareModels(locale: Locale, rows: seq<Row>) returns (models: seq<Model>, count: nat)
    requires Sane(locale)
    ensures IsGroupBy(locale, models, Machines(locale, rows)) && count == |models|
    ensures ListsRows(locale, models, rows)
    ensures forall i, j :: 0 <= i < j < |models| ==> (models[i].vendor, models[i].model) != (models[j].vendor, models[j].model)
  {
    hide Sane, AllTallied, Machines, Written, IsGroupBy, Split, ModelGroup, KeyGroup, GroupKey, Describes, AllNulFree;
    var tallies := TallyReports(locale, rows);
    ghost var ms := Machines(locale, rows);
    MachinesAreNulFree(locale, rows);
    models := [];
    var todo := tallies.Keys;
    NothingWritten(locale, ms);
    assert tallies.Keys - todo == {};
    while todo != {}
      invariant todo <= tallies.Keys && Written(locale, models, ms, tallies.Keys - todo)
      decreases |todo|
    {
      hide Distinct;
      var key :| key in todo;
      var tally := tallies[key];
      TallyAt(locale, tallies, ms, key);
      hide Tallied;
      var best := BestSpelling(locale, tally.spellings);
      RowDescribes(locale, tally, ms, KeyGroup(key), best);
      var parts := Split(best);
      var row := RowOf(tally, parts[0], parts[1]);
      WriteOne(locale, models, ms, tallies.Keys - todo, row, key);
      assert tallies.Keys - (todo - {key}) == tallies.Keys - todo + {key};
      models := models + [row];
      todo := todo - {key};
    }
    assert tallies.Keys - todo == tallies.Keys;
    AllWritten(locale, tallies, models, ms);
    PairsAreDistinct(locale, models, ms);
    GroupByListsRows(locale, models, rows);
    hide ListsRows;
    count := |models|;
  }

  lemma NothingWritten(locale: Locale, ms: seq<Machine>)
    ensures Written(locale, [], ms, {})
  {
  }

  lemma TallyAt(locale: Locale, tallies: map<string, Tally>, ms: seq<Machine>, key: string)
    requires AllTallied(locale, tallies, ms) && key in tallies
    ensures Tallied(locale, tallies[key], ms, KeyGroup(key)) && Started(tallies[key]) && GroupKey(KeyGroup(key)) == key
  {
  }

  lemma PairsAreDistinct(locale: Locale, models: seq<Model>, ms: seq<Machine>)
    requires IsGroupBy(locale, models, ms)
    ensures forall i, j :: 0 <= i < j < |models| ==> (models[i].vendor, models[i].model) != (models[j].vendor, models[j].model)
  {
    forall i, j | 0 <= i < j < |models|
      ensures (models[i].vendor, models[i].model) != (models[j].vendor, models[j].model)
    {
      NamesAreDistinct(locale, models, i, j);
    }
  }
}
