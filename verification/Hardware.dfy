/** The hardware compatibility list of src/hardware.ts: every workstation's report folded in one pass into
    one row per maker and model, grouped without regard to case. */
module Hardware {
  import opened Wrappers
  import opened JsCharacters
  import opened FirmwareText

  const MAX_VENDOR := 80
  const MAX_MODEL := 80

  function Nul(): char { 0 as char }

  /** The fields of a report that the list is built from, as they were sent. */
  datatype Report = Report(vendor: Option<string>, model: Option<string>, uefi: bool, touch: bool, memoryMb: int)

  /** A workstation's row; None is a report that no longer reads. */
  datatype Row = Row(tenant: string, report: Option<Report>)

  datatype Machine = Machine(tenant: string, vendor: string, model: string, uefi: bool, touch: bool, memoryMb: int)

  /** What the platform supplies: lower case, and the order of strings used between equally frequent spellings. */
  datatype Locale = Locale(lower: string -> string, compare: (string, string) -> int)

  ghost predicate Sane(locale: Locale) {
    && (forall s :: Nul() !in s ==> Nul() !in locale.lower(s))
    && (forall a, b, c :: locale.compare(a, b) <= 0 && locale.compare(b, c) <= 0 ==> locale.compare(a, c) <= 0)
    && (forall a, b :: locale.compare(a, b) <= 0 || locale.compare(b, a) <= 0)
  }

  predicate Placeholder(name: string) {
    name in {"to be filled by o.e.m.", "to be filled by oem", "system product name", "system manufacturer", "system version",
             "default string", "not applicable", "not specified", "none", "oem", "o.e.m.", "unknown", "invalid",
             "type1productconfigid", "123456789", "x.x"}
  }

  function FirmwareName(locale: Locale, value: Option<string>, max: nat): string {
    var name := if value.Some? then Text(value.value, max) else "";
    if Placeholder(locale.lower(name)) then "" else name
  }

  lemma FirmwareNameHasNoNul(locale: Locale, value: Option<string>, max: nat)
    ensures Nul() !in FirmwareName(locale, value, max)
  {
    hide Placeholder, Text;
    if value.Some? {
      TextIsClean(value.value, max);
    }
  }

  /** The machine a row describes, if it reads and names a maker and a model. */
  function Read(locale: Locale, row: Row): Option<Machine> {
    if row.report.None? then None
    else
      var r := row.report.value;
      var vendor, model := FirmwareName(locale, r.vendor, MAX_VENDOR), FirmwareName(locale, r.model, MAX_MODEL);
      if vendor == "" || model == "" then None else Some(Machine(row.tenant, vendor, model, r.uefi, r.touch, r.memoryMb))
  }

  /** A name that says something: not missing, not blank and not a placeholder in any case of its letters. */
  predicate Names(locale: Locale, value: Option<string>) {
    value.Some? && Text(value.value, 80) != "" && !Placeholder(locale.lower(Text(value.value, 80)))
  }

  /** A row that reads and whose report names its maker and its model. */
  predicate Reads(locale: Locale, row: Row) {
    row.report.Some? && Names(locale, row.report.value.vendor) && Names(locale, row.report.value.model)
  }

  /** A row gives a machine exactly then, and the machine is what the report says. */
  lemma ReadIs(locale: Locale, row: Row)
    ensures Read(locale, row).Some? <==> Reads(locale, row)
    ensures Reads(locale, row) ==>
              var m, r := Read(locale, row).value, row.report.value;
              && m.vendor == Text(r.vendor.value, 80) && m.model == Text(r.model.value, 80) && m.tenant == row.tenant
              && m.uefi == r.uefi && m.touch == r.touch && m.memoryMb == r.memoryMb
  {
    hide Text, Placeholder;
  }

  /** A name with no control character, no doubled space and none at its ends, of at most eighty characters. */
  predicate Tidy(s: string) { s != "" && Clean(s) && SingleSpaced(s) && Trimmed(s) && |s| <= 80 }

  /** A tidy report is read to the letter. */
  lemma TidyReportsAreKept(locale: Locale, tenant: string, vendor: string, model: string, uefi: bool, touch: bool, memoryMb: int)
    requires Tidy(vendor) && Tidy(model) && !Placeholder(locale.lower(vendor)) && !Placeholder(locale.lower(model))
    ensures Read(locale, Row(tenant, Some(Report(Some(vendor), Some(model), uefi, touch, memoryMb))))
         == Some(Machine(tenant, vendor, model, uefi, touch, memoryMb))
  {
    hide Text, Placeholder, Clean, SingleSpaced, Trimmed;
    TidyNamesStay(vendor, 80);
    TidyNamesStay(model, 80);
  }

  /** The readable, named reports. */
  function Machines(locale: Locale, rows: seq<Row>): seq<Machine> {
    if rows == [] then []
    else
      var n := |rows| - 1;
      var m := Read(locale, rows[n]);
      if m.Some? then Machines(locale, rows[..n]) + [m.value] else Machines(locale, rows[..n])
  }

  // ------------------------------------------------------------ keys and spellings

  function Joined(a: string, b: string): string { a + [Nul()] + b }

  /** The maker and the model a machine is listed under: its names without regard to case. */
  datatype Group = Group(vendor: string, model: string)

  function NamesOf(locale: Locale, vendor: string, model: string): Group { Group(locale.lower(vendor), locale.lower(model)) }

  function GroupOf(locale: Locale, m: Machine): Group { NamesOf(locale, m.vendor, m.model) }

  /** The key a machine is tallied under. */
  function MachineKey(locale: Locale, m: Machine): string { Joined(locale.lower(m.vendor), locale.lower(m.model)) }

  predicate NulFree(m: Machine) { Nul() !in m.vendor && Nul() !in m.model }

  function Spelling(m: Machine): string { Joined(m.vendor, m.model) }

  /** split("\u0000") */
  function Split(s: string): (parts: seq<string>)
    ensures |parts| >= 1
  {
    if s == "" then [""]
    else
      var rest := Split(s[1..]);
      if s[0] == Nul() then [""] + rest else [[s[0]] + rest[0]] + rest[1..]
  }

  lemma {:induction false} SplitOfNone(b: string)
    requires Nul() !in b
    ensures Split(b) == [b]
  {
    if b != "" {
      SplitOfNone(b[1..]);
      assert b[0] in b && b == [b[0]] + b[1..];
    }
  }

  /** Splitting recovers what was joined. */
  lemma {:induction false} SplitRecovers(a: string, b: string)
    requires Nul() !in a && Nul() !in b
    ensures Split(Joined(a, b)) == [a, b]
  {
    var s := Joined(a, b);
    if a == "" {
      assert s[1..] == b;
      SplitOfNone(b);
    } else {
      assert s[1..] == Joined(a[1..], b);
      SplitRecovers(a[1..], b);
      assert a[0] in a && a == [a[0]] + a[1..];
    }
  }

  /** What a key names. */
  function KeyGroup(key: string): Group {
    if |Split(key)| == 2 then Group(Split(key)[0], Split(key)[1]) else Group("", "")
  }

  lemma KeyNamesItsGroup(locale: Locale, m: Machine)
    requires Sane(locale) && NulFree(m)
    ensures KeyGroup(MachineKey(locale, m)) == GroupOf(locale, m)
  {
    hide Split, Joined;
    SplitRecovers(locale.lower(m.vendor), locale.lower(m.model));
  }

  /** Two machines share a key exactly when their makers and their models are the same without regard to case. */
  lemma KeysAreNames(locale: Locale, a: Machine, b: Machine)
    requires Sane(locale) && NulFree(a) && NulFree(b)
    ensures MachineKey(locale, a) == MachineKey(locale, b) <==>
            locale.lower(a.vendor) == locale.lower(b.vendor) && locale.lower(a.model) == locale.lower(b.model)
  {
    KeyNamesItsGroup(locale, a);
    KeyNamesItsGroup(locale, b);
  }

  /** Two machines share a spelling exactly when they are named alike to the letter. */
  lemma SpellingsAreNames(m: Machine, vendor: string, model: string)
    requires NulFree(m) && Nul() !in vendor && Nul() !in model
    ensures Spelling(m) == Joined(vendor, model) <==> m.vendor == vendor && m.model == model
  {
    hide Split, Joined;
    SplitRecovers(m.vendor, m.model);
    SplitRecovers(vendor, model);
  }

  // ------------------------------------------------------------ the group-by it must equal

  datatype Feature = Any | Uefi | Touch | Spelled(vendor: string, model: string)

  predicate Has(locale: Locale, m: Machine, g: Group, feature: Feature) {
    && GroupOf(locale, m) == g
    && (feature.Uefi? ==> m.uefi) && (feature.Touch? ==> m.touch) && (feature.Spelled? ==> m.vendor == feature.vendor && m.model == feature.model)
  }

  function Count(locale: Locale, ms: seq<Machine>, g: Group, feature: Feature): nat {
    if ms == [] then 0
    else Count(locale, ms[..|ms| - 1], g, feature) + (if Has(locale, ms[|ms| - 1], g, feature) then 1 else 0)
  }

  function Organizations(locale: Locale, ms: seq<Machine>, g: Group): set<string> {
    set m | m in ms && GroupOf(locale, m) == g :: m.tenant
  }

  ghost predicate IsMinimum(locale: Locale, ms: seq<Machine>, g: Group, memory: int) {
    && (forall m :: m in ms && GroupOf(locale, m) == g ==> memory <= m.memoryMb)
    && (exists m :: m in ms && GroupOf(locale, m) == g && memory == m.memoryMb)
  }

  lemma CountOfOne(locale: Locale, ms: seq<Machine>, m: Machine, g: Group, feature: Feature)
    ensures Count(locale, ms + [m], g, feature) == Count(locale, ms, g, feature) + (if Has(locale, m, g, feature) then 1 else 0)
  {
  }

  // ------------------------------------------------------------ one tally

  datatype Tally = Tally(spellings: map<string, nat>, tenants: set<string>, workstations: nat, uefi: nat, touch: nat, minMemoryMb: Option<int>)

  function Empty(): Tally { Tally(map[], {}, 0, 0, 0, None) }

  function Add(t: Tally, m: Machine): Tally {
    var s := Spelling(m);
    Tally(t.spellings[s := (if s in t.spellings then t.spellings[s] else 0) + 1], t.tenants + {m.tenant}, t.workstations + 1,
          t.uefi + (if m.uefi then 1 else 0), t.touch + (if m.touch then 1 else 0),
          Some(if t.minMemoryMb.None? then m.memoryMb
               else if m.memoryMb < t.minMemoryMb.value then m.memoryMb else t.minMemoryMb.value))
  }

  ghost predicate CountsRight(locale: Locale, t: Tally, ms: seq<Machine>, g: Group) {
    && t.workstations == Count(locale, ms, g, Any) && t.uefi == Count(locale, ms, g, Uefi) && t.touch == Count(locale, ms, g, Touch)
  }

  ghost predicate SpellingsRight(locale: Locale, t: Tally, ms: seq<Machine>, g: Group) {
    forall v, m | Nul() !in v && Nul() !in m ::
      Count(locale, ms, g, Spelled(v, m)) == if Joined(v, m) in t.spellings then t.spellings[Joined(v, m)] else 0
  }

  ghost predicate MembersRight(locale: Locale, t: Tally, ms: seq<Machine>, g: Group) {
    && t.tenants == Organizations(locale, ms, g)
    && (t.minMemoryMb.Some? ==> IsMinimum(locale, ms, g, t.minMemoryMb.value))
    && (t.minMemoryMb.None? ==> forall m :: m in ms ==> GroupOf(locale, m) != g)
  }

  /** A spelling that was tallied is that of a machine of the group. */
  ghost predicate SpellingsSeen(locale: Locale, t: Tally, ms: seq<Machine>, g: Group) {
    forall s :: s in t.spellings ==> t.spellings[s] > 0 && exists m :: m in ms && GroupOf(locale, m) == g && Spelling(m) == s
  }

  ghost predicate Tallied(locale: Locale, t: Tally, ms: seq<Machine>, g: Group) {
    CountsRight(locale, t, ms, g) && SpellingsRight(locale, t, ms, g) && MembersRight(locale, t, ms, g) && SpellingsSeen(locale, t, ms, g)
  }

  lemma EmptyIsTallied(locale: Locale, ms: seq<Machine>, g: Group)
    requires forall m :: m in ms ==> GroupOf(locale, m) != g
    ensures Tallied(locale, Empty(), ms, g)
  {
    forall feature
      ensures Count(locale, ms, g, feature) == 0
    {
      NoneCounted(locale, ms, g, feature);
    }
  }

  lemma {:induction false} NoneCounted(locale: Locale, ms: seq<Machine>, g: Group, feature: Feature)
    requires forall m :: m in ms ==> GroupOf(locale, m) != g
    ensures Count(locale, ms, g, feature) == 0
  {
    hide GroupOf;
    if ms != [] {
      assert ms[|ms| - 1] in ms;
      NoneCounted(locale, ms[..|ms| - 1], g, feature);
    }
  }

  /** Adding a machine to its group's tally counts the group with it. */
  lemma AddCounts(locale: Locale, t: Tally, ms: seq<Machine>, m: Machine)
    requires NulFree(m) && CountsRight(locale, t, ms, GroupOf(locale, m)) && SpellingsRight(locale, t, ms, GroupOf(locale, m))
    ensures CountsRight(locale, Add(t, m), ms + [m], GroupOf(locale, m)) && SpellingsRight(locale, Add(t, m), ms + [m], GroupOf(locale, m))
  {
    hide Spelling, GroupOf, Count, NulFree, Joined, Nul;
    var g := GroupOf(locale, m);
    CountOfOne(locale, ms, m, g, Any);
    CountOfOne(locale, ms, m, g, Uefi);
    CountOfOne(locale, ms, m, g, Touch);
    forall v, k | Nul() !in v && Nul() !in k
      ensures Count(locale, ms + [m], g, Spelled(v, k))
           == if Joined(v, k) in Add(t, m).spellings then Add(t, m).spellings[Joined(v, k)] else 0
    {
      CountOfOne(locale, ms, m, g, Spelled(v, k));
      SpellingsAreNames(m, v, k);
      assert Count(locale, ms, g, Spelled(v, k)) == if Joined(v, k) in t.spellings then t.spellings[Joined(v, k)] else 0;
    }
  }

  lemma AddMembers(locale: Locale, t: Tally, ms: seq<Machine>, m: Machine)
    requires MembersRight(locale, t, ms, GroupOf(locale, m)) && SpellingsSeen(locale, t, ms, GroupOf(locale, m))
    ensures MembersRight(locale, Add(t, m), ms + [m], GroupOf(locale, m)) && SpellingsSeen(locale, Add(t, m), ms + [m], GroupOf(locale, m))
  {
    hide Spelling, GroupOf;
    var g, after := GroupOf(locale, m), ms + [m];
    assert forall x :: x in after <==> x in ms || x == m;
  }

  /** A machine of another group changes nothing. */
  lemma OthersStay(locale: Locale, t: Tally, ms: seq<Machine>, m: Machine, g: Group)
    requires Tallied(locale, t, ms, g) && GroupOf(locale, m) != g
    ensures Tallied(locale, t, ms + [m], g)
  {
    hide Spelling, GroupOf, Count;
    var after := ms + [m];
    assert forall x :: x in after <==> x in ms || x == m;
    forall feature
      ensures Count(locale, after, g, feature) == Count(locale, ms, g, feature)
    {
      CountOfOne(locale, ms, m, g, feature);
    }
  }
}
