/** What recorded payments add up to: every paid payment is worth one period, and an
    organization's plan is the fold of its payments, when nothing stops and nothing overlaps. */
module PaymentTotals {
  import opened Wrappers
  import opened Billing
  import opened Payments
  import Renewals

  // ------------------------------------------------------------ one period per payment

  /** Payments are made for organizations that exist. */
  predicate ForTenants(tenants: set<Id>, steps: seq<Step>) {
    forall i :: 0 <= i < |steps| && steps[i].DoCreate? ==> steps[i].tenant in tenants
  }

  predicate Housed(s: State, tenants: set<Id>) {
    && tenants <= s.tenants.Keys
    && (forall id :: id in s.payments ==> s.payments[id].tenant in tenants)
    && (forall c :: c in s.calls && (s.calls[c].Found? || s.calls[c].Claimed?) ==> s.calls[c].payment.tenant in tenants)
  }

  /** The step stops a call that has claimed its payment and not yet written the plan. */
  predicate StopsBeforeWrite(s: State, step: Step) {
    step.Crash? && step.c in s.calls && (s.calls[step.c].Claimed? || s.calls[step.c].HasTenant?)
  }

  function StoppedBy(s: State, step: Step): set<Id> {
    if StopsBeforeWrite(s, step) then {s.calls[step.c].id} else {}
  }

  /** The payments whose claimant was stopped so during a run. */
  function Forfeited(s: State, steps: seq<Step>): set<Id> {
    if steps == [] then {}
    else
      var init := steps[..|steps| - 1];
      Forfeited(s, init) + StoppedBy(Run(s, init), steps[|steps| - 1])
  }

  /** The call that claimed a payment is still at it or has recorded it; or it is gone, before the plan was
      written exactly when the payment is forfeited. */
  predicate Accounted(s: State, forfeited: set<Id>) {
    forall id :: id in s.claims ==>
      && (s.claims[id] in s.calls ==>
            Won(s.calls[s.claims[id]]) && s.calls[s.claims[id]].id == id && id !in forfeited)
      && (s.claims[id] !in s.calls ==> (id in forfeited <==> !WroteFor(s, id)))
  }

  predicate OnlyClaimed(s: State, forfeited: set<Id>) { forfeited <= s.claims.Keys }

  lemma StepKeepsHoused(s: State, step: Step, tenants: set<Id>)
    requires Housed(s, tenants) && (step.DoCreate? ==> step.tenant in tenants)
    ensures Housed(Apply(s, step), tenants)
  {
    hide Extending, Take;
  }

  lemma StepKeepsOnlyClaimed(s: State, step: Step, forfeited: set<Id>)
    requires Valid(s) && OnlyClaimed(s, forfeited)
    ensures OnlyClaimed(Apply(s, step), forfeited + StoppedBy(s, step))
  {
    hide Extending, Take, WroteFor, WritesOnce, WritersKnow, PaidWhenClaimed;
  }

  lemma CrashKeepsAccounted(s: State, step: Step, forfeited: set<Id>)
    requires Valid(s) && Accounted(s, forfeited) && step.Crash?
    ensures Accounted(Apply(s, step), forfeited + StoppedBy(s, step))
  {
    hide WroteFor, WritesOnce, PaidWhenClaimed;
    SameWrites(s, Apply(s, step));
  }

  lemma ClaimKeepsAccounted(s: State, step: Step, forfeited: set<Id>)
    requires Valid(s) && Accounted(s, forfeited) && OnlyClaimed(s, forfeited) && step.DoClaim?
    ensures Accounted(Apply(s, step), forfeited)
  {
    hide WroteFor, WritesOnce, Take;
    SameWrites(s, Apply(s, step));
  }

  lemma ExtendKeepsAccounted(s: State, step: Step, forfeited: set<Id>)
    requires Valid(s) && Accounted(s, forfeited) && step.DoExtend?
    ensures Accounted(Apply(s, step), forfeited)
  {
    hide WroteFor, WritesOnce, PaidWhenClaimed, Extending;
    WritesOfOthers(s, step.c);
  }

  /** A plan write is of the call's own payment. */
  lemma WritesOfOthers(s: State, c: CallId)
    ensures forall id :: !(c in s.calls && s.calls[c].HasTenant? && s.calls[c].id == id) ==>
              (WroteFor(s, id) <==> WroteFor(Extend(s, c), id))
  {
    hide Extending;
    var s' := Extend(s, c);
    forall id | !(c in s.calls && s.calls[c].HasTenant? && s.calls[c].id == id) && WroteFor(s, id)
      ensures WroteFor(s', id)
    {
      var i :| 0 <= i < |s.writes| && s.writes[i].id == id;
      assert s'.writes[i].id == id;
    }
  }

  lemma OtherStepKeepsAccounted(s: State, step: Step, forfeited: set<Id>, tenants: set<Id>)
    requires Valid(s) && Accounted(s, forfeited) && Housed(s, tenants)
    requires !step.Crash? && !step.DoClaim? && !step.DoExtend?
    ensures Accounted(Apply(s, step), forfeited)
  {
    hide WroteFor, WritesOnce, WritersKnow, PaidWhenClaimed;
    SameWrites(s, Apply(s, step));
  }

  lemma StepKeepsAccounted(s: State, step: Step, forfeited: set<Id>, tenants: set<Id>)
    requires Valid(s) && Accounted(s, forfeited) && OnlyClaimed(s, forfeited) && Housed(s, tenants)
    ensures Accounted(Apply(s, step), forfeited + StoppedBy(s, step))
  {
    hide Valid, Accounted, OnlyClaimed, Housed, Apply;
    if step.Crash? {
      CrashKeepsAccounted(s, step, forfeited);
    } else {
      assert forfeited + StoppedBy(s, step) == forfeited;
      if step.DoClaim? {
        ClaimKeepsAccounted(s, step, forfeited);
      } else if step.DoExtend? {
        ExtendKeepsAccounted(s, step, forfeited);
      } else {
        OtherStepKeepsAccounted(s, step, forfeited, tenants);
      }
    }
  }

  lemma StartIsAccounted(tenants: map<Id, Tenant>)
    ensures var s := Start(tenants); Valid(s) && Accounted(s, {}) && OnlyClaimed(s, {}) && Housed(s, tenants.Keys)
  {
  }

  lemma {:induction false} RunIsAccounted(tenants: map<Id, Tenant>, steps: seq<Step>)
    requires ForTenants(tenants.Keys, steps)
    ensures var s, forfeited := Run(Start(tenants), steps), Forfeited(Start(tenants), steps);
            Valid(s) && Accounted(s, forfeited) && OnlyClaimed(s, forfeited) && Housed(s, tenants.Keys)
    decreases |steps|
  {
    hide Valid, Accounted, OnlyClaimed, Housed, Apply, Start, StoppedBy;
    StartIsAccounted(tenants);
    if steps != [] {
      var init, step := steps[..|steps| - 1], steps[|steps| - 1];
      RunIsAccounted(tenants, init);
      var before, forfeited := Run(Start(tenants), init), Forfeited(Start(tenants), init);
      StepKeepsValid(before, step);
      StepKeepsHoused(before, step, tenants.Keys);
      StepKeepsOnlyClaimed(before, step, forfeited);
      StepKeepsAccounted(before, step, forfeited, tenants.Keys);
    }
  }

  predicate AtRest(s: State) {
    forall c :: c in s.calls ==> s.calls[c].Recorded? || s.calls[c].Ended? || s.calls[c].Linking?
  }

  /** In every run, stops anywhere, once no call is under way: a payment wrote its plan, and so was worth
      its period, if and only if it is paid and its claimant was not stopped between the claim and the write. */
  lemma EveryPaidPaymentWroteOnce(tenants: map<Id, Tenant>, steps: seq<Step>, id: Id)
    requires ForTenants(tenants.Keys, steps) && AtRest(Run(Start(tenants), steps))
    ensures var s := Run(Start(tenants), steps);
            WroteFor(s, id) <==> id in s.payments && s.payments[id].status.Paid? && id !in Forfeited(Start(tenants), steps)
  {
    RunIsAccounted(tenants, steps);
    hide Apply, Run, Forfeited, Housed, Tracked;
    var s := Run(Start(tenants), steps);
    if id in s.claims && s.claims[id] in s.calls {
      assert Wrote(s.calls[s.claims[id]]);
    }
  }

  // ------------------------------------------------------------ the fold of the payments

  /** An organization's plan after these plan writes, one after the other. */
  function Fold(tenant: Tenant, writes: seq<PlanWrite>, t: Id): Tenant {
    if writes == [] then tenant
    else
      var before := Fold(tenant, writes[..|writes| - 1], t);
      var w := writes[|writes| - 1];
      if w.tenant == t then Extending(before, w.period, w.extraWorkstations, w.now) else before
  }

  /** Each write of the fold: nothing for another organization, one recorded payment for this one. */
  lemma FoldStep(tenant: Tenant, writes: seq<PlanWrite>, w: PlanWrite, t: Id)
    ensures var before, after := Fold(tenant, writes, t), Fold(tenant, writes + [w], t);
            if w.tenant == t then Subscribed(before, after, w.period, w.extraWorkstations, w.now) else after == before
  {
    hide Extending, Subscribed;
    assert (writes + [w])[..|writes|] == writes;
    ExtendingSubscribes(Fold(tenant, writes, t), w.period, w.extraWorkstations, w.now);
  }

  predicate Reads(s: State, c: CallId, t: Id) {
    c in s.calls && s.calls[c].HasTenant? && s.calls[c].payment.tenant == t
  }

  /** A step that neither reads the organization while another call has it read nor
      writes its plan from elsewhere. */
  ghost predicate NoOverlap(s: State, step: Step, t: Id) {
    && (step.SetTenant? ==> step.t != t)
    && (step.DoReadTenant? && step.c in s.calls && s.calls[step.c].Claimed? && s.calls[step.c].payment.tenant == t ==>
          forall c :: !Reads(s, c, t))
  }

  ghost predicate NoOverlaps(s: State, steps: seq<Step>, t: Id) {
    steps != [] ==>
      && NoOverlaps(s, steps[..|steps| - 1], t)
      && NoOverlap(Run(s, steps[..|steps| - 1]), steps[|steps| - 1], t)
  }

  /** At most one call has read the organization, and what it read still stands. */
  ghost predicate FreshReads(s: State, t: Id) {
    && t in s.tenants
    && (forall c :: Reads(s, c, t) ==> s.calls[c].tenant == s.tenants[t])
    && (forall c, c' :: Reads(s, c, t) && Reads(s, c', t) ==> c == c')
  }

  lemma StepKeepsFreshReads(s: State, step: Step, t: Id)
    requires FreshReads(s, t) && NoOverlap(s, step, t)
    ensures FreshReads(Apply(s, step), t)
    ensures Follows(s, Apply(s, step), t)
  {
    hide Extending, Take, Fold;
    if step.DoExtend? {
      ExtendFollows(s, step.c, t);
    } else {
      var s' := Apply(s, step);
      assert s'.writes == s.writes;
      assert forall c :: Reads(s', c, t) ==> Reads(s, c, t) || (step.DoReadTenant? && c == step.c);
    }
  }

  /** Either the plan and the writes stand, or one write has been added and applied. */
  ghost predicate Follows(s: State, s': State, t: Id)
    requires t in s.tenants
  {
    && t in s'.tenants
    && (|| (s'.writes == s.writes && s'.tenants[t] == s.tenants[t])
        || (|s'.writes| == |s.writes| + 1 && s.writes <= s'.writes
            && s'.tenants[t] == Fold(s.tenants[t], [s'.writes[|s.writes|]], t)))
  }

  lemma ExtendFollows(s: State, c: CallId, t: Id)
    requires FreshReads(s, t)
    ensures FreshReads(Extend(s, c), t) && Follows(s, Extend(s, c), t)
  {
    hide Extending;
    var s' := Extend(s, c);
    assert forall c' :: Reads(s', c', t) ==> Reads(s, c', t) && c' != c;
    if s' != s {
      var w := s'.writes[|s.writes|];
      assert Fold(s.tenants[t], [w][..0], t) == s.tenants[t];
      if w.tenant == t {
        assert Reads(s, c, t);
      }
    }
  }

  /** When no two recordings of one organization overlap, its plan is the fold of its
      payments in the order they were recorded: each extends a subscription still in force
      from its end, and anything else from the moment of payment. */
  lemma {:induction false} PlanIsFold(s: State, steps: seq<Step>, t: Id)
    requires FreshReads(s, t) && NoOverlaps(s, steps, t)
    ensures var s' := Run(s, steps);
            && FreshReads(s', t)
            && s.writes <= s'.writes
            && s'.tenants[t] == Fold(s.tenants[t], s'.writes[|s.writes|..], t)
    decreases |steps|
  {
    hide Apply, FreshReads, Extending, NoOverlap;
    StandsStill(s, t);
    if steps != [] {
      var before := Run(s, steps[..|steps| - 1]);
      PlanIsFold(s, steps[..|steps| - 1], t);
      StandsStill(before, t);
      StepKeepsFreshReads(before, steps[|steps| - 1], t);
      var s' := Run(s, steps);
      if s'.writes != before.writes {
        var n, m := |s.writes|, |before.writes|;
        assert s'.writes[n..][..m - n] == before.writes[n..];
        assert [s'.writes[m]][..0] == [];
      }
    }
  }

  lemma StandsStill(s: State, t: Id)
    requires FreshReads(s, t)
    ensures t in s.tenants && Fold(s.tenants[t], s.writes[|s.writes|..], t) == s.tenants[t]
  {
  }

  /** The time a payment is made is before the end that the payments before it reached. */
  predicate PaidInTime(start: int, writes: seq<PlanWrite>, period: Period, i: nat)
    requires i < |writes|
  {
    var end := Renewals.Renew(start, Months(period), i);
    end.Some? && writes[i].now < end.value
  }

  /** Payments of one kind, each made while the subscription then paid for is in force, renew it back to back. */
  lemma {:induction false} PaidAheadRenews(tenant: Tenant, writes: seq<PlanWrite>, t: Id, period: Period)
    requires tenant.plan == Subscriber && tenant.expires.Some? && TimeClip(tenant.expires.value).Some?
    requires forall i :: 0 <= i < |writes| ==>
               writes[i].tenant == t && writes[i].period == period && PaidInTime(tenant.expires.value, writes, period, i)
    ensures var after := Fold(tenant, writes, t);
            after.plan == Subscriber && after.expires == Renewals.Renew(tenant.expires.value, Months(period), |writes|)
    decreases |writes|
  {
    hide End;
    if writes != [] {
      var n := |writes| - 1;
      forall i | 0 <= i < n
        ensures PaidInTime(tenant.expires.value, writes[..n], period, i)
      {
        assert PaidInTime(tenant.expires.value, writes, period, i);
      }
      PaidAheadRenews(tenant, writes[..n], t, period);
      assert PaidInTime(tenant.expires.value, writes, period, n);
    }
  }

  lemma EndIsLater(from: int, n: int)
    requires n >= 1
    ensures End(from, n).Some? ==> End(from, n).value > from
  {
    hide Calendar.MonthStart, Calendar.MonthLength, Calendar.MonthOf, EndMonth;
    var m := EndMonth(from, n);
    EndsLater(from, n, Min(Calendar.DateOf(from), Calendar.MonthLength(m)));
  }

  // ------------------------------------------------------------ and when they overlap

  /** The plan write a claimed payment will make. */
  function WriteOf(s: State, c: CallId): PlanWrite
    requires c in s.calls && s.calls[c].Claimed?
  {
    var call := s.calls[c];
    PlanWrite(call.id, call.payment.tenant, call.payment.period, call.payment.extraWorkstations, call.now)
  }

  /** Two recordings of one organization that both read its plan before either writes it:
      the plan is as if the first had never been paid. */
  lemma OverlapKeepsOnlyTheLast(s: State, c: CallId, c': CallId)
    requires c != c' && c in s.calls && c' in s.calls && s.calls[c].Claimed? && s.calls[c'].Claimed?
    requires s.calls[c].payment.tenant == s.calls[c'].payment.tenant && s.calls[c].payment.tenant in s.tenants
    ensures var t, p, call := s.calls[c].payment.tenant, s.calls[c'].payment, s.calls[c'];
            var s' := Run(s, [DoReadTenant(c), DoReadTenant(c'), DoExtend(c), DoExtend(c')]);
            && s'.writes == s.writes + [WriteOf(s, c), WriteOf(s, c')]
            && t in s'.tenants && s'.tenants[t] == Extending(s.tenants[t], p.period, p.extraWorkstations, call.now)
  {
    hide Extending;
    var steps := [DoReadTenant(c), DoReadTenant(c'), DoExtend(c), DoExtend(c')];
    assert steps[..3] == [DoReadTenant(c), DoReadTenant(c'), DoExtend(c)];
    assert steps[..3][..2] == [DoReadTenant(c), DoReadTenant(c')];
    assert steps[..3][..2][..1] == [DoReadTenant(c)];
    assert steps[..3][..2][..1][..0] == [];
    var s1 := ReadTenant(s, c);
    assert Run(s, steps[..3][..2][..1]) == s1;
    var s2 := ReadTenant(s1, c');
    assert Run(s, steps[..3][..2]) == s2;
    var s3 := Extend(s2, c);
    assert Run(s, steps[..3]) == s3;
  }

  /** Whether a period from one start ends before one from another, told from the starts. */
  predicate EndsBefore(a: int, b: int, n: int) {
    || EndMonth(a, n) < EndMonth(b, n)
    || (EndMonth(a, n) == EndMonth(b, n)
        && (|| Renewals.CutDate(a, n) < Renewals.CutDate(b, n)
            || (Renewals.CutDate(a, n) == Renewals.CutDate(b, n) && Calendar.TimeOfDay(a) < Calendar.TimeOfDay(b))))
  }

  /** Where the second of two payments in turn starts: at the end of the first, unless that has passed. */
  lemma SecondStart(tenant: Tenant, first: Period, extra: nat, now: int, now': int)
    requires Extending(tenant, first, extra, now).expires.Some?
    ensures var after := Extending(tenant, first, extra, now);
            && after.expires.value > PeriodStart(tenant, now)
            && PeriodStart(after, now') == (if after.expires.value > now' then after.expires.value else now')
            && (after.expires.value <= now' ==> PeriodStart(tenant, now') == now')
            && (after.expires.value > now' ==> PeriodStart(tenant, now') < after.expires.value)
  {
    hide End;
    EndIsLater(PeriodStart(tenant, now), Months(first));
  }

  /** Both calls have claimed a payment of one organization. */
  predicate BothClaimed(s: State, c: CallId, c': CallId) {
    && c != c' && c in s.calls && c' in s.calls && s.calls[c].Claimed? && s.calls[c'].Claimed?
    && s.calls[c].payment.tenant == s.calls[c'].payment.tenant && s.calls[c].payment.tenant in s.tenants
  }

  function PlanOf(s: State, t: Id): Option<Tenant> { if t in s.tenants then Some(s.tenants[t]) else None }

  /** What the overlap costs.  It leaves the plan of the second payment alone, where in turn the plan would be
      the fold of both.  When the first payment's period is over by the second's time the two agree; otherwise
      the overlap ends strictly earlier exactly when the old start and the end of the first period say so. */
  lemma OverlapLosesAPeriod(s: State, c: CallId, c': CallId)
    requires BothClaimed(s, c, c')
    requires EndKnown(s.tenants[s.calls[c].payment.tenant], WriteOf(s, c), WriteOf(s, c'))
    ensures var t, w, w' := s.calls[c].payment.tenant, WriteOf(s, c), WriteOf(s, c');
            var s' := Run(s, [DoReadTenant(c), DoReadTenant(c'), DoExtend(c), DoExtend(c')]);
            && s'.writes == s.writes + [w, w'] && PlanOf(s', t) == Some(Fold(s.tenants[t], [w'], t))
            && LosesExactly(s.tenants[t], w, w')
  {
    hide Run, Extending, EndsBefore, Apply, LosesExactly, EndKnown;
    OverlapKeepsOnlyTheLast(s, c, c');
    var t, w, w' := s.calls[c].payment.tenant, WriteOf(s, c), WriteOf(s, c');
    FoldOfFew(s.tenants[t], w, w', t);
    InTurnOrNot(s.tenants[t], w, w');
  }

  /** None of the periods runs past the last Date. */
  predicate EndKnown(tenant: Tenant, w: PlanWrite, w': PlanWrite) {
    && Fold(tenant, [w], w.tenant).expires.Some? && Fold(tenant, [w'], w.tenant).expires.Some?
    && Fold(tenant, [w, w'], w.tenant).expires.Some?
  }

  /** The second payment alone against both in turn. */
  predicate LosesExactly(tenant: Tenant, w: PlanWrite, w': PlanWrite)
    requires EndKnown(tenant, w, w')
  {
    var alone, both := Fold(tenant, [w'], w.tenant), Fold(tenant, [w, w'], w.tenant);
    var mid := Fold(tenant, [w], w.tenant).expires.value;
    && (mid <= w'.now ==> alone == both)
    && (w'.now < mid ==>
          (alone.expires.value < both.expires.value <==> EndsBefore(PeriodStart(tenant, w'.now), mid, Months(w'.period))))
  }

  lemma FoldOfFew(tenant: Tenant, w: PlanWrite, w': PlanWrite, t: Id)
    requires w.tenant == t && w'.tenant == t
    ensures Fold(tenant, [w], t) == Extending(tenant, w.period, w.extraWorkstations, w.now)
    ensures Fold(tenant, [w'], t) == Extending(tenant, w'.period, w'.extraWorkstations, w'.now)
    ensures Fold(tenant, [w, w'], t) == Extending(Fold(tenant, [w], t), w'.period, w'.extraWorkstations, w'.now)
  {
    hide Extending;
    assert [w, w'][..1] == [w] && [w][..0] == [] && [w'][..0] == [];
    assert Fold(tenant, [], t) == tenant;
  }

  lemma InTurnOrNot(tenant: Tenant, w: PlanWrite, w': PlanWrite)
    requires w.tenant == w'.tenant && EndKnown(tenant, w, w')
    ensures LosesExactly(tenant, w, w')
  {
    hide End, EndMonth, Renewals.CutDate, Fold;
    FoldOfFew(tenant, w, w', w.tenant);
    SecondStart(tenant, w.period, w.extraWorkstations, w.now, w'.now);
    var mid := Fold(tenant, [w], w.tenant).expires.value;
    if w'.now < mid {
      Renewals.EndsInOrder(PeriodStart(tenant, w'.now), mid, Months(w'.period));
    }
  }

  /** In particular when the second payment would have started no later than the first, as when both are made
      at once or while a subscription is in force. */
  lemma PaymentsMadeTogetherLoseOne(tenant: Tenant, first: Period, extra: nat, now: int, now': int, n: int)
    requires Calendar.YearOf(PeriodStart(tenant, now')) >= 100 && PeriodStart(tenant, now') <= PeriodStart(tenant, now)
    requires Extending(tenant, first, extra, now).expires.Some?
    ensures EndsBefore(PeriodStart(tenant, now'), Extending(tenant, first, extra, now).expires.value, n)
  {
    hide Calendar.MonthStart, Calendar.MonthLength, Calendar.MonthOf, PeriodStart;
    var start, start' := PeriodStart(tenant, now), PeriodStart(tenant, now');
    EndIsLater(start, Months(first));
    var mid := End(start, Months(first)).value;
    MonthsInOrder(start', start);
    Renewals.EndMonthOf(start, Months(first));
    Renewals.EndMonthOf(start', n);
    Renewals.EndMonthOf(mid, n);
  }

  lemma MonthsInOrder(a: int, b: int)
    requires a <= b
    ensures Calendar.MonthOfTime(a) <= Calendar.MonthOfTime(b)
  {
    hide Calendar.MonthStart, Calendar.MonthLength, Calendar.MonthOf;
    Calendar.ReadsBackAt(a);
    Calendar.ReadsBackAt(b);
    Calendar.AtIsMonotone(Calendar.MonthOfTime(a), Calendar.DateOf(a), Calendar.TimeOfDay(a),
                          Calendar.MonthOfTime(b), Calendar.DateOf(b), Calendar.TimeOfDay(b));
  }
}
