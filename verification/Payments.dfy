/** The payment recorder of src/billing.ts, `createPaymentLink` and `recordPayment`, as a state
    machine: every database statement is one atomic step, calls interleave at each of
    them, and a call may stop at any point. */
module Payments {
  import opened Wrappers
  import opened Billing

  type Id = string
  type CallId = nat

  datatype Status = Created | Paid(paymentId: Id, at: int)

  datatype Payment = Payment(
    tenant: Id, link: Option<Id>, period: Period, extraWorkstations: nat, status: Status, endsAt: Option<int>)

  datatype Plan = NoPlan | Evaluation | Subscriber | Education | Commercial

  datatype Tenant = Tenant(plan: Plan, expires: Option<int>, limit: int)

  const INCLUDED_WORKSTATIONS := 45

  /** Where a call stands: what it has read and which statement comes next. */
  datatype Call =
    | Linking(id: Id)
    | Found(id: Id, payment: Payment, paymentId: Id, now: int)
    | Claimed(id: Id, payment: Payment, now: int)
    | HasTenant(id: Id, payment: Payment, now: int, tenant: Tenant)
    | Extended(id: Id, ends: Option<int>)
    | Stored(id: Id)
    | Recorded(id: Id, result: Payment)
    | Ended

  /** One write of a plan: which payment caused it, and when. */
  datatype PlanWrite = PlanWrite(id: Id, tenant: Id, period: Period, extraWorkstations: nat, now: int)

  /** The two tables and the calls under way; `issued`, `started`, `claims` and `writes`
      remember what has happened. */
  datatype State = State(
    payments: map<Id, Payment>, tenants: map<Id, Tenant>, calls: map<CallId, Call>,
    issued: set<Id>, started: set<CallId>, claims: map<Id, CallId>, writes: seq<PlanWrite>)

  datatype Step =
    | DoCreate(c: CallId, id: Id, tenant: Id, period: Period, extraWorkstations: nat)
    | DoLinkRefused(c: CallId)
    | DoLinkMade(c: CallId, link: Id)
    | DoFind(c: CallId, id: Id, link: Id, paymentId: Id, now: int)
    | DoClaim(c: CallId)
    | DoReadTenant(c: CallId)
    | DoExtend(c: CallId)
    | DoStoreEnd(c: CallId)
    | DoReturn(c: CallId)
    | Crash(c: CallId)
    | SetTenant(t: Id, row: Tenant)

  /** Where a new period starts: at the end of a subscription in force, otherwise now. */
  function PeriodStart(tenant: Tenant, now: int): int {
    if tenant.plan == Subscriber && tenant.expires.Some? && tenant.expires.value > now
    then tenant.expires.value else now
  }

  /** The plan after a payment is recorded. */
  function Extending(tenant: Tenant, period: Period, extraWorkstations: nat, now: int): Tenant {
    Tenant(Subscriber, End(PeriodStart(tenant, now), Months(period)), INCLUDED_WORKSTATIONS + extraWorkstations)
  }

  /** What a recorded payment makes of an organization's plan: a subscriber of 45 workstations and those paid for,
      one period on from the end of a subscription in force, and from now in every other case, whatever the row held. */
  predicate Subscribed(before: Tenant, after: Tenant, period: Period, extraWorkstations: nat, now: int) {
    && after.plan == Subscriber && after.limit == 45 + extraWorkstations
    && (before.plan != Subscriber || before.expires.None? || before.expires.value <= now ==> IsPeriod(now, period, after.expires))
    && (before.plan == Subscriber && before.expires.Some? && before.expires.value > now ==>
          IsPeriod(before.expires.value, period, after.expires))
  }

  lemma ExtendingSubscribes(tenant: Tenant, period: Period, extraWorkstations: nat, now: int)
    ensures Subscribed(tenant, Extending(tenant, period, extraWorkstations, now), period, extraWorkstations, now)
  {
    hide End, IsPeriod, Months;
    PeriodIs(PeriodStart(tenant, now), period);
  }

  function Take(s: string, n: nat): string { if |s| <= n then s else s[..n] }

  // ------------------------------------------------------------ createPaymentLink

  /** INSERT of a payment under a fresh reference. */
  function Create(s: State, c: CallId, id: Id, tenant: Id, period: Period, extra: nat): State {
    if c in s.started || id in s.issued then s
    else s.(payments := s.payments[id := Payment(tenant, None, period, extra, Created, None)],
            calls := s.calls[c := Linking(id)], issued := s.issued + {id}, started := s.started + {c})
  }

  /** Razorpay gave no link: DELETE of the row while it is still 'created'. */
  function LinkRefused(s: State, c: CallId): State {
    if c in s.calls && s.calls[c].Linking? then
      var id := s.calls[c].id;
      var created := id in s.payments && s.payments[id].status == Created;
      s.(payments := if created then s.payments - {id} else s.payments, calls := s.calls[c := Ended])
    else s
  }

  /** UPDATE of the link id. */
  function LinkMade(s: State, c: CallId, link: Id): State {
    if c in s.calls && s.calls[c].Linking? then
      var id := s.calls[c].id;
      s.(payments := if id in s.payments then s.payments[id := s.payments[id].(link := Some(link))] else s.payments,
         calls := s.calls[c := Ended])
    else s
  }

  // ------------------------------------------------------------ recordPayment

  function Find(s: State, c: CallId, id: Id, link: Id, paymentId: Id, now: int): State {
    if c in s.started then s
    else
      var ours := id in s.payments && s.payments[id].link == Some(link);
      s.(calls := s.calls[c := if ours then Found(id, s.payments[id], paymentId, now) else Ended],
         started := s.started + {c})
  }

  /** UPDATE to 'paid' where the status is still 'created'. */
  function Claim(s: State, c: CallId): State {
    if c in s.calls && s.calls[c].Found? then
      var call := s.calls[c];
      if call.id in s.payments && s.payments[call.id].status == Created then
        s.(payments := s.payments[call.id := s.payments[call.id].(status := Paid(Take(call.paymentId, 64), call.now))],
           calls := s.calls[c := Claimed(call.id, call.payment, call.now)],
           claims := s.claims[call.id := c])
      else s.(calls := s.calls[c := Ended])
    else s
  }

  function ReadTenant(s: State, c: CallId): State {
    if c in s.calls && s.calls[c].Claimed? then
      var call := s.calls[c];
      s.(calls := s.calls[c := if call.payment.tenant in s.tenants
                               then HasTenant(call.id, call.payment, call.now, s.tenants[call.payment.tenant])
                               else Ended])
    else s
  }

  /** updateTenant, from the row read before. */
  function Extend(s: State, c: CallId): State {
    if c in s.calls && s.calls[c].HasTenant? then
      var call := s.calls[c];
      var p := call.payment;
      var after := Extending(call.tenant, p.period, p.extraWorkstations, call.now);
      s.(tenants := if p.tenant in s.tenants then s.tenants[p.tenant := after] else s.tenants,
         calls := s.calls[c := Extended(call.id, after.expires)],
         writes := s.writes + [PlanWrite(call.id, p.tenant, p.period, p.extraWorkstations, call.now)])
    else s
  }

  /** UPDATE of period_ends_at. */
  function StoreEnd(s: State, c: CallId): State {
    if c in s.calls && s.calls[c].Extended? then
      var call := s.calls[c];
      s.(payments := if call.id in s.payments
                     then s.payments[call.id := s.payments[call.id].(endsAt := call.ends)] else s.payments,
         calls := s.calls[c := Stored(call.id)])
    else s
  }

  function Return(s: State, c: CallId): State {
    if c in s.calls && s.calls[c].Stored? && s.calls[c].id in s.payments
    then s.(calls := s.calls[c := Recorded(s.calls[c].id, s.payments[s.calls[c].id])])
    else s
  }

  /** One step; a step that is not enabled changes nothing. */
  function Apply(s: State, step: Step): State {
    match step
    case DoCreate(c, id, tenant, period, extra) => Create(s, c, id, tenant, period, extra)
    case DoLinkRefused(c) => LinkRefused(s, c)
    case DoLinkMade(c, link) => LinkMade(s, c, link)
    case DoFind(c, id, link, paymentId, now) => Find(s, c, id, link, paymentId, now)
    case DoClaim(c) => Claim(s, c)
    case DoReadTenant(c) => ReadTenant(s, c)
    case DoExtend(c) => Extend(s, c)
    case DoStoreEnd(c) => StoreEnd(s, c)
    case DoReturn(c) => Return(s, c)
    case Crash(c) => s.(calls := s.calls - {c})
    case SetTenant(t, row) => s.(tenants := s.tenants[t := row])
  }

  function Run(s: State, steps: seq<Step>): State {
    if steps == [] then s else Apply(Run(s, steps[..|steps| - 1]), steps[|steps| - 1])
  }

  /** A payment that was created and got its link is there to be recorded under it, for the organization, period and
      workstations it was made for, and not paid yet. */
  lemma LinkedPaymentIsCreated(s: State, c: CallId, id: Id, tenant: Id, period: Period, extra: nat, link: Id)
    requires c !in s.started && id !in s.issued
    ensures LinkMade(Create(s, c, id, tenant, period, extra), c, link).payments
         == s.payments[id := Payment(tenant, Some(link), period, extra, Created, None)]
  {
  }

  /** One that Razorpay refused leaves no row. */
  lemma RefusedPaymentIsGone(s: State, c: CallId, id: Id, tenant: Id, period: Period, extra: nat)
    requires c !in s.started && id !in s.issued && id !in s.payments
    ensures LinkRefused(Create(s, c, id, tenant, period, extra), c).payments == s.payments
  {
    assert s.payments[id := Payment(tenant, None, period, extra, Created, None)] - {id} == s.payments;
  }

  // ------------------------------------------------------------ at most once

  /** A call that won the claim of its payment. */
  predicate Won(call: Call) {
    call.Claimed? || call.HasTenant? || call.Extended? || call.Stored? || call.Recorded?
  }

  /** A call that has written the plan. */
  predicate Wrote(call: Call) {
    call.Extended? || call.Stored? || call.Recorded?
  }

  predicate WroteFor(s: State, id: Id) {
    exists i :: 0 <= i < |s.writes| && s.writes[i].id == id
  }

  predicate Tracked(s: State) {
    && s.calls.Keys <= s.started
    && s.payments.Keys <= s.issued
    && (forall id :: id in s.claims ==> s.claims[id] in s.started)
  }

  /** A payment is paid exactly when some call claimed it, and then its row stays. */
  predicate PaidWhenClaimed(s: State) {
    && (forall id :: id in s.claims ==> id in s.payments && s.payments[id].status.Paid?)
    && (forall id :: id in s.payments && s.payments[id].status.Paid? ==> id in s.claims)
  }

  /** Only the call that claimed a payment goes on with it. */
  predicate ClaimantsGoOn(s: State) {
    forall c :: c in s.calls && Won(s.calls[c]) ==> s.calls[c].id in s.claims && s.claims[s.calls[c].id] == c
  }

  /** Each payment writes a plan at most once, and was claimed first. */
  predicate WritesOnce(s: State) {
    && (forall i, j :: 0 <= i < j < |s.writes| ==> s.writes[i].id != s.writes[j].id)
    && (forall i :: 0 <= i < |s.writes| ==> s.writes[i].id in s.claims)
  }

  predicate WritersKnow(s: State) {
    forall c :: c in s.calls && Won(s.calls[c]) ==> (Wrote(s.calls[c]) <==> WroteFor(s, s.calls[c].id))
  }

  /** What every reachable state keeps. */
  predicate Valid(s: State) {
    Tracked(s) && PaidWhenClaimed(s) && ClaimantsGoOn(s) && WritesOnce(s) && WritersKnow(s)
  }

  /** Only the plan write adds to the writes. */
  lemma SameWrites(s: State, s': State)
    requires s.writes == s'.writes && Valid(s)
    ensures forall id :: WroteFor(s, id) <==> WroteFor(s', id)
    ensures forall id :: WroteFor(s, id) ==> id in s.claims
  {
  }

  lemma CreateKeepsValid(s: State, c: CallId, id: Id, tenant: Id, period: Period, extra: nat)
    requires Valid(s)
    ensures Valid(Create(s, c, id, tenant, period, extra))
  {
    hide WroteFor;
    SameWrites(s, Create(s, c, id, tenant, period, extra));
  }

  lemma LinkRefusedKeepsValid(s: State, c: CallId)
    requires Valid(s)
    ensures Valid(LinkRefused(s, c))
  {
  }

  lemma LinkMadeKeepsValid(s: State, c: CallId, link: Id)
    requires Valid(s)
    ensures Valid(LinkMade(s, c, link))
  {
  }

  lemma FindKeepsValid(s: State, c: CallId, id: Id, link: Id, paymentId: Id, now: int)
    requires Valid(s)
    ensures Valid(Find(s, c, id, link, paymentId, now))
  {
    hide WroteFor;
    SameWrites(s, Find(s, c, id, link, paymentId, now));
  }

  lemma ClaimKeepsValid(s: State, c: CallId)
    requires Valid(s)
    ensures Valid(Claim(s, c))
  {
    hide WroteFor, Tracked, PaidWhenClaimed;
    SameWrites(s, Claim(s, c));
    ClaimKeepsRows(s, c);
  }

  lemma ClaimKeepsRows(s: State, c: CallId)
    requires Valid(s)
    ensures Tracked(Claim(s, c)) && PaidWhenClaimed(Claim(s, c))
    ensures forall id :: id in s.claims ==> id in s.payments && s.payments[id].status != Created
  {
  }

  lemma ReadTenantKeepsValid(s: State, c: CallId)
    requires Valid(s)
    ensures Valid(ReadTenant(s, c))
  {
  }

  lemma StoreEndKeepsValid(s: State, c: CallId)
    requires Valid(s)
    ensures Valid(StoreEnd(s, c))
  {
  }

  lemma ReturnKeepsValid(s: State, c: CallId)
    requires Valid(s)
    ensures Valid(Return(s, c))
  {
  }

  lemma ExtendKeepsValid(s: State, c: CallId)
    requires Valid(s)
    ensures Valid(Extend(s, c))
  {
    hide Extending;
    var s' := Extend(s, c);
    if s' != s {
      var w := s'.writes[|s.writes|];
      forall id | id != w.id
        ensures WroteFor(s, id) <==> WroteFor(s', id)
      {
        if WroteFor(s, id) {
          var i :| 0 <= i < |s.writes| && s.writes[i].id == id;
          assert s'.writes[i].id == id;
        }
      }
      assert WroteFor(s', w.id);
    }
  }

  lemma StepKeepsValid(s: State, step: Step)
    requires Valid(s)
    ensures Valid(Apply(s, step))
  {
    hide WroteFor;
    match step
    case DoCreate(c, id, tenant, period, extra) => CreateKeepsValid(s, c, id, tenant, period, extra);
    case DoLinkRefused(c) => LinkRefusedKeepsValid(s, c);
    case DoLinkMade(c, link) => LinkMadeKeepsValid(s, c, link);
    case DoFind(c, id, link, paymentId, now) => FindKeepsValid(s, c, id, link, paymentId, now);
    case DoClaim(c) => ClaimKeepsValid(s, c);
    case DoReadTenant(c) => ReadTenantKeepsValid(s, c);
    case DoExtend(c) => ExtendKeepsValid(s, c);
    case DoStoreEnd(c) => StoreEndKeepsValid(s, c);
    case DoReturn(c) => ReturnKeepsValid(s, c);
    case Crash(_) => SameWrites(s, Apply(s, step));
    case SetTenant(_, _) => SameWrites(s, Apply(s, step));
  }

  // ------------------------------------------------------------ over whole runs

  function Start(tenants: map<Id, Tenant>): State {
    State(map[], tenants, map[], {}, {}, map[], [])
  }

  lemma {:induction false} RunKeepsValid(s: State, steps: seq<Step>)
    requires Valid(s)
    ensures Valid(Run(s, steps))
    decreases |steps|
  {
    hide Valid, Apply;
    if steps != [] {
      RunKeepsValid(s, steps[..|steps| - 1]);
      StepKeepsValid(Run(s, steps[..|steps| - 1]), steps[|steps| - 1]);
    }
  }

  /** In every interleaving a payment is claimed by one call, writes at most one plan and
      is returned by at most one caller. */
  lemma RecordedAtMostOnce(tenants: map<Id, Tenant>, steps: seq<Step>)
    ensures var s := Run(Start(tenants), steps);
            && (forall i, j :: 0 <= i < j < |s.writes| ==> s.writes[i].id != s.writes[j].id)
            && (forall i :: 0 <= i < |s.writes| ==> s.writes[i].id in s.payments && s.payments[s.writes[i].id].status.Paid?)
            && (forall c :: c in s.calls && s.calls[c].Recorded? ==>
                  s.calls[c].id in s.claims && s.claims[s.calls[c].id] == c && WroteFor(s, s.calls[c].id))
            && (forall c, c' | c in s.calls && c' in s.calls && s.calls[c].Recorded? && s.calls[c'].Recorded? ::
                  s.calls[c].id == s.calls[c'].id ==> c == c')
  {
    assert Valid(Start(tenants));
    RunKeepsValid(Start(tenants), steps);
  }

  /** A paid row is never deleted, unpaid or claimed again. */
  lemma {:induction false} PaidForGood(s: State, id: Id, steps: seq<Step>)
    requires Valid(s) && id in s.payments && s.payments[id].status.Paid?
    ensures var s' := Run(s, steps);
            && id in s'.payments && s'.payments[id].status == s.payments[id].status
            && id in s'.claims && s'.claims[id] == s.claims[id]
    decreases |steps|
  {
    if steps != [] {
      var before := Run(s, steps[..|steps| - 1]);
      PaidForGood(s, id, steps[..|steps| - 1]);
      RunKeepsValid(s, steps[..|steps| - 1]);
      StepKeepsPaid(before, id, steps[|steps| - 1]);
    }
  }

  lemma StepKeepsPaid(s: State, id: Id, step: Step)
    requires Valid(s) && id in s.payments && s.payments[id].status.Paid?
    ensures var s' := Apply(s, step);
            && id in s'.payments && s'.payments[id].status == s.payments[id].status
            && id in s'.claims && s'.claims[id] == s.claims[id]
  {
    hide WroteFor, Extending, Take, ClaimantsGoOn, WritesOnce, WritersKnow;
  }

  /** A payment whose claimant stopped before writing the plan never extends it, whatever
      calls come later: the second caller finds the row paid and stops. */
  lemma {:induction false} StoppedClaimIsForfeit(s: State, id: Id, steps: seq<Step>)
    requires Valid(s) && id in s.claims && s.claims[id] !in s.calls && !WroteFor(s, id)
    ensures var s' := Run(s, steps);
            id in s'.claims && s'.claims[id] !in s'.calls && !WroteFor(s', id)
    decreases |steps|
  {
    if steps != [] {
      var before := Run(s, steps[..|steps| - 1]);
      StoppedClaimIsForfeit(s, id, steps[..|steps| - 1]);
      RunKeepsValid(s, steps[..|steps| - 1]);
      StepKeepsForfeit(before, id, steps[|steps| - 1]);
    }
  }

  lemma StepKeepsForfeit(s: State, id: Id, step: Step)
    requires Valid(s) && id in s.claims && s.claims[id] !in s.calls && !WroteFor(s, id)
    ensures var s' := Apply(s, step);
            id in s'.claims && s'.claims[id] !in s'.calls && !WroteFor(s', id)
  {
    StepKeepsPaid(s, id, step);
    hide Extending, Take, PaidWhenClaimed, WritesOnce, WritersKnow;
    if step.DoExtend? && Apply(s, step) != s {
      assert s.calls[step.c].id != id;
    }
  }
}
