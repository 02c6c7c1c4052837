/** `recordPayment` as src/billing.ts writes it, statement by statement, when no other call runs
    beside it; `AloneInTheMachine` ties it to the state machine of `Payments`. */
module PaymentStore {
  import opened Wrappers
  import opened Billing
  import opened Payments

  /** The call takes the payment: it is ours, under that link, and not yet paid. */
  predicate Takes(payments: map<Id, Payment>, id: Id, link: Id) {
    id in payments && payments[id].link == Some(link) && payments[id].status == Created
  }

  function PaidRow(row: Payment, paymentId: Id, now: int): Payment {
    row.(status := Paid(Take(paymentId, 64), now))
  }

  /** The row is paid, now and by the first 64 characters of the payment's id, and is otherwise the same up to its end. */
  predicate OnlyPaid(before: Payment, after: Payment, paymentId: Id, now: int) {
    && after.status == Paid(if |paymentId| <= 64 then paymentId else paymentId[..64], now)
    && after.tenant == before.tenant && after.link == before.link && after.period == before.period
    && after.extraWorkstations == before.extraWorkstations
  }

  function TenantAfter(tenants: map<Id, Tenant>, row: Payment, now: int): Tenant
    requires row.tenant in tenants
  {
    Extending(tenants[row.tenant], row.period, row.extraWorkstations, now)
  }

  class Store {
    var payments: map<Id, Payment>
    var tenants: map<Id, Tenant>

    method RecordPayment(id: Id, link: Id, paymentId: Id, now: int) returns (r: Option<Payment>)
      modifies this
      ensures !Takes(old(payments), id, link) ==>
                r == None && payments == old(payments) && tenants == old(tenants)
      ensures Takes(old(payments), id, link) && old(payments)[id].tenant !in old(tenants) ==>
                r == None && payments == old(payments)[id := PaidRow(old(payments)[id], paymentId, now)] && tenants == old(tenants)
      ensures Takes(old(payments), id, link) && old(payments)[id].tenant in old(tenants) ==>
                var row := old(payments)[id];
                var after := TenantAfter(old(tenants), row, now);
                && tenants == old(tenants)[row.tenant := after]
                && payments == old(payments)[id := PaidRow(row, paymentId, now).(endsAt := after.expires)]
                && r == Some(payments[id])
      ensures var mine := id in old(payments) && old(payments)[id].link == Some(link) && old(payments)[id].status == Created;
              && (!mine ==> r == None && payments == old(payments) && tenants == old(tenants))
              && (mine ==> id in payments && payments == old(payments)[id := payments[id]]
                           && OnlyPaid(old(payments)[id], payments[id], paymentId, now))
              && (mine && old(payments)[id].tenant !in old(tenants) ==> r == None && tenants == old(tenants))
              && (mine && old(payments)[id].tenant in old(tenants) ==>
                    var row, t := old(payments)[id], old(payments)[id].tenant;
                    && r == Some(payments[id]) && t in tenants && tenants == old(tenants)[t := tenants[t]]
                    && Subscribed(old(tenants)[t], tenants[t], row.period, row.extraWorkstations, now)
                    && payments[id].endsAt == tenants[t].expires)
    {
      hide End, Subscribed, IsPeriod;
      if id in payments && payments[id].tenant in tenants {
        ExtendingSubscribes(tenants[payments[id].tenant], payments[id].period, payments[id].extraWorkstations, now);
      }
      if id !in payments || payments[id].link != Some(link) {
        return None;
      }
      var payment := payments[id];
      var claimed := payments[id].status == Created;
      if claimed {
        payments := payments[id := payments[id].(status := Paid(Take(paymentId, 64), now))];
      } else {
        return None;
      }
      if payment.tenant !in tenants {
        return None;
      }
      var tenant := tenants[payment.tenant];
      var inForce := tenant.plan == Subscriber && tenant.expires.Some? && tenant.expires.value > now;
      var from := if inForce then tenant.expires.value else now;
      var ends := PeriodEnd(from, payment.period);
      tenants := tenants[payment.tenant := Tenant(Subscriber, ends, INCLUDED_WORKSTATIONS + payment.extraWorkstations)];
      payments := payments[id := payments[id].(endsAt := ends)];
      r := Some(payments[id]);
    }
  }

  /** The six statements of one call, with no other step between them. */
  function AloneSteps(c: CallId, id: Id, link: Id, paymentId: Id, now: int): seq<Step> {
    [DoFind(c, id, link, paymentId, now), DoClaim(c), DoReadTenant(c), DoExtend(c), DoStoreEnd(c), DoReturn(c)]
  }

  /** A call alone in the state machine changes the tables and answers as the method does. */
  lemma AloneInTheMachine(s: State, c: CallId, id: Id, link: Id, paymentId: Id, now: int)
    requires c !in s.started
    ensures var s' := Run(s, AloneSteps(c, id, link, paymentId, now));
            && c in s'.calls
            && (!Takes(s.payments, id, link) ==> s'.payments == s.payments && s'.tenants == s.tenants && s'.calls[c].Ended?)
            && (Takes(s.payments, id, link) && s.payments[id].tenant !in s.tenants ==>
                  && s'.payments == s.payments[id := PaidRow(s.payments[id], paymentId, now)] && s'.tenants == s.tenants
                  && s'.calls[c].Ended?)
            && (Takes(s.payments, id, link) && s.payments[id].tenant in s.tenants ==>
                  var row := s.payments[id];
                  var after := TenantAfter(s.tenants, row, now);
                  && s'.tenants == s.tenants[row.tenant := after]
                  && s'.payments == s.payments[id := PaidRow(row, paymentId, now).(endsAt := after.expires)]
                  && s'.calls[c] == Recorded(id, s'.payments[id])
                  && Subscribed(s.tenants[row.tenant], after, row.period, row.extraWorkstations, now))
  {
    hide Subscribed;
    if id in s.payments {
      ExtendingOfTenant(s, id, now);
    }
    hide Extending, Take, ReadTenant, Extend, StoreEnd, Return, Run;
    AloneIsComposed(s, c, id, link, paymentId, now);
    var s2 := Claim(Find(s, c, id, link, paymentId, now), c);
    if !Takes(s.payments, id, link) {
      assert s2.calls[c].Ended? && s2.payments == s.payments && s2.tenants == s.tenants;
      EndedStays(s2, c);
    } else {
      assert s2.payments == s.payments[id := PaidRow(s.payments[id], paymentId, now)];
      assert s2.calls[c] == Claimed(id, s.payments[id], now) && s2.tenants == s.tenants;
      AloneAfterClaim(s2, c);
    }
  }

  lemma ExtendingOfTenant(s: State, id: Id, now: int)
    requires id in s.payments
    ensures s.payments[id].tenant in s.tenants ==>
              Subscribed(s.tenants[s.payments[id].tenant], TenantAfter(s.tenants, s.payments[id], now),
                         s.payments[id].period, s.payments[id].extraWorkstations, now)
  {
    hide Subscribed, Extending;
    if s.payments[id].tenant in s.tenants {
      ExtendingSubscribes(s.tenants[s.payments[id].tenant], s.payments[id].period, s.payments[id].extraWorkstations, now);
    }
  }

  lemma EndedStays(s: State, c: CallId)
    requires c in s.calls && s.calls[c].Ended?
    ensures Return(StoreEnd(Extend(ReadTenant(s, c), c), c), c) == s
  {
  }

  /** The statements after the claim. */
  lemma AloneAfterClaim(s: State, c: CallId)
    requires c in s.calls && s.calls[c].Claimed? && s.calls[c].id in s.payments
    ensures var call := s.calls[c];
            var s' := Return(StoreEnd(Extend(ReadTenant(s, c), c), c), c);
            && c in s'.calls
            && (call.payment.tenant !in s.tenants ==> s'.payments == s.payments && s'.tenants == s.tenants && s'.calls[c].Ended?)
            && (call.payment.tenant in s.tenants ==>
                  var after := TenantAfter(s.tenants, call.payment, call.now);
                  && s'.tenants == s.tenants[call.payment.tenant := after]
                  && s'.payments == s.payments[call.id := s.payments[call.id].(endsAt := after.expires)]
                  && s'.calls[c] == Recorded(call.id, s'.payments[call.id]))
  {
    hide Extending;
  }

  lemma AloneIsComposed(s: State, c: CallId, id: Id, link: Id, paymentId: Id, now: int)
    ensures Run(s, AloneSteps(c, id, link, paymentId, now))
            == Return(StoreEnd(Extend(ReadTenant(Claim(Find(s, c, id, link, paymentId, now), c), c), c), c), c)
  {
    hide Find, Claim, ReadTenant, Extend, StoreEnd, Return;
    var steps := AloneSteps(c, id, link, paymentId, now);
    assert steps[..1][..0] == [];
    assert steps[..2][..1] == steps[..1];
    assert steps[..3][..2] == steps[..2];
    assert steps[..4][..3] == steps[..3];
    assert steps[..5][..4] == steps[..4];
    assert Run(s, steps[..1]) == Find(s, c, id, link, paymentId, now);
    assert Run(s, steps[..3]) == ReadTenant(Claim(Run(s, steps[..1]), c), c);
    assert Run(s, steps[..5]) == StoreEnd(Extend(Run(s, steps[..3]), c), c);
  }
}
