/** Device enrolment of src/db.ts: the limit check and the insert are one statement, the revoke
    of the workstation's older tokens is another, and calls interleave between them. */
module Enrolment {
  type Id = string

  datatype Token = Token(id: Id, tenant: Id, client: Id, revoked: bool)

  /** How far a successful call has come: inserted, answered, or stopped in between. */
  datatype Phase = Inserted | Answered | Stopped

  /** The table in insertion order, and the calls that inserted into it. */
  datatype State = State(rows: seq<Token>, calls: map<Id, Phase>)

  datatype Step =
    | Enrol(id: Id, tenant: Id, client: Id, limit: int)
    | RevokeOlder(id: Id)
    | StopCall(id: Id)
    | Decommission(tenant: Id, client: Id)

  predicate Live(row: Token, tenant: Id) { row.tenant == tenant && !row.revoked }

  /** The distinct workstations of an organization that hold a live token. */
  function LiveClients(rows: seq<Token>, tenant: Id): set<Id> {
    set i | 0 <= i < |rows| && Live(rows[i], tenant) :: rows[i].client
  }

  /** INSERT ... SELECT ... WHERE the workstation holds a live token or the count is below the limit. */
  predicate Admits(rows: seq<Token>, tenant: Id, client: Id, limit: int) {
    client in LiveClients(rows, tenant) || |LiveClients(rows, tenant)| < limit
  }

  /** UPDATE ... SET revoked = 1 WHERE tenant_id = ? AND client_id = ? AND id != ?; no id spares none. */
  function Revoke(rows: seq<Token>, tenant: Id, client: Id, spare: set<Id>): (r: seq<Token>)
    ensures |r| == |rows|
    ensures forall i :: 0 <= i < |rows| ==>
      r[i] == if rows[i].tenant == tenant && rows[i].client == client && rows[i].id !in spare
              then rows[i].(revoked := true) else rows[i]
  {
    if rows == [] then []
    else
      var row := rows[|rows| - 1];
      Revoke(rows[..|rows| - 1], tenant, client, spare)
      + [if row.tenant == tenant && row.client == client && row.id !in spare then row.(revoked := true) else row]
  }

  predicate HasRow(rows: seq<Token>, id: Id) { exists i :: 0 <= i < |rows| && rows[i].id == id }

  function Find(rows: seq<Token>, id: Id): (i: nat)
    requires HasRow(rows, id)
    ensures i < |rows| && rows[i].id == id
  {
    if rows[|rows| - 1].id == id then |rows| - 1 else Find(rows[..|rows| - 1], id)
  }

  /** One step; a step that is not enabled changes nothing.  A refused enrolment is one. */
  function Apply(s: State, step: Step): State {
    match step
    case Enrol(id, tenant, client, limit) =>
      if id !in s.calls && Admits(s.rows, tenant, client, limit)
      then State(s.rows + [Token(id, tenant, client, false)], s.calls[id := Inserted]) else s
    case RevokeOlder(id) =>
      if id in s.calls && s.calls[id] == Inserted && HasRow(s.rows, id) then
        var row := s.rows[Find(s.rows, id)];
        State(Revoke(s.rows, row.tenant, row.client, {id}), s.calls[id := Answered])
      else s
    case StopCall(id) => if id in s.calls && s.calls[id] == Inserted then s.(calls := s.calls[id := Stopped]) else s
    case Decommission(tenant, client) => s.(rows := Revoke(s.rows, tenant, client, {}))
  }

  function Run(s: State, steps: seq<Step>): State {
    if steps == [] then s else Apply(Run(s, steps[..|steps| - 1]), steps[|steps| - 1])
  }

  // ------------------------------------------------------------ the limit

  lemma SubsetIsSmaller<T>(a: set<T>, b: set<T>)
    requires a <= b
    ensures |a| <= |b|
  {
    assert b == a + (b - a);
  }

  lemma RevokeOnlyRemoves(rows: seq<Token>, tenant: Id, client: Id, spare: set<Id>, t: Id)
    ensures LiveClients(Revoke(rows, tenant, client, spare), t) <= LiveClients(rows, t)
  {
  }

  lemma InsertAddsOne(rows: seq<Token>, row: Token, t: Id)
    ensures LiveClients(rows + [row], t) == LiveClients(rows, t) + (if Live(row, t) then {row.client} else {})
  {
    var after := rows + [row];
    assert after[|rows|] == row;
    assert forall i :: 0 <= i < |rows| ==> after[i] == rows[i];
  }

  /** Only an enrolment into free places raises the count, and never past its limit. */
  lemma StepKeepsLimit(s: State, step: Step, t: Id, limit: int)
    requires step.Enrol? && step.tenant == t ==> step.limit <= limit
    requires |LiveClients(s.rows, t)| <= limit
    ensures |LiveClients(Apply(s, step).rows, t)| <= limit
  {
    hide Revoke, Find, HasRow, LiveClients;
    match step
    case Enrol(id, tenant, client, _) =>
      InsertAddsOne(s.rows, Token(id, tenant, client, false), t);
      if client in LiveClients(s.rows, t) {
        assert LiveClients(s.rows, t) + {client} == LiveClients(s.rows, t);
      }
    case RevokeOlder(id) =>
      if Apply(s, step) != s {
        var row := s.rows[Find(s.rows, id)];
        RevokeOnlyRemoves(s.rows, row.tenant, row.client, {id}, t);
        SubsetIsSmaller(LiveClients(Apply(s, step).rows, t), LiveClients(s.rows, t));
      }
    case StopCall(_) =>
    case Decommission(tenant, client) =>
      RevokeOnlyRemoves(s.rows, tenant, client, {}, t);
      SubsetIsSmaller(LiveClients(Apply(s, step).rows, t), LiveClients(s.rows, t));
  }

  /** Under any interleaving the live workstations of an organization never exceed the limit. */
  lemma {:induction false} LimitHolds(s: State, steps: seq<Step>, t: Id, limit: int)
    requires forall i :: 0 <= i < |steps| && steps[i].Enrol? && steps[i].tenant == t ==> steps[i].limit <= limit
    requires |LiveClients(s.rows, t)| <= limit
    ensures |LiveClients(Run(s, steps).rows, t)| <= limit
    decreases |steps|
  {
    hide Apply, LiveClients;
    if steps != [] {
      LimitHolds(s, steps[..|steps| - 1], t, limit);
      StepKeepsLimit(Run(s, steps[..|steps| - 1]), steps[|steps| - 1], t, limit);
    }
  }

  // ------------------------------------------------------------ one token per workstation

  predicate SameWorkstation(a: Token, b: Token) { a.tenant == b.tenant && a.client == b.client }

  predicate Tracked(s: State) {
    && (forall i :: 0 <= i < |s.rows| ==> s.rows[i].id in s.calls)
    && (forall i, j :: 0 <= i < j < |s.rows| ==> s.rows[i].id != s.rows[j].id)
  }

  /** Of any two live tokens of one workstation the later one's call has not revoked yet. */
  predicate NewestStillRevokes(s: State) {
    forall i, j :: 0 <= i < j < |s.rows| && SameWorkstation(s.rows[i], s.rows[j])
                   && !s.rows[i].revoked && !s.rows[j].revoked ==>
      s.rows[j].id in s.calls && s.calls[s.rows[j].id] != Answered
  }

  lemma StepKeepsNewest(s: State, step: Step)
    requires Tracked(s) && NewestStillRevokes(s)
    ensures Tracked(Apply(s, step)) && NewestStillRevokes(Apply(s, step))
  {
    hide Revoke, Admits, HasRow;
  }

  lemma {:induction false} NewestAlwaysRevokes(s: State, steps: seq<Step>)
    requires Tracked(s) && NewestStillRevokes(s)
    ensures Tracked(Run(s, steps)) && NewestStillRevokes(Run(s, steps))
    decreases |steps|
  {
    hide Apply, Tracked, NewestStillRevokes;
    if steps != [] {
      NewestAlwaysRevokes(s, steps[..|steps| - 1]);
      StepKeepsNewest(Run(s, steps[..|steps| - 1]), steps[|steps| - 1]);
    }
  }

  /** When every call has answered, each workstation holds at most one live token. */
  lemma AtMostOneAtRest(steps: seq<Step>, i: nat, j: nat)
    requires var s := Run(State([], map[]), steps);
             && (forall id :: id in s.calls ==> s.calls[id] == Answered)
             && i < j < |s.rows| && SameWorkstation(s.rows[i], s.rows[j])
    ensures var s := Run(State([], map[]), steps); s.rows[i].revoked || s.rows[j].revoked
  {
    NewestAlwaysRevokes(State([], map[]), steps);
  }

  // ------------------------------------------------------------ which token survives

  /** The steps that end a token: a decommission of its workstation, or the revoke of
      another call for it, older or newer. */
  predicate Ends(s: State, step: Step, token: Token) {
    match step
    case Decommission(tenant, client) => token.tenant == tenant && token.client == client
    case RevokeOlder(id) =>
      && id != token.id && id in s.calls && s.calls[id] == Inserted && HasRow(s.rows, id)
      && SameWorkstation(s.rows[Find(s.rows, id)], token)
    case _ => false
  }

  predicate EndsDuring(s: State, steps: seq<Step>, token: Token) {
    steps != [] &&
    (EndsDuring(s, steps[..|steps| - 1], token) || Ends(Run(s, steps[..|steps| - 1]), steps[|steps| - 1], token))
  }

  /** A token stays exactly as long as no such step is taken, and never comes back. */
  lemma {:induction false} LiveUntilEnded(s: State, steps: seq<Step>, k: nat)
    requires Tracked(s) && k < |s.rows|
    ensures var s' := Run(s, steps);
            && k < |s'.rows| && s'.rows[k].(revoked := false) == s.rows[k].(revoked := false)
            && (s'.rows[k].revoked <==> s.rows[k].revoked || EndsDuring(s, steps, s.rows[k].(revoked := false)))
            && Tracked(s')
    decreases |steps|
  {
    hide Apply, Tracked, Ends;
    if steps != [] {
      LiveUntilEnded(s, steps[..|steps| - 1], k);
      StepEnds(Run(s, steps[..|steps| - 1]), steps[|steps| - 1], k);
    }
  }

  lemma StepEnds(s: State, step: Step, k: nat)
    requires Tracked(s) && k < |s.rows|
    ensures var s' := Apply(s, step);
            && k < |s'.rows| && s'.rows[k].(revoked := false) == s.rows[k].(revoked := false)
            && (s'.rows[k].revoked <==> s.rows[k].revoked || Ends(s, step, s.rows[k].(revoked := false)))
            && Tracked(s')
  {
    hide Revoke, Admits, HasRow;
  }

  /** Two enrolments of one workstation can end each other's token: both callers are given
      one and neither works. */
  lemma RacingCallsMayLeaveNone(a: Id, b: Id, tenant: Id, client: Id)
    requires a != b
    ensures var steps := [Enrol(a, tenant, client, 1), Enrol(b, tenant, client, 1), RevokeOlder(b), RevokeOlder(a)];
            var s := Run(State([], map[]), steps);
            && s.calls == map[a := Answered, b := Answered]
            && |s.rows| == 2 && s.rows[0].revoked && s.rows[1].revoked
  {
    hide Apply;
    var steps := [Enrol(a, tenant, client, 1), Enrol(b, tenant, client, 1), RevokeOlder(b), RevokeOlder(a)];
    var s0 := State([], map[]);
    assert steps[..3][..2][..1][..0] == [];
    var s1 := Apply(s0, steps[0]);
    var s2 := Apply(s1, steps[1]);
    var s3 := Apply(s2, steps[2]);
    assert Run(s0, steps[..3][..2][..1]) == s1;
    assert Run(s0, steps[..3][..2]) == s2;
    assert Run(s0, steps[..3]) == s3;
    BothEnrol(a, b, tenant, client);
    BothRevoke(a, b, tenant, client);
  }

  lemma BothEnrol(a: Id, b: Id, tenant: Id, client: Id)
    requires a != b
    ensures var s1 := Apply(State([], map[]), Enrol(a, tenant, client, 1));
            Apply(s1, Enrol(b, tenant, client, 1))
            == State([Token(a, tenant, client, false), Token(b, tenant, client, false)], map[a := Inserted, b := Inserted])
  {
    hide Revoke, HasRow;
    var ta := Token(a, tenant, client, false);
    assert LiveClients([], tenant) == {};
    assert client in LiveClients([ta], tenant) by { assert Live([ta][0], tenant); }
    assert [] + [ta] == [ta];
  }

  lemma BothRevoke(a: Id, b: Id, tenant: Id, client: Id)
    requires a != b
    ensures var ta, tb := Token(a, tenant, client, false), Token(b, tenant, client, false);
            var s := Apply(Apply(State([ta, tb], map[a := Inserted, b := Inserted]), RevokeOlder(b)), RevokeOlder(a));
            s.calls == map[a := Answered, b := Answered] && |s.rows| == 2 && s.rows[0].revoked && s.rows[1].revoked
  {
    hide Revoke, Admits, Find;
    var ta, tb := Token(a, tenant, client, false), Token(b, tenant, client, false);
    var s2 := State([ta, tb], map[a := Inserted, b := Inserted]);
    assert s2.rows[1].id == b;
    var s3 := Apply(s2, RevokeOlder(b));
    assert s3.rows[0] == ta.(revoked := true) && s3.rows[1] == tb;
    assert s3.rows[0].id == a;
  }

  // ------------------------------------------------------------ a call alone

  class DeviceTokens {
    var rows: seq<Token>

    /** A call that nothing runs beside: refused exactly when the workstation holds no
        live token and the places are taken, and otherwise its token is the only live one
        of the workstation. */
    method CreateDeviceToken(id: Id, tenant: Id, client: Id, limit: int) returns (ok: bool)
      requires forall i :: 0 <= i < |rows| ==> rows[i].id != id
      modifies this
      ensures ok <==> client in LiveClients(old(rows), tenant) || |LiveClients(old(rows), tenant)| < limit
      ensures !ok ==> rows == old(rows)
      ensures ok ==> |rows| == |old(rows)| + 1 && rows[|old(rows)|] == Token(id, tenant, client, false)
      ensures ok ==> forall i :: 0 <= i < |old(rows)| ==>
        rows[i] == if old(rows)[i].tenant == tenant && old(rows)[i].client == client
                   then old(rows)[i].(revoked := true) else old(rows)[i]
      ensures ok ==> LiveClients(rows, tenant) == LiveClients(old(rows), tenant) + {client}
    {
      ok := Admits(rows, tenant, client, limit);
      if !ok {
        return;
      }
      rows := rows + [Token(id, tenant, client, false)];
      rows := Revoke(rows, tenant, client, {id});
      AloneLeavesOne(old(rows), rows, id, tenant, client);
    }

    method RevokeDeviceTokensForClient(tenant: Id, client: Id)
      modifies this
      ensures rows == Revoke(old(rows), tenant, client, {})
      ensures client !in LiveClients(rows, tenant)
      ensures forall t, c :: t != tenant || c != client ==> (c in LiveClients(rows, t) <==> c in LiveClients(old(rows), t))
    {
      rows := Revoke(rows, tenant, client, {});
      DecommissionEndsOne(old(rows), rows, tenant, client);
    }
  }

  lemma AloneLeavesOne(before: seq<Token>, after: seq<Token>, id: Id, tenant: Id, client: Id)
    requires |after| == |before| + 1 && after[|before|] == Token(id, tenant, client, false)
    requires forall i :: 0 <= i < |before| ==>
      after[i] == if before[i].tenant == tenant && before[i].client == client
                  then before[i].(revoked := true) else before[i]
    ensures LiveClients(after, tenant) == LiveClients(before, tenant) + {client}
  {
  }

  lemma DecommissionEndsOne(before: seq<Token>, after: seq<Token>, tenant: Id, client: Id)
    requires after == Revoke(before, tenant, client, {})
    ensures client !in LiveClients(after, tenant)
    ensures forall t, c :: t != tenant || c != client ==> (c in LiveClients(after, t) <==> c in LiveClients(before, t))
  {
  }
}
