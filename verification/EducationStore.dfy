/** The education_applications table and the certificate store of src/education.ts, in place. */
module EducationStore {
  import opened Wrappers
  import opened Education
  import Uniform

  type File = seq<int>

  datatype Started = Started(code: Code) | AlreadyWaiting

  datatype Confirmation = Confirmed | Refused(why: Refusal)

  datatype Op =
    | Start(tenant: Id, id: Id, code: Code, file: File)
    | Confirm(tenant: Id, id: Id, code: Code)
    | Decide(id: Id, approve: bool)
    | Purge

  datatype Timed = Timed(op: Op, now: int)

  ghost predicate Injective(hash: (Id, Code) -> string) {
    forall id, c, d :: hash(id, c) == hash(id, d) ==> c == d
  }

  lemma ClockMoves(rows: seq<Application>, certificates: set<Key>, letters: Letters, hash: (Id, Code) -> string, clock: int, now: int)
    requires Sound(rows, certificates, letters, hash, clock) && clock <= now
    ensures Sound(rows, certificates, letters, hash, now)
  {
  }

  lemma NothingMoved(rows: seq<Application>)
    ensures DecisionsStand(rows, rows)
  {
  }

  // ------------------------------------------------------------ answers

  /** The answer to a code, from the application, the code that was sent and the time. */
  ghost function Answer(rows: seq<Application>, sent: map<Id, Code>, tenant: Id, id: Id, code: Code, now: int): Confirmation {
    var k := Find(rows, id);
    if k < 0 || rows[k].tenant != tenant then Refused(NotFound)
    else if rows[k].status != Verifying then Refused(AlreadyConfirmed)
    else if rows[k].attempts == 5 then Refused(TooManyTries)
    else if now > rows[k].createdAt + 1800 then Refused(CodeExpired)
    else if SixDigits(code) && id in sent && code == sent[id] then Confirmed
    else Refused(WrongCode)
  }

  /** What is taken for a code is what can be drawn as one. */
  lemma SixDigitsAreCodes(s: string)
    ensures SixDigits(s) <==> exists n: nat :: n < 1_000_000 && Uniform.SixDigits(n) == s
  {
    hide Uniform.SixDigits, Uniform.ValueOf;
    if SixDigits(s) {
      Uniform.CodesAreOneToOne(0, s);
      assert Uniform.SixDigits(Uniform.ValueOf(s)) == s;
    } else if exists n: nat :: n < 1_000_000 && Uniform.SixDigits(n) == s {
      var n: nat :| n < 1_000_000 && Uniform.SixDigits(n) == s;
      Uniform.SixDigitsReadBack(n);
    }
  }

  /** Every code that is drawn is confirmed by typing it, in half an hour and before five wrong tries. */
  lemma DrawnCodeConfirms(rows: seq<Application>, sent: map<Id, Code>, id: Id, n: nat, now: int)
    requires n < 1_000_000 && Find(rows, id) >= 0 && id in sent && sent[id] == Uniform.SixDigits(n)
    requires var a := rows[Find(rows, id)]; a.status == Verifying && a.attempts < 5 && now <= a.createdAt + 1800
    ensures Answer(rows, sent, rows[Find(rows, id)].tenant, id, Uniform.SixDigits(n), now) == Confirmed
  {
    hide Find;
    Uniform.SixDigitsReadBack(n);
    hide Uniform.SixDigits;
  }

  // ------------------------------------------------------------ the purge

  /** Never confirmed within a day, or rejected more than ninety days ago with its certificate still held. */
  predicate Purgeable(a: Application, now: int) {
    || (a.status == Verifying && a.createdAt < now - DAY)
    || (a.status == Rejected && a.certificate.Some? && a.decidedAt.Some? && a.decidedAt.value < now - CERTIFICATE_SECONDS)
  }

  /** In days: an application not confirmed is kept for a day, the certificate of a rejected one for ninety days from
      the decision, and everything else for good. */
  lemma PurgeableIs(a: Application, now: int)
    ensures Purgeable(a, now) <==>
            || (a.status == Verifying && now > a.createdAt + 1 * 24 * 60 * 60)
            || (a.status == Rejected && a.certificate.Some? && a.decidedAt.Some? && now > a.decidedAt.value + 90 * 24 * 60 * 60)
  {
  }

  /** SELECT ... LIMIT n: the first rows that can be purged. */
  function Pick(rows: seq<Application>, now: int, n: nat): (picked: seq<Application>)
    ensures |picked| <= n
    ensures forall a :: a in picked ==> a in rows && Purgeable(a, now)
    ensures |picked| < n ==> forall a :: a in rows && Purgeable(a, now) ==> a in picked
  {
    if rows == [] || n == 0 then []
    else if Purgeable(rows[0], now) then [rows[0]] + Pick(rows[1..], now, n - 1)
    else Pick(rows[1..], now, n)
  }

  predicate DistinctIds(rows: seq<Application>) {
    forall i, j :: 0 <= i < j < |rows| ==> rows[i].id != rows[j].id
  }

  lemma SoundIsDistinct(rows: seq<Application>, certificates: set<Key>, letters: Letters, hash: (Id, Code) -> string, clock: int)
    requires Sound(rows, certificates, letters, hash, clock)
    ensures DistinctIds(rows)
  {
  }

  lemma {:induction false} PickIsDistinct(rows: seq<Application>, now: int, n: nat)
    requires DistinctIds(rows)
    ensures DistinctIds(Pick(rows, now, n))
  {
    hide Purgeable;
    if rows != [] && n > 0 {
      var rest := Pick(rows[1..], now, if Purgeable(rows[0], now) then n - 1 else n);
      PickIsDistinct(rows[1..], now, if Purgeable(rows[0], now) then n - 1 else n);
      forall i | 0 <= i < |rest|
        ensures rest[i].id != rows[0].id
      {
        assert rest[i] in rows[1..];
      }
    }
  }

  lemma FindIt(rows: seq<Application>, a: Application)
    requires DistinctIds(rows) && a in rows
    ensures Find(rows, a.id) >= 0 && rows[Find(rows, a.id)] == a
  {
  }

  // ------------------------------------------------------------ the store

  class Applications {
    var rows: seq<Application>
    var certificates: map<Key, File>
    const hash: (Id, Code) -> string
    ghost var letters: Letters
    ghost var clock: int

    ghost predicate Valid()
      reads this
    {
      Injective(hash) && Sound(rows, certificates.Keys, letters, hash, clock)
    }

    constructor (hash: (Id, Code) -> string)
      requires Injective(hash)
      ensures Valid() && rows == [] && certificates == map[] && letters.sent == map[] && clock == 0
    {
      this.hash := hash;
      rows, certificates := [], map[];
      letters, clock := Letters(map[], map[]), 0;
    }

    /** Drop an application and the certificate it holds. */
    method Discard(a: Application)
      requires Valid() && a in rows && a.status == Verifying
      modifies this`rows, this`certificates
      ensures Valid() && DecisionsStand(old(rows), rows)
      ensures Parted(old(rows), rows, a) && forall b :: b in rows ==> b in old(rows)
    {
      hide Sound, Injective, DistinctIds, Drop, Find, DecisionsStand;
      SoundIsDistinct(rows, certificates.Keys, letters, hash, clock);
      FindIt(rows, a);
      var k := Find(rows, a.id);
      DropKeeps(rows, certificates.Keys, letters, hash, clock, k);
      DropIsRemoval(rows, k);
      if a.certificate.Some? {
        certificates := certificates - {a.certificate.value};
      }
      rows := Drop(rows, k);
      assert certificates.Keys == old(certificates).Keys - {a.certificate.value};
    }

    /** Start an application: one waiting for the platform stands, one waiting for its code is replaced. */
    method StartApplication(tenant: Id, id: Id, code: Code, file: File, now: int) returns (r: Started)
      requires Valid() && clock <= now && id !in letters.sent
      modifies this
      ensures Valid() && DecisionsStand(old(rows), rows) && clock == now
      ensures r.AlreadyWaiting? <==> exists a :: a in old(rows) && a.tenant == tenant && a.status == Pending
      ensures r.AlreadyWaiting? ==> rows == old(rows) && certificates == old(certificates) && letters == old(letters)
      ensures r.Started? ==>
        && r.code == code && letters == old(letters).(sent := old(letters).sent[id := code])
        && |rows| > 0
        && rows[|rows| - 1] == Application(id, tenant, Some(hash(id, code)), Some(now + 1800), 0, None, Some(Key(tenant, id)), Verifying, now, None)
        && Key(tenant, id) in certificates && certificates[Key(tenant, id)] == file
      ensures r.Started? ==>
        forall a :: a in old(rows) ==> (a in rows <==> !(a.tenant == tenant && a.status == Verifying))
    {
      hide Sound, Injective, DistinctIds, Drop, Find, DecisionsStand, LatestIndex;
      LatestTells(rows, certificates.Keys, letters, hash, clock, tenant);
      IdIsNew(rows, certificates.Keys, letters, hash, clock, id);
      NothingMoved(rows);
      var k := LatestIndex(rows, tenant);
      if k >= 0 && rows[k].status == Pending {
        ClockMoves(rows, certificates.Keys, letters, hash, clock, now);
        clock := now;
        return AlreadyWaiting;
      }
      if k >= 0 && rows[k].status == Verifying {
        Discard(rows[k]);
      }
      var a := Fresh(id, tenant, hash(id, code), now);
      AppendKeeps(rows, certificates.Keys, letters, hash, clock, a, code);
      AppendMembers(rows, a);
      DecisionsStandOn(old(rows), rows, rows + [a]);
      assert certificates[Key(tenant, id) := file].Keys == certificates.Keys + {Key(tenant, id)};
      certificates := certificates[Key(tenant, id) := file];
      rows := rows + [a];
      letters := letters.(sent := letters.sent[id := code]);
      clock := now;
      r := Started(code);
    }

    /** Check an emailed code: the answer is the one the code sent and the history call for. */
    method ConfirmApplicationEmail(tenant: Id, id: Id, code: Code, now: int) returns (r: Confirmation)
      requires Valid() && clock <= now
      modifies this`rows, this`letters, this`clock
      ensures Valid() && DecisionsStand(old(rows), rows) && clock == now && letters.sent == old(letters).sent
      ensures r == Answer(old(rows), old(letters).sent, tenant, id, code, now)
      ensures r.Refused? && r.why != WrongCode ==> rows == old(rows)
      ensures r == Refused(WrongCode) ==>
        var k := Find(old(rows), id); rows == old(rows)[k := old(rows)[k].(attempts := old(rows)[k].attempts + 1)]
      ensures r.Confirmed? ==>
        var k := Find(old(rows), id);
        && rows == old(rows)[k := old(rows)[k].(status := Pending, codeHash := None, codeExpires := None, verifiedAt := Some(now))]
        && letters.typed == old(letters).typed[id := code]
    {
      hide Sound, Injective, DistinctIds, Drop, Find, DecisionsStand, SixDigits;
      ClockMoves(rows, certificates.Keys, letters, hash, clock, now);
      NothingMoved(rows);
      clock := now;
      var k := Find(rows, id);
      AnswerIs(rows, certificates.Keys, letters, hash, now, tenant, id, code);
      if k < 0 || rows[k].tenant != tenant {
        return Refused(NotFound);
      }
      var a := rows[k];
      if a.status != Verifying || a.codeHash.None? {
        return Refused(AlreadyConfirmed);
      }
      if a.attempts >= CODE_ATTEMPTS {
        return Refused(TooManyTries);
      }
      if a.codeExpires.None? || a.codeExpires.value < now {
        return Refused(CodeExpired);
      }
      if !SixDigits(code) || hash(id, code) != a.codeHash.value {
        WrongCodeKeeps(rows, certificates.Keys, letters, hash, now, k);
        rows := rows[k := a.(attempts := a.attempts + 1)];
        return Refused(WrongCode);
      }
      RightCodeKeeps(rows, certificates.Keys, letters, hash, now, k, code);
      rows := rows[k := Waiting(a, now)];
      letters := letters.(typed := letters.typed[id := code]);
      r := Confirmed;
    }

    /** Record a decision, of an application that waits for one. */
    method DecideApplication(id: Id, approve: bool, now: int) returns (done: bool)
      requires Valid() && clock <= now
      modifies this`rows, this`clock
      ensures Valid() && DecisionsStand(old(rows), rows) && clock == now
      ensures done <==> exists a :: a in old(rows) && a.id == id && a.status == Pending
      ensures !done ==> rows == old(rows)
      ensures done ==>
        var k := Find(old(rows), id);
        rows == old(rows)[k := old(rows)[k].(status := if approve then Approved else Rejected, decidedAt := Some(now))]
    {
      hide Sound, Injective, DistinctIds, Drop, DecisionsStand;
      ClockMoves(rows, certificates.Keys, letters, hash, clock, now);
      NothingMoved(rows);
      SoundIsDistinct(rows, certificates.Keys, letters, hash, now);
      clock := now;
      var k := Find(rows, id);
      done := k >= 0 && rows[k].status == Pending;
      if exists a :: a in rows && a.id == id {
        var a :| a in rows && a.id == id;
        FindIt(rows, a);
      }
      if done {
        DecisionKeeps(rows, certificates.Keys, letters, hash, now, k, approve);
        rows := rows[k := Ruled(rows[k], approve, now)];
      }
    }

    /** Let go of a rejected application's certificate. */
    method Release(a: Application)
      requires Valid() && a in rows && a.status == Rejected && a.certificate.Some?
      modifies this`rows, this`certificates
      ensures Valid() && DecisionsStand(old(rows), rows) && Parted(old(rows), rows, a)
    {
      hide Sound, Injective, DistinctIds, Drop, Find, DecisionsStand;
      SoundIsDistinct(rows, certificates.Keys, letters, hash, clock);
      FindIt(rows, a);
      var k := Find(rows, a.id);
      ReleaseKeeps(rows, certificates.Keys, letters, hash, clock, k);
      ReplaceParts(rows, k);
      hide Parted;
      assert (certificates - {a.certificate.value}).Keys == certificates.Keys - {a.certificate.value};
      certificates := certificates - {a.certificate.value};
      rows := rows[k := a.(certificate := None)];
    }

    /** Hourly: at most a hundred rows are purged; below that, none is left to purge, and no other row changes. */
    method PurgeEducationApplications(now: int) returns (count: nat)
      requires Valid() && clock <= now
      modifies this`rows, this`certificates, this`clock
      ensures Valid() && DecisionsStand(old(rows), rows) && clock == now
      ensures count <= 100 && (count < 100 ==> forall a :: a in rows ==> !Purgeable(a, now))
      ensures forall a :: a in old(rows) && !Purgeable(a, now) ==> a in rows
      ensures forall a :: a in rows ==> a in old(rows) || LetGo(a, old(rows), now)
    {
      hide Sound, Injective, DistinctIds, DecisionsStand, Pick;
      ClockMoves(rows, certificates.Keys, letters, hash, clock, now);
      SoundIsDistinct(rows, certificates.Keys, letters, hash, now);
      PickIsDistinct(rows, now, PURGE_BATCH);
      NothingMoved(rows);
      clock := now;
      var picked := Pick(rows, now, PURGE_BATCH);
      var n := 0;
      while n < |picked|
        invariant 0 <= n <= |picked| && Valid() && clock == now && DecisionsStand(old(rows), rows)
        invariant Swept(old(rows), rows, picked, n, now)
      {
        hide Swept, Parted, Purgeable;
        var a := picked[n];
        SweptAt(old(rows), rows, picked, n, now);
        ghost var before := rows;
        if a.status == Verifying {
          Discard(a);
        } else {
          Release(a);
        }
        DecisionsStandOn(old(rows), before, rows);
        SweptNext(old(rows), before, rows, picked, n, now);
        n := n + 1;
      }
      count := |picked|;
    }

    method Do(op: Timed)
      requires Valid() && clock <= op.now && (op.op.Start? ==> op.op.id !in letters.sent)
      modifies this
      ensures Valid() && DecisionsStand(old(rows), rows) && clock == op.now
      ensures letters.sent == if op.op.Start? && letters.sent != old(letters).sent then old(letters).sent[op.op.id := op.op.code] else old(letters).sent
    {
      match op.op
      case Start(tenant, id, code, file) =>
        var _ := StartApplication(tenant, id, code, file, op.now);
      case Confirm(tenant, id, code) =>
        var _ := ConfirmApplicationEmail(tenant, id, code, op.now);
      case Decide(id, approve) =>
        var _ := DecideApplication(id, approve, op.now);
      case Purge =>
        var _ := PurgeEducationApplications(op.now);
    }

    /** Over every run of calls, in order of time and with new ids, everything holds throughout and every
        decision stands. */
    method Replay(ops: seq<Timed>)
      requires Valid() && InOrder(ops, clock) && NewIds(ops, letters.sent.Keys)
      modifies this
      ensures Valid() && DecisionsStand(old(rows), rows)
    {
      hide Sound, Injective, DecisionsStand;
      NothingMoved(rows);
      var n := 0;
      while n < |ops|
        invariant 0 <= n <= |ops| && Valid() && DecisionsStand(old(rows), rows)
        invariant InOrder(ops[n..], clock) && NewIds(ops[n..], letters.sent.Keys)
      {
        ghost var before := rows;
        assert ops[n..][0] == ops[n] && ops[n..][1..] == ops[n + 1..];
        ghost var used := if ops[n].op.Start? then letters.sent.Keys + {ops[n].op.id} else letters.sent.Keys;
        Do(ops[n]);
        NewAmongFewer(ops[n + 1..], used, letters.sent.Keys);
        DecisionsStandOn(old(rows), before, rows);
        n := n + 1;
      }
    }
  }

  predicate InOrder(ops: seq<Timed>, clock: int) {
    ops == [] || (clock <= ops[0].now && InOrder(ops[1..], ops[0].now))
  }

  /** Every application started gets an id never used before. */
  predicate NewIds(ops: seq<Timed>, used: set<Id>) {
    ops == [] ||
    (if ops[0].op.Start? then ops[0].op.id !in used && NewIds(ops[1..], used + {ops[0].op.id}) else NewIds(ops[1..], used))
  }

  lemma {:induction false} NewAmongFewer(ops: seq<Timed>, used: set<Id>, fewer: set<Id>)
    requires NewIds(ops, used) && fewer <= used
    ensures NewIds(ops, fewer)
  {
    if ops != [] {
      if ops[0].op.Start? {
        NewAmongFewer(ops[1..], used + {ops[0].op.id}, fewer + {ops[0].op.id});
      } else {
        NewAmongFewer(ops[1..], used, fewer);
      }
    }
  }

  /** The one row is gone or has lost its certificate; all others are where they were. */
  ghost predicate Parted(before: seq<Application>, after: seq<Application>, a: Application) {
    && a !in after
    && (forall b :: b in after ==> b in before || (a.status != Verifying && b == a.(certificate := None)))
    && (forall b :: b in before && b != a ==> b in after)
  }

  ghost predicate LetGo(b: Application, rows: seq<Application>, now: int) {
    exists a :: a in rows && a.status == Rejected && Purgeable(a, now) && b == a.(certificate := None)
  }

  /** How far a purge has come. */
  ghost predicate Swept(before: seq<Application>, rows: seq<Application>, picked: seq<Application>, n: int, now: int)
    requires 0 <= n <= |picked|
  {
    && (forall j :: n <= j < |picked| ==> picked[j] in rows)
    && (forall a :: a in before && !Purgeable(a, now) ==> a in rows)
    && (forall a :: a in rows && Purgeable(a, now) ==> a in before && a !in picked[..n])
    && (forall a :: a in rows ==> a in before || LetGo(a, before, now))
  }

  /** An application whose code was entered. */
  function Waiting(a: Application, now: int): Application {
    a.(status := Pending, codeHash := None, codeExpires := None, verifiedAt := Some(now))
  }

  function Ruled(a: Application, approve: bool, now: int): Application {
    a.(status := if approve then Approved else Rejected, decidedAt := Some(now))
  }

  lemma IdIsNew(rows: seq<Application>, certificates: set<Key>, letters: Letters, hash: (Id, Code) -> string, clock: int, id: Id)
    requires Sound(rows, certificates, letters, hash, clock) && id !in letters.sent
    ensures forall a :: a in rows ==> a.id != id
  {
  }

  /** Only an organization's latest application can be undecided. */
  lemma OthersAreDecided(rows: seq<Application>, certificates: set<Key>, letters: Letters, hash: (Id, Code) -> string, clock: int, tenant: Id)
    requires Sound(rows, certificates, letters, hash, clock)
    ensures forall a :: a in rows && a.tenant == tenant && !Decided(a) ==> LatestIndex(rows, tenant) >= 0 && a == rows[LatestIndex(rows, tenant)]
  {
    LatestIsLast(rows, clock, tenant);
    forall a | a in rows && a.tenant == tenant && !Decided(a)
      ensures LatestIndex(rows, tenant) >= 0 && a == rows[LatestIndex(rows, tenant)]
    {
      hide *;
      var i :| 0 <= i < |rows| && rows[i] == a;
      UndecidedIsLatest(rows, tenant, i);
    }
  }

  lemma UndecidedIsLatest(rows: seq<Application>, tenant: Id, i: int)
    requires OneUndecided(rows) && 0 <= i < |rows| && rows[i].tenant == tenant && !Decided(rows[i])
    requires forall j :: LatestIndex(rows, tenant) < j < |rows| ==> rows[j].tenant != tenant
    ensures LatestIndex(rows, tenant) == i
  {
    hide LatestIndex, Decided;
  }

  lemma LatestTells(rows: seq<Application>, certificates: set<Key>, letters: Letters, hash: (Id, Code) -> string, clock: int, tenant: Id)
    requires Sound(rows, certificates, letters, hash, clock)
    ensures var k := LatestIndex(rows, tenant);
            && ((exists a :: a in rows && a.tenant == tenant && a.status == Pending) <==> k >= 0 && rows[k].status == Pending)
            && (forall a :: a in rows && a.tenant == tenant && !Decided(a) ==> k >= 0 && a == rows[k])
  {
    OthersAreDecided(rows, certificates, letters, hash, clock, tenant);
    hide Sound, LatestIndex;
    var k := LatestIndex(rows, tenant);
    if k >= 0 && rows[k].status == Pending {
      assert rows[k] in rows && rows[k].tenant == tenant;
    }
  }

  lemma AppendMembers(rows: seq<Application>, a: Application)
    ensures forall b :: b in rows + [a] <==> b in rows || b == a
  {
  }

  lemma AnswerIs(rows: seq<Application>, certificates: set<Key>, letters: Letters, hash: (Id, Code) -> string, now: int,
                 tenant: Id, id: Id, code: Code)
    requires Injective(hash) && Sound(rows, certificates, letters, hash, now)
    ensures var k := Find(rows, id);
            && (k >= 0 ==> ConfirmedRow(rows[k]) && id in letters.sent)
            && (k >= 0 && rows[k].status == Verifying ==>
                  && rows[k].codeHash.Some? && (hash(id, code) == rows[k].codeHash.value <==> code == letters.sent[id]))
  {
  }

  lemma WrongCodeKeeps(rows: seq<Application>, certificates: set<Key>, letters: Letters, hash: (Id, Code) -> string, now: int, k: int)
    requires 0 <= k < |rows| && Sound(rows, certificates, letters, hash, now)
    requires rows[k].status == Verifying && rows[k].attempts < CODE_ATTEMPTS
    ensures var after := rows[k := rows[k].(attempts := rows[k].attempts + 1)];
            Sound(after, certificates, letters, hash, now) && DecisionsStand(rows, after)
  {
    assert ConfirmedRow(rows[k]) && CodeMatches(rows[k], letters, hash);
    hide Ordered, OneUndecided, Certificates, DecisionsStand, Education.Confirmed, CodesMatch;
    MoveKeeps(rows, certificates, letters, hash, now, k, rows[k].(attempts := rows[k].attempts + 1), letters);
  }

  lemma RightCodeKeeps(rows: seq<Application>, certificates: set<Key>, letters: Letters, hash: (Id, Code) -> string, now: int, k: int, code: Code)
    requires 0 <= k < |rows| && Sound(rows, certificates, letters, hash, now) && rows[k].status == Verifying
    requires rows[k].attempts < CODE_ATTEMPTS && now <= rows[k].createdAt + CODE_SECONDS
    requires rows[k].id in letters.sent && code == letters.sent[rows[k].id]
    ensures var after := rows[k := Waiting(rows[k], now)];
            Sound(after, certificates, letters.(typed := letters.typed[rows[k].id := code]), hash, now) && DecisionsStand(rows, after)
  {
    assert ConfirmedRow(rows[k]) && CodeMatches(rows[k], letters, hash) && rows[k].createdAt <= now;
    hide Ordered, OneUndecided, Certificates, DecisionsStand, Education.Confirmed, CodesMatch;
    MoveKeeps(rows, certificates, letters, hash, now, k, Waiting(rows[k], now), letters.(typed := letters.typed[rows[k].id := code]));
  }

  lemma DecisionKeeps(rows: seq<Application>, certificates: set<Key>, letters: Letters, hash: (Id, Code) -> string, now: int, k: int, approve: bool)
    requires 0 <= k < |rows| && Sound(rows, certificates, letters, hash, now) && rows[k].status == Pending
    ensures var after := rows[k := Ruled(rows[k], approve, now)];
            Sound(after, certificates, letters, hash, now) && DecisionsStand(rows, after)
  {
    assert ConfirmedRow(rows[k]) && CodeMatches(rows[k], letters, hash);
    hide Ordered, OneUndecided, Certificates, DecisionsStand, Education.Confirmed, CodesMatch;
    MoveKeeps(rows, certificates, letters, hash, now, k, Ruled(rows[k], approve, now), letters);
  }

  lemma DropIsRemoval(rows: seq<Application>, k: int)
    requires 0 <= k < |rows| && DistinctIds(rows)
    ensures rows[k] !in Drop(rows, k)
    ensures forall b :: b in Drop(rows, k) ==> b in rows
    ensures forall b :: b in rows && b != rows[k] ==> b in Drop(rows, k)
  {
  }

  lemma ReplaceParts(rows: seq<Application>, k: int)
    requires 0 <= k < |rows| && DistinctIds(rows) && rows[k].status == Rejected && rows[k].certificate.Some?
    ensures Parted(rows, rows[k := rows[k].(certificate := None)], rows[k])
  {
    var a, after := rows[k], rows[k := rows[k].(certificate := None)];
    forall b | b in after
      ensures b != a && (b in rows || b == a.(certificate := None))
    {
      var i :| 0 <= i < |after| && after[i] == b;
      assert i != k ==> b == rows[i] && rows[i].id != rows[k].id;
    }
    forall b | b in rows && b != a
      ensures b in after
    {
      var i :| 0 <= i < |rows| && rows[i] == b;
      assert after[i] == b;
    }
  }

  lemma SweptAt(before: seq<Application>, rows: seq<Application>, picked: seq<Application>, n: int, now: int)
    requires 0 <= n < |picked| && Swept(before, rows, picked, n, now)
    requires forall a :: a in picked ==> Purgeable(a, now)
    ensures picked[n] in rows && (picked[n].status == Verifying || (picked[n].status == Rejected && picked[n].certificate.Some?))
  {
    assert picked[n] in picked;
  }

  lemma SweptNext(before: seq<Application>, rows: seq<Application>, after: seq<Application>, picked: seq<Application>, n: int, now: int)
    requires 0 <= n < |picked| && Swept(before, rows, picked, n, now) && Parted(rows, after, picked[n])
    requires forall a :: a in picked ==> a in before && Purgeable(a, now)
    requires DistinctIds(picked)
    ensures Swept(before, after, picked, n + 1, now)
  {
  }
}
