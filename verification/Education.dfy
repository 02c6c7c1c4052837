/** Education applications of src/education.ts: apply, confirm the emailed code, be decided, be purged;
    and the certificates kept beside the rows. */
module Education {
  import opened Wrappers

  type Id = string
  type Code = string

  const CODE_SECONDS := 1800
  const CODE_ATTEMPTS := 5
  const DAY := 86400
  const CERTIFICATE_SECONDS := 90 * 86400
  const PURGE_BATCH := 100

  datatype Status = Verifying | Pending | Approved | Rejected

  /** Where a certificate is stored: education/<tenant>/<id>. */
  datatype Key = Key(tenant: Id, id: Id)

  datatype Application = Application(
    id: Id, tenant: Id, codeHash: Option<string>, codeExpires: Option<int>, attempts: int,
    verifiedAt: Option<int>, certificate: Option<Key>, status: Status, createdAt: int, decidedAt: Option<int>)

  datatype Refusal = NotFound | AlreadyConfirmed | TooManyTries | CodeExpired | WrongCode

  predicate Decided(a: Application) { a.status == Approved || a.status == Rejected }

  predicate SixDigits(s: string) { |s| == 6 && forall i :: 0 <= i < 6 ==> '0' <= s[i] <= '9' }

  // ------------------------------------------------------------ looking rows up

  /** SELECT ... ORDER BY created_at DESC, rowid DESC LIMIT 1: the index of the latest, or -1. */
  function LatestIndex(rows: seq<Application>, tenant: Id): (k: int)
    ensures -1 <= k < |rows|
    ensures k >= 0 ==> rows[k].tenant == tenant
    ensures k == -1 ==> forall i :: 0 <= i < |rows| ==> rows[i].tenant != tenant
  {
    if rows == [] then -1
    else
      var n := |rows| - 1;
      var k := LatestIndex(rows[..n], tenant);
      if rows[n].tenant == tenant && (k < 0 || rows[n].createdAt >= rows[k].createdAt) then n else k
  }

  /** The row of an id, or -1. */
  function Find(rows: seq<Application>, id: Id): (k: int)
    ensures -1 <= k < |rows|
    ensures k >= 0 ==> rows[k].id == id
    ensures k == -1 ==> forall i :: 0 <= i < |rows| ==> rows[i].id != id
  {
    if rows == [] then -1
    else if rows[|rows| - 1].id == id then |rows| - 1
    else Find(rows[..|rows| - 1], id)
  }

  // ------------------------------------------------------------ what every run keeps

  predicate Ordered(rows: seq<Application>, clock: int) {
    && (forall i, j :: 0 <= i < j < |rows| ==> rows[i].id != rows[j].id && rows[i].createdAt <= rows[j].createdAt)
    && (forall i :: 0 <= i < |rows| ==> rows[i].createdAt <= clock)
  }

  /** An organization's undecided application, if any, is its latest: there is at most one. */
  predicate OneUndecided(rows: seq<Application>) {
    forall i, j :: 0 <= i < j < |rows| && rows[i].tenant == rows[j].tenant ==> Decided(rows[i])
  }

  /** An application past its code had the code entered in time, after fewer than five wrong tries. */
  predicate ConfirmedRow(a: Application) {
    && 0 <= a.attempts <= 5
    && (a.status == Verifying ==> a.verifiedAt.None? && a.codeHash.Some? && a.codeExpires == Some(a.createdAt + 1800))
    && (a.status != Verifying ==>
          a.verifiedAt.Some? && a.createdAt <= a.verifiedAt.value <= a.createdAt + 1800 && a.attempts < 5)
    && (a.decidedAt.Some? <==> Decided(a))
  }

  predicate Confirmed(rows: seq<Application>) {
    forall i :: 0 <= i < |rows| ==> ConfirmedRow(rows[i])
  }

  predicate HoldsKey(rows: seq<Application>, key: Key) {
    exists i :: 0 <= i < |rows| && rows[i].certificate == Some(key)
  }

  /** Stored certificates and the rows that hold a key correspond one to one. */
  ghost predicate Certificates(rows: seq<Application>, certificates: set<Key>) {
    && (forall i :: 0 <= i < |rows| && rows[i].certificate.Some? ==> rows[i].certificate.value == Key(rows[i].tenant, rows[i].id))
    && (forall i :: 0 <= i < |rows| && rows[i].certificate.Some? ==> rows[i].certificate.value in certificates)
    && (forall key :: key in certificates ==> HoldsKey(rows, key))
    && (forall i :: 0 <= i < |rows| && rows[i].status != Rejected ==> rows[i].certificate.Some?)
  }

  /** What was sent and what was typed, by application: the codes emailed, and the codes that confirmed. */
  datatype Letters = Letters(sent: map<Id, Code>, typed: map<Id, Code>)

  /** A row still verifying holds the hash of the code that was sent; any other was confirmed with that code. */
  ghost predicate CodesMatch(rows: seq<Application>, letters: Letters, hash: (Id, Code) -> string) {
    forall i :: 0 <= i < |rows| ==> CodeMatches(rows[i], letters, hash)
  }

  ghost predicate CodeMatches(a: Application, letters: Letters, hash: (Id, Code) -> string) {
    && a.id in letters.sent
    && (a.status == Verifying ==> a.codeHash == Some(hash(a.id, letters.sent[a.id])))
    && (a.status != Verifying ==> a.id in letters.typed && letters.typed[a.id] == letters.sent[a.id])
  }

  /** Everything above at once. */
  ghost predicate Sound(rows: seq<Application>, certificates: set<Key>, letters: Letters, hash: (Id, Code) -> string, clock: int) {
    && Ordered(rows, clock) && OneUndecided(rows) && Confirmed(rows)
    && Certificates(rows, certificates) && CodesMatch(rows, letters, hash)
  }

  /** Decisions stand: a decided application stays, decided as it was and when it was. */
  ghost predicate DecisionsStand(before: seq<Application>, after: seq<Application>) {
    forall i :: 0 <= i < |before| && Decided(before[i]) ==> StandsIn(before[i], after)
  }

  predicate StandsIn(a: Application, rows: seq<Application>) {
    exists j :: 0 <= j < |rows| && rows[j].id == a.id && rows[j].status == a.status && rows[j].decidedAt == a.decidedAt
                && rows[j].verifiedAt == a.verifiedAt && rows[j].attempts == a.attempts
  }

  lemma DecisionsStandOn(a: seq<Application>, b: seq<Application>, c: seq<Application>)
    requires DecisionsStand(a, b) && DecisionsStand(b, c)
    ensures DecisionsStand(a, c)
  {
  }

  lemma LatestIsLast(rows: seq<Application>, clock: int, tenant: Id)
    requires Ordered(rows, clock)
    ensures forall i :: LatestIndex(rows, tenant) < i < |rows| ==> rows[i].tenant != tenant
    decreases |rows|
  {
  }

  // ------------------------------------------------------------ dropping a row

  function Drop(rows: seq<Application>, k: int): (after: seq<Application>)
    requires 0 <= k < |rows|
    ensures |after| == |rows| - 1
    ensures forall i :: 0 <= i < k ==> after[i] == rows[i]
    ensures forall i :: k <= i < |after| ==> after[i] == rows[i + 1]
  {
    rows[..k] + rows[k + 1..]
  }

  lemma DropKeepsOrder(rows: seq<Application>, clock: int, k: int)
    requires 0 <= k < |rows| && Ordered(rows, clock) && OneUndecided(rows)
    ensures Ordered(Drop(rows, k), clock) && OneUndecided(Drop(rows, k))
  {
  }

  lemma DropKeepsCertificates(rows: seq<Application>, certificates: set<Key>, clock: int, k: int)
    requires 0 <= k < |rows| && Ordered(rows, clock) && Certificates(rows, certificates) && rows[k].certificate.Some?
    ensures Certificates(Drop(rows, k), certificates - {rows[k].certificate.value})
  {
    hide Drop;
    var after := Drop(rows, k);
    var key := rows[k].certificate.value;
    forall other | other in certificates - {key}
      ensures HoldsKey(after, other)
    {
      assert HoldsKey(rows, other);
      var i :| 0 <= i < |rows| && rows[i].certificate == Some(other);
      assert after[if i < k then i else i - 1] == rows[i];
    }
    forall i | 0 <= i < |after|
      ensures after[i].certificate != Some(key)
    {
      var x := if i < k then i else i + 1;
      assert after[i] == rows[x] && rows[x].id != rows[k].id;
    }
  }

  lemma DropKeepsDecisions(rows: seq<Application>, k: int)
    requires 0 <= k < |rows| && !Decided(rows[k])
    ensures DecisionsStand(rows, Drop(rows, k))
  {
    hide Decided, Drop;
    forall i | 0 <= i < |rows| && Decided(rows[i])
      ensures StandsIn(rows[i], Drop(rows, k))
    {
      assert Drop(rows, k)[if i < k then i else i - 1] == rows[i];
    }
  }

  lemma DropKeepsRows(rows: seq<Application>, letters: Letters, hash: (Id, Code) -> string, k: int)
    requires 0 <= k < |rows| && Confirmed(rows) && CodesMatch(rows, letters, hash)
    ensures Confirmed(Drop(rows, k)) && CodesMatch(Drop(rows, k), letters, hash)
  {
  }

  /** Dropping an undecided application with its certificate keeps everything. */
  lemma DropKeeps(rows: seq<Application>, certificates: set<Key>, letters: Letters, hash: (Id, Code) -> string, clock: int, k: int)
    requires 0 <= k < |rows| && rows[k].status == Verifying
    requires Sound(rows, certificates, letters, hash, clock)
    ensures rows[k].certificate.Some?
    ensures Sound(Drop(rows, k), certificates - {rows[k].certificate.value}, letters, hash, clock)
    ensures DecisionsStand(rows, Drop(rows, k))
  {
    assert rows[k].certificate.Some?;
    DropKeepsOrder(rows, clock, k);
    DropKeepsCertificates(rows, certificates, clock, k);
    DropKeepsDecisions(rows, k);
    DropKeepsRows(rows, letters, hash, k);
    hide Drop, Ordered, OneUndecided, Confirmed, Certificates, DecisionsStand, CodesMatch;
  }

  // ------------------------------------------------------------ adding and changing a row

  /** A new application of an organization with nothing undecided keeps everything. */
  lemma AppendKeeps(rows: seq<Application>, certificates: set<Key>, letters: Letters, hash: (Id, Code) -> string, clock: int,
                    a: Application, code: Code)
    requires Sound(rows, certificates, letters, hash, clock) && clock <= a.createdAt
    requires forall i :: 0 <= i < |rows| ==> rows[i].id != a.id
    requires forall i :: 0 <= i < |rows| && rows[i].tenant == a.tenant ==> Decided(rows[i])
    requires a == Fresh(a.id, a.tenant, hash(a.id, code), a.createdAt)
    ensures Sound(rows + [a], certificates + {Key(a.tenant, a.id)}, letters.(sent := letters.sent[a.id := code]), hash, a.createdAt)
    ensures DecisionsStand(rows, rows + [a])
  {
    AppendKeepsCertificates(rows, certificates, a);
    AppendKeepsRows(rows, letters, hash, a, code);
    AppendKeepsOrder(rows, clock, a);
    hide Certificates, Confirmed, CodesMatch, Ordered, OneUndecided, DecisionsStand;
  }

  lemma AppendKeepsRows(rows: seq<Application>, letters: Letters, hash: (Id, Code) -> string, a: Application, code: Code)
    requires Confirmed(rows) && CodesMatch(rows, letters, hash)
    requires forall i :: 0 <= i < |rows| ==> rows[i].id != a.id
    requires a == Fresh(a.id, a.tenant, hash(a.id, code), a.createdAt)
    ensures Confirmed(rows + [a]) && CodesMatch(rows + [a], letters.(sent := letters.sent[a.id := code]), hash)
  {
  }

  lemma AppendKeepsOrder(rows: seq<Application>, clock: int, a: Application)
    requires Ordered(rows, clock) && OneUndecided(rows) && clock <= a.createdAt
    requires forall i :: 0 <= i < |rows| ==> rows[i].id != a.id
    requires forall i :: 0 <= i < |rows| && rows[i].tenant == a.tenant ==> Decided(rows[i])
    ensures Ordered(rows + [a], a.createdAt) && OneUndecided(rows + [a]) && DecisionsStand(rows, rows + [a])
  {
    hide Decided;
    var after := rows + [a];
    forall i | 0 <= i < |rows| && Decided(rows[i])
      ensures StandsIn(rows[i], after)
    {
      assert after[i] == rows[i];
    }
  }

  lemma AppendKeepsCertificates(rows: seq<Application>, certificates: set<Key>, a: Application)
    requires Certificates(rows, certificates) && a.certificate == Some(Key(a.tenant, a.id))
    ensures Certificates(rows + [a], certificates + {Key(a.tenant, a.id)})
  {
    var after := rows + [a];
    assert after[|rows|] == a;
    forall key | key in certificates
      ensures HoldsKey(after, key)
    {
      assert HoldsKey(rows, key);
      var i :| 0 <= i < |rows| && rows[i].certificate == Some(key);
      assert after[i] == rows[i];
    }
  }

  function Fresh(id: Id, tenant: Id, codeHash: string, now: int): Application {
    Application(id, tenant, Some(codeHash), Some(now + CODE_SECONDS), 0, None, Some(Key(tenant, id)), Verifying, now, None)
  }

  /** The changes a row may go through where it stands. */
  ghost predicate Moves(a: Application, b: Application) {
    && b.id == a.id && b.tenant == a.tenant && b.createdAt == a.createdAt
    && (Decided(a) ==> b.status == a.status && b.decidedAt == a.decidedAt && b.verifiedAt == a.verifiedAt && b.attempts == a.attempts)
  }

  lemma MoveKeepsOrder(rows: seq<Application>, clock: int, k: int, b: Application)
    requires 0 <= k < |rows| && Ordered(rows, clock) && OneUndecided(rows) && Moves(rows[k], b)
    ensures Ordered(rows[k := b], clock) && OneUndecided(rows[k := b]) && DecisionsStand(rows, rows[k := b])
  {
    var after := rows[k := b];
    forall i | 0 <= i < |rows| && Decided(rows[i])
      ensures StandsIn(rows[i], after)
    {
      assert after[i].id == rows[i].id;
    }
  }

  lemma MoveKeepsCertificates(rows: seq<Application>, certificates: set<Key>, k: int, b: Application)
    requires 0 <= k < |rows| && Certificates(rows, certificates) && b.id == rows[k].id && b.tenant == rows[k].tenant
    requires b.certificate == rows[k].certificate && (rows[k].status == Rejected ==> b.status == Rejected)
    ensures Certificates(rows[k := b], certificates)
  {
    var after := rows[k := b];
    forall key | key in certificates
      ensures HoldsKey(after, key)
    {
      assert HoldsKey(rows, key);
      var i :| 0 <= i < |rows| && rows[i].certificate == Some(key);
      assert after[i].certificate == Some(key);
    }
  }

  lemma ReleaseKeepsCertificates(rows: seq<Application>, certificates: set<Key>, clock: int, k: int)
    requires 0 <= k < |rows| && Ordered(rows, clock) && Certificates(rows, certificates)
    requires rows[k].certificate.Some? && rows[k].status == Rejected
    ensures Certificates(rows[k := rows[k].(certificate := None)], certificates - {rows[k].certificate.value})
  {
    var after := rows[k := rows[k].(certificate := None)];
    forall key | key in certificates - {rows[k].certificate.value}
      ensures HoldsKey(after, key)
    {
      assert HoldsKey(rows, key);
      var i :| 0 <= i < |rows| && rows[i].certificate == Some(key);
      assert after[i].certificate == Some(key);
    }
  }

  lemma MoveKeepsRows(rows: seq<Application>, letters: Letters, hash: (Id, Code) -> string, k: int, b: Application, later: Letters)
    requires 0 <= k < |rows| && Confirmed(rows) && CodesMatch(rows, letters, hash)
    requires forall i :: 0 <= i < |rows| && i != k ==> rows[i].id != b.id
    requires ConfirmedRow(b) && CodeMatches(b, later, hash)
    requires later.sent == letters.sent && forall id :: id in letters.typed && id != b.id ==> id in later.typed && later.typed[id] == letters.typed[id]
    ensures Confirmed(rows[k := b]) && CodesMatch(rows[k := b], later, hash)
  {
  }

  /** A change of one row that keeps its certificate keeps everything. */
  lemma MoveKeeps(rows: seq<Application>, certificates: set<Key>, letters: Letters, hash: (Id, Code) -> string, clock: int,
                  k: int, b: Application, later: Letters)
    requires 0 <= k < |rows| && Sound(rows, certificates, letters, hash, clock) && Moves(rows[k], b)
    requires b.certificate == rows[k].certificate && (rows[k].status == Rejected ==> b.status == Rejected)
    requires ConfirmedRow(b) && CodeMatches(b, later, hash)
    requires later.sent == letters.sent && forall id :: id in letters.typed && id != b.id ==> id in later.typed && later.typed[id] == letters.typed[id]
    ensures Sound(rows[k := b], certificates, later, hash, clock) && DecisionsStand(rows, rows[k := b])
  {
    hide ConfirmedRow, CodeMatches;
    MoveKeepsOrder(rows, clock, k, b);
    MoveKeepsCertificates(rows, certificates, k, b);
    assert forall i :: 0 <= i < |rows| && i != k ==> rows[i].id != b.id;
    hide Ordered, OneUndecided, Confirmed, Certificates, CodesMatch, DecisionsStand;
    MoveKeepsRows(rows, letters, hash, k, b, later);
  }

  /** Letting go of a rejected application's certificate keeps everything. */
  lemma ReleaseKeeps(rows: seq<Application>, certificates: set<Key>, letters: Letters, hash: (Id, Code) -> string, clock: int, k: int)
    requires 0 <= k < |rows| && Sound(rows, certificates, letters, hash, clock)
    requires rows[k].certificate.Some? && rows[k].status == Rejected
    ensures var after := rows[k := rows[k].(certificate := None)];
            Sound(after, certificates - {rows[k].certificate.value}, letters, hash, clock) && DecisionsStand(rows, after)
  {
    var b := rows[k].(certificate := None);
    ReleaseKeepsCertificates(rows, certificates, clock, k);
    assert ConfirmedRow(b) && CodeMatches(b, letters, hash) by {
      assert ConfirmedRow(rows[k]) && CodeMatches(rows[k], letters, hash);
    }
    hide ConfirmedRow, CodeMatches;
    MoveKeepsOrder(rows, clock, k, b);
    assert forall i :: 0 <= i < |rows| && i != k ==> rows[i].id != b.id;
    hide Ordered, OneUndecided, Confirmed, Certificates, CodesMatch, DecisionsStand;
    MoveKeepsRows(rows, letters, hash, k, b, letters);
  }
}
