/** The email_codes table of src/conversations.ts in place: whatever is called, in whatever order, every code is
    answered as the calls so far about its address deserve. */
module EmailCodeStore {
  import opened Wrappers
  import opened JsCharacters
  import opened EmailCodes

  datatype Call =
    | DoIssue(id: string, code: Code, at: int)
    | DoCheck(id: string, guess: string, at: int)
    | DoDiscard(id: string, at: int)
    | DoPurge(at: int)

  /** What a call means to an address; the guess counts without the white space around it. */
  function EventsOf(call: Call, id: string): seq<Event> {
    match call
    case DoIssue(i, code, at) => if i == id then [Issue(code, at)] else []
    case DoCheck(i, guess, at) => if i == id then [Check(Trim(guess), at)] else []
    case DoDiscard(i, at) => if i == id then [Discard(at)] else []
    case DoPurge(at) => [Purge(at)]
  }

  /** What has happened to an address. */
  function History(calls: seq<Call>, id: string): seq<Event> {
    if calls == [] then [] else History(calls[..|calls| - 1], id) + EventsOf(calls[|calls| - 1], id)
  }

  /** What a call is to be answered after others. */
  function Deserved(calls: seq<Call>, call: Call): Option<Answer> {
    if call.DoCheck? then Some(Spec(History(calls, call.id), Trim(call.guess), call.at)) else None
  }

  /** The code hash of one address: HMAC of purpose, address and code. */
  function HashOf(hash: (string, Code) -> string, id: string): Code -> string { c => hash(id, c) }

  ghost predicate SoundHash(hash: (string, Code) -> string) { forall id :: Injective(HashOf(hash, id)) }

  /** A row is what the history of its address makes it. */
  ghost predicate RowIs(row: Option<Row>, hash: Code -> string, h: seq<Event>, clock: int) {
    row == Stored(hash, h) && ClockGoesOn(h) && (h != [] ==> h[|h| - 1].at <= clock)
  }

  function AfterEvent(hash: Code -> string, row: Option<Row>, e: Event): Option<Row> {
    match e
    case Issue(code, at) => Some(Issued(hash, code, at))
    case Check(guess, at) => AfterCheck(hash, row, guess, at)
    case Discard(_) => None
    case Purge(at) => AfterPurge(row, at)
  }

  lemma RowMoves(row: Option<Row>, hash: Code -> string, h: seq<Event>, clock: int, e: Event)
    requires RowIs(row, hash, h, clock) && clock <= e.at
    ensures RowIs(AfterEvent(hash, row, e), hash, h + [e], e.at)
  {
    hide Issued, AfterCheck, AfterPurge;
    var all := h + [e];
    assert all[..|h|] == h && all[|h|] == e;
    assert forall i :: 0 <= i < |h| ==> h[i].at <= clock;
  }

  /** The row is answered as its history deserves. */
  lemma RowAnswers(row: Option<Row>, hash: Code -> string, h: seq<Event>, clock: int, guess: Code, now: int)
    requires Injective(hash) && RowIs(row, hash, h, clock) && clock <= now
    ensures Checked(hash, row, guess, now) == Spec(h, guess, now)
  {
    hide Stored, Checked, Spec;
    var all := h + [Check(guess, now)];
    assert forall i :: 0 <= i < |h| ==> all[i] == h[i] && h[i].at <= clock;
    CheckerMeetsSpec(hash, h, guess, now);
  }

  lemma HistoryNext(calls: seq<Call>, call: Call, id: string)
    ensures History(calls + [call], id) == History(calls, id) + EventsOf(call, id)
  {
    hide EventsOf;
    assert (calls + [call])[..|calls|] == calls;
  }

  lemma RowWaits(row: Option<Row>, hash: Code -> string, h: seq<Event>, clock: int, now: int)
    requires RowIs(row, hash, h, clock) && clock <= now
    ensures RowIs(row, hash, h + [], now)
  {
    assert h + [] == h;
  }

  /** The code in force, typed with any white space around it, is right for ten minutes and until five wrong guesses. */
  lemma TypedCodeIsRight(calls: seq<Call>, id: string, code: Code, at: int, before: string, after: string, now: int)
    requires InForce(History(calls, id)) == Code(code, at) && now < at + 600 && Wrongs(History(calls, id)) < 5
    requires Blank(before) && Blank(after) && Trimmed(code)
    ensures Deserved(calls, DoCheck(id, before + code + after, now)) == Some(Right)
  {
    hide History, Trim, Blank, Trimmed, InForce, Wrongs;
    TrimIsText(before, code, after);
  }

  /** A code just issued is in force with nothing held against it. */
  lemma IssuedCodeIsInForce(calls: seq<Call>, id: string, code: Code, at: int)
    ensures var h := History(calls + [DoIssue(id, code, at)], id); InForce(h) == Code(code, at) && Wrongs(h) == 0
  {
    HistoryNext(calls, DoIssue(id, code, at), id);
  }

  class Store {
    const hash: (string, Code) -> string
    var rows: map<string, Row>
    /** Every call so far. */
    ghost var calls: seq<Call>
    ghost var clock: int

    constructor (hash: (string, Code) -> string)
      requires SoundHash(hash)
      ensures Valid() && rows == map[] && calls == [] && clock == 0
    {
      this.hash := hash;
      rows, calls, clock := map[], [], 0;
    }

    function Get(id: string): Option<Row>
      reads this
    {
      if id in rows then Some(rows[id]) else None
    }

    ghost predicate Valid()
      reads this
    {
      SoundHash(hash) && forall id :: RowIs(Get(id), HashOf(hash, id), History(calls, id), clock)
    }

    /** Note a call that has changed one row, or none. */
    ghost method Note(call: Call, before: map<string, Row>, id: string)
      requires SoundHash(hash) && clock <= call.at
      requires forall i :: RowIs(if i in before then Some(before[i]) else None, HashOf(hash, i), History(calls, i), clock)
      requires forall i :: i != id ==> Get(i) == (if i in before then Some(before[i]) else None) && EventsOf(call, i) == []
      requires |EventsOf(call, id)| == 1
      requires Get(id) == AfterEvent(HashOf(hash, id), if id in before then Some(before[id]) else None, EventsOf(call, id)[0])
      modifies this`calls, this`clock
      ensures Valid() && calls == old(calls) + [call] && clock == call.at
    {
      hide RowIs, AfterEvent, EventsOf, History, SoundHash;
      forall i
        ensures RowIs(Get(i), HashOf(hash, i), History(calls + [call], i), call.at)
      {
        HistoryNext(calls, call, i);
        var row := if i in before then Some(before[i]) else None;
        if i == id {
          EventIsAt(call, id);
          assert EventsOf(call, id) == [EventsOf(call, id)[0]];
          RowMoves(row, HashOf(hash, i), History(calls, i), clock, EventsOf(call, i)[0]);
        } else {
          RowWaits(row, HashOf(hash, i), History(calls, i), clock, call.at);
        }
      }
      calls, clock := calls + [call], call.at;
    }

    method IssueEmailCode(id: string, code: Code, now: int)
      requires Valid() && clock <= now
      modifies this
      ensures Valid() && calls == old(calls) + [DoIssue(id, code, now)] && clock == now
    {
      hide RowIs, History, SoundHash;
      rows := rows[id := Row(hash(id, code), 0, now + TTL_SECONDS)];
      Note(DoIssue(id, code, now), old(rows), id);
    }

    method DiscardEmailCode(id: string, ghost now: int)
      requires Valid() && clock <= now
      modifies this
      ensures Valid() && calls == old(calls) + [DoDiscard(id, now)] && clock == now
    {
      hide RowIs, History, SoundHash;
      rows := rows - {id};
      Note(DoDiscard(id, now), old(rows), id);
    }

    /** The answer is what everything that happened to the address deserves: right exactly for the code in
        force, unexpired, with fewer than five wrong guesses since it was issued. */
    method CheckEmailCode(id: string, code: string, now: int) returns (answer: Answer)
      requires Valid() && clock <= now
      modifies this
      ensures Valid() && calls == old(calls) + [DoCheck(id, code, now)] && clock == now
      ensures answer == Spec(History(old(calls), id), Trim(code), now)
    {
      hide RowIs, History, Spec, SoundHash, Trim;
      assert Injective(HashOf(hash, id)) by { HashIsSound(hash, id); }
      RowAnswers(Get(id), HashOf(hash, id), History(calls, id), clock, Trim(code), now);
      if id !in rows || rows[id].expiresAt <= now || rows[id].attempts >= MAX_ATTEMPTS {
        Note(DoCheck(id, code, now), rows, id);
        return Expired;
      }
      var row := rows[id];
      if hash(id, Trim(code)) == row.codeHash {
        Note(DoCheck(id, code, now), rows, id);
        return Right;
      }
      if row.attempts + 1 >= MAX_ATTEMPTS {
        rows := rows - {id};
      } else {
        rows := rows[id := rows[id].(attempts := rows[id].attempts + 1)];
      }
      Note(DoCheck(id, code, now), old(rows), id);
      answer := Wrong;
    }

    method PurgeExpiredEmailCodes(now: int)
      requires Valid() && clock <= now
      modifies this
      ensures Valid() && calls == old(calls) + [DoPurge(now)] && clock == now
      ensures forall id :: Get(id) == if old(Get(id)).Some? && old(Get(id)).value.expiresAt <= now then None else old(Get(id))
    {
      hide RowIs, History, SoundHash;
      rows := map id | id in rows && !(rows[id].expiresAt <= now) :: rows[id];
      forall i
        ensures RowIs(Get(i), HashOf(hash, i), History(calls + [DoPurge(now)], i), now)
      {
        HistoryNext(calls, DoPurge(now), i);
        RowMoves(old(Get(i)), HashOf(hash, i), History(calls, i), clock, Purge(now));
      }
      calls, clock := calls + [DoPurge(now)], now;
    }

    method Do(call: Call) returns (answer: Option<Answer>)
      requires Valid() && clock <= call.at
      modifies this
      ensures Valid() && calls == old(calls) + [call] && clock == call.at
      ensures answer == Deserved(old(calls), call)
    {
      hide RowIs, History, Spec, SoundHash;
      answer := None;
      match call
      case DoIssue(id, code, at) => IssueEmailCode(id, code, at);
      case DoCheck(id, guess, at) =>
        var given := CheckEmailCode(id, guess, at);
        answer := Some(given);
      case DoDiscard(id, at) => DiscardEmailCode(id, at);
      case DoPurge(at) => PurgeExpiredEmailCodes(at);
    }

    /** Over every run of calls, in order of time, each is answered as it deserves after the ones before it. */
    method Replay(run: seq<Call>) returns (answers: seq<Option<Answer>>)
      requires Valid() && forall i :: 0 <= i < |run| ==> clock <= run[i].at
      requires forall i, j :: 0 <= i < j < |run| ==> run[i].at <= run[j].at
      modifies this
      ensures Valid() && calls == old(calls) + run && |answers| == |run|
      ensures forall i :: 0 <= i < |run| ==> answers[i] == Deserved(old(calls) + run[..i], run[i])
    {
      hide RowIs, History, Deserved, SoundHash;
      answers := [];
      while |answers| < |run|
        invariant |answers| <= |run| && Valid() && calls == old(calls) + run[..|answers|]
        invariant forall i :: |answers| <= i < |run| ==> clock <= run[i].at
        invariant forall i :: 0 <= i < |answers| ==> answers[i] == Deserved(old(calls) + run[..i], run[i])
      {
        var answer := Do(run[|answers|]);
        assert run[..|answers| + 1] == run[..|answers|] + [run[|answers|]];
        answers := answers + [answer];
      }
      assert run[..|answers|] == run;
    }
  }

  lemma EventIsAt(call: Call, id: string)
    requires |EventsOf(call, id)| == 1
    ensures EventsOf(call, id)[0].at == call.at
  {
  }

  lemma HashIsSound(hash: (string, Code) -> string, id: string)
    requires SoundHash(hash)
    ensures Injective(HashOf(hash, id))
  {
  }
}
