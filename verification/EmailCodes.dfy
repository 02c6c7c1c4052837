/** One-time email codes of src/conversations.ts: the row of one address, against a
    specification over everything that has happened to the address. */
module EmailCodes {
  import opened Wrappers

  type Code = string

  const TTL_SECONDS := 600
  const MAX_ATTEMPTS := 5

  /** A row of email_codes; the code is stored as its HMAC under a secret. */
  datatype Row = Row(codeHash: string, attempts: int, expiresAt: int)

  datatype Answer = Right | Wrong | Expired

  /** The HMAC of one address's codes: assumed to have no collisions. */
  ghost predicate Injective(hash: Code -> string) { forall a, b :: hash(a) == hash(b) ==> a == b }

  // ------------------------------------------------------------ one row over its events

  function Issued(hash: Code -> string, code: Code, now: int): Row { Row(hash(code), 0, now + TTL_SECONDS) }

  function Checked(hash: Code -> string, row: Option<Row>, guess: Code, now: int): Answer {
    if row.None? || row.value.expiresAt <= now || row.value.attempts >= MAX_ATTEMPTS then Expired
    else if hash(guess) == row.value.codeHash then Right
    else Wrong
  }

  function AfterCheck(hash: Code -> string, row: Option<Row>, guess: Code, now: int): Option<Row> {
    if Checked(hash, row, guess, now) != Wrong then row
    else if row.value.attempts + 1 >= MAX_ATTEMPTS then None
    else Some(row.value.(attempts := row.value.attempts + 1))
  }

  function AfterPurge(row: Option<Row>, now: int): Option<Row> {
    if row.Some? && row.value.expiresAt <= now then None else row
  }

  datatype Event = Issue(code: Code, at: int) | Check(guess: Code, at: int) | Discard(at: int) | Purge(at: int)

  /** The row of an address after its events. */
  function Stored(hash: Code -> string, h: seq<Event>): Option<Row> {
    if h == [] then None
    else
      var before := Stored(hash, h[..|h| - 1]);
      match h[|h| - 1]
      case Issue(code, at) => Some(Issued(hash, code, at))
      case Check(guess, at) => AfterCheck(hash, before, guess, at)
      case Discard(_) => None
      case Purge(at) => AfterPurge(before, at)
  }

  // ------------------------------------------------------------ the specification

  datatype Latest = NoCode | Code(code: Code, at: int)

  /** The code in force: the latest issued, unless it was discarded since. */
  function InForce(h: seq<Event>): Latest {
    if h == [] then NoCode
    else
      match h[|h| - 1]
      case Issue(code, at) => Code(code, at)
      case Discard(_) => NoCode
      case _ => InForce(h[..|h| - 1])
  }

  /** The wrong answers given since it was issued. */
  function Wrongs(h: seq<Event>): nat
    decreases |h|, 0
  {
    if h == [] then 0
    else
      match h[|h| - 1]
      case Issue(_, _) => 0
      case Discard(_) => 0
      case Check(guess, at) => Wrongs(h[..|h| - 1]) + (if Spec(h[..|h| - 1], guess, at) == Wrong then 1 else 0)
      case Purge(_) => Wrongs(h[..|h| - 1])
  }

  /** What a guess deserves after these events. */
  function Spec(h: seq<Event>, guess: Code, now: int): Answer
    decreases |h|, 1
  {
    var c := InForce(h);
    if c.NoCode? || now >= c.at + TTL_SECONDS || Wrongs(h) >= MAX_ATTEMPTS then Expired
    else if guess == c.code then Right
    else Wrong
  }

  predicate ClockGoesOn(h: seq<Event>) { forall i, j :: 0 <= i < j < |h| ==> h[i].at <= h[j].at }

  // ------------------------------------------------------------ agreement

  lemma {:induction false} WrongsAreFew(h: seq<Event>)
    ensures Wrongs(h) <= MAX_ATTEMPTS
    decreases |h|
  {
    if h != [] {
      WrongsAreFew(h[..|h| - 1]);
    }
  }

  /** The row says what the history says, or is gone when no guess can be right any more. */
  ghost predicate Agrees(hash: Code -> string, row: Option<Row>, h: seq<Event>, now: int) {
    var c := InForce(h);
    if row.Some? then
      c.Code? && row.value == Row(hash(c.code), Wrongs(h), c.at + TTL_SECONDS) && Wrongs(h) < MAX_ATTEMPTS
    else c.NoCode? || Wrongs(h) >= MAX_ATTEMPTS || now >= c.at + TTL_SECONDS
  }

  lemma {:induction false} StoredAgrees(hash: Code -> string, h: seq<Event>, now: int)
    requires Injective(hash) && ClockGoesOn(h) && (h != [] ==> h[|h| - 1].at <= now)
    ensures Agrees(hash, Stored(hash, h), h, now)
    decreases |h|
  {
    if h != [] {
      var last := h[|h| - 1];
      StoredAgrees(hash, h[..|h| - 1], last.at);
    }
  }

  /** The specification in numbers: right for exactly the code in force, until ten minutes after it was issued and the
      fifth wrong guess; wrong for any other guess until then; expired otherwise. */
  lemma SpecIs(h: seq<Event>, guess: Code, now: int)
    ensures Spec(h, guess, now) == Right <==> exists at :: InForce(h) == Code(guess, at) && now < at + 600 && Wrongs(h) < 5
    ensures Spec(h, guess, now) == Wrong <==>
            exists code, at :: InForce(h) == Code(code, at) && code != guess && now < at + 600 && Wrongs(h) < 5
  {
    hide InForce, Wrongs;
    var c := InForce(h);
    if c.Code? {
      assert InForce(h) == Code(c.code, c.at);
    }
  }

  /** For every history on a clock that does not go back, the stored row answers a guess as
      the specification does: right exactly when it is the code in force, unexpired, with
      fewer than five wrong guesses since. */
  lemma CheckerMeetsSpec(hash: Code -> string, h: seq<Event>, guess: Code, now: int)
    requires Injective(hash) && ClockGoesOn(h + [Check(guess, now)])
    ensures Checked(hash, Stored(hash, h), guess, now) == Spec(h, guess, now)
  {
    var all := h + [Check(guess, now)];
    assert forall i :: 0 <= i < |h| ==> all[i] == h[i];
    assert all[|h|] == Check(guess, now);
    StoredAgrees(hash, h, now);
  }

  /** How often the stored row was answered wrong since the latest code was issued. */
  function WrongAnswers(hash: Code -> string, h: seq<Event>): nat {
    if h == [] then 0
    else
      var init := h[..|h| - 1];
      match h[|h| - 1]
      case Issue(_, _) => 0
      case Check(guess, at) => WrongAnswers(hash, init) + (if Checked(hash, Stored(hash, init), guess, at) == Wrong then 1 else 0)
      case _ => WrongAnswers(hash, init)
  }

  /** The store answers wrong at most five times per issued code, and while the code is in force exactly as
      often as the history counts. */
  lemma {:induction false} AtMostFiveWrong(hash: Code -> string, h: seq<Event>)
    requires Injective(hash) && ClockGoesOn(h)
    ensures WrongAnswers(hash, h) <= MAX_ATTEMPTS
    ensures InForce(h).Code? ==> WrongAnswers(hash, h) == Wrongs(h)
    decreases |h|
  {
    hide Stored, Checked;
    if h != [] {
      var init, last := h[..|h| - 1], h[|h| - 1];
      AtMostFiveWrong(hash, init);
      WrongsAreFew(h);
      if last.Check? {
        assert init + [last] == h;
        CheckerMeetsSpec(hash, init, last.guess, last.at);
      }
    }
  }

  function WithoutPurges(h: seq<Event>): seq<Event> {
    if h == [] then []
    else WithoutPurges(h[..|h| - 1]) + (if h[|h| - 1].Purge? then [] else [h[|h| - 1]])
  }

  lemma {:induction false} SpecIgnoresPurges(h: seq<Event>)
    ensures InForce(WithoutPurges(h)) == InForce(h) && Wrongs(WithoutPurges(h)) == Wrongs(h)
    decreases |h|
  {
    if h != [] {
      var init, last := h[..|h| - 1], h[|h| - 1];
      var w := WithoutPurges(init);
      SpecIgnoresPurges(init);
      if last.Purge? {
        assert WithoutPurges(h) == w;
      } else {
        assert WithoutPurges(h) == w + [last];
        assert (w + [last])[..|w|] == w;
      }
    }
  }

  lemma {:induction false} WithoutPurgesKeepsClock(h: seq<Event>)
    requires ClockGoesOn(h)
    ensures ClockGoesOn(WithoutPurges(h))
    ensures forall i :: 0 <= i < |WithoutPurges(h)| ==> WithoutPurges(h)[i] in h
    decreases |h|
  {
    if h != [] {
      WithoutPurgesKeepsClock(h[..|h| - 1]);
    }
  }

  /** The hourly purge is unobservable: leaving every purge out changes no answer. */
  lemma PurgeIsUnobservable(hash: Code -> string, h: seq<Event>, guess: Code, now: int)
    requires Injective(hash) && ClockGoesOn(h + [Check(guess, now)])
    ensures Checked(hash, Stored(hash, WithoutPurges(h)), guess, now) == Checked(hash, Stored(hash, h), guess, now)
  {
    var all := h + [Check(guess, now)];
    assert forall i :: 0 <= i < |h| ==> all[i] == h[i];
    assert all[|h|] == Check(guess, now);
    WithoutPurgesKeepsClock(h);
    SpecIgnoresPurges(h);
    CheckerMeetsSpec(hash, h, guess, now);
    CheckerMeetsSpec(hash, WithoutPurges(h), guess, now);
  }
}
