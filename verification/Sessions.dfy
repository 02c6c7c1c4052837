/** The session store of src/db.ts.  Rows are kept under the hash of the browser's token, except
    those from before the migration, which are kept under the token itself until they are
    rewritten.  The store is proved to be a plain map from token to session. */
module Sessions {
  import opened Wrappers

  type Token = string

  datatype Session = Session(user: string, tenant: Option<string>, role: string, expires: int)

  datatype Row = Row(session: Session, hashed: bool)

  /** SHA-256 under a label: assumed to have no collisions. */
  ghost predicate Injective(hash: string -> string) {
    forall a, b :: hash(a) == hash(b) ==> a == b
  }

  /** No token is the hash of one: assumed of random tokens. */
  ghost predicate Apart(hash: string -> string, tokens: set<Token>) {
    forall t, u :: t in tokens && u in tokens ==> t != hash(u)
  }

  // ------------------------------------------------------------ what the table stands for

  /** The key of a session's row. */
  function Place(hash: string -> string, legacy: set<Token>, t: Token): string {
    if t in legacy then t else hash(t)
  }

  /** The rows are those of `live`, the ones of `legacy` not hashed yet. */
  ghost predicate Represents(hash: string -> string, rows: map<string, Row>, live: map<Token, Session>, legacy: set<Token>) {
    && Injective(hash) && Apart(hash, live.Keys) && legacy <= live.Keys
    && rows.Keys == (set t | t in live :: Place(hash, legacy, t))
    && (forall t :: t in live ==> rows[Place(hash, legacy, t)] == Row(live[t], t !in legacy))
  }

  /** token = hash AND hashed = 1 */
  predicate MatchesHashed(rows: map<string, Row>, key: string) { key in rows && rows[key].hashed }

  /** token = token AND hashed = 0 */
  predicate MatchesLegacy(rows: map<string, Row>, token: Token) { token in rows && !rows[token].hashed }

  lemma Matches(hash: string -> string, rows: map<string, Row>, live: map<Token, Session>, legacy: set<Token>, token: Token)
    requires Represents(hash, rows, live, legacy)
    ensures MatchesHashed(rows, hash(token)) <==> token in live && token !in legacy
    ensures MatchesLegacy(rows, token) <==> token in legacy
    ensures token in live ==> Place(hash, legacy, token) in rows
  {
    if hash(token) in rows {
      var t :| t in live && Place(hash, legacy, t) == hash(token);
    }
    if token in rows {
      var t :| t in live && Place(hash, legacy, t) == token;
    }
    if token in live {
      assert Place(hash, legacy, token) in rows.Keys;
    }
  }

  lemma PlacesDiffer(hash: string -> string, live: map<Token, Session>, legacy: set<Token>, t: Token, u: Token)
    requires Injective(hash) && Apart(hash, live.Keys) && t in live && u in live && t != u
    ensures Place(hash, legacy, t) != Place(hash, legacy, u)
  {
  }

  /** A stored key is not itself accepted as a token. */
  lemma StoredKeyIsNoToken(hash: string -> string, rows: map<string, Row>, live: map<Token, Session>, legacy: set<Token>, key: string)
    requires Represents(hash, rows, live, legacy) && MatchesHashed(rows, key)
    ensures !MatchesHashed(rows, hash(key)) && !MatchesLegacy(rows, key)
  {
    Matches(hash, rows, live, legacy, key);
    var t :| t in live && Place(hash, legacy, t) == key;
  }

  // ------------------------------------------------------------ the statements

  /** UPDATE sessions SET token = hash, hashed = 1 WHERE token = ? AND hashed = 0 */
  function Rehash(hash: string -> string, rows: map<string, Row>, token: Token): map<string, Row> {
    if MatchesLegacy(rows, token) then (rows - {token})[hash(token) := rows[token].(hashed := true)] else rows
  }

  /** Rewriting a row changes no session, whether or not it is still there to rewrite. */
  lemma RehashIsInvisible(hash: string -> string, rows: map<string, Row>, live: map<Token, Session>, legacy: set<Token>, token: Token)
    requires Represents(hash, rows, live, legacy)
    ensures Represents(hash, Rehash(hash, rows, token), live, legacy - {token})
  {
    Matches(hash, rows, live, legacy, token);
    if token in legacy {
      var rows', legacy' := Rehash(hash, rows, token), legacy - {token};
      forall t | t in live
        ensures Place(hash, legacy', t) in rows' && rows'[Place(hash, legacy', t)] == Row(live[t], t !in legacy')
      {
        assert Place(hash, legacy, t) in rows.Keys;
        if t != token {
          PlacesDiffer(hash, live, legacy, t, token);
          PlacesDiffer(hash, live, legacy', t, token);
        }
      }
      forall k | k in rows'
        ensures exists t :: t in live && Place(hash, legacy', t) == k
      {
        if k == hash(token) {
          assert Place(hash, legacy', token) == k;
        } else {
          var t :| t in live && Place(hash, legacy, t) == k;
          assert Place(hash, legacy', t) == k;
        }
      }
      assert rows'.Keys == (set t | t in live :: Place(hash, legacy', t));
    } else {
      assert legacy - {token} == legacy;
    }
  }

  lemma InsertAdds(hash: string -> string, rows: map<string, Row>, live: map<Token, Session>, legacy: set<Token>, token: Token, s: Session)
    requires Represents(hash, rows, live, legacy)
    requires token !in live && Apart(hash, live.Keys + {token})
    ensures hash(token) !in rows
    ensures Represents(hash, rows[hash(token) := Row(s, true)], live[token := s], legacy)
  {
    var rows', live' := rows[hash(token) := Row(s, true)], live[token := s];
    assert live'.Keys == live.Keys + {token};
    forall t | t in live
      ensures Place(hash, legacy, t) in rows && Place(hash, legacy, t) != hash(token)
    {
      assert Place(hash, legacy, t) in rows.Keys;
    }
    forall k | k in rows'
      ensures exists t :: t in live' && Place(hash, legacy, t) == k
    {
      if k == hash(token) {
        assert Place(hash, legacy, token) == k;
      } else {
        var t :| t in live && Place(hash, legacy, t) == k;
        assert t in live';
      }
    }
    assert rows'.Keys == (set t | t in live' :: Place(hash, legacy, t));
  }

  function Restrict<K, V>(m: map<K, V>, keep: set<K>): map<K, V> { map k | k in m && k in keep :: m[k] }

  /** A DELETE that takes the rows of some sessions takes those sessions. */
  lemma DeleteRemoves(hash: string -> string, rows: map<string, Row>, live: map<Token, Session>, legacy: set<Token>,
                      rows': map<string, Row>, keep: set<Token>)
    requires Represents(hash, rows, live, legacy)
    requires rows'.Keys <= rows.Keys && forall k :: k in rows' ==> rows'[k] == rows[k]
    requires forall t :: t in live ==> (Place(hash, legacy, t) in rows' <==> t in keep)
    ensures Represents(hash, rows', Restrict(live, keep), legacy * keep)
  {
    var live', legacy' := Restrict(live, keep), legacy * keep;
    assert forall t :: t in live' <==> t in live && t in keep;
    assert forall t :: t in live' ==> Place(hash, legacy', t) == Place(hash, legacy, t);
    hide Place;
    forall k | k in rows'
      ensures exists t :: t in live' && Place(hash, legacy', t) == k
    {
      var t :| t in live && Place(hash, legacy, t) == k;
      assert t in live';
    }
    assert rows'.Keys == (set t | t in live' :: Place(hash, legacy', t));
  }

  // ------------------------------------------------------------ the plain map

  /** The operations of the store, on a map from token to session. */
  datatype Op =
    | Create(token: Token, session: Session)
    | Get(token: Token, now: int)
    | Delete(token: Token)
    | DeleteForUser(user: string, keep: Option<Token>)
    | DeleteExpired(now: int, ofUser: Option<string>)
    | HashLegacy(limit: nat)

  function PlainGet(m: map<Token, Session>, token: Token, now: int): Option<Session> {
    if token in m && m[token].expires > now then Some(m[token]) else None
  }

  function PlainDeleteForUser(m: map<Token, Session>, user: string, keep: Option<Token>): map<Token, Session> {
    map t | t in m && (m[t].user != user || keep == Some(t)) :: m[t]
  }

  function PlainDeleteExpired(m: map<Token, Session>, now: int, ofUser: Option<string>): map<Token, Session> {
    map t | t in m && (m[t].expires > now || (ofUser.Some? && m[t].user != ofUser.value)) :: m[t]
  }

  /** A session answers until its expiry and not from then on. */
  lemma SessionsEnd(m: map<Token, Session>, token: Token, now: int)
    requires token in m
    ensures PlainGet(m, token, now) == if now < m[token].expires then Some(m[token]) else None
  {
  }

  /** Deleting what has expired is invisible from then on, to every token. */
  lemma ExpiryIsInvisible(m: map<Token, Session>, now: int, ofUser: Option<string>, token: Token, later: int)
    requires now <= later
    ensures PlainGet(PlainDeleteExpired(m, now, ofUser), token, later) == PlainGet(m, token, later)
  {
  }

  /** And it leaves nothing expired, of the user or of anyone. */
  lemma NothingExpiredIsLeft(m: map<Token, Session>, now: int, ofUser: Option<string>, token: Token)
    requires token in PlainDeleteExpired(m, now, ofUser)
    ensures token in m && PlainDeleteExpired(m, now, ofUser)[token] == m[token]
    ensures now < m[token].expires || (ofUser.Some? && m[token].user != ofUser.value)
  {
  }

  /** Once a user's sessions are deleted, none of the user's tokens answers but the kept one, and every other does as before. */
  lemma SignedOutEverywhere(m: map<Token, Session>, user: string, keep: Option<Token>, token: Token, now: int)
    ensures PlainGet(PlainDeleteForUser(m, user, keep), token, now)
         == if token in m && m[token].user == user && keep != Some(token) then None else PlainGet(m, token, now)
  {
  }

  function PlainStep(m: map<Token, Session>, op: Op): map<Token, Session> {
    match op
    case Create(token, session) => m[token := session]
    case Get(_, _) => m
    case Delete(token) => m - {token}
    case DeleteForUser(user, keep) => PlainDeleteForUser(m, user, keep)
    case DeleteExpired(now, ofUser) => PlainDeleteExpired(m, now, ofUser)
    case HashLegacy(_) => m
  }

  /** A token answers with the session it was created with, until deleted, and no other token is touched. */
  lemma CreatedAnswersUntilDeleted(m: map<Token, Session>, token: Token, session: Session, other: Token, now: int)
    ensures var created := PlainStep(m, Create(token, session));
            && PlainGet(created, token, now) == (if now < session.expires then Some(session) else None)
            && PlainGet(PlainStep(created, Delete(token)), token, now) == None
            && (other != token ==> PlainGet(created, other, now) == PlainGet(m, other, now)
                                   && PlainGet(PlainStep(m, Delete(token)), other, now) == PlainGet(m, other, now))
            && PlainStep(m, Get(token, now)) == m && (forall limit :: PlainStep(m, HashLegacy(limit)) == m)
  {
  }

  function PlainRun(m: map<Token, Session>, ops: seq<Op>): map<Token, Session> {
    if ops == [] then m else PlainStep(PlainRun(m, ops[..|ops| - 1]), ops[|ops| - 1])
  }

  function PlainAnswer(m: map<Token, Session>, op: Op): Option<Session> {
    if op.Get? then PlainGet(m, op.token, op.now) else None
  }

  /** Created tokens are new and unrelated to the ones in use. */
  ghost predicate FreshTokens(hash: string -> string, m: map<Token, Session>, ops: seq<Op>) {
    forall i :: 0 <= i < |ops| && ops[i].Create? ==> Fresh(hash, PlainRun(m, ops[..i]), ops[i].token)
  }

  ghost predicate Fresh(hash: string -> string, m: map<Token, Session>, token: Token) {
    token !in m && Apart(hash, m.Keys + {token})
  }

  // ------------------------------------------------------------ the store

  class SessionStore {
    const hash: string -> string
    var rows: map<string, Row>
    ghost var live: map<Token, Session>
    ghost var legacy: set<Token>

    ghost predicate Valid()
      reads this
    {
      Represents(hash, rows, live, legacy)
    }

    /** The table as the migration leaves it: every row under its token. */
    constructor (hash: string -> string, table: map<Token, Session>)
      requires Injective(hash) && Apart(hash, table.Keys)
      ensures Valid() && this.hash == hash && live == table && legacy == table.Keys
    {
      this.hash := hash;
      rows := map t | t in table :: Row(table[t], false);
      live := table;
      legacy := table.Keys;
    }

    method CreateSession(token: Token, session: Session)
      requires Valid() && Fresh(hash, live, token)
      modifies this
      ensures Valid() && live == old(live)[token := session] && legacy == old(legacy)
    {
      InsertAdds(hash, rows, live, legacy, token, session);
      rows := rows[hash(token) := Row(session, true)];
      live := live[token := session];
    }

    /** The answer is the plain map's, for every token a browser could present; a row not
        hashed yet is rewritten on the way, which changes no session. */
    method GetSession(token: Token, now: int) returns (r: Option<Session>)
      requires Valid()
      modifies this
      ensures Valid() && live == old(live)
      ensures r == PlainGet(live, token, now)
      ensures legacy == if r.Some? then old(legacy) - {token} else old(legacy)
    {
      Matches(hash, rows, live, legacy, token);
      var key := hash(token);
      var row: Option<Row> := None;
      if MatchesHashed(rows, key) && rows[key].session.expires > now {
        row := Some(rows[key]);
      } else if MatchesLegacy(rows, token) && rows[token].session.expires > now {
        row := Some(rows[token]);
      }
      if row.None? {
        return None;
      }
      RehashIsInvisible(hash, rows, live, legacy, token);
      if !row.value.hashed {
        rows := Rehash(hash, rows, token);
      }
      legacy := legacy - {token};
      r := Some(row.value.session);
    }

    method DeleteSession(token: Token)
      requires Valid()
      modifies this
      ensures Valid() && live == old(live) - {token}
    {
      hide Represents, Place;
      ghost var keep := live.Keys - {token};
      DeletedMatch(hash, rows, live, legacy, token);
      DeleteRemoves(hash, rows, live, legacy, WithoutMatch(hash, rows, token), keep);
      rows := WithoutMatch(hash, rows, token);
      live, legacy := Restrict(live, keep), legacy * keep;
    }

    /** Every session of a user, but for the one in use when it is given; None is also the empty string. */
    method DeleteSessionsForUser(user: string, keepToken: Option<Token>)
      requires Valid()
      modifies this
      ensures Valid() && live == PlainDeleteForUser(old(live), user, keepToken)
    {
      hide Represents, Place;
      ghost var keep := PlainDeleteForUser(live, user, keepToken).Keys;
      ghost var before := rows;
      if keepToken.Some? {
        DeletedForUser(hash, rows, live, legacy, user, keepToken.value);
        rows := map k | k in rows && (rows[k].session.user != user || Matched(hash, rows, keepToken.value, k)) :: rows[k];
      } else {
        RowsKnowSessions(hash, rows, live, legacy);
        rows := map k | k in rows && rows[k].session.user != user :: rows[k];
      }
      DeleteRemoves(hash, before, live, legacy, rows, keep);
      live, legacy := Restrict(live, keep), legacy * keep;
    }

    method DeleteExpiredSessions(now: int, ofUser: Option<string>)
      requires Valid()
      modifies this
      ensures Valid() && live == PlainDeleteExpired(old(live), now, ofUser)
    {
      hide Represents, Place;
      ghost var keep := PlainDeleteExpired(live, now, ofUser).Keys;
      ghost var before := rows;
      RowsKnowSessions(hash, rows, live, legacy);
      if ofUser.Some? {
        rows := map k | k in rows && !(rows[k].session.user == ofUser.value && rows[k].session.expires <= now) :: rows[k];
      } else {
        rows := map k | k in rows && !(rows[k].session.expires <= now) :: rows[k];
      }
      DeleteRemoves(hash, before, live, legacy, rows, keep);
      live, legacy := Restrict(live, keep), legacy * keep;
    }

    /** The hourly rewrite of up to `limit` rows; `picked` is what the SELECT gave.  No
        session changes, and that many rows fewer hold a token. */
    method HashLegacySessions(limit: nat, picked: seq<Token>) returns (rewritten: nat)
      requires Valid() && LegacyPick(rows, limit, picked)
      modifies this
      ensures Valid() && live == old(live)
      ensures legacy <= old(legacy) && |legacy| == |old(legacy)| - rewritten
      ensures rewritten == if |old(legacy)| <= limit then |old(legacy)| else limit
    {
      hide Represents, Place, LegacyPick, Rehash;
      PicksLegacy(hash, rows, live, legacy, limit, picked);
      var i := 0;
      while i < |picked|
        invariant 0 <= i <= |picked| && Valid() && live == old(live)
        invariant legacy <= old(legacy) && |legacy| == |old(legacy)| - i
        invariant forall j :: i <= j < |picked| ==> picked[j] in legacy
      {
        RehashOne(picked[i]);
        i := i + 1;
      }
      rewritten := |picked|;
    }

    /** One rewrite, of a row that may be gone by now: no session changes. */
    method RehashOne(token: Token)
      requires Valid()
      modifies this
      ensures Valid() && live == old(live) && legacy == old(legacy) - {token}
    {
      hide Represents, Place, Rehash;
      RehashIsInvisible(hash, rows, live, legacy, token);
      rows := Rehash(hash, rows, token);
      legacy := legacy - {token};
    }

    /** Some unhashed rows, as many as there are up to the limit. */
    method PickLegacy(limit: nat) returns (picked: seq<Token>)
      ensures LegacyPick(rows, limit, picked)
    {
      var unhashed := set k | k in rows && MatchesLegacy(rows, k);
      var others := unhashed;
      picked := [];
      while |picked| < limit && others != {}
        invariant others <= unhashed && |picked| + |others| == |unhashed| && |picked| <= limit
        invariant forall i :: 0 <= i < |picked| ==> picked[i] in unhashed && picked[i] !in others
        invariant forall i, j :: 0 <= i < j < |picked| ==> picked[i] != picked[j]
        decreases others
      {
        var k :| k in others;
        picked := picked + [k];
        others := others - {k};
      }
    }

    method Do(op: Op) returns (answer: Option<Session>)
      requires Valid() && (op.Create? ==> Fresh(hash, live, op.token))
      modifies this
      ensures Valid() && live == PlainStep(old(live), op) && answer == PlainAnswer(old(live), op)
    {
      answer := None;
      match op
      case Create(token, session) => CreateSession(token, session);
      case Get(token, now) => answer := GetSession(token, now);
      case Delete(token) => DeleteSession(token);
      case DeleteForUser(user, keep) => DeleteSessionsForUser(user, keep);
      case DeleteExpired(now, ofUser) => DeleteExpiredSessions(now, ofUser);
      case HashLegacy(limit) =>
        var picked := PickLegacy(limit);
        var _ := HashLegacySessions(limit, picked);
    }

    /** Over every run of operations the answers are those of the plain map. */
    method Replay(ops: seq<Op>) returns (answers: seq<Option<Session>>)
      requires Valid() && FreshTokens(hash, live, ops)
      modifies this
      ensures Valid() && live == PlainRun(old(live), ops)
      ensures |answers| == |ops|
      ensures forall i :: 0 <= i < |ops| ==> answers[i] == PlainAnswer(PlainRun(old(live), ops[..i]), ops[i])
    {
      hide Represents, PlainStep, PlainRun, PlainAnswer, Fresh, FreshTokens;
      PlainRunNothing(live, ops);
      answers := [];
      while |answers| < |ops|
        invariant |answers| <= |ops| && Valid()
        invariant live == PlainRun(old(live), ops[..|answers|])
        invariant forall i :: 0 <= i < |answers| ==> answers[i] == PlainAnswer(PlainRun(old(live), ops[..i]), ops[i])
      {
        PlainRunNext(hash, old(live), ops, |answers|);
        var answer := Do(ops[|answers|]);
        answers := answers + [answer];
      }
      assert ops[..|answers|] == ops;
    }
  }

  lemma PlainRunNothing(m: map<Token, Session>, ops: seq<Op>)
    ensures PlainRun(m, ops[..0]) == m
  {
  }

  lemma PlainRunNext(hash: string -> string, m: map<Token, Session>, ops: seq<Op>, n: nat)
    requires n < |ops| && FreshTokens(hash, m, ops)
    ensures PlainRun(m, ops[..n + 1]) == PlainStep(PlainRun(m, ops[..n]), ops[n])
    ensures ops[n].Create? ==> Fresh(hash, PlainRun(m, ops[..n]), ops[n].token)
  {
    hide PlainStep, Fresh;
    assert ops[..n + 1][..n] == ops[..n];
  }

  /** SESSION_MATCH */
  predicate Matched(hash: string -> string, rows: map<string, Row>, token: Token, k: string)
    requires k in rows
  {
    (k == hash(token) && rows[k].hashed) || (k == token && !rows[k].hashed)
  }

  /** DELETE FROM sessions WHERE SESSION_MATCH */
  function WithoutMatch(hash: string -> string, rows: map<string, Row>, token: Token): map<string, Row> {
    map k | k in rows && !Matched(hash, rows, token, k) :: rows[k]
  }

  lemma RowsKnowSessions(hash: string -> string, rows: map<string, Row>, live: map<Token, Session>, legacy: set<Token>)
    requires Represents(hash, rows, live, legacy)
    ensures forall t :: t in live ==> Place(hash, legacy, t) in rows && rows[Place(hash, legacy, t)].session == live[t]
  {
  }

  lemma DeletedMatch(hash: string -> string, rows: map<string, Row>, live: map<Token, Session>, legacy: set<Token>, token: Token)
    requires Represents(hash, rows, live, legacy)
    ensures forall t :: t in live ==> (Place(hash, legacy, t) in WithoutMatch(hash, rows, token) <==> t != token)
  {
  }

  lemma DeletedForUser(hash: string -> string, rows: map<string, Row>, live: map<Token, Session>, legacy: set<Token>,
                       user: string, token: Token)
    requires Represents(hash, rows, live, legacy)
    ensures forall t :: t in live ==>
              && Place(hash, legacy, t) in rows && rows[Place(hash, legacy, t)].session == live[t]
              && (Matched(hash, rows, token, Place(hash, legacy, t)) <==> t == token)
  {
  }

  /** SELECT token FROM sessions WHERE hashed = 0 LIMIT ? */
  ghost predicate LegacyPick(rows: map<string, Row>, limit: nat, picked: seq<Token>) {
    && (forall i :: 0 <= i < |picked| ==> MatchesLegacy(rows, picked[i]))
    && (forall i, j :: 0 <= i < j < |picked| ==> picked[i] != picked[j])
    && |picked| == (var n := |set k | k in rows && MatchesLegacy(rows, k)|; if n <= limit then n else limit)
  }

  lemma PicksLegacy(hash: string -> string, rows: map<string, Row>, live: map<Token, Session>, legacy: set<Token>,
                    limit: nat, picked: seq<Token>)
    requires Represents(hash, rows, live, legacy) && LegacyPick(rows, limit, picked)
    ensures forall i :: 0 <= i < |picked| ==> picked[i] in legacy
    ensures forall i, j :: 0 <= i < j < |picked| ==> picked[i] != picked[j]
    ensures |picked| == if |legacy| <= limit then |legacy| else limit
  {
    hide Represents, Place;
    forall k
      ensures MatchesLegacy(rows, k) <==> k in legacy
    {
      Matches(hash, rows, live, legacy, k);
    }
    assert legacy == set k | k in rows && MatchesLegacy(rows, k);
  }
}
