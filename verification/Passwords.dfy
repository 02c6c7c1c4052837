/** The bits the constant-time comparison of src/auth.ts collects. */
module Bits {
  /** diff |= x ^ y */
  function Collect(diff: bv16, x: bv16, y: bv16): bv16 { diff | (x ^ y) }

  lemma XorIsZero(x: bv16, y: bv16)
    ensures x ^ y == 0 <==> x == y
  {
  }

  lemma OrIsZero(x: bv16, y: bv16)
    ensures x | y == 0 <==> x == 0 && y == 0
  {
  }

  lemma NoDifference(diff: bv16, x: bv16, y: bv16)
    ensures Collect(diff, x, y) == 0 <==> diff == 0 && x == y
  {
    XorIsZero(x, y);
    OrIsZero(diff, x ^ y);
  }
}

/** Stored password hashes of src/auth.ts and their migration in src/db.ts: a bare PBKDF2 hash is
    wrapped in an HMAC under the pepper without knowing the password. */
module Passwords {
  import opened Wrappers
  import Bits
  import opened JsCharacters

  type Byte = b: int | 0 <= b < 256
  type Bytes = seq<Byte>

  const PEPPERED_PREFIX := "p1$"

  // ------------------------------------------------------------ comparing

  /** The comparison that takes the same time wherever two strings of UTF-16 code units
      differ is equality. */
  method TimingSafeEqual(a: seq<bv16>, b: seq<bv16>) returns (equal: bool)
    ensures equal <==> a == b
  {
    if |a| != |b| {
      return false;
    }
    var diff: bv16 := 0;
    var i := 0;
    while i < |a|
      invariant 0 <= i <= |a|
      invariant diff == 0 <==> a[..i] == b[..i]
    {
      hide Bits.Collect;
      Bits.NoDifference(diff, a[i], b[i]);
      assert a[..i + 1] == a[..i] + [a[i]] && b[..i + 1] == b[..i] + [b[i]];
      diff := Bits.Collect(diff, a[i], b[i]);
      i := i + 1;
    }
    assert a[..i] == a && b[..i] == b;
    equal := diff == 0;
  }

  // ------------------------------------------------------------ hexadecimal

  function HexDigit(n: int): char
    requires 0 <= n < 16
  {
    if n < 10 then (48 + n) as char else (87 + n) as char
  }

  /** bufferToHex: two lower-case digits a byte. */
  function ToHex(bytes: Bytes): (hex: string)
    ensures |hex| == 2 * |bytes|
  {
    if bytes == [] then "" else [HexDigit(bytes[0] / 16), HexDigit(bytes[0] % 16)] + ToHex(bytes[1..])
  }

  /** A hexadecimal digit of either case, or -1. */
  function HexValue(c: char): (v: int)
    ensures -1 <= v < 16
  {
    if '0' <= c <= '9' then c as int - 48
    else if 'a' <= c <= 'f' then c as int - 87
    else if 'A' <= c <= 'F' then c as int - 55
    else -1
  }

  /** parseInt of two characters in base 16, stored into a Uint8Array: NaN is stored as 0
      and a negative number modulo 256. */
  function ParsePair(a: char, b: char): Byte {
    if a == '0' && (b == 'x' || b == 'X') then 0
    else if HexValue(a) >= 0 then (if HexValue(b) >= 0 then 16 * HexValue(a) + HexValue(b) else HexValue(a))
    else if HexValue(b) < 0 then 0
    else if JsSpace(a) || a == '+' then HexValue(b)
    else if a == '-' then (256 - HexValue(b)) % 256
    else 0
  }

  function FromHex(hex: string): (bytes: Bytes)
    requires |hex| % 2 == 0
    ensures |bytes| == |hex| / 2
  {
    if hex == "" then [] else [ParsePair(hex[0], hex[1])] + FromHex(hex[2..])
  }

  lemma FromHexUnfolds(done: Bytes, hex: string, i: int)
    requires 0 <= i < |hex| && |hex| % 2 == 0 && i % 2 == 0
    ensures done + FromHex(hex[i..]) == done + [ParsePair(hex[i], hex[i + 1])] + FromHex(hex[i + 2..])
  {
  }

  /** hexToBuffer; None is the RangeError for an odd length. */
  method HexToBuffer(hex: string) returns (r: Option<array<Byte>>)
    ensures r.Some? <==> |hex| % 2 == 0
    ensures r.Some? ==> fresh(r.value) && r.value[..] == FromHex(hex)
  {
    if |hex| % 2 != 0 {
      return None;
    }
    var bytes := new Byte[|hex| / 2](_ => 0);
    var i := 0;
    while i < |hex|
      invariant 0 <= i <= |hex| && i % 2 == 0
      invariant bytes[..i / 2] + FromHex(hex[i..]) == FromHex(hex)
    {
      hide ParsePair, FromHex;
      bytes[i / 2] := ParsePair(hex[i], hex[i + 1]);
      FromHexUnfolds(bytes[..i / 2], hex, i);
      assert bytes[..i / 2 + 1] == bytes[..i / 2] + [ParsePair(hex[i], hex[i + 1])];
      i := i + 2;
    }
    assert bytes[..i / 2] == bytes[..];
    r := Some(bytes);
  }

  lemma DigitReadsBack(n: int)
    requires 0 <= n < 16
    ensures HexValue(HexDigit(n)) == n && HexDigit(n) != 'x' && HexDigit(n) != 'X'
  {
  }

  function UpperDigit(n: int): char
    requires 0 <= n < 16
  {
    "0123456789ABCDEF"[n]
  }

  /** Two digits are a byte, whatever the case of either. */
  lemma DigitsOfEitherCase(m: int, n: int, a: char, b: char)
    requires 0 <= m < 16 && 0 <= n < 16
    requires (a == HexDigit(m) || a == UpperDigit(m)) && (b == HexDigit(n) || b == UpperDigit(n))
    ensures ParsePair(a, b) == 16 * m + n
  {
    UpperReadsBack(m);
    UpperReadsBack(n);
    DigitReadsBack(m);
    DigitReadsBack(n);
    hide HexDigit, UpperDigit, HexValue;
  }

  lemma UpperReadsBack(n: int)
    requires 0 <= n < 16
    ensures HexValue(UpperDigit(n)) == n && UpperDigit(n) != 'x' && UpperDigit(n) != 'X'
  {
  }

  /** Reading the digits of bytes gives the bytes back. */
  lemma {:induction false} HexReadsBack(bytes: Bytes)
    ensures FromHex(ToHex(bytes)) == bytes
  {
    hide HexDigit, HexValue;
    if bytes != [] {
      HexReadsBack(bytes[1..]);
      DigitReadsBack(bytes[0] / 16);
      DigitReadsBack(bytes[0] % 16);
      assert ToHex(bytes)[2..] == ToHex(bytes[1..]);
    }
  }

  predicate LowerHex(s: string) {
    forall i :: 0 <= i < |s| ==> ('0' <= s[i] <= '9') || ('a' <= s[i] <= 'f')
  }

  /** Writing the bytes of lower-case digits gives the digits back. */
  lemma {:induction false} HexWritesBack(hex: string)
    requires |hex| % 2 == 0 && LowerHex(hex)
    ensures ToHex(FromHex(hex)) == hex
  {
    if hex != "" {
      HexWritesBack(hex[2..]);
      var b := FromHex(hex)[0];
      assert b == 16 * HexValue(hex[0]) + HexValue(hex[1]);
      assert HexDigit(b / 16) == hex[0] && HexDigit(b % 16) == hex[1];
    }
  }

  // ------------------------------------------------------------ hashing and verifying

  /** The two primitives: PBKDF2 of a password and a salt, and HMAC under a key. */
  datatype Crypto = Crypto(pbkdf2: (string, Bytes) -> Bytes, hmac: (string, Bytes) -> Bytes)

  /** What is assumed of them: 32-byte keys, and no collisions of HMAC under the pepper. */
  ghost predicate Sound(c: Crypto, pepper: string) {
    && (forall password, salt :: |c.pbkdf2(password, salt)| == 32)
    && (forall a, b :: c.hmac(pepper, a) == c.hmac(pepper, b) ==> a == b)
  }

  function PepperBytes(c: Crypto, pepper: string, bytes: Bytes): string {
    PEPPERED_PREFIX + ToHex(c.hmac(pepper, bytes))
  }

  function HashPassword(c: Crypto, password: string, pepper: string, salt: Bytes): string {
    PepperBytes(c, pepper, c.pbkdf2(password, salt))
  }

  /** verifyPassword; None when the stored salt cannot be read. */
  function VerifyPassword(c: Crypto, password: string, hash: string, salt: string, pepper: string): Option<bool> {
    if |salt| % 2 != 0 then None
    else
      var derived := c.pbkdf2(password, FromHex(salt));
      if PEPPERED_PREFIX <= hash then Some(PepperBytes(c, pepper, derived) == hash)
      else Some(ToHex(derived) == hash)
  }

  /** pepperLegacyHash: the peppered form of a bare hash, None for anything else. */
  function PepperLegacyHash(c: Crypto, hash: string, pepper: string): Option<string> {
    if PEPPERED_PREFIX <= hash || |hash| != 64 || !LowerHex(hash) then None
    else Some(PepperBytes(c, pepper, FromHex(hash)))
  }

  /** Exactly the bare hashes are wrapped. */
  lemma BareHashesAreWrapped(c: Crypto, hash: string, pepper: string)
    ensures PepperLegacyHash(c, hash, pepper).Some? <==> |hash| == 64 && LowerHex(hash)
  {
    hide PepperBytes;
    if PEPPERED_PREFIX <= hash {
      assert hash[0] == 'p';
    }
  }

  lemma {:induction false} HexIsLower(bytes: Bytes)
    ensures LowerHex(ToHex(bytes))
  {
    if bytes != [] {
      HexIsLower(bytes[1..]);
    }
  }

  /** Every hash the format before the pepper wrote is bare, and is wrapped. */
  lemma OldHashesAreWrapped(c: Crypto, password: string, salt: Bytes, pepper: string)
    requires Sound(c, pepper)
    ensures PepperLegacyHash(c, ToHex(c.pbkdf2(password, salt)), pepper) == Some("p1$" + ToHex(c.hmac(pepper, c.pbkdf2(password, salt))))
  {
    hide ToHex, FromHex;
    var derived := c.pbkdf2(password, salt);
    HexIsLower(derived);
    HexReadsBack(derived);
    BareHashesAreWrapped(c, ToHex(derived), pepper);
  }

  /** And before that it accepts exactly the passwords that derive the same key. */
  lemma OldHashAcceptsItsPassword(c: Crypto, password: string, guess: string, pepper: string, salt: Bytes)
    requires Sound(c, pepper)
    ensures VerifyPassword(c, guess, ToHex(c.pbkdf2(password, salt)), ToHex(salt), pepper)
            == Some(c.pbkdf2(guess, salt) == c.pbkdf2(password, salt))
  {
    hide ToHex, FromHex;
    var hash := ToHex(c.pbkdf2(password, salt));
    HexIsLower(c.pbkdf2(password, salt));
    HexReadsBack(salt);
    BareHashesAreWrapped(c, hash, pepper);
    if hash == ToHex(c.pbkdf2(guess, salt)) {
      ToHexIsInjective(c.pbkdf2(guess, salt), c.pbkdf2(password, salt));
    }
  }

  lemma ToHexIsInjective(a: Bytes, b: Bytes)
    requires ToHex(a) == ToHex(b)
    ensures a == b
  {
    HexReadsBack(a);
    HexReadsBack(b);
  }

  lemma PepperIsInjective(c: Crypto, pepper: string, a: Bytes, b: Bytes)
    requires Sound(c, pepper)
    ensures PepperBytes(c, pepper, a) == PepperBytes(c, pepper, b) <==> a == b
  {
    hide ToHex;
    var x, y := PepperBytes(c, pepper, a), PepperBytes(c, pepper, b);
    assert x[3..] == ToHex(c.hmac(pepper, a)) && y[3..] == ToHex(c.hmac(pepper, b));
    if x == y {
      ToHexIsInjective(c.hmac(pepper, a), c.hmac(pepper, b));
    }
  }

  /** Wrapping a bare hash leaves the answer unchanged for every password and salt, and the
      wrapped hash is not wrapped again. */
  lemma WrappingKeepsAnswers(c: Crypto, password: string, hash: string, salt: string, pepper: string)
    requires Sound(c, pepper) && PepperLegacyHash(c, hash, pepper).Some?
    ensures var wrapped := PepperLegacyHash(c, hash, pepper).value;
            && VerifyPassword(c, password, wrapped, salt, pepper) == VerifyPassword(c, password, hash, salt, pepper)
            && PepperLegacyHash(c, wrapped, pepper).None?
  {
    hide ToHex, FromHex;
    var wrapped := PepperLegacyHash(c, hash, pepper).value;
    assert wrapped[..3] == PEPPERED_PREFIX;
    if |salt| % 2 == 0 {
      var derived := c.pbkdf2(password, FromHex(salt));
      HexWritesBack(hash);
      HexReadsBack(derived);
      PepperIsInjective(c, pepper, derived, FromHex(hash));
    }
  }

  /** A hash accepts exactly the passwords that derive the same key. */
  lemma HashAcceptsItsPassword(c: Crypto, password: string, guess: string, pepper: string, salt: Bytes)
    requires Sound(c, pepper)
    ensures VerifyPassword(c, guess, HashPassword(c, password, pepper, salt), ToHex(salt), pepper)
            == Some(c.pbkdf2(guess, salt) == c.pbkdf2(password, salt))
  {
    hide ToHex, FromHex;
    HexReadsBack(salt);
    var hash := HashPassword(c, password, pepper, salt);
    assert hash[..3] == PEPPERED_PREFIX;
    PepperIsInjective(c, pepper, c.pbkdf2(guess, salt), c.pbkdf2(password, salt));
  }

  // ------------------------------------------------------------ the migration, interleaved

  datatype User = User(hash: string, salt: string)

  datatype Step =
    | SetPassword(id: string, user: User)         // UPDATE of hash and salt
    | Wrap(id: string, read: string)              // UPDATE where the hash is still the one read

  function Apply(c: Crypto, pepper: string, users: map<string, User>, step: Step): map<string, User> {
    match step
    case SetPassword(id, user) => if id in users then users[id := user] else users
    case Wrap(id, read) =>
      var peppered := PepperLegacyHash(c, read, pepper);
      if peppered.Some? && id in users && users[id].hash == read
      then users[id := users[id].(hash := peppered.value)] else users
  }

  function Run(c: Crypto, pepper: string, users: map<string, User>, steps: seq<Step>): map<string, User> {
    if steps == [] then users else Apply(c, pepper, Run(c, pepper, users, steps[..|steps| - 1]), steps[|steps| - 1])
  }

  function WithoutWraps(steps: seq<Step>): seq<Step> {
    if steps == [] then []
    else WithoutWraps(steps[..|steps| - 1]) + (if steps[|steps| - 1].Wrap? then [] else [steps[|steps| - 1]])
  }

  /** Both tables accept the same passwords. */
  ghost predicate Agree(c: Crypto, pepper: string, users: map<string, User>, plain: map<string, User>) {
    && users.Keys == plain.Keys
    && (forall id :: id in users ==> users[id].salt == plain[id].salt)
    && (forall id, password :: id in users ==>
          VerifyPassword(c, password, users[id].hash, users[id].salt, pepper)
          == VerifyPassword(c, password, plain[id].hash, plain[id].salt, pepper))
  }

  lemma WrapKeepsAgree(c: Crypto, pepper: string, users: map<string, User>, plain: map<string, User>, id: string, read: string)
    requires Sound(c, pepper) && Agree(c, pepper, users, plain)
    ensures Agree(c, pepper, Apply(c, pepper, users, Wrap(id, read)), plain)
  {
    hide VerifyPassword, PepperLegacyHash, Sound;
    if PepperLegacyHash(c, read, pepper).Some? && id in users && users[id].hash == read {
      forall password
        ensures VerifyPassword(c, password, PepperLegacyHash(c, read, pepper).value, users[id].salt, pepper)
                == VerifyPassword(c, password, users[id].hash, users[id].salt, pepper)
      {
        WrappingKeepsAnswers(c, password, read, users[id].salt, pepper);
      }
    }
  }

  lemma ChangeKeepsAgree(c: Crypto, pepper: string, users: map<string, User>, plain: map<string, User>, step: Step)
    requires Agree(c, pepper, users, plain) && step.SetPassword?
    ensures Agree(c, pepper, Apply(c, pepper, users, step), Apply(c, pepper, plain, step))
  {
  }

  /** However the migration's reads and writes fall among password changes, every user is
      verified as if there had been no migration: no newer password is overwritten. */
  lemma {:induction false} MigrationIsInvisible(c: Crypto, pepper: string, users: map<string, User>, steps: seq<Step>)
    requires Sound(c, pepper)
    ensures Agree(c, pepper, Run(c, pepper, users, steps), Run(c, pepper, users, WithoutWraps(steps)))
    decreases |steps|
  {
    hide Sound, Apply;
    if steps == [] {
      AgreesWithItself(c, pepper, users);
    } else {
      hide Agree;
      var init, step := steps[..|steps| - 1], steps[|steps| - 1];
      MigrationIsInvisible(c, pepper, users, init);
      var before, plain := Run(c, pepper, users, init), Run(c, pepper, users, WithoutWraps(init));
      if step.Wrap? {
        assert WithoutWraps(steps) == WithoutWraps(init);
        WrapKeepsAgree(c, pepper, before, plain, step.id, step.read);
      } else {
        assert WithoutWraps(steps) == WithoutWraps(init) + [step];
        assert WithoutWraps(steps)[..|WithoutWraps(init)|] == WithoutWraps(init);
        ChangeKeepsAgree(c, pepper, before, plain, step);
      }
    }
  }

  lemma AgreesWithItself(c: Crypto, pepper: string, users: map<string, User>)
    ensures Agree(c, pepper, users, users)
  {
  }

  // ------------------------------------------------------------ the hourly job

  /** The users whose hash is still bare: 64 lower-case hexadecimal digits. */
  function Bare(users: map<string, User>): set<string> {
    set id | id in users && |users[id].hash| == 64 && LowerHex(users[id].hash)
  }

  lemma WrapLeavesOneFewer(c: Crypto, pepper: string, users: map<string, User>, id: string)
    requires id in users
    ensures Bare(Apply(c, pepper, users, Wrap(id, users[id].hash))) == Bare(users) - {id}
  {
  }

  const PEPPER_BATCH := 200

  /** length(password_hash) = 64 AND password_hash NOT LIKE 'p1$%', LIKE being deaf to the case of letters. */
  predicate Selected(hash: string) {
    |hash| == 64 && !((hash[0] == 'p' || hash[0] == 'P') && hash[1] == '1' && hash[2] == '$')
  }

  function SelectedIds(users: map<string, User>): set<string> { set id | id in users && Selected(users[id].hash) }

  /** Every bare hash is selected. */
  lemma BareAreSelected(users: map<string, User>)
    ensures Bare(users) <= SelectedIds(users)
  {
  }

  /** How far the job has come: the rows done are no longer bare, the others are as they were. */
  ghost predicate Wrapped(c: Crypto, pepper: string, before: map<string, User>, users: map<string, User>, done: set<string>) {
    && users.Keys == before.Keys && Agree(c, pepper, users, before)
    && Bare(users) == Bare(before) - done
    && (forall id :: id in users && id !in done ==> users[id] == before[id])
  }

  /** The first rows of those read. */
  function First(read: seq<string>, n: int): set<string>
    requires 0 <= n <= |read|
  {
    set j | 0 <= j < n :: read[j]
  }

  lemma NothingWrapped(c: Crypto, pepper: string, users: map<string, User>, read: seq<string>)
    ensures Wrapped(c, pepper, users, users, First(read, 0))
  {
    hide VerifyPassword, PepperLegacyHash;
  }

  lemma WrapsOne(c: Crypto, pepper: string, before: map<string, User>, users: map<string, User>, read: seq<string>, n: int)
    requires 0 <= n < |read| && Sound(c, pepper) && Wrapped(c, pepper, before, users, First(read, n)) && read[n] in users
    ensures Wrapped(c, pepper, before, Apply(c, pepper, users, Wrap(read[n], users[read[n]].hash)), First(read, n + 1))
  {
    var id := read[n];
    WrapKeepsAgree(c, pepper, users, before, id, users[id].hash);
    WrapLeavesOneFewer(c, pepper, users, id);
    hide Sound, Agree, Bare, PepperLegacyHash;
    assert First(read, n + 1) == First(read, n) + {id};
    var after := Apply(c, pepper, users, Wrap(id, users[id].hash));
    assert Bare(after) == Bare(before) - First(read, n + 1);
  }

  class Users {
    const crypto: Crypto
    const pepper: string
    var rows: map<string, User>

    constructor (crypto: Crypto, pepper: string, rows: map<string, User>)
      ensures this.crypto == crypto && this.pepper == pepper && this.rows == rows
    {
      this.crypto := crypto;
      this.pepper := pepper;
      this.rows := rows;
    }

    /** SELECT ... LIMIT 200: selected rows, all of them when they are fewer. */
    method SelectLegacy() returns (read: seq<string>)
      ensures |read| <= 200 && (forall i :: 0 <= i < |read| ==> read[i] in SelectedIds(rows))
      ensures forall i :: 0 <= i < |read| ==>
        read[i] in rows && |rows[read[i]].hash| == 64 && !("p1$" <= rows[read[i]].hash) && !("P1$" <= rows[read[i]].hash)
      ensures forall i, j :: 0 <= i < j < |read| ==> read[i] != read[j]
      ensures |SelectedIds(rows)| <= 200 ==> forall id :: id in SelectedIds(rows) ==> id in read
    {
      var selected := SelectedIds(rows);
      var left := selected;
      read := [];
      while left != {} && |read| < PEPPER_BATCH
        invariant left <= selected && |read| <= PEPPER_BATCH && |read| + |left| == |selected|
        invariant forall i :: 0 <= i < |read| ==> read[i] in selected - left
        invariant forall i, j :: 0 <= i < j < |read| ==> read[i] != read[j]
        invariant forall id :: id in selected - left ==> id in read
        decreases |left|
      {
        hide Selected;
        var id :| id in left;
        read := read + [id];
        left := left - {id};
      }
    }

    /** UPDATE where the hash is still the one read, by a bare hash's peppered form. */
    method WrapRow(id: string, hash: string) returns (done: bool)
      modifies this
      ensures rows == Apply(crypto, pepper, old(rows), Wrap(id, hash))
      ensures id in old(rows) && old(rows)[id].hash == hash ==> (done <==> id in Bare(old(rows)))
    {
      hide PepperLegacyHash;
      BareHashesAreWrapped(crypto, hash, pepper);
      var peppered := PepperLegacyHash(crypto, hash, pepper);
      done := peppered.Some? && id in rows && rows[id].hash == hash;
      if done {
        rows := rows[id := rows[id].(hash := peppered.value)];
      }
    }

    /** One run: every user is verified as before, as many bare hashes fewer are left as it reports, and none
        is left when at most two hundred rows were selected. */
    method PepperLegacyPasswordHashes() returns (wrapped: nat)
      requires Sound(crypto, pepper)
      modifies this
      ensures Agree(crypto, pepper, rows, old(rows))
      ensures Bare(rows) <= Bare(old(rows))
      ensures |Bare(rows)| == |Bare(old(rows))| - wrapped
      ensures |SelectedIds(old(rows))| <= 200 ==> forall id :: id in rows ==> !(|rows[id].hash| == 64 && LowerHex(rows[id].hash))
    {
      hide Sound, Agree, Bare, SelectedIds, Apply, Wrapped, First;
      var read := SelectLegacy();
      NothingWrapped(crypto, pepper, rows, read);
      wrapped := 0;
      var i := 0;
      while i < |read|
        invariant 0 <= i <= |read| && Wrapped(crypto, pepper, old(rows), rows, First(read, i))
        invariant |Bare(rows)| == |Bare(old(rows))| - wrapped
      {
        SelectedAreUsers(crypto, pepper, old(rows), rows, First(read, i), read[i]);
        WrapsOne(crypto, pepper, old(rows), rows, read, i);
        BareShrinks(crypto, pepper, rows, read[i]);
        var done := WrapRow(read[i], rows[read[i]].hash);
        if done {
          wrapped := wrapped + 1;
        }
        i := i + 1;
      }
      AllWrapped(crypto, pepper, old(rows), rows, read);
    }
  }

  lemma SelectedAreUsers(c: Crypto, pepper: string, before: map<string, User>, users: map<string, User>, done: set<string>, id: string)
    requires Wrapped(c, pepper, before, users, done) && id in SelectedIds(before)
    ensures id in users
  {
  }

  lemma BareShrinks(c: Crypto, pepper: string, users: map<string, User>, id: string)
    requires id in users
    ensures |Bare(Apply(c, pepper, users, Wrap(id, users[id].hash)))|
         == |Bare(users)| - (if id in Bare(users) then 1 else 0)
  {
    WrapLeavesOneFewer(c, pepper, users, id);
    hide Bare, Apply;
  }

  lemma AllWrapped(c: Crypto, pepper: string, before: map<string, User>, users: map<string, User>, read: seq<string>)
    requires Wrapped(c, pepper, before, users, First(read, |read|))
    requires |SelectedIds(before)| <= PEPPER_BATCH ==> forall id :: id in SelectedIds(before) ==> id in read
    ensures Agree(c, pepper, users, before) && Bare(users) <= Bare(before)
    ensures |SelectedIds(before)| <= 200 ==> forall id :: id in users ==> !(|users[id].hash| == 64 && LowerHex(users[id].hash))
  {
    assert forall id :: id in users && |users[id].hash| == 64 && LowerHex(users[id].hash) ==> id in Bare(users);
    BareAreSelected(before);
    hide Agree, Bare, SelectedIds;
  }
}
