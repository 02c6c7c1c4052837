/** Enrollment keys of src/auth.ts: nineteen characters and a Luhn check character over a
    thirty-character alphabet, in four groups of five. */
module EnrollmentKey {
  import opened Wrappers

  const ALPHABET := "ABCDEFGHJKMNPQRSTVWXYZ23456789"
  const N := 30

  // ------------------------------------------------------------ the alphabet

  predicate Letter(c: char) { c in ALPHABET }

  function CharAt(i: int): char
    requires 0 <= i < N
  {
    assert |ALPHABET| == N;
    ALPHABET[i]
  }

  lemma CharAtIs(i: int)
    requires 0 <= i < N
    ensures CharAt(i) as int ==
            (if i < 8 then 65 else if i < 10 then 66 else if i < 12 then 67 else if i < 17 then 68 else if i < 22 then 69 else 28) + i
    ensures Letter(CharAt(i)) && CharAt(i) != '-'
  {
    assert ALPHABET[i] in ALPHABET;
  }

  /** ALPHABET.indexOf(c), -1 when it is not there. */
  function IndexOf(c: char): (i: int)
    ensures -1 <= i < N
    ensures i == -1 <==> !Letter(c)
    ensures i >= 0 ==> CharAt(i) == c
  {
    assert |ALPHABET| == N;
    Search(ALPHABET, c)
  }

  function Search(s: string, c: char): (i: int)
    ensures i == -1 <==> c !in s
    ensures -1 <= i < |s| && (i >= 0 ==> s[i] == c)
  {
    if s == [] then -1
    else if s[0] == c then 0
    else var i := Search(s[1..], c); if i < 0 then -1 else i + 1
  }

  lemma IndexOfAt(i: int)
    requires 0 <= i < N
    ensures Letter(CharAt(i)) && IndexOf(CharAt(i)) == i
  {
    hide CharAt, IndexOf, Letter;
    CharAtIs(i);
    CharAtIs(IndexOf(CharAt(i)));
  }

  predicate InAlphabet(s: string) { forall i :: 0 <= i < |s| ==> Letter(s[i]) }

  /** The characters as numbers. */
  function Codes(s: string): (r: seq<int>)
    requires InAlphabet(s)
    ensures |r| == |s| && forall i :: 0 <= i < |r| ==> 0 <= r[i] < N && r[i] == IndexOf(s[i])
  {
    seq(|s|, i requires 0 <= i < |s| => IndexOf(s[i]))
  }

  // ------------------------------------------------------------ the Luhn sum

  function Addend(factor: int, code: int): int { factor * code / N + factor * code % N }

  /** The sum from the right, the last number taken `factor` times and then 1 and 2 by turns. */
  function Luhn(codes: seq<int>, factor: int): int {
    if codes == [] then 0
    else Luhn(codes[..|codes| - 1], 3 - factor) + Addend(factor, codes[|codes| - 1])
  }

  /** The check character of the characters before it, as the code computes it; None is
      the error thrown at a character outside the alphabet. */
  method CheckCharacter(payload: string) returns (r: Option<char>)
    ensures r.Some? <==> InAlphabet(payload)
    ensures r.Some? ==> Letter(r.value) && (Luhn(Codes(payload), 2) + IndexOf(r.value)) % N == 0
  {
    hide CharAt, IndexOf, Letter;
    var factor, sum := 2, 0;
    if InAlphabet(payload) {
      assert Codes(payload)[..|payload|] == Codes(payload);
    }
    var i := |payload| - 1;
    while i >= 0
      invariant -1 <= i < |payload| && (factor == 1 || factor == 2)
      invariant forall j :: i < j < |payload| ==> Letter(payload[j])
      invariant InAlphabet(payload) ==> Luhn(Codes(payload), 2) == sum + Luhn(Codes(payload)[..i + 1], factor)
    {
      var code := IndexOf(payload[i]);
      if code < 0 {
        return None;
      }
      if InAlphabet(payload) {
        assert Codes(payload)[..i + 1][..i] == Codes(payload)[..i];
      }
      var addend := factor * code;
      sum := sum + addend / N + addend % N;
      factor := if factor == 2 then 1 else 2;
      i := i - 1;
    }
    var check := (N - sum % N) % N;
    IndexOfAt(check);
    r := Some(CharAt(check));
  }

  // ------------------------------------------------------------ whole keys

  /** The key without its hyphens. */
  function Flat(key: string): (flat: string)
    requires |key| == 23
    ensures |flat| == 20
  {
    key[..5] + key[6..11] + key[12..17] + key[18..]
  }

  /** Four groups of five characters of the alphabet whose Luhn sum, check character
      included, is a multiple of thirty. */
  predicate ValidKey(key: string) {
    && |key| == 23 && key[5] == '-' && key[11] == '-' && key[17] == '-'
    && InAlphabet(Flat(key))
    && Luhn(Codes(Flat(key)), 1) % N == 0
  }

  /** key.split("-") */
  function Split(s: string): (groups: seq<string>)
    ensures groups != []
  {
    if s == [] then [""]
    else
      var others := Split(s[1..]);
      if s[0] == '-' then [""] + others else [[s[0]] + others[0]] + others[1..]
  }

  function Join(groups: seq<string>): string
    requires groups != []
  {
    if |groups| == 1 then groups[0] else groups[0] + "-" + Join(groups[1..])
  }

  lemma {:induction false} JoinOfSplit(s: string)
    ensures Join(Split(s)) == s
    ensures forall i :: 0 <= i < |Split(s)| ==> '-' !in Split(s)[i]
  {
    if s != [] {
      JoinOfSplit(s[1..]);
      var others := Split(s[1..]);
      if s[0] == '-' {
        assert Split(s)[1..] == others;
      } else {
        assert Split(s)[1..] == others[1..];
        assert Join(Split(s)) == [s[0]] + Join(others);
      }
    }
  }

  lemma {:induction false} SplitOfJoin(groups: seq<string>)
    requires groups != [] && forall i :: 0 <= i < |groups| ==> '-' !in groups[i]
    ensures Split(Join(groups)) == groups
    decreases |groups|, |groups[0]|
  {
    if groups[0] != [] {
      var shorter := [groups[0][1..]] + groups[1..];
      SplitOfJoin(shorter);
      assert Join(groups) == [groups[0][0]] + Join(shorter);
      assert Join(groups)[1..] == Join(shorter);
      assert [groups[0][0]] + shorter[0] == groups[0] && shorter[1..] == groups[1..];
      assert [groups[0]] + groups[1..] == groups;
    } else if |groups| > 1 {
      SplitOfJoin(groups[1..]);
      assert Join(groups)[1..] == Join(groups[1..]);
      assert [""] + groups[1..] == groups;
    }
  }

  /** Four groups of five make a key, and a key of that shape splits into them. */
  lemma SplitOfKey(key: string)
    ensures var g := Split(key);
            (|g| == 4 && |g[0]| == 5 && |g[1]| == 5 && |g[2]| == 5 && |g[3]| == 5) ==>
              && |key| == 23 && key[5] == '-' && key[11] == '-' && key[17] == '-'
              && Flat(key) == g[0] + g[1] + g[2] + g[3]
    ensures |key| == 23 && key[5] == '-' && key[11] == '-' && key[17] == '-' && '-' !in Flat(key) ==>
              Split(key) == [key[..5], key[6..11], key[12..17], key[18..]]
  {
    hide Split;
    JoinOfSplit(key);
    var g := Split(key);
    if |g| == 4 && |g[0]| == 5 && |g[1]| == 5 && |g[2]| == 5 && |g[3]| == 5 {
      JoinOfFour(g);
      assert key == g[0] + "-" + g[1] + "-" + g[2] + "-" + g[3];
      assert key[..5] == g[0] && key[6..11] == g[1] && key[12..17] == g[2] && key[18..] == g[3];
    }
    if |key| == 23 && key[5] == '-' && key[11] == '-' && key[17] == '-' && '-' !in Flat(key) {
      var h := [key[..5], key[6..11], key[12..17], key[18..]];
      assert Flat(key) == h[0] + h[1] + h[2] + h[3];
      forall i | 0 <= i < 4 ensures '-' !in h[i] {
        assert forall c :: c in h[i] ==> c in Flat(key);
      }
      JoinOfFour(h);
      assert key == h[0] + "-" + h[1] + "-" + h[2] + "-" + h[3];
      SplitOfJoin(h);
    }
  }

  lemma JoinOfFour(g: seq<string>)
    requires |g| == 4
    ensures Join(g) == g[0] + "-" + g[1] + "-" + g[2] + "-" + g[3]
  {
    assert g[1..][1..] == g[2..] && g[2..][1..] == g[3..];
    assert Join(g[3..]) == g[3];
    assert Join(g[2..]) == g[2] + "-" + g[3];
    assert Join(g[1..]) == g[1] + "-" + (g[2] + "-" + g[3]);
  }

  lemma AddendOnce(code: int)
    requires 0 <= code < N
    ensures Addend(1, code) == code
  {
  }

  /** The check character closes the sum. */
  lemma CheckClosesSum(flat: string)
    requires flat != [] && InAlphabet(flat)
    ensures InAlphabet(flat[..|flat| - 1])
    ensures Luhn(Codes(flat), 1) == Luhn(Codes(flat[..|flat| - 1]), 2) + IndexOf(flat[|flat| - 1])
  {
    hide CharAt, IndexOf, Letter;
    assert Codes(flat)[..|flat| - 1] == Codes(flat[..|flat| - 1]);
    AddendOnce(IndexOf(flat[|flat| - 1]));
  }

  lemma ClosingIsUnique(sum: int, a: char, b: char)
    requires Letter(a) && Letter(b)
    requires (sum + IndexOf(a)) % N == 0 && (sum + IndexOf(b)) % N == 0
    ensures a == b
  {
    hide CharAt, IndexOf, Letter;
    assert IndexOf(a) == IndexOf(b);
  }

  method IsEnrollmentKey(key: string) returns (ok: bool)
    ensures ok <==> ValidKey(key)
  {
    hide Luhn, Split, CharAt, IndexOf, Letter, Codes;
    SplitOfKey(key);
    var groups := Split(key);
    if |groups| != 4 || |groups[0]| != 5 || |groups[1]| != 5 || |groups[2]| != 5 || |groups[3]| != 5 {
      HyphenIsNoLetter(key);
      return false;
    }
    var flat := groups[0] + groups[1] + groups[2] + groups[3];
    var i := 0;
    while i < |flat|
      invariant 0 <= i <= |flat|
      invariant forall j :: 0 <= j < i ==> Letter(flat[j])
    {
      if !Letter(flat[i]) {
        return false;
      }
      i := i + 1;
    }
    CheckClosesSum(flat);
    var check := CheckCharacter(flat[..|flat| - 1]);
    ok := check == Some(flat[|flat| - 1]);
    if Luhn(Codes(flat), 1) % N == 0 {
      ClosingIsUnique(Luhn(Codes(flat[..|flat| - 1]), 2), check.value, flat[|flat| - 1]);
    }
  }

  lemma HyphenIsNoLetter(key: string)
    ensures |key| == 23 && InAlphabet(Flat(key)) ==> '-' !in Flat(key)
  {
    hide CharAt, IndexOf, Letter, Flat;
    if Letter('-') {
      CharAtIs(IndexOf('-'));
    }
  }

  /** Nineteen random bytes make a key that validates. */
  method GenerateEnrollmentKey(bytes: seq<int>) returns (key: string)
    requires |bytes| == 19 && forall i :: 0 <= i < 19 ==> 0 <= bytes[i] < 256
    ensures ValidKey(key)
    ensures forall i :: 0 <= i < 19 ==> Flat(key)[i] == CharAt(bytes[i] % N)
  {
    hide Luhn, CharAt, IndexOf, Letter, Codes;
    var payload := seq(19, i requires 0 <= i < 19 => CharAt(bytes[i] % N));
    forall i | 0 <= i < 19 ensures Letter(payload[i]) {
      CharAtIs(bytes[i] % N);
    }
    var check := CheckCharacter(payload);
    var chars := payload + [check.value];
    key := chars[..5] + "-" + chars[5..10] + "-" + chars[10..15] + "-" + chars[15..];
    GroupsFlatten(chars, key);
    assert chars[..19] == payload;
    CheckClosesSum(chars);
  }

  lemma GroupsFlatten(chars: string, key: string)
    requires |chars| == 20 && key == chars[..5] + "-" + chars[5..10] + "-" + chars[10..15] + "-" + chars[15..]
    ensures |key| == 23 && key[5] == '-' && key[11] == '-' && key[17] == '-' && Flat(key) == chars
  {
    assert key[..5] == chars[..5] && key[6..11] == chars[5..10] && key[12..17] == chars[10..15] && key[18..] == chars[15..];
    assert chars == chars[..5] + chars[5..10] + chars[10..15] + chars[15..];
  }

  // ------------------------------------------------------------ what it detects

  /** How often the number at an index counts. */
  function FactorAt(n: int, factor: int, i: int): int {
    if (n - 1 - i) % 2 == 0 then factor else 3 - factor
  }

  lemma {:induction false} LuhnUpdate(codes: seq<int>, factor: int, i: int, c: int)
    requires 0 <= i < |codes|
    ensures var f := FactorAt(|codes|, factor, i);
            Luhn(codes[i := c], factor) == Luhn(codes, factor) - Addend(f, codes[i]) + Addend(f, c)
    decreases |codes|
  {
    hide Addend;
    var n := |codes|;
    if i == n - 1 {
      assert codes[i := c][..n - 1] == codes[..n - 1];
    } else {
      LuhnUpdate(codes[..n - 1], 3 - factor, i, c);
      assert codes[i := c][..n - 1] == codes[..n - 1][i := c];
    }
  }

  /** Doubling and adding the two digits is a permutation of the thirty numbers. */
  lemma AddendTwice(code: int)
    requires 0 <= code < N
    ensures Addend(2, code) == if code < 15 then 2 * code else 2 * code - 29
  {
  }

  predicate InRange(codes: seq<int>) { forall i :: 0 <= i < |codes| ==> 0 <= codes[i] < N }

  lemma SubstitutionMovesSum(codes: seq<int>, i: int, c: int)
    requires InRange(codes) && 0 <= i < |codes| && 0 <= c < N && c != codes[i] && Luhn(codes, 1) % N == 0
    ensures Luhn(codes[i := c], 1) % N != 0
  {
    hide Luhn, Addend;
    LuhnUpdate(codes, 1, i, c);
    AddendOnce(codes[i]);
    AddendOnce(c);
    AddendTwice(codes[i]);
    AddendTwice(c);
  }

  lemma SwapMovesSum(codes: seq<int>, i: int)
    requires InRange(codes) && 0 <= i < |codes| - 1 && Luhn(codes, 1) % N == 0
    ensures var a, b := codes[i], codes[i + 1];
            Luhn(codes[i := b][i + 1 := a], 1) % N == 0 <==> a == b || (a == 0 && b == 29) || (a == 29 && b == 0)
  {
    hide Luhn, Addend;
    var a, b := codes[i], codes[i + 1];
    LuhnUpdate(codes, 1, i, b);
    LuhnUpdate(codes[i := b], 1, i + 1, a);
    AddendOnce(a);
    AddendOnce(b);
    AddendTwice(a);
    AddendTwice(b);
    var moved := Luhn(codes[i := b][i + 1 := a], 1) - Luhn(codes, 1);
    assert moved == Excess(a) - Excess(b) || moved == Excess(b) - Excess(a);
    ExcessTells(a, b);
    RemainderMoves(Luhn(codes, 1), moved);
  }

  /** What doubling adds to a number. */
  function Excess(code: int): int { if code < 15 then code else code - 29 }

  lemma ExcessTells(a: int, b: int)
    requires 0 <= a < N && 0 <= b < N
    ensures (Excess(a) - Excess(b)) % N == 0 <==> a == b || (a == 0 && b == 29) || (a == 29 && b == 0)
    ensures (Excess(b) - Excess(a)) % N == 0 <==> a == b || (a == 0 && b == 29) || (a == 29 && b == 0)
  {
  }

  lemma RemainderMoves(sum: int, d: int)
    requires sum % N == 0
    ensures (sum + d) % N == 0 <==> d % N == 0
  {
  }

  /** Where a character of the flat key stands in the key. */
  function Position(i: int): int { i + i / 5 }

  lemma FlatUpdate(key: string, i: int, c: char)
    requires |key| == 23 && 0 <= i < 20
    ensures 0 <= Position(i) < 23 && Flat(key)[i] == key[Position(i)]
    ensures var k := key[Position(i) := c];
            Flat(k) == Flat(key)[i := c] && k[5] == key[5] && k[11] == key[11] && k[17] == key[17]
  {
  }

  lemma CodesUpdate(s: string, i: int, c: char)
    requires InAlphabet(s) && 0 <= i < |s| && Letter(c)
    ensures InAlphabet(s[i := c]) && Codes(s[i := c]) == Codes(s)[i := IndexOf(c)]
  {
  }

  /** Replacing any one character of a valid key by another of the alphabet invalidates it. */
  lemma SubstitutionIsCaught(key: string, i: int, c: char)
    requires ValidKey(key) && 0 <= i < 20 && Letter(c) && c != key[Position(i)]
    ensures !ValidKey(key[Position(i) := c])
  {
    hide CharAt, IndexOf, Letter, Luhn, Flat, Codes;
    FlatUpdate(key, i, c);
    CodesUpdate(Flat(key), i, c);
    SubstitutionMovesSum(Codes(Flat(key)), i, IndexOf(c));
  }

  /** Swapping two neighbours leaves a valid key valid exactly when they are equal or the
      pair is A and 9. */
  lemma SwapIsCaught(key: string, i: int)
    requires ValidKey(key) && 0 <= i < 19
    ensures var a, b := key[Position(i)], key[Position(i + 1)];
            ValidKey(key[Position(i) := b][Position(i + 1) := a]) <==>
            a == b || (a == 'A' && b == '9') || (a == '9' && b == 'A')
  {
    hide CharAt, IndexOf, Letter, Luhn, Flat, Codes;
    var a, b := key[Position(i)], key[Position(i + 1)];
    var codes := Codes(Flat(key));
    FlatUpdate(key, i, b);
    FlatUpdate(key, i + 1, b);
    CodesUpdate(Flat(key), i, b);
    FlatUpdate(key[Position(i) := b], i + 1, a);
    CodesUpdate(Flat(key)[i := b], i + 1, a);
    SwapMovesSum(codes, i);
    EndsOfAlphabet(a);
    EndsOfAlphabet(b);
  }

  lemma EndsOfAlphabet(c: char)
    requires Letter(c)
    ensures IndexOf(c) == 0 <==> c == 'A'
    ensures IndexOf(c) == 29 <==> c == '9'
  {
    hide CharAt, IndexOf, Letter;
    CharAtIs(IndexOf(c));
  }
}
