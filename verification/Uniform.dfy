/** `uniformBelow` of src/conversations.ts and the six-digit codes drawn with it. */
module Uniform {
  import opened Wrappers

  const DRAWS := 0x1_0000_0000

  /** Draws from here on are rejected. */
  function Ceiling(limit: int): int
    requires limit > 0
  {
    DRAWS / limit * limit
  }

  /** The loop over a supply of 32-bit draws: the first one below the ceiling, reduced; None
      when the supply ends first. */
  method UniformBelow(limit: int, draws: seq<int>) returns (r: Option<int>)
    requires 1 <= limit <= DRAWS && forall i :: 0 <= i < |draws| ==> 0 <= draws[i] < DRAWS
    ensures r.None? ==> forall i :: 0 <= i < |draws| ==> draws[i] >= Ceiling(limit)
    ensures r.Some? ==> 0 <= r.value < limit
    ensures r.Some? ==> exists i :: 0 <= i < |draws| && draws[i] < Ceiling(limit) && r.value == draws[i] % limit
                                    && forall j :: 0 <= j < i ==> draws[j] >= Ceiling(limit)
  {
    hide Ceiling;
    var ceiling := Ceiling(limit);
    var i := 0;
    while i < |draws|
      invariant 0 <= i <= |draws|
      invariant forall j :: 0 <= j < i ==> draws[j] >= ceiling
    {
      if draws[i] < ceiling {
        return Some(draws[i] % limit);
      }
      i := i + 1;
    }
    r := None;
  }

  /** The accepted draws that give a value. */
  function Preimage(limit: int, v: int): set<int>
    requires limit > 0
  {
    set d | 0 <= d < Ceiling(limit) && d % limit == v
  }

  /** Every value below the limit is given by exactly floor(2^32 / limit) accepted draws. */
  lemma EveryValueIsAsLikely(limit: int, v: int)
    requires 1 <= limit <= DRAWS && 0 <= v < limit
    ensures |Preimage(limit, v)| == 0x1_0000_0000 / limit
  {
    var q := DRAWS / limit;
    Multiples(limit, v, q);
    assert Preimage(limit, v) == Below(q * limit, limit, v);
  }

  /** The draws below a bound that give a value. */
  function Below(bound: int, limit: int, v: int): set<int>
    requires limit > 0
  {
    set d | 0 <= d < bound && d % limit == v
  }

  lemma {:induction false} Multiples(limit: int, v: int, q: nat)
    requires limit > 0 && 0 <= v < limit
    ensures |Below(q * limit, limit, v)| == q
  {
    hide Below;
    if q == 0 {
      NoneBelow(limit, v);
    } else {
      Multiples(limit, v, q - 1);
      OneMoreMultiple(limit, v, q - 1);
    }
  }

  lemma NoneBelow(limit: int, v: int)
    requires limit > 0
    ensures Below(0 * limit, limit, v) == {}
  {
  }

  /** Between two multiples of the limit each value is given once. */
  lemma OneMoreMultiple(limit: int, v: int, q: nat)
    requires limit > 0 && 0 <= v < limit
    ensures q * limit + v !in Below(q * limit, limit, v)
    ensures Below((q + 1) * limit, limit, v) == Below(q * limit, limit, v) + {q * limit + v}
  {
    var low, high := q * limit, (q + 1) * limit;
    BoundsAre(limit, q);
    forall d
      ensures d in Below(high, limit, v) <==> d in Below(low, limit, v) || d == low + v
    {
      if low <= d < high {
        RemainderIs(d, limit, q);
      }
    }
  }

  lemma BoundsAre(limit: int, q: nat)
    requires limit > 0
    ensures 0 <= q * limit && (q + 1) * limit == q * limit + limit
  {
  }

  lemma RemainderIs(d: int, limit: int, q: int)
    requires limit > 0 && q * limit <= d < q * limit + limit
    ensures d % limit == d - q * limit
  {
    var k := d / limit - q;
    assert d == d / limit * limit + d % limit;
    assert d / limit * limit == q * limit + k * limit;
  }

  /** At least half of all draws are accepted. */
  lemma HalfAreAccepted(limit: int)
    requires 1 <= limit <= DRAWS
    ensures 0 < Ceiling(limit) <= 0x1_0000_0000 <= 2 * Ceiling(limit)
  {
    var q := DRAWS / limit;
    assert DRAWS == q * limit + DRAWS % limit;
    assert q >= 1;
    assert q * limit >= limit;
  }

  // ------------------------------------------------------------ six digits

  const CODES := 1_000_000

  predicate Digits(s: string) { forall i :: 0 <= i < |s| ==> '0' <= s[i] <= '9' }

  /** String(n) */
  function Decimal(n: nat): (s: string)
    ensures |s| >= 1 && Digits(s)
  {
    if n < 10 then [(48 + n) as char] else Decimal(n / 10) + [(48 + n % 10) as char]
  }

  function PadStart(s: string, width: nat): (r: string)
    decreases width - |s|
  {
    if |s| >= width then s else PadStart("0" + s, width)
  }

  /** The code of a drawn number. */
  function SixDigits(n: nat): string { PadStart(Decimal(n), 6) }

  /** The number a code writes. */
  function ValueOf(s: string): int {
    if s == "" then 0 else 10 * ValueOf(s[..|s| - 1]) + (s[|s| - 1] as int - 48)
  }

  lemma {:induction false} DecimalReadsBack(n: nat)
    ensures ValueOf(Decimal(n)) == n
  {
    if n >= 10 {
      DecimalReadsBack(n / 10);
      assert Decimal(n)[..|Decimal(n)| - 1] == Decimal(n / 10);
    } else {
      assert Decimal(n)[..0] == "";
    }
  }

  lemma {:induction false} ZeroInFront(s: string)
    ensures ValueOf("0" + s) == ValueOf(s)
    decreases |s|
  {
    var t := "0" + s;
    if s == "" {
      assert t[..0] == "" && t[0] == '0';
    } else {
      ZeroInFront(s[..|s| - 1]);
      assert t[..|t| - 1] == "0" + s[..|s| - 1];
    }
  }

  lemma {:induction false} PadKeepsValue(s: string, width: nat)
    requires Digits(s)
    ensures ValueOf(PadStart(s, width)) == ValueOf(s) && Digits(PadStart(s, width))
    ensures |PadStart(s, width)| == if |s| >= width then |s| else width
    decreases width - |s|
  {
    if |s| < width {
      ZeroInFront(s);
      PadKeepsValue("0" + s, width);
    }
  }

  function Power10(n: nat): nat { if n == 0 then 1 else 10 * Power10(n - 1) }

  lemma {:induction false} DecimalIsShort(n: nat, width: nat)
    requires width >= 1 && n < Power10(width)
    ensures |Decimal(n)| <= width
  {
    if n >= 10 {
      DecimalIsShort(n / 10, width - 1);
    }
  }

  lemma {:induction false} ValueInRange(s: string)
    requires Digits(s)
    ensures 0 <= ValueOf(s) < Power10(|s|)
  {
    if s != "" {
      ValueInRange(s[..|s| - 1]);
    }
  }

  lemma {:induction false} SameValueSameDigits(a: string, b: string)
    requires Digits(a) && Digits(b) && |a| == |b| && ValueOf(a) == ValueOf(b)
    ensures a == b
  {
    if a != "" {
      var n := |a| - 1;
      SameValueSameDigits(a[..n], b[..n]);
      assert a == a[..n] + [a[n]] && b == b[..n] + [b[n]];
    }
  }

  lemma Million()
    ensures Power10(6) == CODES
  {
  }

  /** Six-digit codes and the numbers below a million are one to one: each number has its
      code, and each string of six digits is the code of its number. */
  lemma CodesAreOneToOne(n: nat, s: string)
    requires n < 1_000_000 && |s| == 6 && Digits(s)
    ensures |SixDigits(n)| == 6 && Digits(SixDigits(n)) && ValueOf(SixDigits(n)) == n
    ensures 0 <= ValueOf(s) < 1_000_000 && SixDigits(ValueOf(s)) == s
  {
    hide Decimal, PadStart, ValueOf, Power10;
    Million();
    SixDigitsReadBack(n);
    ValueInRange(s);
    SixDigitsReadBack(ValueOf(s));
    SameValueSameDigits(SixDigits(ValueOf(s)), s);
  }

  lemma SixDigitsReadBack(n: nat)
    requires n < CODES
    ensures |SixDigits(n)| == 6 && Digits(SixDigits(n)) && ValueOf(SixDigits(n)) == n
  {
    hide Decimal, PadStart, ValueOf, Power10;
    Million();
    DecimalIsShort(n, 6);
    DecimalReadsBack(n);
    PadKeepsValue(Decimal(n), 6);
  }
}
