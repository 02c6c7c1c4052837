/** JSON text as sequences of UTF-16 code units: the printer of JSON.stringify
    (QuoteJSONString of ECMA-262) and a parser by the grammar of RFC 8259. */
module Json {
  type Unit = u: int | 0 <= u < 0x1_0000
  type Text = seq<Unit>

  datatype Value =
    | Null
    | Bool(b: bool)
    | Number(literal: Text)
    | Str(text: Text)
    | Arr(items: seq<Value>)
    | Obj(members: seq<Member>)

  datatype Member = Member(name: Text, value: Value)

  datatype Parsed<+T> = Fail | Ok(value: T, rest: Text)

  // The units the grammar names.
  const QUOTE: Unit := 0x22
  const BACKSLASH: Unit := 0x5C
  const COMMA: Unit := 0x2C
  const COLON: Unit := 0x3A
  const OPEN_ARRAY: Unit := 0x5B
  const CLOSE_ARRAY: Unit := 0x5D
  const OPEN_OBJECT: Unit := 0x7B
  const CLOSE_OBJECT: Unit := 0x7D
  const LETTER_U: Unit := 0x75
  const NULL_TEXT: Text := [0x6E, 0x75, 0x6C, 0x6C]
  const TRUE_TEXT: Text := [0x74, 0x72, 0x75, 0x65]
  const FALSE_TEXT: Text := [0x66, 0x61, 0x6C, 0x73, 0x65]

  // ------------------------------------------------------------ numbers (section 6)

  predicate Digit(u: Unit) { 0x30 <= u <= 0x39 }

  /** The units a number is made of: digits, minus, plus, point, e and E. */
  predicate NumberUnit(u: Unit) {
    Digit(u) || u == 0x2D || u == 0x2B || u == 0x2E || u == 0x65 || u == 0x45
  }

  /** How many units from the front are digits. */
  function Digits(t: Text): (n: nat)
    ensures n <= |t|
  {
    if t == [] || !Digit(t[0]) then 0 else 1 + Digits(t[1..])
  }

  /** number = [ minus ] int [ frac ] [ exp ] */
  predicate ValidNumber(t: Text) {
    var t := if t != [] && t[0] == 0x2D then t[1..] else t;
    var n := Digits(t);
    n > 0 && (t[0] == 0x30 ==> n == 1) && ValidFraction(t[n..])
  }

  predicate ValidFraction(t: Text) {
    if t != [] && t[0] == 0x2E then Digits(t[1..]) > 0 && ValidExponent(t[1..][Digits(t[1..])..])
    else ValidExponent(t)
  }

  predicate ValidExponent(t: Text) {
    t != [] ==>
      && (t[0] == 0x65 || t[0] == 0x45)
      && var t := if |t| > 1 && (t[1] == 0x2B || t[1] == 0x2D) then t[2..] else t[1..];
         t != [] && Digits(t) == |t|
  }

  /** Values whose numbers are JSON numbers, as every printed number is. */
  predicate WellFormed(v: Value) {
    match v
    case Number(literal) => ValidNumber(literal)
    case Arr(items) => forall i :: 0 <= i < |items| ==> WellFormed(items[i])
    case Obj(members) => forall i :: 0 <= i < |members| ==> WellFormed(members[i].value)
    case _ => true
  }

  // ------------------------------------------------------------ printing

  function HexDigit(n: int): Unit
    requires 0 <= n < 16
  {
    if n < 10 then 0x30 + n else 0x61 + n - 10
  }

  /** The six units of \uXXXX. */
  function HexEscape(u: Unit): (t: Text)
    ensures |t| == 6
  {
    [BACKSLASH, LETTER_U, HexDigit(u / 0x1000), HexDigit(u / 0x100 % 16), HexDigit(u / 16 % 16), HexDigit(u % 16)]
  }

  predicate HighSurrogate(u: Unit) { 0xD800 <= u <= 0xDBFF }
  predicate LowSurrogate(u: Unit) { 0xDC00 <= u <= 0xDFFF }

  /** The letter that follows the backslash in a two-unit escape, or 0. */
  function ShortEscape(u: Unit): Unit {
    if u == 8 then 0x62 else if u == 9 then 0x74 else if u == 10 then 0x6E else if u == 12 then 0x66
    else if u == 13 then 0x72 else if u == QUOTE || u == BACKSLASH then u else 0
  }

  function QuoteUnit(u: Unit): Text {
    if ShortEscape(u) != 0 then [BACKSLASH, ShortEscape(u)]
    else if u < 0x20 || HighSurrogate(u) || LowSurrogate(u) then HexEscape(u)
    else [u]
  }

  /** A surrogate pair is one code point and is printed as it is; a lone one is escaped. */
  function QuoteBody(s: Text): Text {
    if s == [] then []
    else if |s| >= 2 && HighSurrogate(s[0]) && LowSurrogate(s[1]) then s[..2] + QuoteBody(s[2..])
    else QuoteUnit(s[0]) + QuoteBody(s[1..])
  }

  function Quote(s: Text): Text { [QUOTE] + QuoteBody(s) + [QUOTE] }

  function Stringify(v: Value): Text
    decreases v, 0
  {
    match v
    case Null => NULL_TEXT
    case Bool(b) => if b then TRUE_TEXT else FALSE_TEXT
    case Number(literal) => literal
    case Str(text) => Quote(text)
    case Arr(items) => [OPEN_ARRAY] + StringifyItems(items) + [CLOSE_ARRAY]
    case Obj(members) => [OPEN_OBJECT] + StringifyMembers(members) + [CLOSE_OBJECT]
  }

  function StringifyItems(items: seq<Value>): Text {
    if items == [] then []
    else if |items| == 1 then Stringify(items[0])
    else Stringify(items[0]) + [COMMA] + StringifyItems(items[1..])
  }

  function StringifyMember(m: Member): Text {
    Quote(m.name) + [COLON] + Stringify(m.value)
  }

  function StringifyMembers(members: seq<Member>): Text {
    if members == [] then []
    else if |members| == 1 then StringifyMember(members[0])
    else StringifyMember(members[0]) + [COMMA] + StringifyMembers(members[1..])
  }

  // ------------------------------------------------------------ parsing

  predicate Space(u: Unit) { u == 0x20 || u == 0x09 || u == 0x0A || u == 0x0D }

  function SkipSpace(t: Text): (r: Text)
    ensures |r| <= |t|
    ensures t != [] && !Space(t[0]) ==> r == t
  {
    if t != [] && Space(t[0]) then SkipSpace(t[1..]) else t
  }

  /** The value of a hexadecimal digit of either case, or -1. */
  function HexValue(u: Unit): int {
    if Digit(u) then u - 0x30
    else if 0x61 <= u <= 0x66 then u - 0x61 + 10
    else if 0x41 <= u <= 0x46 then u - 0x41 + 10
    else -1
  }

  /** What the letter after a backslash stands for, or -1. */
  function UnescapeShort(u: Unit): int {
    if u == QUOTE || u == BACKSLASH || u == 0x2F then u
    else if u == 0x62 then 8 else if u == 0x66 then 12 else if u == 0x6E then 10
    else if u == 0x72 then 13 else if u == 0x74 then 9 else -1
  }

  function Prepend(u: Unit, p: Parsed<Text>): Parsed<Text> {
    if p.Fail? then Fail else Ok([u] + p.value, p.rest)
  }

  /** The rest of a string literal, after its opening quote (section 7). */
  function ParseString(t: Text): (p: Parsed<Text>)
    ensures p.Ok? ==> |p.rest| < |t|
  {
    if t == [] then Fail
    else if t[0] == QUOTE then Ok([], t[1..])
    else if t[0] < 0x20 then Fail
    else if t[0] != BACKSLASH then Prepend(t[0], ParseString(t[1..]))
    else if |t| >= 2 && UnescapeShort(t[1]) >= 0 then Prepend(UnescapeShort(t[1]), ParseString(t[2..]))
    else if |t| >= 6 && t[1] == LETTER_U && HexValue(t[2]) >= 0 && HexValue(t[3]) >= 0 && HexValue(t[4]) >= 0 && HexValue(t[5]) >= 0
    then Prepend(0x1000 * HexValue(t[2]) + 0x100 * HexValue(t[3]) + 16 * HexValue(t[4]) + HexValue(t[5]), ParseString(t[6..]))
    else Fail
  }

  /** How many units from the front may belong to a number. */
  function NumberSpan(t: Text): (n: nat)
    ensures n <= |t|
  {
    if t == [] || !NumberUnit(t[0]) then 0 else 1 + NumberSpan(t[1..])
  }

  function ParseNumber(t: Text): (p: Parsed<Value>)
    ensures p.Ok? ==> |p.rest| < |t|
  {
    var n := NumberSpan(t);
    if n > 0 && ValidNumber(t[..n]) then Ok(Number(t[..n]), t[n..]) else Fail
  }

  function ParseLiteral(t: Text, literal: Text, v: Value): (p: Parsed<Value>)
    requires literal != []
    ensures p.Ok? ==> |p.rest| < |t|
  {
    if literal <= t then Ok(v, t[|literal|..]) else Fail
  }

  function ParseValue(t: Text): (p: Parsed<Value>)
    ensures p.Ok? ==> |p.rest| < |t|
    decreases |t|, 0
  {
    if t == [] then Fail
    else if t[0] == NULL_TEXT[0] then ParseLiteral(t, NULL_TEXT, Null)
    else if t[0] == TRUE_TEXT[0] then ParseLiteral(t, TRUE_TEXT, Bool(true))
    else if t[0] == FALSE_TEXT[0] then ParseLiteral(t, FALSE_TEXT, Bool(false))
    else if t[0] == QUOTE then
      var s := ParseString(t[1..]);
      if s.Fail? then Fail else Ok(Str(s.value), s.rest)
    else if t[0] == OPEN_ARRAY then
      var inside := SkipSpace(t[1..]);
      if inside != [] && inside[0] == CLOSE_ARRAY then Ok(Arr([]), inside[1..])
      else
        var items := ParseItems(inside);
        if items.Fail? then Fail else Ok(Arr(items.value), items.rest)
    else if t[0] == OPEN_OBJECT then
      var inside := SkipSpace(t[1..]);
      if inside != [] && inside[0] == CLOSE_OBJECT then Ok(Obj([]), inside[1..])
      else
        var members := ParseMembers(inside);
        if members.Fail? then Fail else Ok(Obj(members.value), members.rest)
    else ParseNumber(t)
  }

  /** value *( , value ) ], spaces around each. */
  function ParseItems(t: Text): (p: Parsed<seq<Value>>)
    ensures p.Ok? ==> |p.rest| < |t|
    decreases |t|, 1
  {
    var first := ParseValue(t);
    if first.Fail? then Fail
    else
      var after := SkipSpace(first.rest);
      if after == [] then Fail
      else if after[0] == CLOSE_ARRAY then Ok([first.value], after[1..])
      else if after[0] == COMMA then
        var others := ParseItems(SkipSpace(after[1..]));
        if others.Fail? then Fail else Ok([first.value] + others.value, others.rest)
      else Fail
  }

  /** string : value */
  function ParseMember(t: Text): (p: Parsed<Member>)
    ensures p.Ok? ==> |p.rest| < |t|
    decreases |t|, 0
  {
    if t == [] || t[0] != QUOTE then Fail
    else
      var name := ParseString(t[1..]);
      if name.Fail? then Fail
      else
        var after := SkipSpace(name.rest);
        if after == [] || after[0] != COLON then Fail
        else
          var v := ParseValue(SkipSpace(after[1..]));
          if v.Fail? then Fail else Ok(Member(name.value, v.value), v.rest)
  }

  function ParseMembers(t: Text): (p: Parsed<seq<Member>>)
    ensures p.Ok? ==> |p.rest| < |t|
    decreases |t|, 1
  {
    var first := ParseMember(t);
    if first.Fail? then Fail
    else
      var after := SkipSpace(first.rest);
      if after == [] then Fail
      else if after[0] == CLOSE_OBJECT then Ok([first.value], after[1..])
      else if after[0] == COMMA then
        var others := ParseMembers(SkipSpace(after[1..]));
        if others.Fail? then Fail else Ok([first.value] + others.value, others.rest)
      else Fail
  }

  /** JSON-text = ws value ws */
  function Parse(t: Text): Parsed<Value> {
    var v := ParseValue(SkipSpace(t));
    if v.Ok? && SkipSpace(v.rest) == [] then Ok(v.value, []) else Fail
  }
}
