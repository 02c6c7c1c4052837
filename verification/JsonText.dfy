/** What `Json.Stringify` prints, in characters: the forms of JSON.stringify in ECMA-262, without the names that the
    printer and the parser share. */
module JsonText {
  import opened Json
  import opened Escape

  predicate Ascii(s: string) { forall i :: 0 <= i < |s| ==> s[i] as int < 128 }

  /** The code units of a text in ASCII. */
  function Units(s: string): Text
    requires Ascii(s)
  {
    seq(|s|, i requires 0 <= i < |s| => s[i] as int)
  }

  function HexText(n: int): string
    requires 0 <= n < 0x1_0000
    ensures Ascii(HexText(n)) && |HexText(n)| == 4
  {
    var digits := "0123456789abcdef";
    [digits[n / 0x1000], digits[n / 0x100 % 16], digits[n / 16 % 16], digits[n % 16]]
  }

  lemma HexDigitIs(n: int)
    requires 0 <= n < 16
    ensures HexDigit(n) == "0123456789abcdef"[n] as int
  {
  }

  lemma HexEscapeIs(u: Unit)
    ensures HexEscape(u) == Units("\\u" + HexText(u))
  {
    hide HexDigit;
    HexDigitIs(u / 0x1000);
    HexDigitIs(u / 0x100 % 16);
    HexDigitIs(u / 16 % 16);
    HexDigitIs(u % 16);
  }

  /** How a code unit of a string is printed: five letters, quote and backslash after a backslash, other control
      characters and lone surrogates by their number, anything else as it is. */
  lemma QuotedIs(u: Unit)
    ensures u == 8 ==> QuoteUnit(u) == Units("\\b")
    ensures u == 9 ==> QuoteUnit(u) == Units("\\t")
    ensures u == 10 ==> QuoteUnit(u) == Units("\\n")
    ensures u == 12 ==> QuoteUnit(u) == Units("\\f")
    ensures u == 13 ==> QuoteUnit(u) == Units("\\r")
    ensures u == '"' as int ==> QuoteUnit(u) == Units("\\\"")
    ensures u == '\\' as int ==> QuoteUnit(u) == Units("\\\\")
    ensures (u < 32 && u !in {8, 9, 10, 12, 13}) || 0xD800 <= u <= 0xDFFF ==> QuoteUnit(u) == Units("\\u" + HexText(u))
    ensures 32 <= u && !(0xD800 <= u <= 0xDFFF) && u != '"' as int && u != '\\' as int ==> QuoteUnit(u) == [u]
  {
    hide HexEscape, HexText;
    HexEscapeIs(u);
  }

  /** Parts with commas between them. */
  function Commas(parts: seq<Text>): Text {
    if parts == [] then [] else if |parts| == 1 then parts[0] else parts[0] + Units(",") + Commas(parts[1..])
  }

  function Quoted(s: Text): Text { Units("\"") + QuoteBody(s) + Units("\"") }

  function Items(items: seq<Value>): seq<Text> { seq(|items|, i requires 0 <= i < |items| => Stringify(items[i])) }

  function MemberText(m: Member): Text { Quoted(m.name) + Units(":") + Stringify(m.value) }

  function MemberTexts(members: seq<Member>): seq<Text> {
    seq(|members|, i requires 0 <= i < |members| => MemberText(members[i]))
  }

  lemma {:induction false} ItemsAre(items: seq<Value>)
    ensures StringifyItems(items) == Commas(Items(items))
  {
    hide Stringify;
    if |items| > 1 {
      ItemsAre(items[1..]);
      assert Items(items)[1..] == Items(items[1..]);
      assert [COMMA] == Units(",");
    }
  }

  lemma MemberIs(m: Member)
    ensures StringifyMember(m) == MemberText(m)
  {
    hide Stringify, QuoteBody;
    assert [QUOTE] == Units("\"") && [COLON] == Units(":");
  }

  lemma {:induction false} MembersAre(members: seq<Member>)
    ensures StringifyMembers(members) == Commas(MemberTexts(members))
  {
    hide StringifyMember, MemberText;
    if members != [] {
      MemberIs(members[0]);
    }
    if |members| > 1 {
      MembersAre(members[1..]);
      assert MemberTexts(members)[1..] == MemberTexts(members[1..]);
      assert [COMMA] == Units(",");
    }
  }

  /** What a value is printed as. */
  lemma PrintedIs(v: Value)
    ensures match v
            case Null => Stringify(v) == Units("null")
            case Bool(b) => Stringify(v) == (if b then Units("true") else Units("false"))
            case Number(literal) => Stringify(v) == literal
            case Str(text) => Stringify(v) == Quoted(text)
            case Arr(items) => Stringify(v) == Units("[") + Commas(Items(items)) + Units("]")
            case Obj(members) => Stringify(v) == Units("{") + Commas(MemberTexts(members)) + Units("}")
  {
    hide StringifyItems, StringifyMembers, QuoteBody, Commas;
    match v
    case Arr(items) =>
      ItemsAre(items);
      assert [OPEN_ARRAY] == Units("[") && [CLOSE_ARRAY] == Units("]");
    case Obj(members) =>
      MembersAre(members);
      assert [OPEN_OBJECT] == Units("{") && [CLOSE_OBJECT] == Units("}");
    case Str(_) =>
      assert [QUOTE] == Units("\"");
    case _ =>
      assert NULL_TEXT == Units("null") && TRUE_TEXT == Units("true") && FALSE_TEXT == Units("false");
  }

  // ------------------------------------------------------------ numbers

  predicate AllDigits(t: Text) { t != [] && forall i :: 0 <= i < |t| ==> '0' as int <= t[i] <= '9' as int }

  lemma {:induction false} DigitsOf(t: Text, rest: Text)
    requires (forall i :: 0 <= i < |t| ==> Digit(t[i])) && (rest != [] ==> !Digit(rest[0]))
    ensures Digits(t + rest) == |t|
  {
    if t == [] {
      assert t + rest == rest;
    } else {
      assert (t + rest)[1..] == t[1..] + rest;
      DigitsOf(t[1..], rest);
    }
  }

  /** An exponent: e or E, a sign or none, digits; or nothing. */
  predicate Exponent(t: Text, letter: Text, sign: Text, digits: Text) {
    || t == []
    || (&& (letter == Units("e") || letter == Units("E")) && (sign == [] || sign == Units("+") || sign == Units("-"))
        && AllDigits(digits) && t == letter + sign + digits)
  }

  lemma ExponentIsTaken(t: Text, letter: Text, sign: Text, digits: Text)
    requires Exponent(t, letter, sign, digits)
    ensures ValidExponent(t) && (t != [] ==> !Digit(t[0]) && t[0] != 0x2E)
  {
    if t != [] {
      DigitsOf(digits, []);
      assert digits + [] == digits;
      assert sign == [] ==> t[1..] == digits;
      assert sign != [] ==> t[2..] == digits;
    }
  }

  /** Every number of the grammar of RFC 8259, section 6, is one: digits without a needless zero in front, a minus
      or none, a fraction or none, an exponent or none. */
  lemma NumbersAreTaken(minus: bool, whole: Text, fraction: Text, exponent: Text, letter: Text, sign: Text, digits: Text)
    requires AllDigits(whole) && (whole[0] == '0' as int ==> |whole| == 1)
    requires (fraction == [] || AllDigits(fraction)) && Exponent(exponent, letter, sign, digits)
    ensures ValidNumber((if minus then Units("-") else []) + whole + (if fraction == [] then [] else Units(".") + fraction) + exponent)
  {
    hide Exponent, ValidNumber;
    ExponentIsTaken(exponent, letter, sign, digits);
    var point := if fraction == [] then [] else Units(".") + fraction;
    FractionIsTaken(fraction, exponent);
    WholeIsTaken(whole, point + exponent);
    var front := if minus then Units("-") else [];
    assert front + whole + point + exponent == front + (whole + (point + exponent));
    if !minus {
      assert front + (whole + (point + exponent)) == whole + (point + exponent);
    }
  }

  lemma WholeIsTaken(whole: Text, tail: Text)
    requires AllDigits(whole) && (whole[0] == '0' as int ==> |whole| == 1)
    requires ValidFraction(tail) && (tail != [] ==> !Digit(tail[0]))
    ensures ValidNumber(whole + tail) && ValidNumber(Units("-") + (whole + tail))
  {
    hide ValidFraction, Digits;
    var t := whole + tail;
    DigitsOf(whole, tail);
    assert t[|whole|..] == tail;
    assert (Units("-") + t)[1..] == t;
  }

  lemma FractionIsTaken(fraction: Text, exponent: Text)
    requires (fraction == [] || AllDigits(fraction)) && ValidExponent(exponent)
    requires exponent != [] ==> !Digit(exponent[0]) && exponent[0] != 0x2E
    ensures var tail := (if fraction == [] then [] else Units(".") + fraction) + exponent;
            ValidFraction(tail) && (tail != [] ==> !Digit(tail[0]))
  {
    hide ValidExponent;
    var tail := (if fraction == [] then [] else Units(".") + fraction) + exponent;
    if fraction == [] {
      assert tail == exponent;
    } else {
      assert tail[1..] == fraction + exponent;
      DigitsOf(fraction, exponent);
      assert tail[1..][|fraction|..] == exponent;
    }
  }

  /** And only those are: a valid number is a minus or none, digits, a fraction or none and an exponent or none. */
  lemma NumbersAreThose(t: Text) returns (minus: bool, whole: Text, fraction: Text, exponent: Text, letter: Text, sign: Text, digits: Text)
    requires ValidNumber(t)
    ensures AllDigits(whole) && (whole[0] == '0' as int ==> |whole| == 1) && (fraction == [] || AllDigits(fraction))
    ensures Exponent(exponent, letter, sign, digits)
    ensures t == (if minus then Units("-") else []) + whole + (if fraction == [] then [] else Units(".") + fraction) + exponent
  {
    hide ValidExponent, Exponent, AllDigits;
    var rest;
    minus, whole, rest := WholeIs(t);
    fraction, exponent := FractionIs(rest);
    letter, sign, digits := ExponentIs(exponent);
    var front := if minus then Units("-") else [];
    var point := if fraction == [] then [] else Units(".") + fraction;
    hide Units, ValidNumber, ValidFraction;
    assert front + whole + rest == front + whole + point + exponent;
  }

  lemma WholeIs(t: Text) returns (minus: bool, whole: Text, rest: Text)
    requires ValidNumber(t)
    ensures AllDigits(whole) && (whole[0] == '0' as int ==> |whole| == 1) && ValidFraction(rest)
    ensures t == (if minus then Units("-") else []) + whole + rest
  {
    hide ValidFraction;
    minus := t != [] && t[0] == '-' as int;
    var u := if minus then t[1..] else t;
    var n := Digits(u);
    DigitsAre(u);
    whole, rest := u[..n], u[n..];
    assert t == (if minus then Units("-") else []) + u;
  }

  lemma {:induction false} DigitsAre(t: Text)
    ensures forall i :: 0 <= i < Digits(t) ==> '0' as int <= t[i] <= '9' as int
  {
    if t != [] && Digit(t[0]) {
      DigitsAre(t[1..]);
    }
  }

  lemma FractionIs(t: Text) returns (fraction: Text, rest: Text)
    requires ValidFraction(t)
    ensures (fraction == [] || AllDigits(fraction)) && t == (if fraction == [] then [] else Units(".") + fraction) + rest && ValidExponent(rest)
  {
    hide ValidExponent;
    if t != [] && t[0] == 0x2E {
      var n := Digits(t[1..]);
      DigitsAre(t[1..]);
      fraction, rest := t[1..][..n], t[1..][n..];
      assert t == Units(".") + fraction + rest;
    } else {
      fraction, rest := [], t;
    }
  }

  lemma ExponentIs(t: Text) returns (letter: Text, sign: Text, digits: Text)
    requires ValidExponent(t)
    ensures Exponent(t, letter, sign, digits)
  {
    if t == [] {
      letter, sign, digits := [], [], [];
    } else {
      var signed := |t| > 1 && (t[1] == 0x2B || t[1] == 0x2D);
      letter := t[..1];
      sign := if signed then t[1..2] else [];
      digits := if signed then t[2..] else t[1..];
      DigitsAre(digits);
      assert letter == Units("e") || letter == Units("E");
      assert signed ==> sign == Units("+") || sign == Units("-");
    }
  }

  // ------------------------------------------------------------ every value, every string, any white space

  /** The numbers in a value. */
  function Numbers(v: Value): set<Text> {
    match v
    case Number(literal) => {literal}
    case Arr(items) => set i, l | 0 <= i < |items| && l in Numbers(items[i]) :: l
    case Obj(members) => set i, l | 0 <= i < |members| && l in Numbers(members[i].value) :: l
    case _ => {}
  }

  /** The round trip covers every value whose numbers are JSON numbers. */
  lemma {:induction false} EveryValueIsCovered(v: Value)
    ensures WellFormed(v) <==> forall l :: l in Numbers(v) ==> ValidNumber(l)
  {
    hide ValidNumber;
    match v
    case Arr(items) =>
      forall i | 0 <= i < |items|
        ensures WellFormed(items[i]) <==> forall l :: l in Numbers(items[i]) ==> ValidNumber(l)
      {
        EveryValueIsCovered(items[i]);
      }
    case Obj(members) =>
      forall i | 0 <= i < |members|
        ensures WellFormed(members[i].value) <==> forall l :: l in Numbers(members[i].value) ==> ValidNumber(l)
      {
        EveryValueIsCovered(members[i].value);
      }
    case _ =>
  }

  /** A pair of surrogates in a string is printed as it is, and any other unit by itself. */
  lemma BodyIs(s: Text)
    requires s != []
    ensures QuoteBody(s) == if |s| >= 2 && 0xD800 <= s[0] <= 0xDBFF && 0xDC00 <= s[1] <= 0xDFFF
                            then [s[0], s[1]] + QuoteBody(s[2..]) else QuoteUnit(s[0]) + QuoteBody(s[1..])
  {
    hide QuoteUnit;
    assert |s| >= 2 ==> s[..2] == [s[0], s[1]];
  }

  /** Space, tab, line feed and carriage return. */
  predicate White(t: Text) { forall i :: 0 <= i < |t| ==> t[i] in {32, 9, 10, 13} }

  lemma {:induction false} WhiteIsSkipped(white: Text, rest: Text)
    requires White(white) && (rest != [] ==> !Space(rest[0]))
    ensures SkipSpace(white + rest) == rest
  {
    if white == [] {
      assert white + rest == rest;
    } else {
      assert (white + rest)[1..] == white[1..] + rest;
      WhiteIsSkipped(white[1..], rest);
    }
  }

  /** The escaped text reads back with any white space around it. */
  lemma EscapedReadsBackAmongWhite(before: Text, v: Value, after: Text)
    requires WellFormed(v) && White(before) && White(after)
    ensures Parse(before + EscapeJson(v) + after) == Ok(v, [])
  {
    hide EscapeJson, Stringify, Mask, ParseValue, WellFormed, SkipSpace;
    EscapeJsonIsMask(v);
    ValueStarts(v);
    ValueReads(v, after);
    var text := Mask(Stringify(v));
    assert before + EscapeJson(v) + after == before + (text + after);
    WhiteIsSkipped(before, text + after);
    WhiteIsSkipped(after, []);
    assert after + [] == after;
  }
}
