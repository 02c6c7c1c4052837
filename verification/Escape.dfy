/** `escapeJson` of src/escape.ts: the text it prints is safe inside a script element, and reads back. */
module Escape {
  import opened Json

  // ------------------------------------------------------------ escapeJson

  /** The characters that could end a script element, open a comment or end a line. */
  predicate Unsafe(u: Unit) { u == 0x3C || u == 0x3E || u == 0x26 || u == 0x2028 || u == 0x2029 }

  /** text.replace(/x/g, escape) for a single character. */
  function Replace(t: Text, target: Unit, escape: Text): Text {
    if t == [] then [] else ReplaceUnit(t[0], target, escape) + Replace(t[1..], target, escape)
  }

  function ReplaceUnit(u: Unit, target: Unit, escape: Text): Text {
    if u == target then escape else [u]
  }

  /** The last replacement, of either line separator by its own escape. */
  function ReplaceSeparators(t: Text): Text {
    if t == [] then [] else SeparatorUnit(t[0]) + ReplaceSeparators(t[1..])
  }

  function SeparatorUnit(u: Unit): Text {
    if u == 0x2028 then [BACKSLASH, LETTER_U, 0x32, 0x30, 0x32, 0x38]
    else if u == 0x2029 then [BACKSLASH, LETTER_U, 0x32, 0x30, 0x32, 0x39]
    else [u]
  }

  function EscapeJson(v: Value): Text {
    var lt := Replace(Stringify(v), 0x3C, [BACKSLASH, LETTER_U, 0x30, 0x30, 0x33, 0x63]);
    var gt := Replace(lt, 0x3E, [BACKSLASH, LETTER_U, 0x30, 0x30, 0x33, 0x65]);
    var amp := Replace(gt, 0x26, [BACKSLASH, LETTER_U, 0x30, 0x30, 0x32, 0x36]);
    ReplaceSeparators(amp)
  }

  /** All five replacements in one pass. */
  function Mask(t: Text): Text {
    if t == [] then [] else MaskUnit(t[0]) + Mask(t[1..])
  }

  function MaskUnit(u: Unit): Text { if Unsafe(u) then HexEscape(u) else [u] }

  lemma Associate(a: Text, b: Text, c: Text)
    ensures a + (b + c) == (a + b) + c
  {
  }

  lemma {:induction false} ReplaceConcat(a: Text, b: Text, target: Unit, escape: Text)
    ensures Replace(a + b, target, escape) == Replace(a, target, escape) + Replace(b, target, escape)
  {
    if a == [] {
      assert a + b == b;
    } else {
      hide ReplaceUnit;
      ReplaceConcat(a[1..], b, target, escape);
      assert (a + b)[1..] == a[1..] + b && (a + b)[0] == a[0];
      Associate(ReplaceUnit(a[0], target, escape), Replace(a[1..], target, escape), Replace(b, target, escape));
    }
  }

  lemma {:induction false} ReplaceSeparatorsConcat(a: Text, b: Text)
    ensures ReplaceSeparators(a + b) == ReplaceSeparators(a) + ReplaceSeparators(b)
  {
    if a == [] {
      assert a + b == b;
    } else {
      hide SeparatorUnit;
      ReplaceSeparatorsConcat(a[1..], b);
      assert (a + b)[1..] == a[1..] + b && (a + b)[0] == a[0];
      Associate(SeparatorUnit(a[0]), ReplaceSeparators(a[1..]), ReplaceSeparators(b));
    }
  }

  lemma {:induction false} ReplaceAbsent(t: Text, target: Unit, escape: Text)
    requires target !in t
    ensures Replace(t, target, escape) == t
  {
    if t != [] {
      ReplaceAbsent(t[1..], target, escape);
    }
  }

  lemma {:induction false} ReplaceSeparatorsAbsent(t: Text)
    requires 0x2028 !in t && 0x2029 !in t
    ensures ReplaceSeparators(t) == t
  {
    if t != [] {
      ReplaceSeparatorsAbsent(t[1..]);
    }
  }

  function Passes(t: Text): Text {
    ReplaceSeparators(Replace(Replace(Replace(t, 0x3C, HexEscape(0x3C)), 0x3E, HexEscape(0x3E)), 0x26, HexEscape(0x26)))
  }

  lemma HexEscapes()
    ensures HexEscape(0x3C) == [BACKSLASH, LETTER_U, 0x30, 0x30, 0x33, 0x63]
    ensures HexEscape(0x3E) == [BACKSLASH, LETTER_U, 0x30, 0x30, 0x33, 0x65]
    ensures HexEscape(0x26) == [BACKSLASH, LETTER_U, 0x30, 0x30, 0x32, 0x36]
    ensures HexEscape(0x2028) == [BACKSLASH, LETTER_U, 0x32, 0x30, 0x32, 0x38]
    ensures HexEscape(0x2029) == [BACKSLASH, LETTER_U, 0x32, 0x30, 0x32, 0x39]
  {
  }

  lemma PassesConcat(a: Text, b: Text)
    ensures Passes(a + b) == Passes(a) + Passes(b)
  {
    hide Replace, ReplaceSeparators, HexEscape;
    ReplaceConcat(a, b, 0x3C, HexEscape(0x3C));
    var a1, b1 := Replace(a, 0x3C, HexEscape(0x3C)), Replace(b, 0x3C, HexEscape(0x3C));
    ReplaceConcat(a1, b1, 0x3E, HexEscape(0x3E));
    var a2, b2 := Replace(a1, 0x3E, HexEscape(0x3E)), Replace(b1, 0x3E, HexEscape(0x3E));
    ReplaceConcat(a2, b2, 0x26, HexEscape(0x26));
    ReplaceSeparatorsConcat(Replace(a2, 0x26, HexEscape(0x26)), Replace(b2, 0x26, HexEscape(0x26)));
  }

  lemma ReplaceOne(u: Unit, target: Unit, escape: Text)
    ensures Replace([u], target, escape) == if u == target then escape else [u]
  {
  }

  /** No escape is touched by a later pass. */
  lemma PassesOne(u: Unit)
    ensures Passes([u]) == MaskUnit(u)
  {
    hide Replace, ReplaceSeparators, HexEscape;
    HexEscapes();
    ReplaceOne(u, 0x3C, HexEscape(0x3C));
    var t1 := Replace([u], 0x3C, HexEscape(0x3C));
    if u == 0x3C {
      ReplaceAbsent(t1, 0x3E, HexEscape(0x3E));
    } else {
      ReplaceOne(u, 0x3E, HexEscape(0x3E));
    }
    var t2 := Replace(t1, 0x3E, HexEscape(0x3E));
    if u == 0x3C || u == 0x3E {
      ReplaceAbsent(t2, 0x26, HexEscape(0x26));
    } else {
      ReplaceOne(u, 0x26, HexEscape(0x26));
    }
    var t3 := Replace(t2, 0x26, HexEscape(0x26));
    if u == 0x2028 || u == 0x2029 {
      SeparatorOne(u);
    } else {
      ReplaceSeparatorsAbsent(t3);
    }
  }

  lemma SeparatorOne(u: Unit)
    requires u == 0x2028 || u == 0x2029
    ensures ReplaceSeparators([u]) == HexEscape(u)
  {
  }

  lemma {:induction false} PassesAreMask(t: Text)
    ensures Passes(t) == Mask(t)
  {
    hide Passes, MaskUnit;
    if t == [] {
      PassesEmpty();
    } else {
      PassesAreMask(t[1..]);
      PassesConcat([t[0]], t[1..]);
      assert [t[0]] + t[1..] == t;
      PassesOne(t[0]);
    }
  }

  lemma PassesEmpty()
    ensures Passes([]) == []
  {
  }

  lemma EscapeJsonIsMask(v: Value)
    ensures EscapeJson(v) == Mask(Stringify(v))
  {
    hide Replace, ReplaceSeparators, HexEscape, Mask, Stringify;
    HexEscapes();
    PassesAreMask(Stringify(v));
  }

  /** The text holds none of the characters that could leave the script element. */
  lemma EscapeJsonIsSafe(v: Value)
    ensures forall i :: 0 <= i < |EscapeJson(v)| ==> !Unsafe(EscapeJson(v)[i])
  {
    hide EscapeJson, Stringify, Mask;
    EscapeJsonIsMask(v);
    MaskIsSafe(Stringify(v));
  }

  lemma {:induction false} MaskIsSafe(t: Text)
    ensures forall i :: 0 <= i < |Mask(t)| ==> !Unsafe(Mask(t)[i])
  {
    if t != [] {
      MaskIsSafe(t[1..]);
      HexEscapes();
    }
  }

  // ------------------------------------------------------------ reading it back

  lemma {:induction false} MaskConcat(a: Text, b: Text)
    ensures Mask(a + b) == Mask(a) + Mask(b)
  {
    hide MaskUnit;
    if a == [] {
      assert a + b == b;
    } else {
      MaskConcat(a[1..], b);
      assert (a + b)[1..] == a[1..] + b && (a + b)[0] == a[0];
      Associate(MaskUnit(a[0]), Mask(a[1..]), Mask(b));
    }
  }

  lemma {:induction false} MaskPlain(t: Text)
    requires forall i :: 0 <= i < |t| ==> !Unsafe(t[i])
    ensures Mask(t) == t
  {
    if t != [] {
      MaskPlain(t[1..]);
    }
  }

  lemma HexReadsBack(u: Unit)
    ensures var t := HexEscape(u);
            && HexValue(t[2]) == u / 0x1000 && HexValue(t[3]) == u / 0x100 % 16
            && HexValue(t[4]) == u / 16 % 16 && HexValue(t[5]) == u % 16
    ensures 0x1000 * (u / 0x1000) + 0x100 * (u / 0x100 % 16) + 16 * (u / 16 % 16) + u % 16 == u
  {
    assert u / 16 / 16 == u / 0x100 && u / 0x100 / 16 == u / 0x1000;
  }

  /** A character printed as an escape, followed by anything, reads back as itself. */
  lemma EscapeReads(u: Unit, t: Text)
    ensures ParseString(HexEscape(u) + t) == Prepend(u, ParseString(t))
  {
    HexReadsBack(u);
    var text := HexEscape(u) + t;
    assert text[6..] == t;
    assert text[2] == HexEscape(u)[2] && text[3] == HexEscape(u)[3] && text[4] == HexEscape(u)[4] && text[5] == HexEscape(u)[5];
  }

  /** The masked print of one unit outside a pair reads back as that unit: the mask touches
      no character that an escape before it consumes. */
  lemma UnitReads(u: Unit, t: Text)
    ensures ParseString(Mask(QuoteUnit(u)) + t) == Prepend(u, ParseString(t))
  {
    if ShortEscape(u) != 0 {
      MaskPlain([BACKSLASH, ShortEscape(u)]);
      var text := [BACKSLASH, ShortEscape(u)] + t;
      assert text[2..] == t && text[1] == ShortEscape(u);
    } else if u < 0x20 || HighSurrogate(u) || LowSurrogate(u) {
      MaskPlain(HexEscape(u));
      EscapeReads(u, t);
    } else {
      assert Mask([u]) == MaskUnit(u) by { assert [u][1..] == []; }
      if Unsafe(u) {
        EscapeReads(u, t);
      } else {
        RawReads(u, t);
      }
    }
  }

  lemma RawReads(u: Unit, t: Text)
    requires u >= 0x20 && u != QUOTE && u != BACKSLASH
    ensures ParseString([u] + t) == Prepend(u, ParseString(t))
  {
  }

  lemma {:induction false} BodyReads(s: Text, rest: Text)
    ensures ParseString(Mask(QuoteBody(s)) + ([QUOTE] + rest)) == Ok(s, rest)
    decreases |s|, 1
  {
    hide QuoteUnit, ParseString, Mask;
    var tail := [QUOTE] + rest;
    if s == [] {
      EmptyReads(rest);
    } else if |s| >= 2 && HighSurrogate(s[0]) && LowSurrogate(s[1]) {
      PairReads(s, rest);
    } else {
      BodyReads(s[1..], rest);
      var body := Mask(QuoteBody(s[1..])) + tail;
      MaskConcat(QuoteUnit(s[0]), QuoteBody(s[1..]));
      assert Mask(QuoteBody(s)) + tail == Mask(QuoteUnit(s[0])) + body;
      UnitReads(s[0], body);
      assert [s[0]] + s[1..] == s;
    }
  }

  lemma PairReads(s: Text, rest: Text)
    requires |s| >= 2 && HighSurrogate(s[0]) && LowSurrogate(s[1])
    ensures ParseString(Mask(QuoteBody(s)) + ([QUOTE] + rest)) == Ok(s, rest)
    decreases |s|, 0
  {
    hide QuoteUnit, ParseString, Mask;
    BodyReads(s[2..], rest);
    var body := Mask(QuoteBody(s[2..])) + ([QUOTE] + rest);
    MaskConcat(s[..2], QuoteBody(s[2..]));
    MaskPlain(s[..2]);
    assert Mask(QuoteBody(s)) + ([QUOTE] + rest) == [s[0]] + ([s[1]] + body);
    RawReads(s[0], [s[1]] + body);
    RawReads(s[1], body);
    assert [s[0]] + ([s[1]] + s[2..]) == s;
  }

  lemma EmptyReads(rest: Text)
    ensures Mask([]) == [] && ParseString([] + ([QUOTE] + rest)) == Ok([], rest)
  {
  }

  /** A masked string literal: a quote, a body and a quote. */
  lemma QuoteReads(s: Text, rest: Text)
    ensures var t := Mask(Quote(s)) + rest;
            t != [] && t[0] == QUOTE && ParseString(t[1..]) == Ok(s, rest)
  {
    hide QuoteBody, ParseString, Mask;
    MaskConcat([QUOTE] + QuoteBody(s), [QUOTE]);
    MaskConcat([QUOTE], QuoteBody(s));
    MaskPlain([QUOTE]);
    BodyReads(s, rest);
    var t := Mask(Quote(s)) + rest;
    assert t == [QUOTE] + (Mask(QuoteBody(s)) + ([QUOTE] + rest));
  }

  // ------------------------------------------------------------ whole values

  lemma {:induction false} DigitsAreDigits(t: Text)
    ensures forall i :: 0 <= i < Digits(t) ==> Digit(t[i])
  {
    if t != [] && Digit(t[0]) {
      DigitsAreDigits(t[1..]);
    }
  }

  lemma ExponentUnits(t: Text)
    requires ValidExponent(t)
    ensures forall i :: 0 <= i < |t| ==> NumberUnit(t[i])
  {
    if t != [] {
      DigitsAreDigits(t[1..]);
      if |t| > 1 {
        DigitsAreDigits(t[2..]);
      }
    }
  }

  lemma FractionUnits(t: Text)
    requires ValidFraction(t)
    ensures forall i :: 0 <= i < |t| ==> NumberUnit(t[i])
  {
    hide ValidExponent;
    if t != [] && t[0] == 0x2E {
      var n := Digits(t[1..]);
      DigitsAreDigits(t[1..]);
      ExponentUnits(t[1..][n..]);
      assert t == [t[0]] + t[1..][..n] + t[1..][n..];
    } else {
      ExponentUnits(t);
    }
  }

  lemma NumberUnits(t: Text)
    requires ValidNumber(t)
    ensures t != [] && (Digit(t[0]) || t[0] == 0x2D)
    ensures forall i :: 0 <= i < |t| ==> NumberUnit(t[i])
  {
    hide ValidFraction;
    var u := if t != [] && t[0] == 0x2D then t[1..] else t;
    var n := Digits(u);
    DigitsAreDigits(u);
    FractionUnits(u[n..]);
    assert u == u[..n] + u[n..];
  }

  /** A text after which a number has ended. */
  predicate Delimited(rest: Text) { rest == [] || !NumberUnit(rest[0]) }

  lemma {:induction false} SpanIsNumber(t: Text, rest: Text)
    requires forall i :: 0 <= i < |t| ==> NumberUnit(t[i])
    requires Delimited(rest)
    ensures NumberSpan(t + rest) == |t|
  {
    if t == [] {
      assert t + rest == rest;
    } else {
      SpanIsNumber(t[1..], rest);
      assert (t + rest)[1..] == t[1..] + rest;
    }
  }

  lemma NumberReads(literal: Text, rest: Text)
    requires ValidNumber(literal) && Delimited(rest)
    ensures ParseValue(literal + rest) == Ok(Number(literal), rest)
  {
    hide ValidNumber;
    NumberUnits(literal);
    SpanIsNumber(literal, rest);
    var t := literal + rest;
    assert t[..|literal|] == literal && t[|literal|..] == rest;
  }

  lemma LiteralReads(v: Value, rest: Text)
    requires v.Null? || v.Bool?
    ensures ParseValue(Stringify(v) + rest) == Ok(v, rest)
    ensures forall i :: 0 <= i < |Stringify(v)| ==> !Unsafe(Stringify(v)[i])
  {
  }

  /** What a printed value can start with. */
  predicate StartsValue(t: Text) {
    t != [] && !Space(t[0]) && t[0] != CLOSE_ARRAY && t[0] != CLOSE_OBJECT
  }

  lemma ValueStarts(v: Value)
    requires WellFormed(v)
    ensures StartsValue(Mask(Stringify(v)))
  {
  }

  /** One unit of structure, masked or not, in front of masked text. */
  lemma MaskStructure(u: Unit, t: Text)
    requires !Unsafe(u)
    ensures Mask([u] + t) == [u] + Mask(t)
  {
  }

  /** The masked print of a value, followed by anything a number ends at, parses to the
      value and leaves the rest. */
  lemma {:induction false} ValueReads(v: Value, rest: Text)
    requires WellFormed(v) && Delimited(rest)
    ensures ParseValue(Mask(Stringify(v)) + rest) == Ok(v, rest)
    decreases v, 1
  {
    match v
    case Null => LiteralReads(v, rest); MaskPlain(Stringify(v));
    case Bool(_) => LiteralReads(v, rest); MaskPlain(Stringify(v));
    case Number(literal) =>
      NumberUnits(literal);
      MaskPlain(literal);
      NumberReads(literal, rest);
    case Str(text) => StringReads(text, rest);
    case Arr(items) => ArrayReads(v, items, rest);
    case Obj(members) => ObjectReads(v, members, rest);
  }

  lemma StringReads(text: Text, rest: Text)
    ensures ParseValue(Mask(Stringify(Str(text))) + rest) == Ok(Str(text), rest)
  {
    hide Quote, Mask, ParseString;
    QuoteReads(text, rest);
  }

  lemma ArrayReads(v: Value, items: seq<Value>, rest: Text)
    requires v == Arr(items) && WellFormed(v)
    ensures ParseValue(Mask(Stringify(v)) + rest) == Ok(v, rest)
    decreases v, 0
  {
    hide Mask, StringifyItems, ParseItems;
    var close := [CLOSE_ARRAY] + rest;
    MaskConcat([OPEN_ARRAY] + StringifyItems(items), [CLOSE_ARRAY]);
    MaskStructure(OPEN_ARRAY, StringifyItems(items));
    MaskPlain([CLOSE_ARRAY]);
    var inside := Mask(StringifyItems(items)) + close;
    var t := Mask(Stringify(v)) + rest;
    assert t == [OPEN_ARRAY] + inside;
    assert t[1..] == inside;
    if items == [] {
      EmptyItems();
      assert inside == close && close[1..] == rest;
    } else {
      ItemsStart(items);
      ItemsRead(items, rest);
    }
  }

  lemma EmptyItems()
    ensures Mask(StringifyItems([])) == [] && Mask(StringifyMembers([])) == []
  {
  }

  lemma ItemsStart(items: seq<Value>)
    requires items != [] && WellFormed(items[0])
    ensures StartsValue(Mask(StringifyItems(items)))
  {
    hide Mask, Stringify, WellFormed;
    ValueStarts(items[0]);
    if |items| > 1 {
      MaskConcat(Stringify(items[0]), [COMMA] + StringifyItems(items[1..]));
      Associate(Stringify(items[0]), [COMMA], StringifyItems(items[1..]));
    }
  }

  lemma ParseItemsEnd(t: Text, v: Value, rest: Text)
    requires ParseValue(t) == Ok(v, [CLOSE_ARRAY] + rest)
    ensures ParseItems(t) == Ok([v], rest)
  {
  }

  lemma ParseItemsStep(t: Text, v: Value, next: Text, others: seq<Value>, rest: Text)
    requires ParseValue(t) == Ok(v, [COMMA] + next) && next != [] && !Space(next[0])
    requires ParseItems(next) == Ok(others, rest)
    ensures ParseItems(t) == Ok([v] + others, rest)
  {
  }

  lemma {:induction false} ItemsRead(items: seq<Value>, rest: Text)
    requires items != [] && forall i :: 0 <= i < |items| ==> WellFormed(items[i])
    ensures ParseItems(Mask(StringifyItems(items)) + ([CLOSE_ARRAY] + rest)) == Ok(items, rest)
    decreases items
  {
    hide Mask, Stringify, ParseValue, ParseItems, WellFormed;
    var close := [CLOSE_ARRAY] + rest;
    if |items| == 1 {
      ValueReads(items[0], close);
      ParseItemsEnd(Mask(Stringify(items[0])) + close, items[0], rest);
      assert [items[0]] == items;
    } else {
      var others := StringifyItems(items[1..]);
      ItemsRead(items[1..], rest);
      ItemsStart(items[1..]);
      Associate(Stringify(items[0]), [COMMA], others);
      MaskConcat(Stringify(items[0]), [COMMA] + others);
      MaskStructure(COMMA, others);
      var next := Mask(others) + close;
      var t := Mask(StringifyItems(items)) + close;
      assert t == Mask(Stringify(items[0])) + ([COMMA] + next);
      ValueReads(items[0], [COMMA] + next);
      ParseItemsStep(t, items[0], next, items[1..], rest);
      assert [items[0]] + items[1..] == items;
    }
  }

  lemma ObjectReads(v: Value, members: seq<Member>, rest: Text)
    requires v == Obj(members) && WellFormed(v)
    ensures ParseValue(Mask(Stringify(v)) + rest) == Ok(v, rest)
    decreases v, 0
  {
    hide Mask, StringifyMembers, ParseMembers;
    var close := [CLOSE_OBJECT] + rest;
    MaskConcat([OPEN_OBJECT] + StringifyMembers(members), [CLOSE_OBJECT]);
    MaskStructure(OPEN_OBJECT, StringifyMembers(members));
    MaskPlain([CLOSE_OBJECT]);
    var inside := Mask(StringifyMembers(members)) + close;
    var t := Mask(Stringify(v)) + rest;
    assert t == [OPEN_OBJECT] + inside;
    assert t[1..] == inside;
    if members == [] {
      EmptyItems();
      assert inside == close && close[1..] == rest;
    } else {
      MembersStart(members);
      MembersRead(members, rest);
    }
  }

  /** A printed member starts with a quote. */
  lemma MembersStart(members: seq<Member>)
    requires members != []
    ensures var t := Mask(StringifyMembers(members)); t != [] && t[0] == QUOTE
  {
  }

  lemma MemberReads(m: Member, rest: Text)
    requires WellFormed(m.value) && Delimited(rest)
    ensures ParseMember(Mask(StringifyMember(m)) + rest) == Ok(m, rest)
    decreases m, 0
  {
    hide Quote, Mask, ParseString, Stringify, ParseValue, WellFormed;
    var value := Mask(Stringify(m.value)) + rest;
    Associate(Quote(m.name), [COLON], Stringify(m.value));
    MaskConcat(Quote(m.name), [COLON] + Stringify(m.value));
    MaskStructure(COLON, Stringify(m.value));
    var t := Mask(StringifyMember(m)) + rest;
    assert t == Mask(Quote(m.name)) + ([COLON] + value);
    QuoteReads(m.name, [COLON] + value);
    assert ([COLON] + value)[1..] == value;
    ValueStarts(m.value);
    ValueReads(m.value, rest);
  }

  lemma ParseMembersEnd(t: Text, m: Member, rest: Text)
    requires ParseMember(t) == Ok(m, [CLOSE_OBJECT] + rest)
    ensures ParseMembers(t) == Ok([m], rest)
  {
  }

  lemma ParseMembersStep(t: Text, m: Member, next: Text, others: seq<Member>, rest: Text)
    requires ParseMember(t) == Ok(m, [COMMA] + next) && next != [] && !Space(next[0])
    requires ParseMembers(next) == Ok(others, rest)
    ensures ParseMembers(t) == Ok([m] + others, rest)
  {
    hide ParseMember;
    assert ([COMMA] + next)[1..] == next;
  }

  lemma {:induction false} MembersRead(members: seq<Member>, rest: Text)
    requires members != [] && forall i :: 0 <= i < |members| ==> WellFormed(members[i].value)
    ensures ParseMembers(Mask(StringifyMembers(members)) + ([CLOSE_OBJECT] + rest)) == Ok(members, rest)
    decreases members
  {
    hide Mask, StringifyMember, ParseMember, ParseMembers, WellFormed;
    var close := [CLOSE_OBJECT] + rest;
    if |members| == 1 {
      MemberReads(members[0], close);
      ParseMembersEnd(Mask(StringifyMember(members[0])) + close, members[0], rest);
      assert [members[0]] == members;
    } else {
      var others := StringifyMembers(members[1..]);
      MembersRead(members[1..], rest);
      MembersStart(members[1..]);
      Associate(StringifyMember(members[0]), [COMMA], others);
      MaskConcat(StringifyMember(members[0]), [COMMA] + others);
      MaskStructure(COMMA, others);
      var next := Mask(others) + close;
      var t := Mask(StringifyMembers(members)) + close;
      assert t == Mask(StringifyMember(members[0])) + ([COMMA] + next);
      MemberReads(members[0], [COMMA] + next);
      ParseMembersStep(t, members[0], next, members[1..], rest);
      assert [members[0]] + members[1..] == members;
    }
  }

  /** For every JSON value, the escaped text parses back to the value. */
  lemma EscapeJsonReadsBack(v: Value)
    requires WellFormed(v)
    ensures Parse(EscapeJson(v)) == Ok(v, [])
  {
    hide EscapeJson, Stringify, Mask, ParseValue, WellFormed;
    EscapeJsonIsMask(v);
    ValueStarts(v);
    ValueReads(v, []);
    assert Mask(Stringify(v)) + [] == Mask(Stringify(v));
  }
}
