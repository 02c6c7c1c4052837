/** Character classes of ECMA-262 that several sources rely on, and trimming. */
module JsCharacters {
  /** WhiteSpace and LineTerminator: what parseInt and trim skip and the pattern \s matches. */
  predicate JsSpace(c: char) {
    var n := c as int;
    9 <= n <= 13 || n == 32 || n == 0xA0 || n == 0x1680 || 0x2000 <= n <= 0x200A || n == 0x2028 || n == 0x2029
    || n == 0x202F || n == 0x205F || n == 0x3000 || n == 0xFEFF
  }

  /** These are the twenty-five characters of the standard's tables, by code point. */
  function SpaceCodes(): set<int> {
    {0x0009, 0x000A, 0x000B, 0x000C, 0x000D, 0x0020, 0x00A0, 0x1680, 0x2000, 0x2001, 0x2002, 0x2003, 0x2004, 0x2005,
     0x2006, 0x2007, 0x2008, 0x2009, 0x200A, 0x2028, 0x2029, 0x202F, 0x205F, 0x3000, 0xFEFF}
  }

  lemma SpacesAreThose(c: char)
    ensures JsSpace(c) <==> c as int in SpaceCodes()
  {
  }

  predicate Blank(s: string) { forall i :: 0 <= i < |s| ==> JsSpace(s[i]) }

  /** No white space at either end. */
  predicate Trimmed(s: string) { s != "" ==> !JsSpace(s[0]) && !JsSpace(s[|s| - 1]) }

  function TrimStart(s: string): (r: string)
    ensures |r| <= |s| && r == s[|s| - |r|..] && (r != "" ==> !JsSpace(r[0]))
    ensures Blank(s[..|s| - |r|])
  {
    if s != "" && JsSpace(s[0]) then TrimStart(s[1..]) else s
  }

  function TrimEnd(s: string): (r: string)
    ensures |r| <= |s| && r == s[..|r|] && (r != "" ==> !JsSpace(r[|r| - 1]))
    ensures Blank(s[|r|..])
  {
    if s != "" && JsSpace(s[|s| - 1]) then TrimEnd(s[..|s| - 1]) else s
  }

  /** String.prototype.trim */
  function Trim(s: string): string { TrimEnd(TrimStart(s)) }

  /** Trimming takes white space off both ends and nothing else. */
  lemma TrimTakesSpace(s: string) returns (before: string, after: string)
    ensures s == before + Trim(s) + after && Blank(before) && Blank(after) && Trimmed(Trim(s))
  {
    hide JsSpace, TrimStart, TrimEnd;
    var started := TrimStart(s);
    before, after := s[..|s| - |started|], started[|Trim(s)|..];
    assert s == before + started;
    assert started == Trim(s) + after;
  }

  lemma {:induction false} TrimStartOf(before: string, rest: string)
    requires Blank(before) && (rest != "" ==> !JsSpace(rest[0]))
    ensures TrimStart(before + rest) == rest
  {
    hide JsSpace;
    if before == "" {
      assert before + rest == rest;
    } else {
      assert (before + rest)[1..] == before[1..] + rest;
      TrimStartOf(before[1..], rest);
    }
  }

  lemma {:induction false} TrimEndOf(rest: string, after: string)
    requires Blank(after) && (rest != "" ==> !JsSpace(rest[|rest| - 1]))
    ensures TrimEnd(rest + after) == rest
  {
    hide JsSpace;
    if after == "" {
      assert rest + after == rest;
    } else {
      var n := |after| - 1;
      assert (rest + after)[..|rest| + n] == rest + after[..n];
      TrimEndOf(rest, after[..n]);
    }
  }

  /** Whatever white space is put around a text, trimming gives the text. */
  lemma TrimIsText(before: string, text: string, after: string)
    requires Blank(before) && Blank(after) && Trimmed(text)
    ensures Trim(before + text + after) == text
  {
    hide JsSpace, TrimStart, TrimEnd;
    if text == "" {
      TrimStartOf(before + after, "");
      TrimEndOf("", "");
      assert before + text + after == before + after + "";
      assert "" + "" == "";
    } else {
      TrimStartOf(before, text + after);
      TrimEndOf(text, after);
      assert before + text + after == before + (text + after);
    }
  }
}
