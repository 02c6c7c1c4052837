/** Firmware names as src/hardware.ts reads them: control characters become spaces, runs of white space
    one space, the ends are trimmed and the rest cut to a length. */
module FirmwareText {
  import opened JsCharacters

  predicate Control(c: char) { c as int <= 0x1F || c as int == 0x7F }

  function Run(s: string, hit: char -> bool): (n: nat)
    ensures n <= |s| && (forall i :: 0 <= i < n ==> hit(s[i])) && (n < |s| ==> !hit(s[n]))
  {
    if s == "" || !hit(s[0]) then 0 else 1 + Run(s[1..], hit)
  }

  /** Every run of at least so many hits becomes one space. */
  function ReplaceRuns(s: string, hit: char -> bool, least: nat): (r: string)
    requires least > 0
    ensures |r| <= |s|
    decreases |s|
  {
    if s == "" then ""
    else if Run(s, hit) >= least then " " + ReplaceRuns(s[Run(s, hit)..], hit, least)
    else [s[0]] + ReplaceRuns(s[1..], hit, least)
  }

  /** No character of codes 0 to 31 or 127. */
  predicate Clean(s: string) { forall i :: 0 <= i < |s| ==> 31 < s[i] as int != 127 }

  predicate SingleSpaced(s: string) { forall i :: 0 <= i < |s| - 1 ==> !(JsSpace(s[i]) && JsSpace(s[i + 1])) }

  lemma {:induction false} ControlsGo(s: string)
    ensures Clean(ReplaceRuns(s, Control, 1))
    decreases |s|
  {
    if s != "" {
      if Run(s, Control) >= 1 {
        ControlsGo(s[Run(s, Control)..]);
      }
      ControlsGo(s[1..]);
    }
  }

  lemma {:induction false} SpacesStayClean(s: string)
    requires Clean(s)
    ensures Clean(ReplaceRuns(s, JsSpace, 2))
    decreases |s|
  {
    if s != "" {
      if Run(s, JsSpace) >= 2 {
        SpacesStayClean(s[Run(s, JsSpace)..]);
      }
      SpacesStayClean(s[1..]);
    }
  }

  /** No two white space characters are left side by side. */
  lemma {:induction false} RunsGo(s: string)
    ensures var r := ReplaceRuns(s, JsSpace, 2);
            SingleSpaced(r) && (r != "" ==> s != "" && (!JsSpace(s[0]) ==> !JsSpace(r[0])))
    decreases |s|
  {
    if s != "" {
      RunsGo(s[1..]);
      var n := Run(s, JsSpace);
      if n >= 2 {
        RunsGo(s[n..]);
      }
    }
  }

  lemma PartIsTidy(s: string, i: int, j: int)
    requires 0 <= i <= j <= |s| && Clean(s) && SingleSpaced(s)
    ensures Clean(s[i..j]) && SingleSpaced(s[i..j])
  {
  }

  /** The first pass takes the control characters out. */
  function Spaced(value: string): string { ReplaceRuns(value, Control, 1) }

  /** The second leaves single spaces. */
  function Single(value: string): string { ReplaceRuns(Spaced(value), JsSpace, 2) }

  function Cut(s: string, max: nat): string { if |s| <= max then s else s[..max] }

  function Text(value: string, max: nat): string { Cut(Trim(Single(value)), max) }

  lemma SingleIsTidy(value: string)
    ensures Clean(Single(value)) && SingleSpaced(Single(value))
  {
    hide Clean, SingleSpaced, ReplaceRuns;
    ControlsGo(value);
    SpacesStayClean(Spaced(value));
    RunsGo(Spaced(value));
  }

  lemma TrimIsTidy(s: string)
    requires Clean(s) && SingleSpaced(s)
    ensures Clean(Trim(s)) && SingleSpaced(Trim(s)) && (Trim(s) != "" ==> !JsSpace(Trim(s)[0]))
  {
    hide Clean, SingleSpaced, JsSpace, TrimStart, TrimEnd;
    var started := TrimStart(s);
    PartIsTidy(s, |s| - |started|, |s|);
    assert s[|s| - |started|..|s|] == started;
    PartIsTidy(started, 0, |TrimEnd(started)|);
    assert started[0..|TrimEnd(started)|] == TrimEnd(started);
  }

  lemma CutIsTidy(s: string, max: nat)
    requires Clean(s) && SingleSpaced(s) && (s != "" ==> !JsSpace(s[0]))
    ensures Clean(Cut(s, max)) && SingleSpaced(Cut(s, max)) && |Cut(s, max)| <= max
    ensures Cut(s, max) != "" ==> !JsSpace(Cut(s, max)[0])
  {
    hide Clean, SingleSpaced, JsSpace;
    if |s| > max {
      PartIsTidy(s, 0, max);
      assert s[0..max] == s[..max];
    }
  }

  /** A name that was read has no control character, NUL least of all, no doubled or leading space,
      and at most the length asked for. */
  lemma TextIsClean(value: string, max: nat)
    ensures var r := Text(value, max);
            Clean(r) && SingleSpaced(r) && |r| <= max && (r != "" ==> !JsSpace(r[0]))
  {
    hide Clean, SingleSpaced, JsSpace, Single, Trim, Cut;
    SingleIsTidy(value);
    TrimIsTidy(Single(value));
    CutIsTidy(Trim(Single(value)), max);
  }

  // ------------------------------------------------------------ what a name keeps

  lemma {:induction false} NothingToReplace(s: string)
    requires Clean(s)
    ensures ReplaceRuns(s, Control, 1) == s
  {
    if s != "" {
      assert !Control(s[0]);
      NothingToReplace(s[1..]);
    }
  }

  lemma {:induction false} NothingToJoin(s: string)
    requires SingleSpaced(s)
    ensures ReplaceRuns(s, JsSpace, 2) == s
  {
    hide JsSpace;
    if s != "" {
      assert Run(s, JsSpace) < 2 by { ShortRun(s); }
      PartIsSingle(s);
      NothingToJoin(s[1..]);
    }
  }

  lemma ShortRun(s: string)
    requires SingleSpaced(s)
    ensures Run(s, JsSpace) < 2
  {
    hide JsSpace;
    if |s| >= 2 {
      assert !(JsSpace(s[0]) && JsSpace(s[0 + 1]));
    }
  }

  lemma PartIsSingle(s: string)
    requires SingleSpaced(s) && s != ""
    ensures SingleSpaced(s[1..])
  {
    hide JsSpace;
    forall i | 0 <= i < |s[1..]| - 1
      ensures !(JsSpace(s[1..][i]) && JsSpace(s[1..][i + 1]))
    {
      assert s[1..][i] == s[i + 1] && s[1..][i + 1] == s[i + 1 + 1];
    }
  }

  /** A name that is tidy already is read as it is. */
  lemma TidyNamesStay(s: string, max: nat)
    requires Clean(s) && SingleSpaced(s) && Trimmed(s) && |s| <= max
    ensures Text(s, max) == s
  {
    hide Clean, SingleSpaced, Trimmed, ReplaceRuns, Trim, Blank;
    NothingToReplace(s);
    NothingToJoin(s);
    assert Blank("") by { EmptyIsBlank(); }
    TrimIsText("", s, "");
    assert "" + s + "" == s;
  }

  lemma EmptyIsBlank()
    ensures Blank("")
  {
  }

  predicate Seen(c: char) { !Control(c) && !JsSpace(c) }

  /** The characters that are neither control characters nor white space. */
  function Visible(s: string): string {
    if s == "" then "" else if Seen(s[0]) then [s[0]] + Visible(s[1..]) else Visible(s[1..])
  }

  lemma {:induction false} VisibleOfBoth(a: string, b: string)
    ensures Visible(a + b) == Visible(a) + Visible(b)
  {
    hide Seen;
    if a == "" {
      assert a + b == b;
    } else {
      assert (a + b)[1..] == a[1..] + b;
      VisibleOfBoth(a[1..], b);
    }
  }

  lemma {:induction false} NothingVisible(s: string)
    requires forall i :: 0 <= i < |s| ==> !Seen(s[i])
    ensures Visible(s) == ""
  {
    if s != "" {
      NothingVisible(s[1..]);
    }
  }

  lemma {:induction false} ReplacingKeepsVisible(s: string, hit: char -> bool, least: nat)
    requires least > 0 && forall c :: hit(c) ==> !Seen(c)
    ensures Visible(ReplaceRuns(s, hit, least)) == Visible(s)
    decreases |s|
  {
    hide Seen;
    var n := Run(s, hit);
    if s == "" {
    } else if n >= least {
      ReplacingKeepsVisible(s[n..], hit, least);
      VisibleOfBoth(s[..n], s[n..]);
      NothingVisible(s[..n]);
      assert s[..n] + s[n..] == s;
      SpaceIsUnseen();
      VisibleOfBoth(" ", ReplaceRuns(s[n..], hit, least));
      NothingVisible(" ");
    } else {
      ReplacingKeepsVisible(s[1..], hit, least);
      var rest := ReplaceRuns(s[1..], hit, least);
      assert ([s[0]] + rest)[1..] == rest;
    }
  }

  lemma SpaceIsUnseen()
    ensures !Seen(' ')
  {
  }

  lemma TrimKeepsVisible(s: string)
    ensures Visible(Trim(s)) == Visible(s)
  {
    hide Visible, Seen, Trim, Blank;
    var before, after := TrimTakesSpace(s);
    VisibleOfBoth(before + Trim(s), after);
    VisibleOfBoth(before, Trim(s));
    BlankIsUnseen(before);
    BlankIsUnseen(after);
  }

  lemma BlankIsUnseen(s: string)
    requires Blank(s)
    ensures Visible(s) == ""
  {
    NothingVisible(s);
  }

  /** Up to the length it is cut to, a name keeps every visible character, in order. */
  lemma TextKeepsVisible(value: string, max: nat)
    ensures Visible(Text(value, |value|)) == Visible(value)
    ensures Text(value, max) == if |Text(value, |value|)| <= max then Text(value, |value|) else Text(value, |value|)[..max]
  {
    hide Visible, ReplaceRuns, Trim, Control, JsSpace;
    assert forall c :: Control(c) ==> !Seen(c);
    assert forall c :: JsSpace(c) ==> !Seen(c);
    ReplacingKeepsVisible(value, Control, 1);
    ReplacingKeepsVisible(Spaced(value), JsSpace, 2);
    TrimKeepsVisible(Single(value));
    TrimIsShorter(Single(value));
  }

  lemma TrimIsShorter(s: string)
    ensures |Trim(s)| <= |s|
  {
  }
}
