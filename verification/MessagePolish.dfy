/** Polishing a reply (packages/channel-runtime/src/message-formatter.ts:42-53). */
module MessagePolish {
  import opened MessageSplit
  import opened Texts

  // ----- the steps of polishing -----

  function JoinCrLf(text: Text): Text {
    if |text| < 2 then text
    else if text[0] == CR && text[1] == NL then [NL] + JoinCrLf(text[2..])
    else [text[0]] + JoinCrLf(text[1..])
  }

  function PlainSpaces(text: Text): Text {
    if text == [] then [] else [if text[0] == NBSP then SPACE else text[0]] + PlainSpaces(text[1..])
  }

  function TrimEach(lines: seq<Text>): seq<Text> {
    if lines == [] then [] else [TrimEnd(lines[0])] + TrimEach(lines[1..])
  }

  /** How many line breaks the text starts with. */
  function Run(text: Text): (n: nat)
    ensures n <= |text| && (forall i :: 0 <= i < n ==> text[i] == NL) && (n < |text| ==> text[n] != NL)
  {
    if text == [] || text[0] != NL then 0 else 1 + Run(text[1..])
  }

  /** Each run of three or more line breaks becomes two. */
  function CollapseBreaks(text: Text): Text
    decreases |text|
  {
    if text == [] then []
    else if Run(text) >= 3 then [NL, NL] + CollapseBreaks(text[Run(text)..])
    else [text[0]] + CollapseBreaks(text[1..])
  }

  function PolishText(text: Text): Text {
    var normalized := TrimEnd(TrimStart(PlainSpaces(JoinCrLf(text))));
    if normalized == [] then [] else CollapseBreaks(JoinLines(TrimEach(Lines(normalized))))
  }

  // ----- what a polished text is -----

  /** No line ends with white space. */
  ghost predicate LinesTrimmed(text: Text) {
    forall i :: 0 <= i < |text| && White(text[i]) && text[i] != NL ==> i + 1 < |text| && text[i + 1] != NL
  }

  ghost predicate NoTriple(text: Text) {
    forall i :: 0 <= i && DoubleAt(text, i) && i + 2 < |text| ==> text[i + 2] != NL
  }

  ghost predicate Framed(text: Text) {
    text != [] && !White(text[0]) && !White(text[|text| - 1])
  }

  ghost predicate Polished(text: Text) {
    Framed(text) && NBSP !in text && LinesTrimmed(text) && NoTriple(text)
  }

  function InkOf(c: CodeUnit): Text {
    if White(c) then [] else [c]
  }

  /** The characters that are not white space. */
  function Ink(text: Text): Text {
    if text == [] then [] else InkOf(text[0]) + Ink(text[1..])
  }

  lemma {:induction false} InkPlus(a: Text, b: Text)
    ensures Ink(a + b) == Ink(a) + Ink(b)
  {
    hide InkOf;
    if a == [] {
      assert a + b == b;
    } else {
      InkPlus(a[1..], b);
      assert (a + b)[0] == a[0] && (a + b)[1..] == a[1..] + b;
      Associates(InkOf(a[0]), Ink(a[1..]), Ink(b));
    }
  }

  lemma Associates(a: Text, b: Text, c: Text)
    ensures a + (b + c) == (a + b) + c
  {
  }

  // ----- line ends and spaces -----

  lemma {:induction false} JoinCrLfInk(text: Text)
    ensures Ink(JoinCrLf(text)) == Ink(text)
    decreases |text|
  {
    if |text| >= 2 {
      if text[0] == CR && text[1] == NL {
        JoinCrLfInk(text[2..]);
        assert text[1..][1..] == text[2..];
      } else {
        JoinCrLfInk(text[1..]);
      }
    }
  }

  lemma {:induction false} PlainSpacesInk(text: Text)
    ensures Ink(PlainSpaces(text)) == Ink(text)
    ensures NBSP !in PlainSpaces(text)
  {
    if text != [] {
      PlainSpacesInk(text[1..]);
    }
  }

  lemma {:induction false} NoCrLfStays(text: Text)
    requires forall i :: 0 <= i < |text| - 1 ==> !(text[i] == CR && text[i + 1] == NL)
    ensures JoinCrLf(text) == text
  {
    if |text| >= 2 {
      forall i | 0 <= i < |text[1..]| - 1
        ensures !(text[1..][i] == CR && text[1..][i + 1] == NL)
      {
        assert !(text[i + 1] == CR && text[i + 1 + 1] == NL);
      }
      assert !(text[0] == CR && text[0 + 1] == NL);
      NoCrLfStays(text[1..]);
    }
  }

  lemma {:induction false} NoNbspStays(text: Text)
    requires NBSP !in text
    ensures PlainSpaces(text) == text
  {
    if text != [] {
      assert NBSP !in text[1..];
      NoNbspStays(text[1..]);
    }
  }

  // ----- trimming -----

  lemma {:induction false} TrimStartGives(text: Text)
    ensures Ink(TrimStart(text)) == Ink(text)
    ensures TrimStart(text) != [] ==> !White(TrimStart(text)[0])
    ensures NBSP !in text ==> NBSP !in TrimStart(text)
  {
    if text != [] && White(text[0]) {
      assert NBSP !in text ==> NBSP !in text[1..];
      TrimStartGives(text[1..]);
    }
  }

  lemma {:induction false} TrimEndInk(text: Text)
    ensures Ink(TrimEnd(text)) == Ink(text)
  {
    if text != [] && White(text[|text| - 1]) {
      TrimEndInk(text[..|text| - 1]);
      WhiteLast(text);
    }
  }

  lemma WhiteLast(text: Text)
    requires text != [] && White(text[|text| - 1])
    ensures Ink(text) == Ink(text[..|text| - 1])
  {
    hide Ink, White;
    var last := text[|text| - 1];
    WhiteInk(last);
    InkPlus(text[..|text| - 1], [last]);
    assert text == text[..|text| - 1] + [last];
  }

  lemma WhiteInk(c: CodeUnit)
    requires White(c)
    ensures Ink([c]) == []
  {
  }

  /** Trimming the end keeps a prefix that ends in ink, and drops white space only. */
  lemma {:induction false} TrimEndGives(text: Text)
    ensures TrimEnd(text) <= text
    ensures TrimEnd(text) != [] ==> !White(TrimEnd(text)[|TrimEnd(text)| - 1])
    ensures text != [] && !White(text[0]) ==> TrimEnd(text) != []
    ensures Ink(TrimEnd(text)) == Ink(text)
  {
    TrimEndInk(text);
    hide Ink;
    if text != [] && White(text[|text| - 1]) {
      var shorter := text[..|text| - 1];
      TrimEndGives(shorter);
      assert shorter != [] ==> shorter[0] == text[0];
    }
  }

  /** A text without its trimmed start and end is framed by ink, or empty. */
  lemma NormalizedIs(text: Text)
    ensures var n := TrimEnd(TrimStart(PlainSpaces(JoinCrLf(text))));
      (n == [] || Framed(n)) && NBSP !in n && Ink(n) == Ink(text)
  {
    var plain := PlainSpaces(JoinCrLf(text));
    JoinCrLfInk(text);
    PlainSpacesInk(JoinCrLf(text));
    TrimStartGives(plain);
    TrimEndGives(TrimStart(plain));
  }

  // ----- the lines -----

  /** Trimming the lines from here on and joining them again. */
  function TrimmedFrom(text: Text, at: nat): Text
    requires at <= |text|
  {
    JoinLines(TrimEach(LinesFrom(text, at)))
  }

  lemma TrimmedLine(text: Text, at: nat)
    requires at <= |text|
    ensures var e := LineEnd(text, at);
      TrimmedFrom(text, at) ==
        if e == |text| then TrimEnd(text[at..e]) else TrimEnd(text[at..e]) + [NL] + TrimmedFrom(text, e + 1)
  {
    hide JoinLines, TrimEach, TrimEnd, LineEnd, LinesFrom;
    FirstLine(text, at);
    TrimFirst(LinesFrom(text, at));
    JoinFirst(TrimEach(LinesFrom(text, at)));
    var e := LineEnd(text, at);
    if e < |text| {
      TrimFirst(LinesFrom(text, e + 1));
    } else {
      TrimNone();
    }
  }

  lemma TrimNone()
    ensures TrimEach([]) == []
  {
  }

  lemma TrimFirst(lines: seq<Text>)
    requires lines != []
    ensures TrimEach(lines) != [] && TrimEach(lines)[0] == TrimEnd(lines[0])
    ensures TrimEach(lines)[1..] == TrimEach(lines[1..])
  {
  }

  /** The text from here on is its line, and a break and the rest if there are more lines. */
  lemma LineAndRest(text: Text, at: nat)
    requires at <= |text|
    ensures var e := LineEnd(text, at);
      text[at..] == if e == |text| then text[at..e] else text[at..e] + [NL] + text[e + 1..]
  {
    hide LineEnd;
    var e := LineEnd(text, at);
    if e < |text| {
      assert text[e..e + 1] == [NL];
      Glue(text, at, e, e + 1);
    }
  }

  lemma LinesTrimmedPlus(line: Text, rest: Text)
    requires NL !in line && (line != [] ==> !White(line[|line| - 1])) && LinesTrimmed(rest)
    ensures LinesTrimmed(line + [NL] + rest)
  {
    var all := line + [NL] + rest;
    forall i | 0 <= i < |all| && White(all[i]) && all[i] != NL
      ensures i + 1 < |all| && all[i + 1] != NL
    {
      if i < |line| {
        assert all[i] == line[i];
        assert all[i + 1] == line[i + 1];
      } else {
        assert all[i] == rest[i - |line| - 1];
        assert all[i + 1] == rest[i - |line| - 1 + 1];
      }
    }
  }

  lemma NoNlInSlice(text: Text, from: nat, to: nat)
    requires from <= to <= |text| && forall i :: from <= i < to ==> text[i] != NL
    ensures NL !in text[from..to]
  {
  }

  lemma {:induction false} TrimmedLinesAre(text: Text, at: nat)
    requires at <= |text|
    ensures LinesTrimmed(TrimmedFrom(text, at))
    decreases |text| - at
  {
    hide TrimmedFrom, TrimEnd, LineEnd, White;
    var e := LineEnd(text, at);
    TrimmedLine(text, at);
    NoNlInSlice(text, at, e);
    TrimEndGives(text[at..e]);
    PrefixHas(text[at..e], TrimEnd(text[at..e]), NL);
    if e < |text| {
      TrimmedLinesAre(text, e + 1);
      hide LinesTrimmed;
      LinesTrimmedPlus(TrimEnd(text[at..e]), TrimmedFrom(text, e + 1));
    } else {
      LineTrimmed(TrimEnd(text[at..e]));
    }
  }

  lemma LineTrimmed(line: Text)
    requires NL !in line && (line != [] ==> !White(line[|line| - 1]))
    ensures LinesTrimmed(line)
  {
  }

  lemma PrefixHas(text: Text, prefix: Text, c: CodeUnit)
    requires prefix <= text && c !in text
    ensures c !in prefix
  {
  }

  lemma {:induction false} TrimmedHasNoNbsp(text: Text, at: nat)
    requires at <= |text| && NBSP !in text
    ensures NBSP !in TrimmedFrom(text, at)
    decreases |text| - at
  {
    hide TrimmedFrom, TrimEnd, LineEnd, White;
    var e := LineEnd(text, at);
    TrimmedLine(text, at);
    TrimEndGives(text[at..e]);
    PrefixHas(text[at..e], TrimEnd(text[at..e]), NBSP);
    if e < |text| {
      TrimmedHasNoNbsp(text, e + 1);
    }
  }

  lemma {:induction false} TrimmedInk(text: Text, at: nat)
    requires at <= |text|
    ensures Ink(TrimmedFrom(text, at)) == Ink(text[at..])
    decreases |text| - at
  {
    hide TrimmedFrom, TrimEnd, LineEnd, Ink, White;
    var e := LineEnd(text, at);
    TrimmedLine(text, at);
    LineAndRest(text, at);
    TrimEndGives(text[at..e]);
    if e < |text| {
      TrimmedInk(text, e + 1);
      InkOfLine(TrimEnd(text[at..e]), TrimmedFrom(text, e + 1));
      InkOfLine(text[at..e], text[e + 1..]);
    }
  }

  lemma InkOfLine(line: Text, rest: Text)
    ensures Ink(line + [NL] + rest) == Ink(line) + Ink(rest)
  {
    Associates(line, [NL], rest);
    InkPlus(line, [NL] + rest);
    hide Ink;
    InkOfBreak(rest);
  }

  lemma InkOfBreak(rest: Text)
    ensures Ink([NL] + rest) == Ink(rest)
  {
    assert ([NL] + rest)[1..] == rest;
  }

  lemma {:induction false} TrimmedEndsAlike(text: Text, at: nat)
    requires at < |text| && !White(text[|text| - 1])
    ensures var r := TrimmedFrom(text, at); r != [] && r[|r| - 1] == text[|text| - 1]
    decreases |text| - at
  {
    hide TrimmedFrom, LineEnd, TrimEnd, White;
    var e := LineEnd(text, at);
    TrimmedLine(text, at);
    InkIsNoBreak(text[|text| - 1]);
    if e < |text| {
      TrimmedEndsAlike(text, e + 1);
    } else {
      LastStays(text[at..e]);
    }
  }

  lemma InkIsNoBreak(c: CodeUnit)
    ensures !White(c) ==> c != NL
  {
  }

  lemma LastStays(line: Text)
    requires line != [] && !White(line[|line| - 1])
    ensures TrimEnd(line) == line
  {
  }

  lemma TrimmedStartsAlike(text: Text)
    requires text != [] && !White(text[0])
    ensures var r := TrimmedFrom(text, 0); r != [] && r[0] == text[0]
  {
    var e := LineEnd(text, 0);
    assert White(NL);
    assert e > 0;
    TrimmedLine(text, 0);
    TrimEndGives(text[0..e]);
  }

  /** A text whose lines are trimmed is the join of its trimmed lines. */
  lemma {:induction false} TrimmedStays(text: Text, at: nat)
    requires at <= |text| && LinesTrimmed(text)
    ensures TrimmedFrom(text, at) == text[at..]
    decreases |text| - at
  {
    var e := LineEnd(text, at);
    TrimmedLine(text, at);
    LineAndRest(text, at);
    LineIsTrimmed(text, at, e);
    hide TrimmedFrom, TrimEnd, LineEnd, LinesTrimmed;
    if e < |text| {
      TrimmedStays(text, e + 1);
    }
  }

  lemma LineIsTrimmed(text: Text, at: nat, e: nat)
    requires at <= e <= |text| && LinesTrimmed(text) && (e < |text| ==> text[e] == NL)
    requires forall i :: at <= i < e ==> text[i] != NL
    ensures TrimEnd(text[at..e]) == text[at..e]
  {
    assert at < e ==> text[e - 1] == text[at..e][e - at - 1];
  }

  // ----- runs of line breaks -----

  lemma {:induction false} BreaksInk(text: Text, n: nat)
    requires n <= |text| && forall i :: 0 <= i < n ==> text[i] == NL
    ensures Ink(text) == Ink(text[n..])
  {
    if n > 0 {
      BreaksInk(text[1..], n - 1);
      assert text == [NL] + text[1..];
      InkOfBreak(text[1..]);
      assert text[1..][n - 1..] == text[n..];
    } else {
      assert text[0..] == text;
    }
  }

  lemma {:induction false} CollapseInk(text: Text)
    ensures Ink(CollapseBreaks(text)) == Ink(text)
    decreases |text|
  {
    var n := Run(text);
    if text != [] && n >= 3 {
      CollapseInk(text[n..]);
      BreaksInk(text, n);
      TwoBreaksInk(CollapseBreaks(text[n..]));
    } else if text != [] {
      CollapseInk(text[1..]);
    }
  }

  lemma TwoBreaksInk(rest: Text)
    ensures Ink([NL, NL] + rest) == Ink(rest)
  {
    assert [NL, NL] + rest == [NL] + ([NL] + rest);
    InkOfBreak([NL] + rest);
    InkOfBreak(rest);
  }

  /** Collapsing changes neither where the text starts nor where it ends. */
  lemma {:induction false} CollapseKeeps(text: Text)
    ensures text != [] ==> CollapseBreaks(text) != [] && CollapseBreaks(text)[0] == text[0]
    ensures text != [] && text[|text| - 1] != NL ==>
      CollapseBreaks(text)[|CollapseBreaks(text)| - 1] == text[|text| - 1]
    ensures NBSP !in text ==> NBSP !in CollapseBreaks(text)
    decreases |text|
  {
    var n := Run(text);
    if text != [] {
      var rest := text[if n >= 3 then n else 1..];
      CollapseKeeps(rest);
      assert NBSP !in text ==> NBSP !in rest;
      assert rest != [] ==> rest[|rest| - 1] == text[|text| - 1];
    }
  }

  lemma NoTriplePlus(c: CodeUnit, rest: Text)
    requires NoTriple(rest) && (c == NL ==> !DoubleAt(rest, 0))
    ensures NoTriple([c] + rest)
  {
    var all := [c] + rest;
    forall i | 0 <= i && DoubleAt(all, i) && i + 2 < |all|
      ensures all[i + 2] != NL
    {
      assert i > 0 ==> DoubleAt(rest, i - 1);
    }
  }

  /** Collapsing leaves at most two line breaks in a row. */
  lemma {:induction false} CollapseRun(text: Text)
    ensures Run(CollapseBreaks(text)) == if Run(text) >= 3 then 2 else Run(text)
    ensures NoTriple(CollapseBreaks(text))
    decreases |text|
  {
    var n := Run(text);
    if text != [] && n >= 3 {
      var rest := text[n..];
      CollapseRun(rest);
      CollapseKeeps(rest);
      var r := CollapseBreaks(rest);
      hide CollapseBreaks;
      NoTriplePlus(NL, r);
      NoTriplePlus(NL, [NL] + r);
      assert [NL, NL] + r == [NL] + ([NL] + r);
      assert ([NL] + r)[1..] == r && ([NL] + ([NL] + r))[1..] == [NL] + r;
    } else if text != [] {
      var r := CollapseBreaks(text[1..]);
      CollapseRun(text[1..]);
      assert Run(text[1..]) == if n == 0 then Run(text[1..]) else n - 1;
      assert CollapseBreaks(text) == [text[0]] + r;
      hide CollapseBreaks;
      NoTriplePlus(text[0], r);
      assert ([text[0]] + r)[1..] == r;
    }
  }

  lemma {:induction false} CollapseLines(text: Text)
    requires LinesTrimmed(text)
    ensures LinesTrimmed(CollapseBreaks(text))
    decreases |text|
  {
    var n := Run(text);
    if text != [] {
      var rest := text[if n >= 3 then n else 1..];
      TailLines(text, if n >= 3 then n else 1);
      CollapseLines(rest);
      CollapseKeeps(rest);
      var r := CollapseBreaks(rest);
      if n >= 3 {
        HeadLines(NL, r);
        HeadLines(NL, [NL] + r);
        assert [NL, NL] + r == [NL] + ([NL] + r);
      } else {
        assert White(text[0]) && text[0] != NL ==> |text| > 1 && text[1] != NL && rest[0] == text[1];
        HeadLines(text[0], r);
      }
    }
  }

  lemma TailLines(text: Text, n: nat)
    requires LinesTrimmed(text) && n <= |text|
    ensures LinesTrimmed(text[n..])
  {
    forall i | 0 <= i < |text[n..]| && White(text[n..][i]) && text[n..][i] != NL
      ensures i + 1 < |text[n..]| && text[n..][i + 1] != NL
    {
      assert text[n + i] == text[n..][i];
      assert text[n + i + 1] == text[n..][i + 1];
    }
  }

  lemma HeadLines(c: CodeUnit, rest: Text)
    requires LinesTrimmed(rest) && (White(c) && c != NL ==> rest != [] && rest[0] != NL)
    ensures LinesTrimmed([c] + rest)
  {
    var all := [c] + rest;
    forall i | 0 <= i < |all| && White(all[i]) && all[i] != NL
      ensures i + 1 < |all| && all[i + 1] != NL
    {
      if i > 0 {
        assert all[i] == rest[i - 1];
        assert all[i + 1] == rest[i - 1 + 1];
      }
    }
  }

  lemma {:induction false} CollapseStays(text: Text)
    requires NoTriple(text)
    ensures CollapseBreaks(text) == text
    decreases |text|
  {
    if text != [] {
      assert |text| >= 3 && text[0] == NL && text[1] == NL ==> DoubleAt(text, 0);
      assert Run(text) < 3;
      forall i | 0 <= i && DoubleAt(text[1..], i) && i + 2 < |text[1..]|
        ensures text[1..][i + 2] != NL
      {
        assert DoubleAt(text, i + 1);
      }
      CollapseStays(text[1..]);
    }
  }

  // ----- the results -----

  lemma PolishedText(text: Text)
    requires PolishText(text) != []
    ensures Polished(PolishText(text))
  {
    var n := TrimEnd(TrimStart(PlainSpaces(JoinCrLf(text))));
    NormalizedIs(text);
    CollapsedIs(n);
  }

  lemma CollapsedIs(n: Text)
    requires Framed(n) && NBSP !in n
    ensures Polished(CollapseBreaks(TrimmedFrom(n, 0)))
  {
    var lines := TrimmedFrom(n, 0);
    assert White(NL);
    TrimmedLinesAre(n, 0);
    TrimmedHasNoNbsp(n, 0);
    TrimmedEndsAlike(n, 0);
    TrimmedStartsAlike(n);
    hide TrimmedFrom, CollapseBreaks, LinesTrimmed, NoTriple, White;
    CollapseKeeps(lines);
    CollapseRun(lines);
    CollapseLines(lines);
  }

  /** Polishing changes white space only. */
  lemma InkIsKept(text: Text)
    ensures Ink(PolishText(text)) == Ink(text)
  {
    var n := TrimEnd(TrimStart(PlainSpaces(JoinCrLf(text))));
    NormalizedIs(text);
    TrimmedInk(n, 0);
    CollapseInk(TrimmedFrom(n, 0));
    assert n[0..] == n;
  }

  lemma PolishedStays(text: Text)
    requires Polished(text)
    ensures PolishText(text) == text
  {
    forall i | 0 <= i < |text| - 1
      ensures !(text[i] == CR && text[i + 1] == NL)
    {
      assert White(CR);
    }
    NoCrLfStays(text);
    NoNbspStays(text);
    assert TrimEnd(TrimStart(text)) == text;
    TrimmedStays(text, 0);
    assert text[0..] == text;
    CollapseStays(text);
  }

  /** The texts that polishing leaves alone are the empty one and the polished ones. */
  lemma PolishFixesExactly(text: Text)
    ensures PolishText(text) == text <==> text == [] || Polished(text)
  {
    if text != [] && PolishText(text) == text {
      PolishedText(text);
    }
    if Polished(text) {
      PolishedStays(text);
    }
    assert text == [] ==> PolishText(text) == [];
  }

  /** Polishing twice is polishing once. */
  lemma PolishIsIdempotent(text: Text)
    ensures PolishText(PolishText(text)) == PolishText(text)
  {
    if PolishText(text) != [] {
      PolishedText(text);
    }
    PolishFixesExactly(PolishText(text));
  }

  lemma PolishedIsTidy(text: Text)
    requires Polished(text)
    ensures Tidy(text)
  {
    assert White(NL);
    assert forall i :: 0 <= i && DoubleAt(text, i) ==> i + 1 < |text|;
  }
}
