/** What polishing does to the lines of a reply (packages/channel-runtime/src/message-formatter.ts:42-53). */
module MessageLines {
  import opened MessagePolish
  import opened Texts

  // ----- what the polished lines are, without the steps of polishing -----

  ghost predicate HasInk(line: Text) {
    exists i :: 0 <= i < |line| && !White(line[i])
  }

  function Plain(c: CodeUnit): CodeUnit {
    if c == NBSP then SPACE else c
  }

  /** The line from here up to its last ink, unit for unit, with plain spaces for non-breaking ones. */
  ghost predicate CleanFrom(line: Text, from: nat, clean: Text) {
    && from + |clean| <= |line|
    && (forall m :: 0 <= m < |clean| ==> clean[m] == Plain(line[from + m]))
    && (forall m :: from + |clean| <= m < |line| ==> White(line[m]))
    && (clean != [] ==> !White(line[from + |clean| - 1]))
  }

  ghost predicate FirstInk(line: Text, from: nat) {
    from < |line| && !White(line[from]) && forall m :: 0 <= m < from ==> White(line[m])
  }

  /** The first of the lines that are kept starts at its first ink, the others as they do. */
  ghost predicate CleanLine(lines: seq<Text>, first: nat, i: nat, clean: Text)
    requires i < |lines|
  {
    if i == first then exists from :: FirstInk(lines[i], from) && CleanFrom(lines[i], from, clean)
    else CleanFrom(lines[i], 0, clean)
  }

  /** The first and the last line with ink. */
  ghost predicate Inked(lines: seq<Text>, first: nat, last: nat) {
    && first <= last < |lines| && HasInk(lines[first]) && HasInk(lines[last])
    && forall i :: 0 <= i < |lines| && HasInk(lines[i]) ==> first <= i <= last
  }

  /** Between them, a line with ink is kept, and of each run of lines without ink the last one. */
  ghost predicate KeptLine(lines: seq<Text>, first: nat, last: nat, i: nat)
    requires last < |lines|
  {
    first <= i <= last && (HasInk(lines[i]) || (i < last && HasInk(lines[i + 1])))
  }

  ghost predicate KeptLines(lines: seq<Text>, first: nat, last: nat, at: seq<nat>)
    requires last < |lines|
  {
    && (forall m, n :: 0 <= m < n < |at| ==> at[m] < at[n])
    && forall i: nat :: i in at <==> KeptLine(lines, first, last, i)
  }

  ghost predicate CleanLines(lines: seq<Text>, first: nat, last: nat, at: seq<nat>, clean: seq<Text>) {
    && Inked(lines, first, last) && KeptLines(lines, first, last, at)
    && |clean| == |at| && forall k :: 0 <= k < |at| ==> at[k] < |lines| && CleanLine(lines, first, at[k], clean[k])
  }

  /** What a text is polished to: nothing if it has no ink, and otherwise the kept lines, each cleaned. A line
      that ends with CR LF ends as one that ends with LF, as both are white space after its last ink. */
  ghost predicate PolishesTo(text: Text, polished: Text) {
    if !HasInk(text) then polished == []
    else exists first, last, at :: CleanLines(Lines(text), first, last, at, Lines(polished))
  }

  // ----- trimmed lines -----

  /** The lines of a text, each without the white space at its end. */
  function Trimmed(text: Text): (lines: seq<Text>)
    ensures |lines| == |Lines(text)|
  {
    TrimmedAre(Lines(text));
    TrimEach(Lines(text))
  }

  lemma {:induction false} TrimmedAre(lines: seq<Text>)
    ensures |TrimEach(lines)| == |lines|
    ensures forall i :: 0 <= i < |lines| ==> TrimEach(lines)[i] == TrimEnd(lines[i])
  {
    if lines != [] {
      TrimmedAre(lines[1..]);
    }
  }

  function ConsTrimmed(c: CodeUnit, lines: seq<Text>): seq<Text>
    requires lines != []
  {
    if c == NL then [[]] + lines else [if lines[0] == [] && White(c) then [] else [c] + lines[0]] + lines[1..]
  }

  lemma {:induction false} TrimEndCons(c: CodeUnit, line: Text)
    ensures TrimEnd([c] + line) == if TrimEnd(line) == [] && White(c) then [] else [c] + TrimEnd(line)
  {
    var all := [c] + line;
    if line == [] {
      assert all == [c] && [c][..0] == [];
    } else if White(line[|line| - 1]) {
      assert all[..|all| - 1] == [c] + line[..|line| - 1];
      TrimEndCons(c, line[..|line| - 1]);
    }
  }

  lemma TrimmedCons(c: CodeUnit, rest: Text)
    ensures Trimmed([c] + rest) == ConsTrimmed(c, Trimmed(rest))
  {
    hide TrimEnd, TrimEach, White;
    LinesCons(c, rest);
    TrimmedAre(Lines(rest));
    TrimmedAre(Lines([c] + rest));
    if c == NL {
      assert TrimEnd([]) == [] by { TrimNothing(); }
    } else {
      TrimEndCons(c, Lines(rest)[0]);
    }
  }

  lemma TrimNothing()
    ensures TrimEnd([]) == []
  {
  }

  lemma TrimmedNothing()
    ensures Trimmed([]) == [[]]
  {
    NoText();
    TrimmedAre([[]]);
  }

  /** Line breaks with and without a carriage return are the same. */
  lemma {:induction false} JoinCrLfTrimmed(text: Text)
    ensures Trimmed(JoinCrLf(text)) == Trimmed(text)
    decreases |text|
  {
    hide Trimmed;
    if |text| >= 2 {
      if text[0] == CR && text[1] == NL {
        var rest := text[2..];
        assert text == [CR] + ([NL] + rest);
        JoinCrLfTrimmed(rest);
        TrimmedCons(NL, rest);
        TrimmedCons(CR, [NL] + rest);
        TrimmedCons(NL, JoinCrLf(rest));
        assert ConsTrimmed(CR, [[]] + Trimmed(rest)) == [[]] + Trimmed(rest);
      } else {
        assert text == [text[0]] + text[1..];
        JoinCrLfTrimmed(text[1..]);
        TrimmedCons(text[0], text[1..]);
        TrimmedCons(text[0], JoinCrLf(text[1..]));
      }
    }
  }

  function EachPlain(lines: seq<Text>): (plain: seq<Text>)
    ensures |plain| == |lines| && forall i :: 0 <= i < |lines| ==> plain[i] == PlainSpaces(lines[i])
  {
    seq(|lines|, i requires 0 <= i < |lines| => PlainSpaces(lines[i]))
  }

  lemma {:induction false} PlainSpacesAre(text: Text)
    ensures |PlainSpaces(text)| == |text|
    ensures forall i :: 0 <= i < |text| ==> PlainSpaces(text)[i] == Plain(text[i])
  {
    if text != [] {
      PlainSpacesAre(text[1..]);
    }
  }

  lemma PlainSpacesCons(c: CodeUnit, rest: Text)
    ensures PlainSpaces([c] + rest) == [Plain(c)] + PlainSpaces(rest)
  {
    assert ([c] + rest)[1..] == rest;
  }

  lemma {:induction false} PlainSpacesTrimmed(text: Text)
    ensures Trimmed(PlainSpaces(text)) == EachPlain(Trimmed(text))
  {
    hide Trimmed;
    if text == [] {
      TrimmedNothing();
    } else {
      var c, rest := text[0], text[1..];
      assert text == [c] + rest;
      PlainSpacesTrimmed(rest);
      PlainSpacesCons(c, rest);
      TrimmedCons(c, rest);
      TrimmedCons(Plain(c), PlainSpaces(rest));
      ConsPlain(c, Trimmed(rest));
    }
  }

  lemma ConsPlain(c: CodeUnit, lines: seq<Text>)
    requires lines != []
    ensures EachPlain(ConsTrimmed(c, lines)) == ConsTrimmed(Plain(c), EachPlain(lines))
  {
    assert White(Plain(c)) == White(c) && (Plain(c) == NL <==> c == NL);
    PlainSpacesCons(c, lines[0]);
    PlainSpacesAre(lines[0]);
    assert PlainSpaces([]) == [];
    var x, y := EachPlain(ConsTrimmed(c, lines)), ConsTrimmed(Plain(c), EachPlain(lines));
    assert |x| == |y| && forall i :: 0 <= i < |x| ==> x[i] == y[i];
  }

  /** The lines without the empty ones at the start, and without the white space at the start of the first. */
  function LeadTrimmed(lines: seq<Text>): (r: seq<Text>)
    requires lines != []
    ensures r != []
  {
    if lines[0] == [] && |lines| > 1 then LeadTrimmed(lines[1..]) else [TrimStart(lines[0])] + lines[1..]
  }

  lemma {:induction false} TrimStartTrimmed(text: Text)
    ensures Trimmed(TrimStart(text)) == LeadTrimmed(Trimmed(text))
  {
    hide Trimmed;
    if text == [] {
      TrimmedNothing();
    } else {
      var c, rest := text[0], text[1..];
      assert text == [c] + rest;
      TrimmedCons(c, rest);
      var lines := Trimmed(rest);
      if White(c) {
        TrimStartTrimmed(rest);
        LeadOfCons(c, lines);
      } else {
        assert TrimStart([c] + lines[0]) == [c] + lines[0];
      }
    }
  }

  lemma LeadOfCons(c: CodeUnit, lines: seq<Text>)
    requires lines != [] && White(c)
    ensures LeadTrimmed(ConsTrimmed(c, lines)) == LeadTrimmed(lines)
  {
    var all := ConsTrimmed(c, lines);
    if c == NL {
      assert all[1..] == lines;
    } else if lines[0] == [] {
      assert all == lines;
    } else {
      assert ([c] + lines[0])[1..] == lines[0];
    }
  }

  /** The lines without the empty ones at the end. */
  function TailTrimmed(lines: seq<Text>): (r: seq<Text>)
    requires lines != []
    ensures r != []
  {
    if lines[|lines| - 1] == [] && |lines| > 1 then TailTrimmed(lines[..|lines| - 1]) else lines
  }

  lemma TrimEndSnoc(line: Text, c: CodeUnit)
    requires White(c)
    ensures TrimEnd(line + [c]) == TrimEnd(line)
  {
    assert (line + [c])[..|line|] == line;
  }

  lemma TrimmedSnoc(text: Text, c: CodeUnit)
    requires White(c)
    ensures Trimmed(text + [c]) == if c == NL then Trimmed(text) + [[]] else Trimmed(text)
  {
    hide TrimEach, TrimEnd, White, Lines;
    var before, after := Lines(text), Lines(text + [c]);
    LinesSnoc(text, c);
    TrimmedAre(before);
    TrimmedAre(after);
    TrimEndSnoc(before[|before| - 1], c);
    TrimNothing();
    var lines := if c == NL then Trimmed(text) + [[]] else Trimmed(text);
    assert |Trimmed(text + [c])| == |lines|;
    assert forall i :: 0 <= i < |lines| ==> Trimmed(text + [c])[i] == lines[i];
  }

  lemma {:induction false} TrimEndTrimmed(text: Text)
    ensures Trimmed(TrimEnd(text)) == TailTrimmed(Trimmed(text))
  {
    hide Trimmed;
    if text == [] {
      TrimmedNothing();
    } else {
      var n := |text| - 1;
      var rest, c := text[..n], text[n];
      assert text == rest + [c];
      if White(c) {
        TrimEndTrimmed(rest);
        TrimmedSnoc(rest, c);
        if c == NL {
          assert (Trimmed(rest) + [[]])[..|Trimmed(rest)|] == Trimmed(rest);
        }
      } else {
        LastHasInk(rest, c);
      }
    }
  }

  lemma LastHasInk(text: Text, c: CodeUnit)
    requires !White(c)
    ensures Trimmed(text + [c])[|Trimmed(text + [c])| - 1] != []
  {
    hide TrimEach;
    assert c != NL by { assert White(NL); }
    LinesSnoc(text, c);
    TrimmedAre(Lines(text + [c]));
  }

  // ----- runs of blank lines -----

  /** Of each run of empty lines, the first. */
  function Once(lines: seq<Text>): seq<Text> {
    if lines == [] then []
    else if lines[0] == [] && |lines| > 1 && lines[1] == [] then Once(lines[1..])
    else [lines[0]] + Once(lines[1..])
  }

  lemma {:induction false} LinesOfRun(n: nat, rest: Text)
    ensures Lines(Breaks(n) + rest) == Empties(n) + Lines(rest)
  {
    if n == 0 {
      assert Breaks(0) + rest == rest && Empties(0) + Lines(rest) == Lines(rest);
    } else {
      LinesOfRun(n - 1, rest);
      LinesCons(NL, Breaks(n - 1) + rest);
      assert Breaks(n) + rest == [NL] + (Breaks(n - 1) + rest);
      assert Empties(n) + Lines(rest) == [[]] + (Empties(n - 1) + Lines(rest));
    }
  }

  function Breaks(n: nat): (r: Text)
    ensures |r| == n && forall i :: 0 <= i < n ==> r[i] == NL
  {
    seq(n, _ => NL)
  }

  function Empties(n: nat): (r: seq<Text>)
    ensures |r| == n && forall i :: 0 <= i < n ==> r[i] == []
  {
    seq(n, _ => [])
  }

  lemma {:induction false} OnceOfRun(n: nat, lines: seq<Text>)
    requires lines != [] && lines[0] != []
    ensures Once(Empties(n) + lines) == if n == 0 then Once(lines) else [[]] + Once(lines)
  {
    var all := Empties(n) + lines;
    if n == 0 {
      assert all == lines;
    } else {
      assert all[1..] == Empties(n - 1) + lines;
      OnceOfRun(n - 1, lines);
    }
  }

  /** All lines but the first, which may be the rest of one, with each run of empty ones cut to one. */
  function OnceAfter(lines: seq<Text>): seq<Text>
    requires lines != []
  {
    [lines[0]] + Once(lines[1..])
  }

  lemma FirstLineIsNot(text: Text)
    requires text != [] && text[0] != NL
    ensures Lines(text)[0] != []
  {
    LinesCons(text[0], text[1..]);
    assert text == [text[0]] + text[1..];
  }

  /** Collapsing breaks cuts runs of empty lines to one. */
  lemma {:induction false} CollapsedLines(text: Text)
    requires text == [] || text[|text| - 1] != NL
    ensures Lines(CollapseBreaks(text)) == OnceAfter(Lines(text))
    decreases |text|
  {
    hide Lines;
    var n := Run(text);
    if text == [] {
      NoText();
    } else if n >= 3 {
      CollapsedRun(text);
    } else {
      var c, rest := text[0], text[1..];
      assert text == [c] + rest;
      CollapsedLines(rest);
      LinesCons(c, rest);
      LinesCons(c, CollapseBreaks(rest));
      if c == NL {
        OnceOfShortRun(text);
      }
    }
  }

  lemma CollapsedRun(text: Text)
    requires Run(text) >= 3 && text[|text| - 1] != NL
    ensures Lines(CollapseBreaks(text)) == OnceAfter(Lines(text))
    decreases |text|, 0
  {
    hide Lines, Run, Once, OnceAfter;
    var n := Run(text);
    var rest := text[n..];
    assert text == Breaks(n) + rest;
    assert [NL, NL] == Breaks(2);
    CollapsedLines(rest);
    LinesOfRun(n, rest);
    LinesOfRun(2, CollapseBreaks(rest));
    FirstLineIsNot(rest);
    OnceAfterRun(n, Lines(rest));
  }

  lemma OnceAfterRun(n: nat, lines: seq<Text>)
    requires n >= 3 && lines != [] && lines[0] != []
    ensures OnceAfter(Empties(n) + lines) == Empties(2) + OnceAfter(lines)
  {
    hide Once;
    var all := Empties(n) + lines;
    assert all[1..] == Empties(n - 1) + lines;
    OnceOfRun(n - 1, lines);
    OnceKeepsFirst(lines);
    assert [[]] + ([[]] + Once(lines)) == Empties(2) + Once(lines);
  }

  lemma OnceKeepsFirst(lines: seq<Text>)
    requires lines != [] && lines[0] != []
    ensures Once(lines) == OnceAfter(lines)
  {
  }

  /** One or two breaks at the start leave the lines after them as they are. */
  lemma OnceOfShortRun(text: Text)
    requires 1 <= Run(text) <= 2 && text[|text| - 1] != NL
    ensures Once(Lines(text[1..])) == OnceAfter(Lines(text[1..]))
  {
    hide Lines, Once, Run;
    var rest := text[1..];
    if Run(text) == 2 {
      var last := text[2..];
      assert rest == [NL] + last;
      LinesCons(NL, last);
      FirstLineIsNot(last);
      OneEmpty(Lines(last));
    } else {
      FirstLineIsNot(rest);
      OnceKeepsFirst(Lines(rest));
    }
  }

  lemma OneEmpty(lines: seq<Text>)
    requires lines != [] && lines[0] != []
    ensures Once([[]] + lines) == OnceAfter([[]] + lines)
  {
    assert ([[]] + lines)[1..] == lines;
  }

  // ----- the lines of a polished text -----

  lemma TrimmedHasNoBreaks(text: Text)
    ensures forall i :: 0 <= i < |Trimmed(text)| ==> NL !in Trimmed(text)[i]
  {
    hide TrimEnd, TrimEach, Lines;
    LinesAreParts(text);
    TrimmedAre(Lines(text));
    forall i | 0 <= i < |Trimmed(text)| ensures NL !in Trimmed(text)[i] {
      TrimEndGives(Lines(text)[i]);
      PrefixHas(Lines(text)[i], TrimEnd(Lines(text)[i]), NL);
    }
  }

  /** The normalized text whose lines are then trimmed and collapsed. */
  function Normalized(text: Text): Text {
    TrimEnd(TrimStart(PlainSpaces(JoinCrLf(text))))
  }

  lemma NormalizedLines(text: Text)
    ensures Trimmed(Normalized(text)) == TailTrimmed(LeadTrimmed(EachPlain(Trimmed(text))))
  {
    hide Trimmed, TrimEnd, TrimStart, PlainSpaces, JoinCrLf;
    JoinCrLfTrimmed(text);
    PlainSpacesTrimmed(JoinCrLf(text));
    TrimStartTrimmed(PlainSpaces(JoinCrLf(text)));
    TrimEndTrimmed(TrimStart(PlainSpaces(JoinCrLf(text))));
  }

  lemma PolishedLines(text: Text)
    requires Normalized(text) != []
    ensures Lines(PolishText(text)) == Once(Trimmed(Normalized(text)))
  {
    hide TrimEnd, TrimStart, PlainSpaces, JoinCrLf, TrimEach, JoinLines, CollapseBreaks, Run, White, Lines, Once;
    var n := Normalized(text);
    NormalizedIs(text);
    var joined := JoinLines(Trimmed(n));
    assert TrimmedFrom(n, 0) == joined by { JoinedIs(n); }
    FramedIs(n);
    TrimmedEndsAlike(n, 0);
    CollapsedLines(joined);
    TrimmedHasNoBreaks(n);
    LinesExactly(joined, Trimmed(n));
    OnceKeepsFirst(Trimmed(n));
  }

  lemma JoinedIs(text: Text)
    ensures TrimmedFrom(text, 0) == JoinLines(Trimmed(text))
  {
  }

  /** A text that starts and ends with ink has ink on its first line. */
  lemma FramedIs(text: Text)
    requires Framed(text)
    ensures Trimmed(text)[0] != [] && !White(text[|text| - 1]) && White(NL) && !White(text[0])
  {
    hide Trimmed;
    assert text == [text[0]] + text[1..];
    TrimmedCons(text[0], text[1..]);
  }

  // ----- and which lines these are -----

  lemma LineIsClean(line: Text)
    ensures CleanFrom(line, 0, PlainSpaces(TrimEnd(line)))
    ensures PlainSpaces(TrimEnd(line)) == [] <==> !HasInk(line)
  {
    TrimEndIs(line);
    PlainSpacesAre(TrimEnd(line));
  }

  lemma {:induction false} TrimEndIs(line: Text)
    ensures TrimEnd(line) <= line
    ensures forall i :: |TrimEnd(line)| <= i < |line| ==> White(line[i])
    ensures TrimEnd(line) != [] ==> !White(line[|TrimEnd(line)| - 1])
  {
    if line != [] && White(line[|line| - 1]) {
      TrimEndIs(line[..|line| - 1]);
    }
  }

  lemma {:induction false} TrimStartIs(line: Text) returns (from: nat)
    requires HasInk(line)
    ensures FirstInk(line, from) && TrimStart(line) == line[from..]
  {
    if White(line[0]) {
      var i :| 0 <= i < |line| && !White(line[i]);
      assert line[1..][i - 1] == line[i];
      from := TrimStartIs(line[1..]);
      from := from + 1;
      assert line[1..][from - 1..] == line[from..];
      assert forall m :: 1 <= m < from ==> line[m] == line[1..][m - 1];
    } else {
      from := 0;
    }
  }

  /** The first kept line starts at its first ink. */
  lemma FirstIsClean(line: Text) returns (from: nat)
    requires HasInk(line)
    ensures var clean := TrimStart(PlainSpaces(TrimEnd(line)));
      clean != [] && FirstInk(line, from) && CleanFrom(line, from, clean)
  {
    hide TrimStart, TrimEnd, PlainSpaces, White;
    var whole := PlainSpaces(TrimEnd(line));
    LineIsClean(line);
    forall m | 0 <= m < |whole| ensures White(whole[m]) == White(line[m]) {
      assert whole[m] == Plain(line[0 + m]);
      PlainIsWhite(line[m]);
    }
    assert !White(whole[|whole| - 1]);
    from := TrimStartIs(whole);
    var clean := whole[from..];
    forall m | 0 <= m < |clean| ensures clean[m] == Plain(line[from + m]) {
      assert clean[m] == whole[from + m] == Plain(line[0 + (from + m)]);
    }
  }

  lemma PlainIsWhite(c: CodeUnit)
    ensures White(Plain(c)) == White(c)
  {
  }

  lemma {:induction false} LeadIs(lines: seq<Text>) returns (first: nat)
    requires lines != [] && exists i :: 0 <= i < |lines| && lines[i] != []
    ensures first < |lines| && lines[first] != [] && forall i :: 0 <= i < first ==> lines[i] == []
    ensures LeadTrimmed(lines) == [TrimStart(lines[first])] + lines[first + 1..]
  {
    if lines[0] == [] {
      var i :| 0 <= i < |lines| && lines[i] != [];
      assert lines[1..][i - 1] == lines[i];
      first := LeadIs(lines[1..]);
      first := first + 1;
      assert forall j :: 1 <= j < first ==> lines[j] == lines[1..][j - 1];
    } else {
      first := 0;
    }
  }

  lemma {:induction false} TailIs(lines: seq<Text>) returns (last: nat)
    requires lines != [] && lines[0] != []
    ensures last < |lines| && lines[last] != [] && forall i :: last < i < |lines| ==> lines[i] == []
    ensures TailTrimmed(lines) == lines[..last + 1]
  {
    if lines[|lines| - 1] == [] {
      last := TailIs(lines[..|lines| - 1]);
      assert lines[..|lines| - 1][..last + 1] == lines[..last + 1];
    } else {
      last := |lines| - 1;
    }
  }

  /** The line is not empty, or the last of a run of empty ones. */
  ghost predicate Stays(lines: seq<Text>, i: nat) {
    i < |lines| && (lines[i] != [] || (i + 1 < |lines| && lines[i + 1] != []))
  }

  ghost predicate Rising(at: seq<nat>) {
    forall m, n :: 0 <= m < n < |at| ==> at[m] < at[n]
  }

  ghost predicate StayingAt(lines: seq<Text>, at: seq<nat>) {
    forall i: nat :: i in at <==> Stays(lines, i)
  }

  /** The texts are the lines at these indexes. */
  ghost predicate TakenAt(lines: seq<Text>, at: seq<nat>, taken: seq<Text>) {
    |taken| == |at| && forall k :: 0 <= k < |at| ==> at[k] < |lines| && taken[k] == lines[at[k]]
  }

  ghost predicate OnceAt(lines: seq<Text>, at: seq<nat>) {
    Rising(at) && StayingAt(lines, at) && TakenAt(lines, at, Once(lines))
  }

  function Shifted(at: seq<nat>, n: nat): (r: seq<nat>)
    ensures |r| == |at| && (forall k :: 0 <= k < |at| ==> r[k] == at[k] + n)
  {
    seq(|at|, k requires 0 <= k < |at| => at[k] + n)
  }

  lemma InShifted(at: seq<nat>, n: nat, i: nat)
    ensures i in Shifted(at, n) <==> i >= n && i - n in at
  {
    if i >= n && i - n in at {
      var k :| 0 <= k < |at| && at[k] == i - n;
      assert Shifted(at, n)[k] == i;
    }
    if i in Shifted(at, n) {
      var k :| 0 <= k < |at| && Shifted(at, n)[k] == i;
      assert at[k] == i - n;
    }
  }

  /** The indexes of the lines from those of the lines after the first. */
  function NextIndexes(later: seq<nat>, drops: bool): seq<nat> {
    if drops then Shifted(later, 1) else [0] + Shifted(later, 1)
  }

  lemma InNext(later: seq<nat>, drops: bool, i: nat)
    ensures i in NextIndexes(later, drops) <==> (i > 0 && i - 1 in later) || (i == 0 && !drops)
  {
    InShifted(later, 1, i);
    assert i in [0] + Shifted(later, 1) <==> i == 0 || i in Shifted(later, 1);
  }

  lemma {:induction false} OnceIs(lines: seq<Text>) returns (at: seq<nat>)
    requires lines != [] ==> lines[|lines| - 1] != []
    ensures OnceAt(lines, at)
  {
    hide Once, Stays, Rising, TakenAt, NextIndexes;
    OnceStep(lines);
    if lines == [] {
      at := [];
      NothingTaken();
    } else {
      var later := OnceIs(lines[1..]);
      var drops := |lines| > 1 && lines[0] == [] && lines[1] == [];
      at := NextIndexes(later, drops);
      NextTaken(lines, later, drops);
      forall i: nat ensures i in at <==> Stays(lines, i) {
        InNext(later, drops, i);
        StaysInRest(lines, i);
      }
    }
  }

  lemma NextTaken(lines: seq<Text>, later: seq<nat>, drops: bool)
    requires lines != [] && Rising(later) && TakenAt(lines[1..], later, Once(lines[1..]))
    requires drops <==> |lines| > 1 && lines[0] == [] && lines[1] == []
    ensures Rising(NextIndexes(later, drops)) && TakenAt(lines, NextIndexes(later, drops), Once(lines))
  {
    hide Once, Rising, TakenAt;
    OnceStep(lines);
    TakenNext(lines, later, Once(lines[1..]));
  }

  lemma NothingTaken()
    ensures Rising([]) && TakenAt([], [], [])
  {
  }

  lemma TakenNext(lines: seq<Text>, at: seq<nat>, taken: seq<Text>)
    requires lines != [] && Rising(at) && TakenAt(lines[1..], at, taken)
    ensures Rising(Shifted(at, 1)) && Rising([0] + Shifted(at, 1))
    ensures TakenAt(lines, Shifted(at, 1), taken) && TakenAt(lines, [0] + Shifted(at, 1), [lines[0]] + taken)
  {
  }

  lemma StaysInRest(lines: seq<Text>, i: nat)
    requires lines != [] && lines[|lines| - 1] != []
    ensures i > 0 ==> (Stays(lines, i) <==> Stays(lines[1..], i - 1))
    ensures Stays(lines, 0) <==> !(|lines| > 1 && lines[0] == [] && lines[1] == [])
  {
  }

  lemma OnceStep(lines: seq<Text>)
    ensures lines == [] ==> Once(lines) == [] && forall i: nat :: !Stays(lines, i)
    ensures lines != [] && |lines| > 1 && lines[0] == [] && lines[1] == [] ==> Once(lines) == Once(lines[1..])
    ensures lines != [] && !(|lines| > 1 && lines[0] == [] && lines[1] == []) ==>
      Once(lines) == [lines[0]] + Once(lines[1..])
  {
  }

  /** Polishing keeps the lines: this is what it does to white space, and it determines the result. */
  lemma PolishKeepsLines(text: Text)
    ensures PolishesTo(text, PolishText(text))
  {
    hide PolishText, HasInk, Ink;
    if HasInk(text) {
      NormalizedHasInk(text);
      PolishedLines(text);
      NormalizedLines(text);
      LinesHaveInk(text);
      LinesAreKept(Lines(text), EachPlain(Trimmed(text)), Lines(PolishText(text)));
    } else {
      NoInkPolishes(text);
    }
  }

  lemma NoInkPolishes(text: Text)
    requires !HasInk(text)
    ensures PolishText(text) == []
  {
    hide PolishText, HasInk, Ink;
    NoInkIsEmpty(text);
    InkIsKept(text);
    if PolishText(text) != [] {
      PolishedText(text);
      FramedHasInk(PolishText(text));
    }
  }

  lemma FramedHasInk(text: Text)
    requires Framed(text)
    ensures Ink(text) != []
  {
    NoInkIsEmpty(text);
  }

  lemma {:induction false} NoInkIsEmpty(text: Text)
    ensures Ink(text) == [] <==> !HasInk(text)
  {
    if text != [] {
      NoInkIsEmpty(text[1..]);
      assert HasInk(text) <==> !White(text[0]) || HasInk(text[1..]) by {
        assert forall i :: 0 < i < |text| ==> text[i] == text[1..][i - 1];
        if HasInk(text[1..]) {
          var i :| 0 <= i < |text[1..]| && !White(text[1..][i]);
          assert !White(text[i + 1]);
        }
      }
    }
  }

  lemma NormalizedHasInk(text: Text)
    requires HasInk(text)
    ensures Normalized(text) != []
  {
    NoInkIsEmpty(text);
    NormalizedIs(text);
  }

  lemma LinesHaveInk(text: Text)
    requires HasInk(text)
    ensures exists i :: 0 <= i < |Lines(text)| && HasInk(Lines(text)[i])
    ensures |EachPlain(Trimmed(text))| == |Lines(text)|
    ensures forall i :: 0 <= i < |Lines(text)| ==> EachPlain(Trimmed(text))[i] == PlainSpaces(TrimEnd(Lines(text)[i]))
  {
    hide Lines, TrimEnd, PlainSpaces;
    TrimmedAre(Lines(text));
    InkOnALine(text);
  }

  lemma {:induction false} InkOnALine(text: Text)
    requires HasInk(text)
    ensures exists i :: 0 <= i < |Lines(text)| && HasInk(Lines(text)[i])
  {
    hide Lines, Ink;
    var c, rest := text[0], text[1..];
    assert text == [c] + rest;
    LinesCons(c, rest);
    assert White(NL);
    if White(c) {
      var k :| 0 <= k < |text| && !White(text[k]);
      assert rest[k - 1] == text[k];
      InkOnALine(rest);
      var i :| 0 <= i < |Lines(rest)| && HasInk(Lines(rest)[i]);
      if c == NL {
        assert Lines(text)[i + 1] == Lines(rest)[i];
      } else if i > 0 {
        assert Lines(text)[i] == Lines(rest)[i];
      } else {
        var m :| 0 <= m < |Lines(rest)[0]| && !White(Lines(rest)[0][m]);
        assert Lines(text)[0][m + 1] == Lines(rest)[0][m];
      }
    } else {
      assert !White(Lines(text)[0][0]);
    }
  }

  lemma LinesAreKept(lines: seq<Text>, plain: seq<Text>, result: seq<Text>)
    requires |plain| == |lines| > 0 && exists i :: 0 <= i < |lines| && HasInk(lines[i])
    requires forall i :: 0 <= i < |lines| ==> plain[i] == PlainSpaces(TrimEnd(lines[i]))
    requires result == Once(TailTrimmed(LeadTrimmed(plain)))
    ensures exists first, last, at :: CleanLines(lines, first, last, at, result)
  {
    hide PlainSpaces, TrimEnd, TrimStart, HasInk, CleanFrom, FirstInk, Once, LeadTrimmed, TailTrimmed, CleanLines;
    forall i | 0 <= i < |lines| ensures CleanFrom(lines[i], 0, plain[i]) && (plain[i] == [] <==> !HasInk(lines[i])) {
      LineIsClean(lines[i]);
    }
    var first := LeadIs(plain);
    var from := FirstIsClean(lines[first]);
    var lead := LeadTrimmed(plain);
    assert |lead| == |plain| - first && forall i :: 0 < i < |lead| ==> lead[i] == plain[first + i];
    var tail := TailIs(lead);
    var indexes := OnceIs(lead[..tail + 1]);
    KeptAreClean(lines, plain, lead, first, from, tail, indexes);
    assert CleanLines(lines, first, first + tail, Shifted(indexes, first), result);
  }

  /** The lines between the first and the last one with ink, as they are kept. */
  lemma KeptAreClean(
    lines: seq<Text>, plain: seq<Text>, lead: seq<Text>, first: nat, from: nat, tail: nat, indexes: seq<nat>)
    requires |plain| == |lines| && first + tail < |lines| && |lead| == |lines| - first
    requires forall i :: 0 <= i < |lines| ==> CleanFrom(lines[i], 0, plain[i])
    requires forall i :: 0 <= i < |lines| ==> (plain[i] == [] <==> !HasInk(lines[i]))
    requires (forall i :: 0 <= i < first ==> plain[i] == []) && HasInk(lines[first])
    requires lead[0] != [] && FirstInk(lines[first], from) && CleanFrom(lines[first], from, lead[0])
    requires forall i :: 0 < i < |lead| ==> lead[i] == plain[first + i]
    requires lead[tail] != [] && forall i :: tail < i < |lead| ==> lead[i] == []
    requires OnceAt(lead[..tail + 1], indexes)
    ensures CleanLines(lines, first, first + tail, Shifted(indexes, first), Once(lead[..tail + 1]))
  {
    hide HasInk, CleanFrom, FirstInk, Once, KeptLines;
    var kept, at := lead[..tail + 1], Shifted(indexes, first);
    assert forall i :: 0 < i < |lead| ==> (lead[i] != [] <==> HasInk(lines[first + i]));
    forall i | 0 <= i < |lines| && HasInk(lines[i]) ensures first <= i <= first + tail {
      assert plain[i] != [];
      assert i > first ==> lead[i - first] == plain[first + (i - first)];
    }
    forall i | 0 <= i < |kept| ensures kept[i] != [] <==> HasInk(lines[first + i]) {
      assert kept[i] == lead[i];
    }
    IndexesAreKept(lines, first, first + tail, kept, indexes);
    forall k | 0 <= k < |at| ensures at[k] < |lines| && CleanLine(lines, first, at[k], Once(kept)[k]) {
      assert Once(kept)[k] == lead[indexes[k]] && at[k] == first + indexes[k];
    }
  }

  lemma IndexesAreKept(lines: seq<Text>, first: nat, last: nat, kept: seq<Text>, indexes: seq<nat>)
    requires first <= last < |lines| && |kept| == last - first + 1 && OnceAt(kept, indexes)
    requires forall i :: 0 <= i < |kept| ==> (kept[i] != [] <==> HasInk(lines[first + i]))
    ensures KeptLines(lines, first, last, Shifted(indexes, first))
  {
    hide HasInk, Once;
    var at := Shifted(indexes, first);
    assert forall m, n :: 0 <= m < n < |at| ==> at[m] < at[n];
    forall i: nat ensures i in at <==> KeptLine(lines, first, last, i) {
      InShifted(indexes, first, i);
      if first <= i {
        assert i - first in indexes <==> Stays(kept, i - first);
        assert i <= last ==> (kept[i - first] != [] <==> HasInk(lines[first + (i - first)]));
        assert i < last ==> (kept[i - first + 1] != [] <==> HasInk(lines[first + (i - first + 1)]));
      }
    }
  }

  // ----- and there is only one such text -----

  lemma {:induction false} RisingIsOne(a: seq<nat>, b: seq<nat>)
    requires forall m, n :: 0 <= m < n < |a| ==> a[m] < a[n]
    requires forall m, n :: 0 <= m < n < |b| ==> b[m] < b[n]
    requires forall i: nat :: i in a <==> i in b
    ensures a == b
  {
    assert a != [] ==> a[0] in b;
    assert b != [] ==> b[0] in a;
    if a != [] && b != [] {
      assert a[0] == b[0];
      assert a[0] !in a[1..] && b[0] !in b[1..];
      forall i: nat ensures i in a[1..] <==> i in b[1..] {
        assert i in a <==> i == a[0] || i in a[1..];
        assert i in b <==> i == b[0] || i in b[1..];
      }
      RisingIsOne(a[1..], b[1..]);
      assert a == [a[0]] + a[1..] && b == [b[0]] + b[1..];
    }
  }

  lemma CleanIsOne(line: Text, from: nat, a: Text, b: Text)
    requires CleanFrom(line, from, a) && CleanFrom(line, from, b)
    ensures a == b
  {
    hide White;
    assert |a| == |b|;
  }

  lemma CleanLineIsOne(lines: seq<Text>, first: nat, i: nat, a: Text, b: Text)
    requires i < |lines| && CleanLine(lines, first, i, a) && CleanLine(lines, first, i, b)
    ensures a == b
  {
    hide CleanFrom, White;
    if i == first {
      var x :| FirstInk(lines[i], x) && CleanFrom(lines[i], x, a);
      var y :| FirstInk(lines[i], y) && CleanFrom(lines[i], y, b);
      assert x == y;
      CleanIsOne(lines[i], x, a, b);
    } else {
      CleanIsOne(lines[i], 0, a, b);
    }
  }

  lemma CleanLinesAreOne(
    lines: seq<Text>, first: nat, last: nat, at: seq<nat>, clean: seq<Text>, first2: nat, last2: nat, at2: seq<nat>,
    clean2: seq<Text>)
    requires CleanLines(lines, first, last, at, clean) && CleanLines(lines, first2, last2, at2, clean2)
    ensures clean == clean2
  {
    hide HasInk, CleanLine, KeptLine;
    assert first == first2 && last == last2;
    RisingIsOne(at, at2);
    forall k | 0 <= k < |clean| ensures clean[k] == clean2[k] {
      CleanLineIsOne(lines, first, at[k], clean[k], clean2[k]);
    }
  }

  /** A text is polished to one text only. */
  lemma PolishesToOne(text: Text, a: Text, b: Text)
    requires PolishesTo(text, a) && PolishesTo(text, b)
    ensures a == b
  {
    hide HasInk, CleanLines, Lines;
    if HasInk(text) {
      var first, last, at :| CleanLines(Lines(text), first, last, at, Lines(a));
      var first2, last2, at2 :| CleanLines(Lines(text), first2, last2, at2, Lines(b));
      CleanLinesAreOne(Lines(text), first, last, at, Lines(a), first2, last2, at2, Lines(b));
      LinesAreParts(a);
      LinesAreParts(b);
    }
  }
}
