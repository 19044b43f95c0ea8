/** Texts as UTF-16 code units, as JavaScript strings are: their lines and their white space. */
module Texts {

  newtype CodeUnit = x: int | 0 <= x < 0x1_0000

  type Text = seq<CodeUnit>

  const NL: CodeUnit := 10
  const CR: CodeUnit := 13
  const SPACE: CodeUnit := 32
  const NBSP: CodeUnit := 0xA0

  /** White space and line terminators, as String.prototype.trim counts them. */
  predicate White(c: CodeUnit) {
    9 <= c <= 13 || c == SPACE || c == NBSP || c == 0x1680 || 0x2000 <= c <= 0x200A || c == 0x2028 || c == 0x2029 ||
    c == 0x202F || c == 0x205F || c == 0x3000 || c == 0xFEFF
  }

  function TrimStart(text: Text): Text {
    if text != [] && White(text[0]) then TrimStart(text[1..]) else text
  }

  function TrimEnd(text: Text): Text {
    if text != [] && White(text[|text| - 1]) then TrimEnd(text[..|text| - 1]) else text
  }

  // ----- lines -----

  /** The first line break from here on, or the end. */
  function LineEnd(text: Text, at: nat): (e: nat)
    requires at <= |text|
    ensures at <= e <= |text|
    ensures forall i :: at <= i < e ==> text[i] != NL
    ensures e < |text| ==> text[e] == NL
    decreases |text| - at
  {
    if at == |text| || text[at] == NL then at else LineEnd(text, at + 1)
  }

  function LinesFrom(text: Text, at: nat): (lines: seq<Text>)
    requires at <= |text|
    ensures lines != []
    decreases |text| - at
  {
    var e := LineEnd(text, at);
    [text[at..e]] + if e == |text| then [] else LinesFrom(text, e + 1)
  }

  /** Splitting at every line break. */
  function Lines(text: Text): (lines: seq<Text>)
    ensures lines != []
  {
    LinesFrom(text, 0)
  }

  function JoinLines(lines: seq<Text>): Text {
    if lines == [] then [] else if |lines| == 1 then lines[0] else lines[0] + [NL] + JoinLines(lines[1..])
  }

  lemma FirstLine(text: Text, at: nat)
    requires at <= |text|
    ensures LinesFrom(text, at) != [] && LinesFrom(text, at)[0] == text[at..LineEnd(text, at)]
    ensures LinesFrom(text, at)[1..] ==
      if LineEnd(text, at) == |text| then [] else LinesFrom(text, LineEnd(text, at) + 1)
    ensures LineEnd(text, at) < |text| ==> LinesFrom(text, LineEnd(text, at) + 1) != []
  {
  }

  lemma JoinFirst(lines: seq<Text>)
    requires lines != []
    ensures JoinLines(lines) == if lines[1..] == [] then lines[0] else lines[0] + [NL] + JoinLines(lines[1..])
  {
  }

  /** Joined lines are split into the same lines. */
  lemma {:induction false} LinesOfJoined(lines: seq<Text>, before: Text)
    requires lines != [] && forall i :: 0 <= i < |lines| ==> NL !in lines[i]
    ensures LinesFrom(before + JoinLines(lines), |before|) == lines
    decreases |lines|
  {
    hide LinesFrom, JoinLines;
    JoinFirst(lines);
    if lines[1..] == [] {
      FirstLineIs(before, lines[0], []);
      assert lines[0] + [] == lines[0];
      FirstLine(before + lines[0], |before|);
      assert lines == [lines[0]];
    } else {
      LinesOfJoined(lines[1..], before + lines[0] + [NL]);
      LineThenRest(before, lines[0], JoinLines(lines[1..]));
      assert lines == [lines[0]] + lines[1..];
    }
  }

  lemma LineThenRest(before: Text, line: Text, rest: Text)
    requires NL !in line
    ensures |before + line + [NL]| <= |before + (line + [NL] + rest)|
    ensures before + line + [NL] + rest == before + (line + [NL] + rest)
    ensures LinesFrom(before + (line + [NL] + rest), |before|) ==
      [line] + LinesFrom(before + line + [NL] + rest, |before + line + [NL]|)
  {
    hide LinesFrom, LineEnd;
    var text := before + (line + [NL] + rest);
    FirstLineIs(before, line, [NL] + rest);
    assert line + ([NL] + rest) == line + [NL] + rest;
    assert before + line + [NL] + rest == text;
    FirstLine(text, |before|);
    var all := LinesFrom(text, |before|);
    assert all == [all[0]] + all[1..];
  }

  lemma {:induction false} LineEndIs(text: Text, at: nat, e: nat)
    requires at <= e <= |text| && (forall i :: at <= i < e ==> text[i] != NL) && (e < |text| ==> text[e] == NL)
    ensures LineEnd(text, at) == e
    decreases e - at
  {
    if at < e {
      LineEndIs(text, at + 1, e);
    }
  }

  lemma FirstLineIs(before: Text, line: Text, after: Text)
    requires NL !in line && (after != [] ==> after[0] == NL)
    ensures var text := before + (line + after);
      LineEnd(text, |before|) == |before| + |line| && text[|before|..|before| + |line|] == line
  {
    var text := before + (line + after);
    forall i | |before| <= i < |before| + |line|
      ensures text[i] != NL
    {
      assert text[i] == line[i - |before|];
    }
    LineEndIs(text, |before|, |before| + |line|);
  }

  lemma {:induction false} LineEndShifts(before: Text, text: Text, at: nat)
    requires at <= |text|
    ensures LineEnd(before + text, |before| + at) == |before| + LineEnd(text, at)
    decreases |text| - at
  {
    if at < |text| {
      assert (before + text)[|before| + at] == text[at];
      if text[at] != NL {
        LineEndShifts(before, text, at + 1);
      }
    }
  }

  /** What stands before does not matter to the lines from a place on. */
  lemma {:induction false} LinesShift(before: Text, text: Text, at: nat)
    requires at <= |text|
    ensures LinesFrom(before + text, |before| + at) == LinesFrom(text, at)
    decreases |text| - at
  {
    hide LineEnd, LinesFrom;
    LineEndShifts(before, text, at);
    FirstLine(text, at);
    FirstLine(before + text, |before| + at);
    var e := LineEnd(text, at);
    assert (before + text)[|before| + at..|before| + e] == text[at..e];
    if e < |text| {
      LinesShift(before, text, e + 1);
    }
    var x, y := LinesFrom(before + text, |before| + at), LinesFrom(text, at);
    assert x == [x[0]] + x[1..] && y == [y[0]] + y[1..];
  }

  /** One more unit in front. */
  lemma LinesCons(c: CodeUnit, rest: Text)
    ensures Lines([c] + rest) ==
      if c == NL then [[]] + Lines(rest) else [[c] + Lines(rest)[0]] + Lines(rest)[1..]
  {
    hide LineEnd, LinesFrom;
    var text := [c] + rest;
    FirstLine(text, 0);
    FirstLine(rest, 0);
    var lines := Lines(text);
    assert lines == [lines[0]] + lines[1..];
    if c == NL {
      assert LineEnd(text, 0) == 0 by { BreakEnds(text, 0); }
      LinesShift([c], rest, 0);
    } else {
      assert LineEnd(text, 0) == LineEnd(text, 1) by { NoBreakGoesOn(text, 0); }
      LineEndShifts([c], rest, 0);
      var e := LineEnd(rest, 0);
      assert text[0..e + 1] == [c] + rest[0..e];
      if e < |rest| {
        LinesShift([c], rest, e + 1);
      }
    }
  }

  lemma BreakEnds(text: Text, at: nat)
    requires at < |text| && text[at] == NL
    ensures LineEnd(text, at) == at
  {
  }

  lemma NoBreakGoesOn(text: Text, at: nat)
    requires at < |text| && text[at] != NL
    ensures LineEnd(text, at) == LineEnd(text, at + 1)
  {
  }

  lemma NoText()
    ensures Lines([]) == [[]]
  {
  }

  /** One more unit at the end. */
  lemma {:induction false} LinesSnoc(text: Text, c: CodeUnit)
    ensures var n := |Lines(text)| - 1;
      Lines(text + [c]) == if c == NL then Lines(text) + [[]] else Lines(text)[..n] + [Lines(text)[n] + [c]]
  {
    hide LinesFrom;
    if text == [] {
      NoText();
      LinesCons(c, []);
      assert [c] + [] == [c] && [] + [c] == [c];
    } else {
      var rest := text[1..];
      assert text == [text[0]] + rest && text + [c] == [text[0]] + (rest + [c]);
      LinesSnoc(rest, c);
      LinesCons(text[0], rest);
      LinesCons(text[0], rest + [c]);
      SnocOfCons(text[0], Lines(rest), c);
    }
  }

  function ConsLine(c: CodeUnit, lines: seq<Text>): seq<Text>
    requires lines != []
  {
    if c == NL then [[]] + lines else [[c] + lines[0]] + lines[1..]
  }

  function SnocLine(lines: seq<Text>, c: CodeUnit): (r: seq<Text>)
    requires lines != []
    ensures r != []
  {
    if c == NL then lines + [[]] else lines[..|lines| - 1] + [lines[|lines| - 1] + [c]]
  }

  lemma SnocOfCons(a: CodeUnit, lines: seq<Text>, c: CodeUnit)
    requires lines != []
    ensures ConsLine(a, SnocLine(lines, c)) == SnocLine(ConsLine(a, lines), c)
  {
    var x, y := ConsLine(a, SnocLine(lines, c)), SnocLine(ConsLine(a, lines), c);
    if a != NL && c != NL && |lines| == 1 {
      assert [a] + (lines[0] + [c]) == [a] + lines[0] + [c];
    }
    assert |x| == |y| && forall i :: 0 <= i < |x| ==> x[i] == y[i];
  }

  /** The lines of a text are the texts without breaks that it joins. */
  lemma {:induction false} LinesAreParts(text: Text)
    ensures JoinLines(Lines(text)) == text && forall line :: line in Lines(text) ==> NL !in line
  {
    hide LinesFrom;
    if text == [] {
      NoText();
    } else {
      var rest := text[1..];
      LinesAreParts(rest);
      LinesCons(text[0], rest);
      assert text == [text[0]] + rest;
      JoinFirst(Lines(rest));
      JoinFirst(Lines(text));
      assert Lines(text)[1..] == if text[0] == NL then Lines(rest) else Lines(rest)[1..];
    }
  }

  /** Splitting and joining are inverse: a text has no other lines. */
  lemma LinesExactly(text: Text, lines: seq<Text>)
    requires lines != [] && forall i :: 0 <= i < |lines| ==> NL !in lines[i]
    ensures JoinLines(lines) == text <==> Lines(text) == lines
  {
    hide LinesFrom, JoinLines;
    LinesAreParts(text);
    LinesOfJoined(lines, []);
    assert [] + JoinLines(lines) == JoinLines(lines);
  }
}
