/** Cutting a polished reply into messages (packages/channel-runtime/src/message-formatter.ts:55-112). */
module MessageSplit {
  import opened Texts

  // ----- lines and blocks -----

  predicate DoubleAt(text: Text, i: nat) {
    i + 1 < |text| && text[i] == NL && text[i + 1] == NL
  }

  /** The first pair of line breaks from here on, or the end. */
  function BlockEnd(text: Text, at: nat): (e: nat)
    requires at <= |text|
    ensures at <= e <= |text|
    ensures forall i :: at <= i < e ==> !DoubleAt(text, i)
    ensures e < |text| ==> DoubleAt(text, e)
    decreases |text| - at
  {
    if at == |text| || DoubleAt(text, at) then at else BlockEnd(text, at + 1)
  }

  function AfterBreaks(text: Text, at: nat): (e: nat)
    requires at <= |text|
    ensures at <= e <= |text|
    ensures forall i :: at <= i < e ==> text[i] == NL
    ensures e < |text| ==> text[e] != NL
    decreases |text| - at
  {
    if at == |text| || text[at] != NL then at else AfterBreaks(text, at + 1)
  }

  function BlocksFrom(text: Text, at: nat): (blocks: seq<Text>)
    requires at <= |text|
    ensures blocks != []
    decreases |text| - at
  {
    var e := BlockEnd(text, at);
    [text[at..e]] + if e == |text| then [] else BlocksFrom(text, AfterBreaks(text, e + 2))
  }

  /** Splitting at every run of two or more line breaks. */
  function Blocks(text: Text): seq<Text> {
    BlocksFrom(text, 0)
  }

  // ----- what a cutting into messages is -----

  datatype Span = Span(from: nat, to: nat)

  /** What splitting relies on: the text neither starts nor ends with a line break, and has no three in a row. */
  ghost predicate Tidy(text: Text) {
    && text != [] && text[0] != NL && text[|text| - 1] != NL
    && forall i :: 0 <= i && DoubleAt(text, i) ==> i + 2 < |text| && text[i + 2] != NL
  }

  /** A message is not empty, within the limit, and neither starts nor ends with a line break. */
  ghost predicate Chunk(text: Text, limit: int, s: Span) {
    && s.from < s.to <= |text| && s.to - s.from <= limit
    && text[s.from] != NL && text[s.to - 1] != NL
  }

  ghost predicate NoBreak(text: Text, from: nat, to: nat) {
    forall i :: from <= i < to && i < |text| ==> text[i] != NL
  }

  ghost predicate NoDouble(text: Text, from: nat, to: nat) {
    forall i :: from <= i < to ==> !DoubleAt(text, i)
  }

  /** Why a message ends where it does. Between it and the next stand no, one or two line breaks.
      With none, it is a full slice of one line; with one, it is in one block and the next line did not
      fit; with two, the next block did not fit. */
  ghost predicate Cut(text: Text, limit: int, s: Span, next: nat) {
    && s.from <= s.to <= next < |text| && text[next] != NL
    && next - s.to <= 2 && (forall i :: s.to <= i < next ==> text[i] == NL)
    && (next == s.to ==> s.to - s.from == limit && NoBreak(text, s.from, s.to))
    && (next == s.to + 1 ==> next - s.from + (LineEnd(text, next) - next) > limit && NoDouble(text, s.from, s.to))
    && (next == s.to + 2 ==> next - s.from + (BlockEnd(text, next) - next) > limit)
  }

  ghost predicate Chain(text: Text, limit: int, spans: seq<Span>) {
    && (spans != [] ==> spans[0].from == 0)
    && (forall i :: 0 <= i < |spans| ==> Chunk(text, limit, spans[i]))
    && (forall i :: 0 < i < |spans| ==> Cut(text, limit, spans[i - 1], spans[i].from))
  }

  /** The text is cut from its start to its end. */
  ghost predicate Cutting(text: Text, limit: int, spans: seq<Span>) {
    spans != [] && Chain(text, limit, spans) && spans[|spans| - 1].to == |text|
  }

  ghost predicate Wrote(text: Text, out: seq<Text>, spans: seq<Span>) {
    && |out| == |spans|
    && forall i :: 0 <= i < |out| ==>
         spans[i].from <= spans[i].to <= |text| && out[i] == text[spans[i].from..spans[i].to]
  }

  ghost predicate Bounded(out: seq<Text>, limit: int) {
    forall i :: 0 <= i < |out| ==> |out[i]| <= limit
  }

  // ----- what a cutting gives -----

  ghost predicate Ended(text: Text, limit: int, s: Span) {
    s.to == |text| || exists next :: Cut(text, limit, s, next)
  }

  /** After a slice of a line, or where the next line or block did not fit, no message can go on. */
  lemma NoFurtherSlice(text: Text, limit: int, s: Span, t: Span)
    requires Chunk(text, limit, s) && Cut(text, limit, s, s.to) && Chunk(text, limit, t) && s.from == t.from
    ensures t.to <= s.to
  {
  }

  lemma NoFurtherLine(text: Text, limit: int, s: Span, t: Span)
    requires Chunk(text, limit, s) && Cut(text, limit, s, s.to + 1) && Chunk(text, limit, t) && s.from == t.from
    requires Ended(text, limit, t)
    ensures t.to <= s.to
  {
    assert text[s.to] == NL;
    if t.to < |text| {
      var after: nat :| Cut(text, limit, t, after);
      assert after > t.to ==> text[t.to] == NL;
    }
  }

  lemma NoFurtherBlock(text: Text, limit: int, s: Span, t: Span)
    requires Chunk(text, limit, s) && Cut(text, limit, s, s.to + 2) && Chunk(text, limit, t) && s.from == t.from
    requires Ended(text, limit, t)
    ensures t.to <= s.to
  {
    assert text[s.to] == NL && text[s.to + 1] == NL;
    assert DoubleAt(text, s.to);
    if t.to < |text| {
      var after: nat :| Cut(text, limit, t, after);
      assert after == t.to + 2 ==> DoubleAt(text, t.to);
    }
  }

  lemma NoFurther(text: Text, limit: int, s: Span, t: Span)
    requires Chunk(text, limit, s) && Ended(text, limit, s) && Chunk(text, limit, t) && Ended(text, limit, t)
    requires s.from == t.from
    ensures t.to <= s.to
  {
    if s.to < |text| {
      var next: nat :| Cut(text, limit, s, next);
      hide Chunk, Ended;
      CutGap(text, limit, s, next);
      if next == s.to {
        NoFurtherSlice(text, limit, s, t);
      } else if next == s.to + 1 {
        NoFurtherLine(text, limit, s, t);
      } else {
        NoFurtherBlock(text, limit, s, t);
      }
    } else {
      assert t.to <= |text|;
    }
  }

  lemma CutGap(text: Text, limit: int, s: Span, next: nat)
    requires Cut(text, limit, s, next)
    ensures s.to <= next <= s.to + 2
  {
  }

  lemma NextStart(text: Text, limit: int, s: Span, n: nat, m: nat)
    requires Cut(text, limit, s, n) && Cut(text, limit, s, m)
    ensures n == m
  {
    assert text[n] != NL && text[m] != NL;
  }

  lemma CutOf(text: Text, limit: int, spans: seq<Span>, k: nat)
    requires Cutting(text, limit, spans) && k < |spans|
    ensures Chunk(text, limit, spans[k]) && Ended(text, limit, spans[k])
    ensures k + 1 < |spans| ==> Cut(text, limit, spans[k], spans[k + 1].from) && spans[k].to < |text|
  {
    hide Chunk;
    if k + 1 < |spans| {
      assert Cut(text, limit, spans[(k + 1) - 1], spans[k + 1].from);
    }
  }

  lemma {:induction false} SameUpTo(text: Text, limit: int, a: seq<Span>, b: seq<Span>, k: nat)
    requires Cutting(text, limit, a) && Cutting(text, limit, b) && k < |a| && k < |b|
    ensures a[k] == b[k]
  {
    hide Chunk, Cut, Ended;
    if k > 0 {
      SameUpTo(text, limit, a, b, k - 1);
      CutOf(text, limit, a, k - 1);
      CutOf(text, limit, b, k - 1);
      NextStart(text, limit, a[k - 1], a[k].from, b[k].from);
    }
    CutOf(text, limit, a, k);
    CutOf(text, limit, b, k);
    NoFurther(text, limit, a[k], b[k]);
    NoFurther(text, limit, b[k], a[k]);
  }

  /** The rules leave no choice: there is at most one cutting of a text for a limit. */
  lemma {:induction false} CuttingIsUnique(text: Text, limit: int, a: seq<Span>, b: seq<Span>)
    requires Cutting(text, limit, a) && Cutting(text, limit, b)
    ensures a == b
  {
    forall k | 0 <= k < |a| && k < |b|
      ensures a[k] == b[k]
    {
      SameUpTo(text, limit, a, b, k);
    }
    CutOf(text, limit, a, if |b| <= |a| then |b| - 1 else 0);
    CutOf(text, limit, b, if |a| <= |b| then |a| - 1 else 0);
  }

  /** From the k-th message on, the messages with what separates them. */
  function Woven(out: seq<Text>, separators: seq<Text>, k: nat): Text
    requires |separators| == |out| && k <= |out|
    decreases |out| - k
  {
    if k == |out| then [] else out[k] + separators[k] + Woven(out, separators, k + 1)
  }

  /** Where the message after the k-th one starts, and the first one after none. */
  ghost function NextFrom(text: Text, spans: seq<Span>, k: int): nat
    requires -1 <= k
  {
    if k + 1 < |spans| then spans[k + 1].from else |text|
  }

  /** The text between each message and the next. */
  ghost function Separators(text: Text, spans: seq<Span>): (separators: seq<Text>)
    ensures |separators| == |spans|
  {
    seq(|spans|, k requires 0 <= k < |spans| =>
      var next := NextFrom(text, spans, k);
      if spans[k].to <= next <= |text| then text[spans[k].to..next] else [])
  }

  lemma SeparatorAt(text: Text, limit: int, spans: seq<Span>, k: nat)
    requires Cutting(text, limit, spans) && k < |spans|
    ensures spans[k].to <= NextFrom(text, spans, k) <= |text|
    ensures Separators(text, spans)[k] == text[spans[k].to..NextFrom(text, spans, k)]
  {
    CutOf(text, limit, spans, k);
  }

  lemma {:induction false} WovenFrom(text: Text, limit: int, out: seq<Text>, spans: seq<Span>, k: nat)
    requires Cutting(text, limit, spans) && Wrote(text, out, spans) && k <= |out|
    ensures NextFrom(text, spans, k - 1) <= |text|
    ensures Woven(out, Separators(text, spans), k) == text[NextFrom(text, spans, k - 1)..]
    decreases |out| - k
  {
    hide Cutting, Separators;
    LastTo(text, limit, spans);
    if k < |out| {
      SeparatorAt(text, limit, spans, k);
      WovenFrom(text, limit, out, spans, k + 1);
      Glue(text, spans[k].from, spans[k].to, NextFrom(text, spans, k));
    }
  }

  lemma Glue(text: Text, a: nat, b: nat, c: nat)
    requires a <= b <= c <= |text|
    ensures text[a..b] + text[b..c] + text[c..] == text[a..]
  {
  }

  lemma LastTo(text: Text, limit: int, spans: seq<Span>)
    requires Cutting(text, limit, spans)
    ensures spans[|spans| - 1].to == |text|
    ensures spans[0].from == 0
  {
  }

  lemma SeparatorIs(text: Text, limit: int, out: seq<Text>, spans: seq<Span>, k: nat)
    requires Cutting(text, limit, spans) && Wrote(text, out, spans) && k < |out|
    ensures Separators(text, spans)[k] in {[], [NL], [NL, NL]}
    ensures k + 1 < |out| && Separators(text, spans)[k] == [] ==> |out[k]| == limit && NL !in out[k]
  {
    hide Cutting, Separators;
    SeparatorAt(text, limit, spans, k);
    CutOf(text, limit, spans, k);
    LastTo(text, limit, spans);
    BreaksOnly(text, spans[k].to, NextFrom(text, spans, k));
  }

  /** Nothing is lost: the messages with no, one or two line breaks between them are the text, and
      where there is none, a line longer than the limit was sliced. */
  lemma MessagesRebuildTheText(text: Text, limit: int, out: seq<Text>, spans: seq<Span>)
    requires Cutting(text, limit, spans) && Wrote(text, out, spans)
    ensures Woven(out, Separators(text, spans), 0) == text
    ensures forall k :: 0 <= k < |out| ==> Separators(text, spans)[k] in {[], [NL], [NL, NL]}
    ensures forall k :: 0 <= k < |out| - 1 && Separators(text, spans)[k] == [] ==> |out[k]| == limit && NL !in out[k]
  {
    hide Separators;
    forall k | 0 <= k < |out|
      ensures Separators(text, spans)[k] in {[], [NL], [NL, NL]}
      ensures k < |out| - 1 && Separators(text, spans)[k] == [] ==> |out[k]| == limit && NL !in out[k]
    {
      SeparatorIs(text, limit, out, spans, k);
    }
    WovenFrom(text, limit, out, spans, 0);
    LastTo(text, limit, spans);
  }

  lemma BreaksOnly(text: Text, from: nat, to: nat)
    requires from <= to <= |text|
    ensures to - from <= 2 && (forall i :: from <= i < to ==> text[i] == NL) ==> text[from..to] in {[], [NL], [NL, NL]}
  {
    assert to == from ==> text[from..to] == [];
    assert to == from + 1 ==> text[from..to] == [text[from]];
    assert to == from + 2 ==> text[from..to] == [text[from], text[from + 1]];
  }

  predicate LineFrom(text: Text, from: nat) {
    from <= |text| && (from == 0 || text[from - 1] == NL)
  }

  lemma NoEndInShortLine(text: Text, limit: int, s: Span, from: nat)
    requires Chunk(text, limit, s) && Ended(text, limit, s)
    requires LineFrom(text, from) && LineEnd(text, from) - from <= limit
    ensures !(from < s.to < LineEnd(text, from))
  {
    if s.to < |text| {
      var next: nat :| Cut(text, limit, s, next);
      assert next > s.to ==> text[s.to] == NL;
    }
  }

  /** A line that fits the limit is in one message whole. */
  lemma ShortLinesStayWhole(text: Text, limit: int, spans: seq<Span>, from: nat, k: nat)
    requires Cutting(text, limit, spans) && k < |spans|
    requires LineFrom(text, from) && LineEnd(text, from) - from <= limit
    ensures !(from < spans[k].to < LineEnd(text, from))
    ensures !(from < spans[k].from < LineEnd(text, from))
  {
    hide Cutting, Chunk, Ended;
    CutOf(text, limit, spans, k);
    NoEndInShortLine(text, limit, spans[k], from);
    if k > 0 {
      CutOf(text, limit, spans, k - 1);
      NoEndInShortLine(text, limit, spans[k - 1], from);
    } else {
      LastTo(text, limit, spans);
    }
  }

  // ----- the splitter -----

  /** The messages so far are linked up to a next one that starts at `next`. */
  ghost predicate Linked(text: Text, limit: int, spans: seq<Span>, next: nat) {
    && Chain(text, limit, spans) && next < |text| && text[next] != NL
    && (spans == [] ==> next == 0)
    && (spans != [] ==> Cut(text, limit, spans[|spans| - 1], next))
  }

  /** The messages so far end at `done` with a full slice of one line. */
  ghost predicate Full(text: Text, limit: int, spans: seq<Span>, done: nat) {
    && Chain(text, limit, spans) && spans != []
    && var s := spans[|spans| - 1];
      s.to == done && s.from <= s.to && s.to - s.from == limit && NoBreak(text, s.from, s.to)
  }

  /** A message may start at `at`, and nothing is held. */
  ghost predicate Open(text: Text, limit: int, out: seq<Text>, spans: seq<Span>, at: nat) {
    Wrote(text, out, spans) && Linked(text, limit, spans, at)
  }

  /** The text up to `done` is in the messages or held as the chunk. */
  ghost predicate Holding(text: Text, limit: int, out: seq<Text>, spans: seq<Span>, chunk: Text, done: nat) {
    && Wrote(text, out, spans) && |chunk| <= done <= |text|
    && if chunk == [] then Full(text, limit, spans, done)
       else
         && chunk == text[done - |chunk|..done] && |chunk| <= limit && chunk[|chunk| - 1] != NL
         && Linked(text, limit, spans, done - |chunk|)
  }

  /** Before the unit at `at`, which `gap` line breaks separate from what comes before. */
  ghost predicate Before(
    text: Text, limit: int, out: seq<Text>, spans: seq<Span>, chunk: Text, at: nat, gap: nat)
  {
    if chunk == [] then Open(text, limit, out, spans, at)
    else gap <= at && Holding(text, limit, out, spans, chunk, at - gap) && Breaks(text, at - gap, at)
  }

  ghost predicate Breaks(text: Text, from: nat, to: nat) {
    from <= to < |text| && (forall i :: from <= i < to ==> text[i] == NL) && text[to] != NL
  }

  /** A unit starts and ends in no line break. */
  ghost predicate Unit(text: Text, at: nat, unit: Text) {
    && unit != [] && at + |unit| <= |text| && unit == text[at..at + |unit|]
    && unit[0] != NL && unit[|unit| - 1] != NL
  }

  lemma PushSpan(text: Text, limit: int, out: seq<Text>, spans: seq<Span>, chunk: Text, done: nat)
    requires chunk != [] && Holding(text, limit, out, spans, chunk, done)
    ensures var s := Span(done - |chunk|, done);
      Chunk(text, limit, s) && Chain(text, limit, spans + [s]) && Wrote(text, out + [chunk], spans + [s])
  {
    hide Cut;
    var s := Span(done - |chunk|, done);
    var longer := spans + [s];
    assert longer[|longer| - 1] == s;
    forall i | 0 < i < |longer|
      ensures Cut(text, limit, longer[i - 1], longer[i].from)
    {
      assert i == |spans| ==> longer[i - 1] == spans[|spans| - 1];
    }
  }

  /** Pushing what is held when the next unit does not fit. */
  lemma Push(
    text: Text, limit: int, out: seq<Text>, spans: seq<Span>, chunk: Text, at: nat, gap: nat)
    requires chunk != [] && Before(text, limit, out, spans, chunk, at, gap) && 1 <= gap <= 2
    requires gap == 1 ==> |chunk| + 1 + (LineEnd(text, at) - at) > limit && NoDouble(text, at - gap - |chunk|, at - gap)
    requires gap == 2 ==> |chunk| + 2 + (BlockEnd(text, at) - at) > limit
    ensures Open(text, limit, out + [chunk], spans + [Span(at - gap - |chunk|, at - gap)], at)
  {
    hide Chain, Wrote, Linked, Chunk;
    PushSpan(text, limit, out, spans, chunk, at - gap);
    NowLinked(text, limit, spans, Span(at - gap - |chunk|, at - gap), at);
  }

  lemma NowLinked(text: Text, limit: int, spans: seq<Span>, s: Span, at: nat)
    requires Chain(text, limit, spans + [s]) && Cut(text, limit, s, at)
    ensures Linked(text, limit, spans + [s], at)
  {
    hide Chain;
  }

  lemma Glue3(text: Text, a: nat, b: nat, c: nat, d: nat)
    requires a <= b <= c <= d <= |text|
    ensures text[a..b] + text[b..c] + text[c..d] == text[a..d]
  {
  }

  /** Adding a unit to what is held. */
  lemma Join(
    text: Text, limit: int, out: seq<Text>, spans: seq<Span>, chunk: Text, at: nat, gap: nat, between: Text, unit: Text)
    requires Before(text, limit, out, spans, chunk, at, gap) && Unit(text, at, unit)
    requires |between| == gap && forall i :: 0 <= i < gap ==> between[i] == NL
    requires (if chunk == [] then |unit| else |chunk| + gap + |unit|) <= limit
    ensures Holding(text, limit, out, spans, if chunk == [] then unit else chunk + between + unit, at + |unit|)
  {
    hide Linked, Wrote;
    if chunk != [] {
      var from := at - gap - |chunk|;
      assert text[at - gap..at] == between;
      Glue3(text, from, at - gap, at, at + |unit|);
    }
  }

  /** From one unit to the next. */
  lemma NextUnit(text: Text, limit: int, out: seq<Text>, spans: seq<Span>, chunk: Text, done: nat, gap: nat)
    requires Holding(text, limit, out, spans, chunk, done) && 1 <= gap <= 2 && Breaks(text, done, done + gap)
    ensures Before(text, limit, out, spans, chunk, done + gap, gap)
  {
    hide Chain, Wrote;
    if chunk == [] {
      FullLinks(text, limit, spans, done, gap);
    }
  }

  lemma FullLinks(text: Text, limit: int, spans: seq<Span>, done: nat, gap: nat)
    requires Full(text, limit, spans, done) && 0 <= gap <= 2 && Breaks(text, done, done + gap)
    ensures Linked(text, limit, spans, done + gap)
  {
    hide Chain;
    var s := spans[|spans| - 1];
    assert NoDouble(text, s.from, s.to);
  }

  /** Slicing off a full part of a line. */
  lemma Slice(text: Text, limit: int, out: seq<Text>, spans: seq<Span>, at: nat)
    requires limit >= 1 && Open(text, limit, out, spans, at) && at + limit <= LineEnd(text, at)
    ensures var part := text[at..at + limit];
      Wrote(text, out + [part], spans + [Span(at, at + limit)]) &&
      Full(text, limit, spans + [Span(at, at + limit)], at + limit)
    ensures at + limit < LineEnd(text, at) ==> Linked(text, limit, spans + [Span(at, at + limit)], at + limit)
  {
    hide Chain, Wrote, Chunk, Cut, Linked;
    var part := text[at..at + limit];
    PushSpan(text, limit, out, spans, part, at + limit);
    if at + limit < LineEnd(text, at) {
      FullLinks(text, limit, spans + [Span(at, at + limit)], at + limit, 0);
    }
  }

  ghost predicate WholeLine(text: Text, at: nat, line: Text) {
    Unit(text, at, line) && LineEnd(text, at) == at + |line|
  }

  lemma {:induction false} SameLine(text: Text, at: nat, x: nat)
    requires at <= x <= |text| && x <= LineEnd(text, at)
    ensures LineEnd(text, x) == LineEnd(text, at)
    decreases x - at
  {
    if at < x {
      SameLine(text, at + 1, x);
    }
  }

  /** The first `index` units of the line are in full slices, or the line is done. */
  ghost predicate Slicing(
    text: Text, limit: int, out: seq<Text>, spans: seq<Span>, chunk: Text, at: nat, line: Text, index: nat)
  {
    WholeLine(text, at, line) &&
    if index < |line| then chunk == [] && Open(text, limit, out, spans, at + index)
    else Holding(text, limit, out, spans, chunk, at + |line|)
  }

  lemma SliceFull(
    text: Text, limit: int, out: seq<Text>, spans: seq<Span>, at: nat, line: Text, index: nat)
    requires limit >= 1 && index + limit <= |line| && Slicing(text, limit, out, spans, [], at, line, index)
    ensures Slicing(
      text, limit, out + [line[index..index + limit]], spans + [Span(at + index, at + index + limit)],
      [], at, line, index + limit)
  {
    hide Wrote, Linked, Full, Unit;
    SameLine(text, at, at + index);
    LineSlice(text, at, line, index, index + limit);
    Slice(text, limit, out, spans, at + index);
  }

  lemma SliceRest(
    text: Text, limit: int, out: seq<Text>, spans: seq<Span>, at: nat, line: Text, index: nat)
    requires limit >= 1 && index < |line| < index + limit && Slicing(text, limit, out, spans, [], at, line, index)
    ensures Slicing(text, limit, out, spans, line[index..|line|], at, line, |line|)
  {
    hide Wrote, Linked;
    LineSlice(text, at, line, index, |line|);
  }

  lemma LineSlice(text: Text, at: nat, line: Text, from: nat, to: nat)
    requires Unit(text, at, line) && from <= to <= |line|
    ensures at + to <= |text| && line[from..to] == text[at + from..at + to]
  {
    SliceOfSlice(text, at, at + |line|, from, to);
  }

  lemma SliceOfSlice(text: Text, a: nat, b: nat, from: nat, to: nat)
    requires a <= b <= |text| && from <= to <= b - a
    ensures text[a..b][from..to] == text[a + from..a + to]
  {
    var inner, outer := text[a..b][from..to], text[a + from..a + to];
    assert forall i :: 0 <= i < to - from ==> inner[i] == text[a + from + i] == outer[i];
  }

  /** A line longer than the limit, cut into full parts and a shorter rest. */
  method SplitLine(ghost text: Text, limit: int, line: Text, ghost at: nat, out0: seq<Text>, ghost spans0: seq<Span>)
    returns (out: seq<Text>, chunk: Text, ghost spans: seq<Span>)
    requires limit >= 1 && line != [] && Bounded(out0, limit)
    requires Tidy(text) ==> WholeLine(text, at, line) && Open(text, limit, out0, spans0, at)
    ensures Bounded(out, limit) && |chunk| <= limit
    ensures Tidy(text) ==> Holding(text, limit, out, spans, chunk, at + |line|)
  {
    hide Tidy, Open, Holding, WholeLine;
    out, chunk, spans := out0, [], spans0;
    var index := 0;
    while index < |line|
      invariant 0 <= index <= |line|
      invariant Bounded(out, limit) && |chunk| <= limit
      invariant index < |line| ==> chunk == []
      invariant Tidy(text) ==> Slicing(text, limit, out, spans, chunk, at, line, index)
    {
      var part := line[index..if index + limit <= |line| then index + limit else |line|];
      if |part| == limit {
        if Tidy(text) {
          SliceFull(text, limit, out, spans, at, line, index);
        }
        out := out + [part];
        spans := spans + [Span(at + index, at + index + limit)];
        index := index + limit;
        continue;
      }
      if Tidy(text) {
        SliceRest(text, limit, out, spans, at, line, index);
      }
      chunk := part;
      index := |line|;
    }
  }

  ghost predicate WholeBlock(text: Text, at: nat, block: Text) {
    Unit(text, at, block) && BlockEnd(text, at) == at + |block|
  }

  /** The lines in `rest`, from the j-th unit of the block on, are still to do. */
  ghost predicate Lining(
    text: Text, limit: int, out: seq<Text>, spans: seq<Span>, chunk: Text, at: nat, block: Text, rest: seq<Text>,
    j: nat)
  {
    WholeBlock(text, at, block) &&
    if rest == [] then Holding(text, limit, out, spans, chunk, at + |block|)
    else
      && j < |block| && rest == LinesFrom(block, j) && Before(text, limit, out, spans, chunk, at + j, 1)
      && (chunk != [] ==> |chunk| + 1 <= j)
  }

  lemma {:induction false} LineEndInBlock(text: Text, at: nat, block: Text, j: nat)
    requires WholeBlock(text, at, block) && j <= |block|
    ensures LineEnd(text, at + j) == at + LineEnd(block, j)
    decreases |block| - j
  {
    if j < |block| {
      assert block[j] == text[at + j];
      LineEndInBlock(text, at, block, j + 1);
    }
  }

  /** The line at `j` is a line of the text, and another line of the block follows, or none. */
  ghost predicate LineAt(text: Text, at: nat, block: Text, rest: seq<Text>, j: nat)
    requires rest != []
  {
    && WholeLine(text, at + j, rest[0]) && j + |rest[0]| <= |block|
    && if rest[1..] == [] then j + |rest[0]| == |block|
       else
         && j + |rest[0]| + 1 < |block| && rest[1..] == LinesFrom(block, j + |rest[0]| + 1)
         && Breaks(text, at + j + |rest[0]|, at + j + |rest[0]| + 1)
  }

  lemma LineInBlock(text: Text, at: nat, block: Text, j: nat)
    requires WholeBlock(text, at, block) && j < |block| && text[at + j] != NL
    ensures var e := LineEnd(block, j);
      WholeLine(text, at + j, block[j..e]) &&
      (e < |block| ==> e + 1 < |block| && Breaks(text, at + e, at + e + 1))
  {
    hide WholeBlock;
    var e := LineEnd(block, j);
    LineEndInBlock(text, at, block, j);
    BlockFacts(text, at, block);
    LineSlice(text, at, block, j, e);
    assert LineEnd(text, at + j) == at + e;
    assert text[at + e - 1] != NL;
    assert block[|block| - 1] == text[at + |block| - 1];
    if e < |block| {
      assert text[at + e] == NL;
      assert !DoubleAt(text, at + e);
    }
  }

  lemma BlockFacts(text: Text, at: nat, block: Text)
    requires WholeBlock(text, at, block)
    ensures Unit(text, at, block) && NoDouble(text, at, at + |block|)
  {
  }

  lemma LineIsAt(text: Text, at: nat, block: Text, rest: seq<Text>, j: nat)
    requires WholeBlock(text, at, block) && j < |block| && rest == LinesFrom(block, j)
    requires text[at + j] != NL
    ensures LineAt(text, at, block, rest, j)
  {
    hide WholeBlock, WholeLine, Breaks, LinesFrom;
    LineInBlock(text, at, block, j);
    FirstLine(block, j);
  }

  /** After the line, the block goes on with the next. */
  lemma LineDone(
    text: Text, limit: int, out: seq<Text>, spans: seq<Span>, chunk: Text, at: nat, block: Text, rest: seq<Text>,
    j: nat)
    requires WholeBlock(text, at, block) && rest != [] && LineAt(text, at, block, rest, j)
    requires Holding(text, limit, out, spans, chunk, at + j + |rest[0]|) && |chunk| <= j + |rest[0]|
    ensures Lining(text, limit, out, spans, chunk, at, block, rest[1..], j + |rest[0]| + 1)
  {
    hide Holding, Before, Breaks, WholeLine, Unit;
    if rest[1..] != [] {
      NextUnit(text, limit, out, spans, chunk, at + j + |rest[0]|, 1);
    }
  }

  /** Pushing what is held before a line that does not fit. */
  lemma PushBeforeLine(
    text: Text, limit: int, out: seq<Text>, spans: seq<Span>, chunk: Text, at: nat, block: Text, j: nat, line: Text)
    requires chunk != [] && WholeBlock(text, at, block) && |chunk| + 1 <= j
    requires Before(text, limit, out, spans, chunk, at + j, 1) && WholeLine(text, at + j, line) && j <= |block|
    requires |chunk| + 1 + |line| > limit
    ensures Open(text, limit, out + [chunk], spans + [Span(at + j - 1 - |chunk|, at + j - 1)], at + j)
  {
    hide Before;
    assert NoDouble(text, at + j - 1 - |chunk|, at + j - 1);
    Push(text, limit, out, spans, chunk, at + j, 1);
  }

  lemma BeforeAt(text: Text, limit: int, out: seq<Text>, spans: seq<Span>, chunk: Text, at: nat, gap: nat)
    requires Before(text, limit, out, spans, chunk, at, gap)
    ensures at < |text| && text[at] != NL
    ensures chunk == [] ==> Open(text, limit, out, spans, at)
  {
  }

  lemma Append(text: Text, limit: int, out: seq<Text>, spans: seq<Span>, chunk: Text, at: nat, gap: nat, unit: Text)
    requires Before(text, limit, out, spans, chunk, at, gap) && Unit(text, at, unit) && 1 <= gap <= 2
    requires (if chunk == [] then |unit| else |chunk| + gap + |unit|) <= limit
    ensures Holding(text, limit, out, spans,
      if chunk == [] then unit else chunk + (if gap == 1 then [NL] else [NL, NL]) + unit, at + |unit|)
  {
    hide Before, Unit, Holding;
    Join(text, limit, out, spans, chunk, at, gap, if gap == 1 then [NL] else [NL, NL], unit);
  }

  /** A block longer than the limit, line by line. */
  method SplitBlock(ghost text: Text, limit: int, block: Text, ghost at: nat, out0: seq<Text>, ghost spans0: seq<Span>)
    returns (out: seq<Text>, chunk: Text, ghost spans: seq<Span>)
    requires limit >= 1 && block != [] && Bounded(out0, limit)
    requires Tidy(text) ==> WholeBlock(text, at, block) && Open(text, limit, out0, spans0, at)
    ensures Bounded(out, limit) && |chunk| <= limit
    ensures Tidy(text) ==> Holding(text, limit, out, spans, chunk, at + |block|)
  {
    hide Tidy, Holding, Open, LineAt, WholeBlock, WholeLine, Unit, LinesFrom;
    out, chunk, spans := out0, [], spans0;
    var lines := Lines(block);
    var k := 0;
    ghost var j: nat := 0;
    assert lines[0..] == lines;
    while k < |lines|
      invariant 0 <= k <= |lines|
      invariant Bounded(out, limit) && |chunk| <= limit
      invariant Tidy(text) ==> Lining(text, limit, out, spans, chunk, at, block, lines[k..], j)
    {
      var line := lines[k];
      ghost var rest := lines[k..];
      assert rest[0] == line && rest[1..] == lines[k + 1..];
      if Tidy(text) {
        LiningGives(text, limit, out, spans, chunk, at, block, rest, j);
      }
      var next := if chunk != [] then chunk + [NL] + line else line;
      if |next| <= limit {
        if Tidy(text) {
          Append(text, limit, out, spans, chunk, at + j, 1, line);
        }
        chunk := next;
      } else {
        if chunk != [] {
          if Tidy(text) {
            PushBeforeLine(text, limit, out, spans, chunk, at, block, j, line);
            spans := spans + [Span(at + j - 1 - |chunk|, at + j - 1)];
          }
          out := out + [chunk];
          chunk := [];
        }
        if |line| <= limit {
          if Tidy(text) {
            Append(text, limit, out, spans, [], at + j, 1, line);
          }
          chunk := line;
        } else {
          out, chunk, spans := SplitLine(text, limit, line, at + j, out, spans);
        }
      }
      if Tidy(text) {
        LineDone(text, limit, out, spans, chunk, at, block, rest, j);
      }
      j := j + |line| + 1;
      k := k + 1;
    }
  }

  lemma LiningGives(
    text: Text, limit: int, out: seq<Text>, spans: seq<Span>, chunk: Text, at: nat, block: Text, rest: seq<Text>,
    j: nat)
    requires rest != [] && Lining(text, limit, out, spans, chunk, at, block, rest, j)
    ensures WholeBlock(text, at, block) && j < |block| && LineAt(text, at, block, rest, j)
    ensures WholeLine(text, at + j, rest[0]) && Unit(text, at + j, rest[0]) && rest[0] != []
    ensures Before(text, limit, out, spans, chunk, at + j, 1) && (chunk != [] ==> |chunk| + 1 <= j)
    ensures chunk == [] ==> Open(text, limit, out, spans, at + j)
  {
    hide Holding, Before, Breaks, Open, LinesFrom, WholeBlock;
    BeforeAt(text, limit, out, spans, chunk, at + j, 1);
    LineIsAt(text, at, block, rest, j);
  }

  /** The blocks in `rest`, from `at` on, are still to do. */
  ghost predicate Blocking(
    text: Text, limit: int, out: seq<Text>, spans: seq<Span>, chunk: Text, rest: seq<Text>, at: nat)
  {
    if rest == [] then Holding(text, limit, out, spans, chunk, |text|)
    else at < |text| && rest == BlocksFrom(text, at) && Before(text, limit, out, spans, chunk, at, 2)
  }

  ghost predicate BlockAt(text: Text, rest: seq<Text>, at: nat)
    requires rest != []
  {
    && WholeBlock(text, at, rest[0])
    && if rest[1..] == [] then at + |rest[0]| == |text|
       else
         && at + |rest[0]| + 2 < |text| && rest[1..] == BlocksFrom(text, at + |rest[0]| + 2)
         && Breaks(text, at + |rest[0]|, at + |rest[0]| + 2)
  }

  lemma FirstBlock(text: Text, at: nat)
    requires at <= |text|
    ensures BlocksFrom(text, at)[0] == text[at..BlockEnd(text, at)]
    ensures BlocksFrom(text, at)[1..] ==
      if BlockEnd(text, at) == |text| then [] else BlocksFrom(text, AfterBreaks(text, BlockEnd(text, at) + 2))
    ensures BlockEnd(text, at) < |text| ==> BlocksFrom(text, AfterBreaks(text, BlockEnd(text, at) + 2)) != []
  {
  }

  lemma BlockGap(text: Text, at: nat)
    requires Tidy(text) && at <= |text|
    ensures var e := BlockEnd(text, at);
      e < |text| ==> e + 2 < |text| && AfterBreaks(text, e + 2) == e + 2 && Breaks(text, e, e + 2)
  {
    hide BlockEnd;
    var e := BlockEnd(text, at);
    if e < |text| {
      assert DoubleAt(text, e);
    }
  }

  lemma BlockInText(text: Text, at: nat)
    requires Tidy(text) && at < |text| && text[at] != NL
    ensures WholeBlock(text, at, text[at..BlockEnd(text, at)])
  {
    hide BlockEnd, Tidy, Unit, DoubleAt;
    BlockLast(text, at);
    SliceUnit(text, at, BlockEnd(text, at));
    assert |text[at..BlockEnd(text, at)]| == BlockEnd(text, at) - at;
  }

  lemma BlockLast(text: Text, at: nat)
    requires Tidy(text) && at < |text| && text[at] != NL
    ensures at < BlockEnd(text, at) && text[BlockEnd(text, at) - 1] != NL
  {
    hide BlockEnd;
    var e := BlockEnd(text, at);
    assert !DoubleAt(text, e - 1);
    assert e < |text| ==> DoubleAt(text, e);
  }

  lemma SliceUnit(text: Text, a: nat, b: nat)
    requires a < b <= |text| && text[a] != NL && text[b - 1] != NL
    ensures Unit(text, a, text[a..b])
  {
  }

  lemma BlockIsAt(text: Text, rest: seq<Text>, at: nat)
    requires Tidy(text) && at < |text| && rest == BlocksFrom(text, at) && text[at] != NL
    ensures BlockAt(text, rest, at)
  {
    hide Tidy, WholeBlock, Breaks, BlocksFrom;
    BlockGap(text, at);
    BlockInText(text, at);
    FirstBlock(text, at);
  }

  lemma BlockDone(
    text: Text, limit: int, out: seq<Text>, spans: seq<Span>, chunk: Text, rest: seq<Text>, at: nat)
    requires rest != [] && BlockAt(text, rest, at)
    requires Holding(text, limit, out, spans, chunk, at + |rest[0]|)
    ensures Blocking(text, limit, out, spans, chunk, rest[1..], at + |rest[0]| + 2)
  {
    hide Holding, Before, Breaks, WholeBlock;
    if rest[1..] != [] {
      NextUnit(text, limit, out, spans, chunk, at + |rest[0]|, 2);
    }
  }

  lemma BlockingGives(
    text: Text, limit: int, out: seq<Text>, spans: seq<Span>, chunk: Text, rest: seq<Text>, at: nat)
    requires Tidy(text) && rest != [] && Blocking(text, limit, out, spans, chunk, rest, at)
    ensures BlockAt(text, rest, at) && WholeBlock(text, at, rest[0]) && Unit(text, at, rest[0])
    ensures Before(text, limit, out, spans, chunk, at, 2) && (chunk != [] ==> |chunk| + 2 <= at)
    ensures chunk == [] ==> Open(text, limit, out, spans, at)
  {
    hide Tidy, Breaks, Open, BlocksFrom, Linked, Wrote;
    BeforeAt(text, limit, out, spans, chunk, at, 2);
    BlockIsAt(text, rest, at);
  }

  lemma PushBeforeBlock(
    text: Text, limit: int, out: seq<Text>, spans: seq<Span>, chunk: Text, at: nat, block: Text)
    requires chunk != [] && |chunk| + 2 <= at && WholeBlock(text, at, block) && |chunk| + 2 + |block| > limit
    requires Before(text, limit, out, spans, chunk, at, 2)
    ensures Open(text, limit, out + [chunk], spans + [Span(at - 2 - |chunk|, at - 2)], at)
  {
    hide Before;
    Push(text, limit, out, spans, chunk, at, 2);
  }

  lemma LastPush(text: Text, limit: int, out: seq<Text>, spans: seq<Span>, chunk: Text, at: nat)
    requires Blocking(text, limit, out, spans, chunk, [], at)
    ensures chunk == [] ==> Cutting(text, limit, spans) && Wrote(text, out, spans)
    ensures chunk != [] ==> |chunk| <= |text| && Cutting(text, limit, spans + [Span(|text| - |chunk|, |text|)])
    ensures chunk != [] ==> Wrote(text, out + [chunk], spans + [Span(|text| - |chunk|, |text|)])
  {
    hide Wrote, Chain;
    if chunk != [] {
      PushSpan(text, limit, out, spans, chunk, |text|);
    }
  }

  lemma OneSpan(text: Text, limit: int)
    requires Tidy(text) && |text| <= limit
    ensures Cutting(text, limit, [Span(0, |text|)]) && Wrote(text, [text], [Span(0, |text|)])
  {
  }

  /** Every message is within the limit; the messages of a tidy text are its one cutting. */
  method SplitText(text: Text, limit: int) returns (out: seq<Text>, ghost spans: seq<Span>)
    requires |text| > limit ==> limit >= 1
    ensures |text| <= limit ==> out == [text]
    ensures Bounded(out, limit)
    ensures Tidy(text) ==> Cutting(text, limit, spans) && Wrote(text, out, spans)
  {
    hide Holding, BlockAt, WholeBlock, Unit, BlocksFrom, Cutting, LineEnd, BlockEnd, Cut;
    if |text| <= limit {
      if Tidy(text) {
        OneSpan(text, limit);
      }
      return [text], [Span(0, |text|)];
    }
    out, spans := [], [];
    var blocks := Blocks(text);
    var chunk: Text := [];
    var k := 0;
    ghost var at: nat := 0;
    assert blocks[0..] == blocks;
    while k < |blocks|
      invariant 0 <= k <= |blocks|
      invariant Bounded(out, limit) && |chunk| <= limit
      invariant Tidy(text) ==> Blocking(text, limit, out, spans, chunk, blocks[k..], at)
    {
      var block := blocks[k];
      ghost var rest := blocks[k..];
      assert rest[0] == block && rest[1..] == blocks[k + 1..];
      if Tidy(text) {
        BlockingGives(text, limit, out, spans, chunk, rest, at);
      }
      var joined := if chunk != [] then chunk + [NL, NL] + block else block;
      if |joined| <= limit {
        if Tidy(text) {
          Append(text, limit, out, spans, chunk, at, 2, block);
        }
        chunk := joined;
      } else {
        if chunk != [] {
          if Tidy(text) {
            PushBeforeBlock(text, limit, out, spans, chunk, at, block);
            spans := spans + [Span(at - 2 - |chunk|, at - 2)];
          }
          out := out + [chunk];
          chunk := [];
        }
        if |block| <= limit {
          if Tidy(text) {
            Append(text, limit, out, spans, [], at, 2, block);
          }
          chunk := block;
        } else {
          out, chunk, spans := SplitBlock(text, limit, block, at, out, spans);
        }
      }
      if Tidy(text) {
        BlockDone(text, limit, out, spans, chunk, rest, at);
      }
      at := at + |block| + 2;
      k := k + 1;
    }
    assert blocks[|blocks|..] == [];
    if Tidy(text) {
      LastPush(text, limit, out, spans, chunk, at);
    }
    if chunk != [] {
      if Tidy(text) {
        spans := spans + [Span(|text| - |chunk|, |text|)];
      }
      out := out + [chunk];
    }
  }
}
