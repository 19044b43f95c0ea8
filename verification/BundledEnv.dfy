/** The bundled environment with its one window of use (packages/channel-runtime/src/bundled-env.ts:37-252).
    That concurrent claims of the window agree is in LockedClaim. */
module BundledEnv {
  import opened Basics
  import opened Texts

  const HASH: CodeUnit := 35
  const EQUALS: CodeUnit := 61
  const DOUBLE_QUOTE: CodeUnit := 34
  const SINGLE_QUOTE: CodeUnit := 39
  const UNDERSCORE: CodeUnit := 95

  /** "export " and "__proto__". */
  const EXPORT: Text := [101, 120, 112, 111, 114, 116, 32]
  const PROTO: Text := [95, 95, 112, 114, 111, 116, 111, 95, 95]

  // ----- one line -----

  datatype Line = Skipped | Bad | Assigns(key: Text, value: Text)

  function Trim(text: Text): Text {
    TrimEnd(TrimStart(text))
  }

  function ParseValue(input: Text): Text {
    var value := Trim(input);
    if |value| < 2 then value
    else
      var head, tail := value[0], value[|value| - 1];
      if (head == DOUBLE_QUOTE && tail == DOUBLE_QUOTE) || (head == SINGLE_QUOTE && tail == SINGLE_QUOTE) then
        value[1..|value| - 1]
      else value
  }

  predicate Letter(c: CodeUnit) {
    65 <= c <= 90 || 97 <= c <= 122 || c == UNDERSCORE
  }

  predicate NameUnit(c: CodeUnit) {
    Letter(c) || 48 <= c <= 57
  }

  predicate IsName(key: Text) {
    key != [] && Letter(key[0]) && forall c :: c in key ==> NameUnit(c)
  }

  function IndexOfEquals(body: Text, from: nat): (at: int)
    requires from <= |body|
    ensures at == -1 || (from <= at < |body| && body[at] == EQUALS)
    ensures at != -1 ==> forall i :: from <= i < at ==> body[i] != EQUALS
    decreases |body| - from
  {
    if from == |body| then -1 else if body[from] == EQUALS then from else IndexOfEquals(body, from + 1)
  }

  function ReadLine(line: Text): Line {
    var text := Trim(line);
    if text == [] || text[0] == HASH then Skipped
    else
      var body := if EXPORT <= text then Trim(text[|EXPORT|..]) else text;
      var at := IndexOfEquals(body, 0);
      if at <= 0 then Bad
      else
        var key := Trim(body[..at]);
        if IsName(key) then Assigns(key, ParseValue(body[at + 1..])) else Bad
  }

  // ----- what a line reads as, without the steps of reading -----

  /** The text without the white space around it. */
  ghost predicate IsTrimmed(text: Text, trimmed: Text) {
    exists from, to :: Slice(text, from, to, trimmed)
  }

  ghost predicate Slice(text: Text, from: nat, to: nat, slice: Text) {
    && from <= to <= |text| && slice == text[from..to]
    && (forall i :: 0 <= i < from || to <= i < |text| ==> White(text[i]))
    && (from < to ==> !White(text[from]) && !White(text[to - 1]))
  }

  /** What is left of a line when a leading "export " is taken off. */
  ghost predicate Declares(text: Text, body: Text) {
    if EXPORT <= text then IsTrimmed(text[|EXPORT|..], body) else body == text
  }

  ghost predicate FirstEquals(body: Text, at: nat) {
    at < |body| && body[at] == EQUALS && forall i :: 0 <= i < at ==> body[i] != EQUALS
  }

  /** A value in a pair of equal quotes stands for what is between them, any other for itself. */
  ghost predicate Unquotes(written: Text, value: Text) {
    if exists q :: q in [DOUBLE_QUOTE, SINGLE_QUOTE] && InQuotes(written, q) then
      exists q :: q in [DOUBLE_QUOTE, SINGLE_QUOTE] && written == [q] + value + [q]
    else value == written
  }

  ghost predicate InQuotes(written: Text, q: CodeUnit) {
    |written| >= 2 && written[0] == q && written[|written| - 1] == q
  }

  /** The line is empty or a comment. */
  ghost predicate IsComment(line: Text) {
    exists text :: IsTrimmed(line, text) && (text == [] || text[0] == HASH)
  }

  /** The line is a name and a value with an equals sign between them, perhaps behind "export ". */
  ghost predicate IsAssignment(line: Text, key: Text, value: Text) {
    exists text, body, at, written :: AssignmentAt(line, text, body, at, written, key, value)
  }

  ghost predicate AssignmentAt(
    line: Text, text: Text, body: Text, at: nat, written: Text, key: Text, value: Text)
  {
    && IsTrimmed(line, text) && text != [] && text[0] != HASH && Declares(text, body) && FirstEquals(body, at)
    && IsTrimmed(body[..at], key) && IsName(key) && IsTrimmed(body[at + 1..], written) && Unquotes(written, value)
  }

  lemma {:induction false} TrimStartSlice(text: Text) returns (from: nat)
    ensures from <= |text| && TrimStart(text) == text[from..] && forall i :: 0 <= i < from ==> White(text[i])
    ensures from < |text| ==> !White(text[from])
  {
    if text != [] && White(text[0]) {
      from := TrimStartSlice(text[1..]);
      assert forall i :: 1 <= i < from + 1 ==> text[i] == text[1..][i - 1];
      assert text[1..][from..] == text[from + 1..];
      from := from + 1;
    } else {
      from := 0;
    }
  }

  lemma {:induction false} TrimEndSlice(text: Text) returns (to: nat)
    ensures to <= |text| && TrimEnd(text) == text[..to] && forall i :: to <= i < |text| ==> White(text[i])
    ensures to > 0 ==> !White(text[to - 1])
  {
    if text != [] && White(text[|text| - 1]) {
      to := TrimEndSlice(text[..|text| - 1]);
      assert text[..|text| - 1][..to] == text[..to];
    } else {
      to := |text|;
    }
  }

  /** Trimming is what it says. */
  lemma TrimExactly(text: Text, trimmed: Text)
    ensures IsTrimmed(text, trimmed) <==> Trim(text) == trimmed
  {
    hide White, TrimStart, TrimEnd;
    var from := TrimStartSlice(text);
    var to := TrimEndSlice(text[from..]);
    assert text[from..][..to] == text[from..from + to];
    assert forall i :: 0 <= i < |text| - from ==> text[from..][i] == text[from + i];
    assert forall i :: from + to <= i < |text| ==> text[i] == text[from..][i - from];
    assert to > 0 ==> !White(text[from..][to - 1]);
    assert Slice(text, from, from + to, Trim(text));
    if a, b :| Slice(text, a, b, trimmed) {
      SlicesAreOne(text, a, b, trimmed, from, from + to, Trim(text));
    }
  }

  lemma SlicesAreOne(text: Text, a: nat, b: nat, x: Text, c: nat, d: nat, y: Text)
    requires Slice(text, a, b, x) && Slice(text, c, d, y)
    ensures x == y
  {
    hide White;
    if a < b {
      assert c <= a && b <= d;
    }
    if c < d {
      assert a <= c && d <= b;
    }
  }

  lemma ValueExactly(input: Text, value: Text)
    ensures ParseValue(input) == value <==> Unquotes(Trim(input), value)
  {
    hide Trim;
    var written := Trim(input);
    assert DOUBLE_QUOTE in [DOUBLE_QUOTE, SINGLE_QUOTE] && SINGLE_QUOTE in [DOUBLE_QUOTE, SINGLE_QUOTE];
    if |written| >= 2 {
      var inner := written[1..|written| - 1];
      assert written == [written[0]] + inner + [written[|written| - 1]];
      forall q | written == [q] + value + [q] ensures value == inner && InQuotes(written, q) {
      }
    }
  }

  lemma EqualsExactly(body: Text, at: nat)
    ensures FirstEquals(body, at) <==> IndexOfEquals(body, 0) == at
  {
    if FirstEquals(body, at) {
      EqualsIsFound(body, 0, at);
    }
  }

  lemma BodyExactly(text: Text, body: Text)
    ensures Declares(text, body) <==> body == if EXPORT <= text then Trim(text[|EXPORT|..]) else text
  {
    hide Trim;
    if EXPORT <= text {
      TrimExactly(text[|EXPORT|..], body);
    }
  }

  /** A line is skipped exactly if it is empty or a comment, and assigns exactly what it is an assignment of;
      every other line is bad. */
  lemma ReadLineExactly(line: Text, key: Text, value: Text)
    ensures ReadLine(line) == Skipped <==> IsComment(line)
    ensures ReadLine(line) == Assigns(key, value) <==> IsAssignment(line, key, value)
  {
    hide Trim, ParseValue, IndexOfEquals, IsTrimmed, Declares, FirstEquals, Unquotes, IsName;
    var text := Trim(line);
    TrimExactly(line, text);
    forall t ensures IsTrimmed(line, t) <==> text == t {
      TrimExactly(line, t);
    }
    if text != [] && text[0] != HASH {
      AssignmentExactly(line, text, key, value);
    }
  }

  lemma AssignmentExactly(line: Text, text: Text, key: Text, value: Text)
    requires text != [] && text[0] != HASH && text == Trim(line) && forall t :: IsTrimmed(line, t) <==> text == t
    ensures ReadLine(line) == Assigns(key, value) <==> IsAssignment(line, key, value)
  {
    hide Trim, ParseValue, IsTrimmed, Declares, FirstEquals, Unquotes;
    var body := if EXPORT <= text then Trim(text[|EXPORT|..]) else text;
    forall b ensures Declares(text, b) <==> b == body {
      BodyExactly(text, b);
    }
    forall at: nat ensures FirstEquals(body, at) <==> IndexOfEquals(body, 0) == at {
      EqualsExactly(body, at);
    }
    var at := IndexOfEquals(body, 0);
    if at >= 0 {
      forall k ensures IsTrimmed(body[..at], k) <==> Trim(body[..at]) == k {
        TrimExactly(body[..at], k);
      }
      var rest := body[at + 1..];
      forall w ensures IsTrimmed(rest, w) <==> Trim(rest) == w {
        TrimExactly(rest, w);
      }
      ValueExactly(rest, value);
      NoName(at, body);
      if ReadLine(line) == Assigns(key, value) {
        assert AssignmentAt(line, text, body, at, Trim(rest), key, value);
      }
    }
  }

  lemma NoName(at: int, body: Text)
    requires 0 <= at <= |body|
    ensures at == 0 ==> !IsName(Trim(body[..at]))
  {
  }

  // ----- the whole file -----

  /** The line of a \\r\\n or \\n break does not keep the \\r. */
  function WithoutCr(line: Text): Text {
    if line != [] && line[|line| - 1] == CR then line[..|line| - 1] else line
  }

  function BundleLines(raw: Text): seq<Text> {
    var lines := Lines(raw);
    seq(|lines|, i requires 0 <= i < |lines| => if i + 1 < |lines| then WithoutCr(lines[i]) else lines[i])
  }

  datatype ParsedBundle = Valid(env: map<Text, Text>) | Invalid(badLines: seq<(nat, Text)>)

  /** The bad ones of the first `n` lines, counted from 1. */
  function BadLines(lines: seq<Text>, n: nat): seq<(nat, Text)>
    requires n <= |lines|
  {
    if n == 0 then []
    else BadLines(lines, n - 1) + if ReadLine(lines[n - 1]).Bad? then [(n, Trim(lines[n - 1]))] else []
  }

  /** The record that collects the variables takes every name for a key of its own, but for one. */
  predicate Sets(line: Line, key: Text) {
    line.Assigns? && line.key == key && key != PROTO
  }

  /** What the last of the first `n` lines to set the variable sets it to. */
  function LastSet(lines: seq<Text>, n: nat, key: Text): Option<Text>
    requires n <= |lines|
  {
    if n == 0 then None
    else if Sets(ReadLine(lines[n - 1]), key) then Some(ReadLine(lines[n - 1]).value)
    else LastSet(lines, n - 1, key)
  }

  ghost predicate Collected(lines: seq<Text>, n: nat, env: map<Text, Text>)
    requires n <= |lines|
  {
    forall key :: if key in env then LastSet(lines, n, key) == Some(env[key]) else LastSet(lines, n, key) == None
  }

  /** A bundle is valid if and only if none of its lines is bad, and then holds the last value of each
      variable; otherwise the answer is all bad lines, with their numbers. */
  ghost predicate ParsesTo(raw: Text, r: ParsedBundle) {
    var lines := BundleLines(raw);
    && (r.Valid? <==> forall i :: 0 <= i < |lines| ==> !ReadLine(lines[i]).Bad?)
    && (r.Valid? ==> Collected(lines, |lines|, r.env))
    && (r.Invalid? ==> r.badLines == BadLines(lines, |lines|))
  }

  /** The entries of the record: each key once. */
  ghost predicate Entries(keys: seq<Text>, bundle: map<Text, Text>) {
    Distinct(keys) && forall key :: key in keys <==> key in bundle
  }

  ghost predicate Distinct(keys: seq<Text>) {
    forall i, j :: 0 <= i < j < |keys| ==> keys[i] != keys[j]
  }

  /** `entries` are the keys of the record in its own order. */
  method ParseBundle(raw: Text) returns (r: ParsedBundle, entries: seq<Text>)
    ensures ParsesTo(raw, r)
    ensures r.Valid? ==> Entries(entries, r.env)
  {
    hide ReadLine, BundleLines;
    var env: map<Text, Text> := map[];
    var invalidLines: seq<(nat, Text)> := [];
    entries := [];
    var lines := BundleLines(raw);
    var index := 0;
    while index < |lines|
      invariant 0 <= index <= |lines|
      invariant Collected(lines, index, env)
      invariant Entries(entries, env)
      invariant invalidLines == BadLines(lines, index)
      invariant invalidLines == [] <==> forall i :: 0 <= i < index ==> !ReadLine(lines[i]).Bad?
    {
      match ReadLine(lines[index]) {
        case Skipped =>
        case Bad =>
          invalidLines := invalidLines + [(index + 1, Trim(lines[index]))];
        case Assigns(key, value) =>
          if key != PROTO {
            if key !in env {
              entries := entries + [key];
            }
            env := env[key := value];
          }
      }
      index := index + 1;
    }
    r := if |invalidLines| > 0 then Invalid(invalidLines) else Valid(env);
  }

  /** A bundle parses to one thing. */
  lemma ParsesToOne(raw: Text, r: ParsedBundle, q: ParsedBundle)
    requires ParsesTo(raw, r) && ParsesTo(raw, q)
    ensures r == q
  {
    var lines := BundleLines(raw);
    if r.Valid? {
      forall key
        ensures key in r.env <==> key in q.env
        ensures key in r.env ==> r.env[key] == q.env[key]
      {
        assert LastSet(lines, |lines|, key) == LastSet(lines, |lines|, key);
      }
    }
  }

  // ----- what a written bundle reads as -----

  datatype Variable = Variable(key: Text, value: Text)

  function Quoted(v: Variable): Text {
    v.key + [EQUALS, DOUBLE_QUOTE] + v.value + [DOUBLE_QUOTE]
  }

  function Written(variables: seq<Variable>): Text {
    JoinLines(seq(|variables|, i requires 0 <= i < |variables| => Quoted(variables[i])))
  }

  lemma TrimFramed(text: Text)
    requires text != [] && !White(text[0]) && !White(text[|text| - 1])
    ensures Trim(text) == text
  {
  }

  lemma {:induction false} EqualsIsFound(body: Text, from: nat, at: nat)
    requires from <= at < |body| && body[at] == EQUALS && forall i :: from <= i < at ==> body[i] != EQUALS
    ensures IndexOfEquals(body, from) == at
    decreases at - from
  {
    if from < at {
      EqualsIsFound(body, from + 1, at);
    }
  }

  lemma NameFacts(key: Text)
    requires IsName(key)
    ensures !White(key[0]) && !White(key[|key| - 1]) && key[0] != HASH && EQUALS !in key && SPACE !in key
  {
    assert NameUnit(key[|key| - 1]);
  }

  lemma QuotedParts(v: Variable)
    requires v.key != []
    ensures var q := Quoted(v); var n := |v.key|;
      q[0] == v.key[0] && q[|q| - 1] == DOUBLE_QUOTE && q[..n] == v.key && q[n] == EQUALS &&
      q[n + 1..] == [DOUBLE_QUOTE] + v.value + [DOUBLE_QUOTE]
  {
    var q := Quoted(v);
    assert q == v.key + ([EQUALS, DOUBLE_QUOTE] + v.value + [DOUBLE_QUOTE]);
  }

  lemma QuotedValue(value: Text)
    ensures ParseValue([DOUBLE_QUOTE] + value + [DOUBLE_QUOTE]) == value
  {
    var q := [DOUBLE_QUOTE] + value + [DOUBLE_QUOTE];
    TrimFramed(q);
    assert q[1..|q| - 1] == value;
  }

  /** A quoted variable is read back, whatever its value. */
  lemma QuotedLine(v: Variable)
    requires IsName(v.key)
    ensures ReadLine(Quoted(v)) == Assigns(v.key, v.value)
  {
    hide ParseValue, White, Trim, IndexOfEquals;
    var q, n := Quoted(v), |v.key|;
    QuotedParts(v);
    NameFacts(v.key);
    QuoteIsInk();
    TrimFramed(q);
    TrimFramed(v.key);
    NoExport(v, q);
    forall i | 0 <= i < n
      ensures q[i] != EQUALS
    {
      assert q[i] == q[..n][i];
    }
    EqualsIsFound(q, 0, n);
    QuotedValue(v.value);
  }

  lemma QuoteIsInk()
    ensures !White(DOUBLE_QUOTE)
  {
  }

  /** A line that starts with "export " does not start with a name and an equals sign. */
  lemma NoExport(v: Variable, q: Text)
    requires EQUALS !in v.key && SPACE !in v.key && |v.key| < |q| && q[..|v.key|] == v.key && q[|v.key|] == EQUALS
    ensures !(EXPORT <= q)
  {
    ExportUnits(q);
    assert forall i :: 0 <= i < |v.key| ==> q[i] == v.key[i];
  }

  lemma ExportUnits(q: Text)
    ensures EXPORT <= q ==> |q| >= 7 && q[6] == SPACE && forall i :: 0 <= i < 7 ==> q[i] != EQUALS
  {
  }

  lemma QuotedHasNoBreak(v: Variable)
    requires IsName(v.key) && NL !in v.value
    ensures NL !in Quoted(v)
  {
    assert !NameUnit(NL);
  }

  ghost predicate Writable(variables: seq<Variable>) {
    && variables != []
    && (forall i :: 0 <= i < |variables| ==>
         IsName(variables[i].key) && variables[i].key != PROTO && NL !in variables[i].value)
    && forall i, j :: 0 <= i < j < |variables| ==> variables[i].key != variables[j].key
  }

  lemma WrittenLine(variables: seq<Variable>, i: nat)
    requires Writable(variables) && i < |variables|
    ensures |BundleLines(Written(variables))| == |variables|
    ensures ReadLine(BundleLines(Written(variables))[i]) == Assigns(variables[i].key, variables[i].value)
  {
    hide ReadLine, LinesFrom, JoinLines, Quoted;
    var lines := seq(|variables|, k requires 0 <= k < |variables| => Quoted(variables[k]));
    forall k | 0 <= k < |lines|
      ensures NL !in lines[k]
    {
      QuotedHasNoBreak(variables[k]);
    }
    LinesOfJoined(lines, []);
    assert [] + JoinLines(lines) == JoinLines(lines);
    QuotedParts(variables[i]);
    QuotedLine(variables[i]);
  }

  /** What is read is valid, and has the variables with their values and no others. */
  ghost predicate Holds(variables: seq<Variable>, r: ParsedBundle) {
    && r.Valid?
    && (forall i :: 0 <= i < |variables| ==> variables[i].key in r.env && r.env[variables[i].key] == variables[i].value)
    && forall key :: key in r.env ==> exists i :: 0 <= i < |variables| && variables[i].key == key
  }

  /** Round trip: variables with distinct names, each on a line of its own with its value quoted, are
      read back as they were. */
  lemma WrittenIsReadBack(variables: seq<Variable>)
    requires Writable(variables)
    ensures forall r :: ParsesTo(Written(variables), r) ==> Holds(variables, r)
  {
    hide ReadLine, BundleLines, Written;
    var lines := BundleLines(Written(variables));
    forall i | 0 <= i < |variables|
      ensures |lines| == |variables| && ReadLine(lines[i]) == Assigns(variables[i].key, variables[i].value)
    {
      WrittenLine(variables, i);
    }
    WrittenLine(variables, 0);
    forall i | 0 <= i < |variables|
      ensures LastSet(lines, |lines|, variables[i].key) == Some(variables[i].value)
    {
      SetOnce(lines, |lines|, variables, i);
    }
    forall key | LastSet(lines, |lines|, key).Some?
      ensures exists i :: 0 <= i < |variables| && variables[i].key == key
    {
      SetSomewhere(lines, |lines|, key);
    }
  }

  lemma {:induction false} SetOnce(lines: seq<Text>, n: nat, variables: seq<Variable>, i: nat)
    requires Writable(variables) && i < n <= |lines| == |variables|
    requires forall k :: 0 <= k < |lines| ==> ReadLine(lines[k]) == Assigns(variables[k].key, variables[k].value)
    ensures LastSet(lines, n, variables[i].key) == Some(variables[i].value)
  {
    hide ReadLine;
    if i < n - 1 {
      SetOnce(lines, n - 1, variables, i);
    }
  }

  lemma {:induction false} SetSomewhere(lines: seq<Text>, n: nat, key: Text)
    requires n <= |lines| && LastSet(lines, n, key).Some?
    ensures exists i :: 0 <= i < n && Sets(ReadLine(lines[i]), key)
  {
    hide ReadLine;
    if !Sets(ReadLine(lines[n - 1]), key) {
      SetSomewhere(lines, n - 1, key);
    }
  }

  /** A bundle whose one variable has the one name that the record does not keep is valid and empty. */
  lemma ProtoIsLost(r: ParsedBundle)
    requires ParsesTo(PROTO + [EQUALS, DOUBLE_QUOTE, 49, DOUBLE_QUOTE], r)
    ensures r == Valid(map[])
  {
    hide ReadLine, LinesFrom, ParseValue;
    var v := Variable(PROTO, [49]);
    assert IsName(PROTO);
    assert Quoted(v) == PROTO + [EQUALS, DOUBLE_QUOTE, 49, DOUBLE_QUOTE];
    QuotedLine(v);
    QuotedHasNoBreak(v);
    LinesOfJoined([Quoted(v)], []);
    assert [] + Quoted(v) == Quoted(v);
    assert BundleLines(Quoted(v)) == [Quoted(v)];
    assert forall key :: LastSet([Quoted(v)], 1, key) == LastSet([Quoted(v)], 0, key) == None;
  }

  // ----- the window -----

  const DEFAULT_TTL_HOURS := 24.0

  /** `hours` is None when the setting is not a finite number. */
  function TtlMs(hours: Option<real>): real {
    (if hours.Some? && hours.value > 0.0 then hours.value else DEFAULT_TTL_HOURS) * 3600000.0
  }

  /** The state file: absent, a timestamp, or something else. */
  datatype StateFile = Absent | Recorded(at: real) | Unreadable

  /** Taking the lock and writing the state may fail, and a write that fails may have taken effect. */
  datatype Fault = NoFault | BeforeWrite | AfterWrite

  datatype Reason = MissingBundle | EmptyBundle | InvalidBundle(badLines: seq<(nat, Text)>)
  datatype Result =
    | Refused(reason: Reason)
    | Expired(firstUsed: real, skipped: nat)
    | Enabled(firstUsed: real, applied: nat, skipped: nat)
    | Throws

  /** The bundle is there, parses as a whole and declares a variable. */
  predicate Usable(parsed: Option<ParsedBundle>) {
    parsed.Some? && parsed.value.Valid? && parsed.value.env != map[]
  }

  function NextState(state: StateFile, usable: bool, now: real, fault: Fault): StateFile {
    if usable && state == Absent && fault != BeforeWrite then Recorded(now) else state
  }

  /** The first use as the claim returns it, or None when it throws. */
  function ClaimedAt(state: StateFile, now: real, fault: Fault): Option<real> {
    match state
    case Absent => if fault == NoFault then Some(now) else None
    case Recorded(at) => if fault == BeforeWrite || at <= 0.0 then None else Some(at)
    case Unreadable => None
  }

  /** The bundle is applied: within the window of its first use. */
  predicate Applies(state: StateFile, usable: bool, now: real, ttl: real, fault: Fault) {
    usable && ClaimedAt(state, now, fault).Some? && now <= ClaimedAt(state, now, fault).value + ttl
  }

  /** Variables that are set already keep their values, and names that every environment inherits, as
      `constructor`, read as set; the other variables of the bundle are added. */
  ghost predicate Fills(
    before: map<Text, Text>, inherited: set<Text>, bundle: map<Text, Text>, after: map<Text, Text>)
  {
    && (forall key :: key in after <==> key in before || (key in bundle && key !in inherited))
    && (forall key :: key in before ==> key in after && after[key] == before[key])
    && (forall key :: key in bundle && key !in before && key in after ==> after[key] == bundle[key])
  }

  lemma {:induction false} DistinctCount(keys: seq<Text>, all: set<Text>)
    requires Distinct(keys) && forall key :: key in keys <==> key in all
    ensures |keys| == |all|
  {
    if keys == [] {
      assert all == {};
    } else {
      var n := |keys| - 1;
      assert keys == keys[..n] + [keys[n]];
      forall key
        ensures key in keys[..n] <==> key in all - {keys[n]}
      {
      }
      DistinctCount(keys[..n], all - {keys[n]});
    }
  }

  /** After the first `n` entries, exactly those that were not set have been added. */
  ghost predicate Progress(
    start: map<Text, Text>, inherited: set<Text>, bundle: map<Text, Text>, keys: seq<Text>, n: nat,
    environment: map<Text, Text>, added: seq<Text>)
  {
    && n <= |keys| && Distinct(added)
    && (forall key :: key in added <==> key in keys[..n] && key !in start && key !in inherited)
    && (forall key :: key in environment <==> key in start || key in added)
    && (forall key :: key in environment ==>
         if key in start then environment[key] == start[key] else key in bundle && environment[key] == bundle[key])
  }

  lemma ProgressNext(
    start: map<Text, Text>, inherited: set<Text>, bundle: map<Text, Text>, keys: seq<Text>, n: nat,
    environment: map<Text, Text>, added: seq<Text>)
    requires n < |keys| && Distinct(keys) && keys[n] in bundle
    requires Progress(start, inherited, bundle, keys, n, environment, added)
    ensures keys[n] in environment || keys[n] in inherited ==>
      Progress(start, inherited, bundle, keys, n + 1, environment, added)
    ensures keys[n] !in environment && keys[n] !in inherited ==>
      Progress(start, inherited, bundle, keys, n + 1, environment[keys[n] := bundle[keys[n]]], added + [keys[n]])
  {
    assert keys[..n + 1] == keys[..n] + [keys[n]];
    assert keys[n] !in keys[..n];
  }

  lemma ProgressFills(
    start: map<Text, Text>, inherited: set<Text>, bundle: map<Text, Text>, keys: seq<Text>,
    environment: map<Text, Text>, added: seq<Text>)
    requires Entries(keys, bundle) && Progress(start, inherited, bundle, keys, |keys|, environment, added)
    ensures Fills(start, inherited, bundle, environment)
  {
    hide Distinct;
    assert keys[..|keys|] == keys;
  }

  lemma ProgressCounts(
    start: map<Text, Text>, inherited: set<Text>, bundle: map<Text, Text>, keys: seq<Text>,
    environment: map<Text, Text>, added: seq<Text>)
    requires Entries(keys, bundle) && Progress(start, inherited, bundle, keys, |keys|, environment, added)
    ensures |added| == |bundle.Keys - start.Keys - inherited| && |keys| == |bundle.Keys|
  {
    hide Distinct;
    assert keys[..|keys|] == keys;
    var missing := bundle.Keys - start.Keys - inherited;
    forall key
      ensures key in added <==> key in missing
    {
    }
    DistinctCount(added, missing);
    DistinctCount(keys, bundle.Keys);
  }

  class BundledEnvironment {
    const inherited: set<Text>
    var environment: map<Text, Text>
    var state: StateFile

    constructor (env: map<Text, Text>, names: set<Text>, file: StateFile)
      ensures environment == env && inherited == names && state == file
    {
      environment, inherited, state := env, names, file;
    }

    /** Under the lock. */
    method ClaimFirstUsedAt(now: real, fault: Fault) returns (first: Option<real>)
      modifies this`state
      ensures state == NextState(old(state), true, now, fault)
      ensures first == ClaimedAt(old(state), now, fault)
    {
      if fault == BeforeWrite {
        return None;
      }
      if state.Unreadable? || (state.Recorded? && state.at <= 0.0) {
        return None;
      }
      if state.Recorded? {
        return Some(state.at);
      }
      state := Recorded(now);
      return if fault == AfterWrite then None else Some(now);
    }

    /** Sets, of the bundle's variables, those that are not set. */
    method SetMissing(bundle: map<Text, Text>, keys: seq<Text>) returns (applied: nat, skipped: nat)
      requires Entries(keys, bundle)
      modifies this`environment
      ensures Fills(old(environment), inherited, bundle, environment)
      ensures applied == |bundle.Keys - old(environment).Keys - inherited| && applied + skipped == |bundle.Keys|
    {
      hide Fills;
      applied, skipped := 0, 0;
      ghost var start, added := environment, [];
      var i := 0;
      while i < |keys|
        invariant 0 <= i <= |keys| && applied == |added| && applied + skipped == i
        invariant Progress(start, inherited, bundle, keys, i, environment, added)
      {
        assert keys[i] in keys;
        ProgressNext(start, inherited, bundle, keys, i, environment, added);
        if keys[i] in environment || keys[i] in inherited {
          skipped := skipped + 1;
        } else {
          added := added + [keys[i]];
          environment := environment[keys[i] := bundle[keys[i]]];
          applied := applied + 1;
        }
        i := i + 1;
      }
      ProgressFills(start, inherited, bundle, keys, environment, added);
      ProgressCounts(start, inherited, bundle, keys, environment, added);
    }

    /** The variables are applied, and the window is claimed, only from a bundle that parses as a whole
        and declares a variable; they are applied if and only if now is within the window. */
    method ApplyBundledEnv(bundle: Option<Text>, now: real, hours: Option<real>, fault: Fault)
      returns (r: Result, ghost parsed: Option<ParsedBundle>)
      modifies this
      ensures parsed.Some? <==> bundle.Some?
      ensures bundle.Some? ==> ParsesTo(bundle.value, parsed.value)
      ensures state == NextState(old(state), Usable(parsed), now, fault)
      ensures r.Enabled? <==> Applies(old(state), Usable(parsed), now, (if hours.Some? && hours.value > 0.0
        then hours.value else 24.0) * 60.0 * 60.0 * 1000.0, fault)
      ensures r.Enabled? ==> Fills(old(environment), inherited, parsed.value.env, environment)
      ensures r.Enabled? ==> r.applied == |parsed.value.env.Keys - old(environment).Keys - inherited|
      ensures r.Enabled? ==> r.applied + r.skipped == |parsed.value.env.Keys|
      ensures !r.Enabled? ==> environment == old(environment)
      ensures r.Enabled? || r.Expired? ==> Some(r.firstUsed) == ClaimedAt(old(state), now, fault)
      ensures r.Throws? <==> Usable(parsed) && ClaimedAt(old(state), now, fault) == None
      ensures r.Refused? <==> !Usable(parsed)
      ensures r.Expired? ==> r.skipped == |parsed.value.env.Keys|
      ensures r.Refused? && bundle.Some? && parsed.value.Invalid? ==> r.reason == InvalidBundle(parsed.value.badLines)
    {
      hide ParsesTo, Fills;
      if bundle == None {
        return Refused(MissingBundle), None;
      }
      var result, entries := ParseBundle(bundle.value);
      parsed := Some(result);
      if result.Invalid? {
        return Refused(InvalidBundle(result.badLines)), parsed;
      }
      if result.env == map[] {
        return Refused(EmptyBundle), parsed;
      }
      var firstUsedAt := ClaimFirstUsedAt(now, fault);
      if firstUsedAt == None {
        return Throws, parsed;
      }
      var expireAtMs := firstUsedAt.value + TtlMs(hours);
      if now > expireAtMs {
        DistinctCount(entries, result.env.Keys);
        return Expired(firstUsedAt.value, |entries|), parsed;
      }
      var applied, skipped := SetMissing(result.env, entries);
      return Enabled(firstUsedAt.value, applied, skipped), parsed;
    }
  }

  // ----- over many runs -----

  /** One start of the program; `usable` says whether its bundle is. */
  datatype Start = Start(usable: bool, now: real, ttl: real, fault: Fault)

  function StateAfter(state: StateFile, starts: seq<Start>, n: nat): StateFile
    requires n <= |starts|
  {
    if n == 0 then state
    else
      var s := starts[n - 1];
      NextState(StateAfter(state, starts, n - 1), s.usable, s.now, s.fault)
  }

  predicate AppliesAt(state: StateFile, starts: seq<Start>, n: nat)
    requires n < |starts|
  {
    var s := starts[n];
    Applies(StateAfter(state, starts, n), s.usable, s.now, s.ttl, s.fault)
  }

  /** The first usable start whose claim reaches the state file. */
  ghost predicate BeginsWindow(starts: seq<Start>, k: nat) {
    && k < |starts| && starts[k].usable && starts[k].fault != BeforeWrite
    && forall j :: 0 <= j < k && starts[j].usable ==> starts[j].fault == BeforeWrite
  }

  lemma {:induction false} BeforeTheWindow(starts: seq<Start>, n: nat)
    requires n <= |starts| && forall j :: 0 <= j < n && starts[j].usable ==> starts[j].fault == BeforeWrite
    ensures StateAfter(Absent, starts, n) == Absent
  {
    if n > 0 {
      BeforeTheWindow(starts, n - 1);
    }
  }

  /** The window is that of its first start, and never moves. */
  lemma {:induction false} WindowIsRecorded(starts: seq<Start>, k: nat, n: nat)
    requires BeginsWindow(starts, k) && k < n <= |starts|
    ensures StateAfter(Absent, starts, n) == Recorded(starts[k].now)
  {
    if n == k + 1 {
      BeforeTheWindow(starts, k);
    } else {
      WindowIsRecorded(starts, k, n - 1);
    }
  }

  lemma {:induction false} WindowHasBegun(starts: seq<Start>, n: nat)
    requires n <= |starts| && StateAfter(Absent, starts, n) != Absent
    ensures exists k :: 0 <= k < n && BeginsWindow(starts, k)
  {
    if forall j :: 0 <= j < n && starts[j].usable ==> starts[j].fault == BeforeWrite {
      BeforeTheWindow(starts, n);
    } else if exists k :: 0 <= k < n - 1 && BeginsWindow(starts, k) {
    } else if StateAfter(Absent, starts, n - 1) != Absent {
      WindowHasBegun(starts, n - 1);
    } else {
      NotYetBegun(starts, n - 1);
      assert BeginsWindow(starts, n - 1);
    }
  }

  lemma {:induction false} NotYetBegun(starts: seq<Start>, n: nat)
    requires n <= |starts| && StateAfter(Absent, starts, n) == Absent
    ensures forall j :: 0 <= j < n && starts[j].usable ==> starts[j].fault == BeforeWrite
  {
    if n > 0 {
      NotYetBegun(starts, n - 1);
    }
  }

  /** With one TTL there is one window, and it begins with a usable bundle: however often the program
      starts, a usable bundle is applied exactly when the window can be claimed and the TTL of the first
      start that claimed it is not over. */
  lemma AppliedWithinOneWindow(starts: seq<Start>, n: nat) returns (k: nat)
    requires n < |starts| && starts[n].usable && starts[n].fault == NoFault
    requires forall j :: 0 <= j < |starts| ==> starts[j].now > 0.0
    ensures k <= n && BeginsWindow(starts, k)
    ensures AppliesAt(Absent, starts, n) <==> starts[n].now <= starts[k].now + starts[n].ttl
  {
    WindowHasBegun(starts, n + 1);
    k :| 0 <= k < n + 1 && BeginsWindow(starts, k);
    if k < n {
      WindowIsRecorded(starts, k, n);
    } else {
      BeforeTheWindow(starts, k);
    }
  }

  /** Bundles that are missing, empty or invalid never begin the window. */
  lemma RefusedNeverBegins(starts: seq<Start>, n: nat)
    requires n <= |starts| && forall j :: 0 <= j < n ==> !starts[j].usable
    ensures StateAfter(Absent, starts, n) == Absent
  {
    BeforeTheWindow(starts, n);
  }
}
