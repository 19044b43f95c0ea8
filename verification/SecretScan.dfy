/** The repository-wide secret scan, over Git snapshots or given files (script/secret-scan.ts:244-285, 384-414). */
module SecretScan {
  import opened Basics
  import opened Bytes
  import opened GitBlobs

  const MAX_SCANNED_BYTES: nat := 1024 * 1024
  const GITLINK_MODE: nat := 0xE000

  datatype Entry = Entry(file: string, objectId: ObjectId, size: nat, mode: nat)

  /** `find` is the text that the pattern matches first in a line, if it matches. */
  datatype Pattern = Pattern(id: string, description: string, find: string -> Option<string>)

  /** What the scan takes from its surroundings: the patterns, the decoding of a blob into lines, which
      lines carry the ignore directive, and which file names are scanned. */
  datatype Rules = Rules(
    patterns: seq<Pattern>, lines: seq<Byte> -> seq<string>, ignored: string -> bool,
    scannable: string -> bool)

  datatype Hit = Hit(file: string, lineNumber: nat, patternId: string, description: string, shown: string)

  datatype Key = Key(file: string, lineNumber: nat, patternId: string, text: string)

  datatype Finding = Finding(key: Key, hit: Hit)

  datatype Report = Report(hits: seq<Hit>, seen: set<Key>)

  function Shown(text: string): string {
    if |text| > 16 then text[..16] + "\U{2026}" else text
  }

  // ----- what there is to find -----

  /** The findings of one line, pattern by pattern. */
  function LineFindings(file: string, number: nat, line: string, patterns: seq<Pattern>): seq<Finding> {
    if patterns == [] then []
    else
      var before := LineFindings(file, number, line, patterns[..|patterns| - 1]);
      var p := patterns[|patterns| - 1];
      match p.find(line)
      case None => before
      case Some(text) =>
        before + [Finding(Key(file, number, p.id, text), Hit(file, number, p.id, p.description, Shown(text)))]
  }

  function TextFindings(file: string, lines: seq<string>, rules: Rules): seq<Finding> {
    if lines == [] then []
    else
      var before := TextFindings(file, lines[..|lines| - 1], rules);
      var line := lines[|lines| - 1];
      if rules.ignored(line) then before
      else before + LineFindings(file, |lines|, line, rules.patterns)
  }

  /** The naive scan: every entry by itself, one after the other. */
  function AllFindings(entries: seq<Entry>, store: map<ObjectId, seq<Byte>>, rules: Rules): seq<Finding>
    requires forall e :: e in entries ==> e.objectId in store
  {
    if entries == [] then []
    else
      var e := entries[|entries| - 1];
      AllFindings(entries[..|entries| - 1], store, rules) +
        TextFindings(e.file, rules.lines(store[e.objectId]), rules)
  }

  // ----- duplicates -----

  function Record(r: Report, f: Finding): Report {
    if f.key in r.seen then r else Report(r.hits + [f.hit], r.seen + {f.key})
  }

  function RecordAll(r: Report, findings: seq<Finding>): Report {
    if findings == [] then r
    else Record(RecordAll(r, findings[..|findings| - 1]), findings[|findings| - 1])
  }

  lemma {:induction false} RecordSplit(r: Report, a: seq<Finding>, b: seq<Finding>)
    ensures RecordAll(r, a + b) == RecordAll(RecordAll(r, a), b)
  {
    if b == [] {
      assert a + b == a;
    } else {
      RecordSplit(r, a, b[..|b| - 1]);
      assert (a + b)[..|a + b| - 1] == a + b[..|b| - 1];
    }
  }

  predicate NoneBefore(findings: seq<Finding>, i: nat)
    requires i < |findings|
  {
    forall j :: 0 <= j < i ==> findings[j].key != findings[i].key
  }

  /** The first findings of their keys, in order. */
  function Firsts(findings: seq<Finding>): seq<Finding> {
    if findings == [] then []
    else
      var before, f := findings[..|findings| - 1], findings[|findings| - 1];
      if NoneBefore(findings, |findings| - 1) then Firsts(before) + [f] else Firsts(before)
  }

  function HitsOf(findings: seq<Finding>): (hits: seq<Hit>)
    ensures |hits| == |findings| && forall i :: 0 <= i < |hits| ==> hits[i] == findings[i].hit
  {
    seq(|findings|, i requires 0 <= i < |findings| => findings[i].hit)
  }

  lemma {:induction false} RecordedAreFirsts(findings: seq<Finding>)
    ensures var r := RecordAll(Report([], {}), findings);
      r.hits == HitsOf(Firsts(findings)) && forall k :: k in r.seen <==> exists f :: f in findings && f.key == k
  {
    if findings != [] {
      var before, f := findings[..|findings| - 1], findings[|findings| - 1];
      RecordedAreFirsts(before);
      assert findings == before + [f];
      assert HitsOf(Firsts(before) + [f]) == HitsOf(Firsts(before)) + [f.hit];
    }
  }

  lemma {:induction false} FirstsAreFindings(findings: seq<Finding>, f: Finding)
    requires f in Firsts(findings)
    ensures f in findings
  {
    var before, last := findings[..|findings| - 1], findings[|findings| - 1];
    if f in Firsts(before) {
      FirstsAreFindings(before, f);
    }
  }

  /** Every finding has a first finding of its key. */
  lemma {:induction false} FirstsAreComplete(findings: seq<Finding>, f: Finding)
    requires f in findings
    ensures exists g :: g in Firsts(findings) && g.key == f.key
  {
    var before, last := findings[..|findings| - 1], findings[|findings| - 1];
    assert findings == before + [last];
    if f in before {
      FirstsAreComplete(before, f);
    } else if exists g :: g in before && g.key == last.key {
      var g :| g in before && g.key == last.key;
      FirstsAreComplete(before, g);
    } else {
      assert last in Firsts(findings);
    }
  }

  /** No two of the first findings share a key. */
  lemma {:induction false} FirstsAreDistinct(findings: seq<Finding>, i: nat, j: nat)
    requires i < j < |Firsts(findings)|
    ensures Firsts(findings)[i].key != Firsts(findings)[j].key
  {
    var before, last := findings[..|findings| - 1], findings[|findings| - 1];
    if j < |Firsts(before)| {
      FirstsAreDistinct(before, i, j);
    } else {
      FirstsAreFindings(before, Firsts(before)[i]);
    }
  }

  // ----- what the hits of a scan are -----

  /** A text of the scan, which is looked at if it is kept. */
  datatype Scanned = Scanned(file: string, kept: bool, lines: seq<string>)

  /** A pattern on a line of a text. */
  datatype Place = Place(text: nat, line: nat, pattern: nat)

  predicate Before(a: Place, b: Place) {
    a.text < b.text || (a.text == b.text && (a.line < b.line || (a.line == b.line && a.pattern < b.pattern)))
  }

  /** The pattern matches the line, which does not carry the ignore directive, of a text that is kept. */
  ghost predicate Matches(texts: seq<Scanned>, rules: Rules, p: Place) {
    && p.text < |texts| && texts[p.text].kept
    && p.line < |texts[p.text].lines| && !rules.ignored(texts[p.text].lines[p.line])
    && p.pattern < |rules.patterns| && rules.patterns[p.pattern].find(texts[p.text].lines[p.line]).Some?
  }

  ghost function KeyAt(texts: seq<Scanned>, rules: Rules, p: Place): Key
    requires Matches(texts, rules, p)
  {
    var text, pattern := texts[p.text], rules.patterns[p.pattern];
    Key(text.file, p.line + 1, pattern.id, pattern.find(text.lines[p.line]).value)
  }

  /** At most 16 units of what was matched are shown. */
  ghost predicate ShownAs(text: string, shown: string) {
    if |text| <= 16 then shown == text
    else |shown| == 17 && shown[..16] == text[..16] && shown[16] == '\U{2026}'
  }

  ghost predicate HitAt(texts: seq<Scanned>, rules: Rules, p: Place, hit: Hit)
    requires Matches(texts, rules, p)
  {
    var key := KeyAt(texts, rules, p);
    && hit.file == key.file && hit.lineNumber == key.lineNumber && hit.patternId == key.patternId
    && hit.description == rules.patterns[p.pattern].description && ShownAs(key.text, hit.shown)
  }

  ghost predicate Ordered(at: seq<Place>) {
    forall m, n :: 0 <= m < n < |at| ==> Before(at[m], at[n])
  }

  /** No place before it has the same key. */
  ghost predicate IsFirst(texts: seq<Scanned>, rules: Rules, p: Place) {
    Matches(texts, rules, p) &&
    forall q :: Matches(texts, rules, q) && Before(q, p) ==> KeyAt(texts, rules, q) != KeyAt(texts, rules, p)
  }

  ghost predicate ReportsAt(texts: seq<Scanned>, rules: Rules, at: seq<Place>, hits: seq<Hit>) {
    && Ordered(at) && (forall p :: p in at <==> IsFirst(texts, rules, p))
    && |hits| == |at| && forall n :: 0 <= n < |hits| ==> at[n] in at && HitAt(texts, rules, at[n], hits[n])
  }

  /** The hits are those of all places where a pattern matches, in order of text, line and pattern, but for
      places whose key has been there before. */
  ghost predicate Reports(texts: seq<Scanned>, rules: Rules, hits: seq<Hit>) {
    exists at :: ReportsAt(texts, rules, at, hits)
  }

  ghost predicate FoundAt(texts: seq<Scanned>, rules: Rules, p: Place, f: Finding) {
    Matches(texts, rules, p) && f.key == KeyAt(texts, rules, p) && HitAt(texts, rules, p, f.hit)
  }

  /** The findings are those of all matching places before the bound, in their order. */
  ghost predicate FoundUpTo(texts: seq<Scanned>, rules: Rules, at: seq<Place>, findings: seq<Finding>, bound: Place) {
    && Ordered(at) && (forall p :: p in at <==> Matches(texts, rules, p) && Before(p, bound))
    && |findings| == |at| && forall n :: 0 <= n < |at| ==> FoundAt(texts, rules, at[n], findings[n])
  }

  ghost predicate UpTo(texts: seq<Scanned>, rules: Rules, findings: seq<Finding>, bound: Place) {
    exists at :: FoundUpTo(texts, rules, at, findings, bound)
  }

  /** Bounds without a matching place between them. */
  lemma SameUpTo(texts: seq<Scanned>, rules: Rules, findings: seq<Finding>, a: Place, b: Place)
    requires UpTo(texts, rules, findings, a)
    requires forall p :: Matches(texts, rules, p) ==> (Before(p, a) <==> Before(p, b))
    ensures UpTo(texts, rules, findings, b)
  {
    var at :| FoundUpTo(texts, rules, at, findings, a);
    hide FoundAt, Matches;
    assert FoundUpTo(texts, rules, at, findings, b);
  }

  lemma OneMore(texts: seq<Scanned>, rules: Rules, findings: seq<Finding>, p: Place, f: Finding, next: Place)
    requires UpTo(texts, rules, findings, p) && FoundAt(texts, rules, p, f)
    requires forall q :: Before(q, next) <==> Before(q, p) || q == p
    ensures UpTo(texts, rules, findings + [f], next)
  {
    hide Matches, FoundAt, Before;
    FoundMatches(texts, rules, p, f);
    var at :| FoundUpTo(texts, rules, at, findings, p);
    var more, all := at + [p], findings + [f];
    forall m, n | 0 <= m < n < |more| ensures Before(more[m], more[n]) {
      assert more[m] in at;
    }
    forall q ensures q in more <==> Matches(texts, rules, q) && Before(q, next) {
      assert q in more <==> q in at || q == p;
    }
    assert FoundUpTo(texts, rules, more, all, next);
  }

  lemma FoundMatches(texts: seq<Scanned>, rules: Rules, p: Place, f: Finding)
    requires FoundAt(texts, rules, p, f)
    ensures Matches(texts, rules, p)
  {
  }

  lemma {:induction false} LineUpTo(
    texts: seq<Scanned>, rules: Rules, findings: seq<Finding>, x: nat, i: nat, n: nat)
    requires x < |texts| && texts[x].kept && i < |texts[x].lines| && !rules.ignored(texts[x].lines[i])
    requires n <= |rules.patterns| && UpTo(texts, rules, findings, Place(x, i, 0))
    ensures UpTo(texts, rules, findings + LineFindings(texts[x].file, i + 1, texts[x].lines[i], rules.patterns[..n]),
                 Place(x, i, n))
    decreases n
  {
    hide UpTo;
    var line := texts[x].lines[i];
    if n == 0 {
      assert findings + [] == findings;
    } else {
      LineUpTo(texts, rules, findings, x, i, n - 1);
      var before := LineFindings(texts[x].file, i + 1, line, rules.patterns[..n - 1]);
      var p, here, next := rules.patterns[n - 1], Place(x, i, n - 1), Place(x, i, n);
      assert rules.patterns[..n][..n - 1] == rules.patterns[..n - 1];
      if p.find(line).Some? {
        var text := p.find(line).value;
        var f := Finding(Key(texts[x].file, i + 1, p.id, text),
                         Hit(texts[x].file, i + 1, p.id, p.description, Shown(text)));
        OneMore(texts, rules, findings + before, here, f, next);
        assert findings + before + [f] == findings + (before + [f]);
      } else {
        SameUpTo(texts, rules, findings + before, here, next);
      }
    }
  }

  lemma {:induction false} TextUpTo(texts: seq<Scanned>, rules: Rules, findings: seq<Finding>, x: nat, n: nat)
    requires x < |texts| && texts[x].kept && n <= |texts[x].lines|
    requires UpTo(texts, rules, findings, Place(x, 0, 0))
    ensures UpTo(texts, rules, findings + TextFindings(texts[x].file, texts[x].lines[..n], rules), Place(x, n, 0))
    decreases n
  {
    hide UpTo, LineFindings;
    var file, lines := texts[x].file, texts[x].lines;
    if n == 0 {
      assert findings + [] == findings;
    } else {
      TextUpTo(texts, rules, findings, x, n - 1);
      var so := findings + TextFindings(file, lines[..n - 1], rules);
      assert lines[..n][..n - 1] == lines[..n - 1];
      if rules.ignored(lines[n - 1]) {
        SameUpTo(texts, rules, so, Place(x, n - 1, 0), Place(x, n, 0));
      } else {
        LineUpTo(texts, rules, so, x, n - 1, |rules.patterns|);
        assert rules.patterns[..|rules.patterns|] == rules.patterns;
        var more := LineFindings(file, n, lines[n - 1], rules.patterns);
        SameUpTo(texts, rules, so + more, Place(x, n - 1, |rules.patterns|), Place(x, n, 0));
        assert so + more == findings + (TextFindings(file, lines[..n - 1], rules) + more);
      }
    }
  }

  /** One more text has been scanned, or passed over. */
  lemma NextText(texts: seq<Scanned>, rules: Rules, findings: seq<Finding>, x: nat)
    requires x < |texts| && UpTo(texts, rules, findings, Place(x, 0, 0))
    ensures UpTo(texts, rules,
                 if texts[x].kept then findings + TextFindings(texts[x].file, texts[x].lines, rules) else findings,
                 Place(x + 1, 0, 0))
  {
    hide UpTo, TextFindings;
    if texts[x].kept {
      TextUpTo(texts, rules, findings, x, |texts[x].lines|);
      assert texts[x].lines[..|texts[x].lines|] == texts[x].lines;
      SameUpTo(texts, rules, findings + TextFindings(texts[x].file, texts[x].lines, rules),
               Place(x, |texts[x].lines|, 0), Place(x + 1, 0, 0));
    } else {
      SameUpTo(texts, rules, findings, Place(x, 0, 0), Place(x + 1, 0, 0));
    }
  }

  lemma NothingYet(texts: seq<Scanned>, rules: Rules)
    ensures UpTo(texts, rules, [], Place(0, 0, 0))
  {
    assert FoundUpTo(texts, rules, [], [], Place(0, 0, 0));
  }

  /** The indexes of the first findings of their keys. */
  ghost predicate FirstIndexes(findings: seq<Finding>, indexes: seq<nat>) {
    && (forall m, n :: 0 <= m < n < |indexes| ==> indexes[m] < indexes[n])
    && (forall i: nat :: i in indexes <==> i < |findings| && NoneBefore(findings, i))
    && |Firsts(findings)| == |indexes|
    && forall m :: 0 <= m < |indexes| ==> indexes[m] < |findings| && Firsts(findings)[m] == findings[indexes[m]]
  }

  lemma FirstsStep(findings: seq<Finding>)
    requires findings != []
    ensures var n := |findings| - 1;
      Firsts(findings) ==
        if NoneBefore(findings, n) then Firsts(findings[..n]) + [findings[n]] else Firsts(findings[..n])
  {
  }

  lemma NoneBeforePrefix(findings: seq<Finding>, n: nat, i: nat)
    requires i < n <= |findings|
    ensures NoneBefore(findings, i) <==> NoneBefore(findings[..n], i)
  {
    assert forall j :: 0 <= j <= i ==> findings[..n][j] == findings[j];
  }

  lemma {:induction false} IndexesOfFirsts(findings: seq<Finding>) returns (indexes: seq<nat>)
    ensures FirstIndexes(findings, indexes)
  {
    hide Firsts, NoneBefore;
    if findings == [] {
      indexes := [];
      assert Firsts(findings) == [] by { NoFirsts(); }
    } else {
      var n := |findings| - 1;
      var shorter := IndexesOfFirsts(findings[..n]);
      FirstsStep(findings);
      indexes := if NoneBefore(findings, n) then shorter + [n] else shorter;
      forall i: nat ensures i in indexes <==> i < |findings| && NoneBefore(findings, i) {
        assert i in indexes <==> i in shorter || (i == n && NoneBefore(findings, n));
        if i < n {
          NoneBeforePrefix(findings, n, i);
        }
      }
    }
  }

  lemma NoFirsts()
    ensures Firsts([]) == []
  {
  }

  function PlacesOf(at: seq<Place>, indexes: seq<nat>): (places: seq<Place>)
    requires forall m :: 0 <= m < |indexes| ==> indexes[m] < |at|
    ensures |places| == |indexes| && forall m :: 0 <= m < |indexes| ==> places[m] == at[indexes[m]]
    ensures forall m :: 0 <= m < |indexes| ==> places[m] in places
  {
    seq(|indexes|, m requires 0 <= m < |indexes| => at[indexes[m]])
  }

  lemma PlacesAreFirst(
    texts: seq<Scanned>, rules: Rules, at: seq<Place>, findings: seq<Finding>, indexes: seq<nat>, p: Place)
    requires FoundUpTo(texts, rules, at, findings, Place(|texts|, 0, 0)) && FirstIndexes(findings, indexes)
    ensures p in PlacesOf(at, indexes) <==> IsFirst(texts, rules, p)
  {
    FirstIsFirst(texts, rules, at, findings, p);
    hide FoundAt, IsFirst, Matches, NoneBefore;
    if i: nat :| i < |at| && at[i] == p && NoneBefore(findings, i) {
      assert i in indexes;
      var m :| 0 <= m < |indexes| && indexes[m] == i;
      assert PlacesOf(at, indexes)[m] == p;
    }
    if p in PlacesOf(at, indexes) {
      var m :| 0 <= m < |indexes| && PlacesOf(at, indexes)[m] == p;
      assert indexes[m] in indexes;
    }
  }

  /** With all texts scanned, the first findings of their keys are what is to be reported. */
  lemma FirstsAreReported(texts: seq<Scanned>, rules: Rules, findings: seq<Finding>)
    requires UpTo(texts, rules, findings, Place(|texts|, 0, 0))
    ensures Reports(texts, rules, HitsOf(Firsts(findings)))
  {
    hide HitAt, Firsts, Matches, KeyAt, IsFirst, NoneBefore;
    var at :| FoundUpTo(texts, rules, at, findings, Place(|texts|, 0, 0));
    var indexes := IndexesOfFirsts(findings);
    var places := PlacesOf(at, indexes);
    forall p ensures p in places <==> IsFirst(texts, rules, p) {
      PlacesAreFirst(texts, rules, at, findings, indexes, p);
    }
    var hits := HitsOf(Firsts(findings));
    forall m | 0 <= m < |places| ensures HitAt(texts, rules, places[m], hits[m]) {
      assert FoundAt(texts, rules, at[indexes[m]], findings[indexes[m]]);
    }
    assert ReportsAt(texts, rules, places, hits);
  }

  lemma FirstIsFirst(texts: seq<Scanned>, rules: Rules, at: seq<Place>, findings: seq<Finding>, p: Place)
    requires FoundUpTo(texts, rules, at, findings, Place(|texts|, 0, 0))
    ensures (exists i: nat :: i < |at| && at[i] == p && NoneBefore(findings, i)) <==> IsFirst(texts, rules, p)
  {
    hide HitAt, KeyAt;
    assert forall j :: 0 <= j < |at| ==> at[j] in at && FoundAt(texts, rules, at[j], findings[j]);
    if p in at {
      var i: nat :| i < |at| && at[i] == p;
      IndexIsFirst(texts, rules, at, findings, i);
    }
  }

  lemma IndexIsFirst(texts: seq<Scanned>, rules: Rules, at: seq<Place>, findings: seq<Finding>, i: nat)
    requires FoundUpTo(texts, rules, at, findings, Place(|texts|, 0, 0)) && i < |at|
    ensures NoneBefore(findings, i) <==> IsFirst(texts, rules, at[i])
    ensures forall k :: 0 <= k < |at| && at[k] == at[i] ==> k == i
  {
    hide HitAt, KeyAt, Matches;
    assert forall j :: 0 <= j < |at| ==> at[j] in at && FoundAt(texts, rules, at[j], findings[j]);
    if NoneBefore(findings, i) {
      forall q | Matches(texts, rules, q) && Before(q, at[i])
        ensures KeyAt(texts, rules, q) != KeyAt(texts, rules, at[i])
      {
        assert q in at by { BeforeEnd(texts, rules, q); }
        var j :| 0 <= j < |at| && at[j] == q;
        assert j < i;
      }
    }
  }

  lemma BeforeEnd(texts: seq<Scanned>, rules: Rules, p: Place)
    requires Matches(texts, rules, p)
    ensures Before(p, Place(|texts|, 0, 0))
  {
  }

  lemma {:induction false} OrderedIsOne(a: seq<Place>, b: seq<Place>)
    requires Ordered(a) && Ordered(b) && forall p :: p in a <==> p in b
    ensures a == b
  {
    assert a != [] ==> a[0] in b;
    assert b != [] ==> b[0] in a;
    if a != [] && b != [] {
      var i :| 0 <= i < |b| && b[i] == a[0];
      var j :| 0 <= j < |a| && a[j] == b[0];
      assert a[0] == b[0];
      assert a[0] !in a[1..] && b[0] !in b[1..];
      forall p ensures p in a[1..] <==> p in b[1..] {
        assert p in a <==> p == a[0] || p in a[1..];
        assert p in b <==> p == b[0] || p in b[1..];
      }
      OrderedIsOne(a[1..], b[1..]);
      assert a == [a[0]] + a[1..] && b == [b[0]] + b[1..];
    }
  }

  /** The texts determine what is reported. */
  lemma ReportsAreOne(texts: seq<Scanned>, rules: Rules, a: seq<Hit>, b: seq<Hit>)
    requires Reports(texts, rules, a) && Reports(texts, rules, b)
    ensures a == b
  {
    hide IsFirst;
    var x :| ReportsAt(texts, rules, x, a);
    var y :| ReportsAt(texts, rules, y, b);
    OrderedIsOne(x, y);
    forall n | 0 <= n < |a| ensures a[n] == b[n] {
      assert x[n] in x && IsFirst(texts, rules, x[n]);
      SameHit(texts, rules, x[n], a[n], b[n]);
    }
  }

  lemma SameHit(texts: seq<Scanned>, rules: Rules, p: Place, a: Hit, b: Hit)
    requires IsFirst(texts, rules, p) && HitAt(texts, rules, p, a) && HitAt(texts, rules, p, b)
    ensures a == b
  {
    hide Before;
    if |a.shown| == 17 {
      assert a.shown == a.shown[..16] + [a.shown[16]] && b.shown == b.shown[..16] + [b.shown[16]];
    }
  }

  // ----- the batched scan -----

  predicate Kept(e: Entry, rules: Rules) {
    rules.scannable(e.file) && e.mode != GITLINK_MODE && e.size <= MAX_SCANNED_BYTES
  }

  function KeptOf(entries: seq<Entry>, rules: Rules): (kept: seq<Entry>)
    ensures forall e :: e in kept <==> e in entries && Kept(e, rules)
  {
    if entries == [] then []
    else if Kept(entries[|entries| - 1], rules) then KeptOf(entries[..|entries| - 1], rules) + [entries[|entries| - 1]]
    else KeptOf(entries[..|entries| - 1], rules)
  }

  method ChunkGitEntries(entries: seq<Entry>) returns (chunks: seq<seq<Entry>>)
    ensures Chunked(entries, (e: Entry) => e.size, chunks)
  {
    var chunk, size := [], 0;
    ghost var sizeOf := (e: Entry) => e.size;
    TotalNone(sizeOf);
    ChunkedNone(sizeOf);
    chunks := [];
    hide Chunked, Total;
    var i := 0;
    while i < |entries|
      invariant 0 <= i <= |entries|
      invariant Filling(entries[..i], sizeOf, chunks, chunk) && size == Total(chunk, sizeOf)
    {
      var entry := entries[i];
      PushItem(entries[..i], sizeOf, chunks, chunk, entry);
      assert entries[..i + 1] == entries[..i] + [entry];
      TotalOne(chunk, entry, sizeOf);
      if |chunk| > 0 && size + entry.size > BLOB_BATCH_TARGET_BYTES {
        chunks := chunks + [chunk];
        chunk := [];
        size := 0;
      }
      chunk := chunk + [entry];
      size := size + entry.size;
      i := i + 1;
      assert [] + [entry] == [entry];
    }
    assert entries[..i] == entries;
    if |chunk| > 0 {
      chunks := chunks + [chunk];
    }
  }

  function IdsOf(entries: seq<Entry>): (ids: seq<ObjectId>)
    ensures forall id :: id in ids <==> exists e :: e in entries && e.objectId == id
    ensures forall e :: e in entries ==> e.objectId in ids
  {
    if entries == [] then [] else [entries[0].objectId] + IdsOf(entries[1..])
  }

  /** The growing list of hits and the set of keys already reported. */
  class Scanner {
    var hits: seq<Hit>
    var seen: set<Key>

    ghost function View(): Report
      reads this
    {
      Report(hits, seen)
    }

    constructor ()
      ensures View() == Report([], {})
    {
      hits, seen := [], {};
    }

    method ScanText(file: string, lines: seq<string>, rules: Rules)
      modifies this
      ensures View() == RecordAll(old(View()), TextFindings(file, lines, rules))
    {
      var i := 0;
      while i < |lines|
        invariant 0 <= i <= |lines|
        invariant View() == RecordAll(old(View()), TextFindings(file, lines[..i], rules))
      {
        var line := lines[i];
        assert lines[..i + 1][..i] == lines[..i];
        if !rules.ignored(line) {
          ghost var found := TextFindings(file, lines[..i], rules);
          ScanLine(file, i + 1, line, rules.patterns);
          RecordSplit(old(View()), found, LineFindings(file, i + 1, line, rules.patterns));
        }
        i := i + 1;
      }
      assert lines[..i] == lines;
    }

    method ScanLine(file: string, number: nat, line: string, patterns: seq<Pattern>)
      modifies this
      ensures View() == RecordAll(old(View()), LineFindings(file, number, line, patterns))
    {
      var k := 0;
      while k < |patterns|
        invariant 0 <= k <= |patterns|
        invariant View() == RecordAll(old(View()), LineFindings(file, number, line, patterns[..k]))
      {
        var p := patterns[k];
        ghost var before := LineFindings(file, number, line, patterns[..k]);
        assert patterns[..k + 1][..k] == patterns[..k];
        var m := p.find(line);
        if m.Some? {
          var key := Key(file, number, p.id, m.value);
          var hit := Hit(file, number, p.id, p.description, Shown(m.value));
          RecordSplit(old(View()), before, [Finding(key, hit)]);
          RecordNext(RecordAll(old(View()), before), Finding(key, hit));
          if key !in seen {
            seen := seen + {key};
            hits := hits + [hit];
          }
        }
        k := k + 1;
      }
      assert patterns[..k] == patterns;
    }

    /** One chunk: fetch its blobs, then scan its entries in order. */
    method ScanChunk(
      chunk: seq<Entry>, store: map<ObjectId, seq<Byte>>, rules: Rules, number: seq<Byte> -> Option<nat>)
      returns (ok: bool)
      requires ReadsSizes(number, store) && forall id :: id in store ==> Plain(id)
      modifies this
      ensures ok <==> forall e :: e in chunk ==> e.objectId in store
      ensures ok ==> View() == RecordAll(old(View()), AllFindings(chunk, store, rules))
      ensures !ok ==> View() == old(View())
    {
      var ids := IdsOf(chunk);
      var blobs := ReadGitBlobs(ids, store, number);
      if blobs.Err? {
        return false;
      }
      NoFindings(View(), store, rules);
      hide AllFindings, TextFindings, RecordAll;
      var i := 0;
      while i < |chunk|
        invariant 0 <= i <= |chunk|
        invariant forall e :: e in chunk ==> e.objectId in store
        invariant View() == RecordAll(old(View()), AllFindings(chunk[..i], store, rules))
      {
        var entry := chunk[i];
        FindingsNext(chunk, i, store, rules);
        RecordSplit(old(View()), AllFindings(chunk[..i], store, rules),
                    TextFindings(entry.file, rules.lines(store[entry.objectId]), rules));
        ScanText(entry.file, rules.lines(blobs.value[entry.objectId]), rules);
        i := i + 1;
      }
      assert chunk[..i] == chunk;
      return true;
    }
  }

  lemma FindingsNext(entries: seq<Entry>, i: nat, store: map<ObjectId, seq<Byte>>, rules: Rules)
    requires i < |entries| && forall e :: e in entries ==> e.objectId in store
    ensures AllFindings(entries[..i + 1], store, rules) == AllFindings(entries[..i], store, rules) +
      TextFindings(entries[i].file, rules.lines(store[entries[i].objectId]), rules)
  {
    assert entries[..i + 1][..i] == entries[..i];
  }

  lemma NoFindings(r: Report, store: map<ObjectId, seq<Byte>>, rules: Rules)
    ensures RecordAll(r, AllFindings([], store, rules)) == r
  {
  }

  lemma RecordNext(r: Report, f: Finding)
    ensures RecordAll(r, [f]) == Record(r, f)
  {
    assert [f][..0] == [];
    assert RecordAll(r, []) == r;
  }

  lemma {:induction false} AllFindingsSplit(
    a: seq<Entry>, b: seq<Entry>, store: map<ObjectId, seq<Byte>>, rules: Rules)
    requires forall e :: e in a || e in b ==> e.objectId in store
    ensures AllFindings(a + b, store, rules) == AllFindings(a, store, rules) + AllFindings(b, store, rules)
  {
    hide TextFindings;
    if b == [] {
      assert a + b == a;
    } else {
      AllFindingsSplit(a, b[..|b| - 1], store, rules);
      assert (a + b)[..|a + b| - 1] == a + b[..|b| - 1];
    }
  }

  /** An entry is looked at if its name is scanned, it is no Git link and it is not too large. */
  ghost function SnapshotText(e: Entry, store: map<ObjectId, seq<Byte>>, rules: Rules): Scanned {
    Scanned(e.file, rules.scannable(e.file) && e.mode != GITLINK_MODE && e.size <= MAX_SCANNED_BYTES,
            if e.objectId in store then rules.lines(store[e.objectId]) else [])
  }

  ghost function SnapshotTexts(entries: seq<Entry>, store: map<ObjectId, seq<Byte>>, rules: Rules): seq<Scanned> {
    seq(|entries|, i requires 0 <= i < |entries| => SnapshotText(entries[i], store, rules))
  }

  lemma {:induction false} SnapshotsUpTo(entries: seq<Entry>, store: map<ObjectId, seq<Byte>>, rules: Rules, n: nat)
    requires n <= |entries| && forall e :: e in KeptOf(entries[..n], rules) ==> e.objectId in store
    ensures UpTo(SnapshotTexts(entries, store, rules), rules, AllFindings(KeptOf(entries[..n], rules), store, rules),
                 Place(n, 0, 0))
    decreases n
  {
    hide UpTo, TextFindings;
    var texts := SnapshotTexts(entries, store, rules);
    if n == 0 {
      NothingYet(texts, rules);
    } else {
      assert entries[..n][..n - 1] == entries[..n - 1];
      var before, e := KeptOf(entries[..n - 1], rules), entries[n - 1];
      assert KeptOf(entries[..n], rules) == if Kept(e, rules) then before + [e] else before;
      SnapshotsUpTo(entries, store, rules, n - 1);
      NextText(texts, rules, AllFindings(before, store, rules), n - 1);
      assert (before + [e])[..|before|] == before;
    }
  }

  lemma SnapshotsReported(entries: seq<Entry>, store: map<ObjectId, seq<Byte>>, rules: Rules)
    requires forall e :: e in KeptOf(entries, rules) ==> e.objectId in store
    ensures Reports(SnapshotTexts(entries, store, rules), rules,
                    HitsOf(Firsts(AllFindings(KeptOf(entries, rules), store, rules))))
  {
    hide UpTo, Reports, AllFindings, Firsts, HitsOf;
    assert entries[..|entries|] == entries;
    SnapshotsUpTo(entries, store, rules, |entries|);
    FirstsAreReported(SnapshotTexts(entries, store, rules), rules, AllFindings(KeptOf(entries, rules), store, rules));
  }

  /** The scan in chunks and batches reports every match in a text that is kept, in order of entry, line and
      pattern, each key once; it fails exactly when a blob to be scanned is missing. */
  method ScanSnapshots(
    entries: seq<Entry>, store: map<ObjectId, seq<Byte>>, rules: Rules, number: seq<Byte> -> Option<nat>)
    returns (ok: bool, hits: seq<Hit>)
    requires ReadsSizes(number, store) && forall id :: id in store ==> Plain(id)
    ensures ok <==> forall e :: e in entries && SnapshotText(e, store, rules).kept ==> e.objectId in store
    ensures ok ==> Reports(SnapshotTexts(entries, store, rules), rules, hits)
  {
    hide AllFindings, TextFindings, RecordAll, KeptOf, Firsts, HitsOf, Plain, ReadsSizes, Reports, SnapshotTexts;
    var kept := KeptOf(entries, rules);
    var scanner := new Scanner();
    var chunks := ChunkGitEntries(kept);
    NoFindings(scanner.View(), store, rules);
    var k := 0;
    while k < |chunks|
      invariant 0 <= k <= |chunks|
      invariant forall e: Entry :: e in Flatten(chunks[..k]) ==> e.objectId in store
      invariant scanner.View() == RecordAll(Report([], {}), AllFindings(Flatten(chunks[..k]), store, rules))
    {
      FlattenPart(chunks, k);
      var fetched := scanner.ScanChunk(chunks[k], store, rules, number);
      if !fetched {
        return false, scanner.hits;
      }
      AllFindingsSplit(Flatten(chunks[..k]), chunks[k], store, rules);
      RecordSplit(Report([], {}), AllFindings(Flatten(chunks[..k]), store, rules),
                  AllFindings(chunks[k], store, rules));
      k := k + 1;
    }
    assert chunks[..k] == chunks;
    RecordedAreFirsts(AllFindings(kept, store, rules));
    SnapshotsReported(entries, store, rules);
    return true, scanner.hits;
  }

  // ----- given files -----

  predicate KeptFile(file: string, disk: map<string, seq<Byte>>, rules: Rules) {
    rules.scannable(file) && file in disk && |disk[file]| <= MAX_SCANNED_BYTES
  }

  function FileFindings(files: seq<string>, disk: map<string, seq<Byte>>, rules: Rules): seq<Finding> {
    if files == [] then []
    else
      var before, file := FileFindings(files[..|files| - 1], disk, rules), files[|files| - 1];
      if KeptFile(file, disk, rules) then before + TextFindings(file, rules.lines(disk[file]), rules) else before
  }

  /** A file is looked at if its name is scanned and it is not too large. */
  ghost function FileText(file: string, disk: map<string, seq<Byte>>, rules: Rules): Scanned {
    Scanned(file, rules.scannable(file) && file in disk && |disk[file]| <= MAX_SCANNED_BYTES,
            if file in disk then rules.lines(disk[file]) else [])
  }

  ghost function FileTexts(files: seq<string>, disk: map<string, seq<Byte>>, rules: Rules): seq<Scanned> {
    seq(|files|, i requires 0 <= i < |files| => FileText(files[i], disk, rules))
  }

  lemma {:induction false} FilesUpTo(files: seq<string>, disk: map<string, seq<Byte>>, rules: Rules, n: nat)
    requires n <= |files|
    ensures UpTo(FileTexts(files, disk, rules), rules, FileFindings(files[..n], disk, rules), Place(n, 0, 0))
    decreases n
  {
    hide UpTo, TextFindings;
    var texts := FileTexts(files, disk, rules);
    if n == 0 {
      NothingYet(texts, rules);
    } else {
      assert files[..n][..n - 1] == files[..n - 1];
      FilesUpTo(files, disk, rules, n - 1);
      NextText(texts, rules, FileFindings(files[..n - 1], disk, rules), n - 1);
    }
  }

  lemma FilesReported(files: seq<string>, disk: map<string, seq<Byte>>, rules: Rules)
    ensures Reports(FileTexts(files, disk, rules), rules, HitsOf(Firsts(FileFindings(files, disk, rules))))
  {
    hide UpTo, Reports, FileFindings, Firsts, HitsOf;
    assert files[..|files|] == files;
    FilesUpTo(files, disk, rules, |files|);
    FirstsAreReported(FileTexts(files, disk, rules), rules, FileFindings(files, disk, rules));
  }

  /** The scan of given files reports every match in a file that is kept, in order of file, line and pattern,
      each key once; it fails exactly when a file to be scanned does not exist. */
  method ScanFiles(files: seq<string>, disk: map<string, seq<Byte>>, rules: Rules) returns (ok: bool, hits: seq<Hit>)
    ensures ok <==> forall file :: file in files && rules.scannable(file) ==> file in disk
    ensures ok ==> Reports(FileTexts(files, disk, rules), rules, hits)
  {
    hide Reports, FileTexts;
    var scanner := new Scanner();
    var i := 0;
    while i < |files|
      invariant 0 <= i <= |files|
      invariant forall k :: 0 <= k < i && rules.scannable(files[k]) ==> files[k] in disk
      invariant scanner.View() == RecordAll(Report([], {}), FileFindings(files[..i], disk, rules))
    {
      var file := files[i];
      assert files[..i + 1][..i] == files[..i];
      i := i + 1;
      if !rules.scannable(file) {
        continue;
      }
      if file !in disk {
        return false, [];
      }
      if |disk[file]| > MAX_SCANNED_BYTES {
        continue;
      }
      RecordSplit(Report([], {}), FileFindings(files[..i - 1], disk, rules),
                  TextFindings(file, rules.lines(disk[file]), rules));
      scanner.ScanText(file, rules.lines(disk[file]), rules);
    }
    assert files[..i] == files;
    RecordedAreFirsts(FileFindings(files, disk, rules));
    FilesReported(files, disk, rules);
    return true, scanner.hits;
  }

  /** Either of the two, as the caller gives files or not. */
  method Scan(
    files: Option<seq<string>>, disk: map<string, seq<Byte>>, entries: seq<Entry>,
    store: map<ObjectId, seq<Byte>>, rules: Rules, number: seq<Byte> -> Option<nat>)
    returns (ok: bool, hits: seq<Hit>)
    requires ReadsSizes(number, store) && forall id :: id in store ==> Plain(id)
    ensures files.Some? ==>
      (ok <==> forall file :: file in files.value && rules.scannable(file) ==> file in disk)
    ensures files.Some? && ok ==> Reports(FileTexts(files.value, disk, rules), rules, hits)
    ensures files.None? ==>
      (ok <==> forall e :: e in entries && SnapshotText(e, store, rules).kept ==> e.objectId in store)
    ensures files.None? && ok ==> Reports(SnapshotTexts(entries, store, rules), rules, hits)
  {
    hide Reports, FileTexts, SnapshotTexts;
    if files.Some? {
      ok, hits := ScanFiles(files.value, disk, rules);
    } else {
      ok, hits := ScanSnapshots(entries, store, rules, number);
    }
  }

  /** The entry is a blob of the snapshot with what the file holds. */
  ghost predicate SameFile(
    e: Entry, file: string, disk: map<string, seq<Byte>>, store: map<ObjectId, seq<Byte>>)
  {
    && e.file == file && file in disk && e.objectId in store && store[e.objectId] == disk[file]
    && e.mode != GITLINK_MODE && e.size == |disk[file]|
  }

  /** Files that are as the snapshot has them are reported alike by both scans. */
  lemma {:induction false} FilesAsTheSnapshot(
    files: seq<string>, disk: map<string, seq<Byte>>, entries: seq<Entry>, store: map<ObjectId, seq<Byte>>,
    rules: Rules)
    requires |files| == |entries| && forall i :: 0 <= i < |files| ==> SameFile(entries[i], files[i], disk, store)
    ensures forall e :: e in KeptOf(entries, rules) ==> e.objectId in store
    ensures FileFindings(files, disk, rules) == AllFindings(KeptOf(entries, rules), store, rules)
  {
    hide TextFindings;
    if files != [] {
      var n := |files| - 1;
      FilesAsTheSnapshot(files[..n], disk, entries[..n], store, rules);
      assert SameFile(entries[n], files[n], disk, store);
      var before := KeptOf(entries[..n], rules);
      assert (before + [entries[n]])[..|before|] == before;
    }
  }
}
