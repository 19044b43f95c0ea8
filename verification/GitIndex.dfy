/** The reader of Git's binary index, versions 2 and 3 (script/secret-scan.ts:111-161). */
module GitIndex {
  import opened Bytes

  /** The bytes of the path are kept as they are; the source decodes them as UTF-8 afterwards. */
  datatype Entry = Entry(path: seq<Byte>, objectId: seq<Byte>, size: nat, mode: nat, stage: nat)

  datatype Error = MissingSignature | UnsupportedVersion | TruncatedEntry | TruncatedFlags | UnterminatedPath

  datatype Result<+T> = Ok(value: T) | Err(error: Error)

  const SIGNATURE: seq<Byte> := [68, 73, 82, 67]
  const HEADER_BYTES := 12
  const FIXED_BYTES := 62

  function U16(data: seq<Byte>, at: nat): nat
    requires at + 2 <= |data|
  {
    data[at] as int * 0x100 + data[at + 1] as int
  }

  function U32(data: seq<Byte>, at: nat): nat
    requires at + 4 <= |data|
  {
    data[at] as int * 0x100_0000 + data[at + 1] as int * 0x1_0000 + data[at + 2] as int * 0x100 + data[at + 3] as int
  }

  function Extended(version: nat, flags: nat): bool {
    version == 3 && (flags / 0x4000) % 2 != 0
  }

  function Stage(flags: nat): nat { (flags / 0x1000) % 4 }

  function Padding(length: nat): nat { (8 - length % 8) % 8 }

  /** One entry starting at `start`, and where the next one starts. */
  function ParseEntry(data: seq<Byte>, version: nat, start: nat): (r: Result<(Entry, nat)>)
    ensures r.Ok? ==> start + FIXED_BYTES < r.value.1 && start + FIXED_BYTES <= |data|
    ensures r.Ok? ==> 0 !in r.value.0.path && |r.value.0.objectId| == 20
  {
    if start + FIXED_BYTES > |data| then Err(TruncatedEntry)
    else
      var flags := U16(data, start + 60);
      var path := start + FIXED_BYTES + if Extended(version, flags) then 2 else 0;
      if path > |data| then Err(TruncatedFlags)
      else
        var nul := IndexOf(data, NUL, path);
        if nul < 0 then Err(UnterminatedPath)
        else
          Ok((Entry(data[path..nul], data[start + 40..start + 60], U32(data, start + 36),
                    U32(data, start + 24), Stage(flags)),
              nul + 1 + Padding(nul + 1 - start)))
  }

  /** The remaining `count` entries, appended to those already read. */
  function ParseEntries(data: seq<Byte>, version: nat, count: nat, offset: nat, entries: seq<Entry>)
    : (r: Result<seq<Entry>>)
    ensures r.Ok? ==> |r.value| == |entries| + count
    decreases count
  {
    if count == 0 then Ok(entries)
    else
      var one := ParseEntry(data, version, offset);
      if one.Err? then Err(one.error)
      else ParseEntries(data, version, count - 1, one.value.1, entries + [one.value.0])
  }

  function Parse(data: seq<Byte>): Result<seq<Entry>> {
    if |data| < HEADER_BYTES || data[..4] != SIGNATURE then Err(MissingSignature)
    else if U32(data, 4) != 2 && U32(data, 4) != 3 then Err(UnsupportedVersion)
    else ParseEntries(data, U32(data, 4), U32(data, 8), HEADER_BYTES, [])
  }

  /** The body of the loop below: read one entry and move the offset behind its padding. */
  method ReadEntry(data: seq<Byte>, version: nat, entryStart: nat) returns (r: Result<(Entry, nat)>)
    ensures r == ParseEntry(data, version, entryStart)
  {
    var offset: nat := entryStart;
    if offset + FIXED_BYTES > |data| {
      return Err(TruncatedEntry);
    }
    var flags := U16(data, offset + 60);
    var mode := U32(data, entryStart + 24);
    var size := U32(data, entryStart + 36);
    var objectId := data[entryStart + 40..entryStart + 60];
    offset := offset + FIXED_BYTES;
    if version == 3 && (flags / 0x4000) % 2 != 0 {
      if offset + 2 > |data| {
        return Err(TruncatedFlags);
      }
      offset := offset + 2;
    }
    var nul := IndexOf(data, NUL, offset);
    if nul < 0 {
      return Err(UnterminatedPath);
    }
    var entry := Entry(data[offset..nul], objectId, size, mode, (flags / 0x1000) % 4);
    offset := nul + 1;
    var padding := (8 - (offset - entryStart) % 8) % 8;
    offset := offset + padding;
    return Ok((entry, offset));
  }

  /** The entry loop: one moving offset, entries appended as they are read. */
  method ReadEntries(data: seq<Byte>, version: nat, count: nat) returns (r: Result<seq<Entry>>)
    ensures r == ParseEntries(data, version, count, HEADER_BYTES, [])
  {
    hide ParseEntry;
    var entries: seq<Entry>, offset: nat, i: nat := [], HEADER_BYTES, 0;
    while i < count
      invariant 0 <= i <= count
      invariant ParseEntries(data, version, count, HEADER_BYTES, []) ==
        ParseEntries(data, version, count - i, offset, entries)
    {
      var one := ReadEntry(data, version, offset);
      if one.Err? {
        return Err(one.error);
      }
      entries := entries + [one.value.0];
      offset := one.value.1;
      i := i + 1;
    }
    return Ok(entries);
  }

  /** The parser as the source runs it. Every read is within bounds, whatever the bytes. */
  method ParseGitIndexEntries(data: seq<Byte>) returns (r: Result<seq<Entry>>)
    ensures r == Parse(data)
    ensures r.Ok? ==> HEADER_BYTES <= |data| && |r.value| == U32(data, 8)
  {
    if |data| < HEADER_BYTES || data[..4] != SIGNATURE {
      return Err(MissingSignature);
    }
    var version := U32(data, 4);
    if version != 2 && version != 3 {
      return Err(UnsupportedVersion);
    }
    r := ReadEntries(data, version, U32(data, 8));
  }

  // ----- what is parsed -----

  /** The entry at `start`: its fields at their places, its path up to the first NUL behind them, and the next
      entry at the first multiple of eight behind that NUL. */
  ghost predicate EntryAt(data: seq<Byte>, version: nat, start: nat, e: Entry, next: nat) {
    && start + FIXED_BYTES <= |data|
    && e.mode == U32(data, start + 24) && e.size == U32(data, start + 36)
    && e.objectId == data[start + 40..start + 60] && e.stage == U16(data, start + 60) / 0x1000 % 4
    && PathAt(data, start, start + FIXED_BYTES + ExtraFlags(version, U16(data, start + 60)), e.path, next)
  }

  ghost predicate PathAt(data: seq<Byte>, start: nat, from: nat, path: seq<Byte>, next: nat) {
    exists nul :: PathEnds(data, from, nul, path) && nul < next <= nul + 8 && (next - start) % 8 == 0
  }

  /** Version 3 entries may have two more bytes of flags. */
  function ExtraFlags(version: nat, flags: nat): nat {
    if version == 3 && flags / 0x4000 % 2 == 1 then 2 else 0
  }

  ghost predicate PathEnds(data: seq<Byte>, from: nat, nul: int, path: seq<Byte>) {
    from <= nul < |data| && data[nul] == NUL && path == data[from..nul] && NUL !in path
  }

  /** The entries stand one behind the other from the header on. */
  ghost predicate EntriesAt(data: seq<Byte>, version: nat, start: nat, entries: seq<Entry>)
    decreases |entries|
  {
    entries == [] ||
    exists next: nat :: EntryAt(data, version, start, entries[0], next) && EntriesAt(data, version, next, entries[1..])
  }

  lemma PathIsFound(data: seq<Byte>, from: nat, nul: int, path: seq<Byte>)
    requires from <= |data|
    ensures PathEnds(data, from, nul, path) <==>
      nul >= 0 && IndexOf(data, NUL, from) == nul && path == data[from..nul]
  {
    if PathEnds(data, from, nul, path) {
      FirstOccurrence(data, from, path, NUL);
    }
  }

  lemma PaddingExactly(length: nat, padded: nat)
    ensures length < padded <= length + 8 && padded % 8 == 0 <==> padded == length + 1 + Padding(length + 1)
  {
  }

  /** The path of an entry whose fixed parts are there, and where it leaves off. */
  lemma PathIsParsed(data: seq<Byte>, start: nat, from: nat, path: seq<Byte>, next: nat)
    requires start <= from <= |data|
    ensures var nul := IndexOf(data, NUL, from);
      PathAt(data, start, from, path, next) <==>
        nul >= 0 && path == data[from..nul] && next == nul + 1 + Padding(nul + 1 - start)
  {
    hide IndexOf, PathEnds, Padding;
    var nul := IndexOf(data, NUL, from);
    forall n ensures PathEnds(data, from, n, path) <==> n >= 0 && nul == n && path == data[from..n] {
      PathIsFound(data, from, n, path);
    }
    if nul >= from && next >= start {
      PaddingExactly(nul - start, next - start);
    }
  }

  lemma EntryIsParsed(data: seq<Byte>, version: nat, start: nat, e: Entry, next: nat)
    ensures ParseEntry(data, version, start) == Ok((e, next)) <==> EntryAt(data, version, start, e, next)
  {
    hide IndexOf, PathAt, Padding, U16, U32;
    if start + FIXED_BYTES <= |data| {
      var path := start + FIXED_BYTES + ExtraFlags(version, U16(data, start + 60));
      if path <= |data| {
        PathIsParsed(data, start, path, e.path, next);
      } else {
        NoPath(data, start, path, e.path, next);
      }
    }
  }

  lemma NoPath(data: seq<Byte>, start: nat, from: nat, path: seq<Byte>, next: nat)
    requires from > |data|
    ensures !PathAt(data, start, from, path, next)
  {
  }

  lemma {:induction false} EntriesAreParsed(
    data: seq<Byte>, version: nat, count: nat, start: nat, before: seq<Entry>, entries: seq<Entry>)
    ensures ParseEntries(data, version, count, start, before) == Ok(before + entries) <==>
      |entries| == count && EntriesAt(data, version, start, entries)
    decreases count
  {
    hide ParseEntry, EntryAt;
    if count == 0 {
      assert before + entries == before <==> entries == [];
    } else {
      var one := ParseEntry(data, version, start);
      forall e, next: nat ensures one == Ok((e, next)) <==> EntryAt(data, version, start, e, next) {
        EntryIsParsed(data, version, start, e, next);
      }
      if entries != [] {
        assert before + entries == before + [entries[0]] + entries[1..];
        if one.Ok? && one.value.0 == entries[0] {
          EntriesAreParsed(data, version, count - 1, one.value.1, before + [entries[0]], entries[1..]);
        } else if one.Ok? {
          KeepsBefore(data, version, count - 1, one.value.1, before + [one.value.0]);
          assert (before + entries)[|before|] == entries[0] && (before + [one.value.0])[|before|] == one.value.0;
        }
      }
    }
  }

  /** What has been read stays. */
  lemma {:induction false} KeepsBefore(data: seq<Byte>, version: nat, count: nat, start: nat, before: seq<Entry>)
    ensures var r := ParseEntries(data, version, count, start, before);
      r.Ok? ==> before <= r.value
    decreases count
  {
    hide ParseEntry;
    if count > 0 {
      var one := ParseEntry(data, version, start);
      if one.Ok? {
        KeepsBefore(data, version, count - 1, one.value.1, before + [one.value.0]);
      }
    }
  }

  /** An index is parsed to entries if and only if it has the signature, is of version 2 or 3, and the
      announced number of entries, which are these, stand one behind the other; a missing signature and
      another version are refused as such. */
  lemma ParsedExactly(data: seq<Byte>, entries: seq<Entry>)
    ensures Parse(data) == Ok(entries) <==>
      HEADER_BYTES <= |data| && data[..4] == SIGNATURE && (U32(data, 4) == 2 || U32(data, 4) == 3) &&
      |entries| == U32(data, 8) && EntriesAt(data, U32(data, 4), HEADER_BYTES, entries)
    ensures Parse(data) == Err(MissingSignature) <==> |data| < HEADER_BYTES || data[..4] != SIGNATURE
    ensures Parse(data) == Err(UnsupportedVersion) <==>
      HEADER_BYTES <= |data| && data[..4] == SIGNATURE && U32(data, 4) != 2 && U32(data, 4) != 3
  {
    hide ParseEntries, EntriesAt;
    if HEADER_BYTES <= |data| {
      EntriesAreParsed(data, U32(data, 4), U32(data, 8), HEADER_BYTES, [], entries);
      assert [] + entries == entries;
      EntryErrors(data, U32(data, 4), U32(data, 8), HEADER_BYTES, []);
    }
  }

  lemma {:induction false} EntryErrors(data: seq<Byte>, version: nat, count: nat, start: nat, before: seq<Entry>)
    ensures var r := ParseEntries(data, version, count, start, before);
      r.Err? ==> r.error != MissingSignature && r.error != UnsupportedVersion
    decreases count
  {
    if count > 0 && ParseEntry(data, version, start).Ok? {
      var one := ParseEntry(data, version, start).value;
      EntryErrors(data, version, count - 1, one.1, before + [one.0]);
    }
  }

  // ----- the format, as Git writes it -----

  /** An entry with everything Git stores for it; `stat` and `owner` are the parts the reader skips. */
  datatype Stored = Stored(
    stat: seq<Byte>, mode: nat, owner: seq<Byte>, size: nat, objectId: seq<Byte>, flags: nat,
    extendedFlags: seq<Byte>, path: seq<Byte>)

  ghost predicate Storable(e: Stored, version: nat) {
    && |e.stat| == 24 && |e.owner| == 8 && |e.objectId| == 20
    && e.mode < 0x1_0000_0000 && e.size < 0x1_0000_0000 && e.flags < 0x1_0000
    && |e.extendedFlags| == (if Extended(version, e.flags) then 2 else 0)
    && 0 !in e.path
  }

  function BE16(n: nat): (bytes: seq<Byte>)
    requires n < 0x1_0000
    ensures |bytes| == 2
  {
    [n / 0x100, n % 0x100]
  }

  function BE32(n: nat): (bytes: seq<Byte>)
    requires n < 0x1_0000_0000
    ensures |bytes| == 4
  {
    [n / 0x100_0000, n / 0x1_0000 % 0x100, n / 0x100 % 0x100, n % 0x100]
  }

  function Zeros(n: nat): (bytes: seq<Byte>)
    ensures |bytes| == n && forall k :: 0 <= k < n ==> bytes[k] == 0
  {
    seq(n, _ => 0)
  }

  ghost function Fixed(e: Stored, version: nat): (bytes: seq<Byte>)
    requires Storable(e, version)
    ensures |bytes| == FIXED_BYTES
  {
    e.stat + BE32(e.mode) + e.owner + BE32(e.size) + e.objectId + BE16(e.flags)
  }

  /** Between one and eight NUL bytes end the path and fill the entry up to a multiple of eight. */
  ghost function Encode(e: Stored, version: nat): (bytes: seq<Byte>)
    requires Storable(e, version)
  {
    var unpadded := Fixed(e, version) + e.extendedFlags + e.path;
    unpadded + Zeros(8 - |unpadded| % 8)
  }

  ghost function EncodeAll(es: seq<Stored>, version: nat): seq<Byte>
    requires forall e :: e in es ==> Storable(e, version)
  {
    if es == [] then [] else Encode(es[0], version) + EncodeAll(es[1..], version)
  }

  ghost function Header(version: nat, count: nat): seq<Byte>
    requires version < 0x1_0000_0000 && count < 0x1_0000_0000
  {
    SIGNATURE + BE32(version) + BE32(count)
  }

  function View(e: Stored): Entry {
    Entry(e.path, e.objectId, e.size, e.mode, Stage(e.flags))
  }

  function Views(es: seq<Stored>): (views: seq<Entry>)
    ensures |views| == |es| && forall i :: 0 <= i < |es| ==> views[i] == View(es[i])
  {
    seq(|es|, i requires 0 <= i < |es| => View(es[i]))
  }

  // ----- the round trip -----

  lemma ReadBE32(data: seq<Byte>, at: nat, n: nat)
    requires n < 0x1_0000_0000 && at + 4 <= |data| && data[at..at + 4] == BE32(n)
    ensures U32(data, at) == n
  {
    var bytes := data[at..at + 4];
    assert bytes[0] == data[at] && bytes[1] == data[at + 1] && bytes[2] == data[at + 2] && bytes[3] == data[at + 3];
    Recompose(n);
  }

  lemma Recompose(n: nat)
    ensures n / 0x100_0000 * 0x100_0000 + n / 0x1_0000 % 0x100 * 0x1_0000 + n / 0x100 % 0x100 * 0x100 + n % 0x100 == n
  {
    var a := n / 0x100;
    var b := a / 0x100;
    assert b == n / 0x1_0000 && b / 0x100 == n / 0x100_0000;
    assert n == a * 0x100 + n % 0x100 && a == b * 0x100 + a % 0x100 && b == b / 0x100 * 0x100 + b % 0x100;
  }

  lemma ReadFixed(data: seq<Byte>, at: nat, e: Stored, version: nat)
    requires Storable(e, version) && at + FIXED_BYTES <= |data|
    requires data[at..at + FIXED_BYTES] == Fixed(e, version)
    ensures U32(data, at + 24) == e.mode && U32(data, at + 36) == e.size
    ensures U16(data, at + 60) == e.flags && data[at + 40..at + 60] == e.objectId
  {
    var tail := BE16(e.flags);
    Piece(data, at, e.stat, BE32(e.mode), e.owner + BE32(e.size) + e.objectId + tail) by {
      assert Fixed(e, version) == e.stat + BE32(e.mode) + (e.owner + BE32(e.size) + e.objectId + tail);
    }
    ReadBE32(data, at + 24, e.mode);
    Piece(data, at, e.stat + BE32(e.mode) + e.owner, BE32(e.size), e.objectId + tail) by {
      assert Fixed(e, version) == e.stat + BE32(e.mode) + e.owner + BE32(e.size) + (e.objectId + tail);
    }
    ReadBE32(data, at + 36, e.size);
    Piece(data, at, e.stat + BE32(e.mode) + e.owner + BE32(e.size), e.objectId, tail);
    Piece(data, at, e.stat + BE32(e.mode) + e.owner + BE32(e.size) + e.objectId, tail, []) by {
      assert Fixed(e, version) + [] == Fixed(e, version);
    }
    assert data[at + 60..at + 62][0] == data[at + 60] && data[at + 60..at + 62][1] == data[at + 61];
  }

  /** Where the parts of a written entry lie. */
  lemma Layout(data: seq<Byte>, version: nat, start: nat, e: Stored)
    requires Storable(e, version) && start <= |data| && Encode(e, version) <= data[start..]
    ensures var path := start + FIXED_BYTES + |e.extendedFlags|;
      var zeros := 8 - (path + |e.path| - start) % 8;
      && path + |e.path| + zeros == start + |Encode(e, version)| <= |data|
      && data[start..start + FIXED_BYTES] == Fixed(e, version)
      && data[path..path + |e.path|] == e.path
      && data[path + |e.path|..path + |e.path| + zeros] == Zeros(zeros)
  {
    var code := Encode(e, version);
    var fixed := Fixed(e, version);
    var zeros := Zeros(8 - |fixed + e.extendedFlags + e.path| % 8);
    assert data[start..start + |code|] == code;
    Piece(data, start, [], fixed, e.extendedFlags + e.path + zeros) by {
      assert code == [] + fixed + (e.extendedFlags + e.path + zeros);
    }
    Piece(data, start, fixed + e.extendedFlags, e.path, zeros);
    Piece(data, start, fixed + e.extendedFlags + e.path, zeros, []) by {
      assert code + [] == code;
    }
  }

  lemma ParseOne(data: seq<Byte>, version: nat, start: nat, e: Stored)
    requires Storable(e, version) && start <= |data| && Encode(e, version) <= data[start..]
    ensures ParseEntry(data, version, start) == Ok((View(e), start + |Encode(e, version)|))
  {
    hide U16, U32, BE16, BE32, Padding, Stage, IndexOf;
    Layout(data, version, start, e);
    ReadFixed(data, start, e, version);
    var path := start + FIXED_BYTES + |e.extendedFlags|;
    var nul := path + |e.path|;
    var zeros := 8 - (nul - start) % 8;
    FirstOccurrence(data, path, e.path, NUL) by {
      assert data[nul] == data[nul..nul + zeros][0];
    }
    PaddingFills(nul - start);
    assert nul + 1 + Padding(nul + 1 - start) == start + |Encode(e, version)|;
    assert Extended(version, U16(data, start + 60)) == Extended(version, e.flags);
  }

  lemma PaddingFills(length: nat)
    ensures 1 + Padding(length + 1) == 8 - length % 8
  {
  }

  lemma FirstEntry(data: seq<Byte>, version: nat, start: nat, es: seq<Stored>) returns (next: nat)
    requires es != [] && forall e :: e in es ==> Storable(e, version)
    requires start <= |data| && EncodeAll(es, version) <= data[start..]
    ensures ParseEntry(data, version, start) == Ok((View(es[0]), next))
    ensures next <= |data| && EncodeAll(es[1..], version) <= data[next..]
  {
    hide ParseEntry, Encode, View, Storable;
    var code := Encode(es[0], version);
    next := start + |code|;
    PrefixParts(data, start, code, EncodeAll(es[1..], version));
    ParseOne(data, version, start, es[0]);
  }

  lemma {:induction false} ParseMany(
    data: seq<Byte>, version: nat, start: nat, es: seq<Stored>, entries: seq<Entry>)
    requires forall e :: e in es ==> Storable(e, version)
    requires start <= |data| && EncodeAll(es, version) <= data[start..]
    ensures ParseEntries(data, version, |es|, start, entries) == Ok(entries + Views(es))
    decreases es
  {
    if es == [] {
      assert entries + Views(es) == entries;
    } else {
      var next := FirstEntry(data, version, start, es);
      ParseMany(data, version, next, es[1..], entries + [View(es[0])]);
      ViewsAppend(entries, es);
    }
  }

  lemma ViewsAppend(entries: seq<Entry>, es: seq<Stored>)
    requires es != []
    ensures entries + Views(es) == entries + [View(es[0])] + Views(es[1..])
  {
  }

  /** Parsing what Git writes for any list of entries, with any bytes after it, gives the list back. */
  lemma RoundTrip(version: nat, es: seq<Stored>, trailing: seq<Byte>)
    requires version == 2 || version == 3
    requires |es| < 0x1_0000_0000 && forall e :: e in es ==> Storable(e, version)
    ensures Parse(Header(version, |es|) + EncodeAll(es, version) + trailing) == Ok(Views(es))
  {
    hide ParseEntries, EncodeAll, U32;
    var header, code := Header(version, |es|), EncodeAll(es, version);
    var data := header + code + trailing;
    ReadHeader(data, version, |es|);
    assert data[HEADER_BYTES..] == code + trailing;
    ParseMany(data, version, HEADER_BYTES, es, []);
    assert [] + Views(es) == Views(es);
  }

  lemma ReadHeader(data: seq<Byte>, version: nat, count: nat)
    requires version < 0x1_0000_0000 && count < 0x1_0000_0000 && Header(version, count) <= data
    ensures data[..4] == SIGNATURE && U32(data, 4) == version && U32(data, 8) == count
  {
    assert data[..12] == Header(version, count);
    assert data[..12][..4] == SIGNATURE && data[..12][4..8] == BE32(version) && data[..12][8..12] == BE32(count);
    assert data[..12][4..8] == data[4..8] && data[..12][8..12] == data[8..12];
    ReadBE32(data, 4, version);
    ReadBE32(data, 8, count);
  }

  /** Whatever the bytes, a parse that succeeds has found the announced number of entries, each with a
      NUL-free path and a twenty-byte object id, and the data holds at least their fixed parts. */
  lemma {:induction false} ParsedEntriesAreSound(
    data: seq<Byte>, version: nat, count: nat, offset: nat, entries: seq<Entry>)
    requires ParseEntries(data, version, count, offset, entries).Ok?
    ensures var all := ParseEntries(data, version, count, offset, entries).value;
      && entries <= all
      && (forall i :: |entries| <= i < |all| ==> 0 !in all[i].path && |all[i].objectId| == 20 && all[i].stage < 4)
    ensures count == 0 || offset + count * FIXED_BYTES <= |data|
    decreases count
  {
    if count > 0 {
      var (entry, next) := ParseEntry(data, version, offset).value;
      ParsedEntriesAreSound(data, version, count - 1, next, entries + [entry]);
      var all := ParseEntries(data, version, count, offset, entries).value;
      assert all[|entries|] == (entries + [entry])[|entries|] == entry;
    }
  }
}
