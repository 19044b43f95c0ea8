/** Reading blobs in batches: the greedy size chunkers and the length-delimited `cat-file` output
    (script/secret-scan.ts:272-285, 316-382). */
module GitBlobs {
  import opened Basics
  import opened Bytes

  type ObjectId = seq<Byte>

  const BLOB_BATCH_TARGET_BYTES: nat := 8 * 1024 * 1024

  datatype Error =
    | MissingHeader | MissingObject | NotABlob | InvalidSize | TruncatedBody | MissingTerminator
    | UnknownSize

  datatype Result<+T> = Ok(value: T) | Err(error: Error)

  // ----- greedy chunks -----

  function Total<T>(items: seq<T>, size: T -> nat): nat {
    if items == [] then 0 else Total(items[..|items| - 1], size) + size(items[|items| - 1])
  }

  function Flatten<T>(chunks: seq<seq<T>>): seq<T> {
    if chunks == [] then [] else Flatten(chunks[..|chunks| - 1]) + chunks[|chunks| - 1]
  }

  /** A chunk is within the target, unless it is one item that is too large by itself. */
  ghost predicate Fits<T>(chunk: seq<T>, size: T -> nat) {
    chunk != [] && (|chunk| == 1 || Total(chunk, size) <= BLOB_BATCH_TARGET_BYTES)
  }

  /** The chunk could not have taken the first item of the next one. */
  ghost predicate Full<T>(chunk: seq<T>, next: seq<T>, size: T -> nat) {
    next != [] ==> Total(chunk, size) + size(next[0]) > BLOB_BATCH_TARGET_BYTES
  }

  /** Order is kept, nothing is lost, every chunk fits, and none could have taken one more item. */
  ghost predicate Chunked<T>(items: seq<T>, size: T -> nat, chunks: seq<seq<T>>) {
    && Flatten(chunks) == items
    && (forall k :: 0 <= k < |chunks| ==> Fits(chunks[k], size))
    && (forall k :: 0 <= k < |chunks| - 1 ==> Full(chunks[k], chunks[k + 1], size))
  }

  lemma TotalOne<T>(chunk: seq<T>, item: T, size: T -> nat)
    ensures Total(chunk + [item], size) == Total(chunk, size) + size(item)
    ensures Total([item], size) == size(item)
  {
    assert (chunk + [item])[..|chunk|] == chunk;
    assert [item][..0] == [];
  }

  lemma TotalNone<T>(size: T -> nat)
    ensures Total([], size) == 0
  {
  }

  lemma ChunkedNone<T>(size: T -> nat)
    ensures Chunked([], size, [])
  {
  }

  lemma FlattenOne<T>(chunks: seq<seq<T>>, chunk: seq<T>)
    ensures Flatten(chunks + [chunk]) == Flatten(chunks) + chunk
  {
    assert (chunks + [chunk])[..|chunks|] == chunks;
  }

  /** What the loop knows: the chunks yielded so far and the one being filled. */
  ghost predicate Filling<T>(items: seq<T>, size: T -> nat, yielded: seq<seq<T>>, chunk: seq<T>) {
    if chunk == [] then items == [] && yielded == [] else Chunked(items, size, yielded + [chunk])
  }

  lemma PushItem<T>(items: seq<T>, size: T -> nat, yielded: seq<seq<T>>, chunk: seq<T>, item: T)
    requires Filling(items, size, yielded, chunk)
    ensures chunk == [] ==> Filling(items + [item], size, yielded, [item])
    ensures chunk != [] && Total(chunk, size) + size(item) > BLOB_BATCH_TARGET_BYTES ==>
      Filling(items + [item], size, yielded + [chunk], [item])
    ensures chunk != [] && Total(chunk, size) + size(item) <= BLOB_BATCH_TARGET_BYTES ==>
      Filling(items + [item], size, yielded, chunk + [item])
  {
    TotalOne(chunk, item, size);
    if chunk == [] {
      FlattenOne([], [item]);
      assert yielded + [[item]] == [] + [[item]];
      assert Fits([item], size);
    } else if Total(chunk, size) + size(item) <= BLOB_BATCH_TARGET_BYTES {
      GrowChunk(items, size, yielded, chunk, item);
    } else {
      NewChunk(items, size, yielded, chunk, item);
    }
  }

  lemma GrowChunk<T>(items: seq<T>, size: T -> nat, yielded: seq<seq<T>>, chunk: seq<T>, item: T)
    requires chunk != [] && Chunked(items, size, yielded + [chunk])
    requires Total(chunk + [item], size) <= BLOB_BATCH_TARGET_BYTES
    ensures Chunked(items + [item], size, yielded + [chunk + [item]])
  {
    var before, after := yielded + [chunk], yielded + [chunk + [item]];
    FlattenOne(yielded, chunk);
    FlattenOne(yielded, chunk + [item]);
    assert Flatten(yielded) + (chunk + [item]) == Flatten(yielded) + chunk + [item];
    forall k | 0 <= k < |after| - 1 ensures Full(after[k], after[k + 1], size) {
      assert Full(before[k], before[k + 1], size);
    }
    forall k | 0 <= k < |after| ensures Fits(after[k], size) {
      assert Fits(before[k], size);
    }
  }

  lemma NewChunk<T>(items: seq<T>, size: T -> nat, yielded: seq<seq<T>>, chunk: seq<T>, item: T)
    requires Chunked(items, size, yielded + [chunk])
    requires Total(chunk, size) + size(item) > BLOB_BATCH_TARGET_BYTES
    ensures Chunked(items + [item], size, yielded + [chunk] + [[item]])
  {
    var before, after := yielded + [chunk], yielded + [chunk] + [[item]];
    FlattenOne(before, [item]);
    forall k | 0 <= k < |after| - 1 ensures Full(after[k], after[k + 1], size) {
      if k < |before| - 1 {
        assert Full(before[k], before[k + 1], size);
      }
    }
    forall k | 0 <= k < |after| ensures Fits(after[k], size) {
      if k < |before| {
        assert Fits(before[k], size);
      }
    }
  }

  lemma {:induction false} FlattenFront<T>(chunk: seq<T>, rest: seq<seq<T>>)
    ensures Flatten([chunk] + rest) == chunk + Flatten(rest)
  {
    var all := [chunk] + rest;
    if rest == [] {
      assert all[..0] == [] && all[0] == chunk;
      assert Flatten(all) == Flatten(all[..0]) + chunk;
    } else {
      var before, last := rest[..|rest| - 1], rest[|rest| - 1];
      FlattenFront(chunk, before);
      assert all[..|rest|] == [chunk] + before && all[|rest|] == last;
      assert chunk + Flatten(before) + last == chunk + (Flatten(before) + last);
    }
  }

  lemma {:induction false} TotalOfPrefix<T>(a: seq<T>, b: seq<T>, size: T -> nat)
    requires a <= b
    ensures Total(a, size) <= Total(b, size)
    decreases |b|
  {
    if |a| < |b| {
      TotalOfPrefix(a, b[..|b| - 1], size);
    } else {
      assert a == b;
    }
  }

  lemma EmptyItems<T>(items: seq<T>, chunks: seq<seq<T>>)
    requires Flatten(chunks) == items && forall k :: 0 <= k < |chunks| ==> chunks[k] != []
    ensures items == [] <==> chunks == []
  {
  }

  /** Of two first chunks of the same items, neither is longer. */
  lemma FirstNotLonger<T>(items: seq<T>, size: T -> nat, a: seq<seq<T>>, b: seq<seq<T>>)
    requires a != [] && b != [] && Chunked(items, size, a) && Chunked(items, size, b)
    ensures |a[0]| >= |b[0]|
  {
    assert a == [a[0]] + a[1..] && b == [b[0]] + b[1..];
    FlattenFront(a[0], a[1..]);
    FlattenFront(b[0], b[1..]);
    assert Fits(a[0], size) && Fits(b[0], size);
    if |a[0]| < |b[0]| {
      EmptyItems(Flatten(a[1..]), a[1..]);
      assert a[1..] == [a[1]] + a[2..];
      FlattenFront(a[1], a[2..]);
      assert Fits(a[1], size) && Full(a[0], a[1], size);
      assert items[|a[0]|] == a[1][0] && items[|a[0]|] == b[0][|a[0]|];
      var longer := a[0] + [a[1][0]];
      assert forall i :: 0 <= i < |longer| ==> longer[i] == items[i] && b[0][i] == items[i];
      assert longer <= b[0];
      TotalOne(a[0], a[1][0], size);
      TotalOfPrefix(longer, b[0], size);
    }
  }

  /** The conditions determine the chunks: there is one way to cut the items greedily. */
  lemma {:induction false} ChunkingIsUnique<T>(items: seq<T>, size: T -> nat, a: seq<seq<T>>, b: seq<seq<T>>)
    requires Chunked(items, size, a) && Chunked(items, size, b)
    ensures a == b
    decreases |a|
  {
    assert forall k :: 0 <= k < |a| ==> Fits(a[k], size);
    EmptyItems(items, a);
    EmptyItems(items, b);
    if a != [] {
      FirstNotLonger(items, size, a, b);
      FirstNotLonger(items, size, b, a);
      TailChunked(items, size, a);
      TailChunked(items, size, b);
      ChunkingIsUnique(items[|a[0]|..], size, a[1..], b[1..]);
      assert a == [a[0]] + a[1..] && b == [b[0]] + b[1..];
    }
  }

  lemma TailChunked<T>(items: seq<T>, size: T -> nat, chunks: seq<seq<T>>)
    requires chunks != [] && Chunked(items, size, chunks)
    ensures |chunks[0]| <= |items| && items[..|chunks[0]|] == chunks[0]
    ensures Chunked(items[|chunks[0]|..], size, chunks[1..])
  {
    var rest := chunks[1..];
    assert chunks == [chunks[0]] + rest;
    FlattenFront(chunks[0], rest);
    forall k | 0 <= k < |rest| - 1 ensures Full(rest[k], rest[k + 1], size) {
      assert Full(chunks[k + 1], chunks[k + 2], size);
    }
    forall k | 0 <= k < |rest| ensures Fits(rest[k], size) {
      assert Fits(chunks[k + 1], size);
    }
  }

  method ChunkObjectIdsBySize(objectIds: seq<ObjectId>, sizes: map<ObjectId, nat>)
    returns (r: Result<seq<seq<ObjectId>>>)
    ensures r.Ok? <==> forall id :: id in objectIds ==> id in sizes
    ensures r.Ok? ==> Chunked(objectIds, id => SizeOf(sizes, id), r.value)
  {
    var yielded, chunk, size := [], [], 0;
    ghost var sizeOf := id => SizeOf(sizes, id);
    var i := 0;
    hide Chunked, Total;
    assert Total([], sizeOf) == 0 by { TotalNone(sizeOf); }
    while i < |objectIds|
      invariant 0 <= i <= |objectIds|
      invariant forall k :: 0 <= k < i ==> objectIds[k] in sizes
      invariant Filling(objectIds[..i], sizeOf, yielded, chunk) && size == Total(chunk, sizeOf)
    {
      var objectId := objectIds[i];
      if objectId !in sizes {
        return Err(UnknownSize);
      }
      PushItem(objectIds[..i], sizeOf, yielded, chunk, objectId);
      assert objectIds[..i + 1] == objectIds[..i] + [objectId];
      TotalOne(chunk, objectId, sizeOf);
      if |chunk| > 0 && size + sizes[objectId] > BLOB_BATCH_TARGET_BYTES {
        yielded := yielded + [chunk];
        chunk := [];
        size := 0;
      }
      chunk := chunk + [objectId];
      size := size + sizes[objectId];
      i := i + 1;
      assert [] + [objectId] == [objectId];
    }
    assert objectIds[..i] == objectIds;
    ChunkedNone<ObjectId>(sizeOf);
    if |chunk| > 0 {
      yielded := yielded + [chunk];
    }
    return Ok(yielded);
  }

  function SizeOf(sizes: map<ObjectId, nat>, id: ObjectId): nat {
    if id in sizes then sizes[id] else 0
  }

  lemma {:induction false} FlattenMembers<T>(chunks: seq<seq<T>>, x: T)
    ensures x in Flatten(chunks) <==> exists k :: 0 <= k < |chunks| && x in chunks[k]
  {
    if chunks != [] {
      FlattenMembers(chunks[..|chunks| - 1], x);
    }
  }

  // ----- the output of `git cat-file --batch` -----

  const BLOB: seq<Byte> := [98, 108, 111, 98]
  const MISSING: seq<Byte> := [109, 105, 115, 115, 105, 110, 103]

  function Split(text: seq<Byte>, separator: Byte): (parts: seq<seq<Byte>>)
    ensures parts != []
  {
    var at := IndexOf(text, separator, 0);
    if at == -1 then [text] else [text[..at]] + Split(text[at + 1..], separator)
  }

  /** One object at `offset`: its contents and where the next object starts. `number` is the source's
      conversion of a text to a safe non-negative integer. */
  function ReadObject(output: seq<Byte>, offset: nat, number: seq<Byte> -> Option<nat>)
    : Result<(seq<Byte>, nat)>
  {
    var headerEnd := IndexOf(output, LF, offset);
    if headerEnd < 0 then Err(MissingHeader)
    else
      var parts := Split(output[offset..headerEnd], SPACE);
      if |parts| > 1 && parts[1] == MISSING then Err(MissingObject)
      else if |parts| != 3 || parts[1] != BLOB then Err(NotABlob)
      else if number(parts[2]) == None then Err(InvalidSize)
      else
        var bodyEnd := headerEnd + 1 + number(parts[2]).value;
        if bodyEnd > |output| then Err(TruncatedBody)
        else if bodyEnd >= |output| || output[bodyEnd] != LF then Err(MissingTerminator)
        else Ok((output[headerEnd + 1..bodyEnd], bodyEnd + 1))
  }

  function ReadObjects(
    output: seq<Byte>, ids: seq<ObjectId>, offset: nat, number: seq<Byte> -> Option<nat>,
    blobs: map<ObjectId, seq<Byte>>): Result<map<ObjectId, seq<Byte>>>
    decreases ids
  {
    if ids == [] then Ok(blobs)
    else
      var one := ReadObject(output, offset, number);
      if one.Err? then Err(one.error)
      else ReadObjects(output, ids[1..], one.value.1, number, blobs[ids[0] := one.value.0])
  }

  /** The body of the loop below: one header line, the announced number of bytes, a line end. */
  method ReadGitBlob(output: seq<Byte>, start: nat, number: seq<Byte> -> Option<nat>)
    returns (r: Result<(seq<Byte>, nat)>)
    ensures r == ReadObject(output, start, number)
  {
    hide Split, IndexOf;
    var offset: nat := start;
    var headerEnd := IndexOf(output, LF, offset);
    if headerEnd < 0 {
      return Err(MissingHeader);
    }
    var parts := Split(output[offset..headerEnd], SPACE);
    if |parts| > 1 && parts[1] == MISSING {
      return Err(MissingObject);
    }
    if |parts| != 3 || parts[1] != BLOB {
      return Err(NotABlob);
    }
    var blobSize := number(parts[2]);
    if blobSize == None {
      return Err(InvalidSize);
    }
    var bodyStart := headerEnd + 1;
    var bodyEnd := bodyStart + blobSize.value;
    if bodyEnd > |output| {
      return Err(TruncatedBody);
    }
    offset := bodyEnd;
    if offset >= |output| || output[offset] != LF {
      return Err(MissingTerminator);
    }
    offset := offset + 1;
    return Ok((output[bodyStart..bodyEnd], offset));
  }

  method ReadGitBlobBatch(output: seq<Byte>, objectIds: seq<ObjectId>, number: seq<Byte> -> Option<nat>)
    returns (r: Result<map<ObjectId, seq<Byte>>>)
    ensures r == ReadObjects(output, objectIds, 0, number, map[])
  {
    hide ReadObject;
    var blobs: map<ObjectId, seq<Byte>> := map[];
    var offset: nat := 0;
    var i := 0;
    while i < |objectIds|
      invariant 0 <= i <= |objectIds|
      invariant ReadObjects(output, objectIds, 0, number, map[]) ==
        ReadObjects(output, objectIds[i..], offset, number, blobs)
    {
      assert objectIds[i..][0] == objectIds[i] && objectIds[i..][1..] == objectIds[i + 1..];
      var one := ReadGitBlob(output, offset, number);
      if one.Err? {
        return Err(one.error);
      }
      blobs := blobs[objectIds[i] := one.value.0];
      offset := one.value.1;
      i := i + 1;
    }
    return Ok(blobs);
  }

  // ----- what git writes, and that it is read back -----

  function HeaderOf(id: ObjectId, body: seq<Byte>): seq<Byte> {
    id + [SPACE] + (BLOB + [SPACE] + Decimal(|body|))
  }

  function Written(id: ObjectId, body: seq<Byte>): seq<Byte> {
    HeaderOf(id, body) + [LF] + body + [LF]
  }

  function WrittenAll(ids: seq<ObjectId>, store: map<ObjectId, seq<Byte>>): seq<Byte>
    requires forall id :: id in ids ==> id in store
  {
    if ids == [] then [] else Written(ids[0], store[ids[0]]) + WrittenAll(ids[1..], store)
  }

  /** Object identifiers are hexadecimal: no spaces and no line ends. */
  ghost predicate Plain(id: ObjectId) {
    SPACE !in id && LF !in id
  }

  /** The conversion reads back the numerals of the sizes that occur. */
  ghost predicate ReadsSizes(number: seq<Byte> -> Option<nat>, store: map<ObjectId, seq<Byte>>) {
    forall id :: id in store ==> number(Decimal(|store[id]|)) == Some(|store[id]|)
  }

  lemma SplitOne(head: seq<Byte>, separator: Byte, tail: seq<Byte>)
    requires separator !in head
    ensures Split(head + [separator] + tail, separator) == [head] + Split(tail, separator)
    ensures Split(head, separator) == [head]
  {
    var text := head + [separator] + tail;
    FirstOccurrence(text, 0, head, separator);
    assert text[..|head|] == head && text[|head| + 1..] == tail;
    assert IndexOf(head, separator, 0) == -1;
  }

  lemma PlainHeader(id: ObjectId, body: seq<Byte>)
    requires Plain(id)
    ensures LF !in HeaderOf(id, body) && SPACE !in BLOB && SPACE !in Decimal(|body|)
  {
    hide Decimal;
  }

  lemma SplitHeader(id: ObjectId, body: seq<Byte>)
    requires Plain(id)
    ensures Split(HeaderOf(id, body), SPACE) == [id, BLOB, Decimal(|body|)]
  {
    hide Decimal, Split;
    PlainHeader(id, body);
    SplitOne(id, SPACE, BLOB + [SPACE] + Decimal(|body|));
    SplitOne(BLOB, SPACE, Decimal(|body|));
    SplitOne(Decimal(|body|), SPACE, []);
    assert [id] + ([BLOB] + [Decimal(|body|)]) == [id, BLOB, Decimal(|body|)];
  }

  /** Where the parts of one written object lie. */
  lemma WrittenLayout(output: seq<Byte>, offset: nat, id: ObjectId, body: seq<Byte>)
    requires offset <= |output| && Written(id, body) <= output[offset..]
    ensures var header := offset + |HeaderOf(id, body)|;
      && header + 1 + |body| + 1 == offset + |Written(id, body)| <= |output|
      && output[offset..header] == HeaderOf(id, body) && output[header] == LF
      && output[header + 1..header + 1 + |body|] == body && output[header + 1 + |body|] == LF
  {
    hide HeaderOf;
    var header := HeaderOf(id, body);
    var code := Written(id, body);
    assert output[offset..offset + |code|] == code;
    Piece(output, offset, [], header, [LF] + body + [LF]) by {
      assert code == [] + header + ([LF] + body + [LF]);
    }
    Piece(output, offset, header + [LF], body, [LF]);
    assert code[|header|] == LF && code[|header| + 1 + |body|] == LF;
    assert output[offset..offset + |code|][|header|] == output[offset + |header|];
    assert output[offset..offset + |code|][|header| + 1 + |body|] == output[offset + |header| + 1 + |body|];
  }

  lemma ReadWritten(
    output: seq<Byte>, offset: nat, number: seq<Byte> -> Option<nat>, id: ObjectId, body: seq<Byte>)
    requires Plain(id) && number(Decimal(|body|)) == Some(|body|)
    requires offset <= |output| && Written(id, body) <= output[offset..]
    ensures ReadObject(output, offset, number) == Ok((body, offset + |Written(id, body)|))
  {
    hide Decimal, Split, IndexOf, HeaderOf, Written;
    var header := offset + |HeaderOf(id, body)|;
    SplitHeader(id, body);
    PlainHeader(id, body);
    WrittenLayout(output, offset, id, body);
    FirstOccurrence(output, offset, HeaderOf(id, body), LF);
    assert IndexOf(output, LF, offset) == header;
  }

  // ----- what is read -----

  /** One object in the output: a line of an identifier, "blob" and a size, then that many bytes and a line end. */
  ghost predicate ObjectAt(
    output: seq<Byte>, offset: nat, number: seq<Byte> -> Option<nat>, id: seq<Byte>, size: seq<Byte>, body: seq<Byte>,
    next: nat)
  {
    && offset <= next <= |output| && number(size) == Some(|body|)
    && (forall b :: b in id || b in size ==> b != SPACE && b != LF)
    && output[offset..next] == ObjectText(id, size, body)
  }

  function ObjectText(id: seq<Byte>, size: seq<Byte>, body: seq<Byte>): seq<Byte> {
    HeaderText(id, size) + [LF] + body + [LF]
  }

  function HeaderText(id: seq<Byte>, size: seq<Byte>): seq<Byte> {
    id + [SPACE] + (BLOB + [SPACE] + size)
  }

  /** Three words are those between two spaces. */
  lemma SplitThree(text: seq<Byte>, a: seq<Byte>, b: seq<Byte>, c: seq<Byte>)
    ensures Split(text, SPACE) == [a, b, c] <==>
      text == a + [SPACE] + (b + [SPACE] + c) && SPACE !in a && SPACE !in b && SPACE !in c
  {
    hide IndexOf;
    if SPACE !in a && SPACE !in b && SPACE !in c {
      SplitOne(a, SPACE, b + [SPACE] + c);
      SplitOne(b, SPACE, c);
      SplitOne(c, SPACE, []);
      assert [a] + ([b] + [c]) == [a, b, c];
    }
    if Split(text, SPACE) == [a, b, c] {
      SplitFirst(text);
      var rest := text[|a| + 1..];
      SplitFirst(rest);
      SplitFirst(rest[|b| + 1..]);
    }
  }

  /** The first word, and the words after it. */
  lemma SplitFirst(text: seq<Byte>)
    ensures var words := Split(text, SPACE);
      && SPACE !in words[0] && |words[0]| <= |text|
      && (if |words| == 1 then text == words[0]
          else |words[0]| < |text| && text == words[0] + [SPACE] + text[|words[0]| + 1..] &&
               Split(text[|words[0]| + 1..], SPACE) == words[1..])
  {
    hide IndexOf, Split;
    var at := IndexOf(text, SPACE, 0);
    SplitStep(text);
    if at >= 0 {
      assert text == text[..at] + [SPACE] + text[at + 1..];
      var words := Split(text, SPACE);
      assert words[0] == text[..at] && words[1..] == Split(text[at + 1..], SPACE);
    }
  }

  lemma SplitStep(text: seq<Byte>)
    ensures var at := IndexOf(text, SPACE, 0);
      Split(text, SPACE) == if at == -1 then [text] else [text[..at]] + Split(text[at + 1..], SPACE)
  {
  }

  /** An object is read if and only if it stands there, with what stands there as its contents. */
  lemma ObjectExactly(
    output: seq<Byte>, offset: nat, number: seq<Byte> -> Option<nat>, body: seq<Byte>, next: nat)
    requires offset <= |output|
    ensures ReadObject(output, offset, number) == Ok((body, next)) <==>
      exists id, size :: ObjectAt(output, offset, number, id, size, body, next)
  {
    hide Split, IndexOf, HeaderText;
    if id, size :| ObjectAt(output, offset, number, id, size, body, next) {
      ObjectIsRead(output, offset, number, id, size, body, next);
    }
    if ReadObject(output, offset, number) == Ok((body, next)) {
      var headerEnd := IndexOf(output, LF, offset);
      var header := output[offset..headerEnd];
      var words := Split(header, SPACE);
      assert words == [words[0], BLOB, words[2]];
      assert header == HeaderText(words[0], words[2]) && SPACE !in words[0] && SPACE !in words[2] by {
        SplitThree(header, words[0], BLOB, words[2]);
        HeaderIs(words[0], words[2]);
      }
      assert LF !in header;
      HeaderHas(words[0], words[2], LF);
      ReadIsThere(output, offset, headerEnd, next);
      assert ObjectAt(output, offset, number, words[0], words[2], body, next);
    }
  }

  lemma HeaderIs(id: seq<Byte>, size: seq<Byte>)
    ensures HeaderText(id, size) == id + [SPACE] + (BLOB + [SPACE] + size)
  {
  }

  lemma HeaderHas(id: seq<Byte>, size: seq<Byte>, b: Byte)
    ensures b in HeaderText(id, size) <==> b in id || b in size || b == SPACE || b in BLOB
  {
  }

  lemma ReadIsThere(output: seq<Byte>, offset: nat, headerEnd: nat, next: nat)
    requires offset <= headerEnd && headerEnd + 2 <= next <= |output|
    requires output[headerEnd] == LF && output[next - 1] == LF
    ensures output[offset..next] == output[offset..headerEnd] + [LF] + output[headerEnd + 1..next - 1] + [LF]
  {
  }

  lemma ObjectIsRead(
    output: seq<Byte>, offset: nat, number: seq<Byte> -> Option<nat>, id: seq<Byte>, size: seq<Byte>, body: seq<Byte>,
    next: nat)
    requires ObjectAt(output, offset, number, id, size, body, next)
    ensures ReadObject(output, offset, number) == Ok((body, next))
  {
    hide Split, IndexOf, HeaderText;
    var header, end := HeaderText(id, size), offset + |HeaderText(id, size)|;
    var code := output[offset..next];
    assert |code| == |header| + 1 + |body| + 1;
    assert code[..|header|] == header && code[|header|] == LF;
    assert code[|header| + 1..|code| - 1] == body && code[|code| - 1] == LF;
    assert output[offset..end] == header && output[end] == LF;
    assert output[end + 1..next - 1] == body && output[next - 1] == LF;
    HeaderHas(id, size, LF);
    FirstOccurrence(output, offset, header, LF);
    HeaderIs(id, size);
    SplitThree(header, id, BLOB, size);
  }

  /** The contents of the listed objects. */
  function Contents(store: map<ObjectId, seq<Byte>>, ids: seq<ObjectId>): map<ObjectId, seq<Byte>>
    requires forall id :: id in ids ==> id in store
  {
    map id | id in ids :: store[id]
  }

  lemma ContentsAppend(store: map<ObjectId, seq<Byte>>, a: seq<ObjectId>, b: seq<ObjectId>)
    requires forall id :: id in a || id in b ==> id in store
    ensures Contents(store, a + b) == Contents(store, a) + Contents(store, b)
    ensures Contents(store, []) == map[]
  {
  }

  lemma ContentsOfSame(store: map<ObjectId, seq<Byte>>, a: seq<ObjectId>, b: seq<ObjectId>)
    requires forall id :: id in a <==> id in b
    requires forall id :: id in a ==> id in store
    ensures Contents(store, a) == Contents(store, b)
  {
  }

  function Overlay(
    blobs: map<ObjectId, seq<Byte>>, ids: seq<ObjectId>, store: map<ObjectId, seq<Byte>>)
    : map<ObjectId, seq<Byte>>
    requires forall id :: id in ids ==> id in store
  {
    blobs + Contents(store, ids)
  }

  lemma {:induction false} ReadWrittenAll(
    output: seq<Byte>, offset: nat, number: seq<Byte> -> Option<nat>,
    ids: seq<ObjectId>, store: map<ObjectId, seq<Byte>>, blobs: map<ObjectId, seq<Byte>>)
    requires ReadsSizes(number, store) && forall id :: id in ids ==> id in store && Plain(id)
    requires offset <= |output| && WrittenAll(ids, store) <= output[offset..]
    ensures ReadObjects(output, ids, offset, number, blobs) == Ok(Overlay(blobs, ids, store))
    decreases ids
  {
    hide ReadObject, Written, Overlay;
    if ids == [] {
      assert Overlay(blobs, ids, store) == blobs by { OverlayNone(blobs, store); }
    } else {
      var code := Written(ids[0], store[ids[0]]);
      PrefixParts(output, offset, code, WrittenAll(ids[1..], store));
      ReadWritten(output, offset, number, ids[0], store[ids[0]]);
      ObjectsStep(output, offset, number, ids, blobs, store[ids[0]], offset + |code|);
      ReadWrittenAll(output, offset + |code|, number, ids[1..], store, blobs[ids[0] := store[ids[0]]]);
      OverlayStep(blobs, ids, store);
    }
  }

  lemma OverlayNone(blobs: map<ObjectId, seq<Byte>>, store: map<ObjectId, seq<Byte>>)
    ensures Overlay(blobs, [], store) == blobs
  {
  }

  lemma OverlayStep(blobs: map<ObjectId, seq<Byte>>, ids: seq<ObjectId>, store: map<ObjectId, seq<Byte>>)
    requires ids != [] && forall id :: id in ids ==> id in store
    ensures Overlay(blobs, ids, store) == Overlay(blobs[ids[0] := store[ids[0]]], ids[1..], store)
  {
    var a, b := Overlay(blobs, ids, store), Overlay(blobs[ids[0] := store[ids[0]]], ids[1..], store);
    assert forall id :: id in ids <==> id == ids[0] || id in ids[1..];
    assert a.Keys == b.Keys;
    assert forall id :: id in a ==> a[id] == b[id];
  }

  lemma ObjectsStep(
    output: seq<Byte>, offset: nat, number: seq<Byte> -> Option<nat>, ids: seq<ObjectId>,
    blobs: map<ObjectId, seq<Byte>>, body: seq<Byte>, next: nat)
    requires ids != [] && ReadObject(output, offset, number) == Ok((body, next))
    ensures ReadObjects(output, ids, offset, number, blobs) ==
      ReadObjects(output, ids[1..], next, number, blobs[ids[0] := body])
  {
  }

  /** Reading what git writes for any blobs, contents with line ends and NULs included, returns exactly
      these contents. */
  lemma BatchRoundTrip(
    number: seq<Byte> -> Option<nat>, ids: seq<ObjectId>, store: map<ObjectId, seq<Byte>>,
    trailing: seq<Byte>)
    requires ReadsSizes(number, store) && forall id :: id in ids ==> id in store && Plain(id)
    ensures ReadObjects(WrittenAll(ids, store) + trailing, ids, 0, number, map[]) ==
      Ok(Contents(store, ids))
  {
    var output := WrittenAll(ids, store) + trailing;
    assert output[0..] == output;
    ReadWrittenAll(output, 0, number, ids, store, map[]);
    assert Overlay(map[], ids, store) == Contents(store, ids);
  }

  // ----- all blobs of a chunk of entries -----

  /** Blobs are fetched in batches over the distinct identifiers, in the order of first use; the result
      does not show the batching. */
  method ReadGitBlobs(
    objectIds: seq<ObjectId>, store: map<ObjectId, seq<Byte>>, number: seq<Byte> -> Option<nat>)
    returns (r: Result<map<ObjectId, seq<Byte>>>)
    requires ReadsSizes(number, store) && forall id :: id in store ==> Plain(id)
    ensures (exists id :: id in objectIds && id !in store) ==> r == Err(MissingObject)
    ensures (forall id :: id in objectIds ==> id in store) ==> r == Ok(Contents(store, objectIds))
  {
    if exists id :: id in objectIds && id !in store {
      return Err(MissingObject);
    }
    var distinct := Distinct(objectIds);
    var sizes := map id | id in distinct :: |store[id]|;
    var chunks := ChunkObjectIdsBySize(distinct, sizes);
    var blobs: map<ObjectId, seq<Byte>> := map[];
    ContentsAppend(store, [], []);
    hide Contents, Fits, Full;
    var k := 0;
    while k < |chunks.value|
      invariant 0 <= k <= |chunks.value|
      invariant forall id :: id in Flatten(chunks.value[..k]) ==> id in store
      invariant blobs == Contents(store, Flatten(chunks.value[..k]))
    {
      var chunk := chunks.value[k];
      FlattenPart(chunks.value, k);
      ContentsAppend(store, Flatten(chunks.value[..k]), chunk);
      var batch := FetchBatch(chunk, store, number);
      blobs := blobs + batch;
      k := k + 1;
    }
    assert chunks.value[..k] == chunks.value;
    ContentsOfSame(store, distinct, objectIds);
    return Ok(blobs);
  }

  lemma FlattenPart<T>(chunks: seq<seq<T>>, k: nat)
    requires k < |chunks|
    ensures Flatten(chunks[..k + 1]) == Flatten(chunks[..k]) + chunks[k]
    ensures forall x :: x in chunks[k] ==> x in Flatten(chunks)
  {
    assert chunks[..k + 1] == chunks[..k] + [chunks[k]];
    FlattenOne(chunks[..k], chunks[k]);
    forall x | x in chunks[k] ensures x in Flatten(chunks) {
      FlattenMembers(chunks, x);
    }
  }

  /** One `cat-file` process, given the identifiers on its input. */
  method FetchBatch(chunk: seq<ObjectId>, store: map<ObjectId, seq<Byte>>, number: seq<Byte> -> Option<nat>)
    returns (batch: map<ObjectId, seq<Byte>>)
    requires ReadsSizes(number, store) && forall id :: id in chunk ==> id in store && Plain(id)
    ensures batch == Contents(store, chunk)
  {
    BatchRoundTrip(number, chunk, store, []);
    assert WrittenAll(chunk, store) + [] == WrittenAll(chunk, store);
    var r := ReadGitBlobBatch(WrittenAll(chunk, store), chunk, number);
    batch := r.value;
  }

  function Distinct(ids: seq<ObjectId>): (distinct: seq<ObjectId>)
    ensures forall id :: id in distinct <==> id in ids
    ensures forall i, j :: 0 <= i < j < |distinct| ==> distinct[i] != distinct[j]
  {
    if ids == [] then []
    else
      var before := Distinct(ids[..|ids| - 1]);
      if ids[|ids| - 1] in before then before else before + [ids[|ids| - 1]]
  }
}
