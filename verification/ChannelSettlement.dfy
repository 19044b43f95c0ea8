/** Moving a desktop update channel to a release (script/settle-desktop-update-channel.ts:44-85).

    A call reads the channel's manifest, and if the candidate is not behind, uploads it and reads it back.
    Each request may fail. The upload deletes the manifest and then writes the candidate (lines 235-238),
    so one that fails may have done neither, only the first, or both. */
module ChannelSettlement {
  import opened Basics
  import opened ReleaseVersion

  type Content = string

  /** The version in a manifest, if it is a valid one for the repository. */
  type Reading = Content -> Option<Version>

  /** Where a request failed; `Between` is after the deletion and before the write of an upload. */
  datatype Fault = NoFault | Before | Between | After

  datatype Call = Call(
    version: Option<Version>, candidate: Content, read: Fault, ensured: Fault, upload: Fault, readBack: Fault)

  datatype Kind = Current | Promoted | Superseded
  datatype Code = InvalidVersion | InvalidManifest | ApiFailure | Unsettled
  datatype Result = Settled(kind: Kind, version: Version) | Throws(code: Code)

  // ----- one call -----

  /** What a call does to the channel and answers, without its own steps. */
  ghost function Decision(versionOf: Reading, channel: Option<Content>, c: Call): Result {
    if c.version == None then Throws(InvalidVersion)
    else if versionOf(c.candidate) != c.version then Throws(InvalidManifest)
    else if c.read != NoFault then Throws(ApiFailure)
    else if channel == None then Settled(Promoted, c.version.value)
    else if versionOf(channel.value) == None then Throws(InvalidManifest)
    else if Precedes(c.version.value, versionOf(channel.value).value) then
      Settled(Superseded, versionOf(channel.value).value)
    else if channel == Some(c.candidate) then Settled(Current, c.version.value)
    else Settled(Promoted, c.version.value)
  }

  ghost predicate Promotes(versionOf: Reading, channel: Option<Content>, c: Call) {
    Decision(versionOf, channel, c).Settled? && Decision(versionOf, channel, c).kind == Promoted
  }

  /** The upload request is sent. */
  ghost predicate Uploads(versionOf: Reading, channel: Option<Content>, c: Call) {
    Promotes(versionOf, channel, c) && c.ensured == NoFault
  }

  ghost function Next(versionOf: Reading, channel: Option<Content>, c: Call): Option<Content> {
    if Uploads(versionOf, channel, c) then Replaced(channel, c.candidate, c.upload) else channel
  }

  /** What an upload leaves in the channel. */
  function Replaced(channel: Option<Content>, content: Content, fault: Fault): Option<Content> {
    match fault
    case Before => channel
    case Between => None
    case _ => Some(content)
  }

  ghost function Answer(versionOf: Reading, channel: Option<Content>, c: Call): Result {
    if Promotes(versionOf, channel, c) && (c.ensured != NoFault || c.upload != NoFault || c.readBack != NoFault) then
      Throws(ApiFailure)
    else Decision(versionOf, channel, c)
  }

  class DesktopChannel {
    var manifest: Option<Content>
    var uploads: seq<Content>

    constructor (start: Option<Content>)
      ensures manifest == start && uploads == []
    {
      manifest, uploads := start, [];
    }

    method ReadManifest(fault: Fault) returns (ok: bool, text: Option<Content>)
      ensures ok == (fault == NoFault) && (ok ==> text == manifest)
    {
      ok, text := fault == NoFault, if fault == NoFault then manifest else None;
    }

    method UploadManifest(content: Content, fault: Fault) returns (ok: bool)
      modifies this
      ensures ok == (fault == NoFault) && uploads == old(uploads) + [content]
      ensures manifest == Replaced(old(manifest), content, fault)
    {
      ok := fault == NoFault;
      uploads := uploads + [content];
      if fault == Before {
        return;
      }
      manifest := None;
      if fault == Between {
        return;
      }
      manifest := Some(content);
    }

    method Settle(versionOf: Reading, c: Call) returns (r: Result)
      modifies this
      ensures manifest == Next(versionOf, old(manifest), c)
      ensures r == Answer(versionOf, old(manifest), c)
      ensures uploads == old(uploads) + if Uploads(versionOf, old(manifest), c) then [c.candidate] else []
    {
      if c.version == None {
        return Throws(InvalidVersion);
      }
      var version := c.version.value;
      var candidate := versionOf(c.candidate);
      if candidate == None {
        return Throws(InvalidManifest);
      }
      if candidate.value != version {
        return Throws(InvalidManifest);
      }
      var ok, currentText := ReadManifest(c.read);
      if !ok {
        return Throws(ApiFailure);
      }
      if currentText.Some? {
        var current := versionOf(currentText.value);
        if current == None {
          return Throws(InvalidManifest);
        }
        CompareIsPrecedence(current.value, version);
        if Compare(current.value, version) > 0 {
          return Settled(Superseded, current.value);
        }
        if current.value == version && currentText.value == c.candidate {
          return Settled(Current, version);
        }
      }
      if c.ensured != NoFault {
        return Throws(ApiFailure);
      }
      ok := UploadManifest(c.candidate, c.upload);
      if !ok {
        return Throws(ApiFailure);
      }
      var settledText;
      ok, settledText := ReadManifest(c.readBack);
      if !ok {
        return Throws(ApiFailure);
      }
      if settledText == None {
        return Throws(Unsettled);
      }
      if versionOf(settledText.value) == None {
        return Throws(InvalidManifest);
      }
      if settledText.value != c.candidate {
        return Throws(Unsettled);
      }
      return Settled(Promoted, version);
    }
  }

  // ----- serial runs -----

  ghost function Run(versionOf: Reading, channel: Option<Content>, calls: seq<Call>): Option<Content>
    decreases calls
  {
    if calls == [] then channel else Run(versionOf, Next(versionOf, channel, calls[0]), calls[1..])
  }

  /** What is uploaded in a run, in order. */
  ghost function Uploaded(versionOf: Reading, channel: Option<Content>, calls: seq<Call>): seq<Content>
    decreases calls
  {
    if calls == [] then []
    else
      (if Uploads(versionOf, channel, calls[0]) then [calls[0].candidate] else [])
      + Uploaded(versionOf, Next(versionOf, channel, calls[0]), calls[1..])
  }

  /** The channel points to a valid manifest of at least this version. */
  ghost predicate AtLeast(versionOf: Reading, channel: Option<Content>, v: Version) {
    channel.Some? && versionOf(channel.value).Some? && AtMost(v, versionOf(channel.value).value)
  }

  /** The call's upload is sent and cut between deletion and write. */
  ghost predicate Cut(versionOf: Reading, channel: Option<Content>, c: Call) {
    Uploads(versionOf, channel, c) && c.upload == Between
  }

  ghost predicate NeverCut(versionOf: Reading, channel: Option<Content>, calls: seq<Call>)
    decreases calls
  {
    calls != [] ==>
      !Cut(versionOf, channel, calls[0]) && NeverCut(versionOf, Next(versionOf, channel, calls[0]), calls[1..])
  }

  /** The bound holds before and after each of the calls. */
  ghost predicate AtLeastThroughout(versionOf: Reading, channel: Option<Content>, calls: seq<Call>, v: Version)
    decreases calls
  {
    AtLeast(versionOf, channel, v) &&
    (calls != [] ==> AtLeastThroughout(versionOf, Next(versionOf, channel, calls[0]), calls[1..], v))
  }

  lemma NextKeepsBound(versionOf: Reading, channel: Option<Content>, c: Call, v: Version)
    requires AtLeast(versionOf, channel, v)
    ensures AtLeast(versionOf, Next(versionOf, channel, c), v) <==> !Cut(versionOf, channel, c)
  {
    hide Precedes;
    ComparesPrecedence();
  }

  /** Over serial calls with any failures, a channel never goes back in precedence if and only if no upload
      is cut between deletion and write. */
  lemma {:induction false} ChannelNeverGoesBack(
    versionOf: Reading, channel: Option<Content>, calls: seq<Call>, v: Version)
    requires AtLeast(versionOf, channel, v)
    ensures AtLeastThroughout(versionOf, channel, calls, v) <==> NeverCut(versionOf, channel, calls)
    ensures NeverCut(versionOf, channel, calls) ==> AtLeast(versionOf, Run(versionOf, channel, calls), v)
    decreases calls
  {
    if calls != [] {
      NextKeepsBound(versionOf, channel, calls[0], v);
      if !Cut(versionOf, channel, calls[0]) {
        ChannelNeverGoesBack(versionOf, Next(versionOf, channel, calls[0]), calls[1..], v);
      } else {
        assert !AtLeastThroughout(versionOf, Next(versionOf, channel, calls[0]), calls[1..], v);
      }
    }
  }

  /** After a cut upload the next clean call is promoted whatever its version: the channel then holds its
      candidate, and has gone back exactly if that is behind what it held before. */
  lemma CutLetsAnythingIn(versionOf: Reading, channel: Option<Content>, cut: Call, c: Call)
    requires Cut(versionOf, channel, cut) && Clean(versionOf, c)
    ensures var empty := Next(versionOf, channel, cut);
      empty == None && Answer(versionOf, empty, c) == Settled(Promoted, c.version.value) &&
      Next(versionOf, empty, c) == Some(c.candidate)
    ensures channel.Some? ==>
      (AtLeast(versionOf, Run(versionOf, channel, [cut, c]), versionOf(channel.value).value) <==>
        AtMost(versionOf(channel.value).value, c.version.value))
  {
    assert [cut, c][1..] == [c] && [c][1..] == [];
    assert Run(versionOf, Next(versionOf, channel, cut), [c]) == Next(versionOf, Next(versionOf, channel, cut), c);
  }

  /** There are such calls: a channel at 2.0.0 whose upload of 3.0.0 is cut goes back to 1.0.0. */
  lemma CutUploadGoesBack()
    ensures exists versionOf: Reading, channel, cut, c ::
      ValidChannel(versionOf, channel) && channel.Some? && Cut(versionOf, channel, cut) && Clean(versionOf, c) &&
      !AtLeast(versionOf, Run(versionOf, channel, [cut, c]), versionOf(channel.value).value)
  {
    hide Precedes;
    ComparesPrecedence();
    var versionOf: Reading := text =>
      if text == "1" then Some(Version(1, 0, 0, false))
      else if text == "2" then Some(Version(2, 0, 0, false))
      else Some(Version(3, 0, 0, false));
    var cut := Call(Some(Version(3, 0, 0, false)), "3", NoFault, NoFault, Between, NoFault);
    var c := Call(Some(Version(1, 0, 0, false)), "1", NoFault, NoFault, NoFault, NoFault);
    CutLetsAnythingIn(versionOf, Some("2"), cut, c);
    assert ValidChannel(versionOf, Some("2")) && Cut(versionOf, Some("2"), cut) && Clean(versionOf, c);
    assert !AtLeast(versionOf, Run(versionOf, Some("2"), [cut, c]), versionOf(Some("2").value).value);
  }

  /** Nor is anything older uploaded by a call after them. */
  lemma UploadsNeverGoBack(versionOf: Reading, channel: Option<Content>, calls: seq<Call>, c: Call, v: Version)
    requires AtLeast(versionOf, channel, v) && NeverCut(versionOf, channel, calls)
    requires Uploads(versionOf, Run(versionOf, channel, calls), c)
    ensures AtLeast(versionOf, Some(c.candidate), v)
  {
    hide Precedes;
    ComparesPrecedence();
    ChannelNeverGoesBack(versionOf, channel, calls, v);
  }

  /** A call with its own valid candidate, and no fault. */
  ghost predicate Clean(versionOf: Reading, c: Call) {
    && c.version.Some? && versionOf(c.candidate) == c.version
    && c.read == c.ensured == c.upload == c.readBack == NoFault
  }

  ghost predicate ValidChannel(versionOf: Reading, channel: Option<Content>) {
    channel.Some? ==> versionOf(channel.value).Some?
  }

  ghost predicate AboveAll(versionOf: Reading, channel: Option<Content>, calls: seq<Call>) {
    forall k :: 0 <= k < |calls| ==> calls[k].version.Some? && AtLeast(versionOf, channel, calls[k].version.value)
  }

  /** The channel holds what it held at the start, or the candidate of one of the calls. */
  ghost predicate FromCalls(channel: Option<Content>, start: Option<Content>, calls: seq<Call>) {
    channel == start || exists k :: 0 <= k < |calls| && channel == Some(calls[k].candidate)
  }

  /** Without faults the channel ends at the maximum of what it held and all candidates: it is one of
      them, and none of them is above it. */
  lemma {:induction false} ChannelEndsAtMaximum(versionOf: Reading, channel: Option<Content>, calls: seq<Call>)
    requires ValidChannel(versionOf, channel) && forall k :: 0 <= k < |calls| ==> Clean(versionOf, calls[k])
    ensures AboveAll(versionOf, Run(versionOf, channel, calls), calls)
    ensures FromCalls(Run(versionOf, channel, calls), channel, calls)
    ensures channel.Some? ==> AtLeast(versionOf, Run(versionOf, channel, calls), versionOf(channel.value).value)
    decreases calls
  {
    hide Precedes;
    ComparesPrecedence();
    if calls != [] {
      var next := Next(versionOf, channel, calls[0]);
      CleanStep(versionOf, channel, calls[0]);
      ChannelEndsAtMaximum(versionOf, next, calls[1..]);
      ChannelNeverGoesBack(versionOf, next, calls[1..], calls[0].version.value);
      if channel.Some? {
        ChannelNeverGoesBack(versionOf, channel, calls, versionOf(channel.value).value);
      }
      var end := Run(versionOf, channel, calls);
      assert forall k :: 0 < k < |calls| ==> calls[k] == calls[1..][k - 1];
      assert end == next == Some(calls[0].candidate) ==> FromCalls(end, channel, calls);
    }
  }

  lemma CleanStep(versionOf: Reading, channel: Option<Content>, c: Call)
    requires ValidChannel(versionOf, channel) && Clean(versionOf, c)
    ensures var next := Next(versionOf, channel, c);
      ValidChannel(versionOf, next) && AtLeast(versionOf, next, c.version.value) &&
      (next == channel || next == Some(c.candidate))
    ensures Answer(versionOf, channel, c).Settled?
  {
  }

  function Repeat(c: Call, n: nat): seq<Call> {
    if n == 0 then [] else [c] + Repeat(c, n - 1)
  }

  /** A call that promoted its candidate, or found it current, leaves it in the channel; said again any
      number of times, with no fault in reading, it uploads nothing. */
  lemma {:induction false} RepeatWritesNothing(
    versionOf: Reading, channel: Option<Content>, c: Call, again: Call, n: nat)
    requires Answer(versionOf, channel, c).Settled? && Answer(versionOf, channel, c).kind != Superseded
    requires again == c.(read := NoFault)
    ensures var next := Next(versionOf, channel, c);
      next == Some(c.candidate) && Answer(versionOf, next, again) == Settled(Current, c.version.value) &&
      Uploaded(versionOf, next, Repeat(again, n)) == [] && Run(versionOf, next, Repeat(again, n)) == next
    decreases n
  {
    if n > 0 {
      RepeatWritesNothing(versionOf, channel, c, again, n - 1);
      assert Repeat(again, n)[1..] == Repeat(again, n - 1);
    }
  }

  /** Whatever an answer says is so: superseded by what the channel holds, or settled on the candidate. */
  lemma AnswerHolds(versionOf: Reading, channel: Option<Content>, c: Call)
    requires Answer(versionOf, channel, c).Settled?
    ensures var r, next := Answer(versionOf, channel, c), Next(versionOf, channel, c);
      next.Some? && versionOf(next.value) == Some(r.version) &&
      (if r.kind == Superseded then next == channel && Precedes(c.version.value, r.version)
       else next == Some(c.candidate) && Some(r.version) == c.version)
  {
  }

  /** A call is refused as invalid exactly for an input that is no version, a candidate of another version,
      or a channel whose manifest is not valid; and then it writes nothing. */
  lemma InvalidIsRefused(versionOf: Reading, channel: Option<Content>, c: Call)
    ensures Answer(versionOf, channel, c) == Throws(InvalidVersion) <==> c.version == None
    ensures Answer(versionOf, channel, c) == Throws(InvalidManifest) <==>
      c.version.Some? &&
      (versionOf(c.candidate) != c.version || (c.read == NoFault && !ValidChannel(versionOf, channel)))
    ensures Answer(versionOf, channel, c) in {Throws(InvalidVersion), Throws(InvalidManifest)} ==>
      !Uploads(versionOf, channel, c) && Next(versionOf, channel, c) == channel
  {
    hide Precedes;
  }

  /** However the calls before it went, a call with no fault settles, on a version no lower than its own. */
  lemma {:induction false} CleanCallAlwaysSettles(
    versionOf: Reading, channel: Option<Content>, calls: seq<Call>, c: Call)
    requires ValidChannel(versionOf, channel) && Clean(versionOf, c)
    ensures var last := Run(versionOf, channel, calls);
      Answer(versionOf, last, c).Settled? && AtLeast(versionOf, Next(versionOf, last, c), c.version.value)
    decreases calls
  {
    if calls != [] {
      CleanCallAlwaysSettles(versionOf, Next(versionOf, channel, calls[0]), calls[1..], c);
    }
  }

  // ----- calls that overlap -----

  /** Two calls that both decide before either uploads. */
  ghost function Overlapped(versionOf: Reading, channel: Option<Content>, first: Call, second: Call): Option<Content> {
    var afterFirst := Next(versionOf, channel, first);
    if Uploads(versionOf, channel, second) then Replaced(afterFirst, second.candidate, second.upload) else afterFirst
  }

  /** Without serial calls the channel can go back: two calls without faults that overlap do so exactly
      when both candidates would be promoted and the one uploaded last is behind. */
  lemma OverlapGoesBackExactly(versionOf: Reading, channel: Option<Content>, first: Call, second: Call)
    requires ValidChannel(versionOf, channel) && Clean(versionOf, first) && Clean(versionOf, second)
    ensures AtLeast(versionOf, Overlapped(versionOf, channel, first, second), first.version.value) <==>
      !(Promotes(versionOf, channel, second) && Precedes(second.version.value, first.version.value))
  {
    hide Precedes;
    ComparesPrecedence();
  }

  lemma OverlapGoesBack()
    ensures exists versionOf: Reading, first, second ::
      Clean(versionOf, first) && Clean(versionOf, second) &&
      !AtLeast(versionOf, Overlapped(versionOf, None, first, second), first.version.value)
  {
    hide Precedes;
    ComparesPrecedence();
    var versionOf: Reading := text =>
      if text == "new" then Some(Version(2, 0, 0, false))
      else if text == "old" then Some(Version(1, 0, 0, false))
      else None;
    var first := Call(Some(Version(2, 0, 0, false)), "new", NoFault, NoFault, NoFault, NoFault);
    var second := Call(Some(Version(1, 0, 0, false)), "old", NoFault, NoFault, NoFault, NoFault);
    assert Clean(versionOf, first) && Clean(versionOf, second);
    OverlapGoesBackExactly(versionOf, None, first, second);
  }
}
