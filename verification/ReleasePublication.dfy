/** Workflow runs race to publish one release through the shared GitHub store
    (script/verify-release-identity.ts:351-464).

    Every step below is one request, or something the store or a stranger does between two
    requests; a behaviour is any interleaving of such steps. Responses may be lost, a created draft
    may stay invisible for any time, and drafts may be created or opened by strangers. Bodies are
    immutable and nothing is deleted. Once the inventory has a full page, a record that becomes visible
    is listed in front of the records of the same tag that were visible before it. */
module ReleasePublication {
  import opened Basics
  import opened ReleaseInventory

  /** Reads after a create: one for each of the delays 0, 250, 500, 1000, 2000 and 4000 ms. */
  const READ_ATTEMPTS: nat := 6

  datatype Mode = Claim | Verify | Settle

  /** Why a scan is being made. */
  datatype Goal = FirstRead | AfterCreate(created: bool, attempt: nat) | AfterPatch(ok: bool)

  datatype Outcome =
    | Claimed(release: Release)
    | Owned(release: Release)
    | Settled(release: Release)
    | Failed(error: Error)

  datatype Phase =
    | Scanning(scan: Scan, goal: Goal)
    | Creating
    | Patching(target: Release)
    | Done(outcome: Outcome)

  datatype Run = Run(mode: Mode, input: Input, phase: Phase, creates: nat)

  /** 201 with a clean exit, 422, or anything else, a lost response included. */
  datatype CreateReply = Created | Unprocessable | OtherReply

  datatype State = State(
    visible: seq<Release>,        // the inventory, newest first
    hidden: map<int, Release>,    // created, not yet listed
    nextID: int,
    runs: map<int, Run>)

  datatype Action =
    | Begin(p: int, mode: Mode, input: Input)
    | ReadPage(p: int, ok: bool)
    | Create(p: int, applied: bool, reply: CreateReply, notes: seq<Owner>)
    | Patch(p: int, applied: bool, at: nat, ok: bool)
    | StrangerCreates(release: Release)
    | StrangerOpens(at: nat)
    | Reveal(id: int, at: nat)

  // ----- the steps of one run -----

  function DraftOutcome(r: Release, created: bool): Outcome {
    if !r.draft then Failed(NotDraft) else if created then Claimed(r) else Owned(r)
  }

  /** What a run does once a scan has reached the end of the inventory. */
  function AfterScan(mode: Mode, input: Input, goal: Goal, found: Option<Release>): Phase {
    var read := Judge(found, input);
    match goal
    case FirstRead =>
      if mode == Claim && read == Err(Missing) then Creating
      else if read.Err? then Done(Failed(read.error))
      else if mode != Settle then Done(DraftOutcome(read.value, false))
      else if !read.value.draft then Done(Settled(read.value))
      else Patching(read.value)
    case AfterCreate(created, attempt) =>
      if read == Err(Missing) then
        if attempt + 1 < READ_ATTEMPTS then Scanning(START, AfterCreate(created, attempt + 1))
        else Done(Failed(if created then Missing else ApiFailure))
      else if read.Err? then Done(Failed(read.error))
      else Done(DraftOutcome(read.value, created))
    case AfterPatch(ok) =>
      if read.Err? then Done(Failed(read.error))
      else if !read.value.draft then Done(Settled(read.value))
      else Done(Failed(if ok then Invalid else ApiFailure))
  }

  function AfterPage(run: Run, page: seq<Release>): Phase
    requires run.phase.Scanning?
  {
    match Absorb(run.phase.scan, run.input.tag, page)
    case More(scan) => Scanning(scan, run.phase.goal)
    case Complete(found) => AfterScan(run.mode, run.input, run.phase.goal, found)
    case Reject => Done(Failed(Invalid))
  }

  function AfterReply(reply: CreateReply): Phase {
    if reply == OtherReply then Done(Failed(ApiFailure))
    else Scanning(START, AfterCreate(reply == Created, 0))
  }

  function Insert<T>(s: seq<T>, at: nat, x: T): (r: seq<T>)
    requires at <= |s|
    ensures |r| == |s| + 1
  {
    s[..at] + [x] + s[at..]
  }

  /** A step that runs, the store and strangers can take, wherever a record becomes visible. */
  ghost predicate CanHappen(s: State, a: Action) {
    match a
    case Begin(p, _, _) => p !in s.runs
    case ReadPage(p, _) => p in s.runs && s.runs[p].phase.Scanning?
    case Create(p, applied, reply, _) =>
      p in s.runs && s.runs[p].phase.Creating? && (reply == Created ==> applied)
    case Patch(p, applied, at, _) =>
      p in s.runs && s.runs[p].phase.Patching? &&
      (applied ==> at < |s.visible| && s.visible[at].id == s.runs[p].phase.target.id)
    case StrangerCreates(_) => true
    case StrangerOpens(at) => at < |s.visible|
    case Reveal(id, at) => id in s.hidden && at <= |s.visible|
  }

  /** A record arrives in front of the visible ones of its tag, or while the inventory is one page. */
  ghost predicate InOrder(visible: seq<Release>, at: nat, arrival: Release) {
    |visible| < PAGE_SIZE || forall k :: 0 <= k < at && k < |visible| ==> visible[k].tag != arrival.tag
  }

  ghost predicate Enabled(s: State, a: Action) {
    CanHappen(s, a) && (a.Reveal? ==> InOrder(s.visible, a.at, s.hidden[a.id]))
  }

  /** The state after a step. */
  function Apply(s: State, a: Action): State
    requires CanHappen(s, a)
  {
    match a
    case Begin(p, mode, input) =>
      s.(runs := s.runs[p := Run(mode, input, Scanning(START, FirstRead), 0)])
    case ReadPage(p, ok) =>
      var run := s.runs[p];
      var phase := if ok then AfterPage(run, PageOf(s.visible, run.phase.scan.page))
                   else Done(Failed(ApiFailure));
      s.(runs := s.runs[p := run.(phase := phase)])
    case Create(p, applied, reply, notes) =>
      var run := s.runs[p];
      var draft := Release(s.nextID, run.input.tag, [run.input.owner] + notes, true,
                           run.input.prerelease, true);
      var s := if applied then Store(s, draft) else s;
      s.(runs := s.runs[p := run.(phase := AfterReply(reply), creates := run.creates + 1)])
    case Patch(p, applied, at, ok) =>
      var run := s.runs[p];
      var visible := if applied then
          s.visible[at := s.visible[at].(draft := false, prerelease := run.input.prerelease)]
        else s.visible;
      s.(visible := visible, runs := s.runs[p := run.(phase := Scanning(START, AfterPatch(ok)))])
    case StrangerCreates(release) => Store(s, release)
    case StrangerOpens(at) => s.(visible := s.visible[at := s.visible[at].(draft := false)])
    case Reveal(id, at) =>
      s.(visible := Insert(s.visible, at, s.hidden[id]), hidden := s.hidden - {id})
  }

  function Store(s: State, release: Release): State {
    s.(hidden := s.hidden[s.nextID := release.(id := s.nextID)], nextID := s.nextID + 1)
  }

  // ----- behaviours -----

  datatype Behaviour = Behaviour(states: seq<State>, actions: seq<Action>)

  ghost predicate Initial(s: State) {
    s.runs == map[] && IDs(s)
  }

  ghost predicate Possible(b: Behaviour) {
    && |b.states| == |b.actions| + 1
    && Initial(b.states[0])
    && forall i :: 0 <= i < |b.actions| ==>
         Enabled(b.states[i], b.actions[i]) && b.states[i + 1] == Apply(b.states[i], b.actions[i])
  }

  function Last(b: Behaviour): State
    requires |b.states| > 0
  {
    b.states[|b.states| - 1]
  }

  function Then(b: Behaviour, a: Action): Behaviour
    requires |b.states| > 0 && CanHappen(Last(b), a)
  {
    Behaviour(b.states + [Apply(Last(b), a)], b.actions + [a])
  }

  lemma Extended(b: Behaviour, a: Action) returns (c: Behaviour)
    requires Possible(b) && Enabled(Last(b), a)
    ensures Possible(c) && b.states <= c.states && c.states[0] == b.states[0] && Last(c) == Apply(Last(b), a)
  {
    c := Then(b, a);
  }

  lemma Start(s: State) returns (b: Behaviour)
    requires Initial(s)
    ensures Possible(b) && b.states[0] == s == Last(b)
  {
    b := Behaviour([s], []);
  }

  ghost predicate Success(phase: Phase) {
    phase.Done? && !phase.outcome.Failed?
  }

  ghost predicate Succeeded(s: State, p: int) {
    p in s.runs && Success(s.runs[p].phase)
  }

  // ----- the invariant -----

  /** Release identifiers are never given twice. */
  ghost predicate IDs(s: State) {
    && (forall i, j :: 0 <= i < j < |s.visible| ==> s.visible[i].id != s.visible[j].id)
    && (forall i :: 0 <= i < |s.visible| ==> s.visible[i].id < s.nextID && s.visible[i].id !in s.hidden)
    && (forall id :: id in s.hidden ==> id < s.nextID && s.hidden[id].id == id)
  }

  /** `now` is a later view of the record that was read as `read`. */
  ghost predicate Shows(now: Release, read: Release) {
    now.id == read.id && now.tag == read.tag && now.receipts == read.receipts &&
    now.prerelease == read.prerelease && now.wellFormed == read.wellFormed && (now.draft ==> read.draft)
  }

  /** `r` is listed at `j`, and every other record of its tag is in front, or not read yet. */
  ghost predicate Anchors(visible: seq<Release>, r: Release, j: int, unread: int) {
    0 <= j < |visible| && Shows(visible[j], r) &&
    forall k :: 0 <= k < |visible| && visible[k].tag == r.tag && k != j ==> k < j || k >= unread
  }

  ghost predicate Listed(visible: seq<Release>, r: Release, j: int) {
    0 <= j < |visible| && Shows(visible[j], r)
  }

  /** `r` is the last listed record of its tag. */
  ghost predicate LastOfTag(visible: seq<Release>, r: Release, j: int) {
    Listed(visible, r, j) && forall k :: 0 <= k < |visible| && visible[k].tag == r.tag && k != j ==> k < j
  }

  /** The run holds a listed record that is its own. */
  ghost predicate Holds(visible: seq<Release>, input: Input, r: Release) {
    r.wellFormed && r.tag == input.tag && r.receipts == [input.owner] && r.prerelease == input.prerelease &&
    exists j :: Listed(visible, r, j)
  }

  ghost predicate ScanInv(visible: seq<Release>, input: Input, scan: Scan) {
    && scan.page * PAGE_SIZE <= |visible| && (scan.page == 0 ==> scan.found == None)
    && (scan.found.Some? ==> scan.found.value.tag == input.tag)
    && (scan.found.Some? ==> exists j :: Anchors(visible, scan.found.value, j, scan.page * PAGE_SIZE))
  }

  ghost predicate RunInv(visible: seq<Release>, run: Run) {
    match run.phase
    case Scanning(scan, goal) =>
      && ScanInv(visible, run.input, scan)
      && run.creates == (if goal.AfterCreate? then 1 else 0)
      && (goal.AfterCreate? ==> run.mode == Claim)
      && (goal.AfterPatch? ==> run.mode == Settle)
    case Creating => run.mode == Claim && run.creates == 0
    case Patching(target) =>
      run.mode == Settle && run.creates == 0 && Holds(visible, run.input, target)
    case Done(outcome) =>
      && run.creates <= 1 && (run.creates == 1 ==> run.mode == Claim)
      && (!outcome.Failed? ==> Holds(visible, run.input, outcome.release))
      && (outcome.Claimed? ==> run.creates == 1)
      && (outcome.Claimed? || outcome.Owned? ==> run.mode != Settle && outcome.release.draft)
      && (outcome.Settled? ==> run.mode == Settle && !outcome.release.draft)
  }

  /** A scan that cannot end with a record other than `r`, which is listed at `j`: it has `r` in hand, or
      has not reached it, or will find nothing, as `r` is the last of the tag. */
  ghost predicate Waits(visible: seq<Release>, r: Release, scan: Scan, j: int) {
    Listed(visible, r, j) &&
    ((scan.found.Some? && scan.found.value.id == r.id) || scan.page * PAGE_SIZE <= j ||
     (scan.found.None? && LastOfTag(visible, r, j)))
  }

  /** Once a run has succeeded with `r`, another run of the tag can only succeed with `r`. */
  ghost predicate Follows(visible: seq<Release>, r: Release, run: Run) {
    run.input.tag == r.tag ==>
      match run.phase
      case Scanning(scan, _) => exists j :: Waits(visible, r, scan, j)
      case Done(outcome) => outcome.Failed? || outcome.release.id == r.id
      case _ => true
  }

  ghost predicate AllFollow(s: State, r: Release) {
    forall q :: q in s.runs ==> Follows(s.visible, r, s.runs[q])
  }

  ghost predicate RunsInv(s: State) {
    forall p :: p in s.runs ==> RunInv(s.visible, s.runs[p])
  }

  ghost predicate OneHeld(s: State) {
    forall p :: Succeeded(s, p) ==> AllFollow(s, s.runs[p].phase.outcome.release)
  }

  ghost predicate Inv(s: State) {
    IDs(s) && RunsInv(s) && OneHeld(s)
  }

  // ----- what one page read keeps -----

  /** `j` is the one index listed on page `k` that carries the tag. */
  ghost predicate OnPage(visible: seq<Release>, tag: Tag, k: nat, j: int) {
    k * PAGE_SIZE <= j < (k + 1) * PAGE_SIZE && j < |visible| && visible[j].tag == tag &&
    forall i :: k * PAGE_SIZE <= i < (k + 1) * PAGE_SIZE && i < |visible| && visible[i].tag == tag ==> i == j
  }

  lemma PageSingle(visible: seq<Release>, tag: Tag, k: nat) returns (j: int)
    requires |Matching(PageOf(visible, k), tag)| == 1
    ensures OnPage(visible, tag, k, j) && Matching(PageOf(visible, k), tag) == [visible[j]]
  {
    var page := PageOf(visible, k);
    var at := SingleMatch(page, tag);
    j := at + k * PAGE_SIZE;
    forall i | k * PAGE_SIZE <= i < (k + 1) * PAGE_SIZE && i < |visible| && visible[i].tag == tag
      ensures i == j
    {
      assert page[i - k * PAGE_SIZE].tag == tag;
    }
  }

  lemma PageEmpty(visible: seq<Release>, tag: Tag, k: nat, i: int)
    requires |Matching(PageOf(visible, k), tag)| == 0
    requires k * PAGE_SIZE <= i < (k + 1) * PAGE_SIZE && i < |visible|
    ensures visible[i].tag != tag
  {
    assert PageOf(visible, k)[i - k * PAGE_SIZE] == visible[i];
    assert visible[i] in PageOf(visible, k);
  }

  lemma AbsorbKeepsAnchor(visible: seq<Release>, input: Input, scan: Scan)
    requires ScanInv(visible, input, scan)
    ensures match Absorb(scan, input.tag, PageOf(visible, scan.page))
      case More(next) => ScanInv(visible, input, next)
      case Complete(found) => found.Some? ==>
        found.value.tag == input.tag && exists j :: LastOfTag(visible, found.value, j)
      case Reject => true
  {
    var k := scan.page;
    var matches := Matching(PageOf(visible, k), input.tag);
    if |matches| == 1 && scan.found.None? {
      var i := PageSingle(visible, input.tag, k);
      assert Anchors(visible, matches[0], i, (k + 1) * PAGE_SIZE);
      if |PageOf(visible, k)| < PAGE_SIZE {
        assert LastOfTag(visible, matches[0], i);
      }
    } else if |matches| == 0 && scan.found.Some? {
      var r := scan.found.value;
      var j :| Anchors(visible, r, j, k * PAGE_SIZE);
      forall i | k * PAGE_SIZE <= i < (k + 1) * PAGE_SIZE && i < |visible|
        ensures visible[i].tag != input.tag
      {
        PageEmpty(visible, input.tag, k, i);
      }
      assert Anchors(visible, r, j, (k + 1) * PAGE_SIZE);
      if |PageOf(visible, k)| < PAGE_SIZE {
        assert LastOfTag(visible, r, j);
      }
    }
  }

  lemma ReadKeepsRunInv(visible: seq<Release>, run: Run)
    requires run.phase.Scanning? && RunInv(visible, run)
    ensures RunInv(visible, run.(phase := AfterPage(run, PageOf(visible, run.phase.scan.page))))
  {
    hide Anchors, Shows, PageOf, Absorb, Matching;
    AbsorbKeepsAnchor(visible, run.input, run.phase.scan);
    LastOfTagIsListed(visible);
  }

  lemma LastOfTagIsListed(visible: seq<Release>)
    ensures forall r, j :: LastOfTag(visible, r, j) ==> Listed(visible, r, j)
  {
  }

  /** What a run succeeds with is the record that its last scan found, the last listed of the tag. */
  lemma SuccessIsFound(visible: seq<Release>, run: Run)
    requires run.phase.Scanning? && RunInv(visible, run)
    requires Success(AfterPage(run, PageOf(visible, run.phase.scan.page)))
    ensures var r := AfterPage(run, PageOf(visible, run.phase.scan.page)).outcome.release;
      && Absorb(run.phase.scan, run.input.tag, PageOf(visible, run.phase.scan.page)) == Complete(Some(r))
      && r.tag == run.input.tag && exists j :: LastOfTag(visible, r, j)
  {
    hide Anchors, Shows, PageOf, Absorb, Matching, LastOfTag;
    AbsorbKeepsAnchor(visible, run.input, run.phase.scan);
  }

  // ----- what one page read keeps of the agreement on one record -----

  lemma AbsorbKeepsWaits(visible: seq<Release>, r: Release, scan: Scan, j: int)
    requires Waits(visible, r, scan, j)
    ensures match Absorb(scan, r.tag, PageOf(visible, scan.page))
      case More(next) => Waits(visible, r, next, j)
      case Complete(found) => found.Some? ==> found.value.id == r.id
      case Reject => true
  {
    hide Matching, PageOf;
    var k := scan.page;
    var matches := Matching(PageOf(visible, k), r.tag);
    assert |PageOf(visible, k)| >= PAGE_SIZE <==> |visible| >= (k + 1) * PAGE_SIZE by { PageLength(visible, k); }
    if |matches| == 0 {
      if k * PAGE_SIZE <= j < (k + 1) * PAGE_SIZE {
        PageEmpty(visible, r.tag, k, j);
      }
    } else if |matches| == 1 {
      var i := PageSingle(visible, r.tag, k);
    }
  }

  lemma PageLength(visible: seq<Release>, k: nat)
    ensures |PageOf(visible, k)| >= PAGE_SIZE <==> |visible| >= (k + 1) * PAGE_SIZE
  {
  }

  /** When a scan ends with the last listed record of the tag, every other scan of the tag waits for it. */
  lemma LastOfTagIsAwaited(visible: seq<Release>, input: Input, scan: Scan, r: Release, j: int)
    requires ScanInv(visible, input, scan) && r.tag == input.tag && LastOfTag(visible, r, j)
    ensures Waits(visible, r, scan, j)
  {
    if scan.found.Some? {
      var i :| Anchors(visible, scan.found.value, i, scan.page * PAGE_SIZE);
      assert visible[i].tag == visible[j].tag == r.tag;
    }
  }

  lemma ReadKeepsFollows(visible: seq<Release>, r: Release, run: Run)
    requires run.phase.Scanning? && RunInv(visible, run) && Follows(visible, r, run)
    ensures Follows(visible, r, run.(phase := AfterPage(run, PageOf(visible, run.phase.scan.page))))
  {
    hide PageOf, Matching, ScanInv, Listed, LastOfTag;
    if run.input.tag == r.tag {
      var j :| Waits(visible, r, run.phase.scan, j);
      AbsorbKeepsWaits(visible, r, run.phase.scan, j);
      assert Waits(visible, r, START, j) by { StartWaits(visible, r, run.phase.scan, j); }
    }
  }

  lemma StartWaits(visible: seq<Release>, r: Release, scan: Scan, j: int)
    requires Waits(visible, r, scan, j)
    ensures Waits(visible, r, START, j)
  {
  }

  lemma ReadKeepsOneHeld(s: State, p: int, run: Run)
    requires Inv(s) && p in s.runs && s.runs[p].phase.Scanning?
    requires run == s.runs[p].(phase := AfterPage(s.runs[p], PageOf(s.visible, s.runs[p].phase.scan.page)))
    ensures OneHeld(s.(runs := s.runs[p := run]))
  {
    hide PageOf, Matching, AfterPage, ScanInv, Waits, LastOfTag, Listed;
    var t := s.(runs := s.runs[p := run]);
    forall q | Succeeded(t, q) ensures AllFollow(t, t.runs[q].phase.outcome.release) {
      if q == p {
        NewlyHeld(s, p, run);
      } else {
        assert Succeeded(s, q);
        ReadKeepsFollows(s.visible, s.runs[q].phase.outcome.release, s.runs[p]);
      }
    }
  }

  lemma NewlyHeld(s: State, p: int, run: Run)
    requires Inv(s) && p in s.runs && s.runs[p].phase.Scanning? && Success(run.phase)
    requires run == s.runs[p].(phase := AfterPage(s.runs[p], PageOf(s.visible, s.runs[p].phase.scan.page)))
    ensures AllFollow(s.(runs := s.runs[p := run]), run.phase.outcome.release)
  {
    hide PageOf, Matching, AfterPage, ScanInv, Anchors;
    var t, r := s.(runs := s.runs[p := run]), run.phase.outcome.release;
    SuccessIsFound(s.visible, s.runs[p]);
    var j :| LastOfTag(s.visible, r, j);
    forall q | q in t.runs && q != p && t.runs[q].input.tag == r.tag ensures Follows(t.visible, r, t.runs[q]) {
      if s.runs[q].phase.Scanning? {
        LastOfTagIsAwaited(s.visible, s.runs[q].input, s.runs[q].phase.scan, r, j);
      } else if Succeeded(s, q) {
        var theirs := s.runs[q].phase.outcome.release;
        assert Follows(s.visible, theirs, s.runs[p]);
        var i :| Waits(s.visible, theirs, s.runs[p].phase.scan, i);
        AbsorbKeepsWaits(s.visible, theirs, s.runs[p].phase.scan, i);
      }
    }
  }

  // ----- what the store does between the reads of a run -----

  lemma RevealKeepsRunInv(visible: seq<Release>, run: Run, at: nat, arrival: Release)
    requires RunInv(visible, run) && at <= |visible| && InOrder(visible, at, arrival)
    ensures RunInv(Insert(visible, at, arrival), run)
  {
    var later := Insert(visible, at, arrival);
    if |visible| >= PAGE_SIZE {
      forall r, j, unread | Anchors(visible, r, j, unread)
        ensures Anchors(later, r, if j < at then j else j + 1, unread)
      {
        RevealKeepsAnchor(visible, at, arrival, r, j, unread);
      }
    }
    forall r, j | Listed(visible, r, j) ensures Listed(later, r, if j < at then j else j + 1) {
      RevealKeepsListed(visible, at, arrival, r, j);
    }
  }

  lemma RevealKeepsAnchor(visible: seq<Release>, at: nat, arrival: Release, r: Release, j: int, unread: int)
    requires at <= |visible| && Anchors(visible, r, j, unread)
    requires forall k :: 0 <= k < at ==> visible[k].tag != arrival.tag
    ensures Anchors(Insert(visible, at, arrival), r, if j < at then j else j + 1, unread)
  {
    var later := Insert(visible, at, arrival);
    assert forall k :: 0 <= k < |later| && k != at ==> later[k] == visible[if k < at then k else k - 1];
  }

  lemma RevealKeepsListed(visible: seq<Release>, at: nat, arrival: Release, r: Release, j: int)
    requires at <= |visible| && Listed(visible, r, j)
    ensures Listed(Insert(visible, at, arrival), r, if j < at then j else j + 1)
  {
  }

  lemma RevealKeepsLastOfTag(visible: seq<Release>, at: nat, arrival: Release, r: Release, j: int)
    requires at <= |visible| && LastOfTag(visible, r, j)
    requires forall k :: 0 <= k < at ==> visible[k].tag != arrival.tag
    ensures LastOfTag(Insert(visible, at, arrival), r, if j < at then j else j + 1)
  {
    var later := Insert(visible, at, arrival);
    assert forall k :: 0 <= k < |later| && k != at ==> later[k] == visible[if k < at then k else k - 1];
  }

  lemma RevealKeepsFollows(visible: seq<Release>, r: Release, run: Run, at: nat, arrival: Release)
    requires RunInv(visible, run) && Follows(visible, r, run) && at <= |visible| && InOrder(visible, at, arrival)
    ensures Follows(Insert(visible, at, arrival), r, run)
  {
    hide LastOfTag, Listed, Insert;
    if run.phase.Scanning? && run.input.tag == r.tag {
      var scan := run.phase.scan;
      var j :| Waits(visible, r, scan, j);
      var i := if j < at then j else j + 1;
      RevealKeepsListed(visible, at, arrival, r, j);
      assert 0 <= j <= i by { ListedIndex(visible, r, j); }
      if |visible| >= PAGE_SIZE && LastOfTag(visible, r, j) {
        RevealKeepsLastOfTag(visible, at, arrival, r, j);
      }
      assert Waits(Insert(visible, at, arrival), r, scan, i);
    }
  }

  lemma ListedIndex(visible: seq<Release>, r: Release, j: int)
    requires Listed(visible, r, j)
    ensures 0 <= j < |visible|
  {
  }

  lemma OpeningKeepsRunInv(visible: seq<Release>, run: Run, at: nat)
    requires RunInv(visible, run) && at < |visible|
    ensures RunInv(visible[at := visible[at].(draft := false)], run)
  {
    var later := visible[at := visible[at].(draft := false)];
    assert forall r, j, unread :: Anchors(visible, r, j, unread) ==> Anchors(later, r, j, unread);
    assert forall r, j :: Listed(visible, r, j) ==> Listed(later, r, j);
  }

  lemma OpeningKeepsFollows(visible: seq<Release>, r: Release, run: Run, at: nat)
    requires Follows(visible, r, run) && at < |visible|
    ensures Follows(visible[at := visible[at].(draft := false)], r, run)
  {
    var later := visible[at := visible[at].(draft := false)];
    assert forall j :: Listed(visible, r, j) ==> Listed(later, r, j);
    assert forall j :: LastOfTag(visible, r, j) ==> LastOfTag(later, r, j);
    assert forall scan, j :: Waits(visible, r, scan, j) ==> Waits(later, r, scan, j);
  }

  /** A record is opened. */
  lemma OpeningKeepsInv(s: State, at: nat)
    requires Inv(s) && at < |s.visible|
    ensures Inv(s.(visible := s.visible[at := s.visible[at].(draft := false)]))
  {
    hide RunInv, Follows;
    var later := s.visible[at := s.visible[at].(draft := false)];
    forall q | q in s.runs ensures RunInv(later, s.runs[q]) {
      OpeningKeepsRunInv(s.visible, s.runs[q], at);
    }
    forall p, q | Succeeded(s, p) && q in s.runs ensures Follows(later, s.runs[p].phase.outcome.release, s.runs[q]) {
      OpeningKeepsFollows(s.visible, s.runs[p].phase.outcome.release, s.runs[q], at);
    }
  }

  lemma PatchKeepsInv(s: State, p: int, applied: bool, at: nat, ok: bool)
    requires Inv(s) && Enabled(s, Patch(p, applied, at, ok))
    ensures Inv(Apply(s, Patch(p, applied, at, ok)))
  {
    hide Inv, Follows, Holds;
    var run := s.runs[p].(phase := Scanning(START, AfterPatch(ok)));
    assert RunInv(s.visible, s.runs[p]) && s.runs[p].phase.Patching? by { RunInvAt(s, p); }
    if applied {
      PatchTargetsOwn(s, p, at);
      OpeningKeepsInv(s, at);
      RestartKeepsInv(s.(visible := s.visible[at := s.visible[at].(draft := false)]), p, run);
    } else {
      RestartKeepsInv(s, p, run);
    }
  }

  lemma RunInvAt(s: State, p: int)
    requires Inv(s) && p in s.runs
    ensures RunInv(s.visible, s.runs[p])
  {
  }

  /** Storing a draft that is not listed yet. */
  lemma StoreKeepsInv(s: State, draft: Release)
    requires Inv(s)
    ensures Inv(Store(s, draft)) && Store(s, draft).visible == s.visible && Store(s, draft).runs == s.runs
  {
    hide RunInv, Follows;
    var t := Store(s, draft);
    forall p | Succeeded(t, p) ensures AllFollow(t, t.runs[p].phase.outcome.release) {
      assert Succeeded(s, p);
    }
  }

  /** A run starts a scan, or fails, on the inventory as it is. */
  lemma RestartKeepsInv(s: State, p: int, run: Run)
    requires Inv(s) && RunInv(s.visible, run)
    requires (run.phase.Scanning? && run.phase.scan == START) || (run.phase.Done? && run.phase.outcome.Failed?)
    ensures Inv(s.(runs := s.runs[p := run]))
  {
    hide RunInv, IDs;
    var t := s.(runs := s.runs[p := run]);
    assert IDs(t) by { SameIDs(s, t); }
    forall q | Succeeded(t, q) ensures AllFollow(t, t.runs[q].phase.outcome.release) {
      var r := s.runs[q].phase.outcome.release;
      assert Succeeded(s, q) && RunInv(s.visible, s.runs[q]);
      var j := HeldIsListed(s.visible, s.runs[q]);
      assert Waits(s.visible, r, START, j);
    }
  }

  lemma HeldIsListed(visible: seq<Release>, run: Run) returns (j: int)
    requires RunInv(visible, run) && Success(run.phase)
    ensures Listed(visible, run.phase.outcome.release, j)
  {
    j :| Listed(visible, run.phase.outcome.release, j);
  }

  lemma SameIDs(s: State, t: State)
    requires IDs(s) && t.visible == s.visible && t.hidden == s.hidden && t.nextID == s.nextID
    ensures IDs(t)
  {
  }

  lemma ReadKeepsInv(s: State, p: int, ok: bool)
    requires Inv(s) && Enabled(s, ReadPage(p, ok))
    ensures Inv(Apply(s, ReadPage(p, ok)))
  {
    hide RunInv, IDs, OneHeld, AfterPage, PageOf;
    var t := Apply(s, ReadPage(p, ok));
    assert RunInv(s.visible, s.runs[p]);
    if ok {
      assert IDs(t) by { SameIDs(s, t); }
      ReadKeepsRunInv(s.visible, s.runs[p]);
      ReadKeepsOneHeld(s, p, t.runs[p]);
    } else {
      assert RunInv(s.visible, t.runs[p]) by { FailingKeepsRunInv(s.visible, s.runs[p], ApiFailure); }
      RestartKeepsInv(s, p, t.runs[p]);
    }
  }

  lemma FailingKeepsRunInv(visible: seq<Release>, run: Run, error: Error)
    requires RunInv(visible, run) && run.phase.Scanning?
    ensures RunInv(visible, run.(phase := Done(Failed(error))))
  {
  }

  lemma CreateKeepsInv(s: State, p: int, applied: bool, reply: CreateReply, notes: seq<Owner>)
    requires Inv(s) && Enabled(s, Create(p, applied, reply, notes))
    ensures Inv(Apply(s, Create(p, applied, reply, notes)))
  {
    hide IDs, OneHeld;
    var run := s.runs[p];
    var draft := Release(s.nextID, run.input.tag, [run.input.owner] + notes, true, run.input.prerelease, true);
    if applied {
      StoreKeepsInv(s, draft);
    }
    RestartKeepsInv(if applied then Store(s, draft) else s, p,
                    run.(phase := AfterReply(reply), creates := run.creates + 1));
  }

  lemma StepKeepsInv(s: State, a: Action)
    requires Inv(s) && Enabled(s, a)
    ensures Inv(Apply(s, a))
  {
    hide Inv;
    match a
    case Begin(p, mode, input) =>
      RestartKeepsInv(s, p, Run(mode, input, Scanning(START, FirstRead), 0));
    case ReadPage(p, ok) =>
      ReadKeepsInv(s, p, ok);
    case Create(p, applied, reply, notes) =>
      CreateKeepsInv(s, p, applied, reply, notes);
    case Patch(p, applied, at, ok) =>
      PatchKeepsInv(s, p, applied, at, ok);
    case StrangerCreates(release) =>
      StoreKeepsInv(s, release);
    case StrangerOpens(at) =>
      OpeningKeepsInv(s, at);
    case Reveal(id, at) =>
      RevealKeepsInv(s, id, at);
  }

  lemma RevealKeepsInv(s: State, id: int, at: nat)
    requires Inv(s) && Enabled(s, Reveal(id, at))
    ensures Inv(Apply(s, Reveal(id, at)))
  {
    RevealKeepsIDs(s, id, at);
    hide RunInv, IDs, Follows, Insert;
    var t := Apply(s, Reveal(id, at));
    forall q | q in s.runs ensures RunInv(t.visible, s.runs[q]) {
      RevealKeepsRunInv(s.visible, s.runs[q], at, s.hidden[id]);
    }
    forall p, q | Succeeded(s, p) && q in s.runs
      ensures Follows(t.visible, s.runs[p].phase.outcome.release, s.runs[q])
    {
      RevealKeepsFollows(s.visible, s.runs[p].phase.outcome.release, s.runs[q], at, s.hidden[id]);
    }
  }

  lemma RevealKeepsIDs(s: State, id: int, at: nat)
    requires IDs(s) && Enabled(s, Reveal(id, at))
    ensures IDs(Apply(s, Reveal(id, at)))
  {
    var later := Insert(s.visible, at, s.hidden[id]);
    assert forall k :: 0 <= k < |later| && k != at ==> later[k] == s.visible[if k < at then k else k - 1];
  }

  /** The release a settling run is about to open is its own, and opening it changes nothing but the
      draft flag. */
  lemma PatchTargetsOwn(s: State, p: int, at: nat)
    requires Inv(s) && p in s.runs && s.runs[p].phase.Patching?
    requires at < |s.visible| && s.visible[at].id == s.runs[p].phase.target.id
    ensures s.visible[at].tag == s.runs[p].input.tag
    ensures s.visible[at].receipts == [s.runs[p].input.owner]
    ensures s.visible[at].prerelease == s.runs[p].input.prerelease && s.visible[at].wellFormed
  {
    var target := s.runs[p].phase.target;
    assert RunInv(s.visible, s.runs[p]);
    var j :| Listed(s.visible, target, j);
    assert j == at;
  }

  lemma {:induction false} Reachable(b: Behaviour, i: nat)
    requires Possible(b) && i < |b.states|
    ensures Inv(b.states[i])
  {
    if i > 0 {
      Reachable(b, i - 1);
      StepKeepsInv(b.states[i - 1], b.actions[i - 1]);
    }
  }
}
