/** When the publication protocol succeeds (script/verify-release-identity.ts:250-464): how every scan of an
    inventory that nobody changes ends, and that an undisturbed release is claimed, verified and settled. */
module ReleaseProgress {
  import opened Basics
  import opened ReleaseInventory
  import opened ReleasePublication

  // ----- what the inventory says to a run -----

  /** The record at `j` is the only one of the run's tag, and is the run's own. */
  ghost predicate Own(visible: seq<Release>, input: Input, j: int) {
    && OnlyAt(visible, input.tag, j) && visible[j].wellFormed
    && visible[j].receipts == [input.owner] && visible[j].prerelease == input.prerelease
  }

  ghost predicate IsOwn(visible: seq<Release>, input: Input, r: Release) {
    exists j :: Own(visible, input, j) && visible[j] == r
  }

  ghost predicate HasPublic(visible: seq<Release>, input: Input) {
    exists j :: Own(visible, input, j) && !visible[j].draft
  }

  ghost predicate HasDraft(visible: seq<Release>, input: Input) {
    exists j :: Own(visible, input, j) && visible[j].draft
  }

  /** The one reason for which a run has no record of its own. */
  ghost predicate Lacks(visible: seq<Release>, input: Input, e: Error) {
    match e
    case Missing => forall k :: 0 <= k < |visible| ==> visible[k].tag != input.tag
    case Invalid =>
      (exists j, k :: TwoOf(visible, input.tag, j, k)) ||
      (exists j :: OnlyAt(visible, input.tag, j) && !visible[j].wellFormed)
    case OwnerMismatch =>
      exists j :: OnlyAt(visible, input.tag, j) && visible[j].wellFormed && visible[j].receipts != [input.owner]
    case PrereleaseMismatch =>
      exists j :: OnlyAt(visible, input.tag, j) && visible[j].wellFormed && visible[j].receipts == [input.owner] &&
        visible[j].prerelease != input.prerelease
    case _ => false
  }

  /** A run either has its own record, or lacks one for exactly one reason. */
  lemma OwnOrLacks(visible: seq<Release>, input: Input)
    ensures (exists j :: Own(visible, input, j)) <==> !exists e :: Lacks(visible, input, e)
    ensures forall e, f :: Lacks(visible, input, e) && Lacks(visible, input, f) ==> e == f
    ensures forall j, k :: OnlyAt(visible, input.tag, j) && OnlyAt(visible, input.tag, k) ==> j == k
  {
    if k: int :| 0 <= k < |visible| && visible[k].tag == input.tag {
      if OnlyAt(visible, input.tag, k) {
        assert Own(visible, input, k) || Lacks(visible, input, Invalid) || Lacks(visible, input, OwnerMismatch) ||
          Lacks(visible, input, PrereleaseMismatch);
      } else {
        var m :| 0 <= m < |visible| && visible[m].tag == input.tag && m != k;
        assert TwoOf(visible, input.tag, if k < m then k else m, if k < m then m else k);
        assert Lacks(visible, input, Invalid);
      }
    } else {
      assert Lacks(visible, input, Missing);
    }
    assert forall j, k :: OnlyAt(visible, input.tag, j) && OnlyAt(visible, input.tag, k) ==> j == k;
  }

  /** What a run is once it has read all of the inventory. */
  ghost predicate Ends(visible: seq<Release>, mode: Mode, input: Input, goal: Goal, phase: Phase) {
    && (forall j :: Own(visible, input, j) ==> phase == WithOwn(visible[j], mode, goal))
    && (forall e :: Lacks(visible, input, e) ==> phase == Without(e, mode, goal))
  }

  /** With its own record: a draft is owned or, after a create that was answered so, claimed; a settling run
      goes on to open a draft, and is done with a public one. */
  function WithOwn(r: Release, mode: Mode, goal: Goal): Phase {
    match goal
    case FirstRead =>
      if mode != Settle then Done(if r.draft then Owned(r) else Failed(NotDraft))
      else if r.draft then Patching(r) else Done(Settled(r))
    case AfterCreate(created, _) =>
      Done(if !r.draft then Failed(NotDraft) else if created then Claimed(r) else Owned(r))
    case AfterPatch(ok) =>
      Done(if !r.draft then Settled(r) else Failed(if ok then Invalid else ApiFailure))
  }

  /** Without: a claim creates the record that is missing, and reads again up to six times after that. */
  function Without(e: Error, mode: Mode, goal: Goal): Phase {
    match goal
    case FirstRead => if e == Missing && mode == Claim then Creating else Done(Failed(e))
    case AfterCreate(created, attempt) =>
      if e != Missing then Done(Failed(e))
      else if attempt < 5 then Scanning(START, AfterCreate(created, attempt + 1))
      else Done(Failed(if created then Missing else ApiFailure))
    case AfterPatch(_) => Done(Failed(e))
  }

  // ----- one page -----

  /** The part that has been read, page by page. */
  ghost predicate Part(visible: seq<Release>, tag: Tag, scan: Scan) {
    && scan.page < PAGE_LIMIT && scan.page * PAGE_SIZE <= |visible|
    && ReadSoFar(visible[..scan.page * PAGE_SIZE], tag, scan.found)
  }

  lemma FullyRead(visible: seq<Release>, run: Run, found: Option<Release>)
    requires run.phase.Scanning? && ReadSoFar(visible, run.input.tag, found)
    ensures Ends(visible, run.mode, run.input, run.phase.goal, AfterScan(run.mode, run.input, run.phase.goal, found))
  {
    if found.Some? {
      var i :| OnlyAt(visible, run.input.tag, i) && visible[i] == found.value;
      assert forall j :: OnlyAt(visible, run.input.tag, j) ==> j == i;
    }
  }

  lemma TwoRead(visible: seq<Release>, end: nat, run: Run)
    requires end <= |visible| && exists j, k :: TwoOf(visible[..end], run.input.tag, j, k)
    requires run.phase.Scanning?
    ensures Ends(visible, run.mode, run.input, run.phase.goal, Done(Failed(Invalid)))
  {
    var j, k :| TwoOf(visible[..end], run.input.tag, j, k);
    assert TwoOf(visible, run.input.tag, j, k);
    assert forall i :: !OnlyAt(visible, run.input.tag, i);
  }

  /** Reading a page goes on to the next one, or ends the scan. */
  lemma PageRead(visible: seq<Release>, run: Run)
    requires |visible| < PAGE_SIZE * PAGE_LIMIT && run.phase.Scanning? && Part(visible, run.input.tag, run.phase.scan)
    ensures var phase := AfterPage(run, PageOf(visible, run.phase.scan.page));
      Ends(visible, run.mode, run.input, run.phase.goal, phase) ||
      (phase.Scanning? && phase.goal == run.phase.goal && phase.scan.page == run.phase.scan.page + 1 &&
       Part(visible, run.input.tag, phase.scan))
  {
    hide Matching, Ends, AfterScan;
    var scan, tag := run.phase.scan, run.input.tag;
    var part, page := visible[..scan.page * PAGE_SIZE], PageOf(visible, scan.page);
    var end := PartGrows(visible, scan.page);
    match Absorb(scan, tag, page)
    case Reject =>
      Ambiguous(part, page, tag, scan.found);
      TwoRead(visible, end, run);
    case Complete(found) =>
      ReadOn(part, page, tag, scan.found);
      FullyRead(visible, run, found);
    case More(next) =>
      ReadOn(part, page, tag, scan.found);
  }

  // ----- a run that reads while nobody changes the inventory -----

  ghost predicate ActsFor(a: Action, p: int) {
    match a
    case Begin(q, _, _) => q == p
    case ReadPage(q, _) => q == p
    case Create(q, _, _, _) => q == p
    case Patch(q, _, _, _) => q == p
    case _ => false
  }

  /** From state `i` to state `j` the listed inventory stays as it is, and all that the run does is to read
      pages, without a failure. */
  ghost predicate Quiet(b: Behaviour, i: nat, j: nat, p: int) {
    && i <= j < |b.states| && j <= |b.actions|
    && (forall m :: i <= m <= j ==> b.states[m].visible == b.states[i].visible)
    && (forall m :: i <= m < j && ActsFor(b.actions[m], p) ==> b.actions[m] == ReadPage(p, true))
  }

  /** How many pages the run reads. */
  ghost function Reads(b: Behaviour, i: nat, j: nat, p: int): nat
    requires i <= j <= |b.actions|
    decreases j
  {
    if i == j then 0 else Reads(b, i, j - 1, p) + if b.actions[j - 1] == ReadPage(p, true) then 1 else 0
  }

  lemma OthersLeaveIt(s: State, a: Action, p: int)
    requires CanHappen(s, a) && p in s.runs && !ActsFor(a, p)
    ensures p in Apply(s, a).runs && Apply(s, a).runs[p] == s.runs[p]
  {
  }

  /** The scan is under way, one page further for each read. */
  ghost predicate UnderWay(b: Behaviour, i: nat, j: nat, p: int, goal: Goal)
    requires Quiet(b, i, j, p) && p in b.states[j].runs
  {
    var run := b.states[j].runs[p];
    && run.phase.Scanning? && run.phase.goal == goal && run.phase.scan.page == Reads(b, i, j, p)
    && Part(b.states[i].visible, run.input.tag, run.phase.scan)
  }

  ghost predicate Ended(b: Behaviour, i: nat, m: nat, p: int, goal: Goal)
    requires i < |b.states| && m < |b.states|
  {
    && p in b.states[m].runs && p in b.states[i].runs
    && Ends(b.states[i].visible, b.states[i].runs[p].mode, b.states[i].runs[p].input, goal, b.states[m].runs[p].phase)
  }

  lemma QuietPrefix(b: Behaviour, i: nat, j: nat, p: int)
    requires Possible(b) && Quiet(b, i, j, p) && i < j && p in b.states[j - 1].runs
    ensures Quiet(b, i, j - 1, p) && p in b.states[j].runs
    ensures b.states[j].runs[p].mode == b.states[j - 1].runs[p].mode
    ensures b.states[j].runs[p].input == b.states[j - 1].runs[p].input
    ensures if b.actions[j - 1] == ReadPage(p, true) then
        b.states[j - 1].runs[p].phase.Scanning? &&
        b.states[j].runs[p].phase ==
          AfterPage(b.states[j - 1].runs[p], PageOf(b.states[i].visible, b.states[j - 1].runs[p].phase.scan.page))
      else b.states[j].runs[p] == b.states[j - 1].runs[p]
  {
    hide PageOf, AfterPage, Absorb, InOrder, Insert;
    assert Enabled(b.states[j - 1], b.actions[j - 1]) && b.states[j] == Apply(b.states[j - 1], b.actions[j - 1]);
    if b.actions[j - 1] != ReadPage(p, true) {
      OthersLeaveIt(b.states[j - 1], b.actions[j - 1], p);
    }
  }

  /** A scan of a quiet inventory is under way, or has ended as the inventory says. */
  lemma {:induction false} ScanEnds(b: Behaviour, i: nat, j: nat, p: int, goal: Goal)
    requires Possible(b) && Quiet(b, i, j, p) && |b.states[i].visible| < PAGE_SIZE * PAGE_LIMIT
    requires p in b.states[i].runs && b.states[i].runs[p].phase == Scanning(START, goal)
    ensures p in b.states[j].runs
    ensures b.states[j].runs[p].mode == b.states[i].runs[p].mode
    ensures b.states[j].runs[p].input == b.states[i].runs[p].input
    ensures UnderWay(b, i, j, p, goal) || exists m :: i < m <= j && Ended(b, i, m, p, goal)
    decreases j
  {
    hide Possible, Ends, Part, AfterPage, PageOf;
    if i == j {
      assert Part(b.states[i].visible, b.states[i].runs[p].input.tag, START) by {
        NothingRead(b.states[i].visible, b.states[i].runs[p].input.tag);
      }
    } else {
      assert Quiet(b, i, j - 1, p);
      ScanEnds(b, i, j - 1, p, goal);
      QuietPrefix(b, i, j, p);
      if UnderWay(b, i, j - 1, p, goal) && b.actions[j - 1] == ReadPage(p, true) {
        PageRead(b.states[i].visible, b.states[j - 1].runs[p]);
        assert UnderWay(b, i, j, p, goal) || Ended(b, i, j, p, goal);
      }
    }
  }

  lemma NothingRead(visible: seq<Release>, tag: Tag)
    ensures Part(visible, tag, START)
  {
  }

  /** It has ended once it has read more pages than the inventory fills. */
  lemma ScanIsShort(b: Behaviour, i: nat, j: nat, p: int, goal: Goal)
    requires Possible(b) && Quiet(b, i, j, p) && |b.states[i].visible| < PAGE_SIZE * PAGE_LIMIT
    requires p in b.states[i].runs && b.states[i].runs[p].phase == Scanning(START, goal)
    requires Reads(b, i, j, p) * PAGE_SIZE > |b.states[i].visible|
    ensures exists m :: i < m <= j && Ended(b, i, m, p, goal)
  {
    hide Possible, Ends;
    ScanEnds(b, i, j, p, goal);
  }

  ghost predicate Rests(phase: Phase) {
    !phase.Scanning?
  }

  /** A run that is not scanning rests while it only reads. */
  lemma {:induction false} RestsOn(b: Behaviour, m: nat, j: nat, p: int)
    requires Possible(b) && Quiet(b, m, j, p) && p in b.states[m].runs && Rests(b.states[m].runs[p].phase)
    ensures p in b.states[j].runs && b.states[j].runs[p] == b.states[m].runs[p]
    decreases j
  {
    hide Possible, AfterPage, PageOf;
    if m < j {
      assert Quiet(b, m, j - 1, p);
      RestsOn(b, m, j - 1, p);
      QuietPrefix(b, m, j, p);
    }
  }

  /** A scan that is no longer under way has ended as the inventory says, for good unless it goes on to read
      again after a create. */
  lemma ScanResult(b: Behaviour, i: nat, j: nat, p: int, goal: Goal)
    requires Possible(b) && Quiet(b, i, j, p) && |b.states[i].visible| < PAGE_SIZE * PAGE_LIMIT
    requires p in b.states[i].runs && b.states[i].runs[p].phase == Scanning(START, goal)
    requires p in b.states[j].runs && Rests(b.states[j].runs[p].phase)
    requires goal.AfterCreate? ==> !Lacks(b.states[i].visible, b.states[i].runs[p].input, Missing)
    ensures Ended(b, i, j, p, goal)
  {
    hide Possible, Own, Lacks;
    ScanEnds(b, i, j, p, goal);
    var m :| i < m <= j && Ended(b, i, m, p, goal);
    EndRests(b.states[i].visible, b.states[i].runs[p].mode, b.states[i].runs[p].input, goal, b.states[m].runs[p].phase);
    RestsOn(b, m, j, p);
  }

  lemma EndRests(visible: seq<Release>, mode: Mode, input: Input, goal: Goal, phase: Phase)
    requires Ends(visible, mode, input, goal, phase)
    requires goal.AfterCreate? ==> !Lacks(visible, input, Missing)
    ensures Rests(phase)
  {
    hide Own, Lacks;
    OwnOrLacks(visible, input);
  }

  // ----- main results: when a run succeeds -----

  /** From its beginning to state `j` the run has read a quiet inventory to its end. */
  ghost predicate ReadFromBegin(b: Behaviour, i: nat, j: nat, p: int, mode: Mode, input: Input) {
    && Possible(b) && i < |b.actions| && b.actions[i] == Begin(p, mode, input)
    && Quiet(b, i + 1, j, p) && |b.states[i + 1].visible| < PAGE_SIZE * PAGE_LIMIT
    && p in b.states[j].runs && Rests(b.states[j].runs[p].phase)
  }

  lemma BeginEnds(b: Behaviour, i: nat, j: nat, p: int, mode: Mode, input: Input)
    requires ReadFromBegin(b, i, j, p, mode, input)
    ensures Ends(b.states[i + 1].visible, mode, input, FirstRead, b.states[j].runs[p].phase)
  {
    hide Ends, InOrder;
    assert b.states[i + 1] == Apply(b.states[i], b.actions[i]);
    ScanResult(b, i + 1, j, p, FirstRead);
  }

  /** A verification, or a claim that creates nothing, ends with a record as its own if and only if that is the
      only record of the tag, well formed, with exactly the run's receipt, its prerelease flag, and a draft. */
  lemma OwnedExactly(b: Behaviour, i: nat, j: nat, p: int, mode: Mode, input: Input, r: Release)
    requires ReadFromBegin(b, i, j, p, mode, input) && mode != Settle
    ensures b.states[j].runs[p].phase == Done(Owned(r)) <==>
      IsOwn(b.states[i + 1].visible, input, r) && r.draft
    ensures b.states[j].runs[p].phase == Creating <==> mode == Claim && Lacks(b.states[i + 1].visible, input, Missing)
    ensures forall e :: b.states[j].runs[p].phase == Done(Failed(e)) <==>
      (Lacks(b.states[i + 1].visible, input, e) && !(e == Missing && mode == Claim)) ||
      (e == NotDraft && HasPublic(b.states[i + 1].visible, input))
  {
    hide Possible, Own, Lacks;
    BeginEnds(b, i, j, p, mode, input);
    OwnOrLacks(b.states[i + 1].visible, input);
    NeverNotDraft(b.states[i + 1].visible, input);
  }

  lemma NeverNotDraft(visible: seq<Release>, input: Input)
    ensures !Lacks(visible, input, NotDraft) && !Lacks(visible, input, ApiFailure)
  {
  }

  /** A settling run is done exactly with a public record of its own, and is about to open exactly a draft of
      its own; in every other case it fails for what the inventory lacks. */
  lemma SettlesExactly(b: Behaviour, i: nat, j: nat, p: int, input: Input, r: Release)
    requires ReadFromBegin(b, i, j, p, Settle, input)
    ensures b.states[j].runs[p].phase == Done(Settled(r)) <==>
      IsOwn(b.states[i + 1].visible, input, r) && !r.draft
    ensures b.states[j].runs[p].phase == Patching(r) <==>
      IsOwn(b.states[i + 1].visible, input, r) && r.draft
    ensures forall e :: b.states[j].runs[p].phase == Done(Failed(e)) <==> Lacks(b.states[i + 1].visible, input, e)
  {
    hide Possible, Own, Lacks;
    BeginEnds(b, i, j, p, Settle, input);
    OwnOrLacks(b.states[i + 1].visible, input);
  }

  /** After a patch, applied or not, the run is settled exactly on a public record of its own. */
  lemma PatchedExactly(b: Behaviour, i: nat, j: nat, p: int, applied: bool, at: nat, ok: bool, r: Release)
    requires Possible(b) && i < |b.actions| && b.actions[i] == Patch(p, applied, at, ok) && Quiet(b, i + 1, j, p)
    requires |b.states[i + 1].visible| < PAGE_SIZE * PAGE_LIMIT
    requires p in b.states[j].runs && Rests(b.states[j].runs[p].phase)
    ensures var s, input := b.states[i + 1], b.states[j].runs[p].input;
      && (b.states[j].runs[p].phase == Done(Settled(r)) <==>
           IsOwn(s.visible, input, r) && !r.draft)
      && (forall e :: b.states[j].runs[p].phase == Done(Failed(e)) <==>
           Lacks(s.visible, input, e) || (HasDraft(s.visible, input) && e == if ok then Invalid else ApiFailure))
      && (applied && OnlyAt(s.visible, input.tag, at) ==> b.states[j].runs[p].phase == Done(Settled(s.visible[at])))
  {
    hide Ends, InOrder;
    assert Enabled(b.states[i], b.actions[i]) && b.states[i + 1] == Apply(b.states[i], b.actions[i]);
    Reachable(b, i);
    Reachable(b, i + 1);
    if applied {
      PatchTargetsOwn(b.states[i], p, at);
    }
    PatchedResult(b, i + 1, j, p, at, ok, r);
  }

  lemma PatchedResult(b: Behaviour, i: nat, j: nat, p: int, at: nat, ok: bool, r: Release)
    requires Possible(b) && Quiet(b, i, j, p) && |b.states[i].visible| < PAGE_SIZE * PAGE_LIMIT
    requires p in b.states[i].runs && b.states[i].runs[p].phase == Scanning(START, AfterPatch(ok))
    requires p in b.states[j].runs && Rests(b.states[j].runs[p].phase)
    ensures var s, input := b.states[i], b.states[j].runs[p].input;
      && input == s.runs[p].input
      && (b.states[j].runs[p].phase == Done(Settled(r)) <==>
           IsOwn(s.visible, input, r) && !r.draft)
      && (forall e :: b.states[j].runs[p].phase == Done(Failed(e)) <==>
           Lacks(s.visible, input, e) || (HasDraft(s.visible, input) && e == if ok then Invalid else ApiFailure))
      && (Own(s.visible, input, at) && !s.visible[at].draft ==>
           b.states[j].runs[p].phase == Done(Settled(s.visible[at])))
  {
    hide Possible, Own, Lacks;
    ScanEnds(b, i, j, p, AfterPatch(ok));
    ScanResult(b, i, j, p, AfterPatch(ok));
    OwnOrLacks(b.states[i].visible, b.states[i].runs[p].input);
  }

  // ----- a claim whose create was answered -----

  /** The reply decides whether the run reads on, and whether what it finds will count as claimed. */
  lemma CreateAnswered(b: Behaviour, c: nat, p: int, applied: bool, reply: CreateReply, notes: seq<Owner>)
    requires Possible(b) && c < |b.actions| && b.actions[c] == Create(p, applied, reply, notes)
    ensures p in b.states[c + 1].runs
    ensures var phase := b.states[c + 1].runs[p].phase;
      match reply
      case Created => phase == Scanning(START, AfterCreate(true, 0))
      case Unprocessable => phase == Scanning(START, AfterCreate(false, 0))
      case OtherReply => phase == Done(Failed(ApiFailure))
  {
    assert b.states[c + 1] == Apply(b.states[c], b.actions[c]);
  }

  /** How a read after a create ends: claimed or owned exactly with a draft of its own, read once more exactly
      while the record is missing and attempts are left. */
  lemma CreatedExactly(
    visible: seq<Release>, mode: Mode, input: Input, created: bool, attempt: nat, phase: Phase, r: Release)
    requires Ends(visible, mode, input, AfterCreate(created, attempt), phase)
    ensures phase == Done(Claimed(r)) <==> created && IsOwn(visible, input, r) && r.draft
    ensures phase == Done(Owned(r)) <==> !created && IsOwn(visible, input, r) && r.draft
    ensures phase.Scanning? <==> attempt < 5 && Lacks(visible, input, Missing)
    ensures phase.Scanning? ==> phase == Scanning(START, AfterCreate(created, attempt + 1))
    ensures forall e :: phase == Done(Failed(e)) <==>
      (Lacks(visible, input, e) && e != Missing) || (HasPublic(visible, input) && e == NotDraft) ||
      (Lacks(visible, input, Missing) && attempt >= 5 && e == if created then Missing else ApiFailure)
  {
    hide Own, Lacks;
    OwnOrLacks(visible, input);
    NeverNotDraft(visible, input);
  }

  /** The draft that was created is stored, listed or not yet, with its receipt. */
  ghost predicate Stored(s: State, draft: Release) {
    (draft.id in s.hidden && s.hidden[draft.id] == draft) || exists k :: Listed(s.visible, draft, k)
  }

  lemma StoredLasts(s: State, a: Action, draft: Release)
    requires Inv(s) && Enabled(s, a) && Stored(s, draft) && draft.id < s.nextID
    ensures Stored(Apply(s, a), draft) && draft.id < Apply(s, a).nextID
  {
    hide RunsInv, OneHeld, InOrder;
    var t := Apply(s, a);
    if k :| Listed(s.visible, draft, k) {
      match a
      case Reveal(id, at) =>
        RevealKeepsListed(s.visible, at, s.hidden[id], draft, k);
      case Patch(p, applied, at, ok) =>
        if applied {
          PatchKeepsPrerelease(s, p, at);
        }
        assert Listed(t.visible, draft, k);
      case _ =>
        assert Listed(t.visible, draft, k);
    } else if a.Reveal? && a.id == draft.id {
      assert Listed(t.visible, draft, a.at);
    }
  }

  lemma PatchKeepsPrerelease(s: State, p: int, at: nat)
    requires Inv(s) && p in s.runs && s.runs[p].phase.Patching?
    requires at < |s.visible| && s.visible[at].id == s.runs[p].phase.target.id
    ensures s.visible[at].prerelease == s.runs[p].input.prerelease
  {
    PatchTargetsOwn(s, p, at);
  }

  lemma {:induction false} StoredFrom(b: Behaviour, i: nat, j: nat, draft: Release)
    requires Possible(b) && i <= j < |b.states| && Stored(b.states[i], draft) && draft.id < b.states[i].nextID
    ensures Stored(b.states[j], draft) && draft.id < b.states[j].nextID
  {
    hide Stored, Inv;
    if i < j {
      StoredFrom(b, i, j - 1, draft);
      Reachable(b, j - 1);
      StoredLasts(b.states[j - 1], b.actions[j - 1], draft);
    }
  }

  /** A create answered with 201 is followed by reads, and once its draft is listed and the only record of its
      tag, the first read of it claims it, unless somebody has shown it. */
  lemma ClaimEnds(b: Behaviour, c: nat, i: nat, j: nat, p: int, attempt: nat, x: int)
    requires Possible(b) && c < |b.actions| && b.actions[c] == Create(p, true, Created, []) && c < i
    requires Quiet(b, i, j, p) && |b.states[i].visible| < PAGE_SIZE * PAGE_LIMIT
    requires p in b.states[i].runs && b.states[i].runs[p].phase == Scanning(START, AfterCreate(true, attempt))
    requires p in b.states[c].runs && b.states[i].runs[p].input == b.states[c].runs[p].input
    requires p in b.states[j].runs && Rests(b.states[j].runs[p].phase)
    requires var visible := b.states[i].visible;
      OnlyAt(visible, b.states[i].runs[p].input.tag, x) && visible[x].id == b.states[c].nextID
    ensures var r := b.states[i].visible[x];
      b.states[j].runs[p].phase == Done(if r.draft then Claimed(r) else Failed(NotDraft))
  {
    hide Ends, InOrder;
    var run := b.states[c].runs[p];
    var draft := Release(b.states[c].nextID, run.input.tag, [run.input.owner], true, run.input.prerelease, true);
    assert [run.input.owner] + [] == [run.input.owner];
    assert Enabled(b.states[c], b.actions[c]) && b.states[c + 1] == Apply(b.states[c], b.actions[c]);
    assert Stored(b.states[c + 1], draft);
    StoredFrom(b, c + 1, i, draft);
    Reachable(b, i);
    ListedIsOwn(b.states[i], draft, x);
    assert Own(b.states[i].visible, run.input, x);
    ClaimResult(b, i, j, p, attempt, x);
  }

  lemma ListedIsOwn(s: State, draft: Release, x: int)
    requires IDs(s) && Stored(s, draft) && 0 <= x < |s.visible| && s.visible[x].id == draft.id
    ensures Listed(s.visible, draft, x)
  {
  }

  lemma ClaimResult(b: Behaviour, i: nat, j: nat, p: int, attempt: nat, x: int)
    requires Possible(b) && Quiet(b, i, j, p) && |b.states[i].visible| < PAGE_SIZE * PAGE_LIMIT
    requires p in b.states[i].runs && b.states[i].runs[p].phase == Scanning(START, AfterCreate(true, attempt))
    requires p in b.states[j].runs && Rests(b.states[j].runs[p].phase)
    requires Own(b.states[i].visible, b.states[i].runs[p].input, x)
    ensures var r := b.states[i].visible[x];
      b.states[j].runs[p].phase == Done(if r.draft then Claimed(r) else Failed(NotDraft))
  {
    hide Possible, Own, Lacks;
    OwnOrLacks(b.states[i].visible, b.states[i].runs[p].input);
    ScanResult(b, i, j, p, AfterCreate(true, attempt));
  }

  // ----- an undisturbed release -----

  lemma HasStates(b: Behaviour)
    requires Possible(b)
    ensures |b.states| > 0
  {
  }

  /** Reading on to the end of the inventory. */
  lemma {:induction false} ReadToEnd(b: Behaviour, p: int) returns (c: Behaviour, phase: Phase)
    requires Possible(b) && p in Last(b).runs && Last(b).runs[p].phase.Scanning?
    requires |Last(b).visible| < PAGE_SIZE * PAGE_LIMIT
    requires Part(Last(b).visible, Last(b).runs[p].input.tag, Last(b).runs[p].phase.scan)
    ensures Possible(c) && b.states <= c.states && c.states[0] == b.states[0]
    ensures var run := Last(b).runs[p];
      Last(c) == Last(b).(runs := Last(b).runs[p := run.(phase := phase)]) &&
      Ends(Last(b).visible, run.mode, run.input, run.phase.goal, phase)
    decreases PAGE_LIMIT - Last(b).runs[p].phase.scan.page
  {
    hide Possible, Ends, AfterPage, PageOf;
    HasStates(b);
    var s, run := Last(b), Last(b).runs[p];
    PageRead(s.visible, run);
    c := Extended(b, ReadPage(p, true));
    phase := AfterPage(run, PageOf(s.visible, run.phase.scan.page));
    if !Ends(s.visible, run.mode, run.input, run.phase.goal, phase) {
      c, phase := ReadToEnd(c, p);
    }
  }

  /** A run that begins and reads to the end. */
  lemma BeginAndRead(b: Behaviour, p: int, mode: Mode, input: Input) returns (c: Behaviour, phase: Phase)
    requires Possible(b) && p !in Last(b).runs && |Last(b).visible| < PAGE_SIZE * PAGE_LIMIT
    ensures Possible(c) && b.states <= c.states && c.states[0] == b.states[0]
    ensures Ends(Last(b).visible, mode, input, FirstRead, phase)
    ensures Last(c) == Last(b).(runs := Last(b).runs[p := Run(mode, input, phase, 0)])
  {
    hide Possible, Ends, Part;
    HasStates(b);
    c := Extended(b, Begin(p, mode, input));
    NothingRead(Last(b).visible, input.tag);
    c, phase := ReadToEnd(c, p);
  }

  function DraftOf(input: Input, id: int): Release {
    Release(id, input.tag, [input.owner], true, input.prerelease, true)
  }

  lemma FrontIsOwn(others: seq<Release>, input: Input, r: Release)
    requires Lacks(others, input, Missing)
    requires r.tag == input.tag && r.wellFormed && r.receipts == [input.owner] && r.prerelease == input.prerelease
    ensures Own([r] + others, input, 0)
  {
  }

  lemma EndsWithOwn(visible: seq<Release>, mode: Mode, input: Input, goal: Goal, phase: Phase, j: int)
    requires Ends(visible, mode, input, goal, phase) && Own(visible, input, j)
    ensures phase == WithOwn(visible[j], mode, goal)
  {
  }

  lemma EndsWithout(visible: seq<Release>, mode: Mode, input: Input, goal: Goal, phase: Phase, e: Error)
    requires Ends(visible, mode, input, goal, phase) && Lacks(visible, input, e)
    ensures phase == Without(e, mode, goal)
  {
  }

  /** Run 0 has claimed, and nothing else has happened. */
  function AfterClaim(s: State, input: Input): State {
    var draft := DraftOf(input, s.nextID);
    State([draft] + s.visible, s.hidden, s.nextID + 1, map[0 := Run(Claim, input, Done(Claimed(draft)), 1)])
  }

  lemma Claims(s: State, input: Input) returns (b: Behaviour)
    requires Initial(s) && |s.visible| + 1 < PAGE_SIZE * PAGE_LIMIT && Lacks(s.visible, input, Missing)
    ensures Possible(b) && b.states[0] == s && Last(b) == AfterClaim(s, input)
  {
    hide Possible, Ends, Own, Lacks, Part;
    var draft := DraftOf(input, s.nextID);
    var phase;
    b := Start(s);
    b, phase := BeginAndRead(b, 0, Claim, input);
    EndsWithout(s.visible, Claim, input, FirstRead, phase, Missing);
    b := Extended(b, Create(0, true, Created, []));
    assert [input.owner] + [] == [input.owner];
    b := Extended(b, Reveal(s.nextID, 0));
    assert Insert(s.visible, 0, draft) == [draft] + s.visible;
    FrontIsOwn(s.visible, input, draft);
    NothingRead([draft] + s.visible, input.tag);
    b, phase := ReadToEnd(b, 0);
    EndsWithOwn([draft] + s.visible, Claim, input, AfterCreate(true, 0), phase, 0);
    assert s.nextID !in s.hidden;
    assert s.hidden[s.nextID := draft] - {s.nextID} == s.hidden;
  }

  /** Run 1 has then found the draft to be its own. */
  function AfterVerify(s: State, input: Input): State {
    var draft := DraftOf(input, s.nextID);
    AfterClaim(s, input).(runs := map[
      0 := Run(Claim, input, Done(Claimed(draft)), 1), 1 := Run(Verify, input, Done(Owned(draft)), 0)])
  }

  lemma Verifies(s: State, input: Input) returns (b: Behaviour)
    requires Initial(s) && |s.visible| + 1 < PAGE_SIZE * PAGE_LIMIT && Lacks(s.visible, input, Missing)
    ensures Possible(b) && b.states[0] == s && Last(b) == AfterVerify(s, input)
  {
    hide Possible, Ends, Own, Lacks, Part;
    var draft := DraftOf(input, s.nextID);
    var phase;
    b := Claims(s, input);
    FrontIsOwn(s.visible, input, draft);
    b, phase := BeginAndRead(b, 1, Verify, input);
    EndsWithOwn([draft] + s.visible, Verify, input, FirstRead, phase, 0);
  }

  /** Run 2 is then where it is, on that inventory. */
  function Settling(s: State, input: Input, phase: Phase, shown: Release): State {
    var draft := DraftOf(input, s.nextID);
    State([shown] + s.visible, s.hidden, s.nextID + 1, map[
      0 := Run(Claim, input, Done(Claimed(draft)), 1), 1 := Run(Verify, input, Done(Owned(draft)), 0),
      2 := Run(Settle, input, phase, 0)])
  }

  lemma Patches(s: State, input: Input) returns (b: Behaviour)
    requires Initial(s) && |s.visible| + 1 < PAGE_SIZE * PAGE_LIMIT && Lacks(s.visible, input, Missing)
    ensures Possible(b) && b.states[0] == s
    ensures Last(b) == Settling(s, input, Scanning(START, AfterPatch(true)), DraftOf(input, s.nextID).(draft := false))
  {
    hide Possible, Ends, Own, Lacks, Part;
    var draft := DraftOf(input, s.nextID);
    var phase;
    b := Verifies(s, input);
    FrontIsOwn(s.visible, input, draft);
    b, phase := BeginAndRead(b, 2, Settle, input);
    EndsWithOwn([draft] + s.visible, Settle, input, FirstRead, phase, 0);
    assert Last(b) == Settling(s, input, Patching(draft), draft);
    b := Extended(b, Patch(2, true, 0, true));
    assert ([draft] + s.visible)[0 := draft.(draft := false)] == [draft.(draft := false)] + s.visible;
  }

  /** From every inventory of fewer than 9999 records without the tag, a release that nothing disturbs is
      claimed, then found as its own, and then settled: its draft is public, and nothing else has changed. */
  lemma UndisturbedReleaseSettles(s: State, input: Input) returns (b: Behaviour)
    requires Initial(s) && |s.visible| + 1 < PAGE_SIZE * PAGE_LIMIT && Lacks(s.visible, input, Missing)
    ensures Possible(b) && b.states[0] == s
    ensures var draft := DraftOf(input, s.nextID);
      var public := draft.(draft := false);
      Last(b) == Settling(s, input, Done(Settled(public)), public)
  {
    hide Possible, Ends, Own, Lacks, Part;
    var public := DraftOf(input, s.nextID).(draft := false);
    var phase;
    b := Patches(s, input);
    FrontIsOwn(s.visible, input, public);
    NothingRead([public] + s.visible, input.tag);
    b, phase := ReadToEnd(b, 2);
    EndsWithOwn([public] + s.visible, Settle, input, AfterPatch(true), phase, 0);
  }
}
