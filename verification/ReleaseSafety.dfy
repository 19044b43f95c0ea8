/** What the publication protocol guarantees in every behaviour: one owner, at most one create, patches of
    one's own release only, and a settlement that fences every later claim and verification of the tag
    (script/verify-release-identity.ts:351-464). */
module ReleaseSafety {
  import opened ReleaseInventory
  import opened ReleasePublication

  /** No interleaving lets two different owners both succeed for one tag: whoever succeeds holds the
      same listed record, and that record carries the owner's receipt and no other. */
  lemma ExclusivePublication(b: Behaviour, i: nat, p: int, q: int)
    requires Possible(b) && i < |b.states|
    requires Succeeded(b.states[i], p) && Succeeded(b.states[i], q)
    requires b.states[i].runs[p].input.tag == b.states[i].runs[q].input.tag
    ensures b.states[i].runs[p].phase.outcome.release.id == b.states[i].runs[q].phase.outcome.release.id
    ensures b.states[i].runs[p].input.owner == b.states[i].runs[q].input.owner
  {
    hide Shows;
    Reachable(b, i);
    var s := b.states[i];
    var mine, theirs := s.runs[p].phase.outcome.release, s.runs[q].phase.outcome.release;
    assert RunInv(s.visible, s.runs[p]) && RunInv(s.visible, s.runs[q]);
    assert AllFollow(s, mine) && Follows(s.visible, mine, s.runs[q]);
    var j := HeldIsListed(s.visible, s.runs[p]);
    var k := HeldIsListed(s.visible, s.runs[q]);
    SameRecord(s, mine, theirs, j, k);
  }

  lemma SameRecord(s: State, a: Release, b: Release, j: int, k: int)
    requires IDs(s) && Listed(s.visible, a, j) && Listed(s.visible, b, k) && a.id == b.id
    ensures j == k && a.receipts == b.receipts
  {
  }

  /** A run sends at most one create, only when it claims, and is told `claimed` only after one. */
  lemma OneCreate(b: Behaviour, i: nat, p: int)
    requires Possible(b) && i < |b.states| && p in b.states[i].runs
    ensures b.states[i].runs[p].creates <= 1
    ensures b.states[i].runs[p].creates == 1 ==> b.states[i].runs[p].mode == Claim
    ensures b.states[i].runs[p].phase == Creating ==> b.states[i].runs[p].creates == 0
    ensures Succeeded(b.states[i], p) && b.states[i].runs[p].phase.outcome.Claimed? ==>
      b.states[i].runs[p].creates == 1
  {
    Reachable(b, i);
  }

  /** A patch opens a record carrying exactly the run's own receipt, whatever became of the request. */
  lemma PatchesOwnReleaseOnly(b: Behaviour, i: nat, p: int, applied: bool, at: nat, ok: bool)
    requires Possible(b) && i < |b.states|
    requires Enabled(b.states[i], Patch(p, applied, at, ok)) && applied
    ensures b.states[i].visible[at].receipts == [b.states[i].runs[p].input.owner]
    ensures b.states[i].visible[at].tag == b.states[i].runs[p].input.tag
    ensures Apply(b.states[i], Patch(p, applied, at, ok)).visible
      == b.states[i].visible[at := b.states[i].visible[at].(draft := false)]
  {
    Reachable(b, i);
    PatchTargetsOwn(b.states[i], p, at);
  }

  /** No step makes a record a draft again, rewrites a body, or takes a record off the inventory. */
  lemma DraftNeverReturns(s: State, a: Action, k: nat)
    requires Inv(s) && Enabled(s, a) && k < |s.visible|
    ensures exists m :: 0 <= m < |Apply(s, a).visible| && Shows(Apply(s, a).visible[m], s.visible[k])
  {
    var later := Apply(s, a).visible;
    match a
    case Reveal(id, at) =>
      assert later[if k < at then k else k + 1] == s.visible[k];
    case Patch(p, applied, at, ok) =>
      if applied {
        PatchTargetsOwn(s, p, at);
      }
      assert Shows(later[k], s.visible[k]);
    case _ =>
      assert Shows(later[k], s.visible[k]);
  }

  /** `settled` is reported only for a public record that carries the run's single receipt. */
  lemma SettledIsPublic(b: Behaviour, i: nat, p: int)
    requires Possible(b) && i < |b.states| && Succeeded(b.states[i], p)
    requires b.states[i].runs[p].phase.outcome.Settled?
    ensures Sealed(b.states[i].visible, b.states[i].runs[p].phase.outcome.release)
    ensures b.states[i].runs[p].phase.outcome.release.tag == b.states[i].runs[p].input.tag
    ensures b.states[i].runs[p].phase.outcome.release.receipts == [b.states[i].runs[p].input.owner]
    ensures b.states[i].runs[p].phase.outcome.release.prerelease == b.states[i].runs[p].input.prerelease
  {
    Reachable(b, i);
  }

  // ----- nothing is claimed or verified after a settlement -----

  /** The record is listed and public. */
  ghost predicate Sealed(visible: seq<Release>, r: Release) {
    !r.draft && exists j :: Listed(visible, r, j)
  }

  /** The scan of a later run has the public record in hand, or has not yet reached its page. */
  ghost predicate Awaits(visible: seq<Release>, r: Release, scan: Scan, j: int) {
    Listed(visible, r, j) &&
    ((scan.found.Some? && scan.found.value.id == r.id && !scan.found.value.draft)
      || scan.page * PAGE_SIZE <= j)
  }

  /** A later claiming or verifying run of the tag is still in its first scan, or has failed. */
  ghost predicate Fenced(visible: seq<Release>, r: Release, run: Run) {
    run.mode != Settle && run.input.tag == r.tag ==>
      match run.phase
      case Scanning(scan, goal) =>
        goal == FirstRead && exists j :: Awaits(visible, r, scan, j)
      case Done(outcome) => outcome.Failed?
      case _ => false
  }

  lemma AbsorbKeepsFence(visible: seq<Release>, r: Release, scan: Scan, j: int)
    requires !r.draft && Awaits(visible, r, scan, j)
    ensures match Absorb(scan, r.tag, PageOf(visible, scan.page))
      case More(next) => Awaits(visible, r, next, j)
      case Complete(found) => found.Some? && !found.value.draft
      case Reject => true
  {
    var matches := Matching(PageOf(visible, scan.page), r.tag);
    if scan.page * PAGE_SIZE <= j < (scan.page + 1) * PAGE_SIZE {
      if |matches| == 0 {
        PageEmpty(visible, r.tag, scan.page, j);
      } else if |matches| == 1 {
        var i := PageSingle(visible, r.tag, scan.page);
      }
    }
  }

  lemma ReadKeepsFence(visible: seq<Release>, r: Release, run: Run)
    requires !r.draft && run.phase.Scanning? && Fenced(visible, r, run)
    ensures Fenced(visible, r, run.(phase := AfterPage(run, PageOf(visible, run.phase.scan.page))))
  {
    if run.mode != Settle && run.input.tag == r.tag {
      var j :| Awaits(visible, r, run.phase.scan, j);
      AbsorbKeepsFence(visible, r, run.phase.scan, j);
    }
  }

  lemma StepKeepsFence(s: State, a: Action, r: Release, p: int)
    requires Inv(s) && Enabled(s, a) && Sealed(s.visible, r)
    requires p in s.runs ==> Fenced(s.visible, r, s.runs[p])
    ensures Sealed(Apply(s, a).visible, r)
    ensures p in Apply(s, a).runs ==> Fenced(Apply(s, a).visible, r, Apply(s, a).runs[p])
  {
    var j :| Listed(s.visible, r, j);
    match a
    case Begin(q, mode, input) =>
      assert Awaits(s.visible, r, START, j);
    case ReadPage(q, ok) =>
      if q == p {
        ReadKeepsFence(s.visible, r, s.runs[p]);
      }
    case Create(q, applied, reply, notes) =>
    case Patch(q, applied, at, ok) =>
      if applied {
        PatchTargetsOwn(s, q, at);
        OpeningKeepsFence(s.visible, r, at);
      }
    case StrangerCreates(release) =>
    case StrangerOpens(at) =>
      OpeningKeepsFence(s.visible, r, at);
    case Reveal(id, at) =>
      RevealKeepsFence(s.visible, r, at, s.hidden[id]);
  }

  lemma OpeningKeepsFence(visible: seq<Release>, r: Release, at: nat)
    requires Sealed(visible, r) && at < |visible|
    ensures Sealed(visible[at := visible[at].(draft := false)], r)
    ensures forall run :: Fenced(visible, r, run) ==>
      Fenced(visible[at := visible[at].(draft := false)], r, run)
  {
    var later := visible[at := visible[at].(draft := false)];
    assert forall j :: Listed(visible, r, j) ==> Listed(later, r, j);
    assert forall scan, j :: Awaits(visible, r, scan, j) ==> Awaits(later, r, scan, j);
  }

  lemma RevealKeepsFence(visible: seq<Release>, r: Release, at: nat, arrival: Release)
    requires Sealed(visible, r) && at <= |visible|
    ensures Sealed(Insert(visible, at, arrival), r)
    ensures forall run :: Fenced(visible, r, run) ==> Fenced(Insert(visible, at, arrival), r, run)
  {
    var later := Insert(visible, at, arrival);
    forall j | Listed(visible, r, j) ensures Listed(later, r, if j < at then j else j + 1) {
      RevealKeepsListed(visible, at, arrival, r, j);
    }
    assert forall scan, j :: Awaits(visible, r, scan, j) ==>
      Awaits(later, r, scan, if j < at then j else j + 1);
  }

  lemma {:induction false} FenceLasts(b: Behaviour, i: nat, j: nat, r: Release, p: int)
    requires Possible(b) && i <= j < |b.states|
    requires Sealed(b.states[i].visible, r) && p !in b.states[i].runs
    ensures Sealed(b.states[j].visible, r)
    ensures p in b.states[j].runs ==> Fenced(b.states[j].visible, r, b.states[j].runs[p])
  {
    if i < j {
      FenceLasts(b, i, j - 1, r, p);
      Reachable(b, j - 1);
      StepKeepsFence(b.states[j - 1], b.actions[j - 1], r, p);
    }
  }

  /** After a run was told `settled`, no claim or verification that begins later ever succeeds for
      that tag, and none of them sends a create. */
  lemma NothingClaimedAfterSettlement(b: Behaviour, i: nat, j: nat, p: int, q: int)
    requires Possible(b) && i <= j < |b.states|
    requires Succeeded(b.states[i], p) && b.states[i].runs[p].phase.outcome.Settled?
    requires q !in b.states[i].runs && q in b.states[j].runs
    requires b.states[j].runs[q].mode != Settle
    requires b.states[j].runs[q].input.tag == b.states[i].runs[p].input.tag
    ensures !Succeeded(b.states[j], q) && b.states[j].runs[q].phase != Creating
  {
    SettledIsPublic(b, i, p);
    FenceLasts(b, i, j, b.states[i].runs[p].phase.outcome.release, q);
  }
}
