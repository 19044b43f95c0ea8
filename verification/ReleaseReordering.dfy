/** Why it matters where a record becomes visible (script/verify-release-identity.ts:254-292): once the
    inventory has a full page, one record listed behind a visible one of its tag lets two owners succeed. */
module ReleaseReordering {
  import opened Basics
  import opened ReleaseInventory
  import opened ReleasePublication

  /** Possible, but for where a record becomes visible in the given step. */
  ghost predicate PossibleBut(b: Behaviour, odd: nat) {
    && |b.states| == |b.actions| + 1 && Initial(b.states[0])
    && forall i :: 0 <= i < |b.actions| ==>
         CanHappen(b.states[i], b.actions[i]) && b.states[i + 1] == Apply(b.states[i], b.actions[i]) &&
         (i != odd ==> Enabled(b.states[i], b.actions[i]))
  }

  lemma ExtendedOddly(b: Behaviour, a: Action, next: Action) returns (c: Behaviour)
    requires Possible(b) && CanHappen(Last(b), a) && Enabled(Apply(Last(b), a), next)
    ensures PossibleBut(c, |b.actions|) && c.states[0] == b.states[0] && Last(c) == Apply(Apply(Last(b), a), next)
  {
    c := Then(Then(b, a), next);
  }

  // ----- two pages, without and with the racing drafts -----

  ghost predicate WithoutTag(visible: seq<Release>, tag: Tag) {
    forall r :: r in visible ==> r.tag != tag
  }

  lemma NothingFound(visible: seq<Release>, tag: Tag)
    requires PAGE_SIZE <= |visible| < 2 * PAGE_SIZE && WithoutTag(visible, tag)
    ensures Absorb(START, tag, PageOf(visible, 0)) == More(Scan(1, None))
    ensures Absorb(Scan(1, None), tag, PageOf(visible, 1)) == Complete(None)
  {
    MatchingCases(PageOf(visible, 0), tag);
    MatchingCases(PageOf(visible, 1), tag);
  }

  lemma FrontFound(others: seq<Release>, a: Release)
    requires PAGE_SIZE <= |others| < 2 * PAGE_SIZE - 1 && WithoutTag(others, a.tag)
    ensures Absorb(START, a.tag, PageOf([a] + others, 0)) == More(Scan(1, Some(a)))
    ensures Absorb(Scan(1, Some(a)), a.tag, PageOf([a] + others, 1)) == Complete(Some(a))
  {
    var all := [a] + others;
    assert forall k :: 0 < k < |all| ==> all[k] in others;
    MatchingCases(PageOf(all, 0), a.tag);
    assert OnlyAt(PageOf(all, 0), a.tag, 0);
    MatchingCases(PageOf(all, 1), a.tag);
  }

  lemma BackFound(others: seq<Release>, a: Release, b: Release)
    requires PAGE_SIZE <= |others| < 2 * PAGE_SIZE - 2 && WithoutTag(others, b.tag)
    ensures Absorb(Scan(1, None), b.tag, PageOf([a] + others + [b], 1)) == Complete(Some(b))
  {
    var all := [a] + others + [b];
    var page := PageOf(all, 1);
    assert forall k :: 0 < k < |all| - 1 ==> all[k] in others;
    assert forall k :: 0 <= k < |page| ==> page[k] == all[k + PAGE_SIZE];
    MatchingCases(page, b.tag);
    assert OnlyAt(page, b.tag, |page| - 1);
  }

  // ----- the behaviour -----

  /** Both runs have found nothing and are about to create. */
  function BothMissed(s: State, ours: Input, theirs: Input): State {
    s.(runs := map[0 := Run(Claim, ours, Creating, 0), 1 := Run(Claim, theirs, Creating, 0)])
  }

  function DraftOf(input: Input, id: int): Release {
    Release(id, input.tag, [input.owner], true, input.prerelease, true)
  }

  /** Both drafts are created, and not visible yet. */
  function BothCreated(s: State, ours: Input, theirs: Input): State {
    State(s.visible,
          s.hidden[s.nextID := DraftOf(ours, s.nextID)][s.nextID + 1 := DraftOf(theirs, s.nextID + 1)],
          s.nextID + 2,
          map[0 := Run(Claim, ours, Scanning(START, AfterCreate(true, 0)), 1),
              1 := Run(Claim, theirs, Scanning(START, AfterCreate(true, 0)), 1)])
  }

  /** The race: an inventory of a full page and some more without the tag, and two owners. */
  ghost predicate Race(s: State, ours: Input, theirs: Input) {
    && Initial(s) && PAGE_SIZE <= |s.visible| < 2 * PAGE_SIZE - 2
    && WithoutTag(s.visible, ours.tag) && ours.tag == theirs.tag && ours.owner != theirs.owner
  }

  lemma BothMiss(s: State, ours: Input, theirs: Input) returns (b: Behaviour)
    requires Race(s, ours, theirs)
    ensures Possible(b) && b.states[0] == s && Last(b) == BothMissed(s, ours, theirs)
  {
    hide Possible, PageOf, Absorb;
    NothingFound(s.visible, ours.tag);
    b := Start(s);
    b := Extended(b, Begin(0, Claim, ours));
    b := Extended(b, ReadPage(0, true));
    b := Extended(b, ReadPage(0, true));
    b := Extended(b, Begin(1, Claim, theirs));
    b := Extended(b, ReadPage(1, true));
    b := Extended(b, ReadPage(1, true));
  }

  lemma BothCreate(s: State, ours: Input, theirs: Input) returns (b: Behaviour)
    requires Race(s, ours, theirs)
    ensures Possible(b) && b.states[0] == s && Last(b) == BothCreated(s, ours, theirs)
  {
    hide Possible, Race;
    b := BothMiss(s, ours, theirs);
    b := Extended(b, Create(0, true, Created, []));
    b := Extended(b, Create(1, true, Created, []));
    assert [ours.owner] + [] == [ours.owner] && [theirs.owner] + [] == [theirs.owner];
  }

  /** The second run has read a page, and the first draft has arrived in front; then the first run. */
  function FirstListed(s: State, ours: Input, theirs: Input, first: Run): State {
    State([DraftOf(ours, s.nextID)] + s.visible,
          s.hidden[s.nextID + 1 := DraftOf(theirs, s.nextID + 1)] - {s.nextID}, s.nextID + 2,
          map[0 := first, 1 := Run(Claim, theirs, Scanning(Scan(1, None), AfterCreate(true, 0)), 1)])
  }

  lemma FirstIsListed(s: State, ours: Input, theirs: Input) returns (b: Behaviour)
    requires Race(s, ours, theirs)
    ensures Possible(b) && b.states[0] == s
    ensures Last(b) == FirstListed(s, ours, theirs, Run(Claim, ours, Scanning(START, AfterCreate(true, 0)), 1))
  {
    hide Possible, PageOf, Absorb;
    var a := DraftOf(ours, s.nextID);
    NothingFound(s.visible, ours.tag);
    b := BothCreate(s, ours, theirs);
    b := Extended(b, ReadPage(1, true));
    b := Extended(b, Reveal(s.nextID, 0));
    assert Insert(s.visible, 0, a) == [a] + s.visible;
  }

  /** The first run claims. */
  lemma FirstClaims(s: State, ours: Input, theirs: Input) returns (b: Behaviour)
    requires Race(s, ours, theirs)
    ensures Possible(b) && b.states[0] == s
    ensures Last(b) == FirstListed(s, ours, theirs, Run(Claim, ours, Done(Claimed(DraftOf(ours, s.nextID))), 1))
  {
    hide Possible, PageOf, Absorb;
    FrontFound(s.visible, DraftOf(ours, s.nextID));
    b := FirstIsListed(s, ours, theirs);
    b := Extended(b, ReadPage(0, true));
    b := Extended(b, ReadPage(0, true));
  }

  /** On every inventory of a full page and some more, for any two owners of one tag that it does not
      have: if one draft becomes visible behind the other, both runs are told "claimed". Every other step
      of the behaviour is possible. */
  lemma MiddleInsertionBreaksExclusivity(s: State, ours: Input, theirs: Input) returns (b: Behaviour, odd: nat)
    requires Race(s, ours, theirs)
    ensures PossibleBut(b, odd) && b.states[0] == s
    ensures Succeeded(Last(b), 0) && Last(b).runs[0].input == ours && Last(b).runs[0].phase.outcome.Claimed?
    ensures Succeeded(Last(b), 1) && Last(b).runs[1].input == theirs && Last(b).runs[1].phase.outcome.Claimed?
  {
    hide PossibleBut, Possible, PageOf, Absorb;
    var a, d := DraftOf(ours, s.nextID), DraftOf(theirs, s.nextID + 1);
    b := FirstClaims(s, ours, theirs);
    var at := |s.visible| + 1;
    assert Insert([a] + s.visible, at, d) == [a] + s.visible + [d];
    BackFound(s.visible, a, d);
    odd := |b.actions|;
    b := ExtendedOddly(b, Reveal(s.nextID + 1, at), ReadPage(1, true));
  }
}
