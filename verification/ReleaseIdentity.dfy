/** A release version is identified by a Git tag that is created once and peeled to a commit
    (script/verify-release-identity.ts:126-216).

    References are created but never moved, and tag objects never change; both may be created by
    anybody at any time between two requests of a run. */
module ReleaseIdentity {
  import opened Basics

  type Tag = string
  type SHA = string

  datatype Kind = Commit | TagObject | OtherKind
  datatype GitObject = GitObject(kind: Kind, sha: SHA)

  // ----- the chain of tag objects behind a reference -----

  /** The object reached from `o` after reading `n` tag objects. */
  ghost function Follow(tags: map<SHA, GitObject>, o: GitObject, n: nat): Option<GitObject> {
    if n == 0 then Some(o)
    else
      var x := Follow(tags, o, n - 1);
      if x.Some? && x.value.kind.TagObject? && x.value.sha in tags then Some(tags[x.value.sha]) else None
  }

  ghost predicate EndsAt(tags: map<SHA, GitObject>, o: GitObject, end: GitObject) {
    !end.kind.TagObject? && exists n: nat :: Follow(tags, o, n) == Some(end)
  }

  ghost predicate Endless(tags: map<SHA, GitObject>, o: GitObject) {
    forall n: nat :: Follow(tags, o, n).Some?
  }

  ghost predicate Breaks(tags: map<SHA, GitObject>, o: GitObject) {
    exists n: nat, x :: Follow(tags, o, n) == Some(x) && x.kind.TagObject? && x.sha !in tags
  }

  lemma {:induction false} NothingAfter(tags: map<SHA, GitObject>, o: GitObject, n: nat, m: nat)
    requires n < m && Follow(tags, o, n) == None
    ensures Follow(tags, o, m) == None
  {
    if n + 1 < m {
      NothingAfter(tags, o, n, m - 1);
    }
  }

  lemma {:induction false} ChainExtends(tags: map<SHA, GitObject>, o: GitObject, n: nat, m: nat)
    requires Follow(tags, o, n).Some?
    ensures Follow(tags, o, n + m) == Follow(tags, Follow(tags, o, n).value, m)
  {
    if m > 0 {
      ChainExtends(tags, o, n, m - 1);
    }
  }

  /** A chain that comes back to an object it has passed never ends. */
  lemma {:induction false} RevisitNeverEnds(tags: map<SHA, GitObject>, o: GitObject, i: nat, j: nat, n: nat)
    requires i < j && Follow(tags, o, i).Some? && Follow(tags, o, i) == Follow(tags, o, j)
    ensures Follow(tags, o, n).Some?
    decreases n
  {
    if n <= j {
      if Follow(tags, o, n) == None {
        NothingAfter(tags, o, n, j);
      }
    } else {
      ChainExtends(tags, o, i, n - j);
      ChainExtends(tags, o, j, n - j);
      RevisitNeverEnds(tags, o, i, j, i + (n - j));
    }
  }

  lemma OneEnd(tags: map<SHA, GitObject>, o: GitObject, a: GitObject, b: GitObject)
    requires EndsAt(tags, o, a) && EndsAt(tags, o, b)
    ensures a == b
  {
    var n: nat :| Follow(tags, o, n) == Some(a);
    var m: nat :| Follow(tags, o, m) == Some(b);
    if n < m {
      assert Follow(tags, o, n + 1) == None;
      if n + 1 < m { NothingAfter(tags, o, n + 1, m); }
    } else if m < n {
      assert Follow(tags, o, m + 1) == None;
      if m + 1 < n { NothingAfter(tags, o, m + 1, n); }
    }
  }

  lemma {:induction false} FollowSurvives(
    tags: map<SHA, GitObject>, more: map<SHA, GitObject>, o: GitObject, n: nat)
    requires Extends(tags, more) && Follow(tags, o, n).Some?
    ensures Follow(more, o, n) == Follow(tags, o, n)
  {
    if n > 0 {
      FollowSurvives(tags, more, o, n - 1);
    }
  }

  ghost predicate Extends<K, V>(a: map<K, V>, b: map<K, V>) {
    forall k :: k in a ==> k in b && b[k] == a[k]
  }

  datatype Peeled = Reached(entry: GitObject) | Cycle | Unreadable

  /** The peeling loop over one object store. It terminates on every store, cyclic ones included. */
  method Peel(tags: map<SHA, GitObject>, start: GitObject) returns (r: Peeled)
    ensures forall e :: r == Reached(e) <==> EndsAt(tags, start, e)
    ensures r.Cycle? <==> Endless(tags, start)
    ensures r.Unreadable? <==> Breaks(tags, start)
  {
    var entry := start;
    var visitedTags := {};
    ghost var n: nat := 0;
    while entry.kind.TagObject?
      invariant Follow(tags, start, n) == Some(entry)
      invariant visitedTags <= tags.Keys
      invariant forall sha :: sha in visitedTags ==>
        exists m :: 0 <= m < n && Follow(tags, start, m) == Some(GitObject(TagObject, sha))
      decreases |tags.Keys - visitedTags|
    {
      if entry.sha in visitedTags {
        ghost var m :| 0 <= m < n && Follow(tags, start, m) == Some(GitObject(TagObject, entry.sha));
        forall k: nat ensures Follow(tags, start, k).Some? {
          RevisitNeverEnds(tags, start, m, n, k);
        }
        EndlessHasNoEnd(tags, start);
        return Cycle;
      }
      if entry.sha !in tags {
        assert Follow(tags, start, n + 1) == None;
        forall e ensures !EndsAt(tags, start, e) {
          if EndsAt(tags, start, e) { EndNeverBreaks(tags, start, e); }
        }
        return Unreadable;
      }
      assert tags.Keys - (visitedTags + {entry.sha}) < tags.Keys - visitedTags;
      SmallerSet(tags.Keys - (visitedTags + {entry.sha}), tags.Keys - visitedTags);
      visitedTags := visitedTags + {entry.sha};
      entry := tags[entry.sha];
      n := n + 1;
    }
    assert Follow(tags, start, n + 1) == None;
    EndNeverBreaks(tags, start, entry);
    forall e | EndsAt(tags, start, e) ensures e == entry {
      OneEnd(tags, start, e, entry);
    }
    r := Reached(entry);
  }

  lemma SmallerSet<T>(a: set<T>, b: set<T>)
    requires a < b
    ensures |a| < |b|
  {
    var x :| x in b && x !in a;
    assert a <= b - {x};
    SubsetSize(a, b - {x});
  }

  /** Whether it ends or breaks, a chain that does so is not endless. */
  lemma EndlessHasNoEnd(tags: map<SHA, GitObject>, o: GitObject)
    requires Endless(tags, o)
    ensures !Breaks(tags, o) && forall e :: !EndsAt(tags, o, e)
  {
    forall n: nat
      ensures Follow(tags, o, n).Some? && Follow(tags, o, n).value.kind.TagObject?
      ensures Follow(tags, o, n).value.sha in tags
    {
      assert Follow(tags, o, n + 1).Some?;
    }
  }

  lemma EndNeverBreaks(tags: map<SHA, GitObject>, o: GitObject, e: GitObject)
    requires EndsAt(tags, o, e)
    ensures !Breaks(tags, o)
  {
    if Breaks(tags, o) {
      var n: nat :| Follow(tags, o, n) == Some(e);
      var m: nat, x :| Follow(tags, o, m) == Some(x) && x.kind.TagObject? && x.sha !in tags;
      assert Follow(tags, o, n + 1) == Follow(tags, o, m + 1) == None;
      if m + 1 <= n {
        if m + 1 < n { NothingAfter(tags, o, m + 1, n); }
      } else if n + 1 <= m {
        if n + 1 < m { NothingAfter(tags, o, n + 1, m); }
      }
      assert false;
    }
  }

  // ----- runs -----

  datatype Mode = Probe | Claim | VerifyOwned
  datatype Input = Input(tag: Tag, sourceSHA: SHA, dispatched: bool)

  datatype Error = ApiFailure | MissingForTagPush | MissingForPublication | InvalidTarget | SourceMismatch

  datatype Outcome = Available | Claimed | Owned | Failed(error: Error)

  datatype Phase =
    | Posting
    | Probing(claimed: bool)
    | ReadingRef(claimed: bool)
    | Peeling(entry: GitObject, visited: set<SHA>, claimed: bool)
    | Done(outcome: Outcome)

  datatype Run = Run(mode: Mode, input: Input, phase: Phase)

  /** `createdBy` remembers which run's request created a reference. */
  datatype State = State(
    refs: map<Tag, GitObject>,
    tags: map<SHA, GitObject>,
    createdBy: map<Tag, int>,
    runs: map<int, Run>)

  datatype PostReply = Created | Exists | PostFailed
  datatype ProbeReply = Found | NotFound | ProbeFailed

  datatype Action =
    | Begin(p: int, mode: Mode, input: Input)
    | Post(p: int, applied: bool, reply: PostReply)
    | ProbeRef(p: int, answer: ProbeReply)
    | ReadRef(p: int, ok: bool)
    | ReadTag(p: int, ok: bool)
    | StrangerRef(tag: Tag, entry: GitObject)
    | StrangerTag(sha: SHA, entry: GitObject)

  /** Only a manually dispatched claim creates a reference; every other mode only resolves one. */
  function FirstPhase(mode: Mode, input: Input): Phase {
    if mode == Claim && input.dispatched then Posting else Probing(false)
  }

  function WhenMissing(mode: Mode, input: Input): Outcome {
    if mode == VerifyOwned then Failed(MissingForPublication)
    else if !input.dispatched then Failed(MissingForTagPush)
    else if mode == Probe then Available
    else Failed(MissingForPublication)
  }

  function AfterObject(input: Input, entry: GitObject, visited: set<SHA>, claimed: bool): Phase {
    if entry.kind.TagObject? then Peeling(entry, visited, claimed)
    else if !entry.kind.Commit? then Done(Failed(InvalidTarget))
    else if entry.sha != input.sourceSHA then Done(Failed(SourceMismatch))
    else Done(if claimed then Claimed else Owned)
  }

  ghost predicate Enabled(s: State, a: Action) {
    match a
    case Begin(p, _, _) => p !in s.runs
    case Post(p, applied, reply) =>
      p in s.runs && s.runs[p].phase.Posting? &&
      (applied ==> s.runs[p].input.tag !in s.refs) && (reply == Created ==> applied)
    case ProbeRef(p, answer) =>
      p in s.runs && s.runs[p].phase.Probing? && (answer == Found ==> s.runs[p].input.tag in s.refs)
    case ReadRef(p, ok) =>
      p in s.runs && s.runs[p].phase.ReadingRef? && (ok ==> s.runs[p].input.tag in s.refs)
    case ReadTag(p, ok) =>
      p in s.runs && s.runs[p].phase.Peeling? && (ok ==> s.runs[p].phase.entry.sha in s.tags)
    case StrangerRef(tag, _) => tag !in s.refs
    case StrangerTag(sha, _) => sha !in s.tags
  }

  function Apply(s: State, a: Action): State
    requires Enabled(s, a)
  {
    match a
    case Begin(p, mode, input) => s.(runs := s.runs[p := Run(mode, input, FirstPhase(mode, input))])
    case Post(p, applied, reply) =>
      var run := s.runs[p];
      var phase := if reply == PostFailed then Done(Failed(ApiFailure)) else Probing(reply == Created);
      var s := s.(runs := s.runs[p := run.(phase := phase)]);
      if applied then
        s.(refs := s.refs[run.input.tag := GitObject(Commit, run.input.sourceSHA)],
           createdBy := s.createdBy[run.input.tag := p])
      else s
    case ProbeRef(p, answer) =>
      var run := s.runs[p];
      var phase := match answer
        case Found => ReadingRef(run.phase.claimed)
        case NotFound => Done(WhenMissing(run.mode, run.input))
        case ProbeFailed => Done(Failed(ApiFailure));
      s.(runs := s.runs[p := run.(phase := phase)])
    case ReadRef(p, ok) =>
      var run := s.runs[p];
      var phase := if ok then AfterObject(run.input, s.refs[run.input.tag], {}, run.phase.claimed)
                   else Done(Failed(ApiFailure));
      s.(runs := s.runs[p := run.(phase := phase)])
    case ReadTag(p, ok) =>
      var run := s.runs[p];
      var sha, visited := run.phase.entry.sha, run.phase.visited;
      var phase :=
        if sha in visited then Done(Failed(InvalidTarget))
        else if !ok then Done(Failed(ApiFailure))
        else AfterObject(run.input, s.tags[sha], visited + {sha}, run.phase.claimed);
      s.(runs := s.runs[p := run.(phase := phase)])
    case StrangerRef(tag, entry) => s.(refs := s.refs[tag := entry])
    case StrangerTag(sha, entry) => s.(tags := s.tags[sha := entry])
  }

  datatype Behaviour = Behaviour(states: seq<State>, actions: seq<Action>)

  ghost predicate Possible(b: Behaviour) {
    && |b.states| == |b.actions| + 1
    && b.states[0].runs == map[] && b.states[0].createdBy == map[]
    && forall i :: 0 <= i < |b.actions| ==>
         Enabled(b.states[i], b.actions[i]) && b.states[i + 1] == Apply(b.states[i], b.actions[i])
  }

  // ----- the invariant -----

  ghost predicate ClaimInv(s: State, p: int)
    requires p in s.runs
  {
    var input := s.runs[p].input;
    && input.tag in s.createdBy && s.createdBy[input.tag] == p
    && input.tag in s.refs && s.refs[input.tag] == GitObject(Commit, input.sourceSHA)
  }

  ghost predicate RunInv(s: State, p: int)
    requires p in s.runs
  {
    var tag := s.runs[p].input.tag;
    match s.runs[p].phase
    case Posting => true
    case Probing(claimed) => claimed ==> ClaimInv(s, p)
    case ReadingRef(claimed) => claimed ==> ClaimInv(s, p)
    case Peeling(entry, visited, claimed) =>
      && (claimed ==> ClaimInv(s, p))
      && entry.kind.TagObject?
      && tag in s.refs && exists n: nat :: Follow(s.tags, s.refs[tag], n) == Some(entry)
    case Done(outcome) =>
      && (outcome.Claimed? ==> ClaimInv(s, p))
      && (outcome.Claimed? || outcome.Owned? ==>
           tag in s.refs && EndsAt(s.tags, s.refs[tag], GitObject(Commit, s.runs[p].input.sourceSHA)))
  }

  ghost predicate Inv(s: State) {
    s.createdBy.Keys <= s.refs.Keys && forall p :: p in s.runs ==> RunInv(s, p)
  }

  /** What every step leaves in place for the runs that do not take it. */
  lemma StoreGrows(s: State, t: State, p: int)
    requires p in s.runs && p in t.runs && t.runs[p] == s.runs[p] && RunInv(s, p)
    requires Extends(s.refs, t.refs) && Extends(s.tags, t.tags) && Extends(s.createdBy, t.createdBy)
    ensures RunInv(t, p)
  {
    forall o, n: nat | Follow(s.tags, o, n).Some?
      ensures Follow(t.tags, o, n) == Follow(s.tags, o, n)
    {
      FollowSurvives(s.tags, t.tags, o, n);
    }
  }

  lemma StepKeepsRun(s: State, a: Action, p: int)
    requires Inv(s) && Enabled(s, a) && p in Apply(s, a).runs
    ensures RunInv(Apply(s, a), p)
  {
    var t := Apply(s, a);
    if p in s.runs && t.runs[p] == s.runs[p] {
      StoreGrows(s, t, p);
    } else {
      match a
      case ReadRef(_, ok) =>
        if ok {
          var tag := s.runs[p].input.tag;
          assert Follow(s.tags, s.refs[tag], 0) == Some(s.refs[tag]);
        }
      case ReadTag(_, ok) =>
        if ok {
          var tag, entry := s.runs[p].input.tag, s.runs[p].phase.entry;
          var n: nat :| Follow(s.tags, s.refs[tag], n) == Some(entry);
          assert Follow(s.tags, s.refs[tag], n + 1) == Some(s.tags[entry.sha]);
        }
      case _ =>
    }
  }

  lemma StepKeepsInv(s: State, a: Action)
    requires Inv(s) && Enabled(s, a)
    ensures Inv(Apply(s, a))
  {
    forall p | p in Apply(s, a).runs ensures RunInv(Apply(s, a), p) {
      StepKeepsRun(s, a, p);
    }
  }

  lemma {:induction false} Reachable(b: Behaviour, i: nat)
    requires Possible(b) && i < |b.states|
    ensures Inv(b.states[i])
  {
    if i > 0 {
      Reachable(b, i - 1);
      StepKeepsInv(b.states[i - 1], b.actions[i - 1]);
    }
  }

  // ----- main results -----

  ghost predicate Admitted(s: State, p: int) {
    p in s.runs && s.runs[p].phase.Done? &&
    (s.runs[p].phase.outcome.Claimed? || s.runs[p].phase.outcome.Owned?)
  }

  /** All runs that were told `claimed` or `owned` for one version build the same source. */
  lemma OneSourcePerVersion(b: Behaviour, i: nat, p: int, q: int)
    requires Possible(b) && i < |b.states| && Admitted(b.states[i], p) && Admitted(b.states[i], q)
    requires b.states[i].runs[p].input.tag == b.states[i].runs[q].input.tag
    ensures b.states[i].runs[p].input.sourceSHA == b.states[i].runs[q].input.sourceSHA
  {
    Reachable(b, i);
    var s := b.states[i];
    OneEnd(s.tags, s.refs[s.runs[p].input.tag],
           GitObject(Commit, s.runs[p].input.sourceSHA), GitObject(Commit, s.runs[q].input.sourceSHA));
  }

  /** At most one run is told `claimed` for a version: the one whose request created the reference. */
  lemma OneClaimant(b: Behaviour, i: nat, p: int, q: int)
    requires Possible(b) && i < |b.states| && Admitted(b.states[i], p) && Admitted(b.states[i], q)
    requires b.states[i].runs[p].phase.outcome.Claimed? && b.states[i].runs[q].phase.outcome.Claimed?
    requires b.states[i].runs[p].input.tag == b.states[i].runs[q].input.tag
    ensures p == q
  {
    Reachable(b, i);
  }

  /** An admitted identity stays valid: later states still peel the tag to the admitted source. */
  lemma {:induction false} IdentityLasts(b: Behaviour, i: nat, j: nat, p: int)
    requires Possible(b) && i <= j < |b.states| && Admitted(b.states[i], p)
    ensures Admitted(b.states[j], p) && b.states[j].runs[p] == b.states[i].runs[p]
    ensures b.states[i].runs[p].input.tag in b.states[j].refs
    ensures EndsAt(b.states[j].tags, b.states[j].refs[b.states[i].runs[p].input.tag],
                   GitObject(Commit, b.states[i].runs[p].input.sourceSHA))
  {
    if i < j {
      IdentityLasts(b, i, j - 1, p);
    }
    Reachable(b, j);
  }

  // ----- how a run ends while nobody changes the store -----

  ghost predicate ActsFor(a: Action, p: int) {
    match a
    case Begin(q, _, _) => q == p
    case Post(q, _, _) => q == p
    case ProbeRef(q, _) => q == p
    case ReadRef(q, _) => q == p
    case ReadTag(q, _) => q == p
    case _ => false
  }

  /** A read of the run, answered with what is there. */
  ghost predicate Truthful(s: State, a: Action, p: int)
    requires p in s.runs
  {
    match a
    case ProbeRef(q, answer) => q == p && answer == if s.runs[p].input.tag in s.refs then Found else NotFound
    case ReadRef(q, ok) => q == p && ok
    case ReadTag(q, ok) => q == p && s.runs[p].phase.Peeling? && (ok <==> s.runs[p].phase.entry.sha in s.tags)
    case _ => false
  }

  /** From state `i` to state `j` the references and tag objects stay as they are, and all that the run does is
      to read them. */
  ghost predicate Quiet(b: Behaviour, i: nat, j: nat, p: int) {
    && i <= j < |b.states| && j <= |b.actions|
    && (forall m :: i <= m <= j ==> b.states[m].refs == b.states[i].refs && b.states[m].tags == b.states[i].tags)
    && forall m :: i <= m < j && ActsFor(b.actions[m], p) ==>
         p in b.states[m].runs && Truthful(b.states[m], b.actions[m], p)
  }

  /** What the chain of tag objects behind a reference says to a run. */
  ghost predicate ChainSays(tags: map<SHA, GitObject>, o: GitObject, source: SHA, claimed: bool, outcome: Outcome) {
    (exists e :: EndsAt(tags, o, e) && outcome == Says(e, source, claimed)) ||
    (Endless(tags, o) && outcome == Failed(InvalidTarget)) ||
    (Breaks(tags, o) && outcome == Failed(ApiFailure))
  }

  function Says(e: GitObject, source: SHA, claimed: bool): Outcome {
    if e == GitObject(Commit, source) then if claimed then Claimed else Owned
    else Failed(if e.kind.Commit? then SourceMismatch else InvalidTarget)
  }

  /** The tag objects passed so far are on the chain, before the one to be read. */
  ghost predicate OnTheWay(tags: map<SHA, GitObject>, o: GitObject, entry: GitObject, visited: set<SHA>) {
    entry.kind.TagObject? && exists n: nat :: PassedBefore(tags, o, entry, visited, n)
  }

  ghost predicate PassedBefore(tags: map<SHA, GitObject>, o: GitObject, entry: GitObject, visited: set<SHA>, n: nat) {
    Follow(tags, o, n) == Some(entry) &&
    forall sha :: sha in visited ==> exists k: nat :: k < n && Follow(tags, o, k) == Some(GitObject(TagObject, sha))
  }

  /** Where a run stands that reads this store. */
  ghost predicate Resolving(refs: map<Tag, GitObject>, tags: map<SHA, GitObject>, run: Run, claimed: bool) {
    var tag := run.input.tag;
    match run.phase
    case Posting => false
    case Probing(c) => c == claimed
    case ReadingRef(c) => c == claimed && tag in refs
    case Peeling(entry, visited, c) => c == claimed && tag in refs && OnTheWay(tags, refs[tag], entry, visited)
    case Done(outcome) =>
      if tag in refs then ChainSays(tags, refs[tag], run.input.sourceSHA, claimed, outcome)
      else MissingSays(run.mode, run.input, outcome)
  }

  ghost predicate MissingSays(mode: Mode, input: Input, outcome: Outcome) {
    && (outcome == Available <==> mode == Probe && input.dispatched)
    && (outcome == Failed(MissingForTagPush) <==> mode != VerifyOwned && !input.dispatched)
    && (outcome == Failed(MissingForPublication) <==> mode == VerifyOwned || (mode == Claim && input.dispatched))
  }

  /** Reading an object goes on, or says how the chain ends. */
  lemma ObjectRead(
    refs: map<Tag, GitObject>, tags: map<SHA, GitObject>, run: Run, claimed: bool, entry: GitObject, visited: set<SHA>,
    n: nat)
    requires run.input.tag in refs && PassedBefore(tags, refs[run.input.tag], entry, visited, n)
    ensures Resolving(refs, tags, run.(phase := AfterObject(run.input, entry, visited, claimed)), claimed)
  {
    if !entry.kind.TagObject? {
      assert EndsAt(tags, refs[run.input.tag], entry);
    }
  }

  lemma TagRead(
    refs: map<Tag, GitObject>, tags: map<SHA, GitObject>, run: Run, claimed: bool, entry: GitObject, visited: set<SHA>)
    requires run.input.tag in refs && OnTheWay(tags, refs[run.input.tag], entry, visited)
    ensures entry.sha in visited ==> Endless(tags, refs[run.input.tag])
    ensures entry.sha !in tags ==> Breaks(tags, refs[run.input.tag])
    ensures entry.sha in tags ==> Resolving(
      refs, tags, run.(phase := AfterObject(run.input, tags[entry.sha], visited + {entry.sha}, claimed)), claimed)
  {
    hide AfterObject, Resolving;
    var o := refs[run.input.tag];
    var n: nat :| PassedBefore(tags, o, entry, visited, n);
    if entry.sha in visited {
      var k: nat :| k < n && Follow(tags, o, k) == Some(GitObject(TagObject, entry.sha));
      forall m: nat ensures Follow(tags, o, m).Some? {
        RevisitNeverEnds(tags, o, k, n, m);
      }
    }
    if entry.sha in tags {
      assert Follow(tags, o, n + 1) == Some(tags[entry.sha]);
      assert PassedBefore(tags, o, tags[entry.sha], visited + {entry.sha}, n + 1);
      ObjectRead(refs, tags, run, claimed, tags[entry.sha], visited + {entry.sha}, n + 1);
    }
  }

  lemma ReadStep(s: State, a: Action, p: int, claimed: bool)
    requires Enabled(s, a) && p in s.runs && Resolving(s.refs, s.tags, s.runs[p], claimed)
    requires ActsFor(a, p) ==> Truthful(s, a, p)
    requires Apply(s, a).refs == s.refs && Apply(s, a).tags == s.tags
    ensures p in Apply(s, a).runs && Resolving(s.refs, s.tags, Apply(s, a).runs[p], claimed)
    ensures Apply(s, a).runs[p].mode == s.runs[p].mode && Apply(s, a).runs[p].input == s.runs[p].input
  {
    hide OnTheWay, AfterObject, Endless, Breaks, EndsAt;
    if ActsFor(a, p) {
      var run := s.runs[p];
      match a
      case ReadRef(_, _) =>
        assert PassedBefore(s.tags, s.refs[run.input.tag], s.refs[run.input.tag], {}, 0);
        ObjectRead(s.refs, s.tags, run, claimed, s.refs[run.input.tag], {}, 0);
      case ReadTag(_, _) =>
        TagRead(s.refs, s.tags, run, claimed, run.phase.entry, run.phase.visited);
      case _ =>
    }
  }

  lemma {:induction false} QuietRunResolves(b: Behaviour, i: nat, j: nat, p: int, claimed: bool)
    requires Possible(b) && Quiet(b, i, j, p)
    requires p in b.states[i].runs && b.states[i].runs[p].phase == Probing(claimed)
    ensures p in b.states[j].runs && Resolving(b.states[i].refs, b.states[i].tags, b.states[j].runs[p], claimed)
    ensures b.states[j].runs[p].mode == b.states[i].runs[p].mode
    ensures b.states[j].runs[p].input == b.states[i].runs[p].input
    decreases j
  {
    hide ChainSays, OnTheWay, MissingSays, Truthful;
    if i < j {
      assert Quiet(b, i, j - 1, p);
      QuietRunResolves(b, i, j - 1, p, claimed);
      assert Enabled(b.states[j - 1], b.actions[j - 1]) && b.states[j] == Apply(b.states[j - 1], b.actions[j - 1]);
      hide Resolving, Apply, Enabled;
      ReadStep(b.states[j - 1], b.actions[j - 1], p, claimed);
    }
  }

  ghost predicate EndsElsewhere(tags: map<SHA, GitObject>, o: GitObject, source: SHA) {
    exists e :: EndsAt(tags, o, e) && e.kind.Commit? && e.sha != source
  }

  ghost predicate EndsAtNoCommit(tags: map<SHA, GitObject>, o: GitObject) {
    exists e :: EndsAt(tags, o, e) && !e.kind.Commit?
  }

  /** How a run ends that has only read a store that nobody changed: as available, owned or claimed, or with
      the error, exactly in the case that the source names for it. */
  lemma EndsExactly(b: Behaviour, i: nat, j: nat, p: int, claimed: bool)
    requires Possible(b) && Quiet(b, i, j, p)
    requires p in b.states[i].runs && b.states[i].runs[p].phase == Probing(claimed)
    requires p in b.states[j].runs && b.states[j].runs[p].phase.Done?
    ensures var run, s := b.states[i].runs[p], b.states[i];
      var outcome := b.states[j].runs[p].phase.outcome;
      if run.input.tag !in s.refs then MissingSays(run.mode, run.input, outcome)
      else
        var o := s.refs[run.input.tag];
        && (outcome == (if claimed then Claimed else Owned) <==>
             EndsAt(s.tags, o, GitObject(Commit, run.input.sourceSHA)))
        && (outcome == Failed(SourceMismatch) <==> EndsElsewhere(s.tags, o, run.input.sourceSHA))
        && (outcome == Failed(InvalidTarget) <==> EndsAtNoCommit(s.tags, o) || Endless(s.tags, o))
        && (outcome == Failed(ApiFailure) <==> Breaks(s.tags, o))
  {
    hide MissingSays, Possible, Truthful;
    QuietRunResolves(b, i, j, p, claimed);
    var run, s := b.states[i].runs[p], b.states[i];
    if run.input.tag in s.refs {
      SaysExactly(s.tags, s.refs[run.input.tag], run.input.sourceSHA, claimed, b.states[j].runs[p].phase.outcome);
    }
  }

  lemma SaysExactly(tags: map<SHA, GitObject>, o: GitObject, source: SHA, claimed: bool, outcome: Outcome)
    requires ChainSays(tags, o, source, claimed, outcome)
    ensures outcome == (if claimed then Claimed else Owned) <==> EndsAt(tags, o, GitObject(Commit, source))
    ensures outcome == Failed(SourceMismatch) <==> EndsElsewhere(tags, o, source)
    ensures outcome == Failed(InvalidTarget) <==> EndsAtNoCommit(tags, o) || Endless(tags, o)
    ensures outcome == Failed(ApiFailure) <==> Breaks(tags, o)
  {
    hide Follow;
    if Endless(tags, o) {
      EndlessHasNoEnd(tags, o);
    }
    if e :| EndsAt(tags, o, e) {
      EndNeverBreaks(tags, o, e);
      forall f | EndsAt(tags, o, f) ensures f == e {
        OneEnd(tags, o, e, f);
      }
    }
    hide Breaks, Endless, EndsAt;
  }

  /** The tag is the run's source. */
  predicate Holds(s: State, input: Input) {
    input.tag in s.refs && s.refs[input.tag] == GitObject(Commit, input.sourceSHA)
  }

  /** Where a run begins to read: at once, unless it is a dispatched claim, which posts first; a reply other
      than a failure is followed by the same reads, and only "created" counts as claimed. */
  lemma BeginsToRead(b: Behaviour, i: nat, p: int)
    requires Possible(b) && i < |b.actions| && ActsFor(b.actions[i], p) && (b.actions[i].Begin? || b.actions[i].Post?)
    ensures p in b.states[i + 1].runs
    ensures var phase := b.states[i + 1].runs[p].phase;
      match b.actions[i]
      case Begin(_, mode, input) =>
        (phase == Posting <==> mode == Claim && input.dispatched) && (phase != Posting ==> phase == Probing(false))
      case Post(_, applied, reply) =>
        && (reply == PostFailed <==> phase == Done(Failed(ApiFailure)))
        && (reply == Created ==> phase == Probing(true)) && (reply == Exists ==> phase == Probing(false))
        && (applied ==> Holds(b.states[i + 1], b.states[i].runs[p].input))
      case _ => true
  {
    assert Enabled(b.states[i], b.actions[i]) && b.states[i + 1] == Apply(b.states[i], b.actions[i]);
  }

  /** A dispatched claim of a version without a tag that nothing disturbs ends as claimed, and a later
      verification of it as owned. */
  lemma UndisturbedClaim(s: State, input: Input) returns (b: Behaviour)
    requires s.runs == map[] && s.createdBy == map[] && input.tag !in s.refs && input.dispatched
    ensures Possible(b) && b.states[0] == s
    ensures var t := b.states[|b.states| - 1];
      && t.runs == map[0 := Run(Claim, input, Done(Claimed)), 1 := Run(VerifyOwned, input, Done(Owned))]
      && t.refs == s.refs[input.tag := GitObject(Commit, input.sourceSHA)] && t.tags == s.tags
  {
    hide Possible;
    b := Started(s);
    b := Extended(b, Begin(0, Claim, input));
    b := Extended(b, Post(0, true, Created));
    b := Extended(b, ProbeRef(0, Found));
    b := Extended(b, ReadRef(0, true));
    b := Extended(b, Begin(1, VerifyOwned, input));
    b := Extended(b, ProbeRef(1, Found));
    b := Extended(b, ReadRef(1, true));
  }

  lemma Started(s: State) returns (b: Behaviour)
    requires s.runs == map[] && s.createdBy == map[]
    ensures Possible(b) && |b.states| == 1 && b.states[0] == s
  {
    b := Behaviour([s], []);
  }

  lemma Extended(b: Behaviour, a: Action) returns (c: Behaviour)
    requires Possible(b) && Enabled(b.states[|b.states| - 1], a)
    ensures Possible(c) && c.states[0] == b.states[0] && |c.states| > 0
    ensures c.states[|c.states| - 1] == Apply(b.states[|b.states| - 1], a)
  {
    c := Behaviour(b.states + [Apply(b.states[|b.states| - 1], a)], b.actions + [a]);
  }
}
