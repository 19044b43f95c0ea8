/** One value claimed by many processes through a file and a lock beside it: the shared session
    (packages/channel-runtime/src/core.ts:833-886) and the first use of a bundle
    (packages/channel-runtime/src/bundled-env.ts:150-174).

    The lock excludes mutually and a rename is atomic; everything else may fail at any point, also a
    publication after its rename took effect. The code between two awaits is one step. */
module LockedClaim {
  import opened Basics

  /** A call that only claims begins at `Locking`; one that also looks first begins at `Looking`. */
  datatype Phase<V> =
    | Looking
    | Locking
    | Rereading
    | Proposing
    | Publishing(proposal: V)
    | Releasing(result: Option<V>)
    | Done(result: Option<V>)

  datatype Call<V> = Call(process: int, phase: Phase<V>)

  /** `caches` is what each running process remembers. */
  datatype State<V> = State(file: Option<V>, holder: Option<int>, calls: map<int, Call<V>>, caches: map<int, V>)

  datatype Action<V> =
    | Begin(c: int, process: int, looks: bool)
    | Look(c: int, ok: bool)
    | GiveUp(c: int)
    | Lock(c: int)
    | Reread(c: int, ok: bool)
    | Propose(c: int, proposal: Option<V>)
    | Publish(c: int, applied: bool, ok: bool)
    | Release(c: int, freed: bool, ok: bool)
    | Warm(process: int)
    | Crash(process: int)

  ghost predicate In<V(!new)>(s: State<V>, c: int, phase: Phase<V> -> bool) {
    c in s.calls && phase(s.calls[c].phase)
  }

  ghost predicate Enabled<V(!new)>(s: State<V>, a: Action<V>) {
    match a
    case Begin(c, _, _) => c !in s.calls
    case Look(c, _) => In(s, c, (p: Phase<V>) => p.Looking?)
    case GiveUp(c) => In(s, c, (p: Phase<V>) => p.Locking?)
    case Lock(c) => In(s, c, (p: Phase<V>) => p.Locking?) && s.holder == None
    case Reread(c, _) => In(s, c, (p: Phase<V>) => p.Rereading?)
    case Propose(c, _) => In(s, c, (p: Phase<V>) => p.Proposing?)
    case Publish(c, applied, ok) => In(s, c, (p: Phase<V>) => p.Publishing?) && (ok ==> applied)
    case Release(c, freed, ok) => In(s, c, (p: Phase<V>) => p.Releasing?) && (ok ==> freed)
    case Warm(_) => s.file.Some?
    case Crash(_) => true
  }

  function To<V>(s: State<V>, c: int, phase: Phase<V>): State<V>
    requires c in s.calls
  {
    s.(calls := s.calls[c := s.calls[c].(phase := phase)])
  }

  /** The process of the call remembers the value. */
  function Remember<V>(s: State<V>, c: int, v: V): State<V>
    requires c in s.calls
  {
    s.(caches := s.caches[s.calls[c].process := v])
  }

  ghost function Apply<V(!new)>(s: State<V>, a: Action<V>): State<V>
    requires Enabled(s, a)
  {
    match a
    case Begin(c, process, looks) =>
      var phase := if !looks then Locking
                   else if process in s.caches then Done(Some(s.caches[process])) else Looking;
      s.(calls := s.calls[c := Call(process, phase)])
    case Look(c, ok) =>
      if !ok then To(s, c, Done(None))
      else if s.file.Some? then To(Remember(s, c, s.file.value), c, Done(s.file))
      else To(s, c, Locking)
    case GiveUp(c) => To(s, c, Done(None))
    case Lock(c) => To(s.(holder := Some(c)), c, Rereading)
    case Reread(c, ok) =>
      if !ok then To(s, c, Releasing(None))
      else if s.file.Some? then To(Remember(s, c, s.file.value), c, Releasing(s.file))
      else To(s, c, Proposing)
    case Propose(c, proposal) =>
      To(s, c, if proposal.Some? then Publishing(proposal.value) else Releasing(None))
    case Publish(c, applied, ok) =>
      var v := s.calls[c].phase.proposal;
      var written := if applied then s.(file := Some(v)) else s;
      if ok then To(Remember(written, c, v), c, Releasing(Some(v))) else To(written, c, Releasing(None))
    case Release(c, freed, ok) =>
      var result := s.calls[c].phase.result;
      To(if freed then s.(holder := None) else s, c, Done(if ok then result else None))
    case Warm(process) => s.(caches := s.caches[process := s.file.value])
    case Crash(process) =>
      s.(caches := s.caches - {process},
         calls := map c | c in s.calls ::
           if s.calls[c].process == process then s.calls[c].(phase := Done(None)) else s.calls[c])
  }

  datatype Behaviour<V> = Behaviour(states: seq<State<V>>, actions: seq<Action<V>>)

  ghost predicate Possible<V(!new)>(b: Behaviour<V>) {
    && |b.states| == |b.actions| + 1
    && b.states[0].calls == map[] && b.states[0].caches == map[] && b.states[0].holder == None
    && forall i :: 0 <= i < |b.actions| ==>
         Enabled(b.states[i], b.actions[i]) && b.states[i + 1] == Apply(b.states[i], b.actions[i])
  }

  // ----- the invariant -----

  predicate Holds<V>(p: Phase<V>) {
    p.Rereading? || p.Proposing? || p.Publishing? || p.Releasing?
  }

  ghost predicate CallInv<V(!new)>(s: State<V>, c: int)
    requires c in s.calls
  {
    var p := s.calls[c].phase;
    && (Holds(p) ==> s.holder == Some(c))
    && (p.Proposing? || p.Publishing? ==> s.file == None)
    && ((p.Releasing? || p.Done?) && p.result.Some? ==> s.file == p.result)
  }

  ghost predicate Inv<V(!new)>(s: State<V>) {
    && (forall c :: c in s.calls ==> CallInv(s, c))
    && forall p :: p in s.caches ==> s.file == Some(s.caches[p])
  }

  lemma StepKeepsInv<V(!new)>(s: State<V>, a: Action<V>)
    requires Inv(s) && Enabled(s, a)
    ensures Inv(Apply(s, a))
    ensures s.file.Some? ==> Apply(s, a).file == s.file
  {
    var t := Apply(s, a);
    forall c | c in t.calls
      ensures CallInv(t, c)
    {
      if c in s.calls {
        assert CallInv(s, c);
      }
      if a.Publish? {
        assert CallInv(s, a.c);
      }
      if a.Release? {
        assert CallInv(s, a.c);
      }
    }
  }

  lemma {:induction false} Reachable<V(!new)>(b: Behaviour<V>, i: nat)
    requires Possible(b) && i < |b.states|
    ensures Inv(b.states[i])
  {
    if i > 0 {
      Reachable(b, i - 1);
      StepKeepsInv(b.states[i - 1], b.actions[i - 1]);
    }
  }

  // ----- the results -----

  /** A published value is never replaced. */
  lemma {:induction false} PublishedNeverChanges<V(!new)>(b: Behaviour<V>, i: nat, j: nat)
    requires Possible(b) && i <= j < |b.states| && b.states[i].file.Some?
    ensures b.states[j].file == b.states[i].file
  {
    if i < j {
      PublishedNeverChanges(b, i, j - 1);
      Reachable(b, j - 1);
      StepKeepsInv(b.states[j - 1], b.actions[j - 1]);
    }
  }

  ghost predicate Returned<V(!new)>(s: State<V>, c: int, v: V) {
    c in s.calls && s.calls[c].phase == Done(Some(v))
  }

  /** Whichever calls return a value, and whenever, they return the same one; it is published by the
      time the first returns, and stays so. */
  lemma OneValueForAll<V(!new)>(b: Behaviour<V>, i: nat, c: int, v: V, j: nat, d: int, w: V)
    requires Possible(b) && i < |b.states| && j < |b.states|
    requires Returned(b.states[i], c, v) && Returned(b.states[j], d, w)
    ensures v == w
    ensures forall k :: i <= k < |b.states| ==> b.states[k].file == Some(v)
  {
    Reachable(b, i);
    Reachable(b, j);
    assert CallInv(b.states[i], c) && CallInv(b.states[j], d);
    PublishedNeverChanges(b, if i <= j then i else j, if i <= j then j else i);
    forall k | i <= k < |b.states|
      ensures b.states[k].file == Some(v)
    {
      PublishedNeverChanges(b, i, k);
    }
  }

  ghost predicate TakesEffect<V(!new)>(a: Action<V>) {
    a.Publish? && a.applied
  }

  /** At most one publication ever takes effect, and none where there was a value to begin with. */
  lemma OnePublication<V(!new)>(b: Behaviour<V>, i: nat, j: nat)
    requires Possible(b) && i < |b.actions| && j < |b.actions| && TakesEffect(b.actions[i]) && TakesEffect(b.actions[j])
    ensures i == j && b.states[0].file == None
  {
    PublicationFindsNone(b, i);
    PublicationFindsNone(b, j);
    if b.states[0].file.Some? {
      PublishedNeverChanges(b, 0, i);
    }
    if i < j {
      PublishedNeverChanges(b, i + 1, j);
    } else if j < i {
      PublishedNeverChanges(b, j + 1, i);
    }
  }

  lemma PublicationFindsNone<V(!new)>(b: Behaviour<V>, i: nat)
    requires Possible(b) && i < |b.actions| && TakesEffect(b.actions[i])
    ensures b.states[i].file == None && b.states[i + 1].file.Some?
  {
    Reachable(b, i);
    assert CallInv(b.states[i], b.actions[i].c);
  }

  /** What is returned was there at the start, or some call proposed it. */
  lemma {:induction false} ValueWasProposed<V(!new)>(b: Behaviour<V>, i: nat)
    requires Possible(b) && i < |b.states| && b.states[i].file.Some?
    ensures b.states[0].file == b.states[i].file ||
      exists k :: 0 <= k < i && TakesEffect(b.actions[k]) && b.states[k + 1].file == b.states[i].file
  {
    if i > 0 {
      if b.states[i - 1].file.Some? {
        PublishedNeverChanges(b, i - 1, i);
        ValueWasProposed(b, i - 1);
      } else {
        assert TakesEffect(b.actions[i - 1]);
      }
    }
  }

  /** Two calls are never between taking the lock and giving it back at the same time. */
  lemma LockExcludes<V(!new)>(b: Behaviour<V>, i: nat, c: int, d: int)
    requires Possible(b) && i < |b.states| && c in b.states[i].calls && d in b.states[i].calls
    requires Holds(b.states[i].calls[c].phase) && Holds(b.states[i].calls[d].phase)
    ensures c == d
  {
    Reachable(b, i);
    assert CallInv(b.states[i], c) && CallInv(b.states[i], d);
  }

  // ----- a call that nothing disturbs -----

  function Last<V>(b: Behaviour<V>): State<V>
    requires |b.states| > 0
  {
    b.states[|b.states| - 1]
  }

  lemma Extended<V(!new)>(b: Behaviour<V>, a: Action<V>) returns (c: Behaviour<V>)
    requires Possible(b) && Enabled(Last(b), a)
    ensures Possible(c) && b.states <= c.states && Last(c) == Apply(Last(b), a)
  {
    c := Behaviour(b.states + [Apply(Last(b), a)], b.actions + [a]);
  }

  /** The state after a call has returned the value. */
  ghost function Served<V(!new)>(s: State<V>, c: int, process: int, v: V): State<V> {
    State(Some(v), None, s.calls[c := Call(process, Done(Some(v)))], s.caches[process := v])
  }

  /** The state with the call where it is. */
  ghost function At<V(!new)>(s: State<V>, c: int, process: int, phase: Phase<V>): State<V> {
    s.(calls := s.calls[c := Call(process, phase)])
  }

  lemma Locks<V(!new)>(b: Behaviour<V>, s: State<V>, c: int, process: int) returns (d: Behaviour<V>)
    requires Possible(b) && Last(b) == At(s, c, process, Locking) && s.holder == None
    ensures Possible(d) && b.states <= d.states && Last(d) == At(s.(holder := Some(c)), c, process, Rereading)
  {
    hide Possible;
    d := Extended(b, Lock(c));
  }

  lemma Publishes<V(!new)>(b: Behaviour<V>, s: State<V>, c: int, process: int, v: V) returns (d: Behaviour<V>)
    requires Possible(b) && Last(b) == At(s, c, process, Rereading) && s.file == None
    ensures Possible(d) && b.states <= d.states
    ensures Last(d) == At(s.(file := Some(v), caches := s.caches[process := v]), c, process, Releasing(Some(v)))
  {
    hide Possible;
    d := Extended(b, Reread(c, true));
    assert Last(d) == At(s, c, process, Proposing);
    d := Extended(d, Propose(c, Some(v)));
    assert Last(d) == At(s, c, process, Publishing(v));
    d := Extended(d, Publish(c, true, true));
  }

  lemma Finds<V(!new)>(b: Behaviour<V>, s: State<V>, c: int, process: int) returns (d: Behaviour<V>)
    requires Possible(b) && Last(b) == At(s, c, process, Rereading) && s.file.Some?
    ensures Possible(d) && b.states <= d.states
    ensures Last(d) == At(s.(caches := s.caches[process := s.file.value]), c, process, Releasing(s.file))
  {
    hide Possible;
    d := Extended(b, Reread(c, true));
  }

  lemma Releases<V(!new)>(b: Behaviour<V>, s: State<V>, c: int, process: int, v: V) returns (d: Behaviour<V>)
    requires Possible(b) && Last(b) == At(s, c, process, Releasing(Some(v)))
    ensures Possible(d) && b.states <= d.states && Last(d) == At(s.(holder := None), c, process, Done(Some(v)))
  {
    hide Possible;
    d := Extended(b, Release(c, true, true));
  }

  lemma LockedCallReturns<V(!new)>(b: Behaviour<V>, s: State<V>, c: int, process: int, proposal: V)
    returns (d: Behaviour<V>)
    requires Possible(b) && s.holder == None && Last(b) == At(s, c, process, Locking)
    ensures Possible(d) && b.states <= d.states
    ensures Last(d) == Served(s, c, process, if s.file.Some? then s.file.value else proposal)
  {
    hide Possible;
    d := Locks(b, s, c, process);
    var locked := s.(holder := Some(c));
    if s.file == None {
      d := Publishes(d, locked, c, process, proposal);
      d := Releases(d, locked.(file := Some(proposal), caches := s.caches[process := proposal]), c, process, proposal);
    } else {
      d := Finds(d, locked, c, process);
      d := Releases(d, locked.(caches := s.caches[process := s.file.value]), c, process, s.file.value);
    }
  }

  lemma HasStates<V(!new)>(b: Behaviour<V>)
    requires Possible(b)
    ensures |b.states| > 0 && Inv(Last(b))
  {
    Reachable(b, |b.states| - 1);
  }

  /** Wherever a behaviour has come to with the lock free, a call that nothing disturbs returns the published
      value, after publishing the one it proposes if there was none, and gives the lock back; its process
      then remembers the value. */
  lemma UndisturbedCallReturns<V(!new)>(b: Behaviour<V>, c: int, process: int, looks: bool, proposal: V)
    returns (d: Behaviour<V>)
    requires Possible(b) && c !in Last(b).calls && Last(b).holder == None
    ensures Possible(d) && b.states <= d.states && Last(d).holder == None
    ensures var v := if Last(b).file.Some? then Last(b).file.value else proposal;
      Last(d).file == Some(v) && Returned(Last(d), c, v) && process in Last(d).caches && Last(d).caches[process] == v
  {
    hide Possible, CallInv;
    HasStates(b);
    var s := Last(b);
    d := Extended(b, Begin(c, process, looks));
    if looks && process !in s.caches {
      d := Extended(d, Look(c, true));
    }
    if !looks || (process !in s.caches && s.file == None) {
      d := LockedCallReturns(d, s, c, process, proposal);
    }
  }
}
