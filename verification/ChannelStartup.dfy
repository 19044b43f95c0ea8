/** Startup of the channel adapters (packages/channel-runtime/src/core.ts:209-291).

    Each adapter has an owner that buffers messages until the adapter is ready and then feeds them,
    one after the other, to the message handler. The code between two `await`s is one step; the
    steps of all owners interleave freely. */
module ChannelStartup {

  const STARTUP_MESSAGE_LIMIT: nat := 1000

  datatype Message = Message(platform: string, channel: string, thread: string, text: string)

  /** Where `adapter.start()` and what follows it stand. */
  datatype Stage = Starting | Delivering | Cleaning | Fulfilled | Rejected

  /** `chain` holds every message ever queued on the `delivery` promise; the first `begun` of them
      have been handed to the handler, the last of these is still running if `handling`, and after a
      handler that failed (`broken`) the promise chain runs no further. `mark` is the length of the
      chain that the start awaits. `accepted` records the messages that were not refused or dropped,
      in the order of their arrival. */
  datatype Owner = Owner(
    stage: Stage, admitted: bool, settled: bool, failed: bool, buffer: seq<Message>,
    chain: seq<Message>, begun: nat, handling: bool, broken: bool, mark: nat,
    accepted: seq<Message>)

  const NEW_OWNER := Owner(Starting, false, false, false, [], [], 0, false, false, 0, [])

  datatype State = State(owners: seq<Owner>, adapters: seq<nat>, cleanupPending: set<nat>)

  datatype Event =
    | Arrives(i: nat, message: Message)
    | StartResolves(i: nat)
    | StartRejects(i: nat)
    | HandlerBegins(i: nat)
    | HandlerEnds(i: nat, ok: bool)
    | DeliveryResolves(i: nat)
    | DeliveryRejects(i: nat)
    | CleanupEnds(i: nat, ok: bool)

  /** The message callback of an adapter. */
  function Receive(o: Owner, m: Message): Owner {
    if o.admitted then o.(chain := o.chain + [m], accepted := o.accepted + [m])
    else if o.failed || o.settled then o
    else if |o.buffer| >= STARTUP_MESSAGE_LIMIT then o.(failed := true)
    else o.(buffer := o.buffer + [m], accepted := o.accepted + [m])
  }

  function Fail(o: Owner): Owner {
    o.(admitted := false, settled := true, buffer := [], stage := Cleaning)
  }

  function Admit(o: Owner): Owner {
    o.(chain := o.chain + o.buffer, buffer := [], admitted := true, stage := Delivering,
       mark := |o.chain| + |o.buffer|)
  }

  /** The promise the start awaits settles with the first `mark` deliveries. */
  predicate MarkResolved(o: Owner) {
    o.begun > o.mark || (o.begun == o.mark && !o.handling && !o.broken)
  }

  predicate MarkRejected(o: Owner) {
    o.broken && o.begun <= o.mark
  }

  predicate Possible(o: Owner, e: Event) {
    match e
    case Arrives(_, _) => true
    case StartResolves(_) => o.stage == Starting
    case StartRejects(_) => o.stage == Starting
    case HandlerBegins(_) => !o.handling && !o.broken && o.begun < |o.chain|
    case HandlerEnds(_, _) => o.handling
    case DeliveryResolves(_) => o.stage == Delivering && MarkResolved(o)
    case DeliveryRejects(_) => o.stage == Delivering && MarkRejected(o)
    case CleanupEnds(_, _) => o.stage == Cleaning
  }

  function Next(o: Owner, e: Event): Owner {
    match e
    case Arrives(_, m) => Receive(o, m)
    case StartResolves(_) => if o.failed then Fail(o) else Admit(o)
    case StartRejects(_) => Fail(o)
    case HandlerBegins(_) => o.(begun := o.begun + 1, handling := true)
    case HandlerEnds(_, ok) => o.(handling := false, broken := !ok)
    case DeliveryResolves(_) => o.(settled := true, stage := Fulfilled)
    case DeliveryRejects(_) => Fail(o)
    case CleanupEnds(_, _) => o.(stage := Rejected)
  }

  /** The admitted owners from `from` on, in registration order. */
  function Published(owners: seq<Owner>, from: nat): (adapters: seq<nat>)
    requires from <= |owners|
    decreases |owners| - from
  {
    if from == |owners| then []
    else if owners[from].admitted then [from] + Published(owners, from + 1)
    else Published(owners, from + 1)
  }

  predicate Republishes(e: Event) {
    e.StartResolves? || e.StartRejects? || e.DeliveryRejects?
  }

  ghost predicate Enabled(s: State, e: Event) {
    e.i < |s.owners| && Possible(s.owners[e.i], e)
  }

  function Apply(s: State, e: Event): State
    requires Enabled(s, e)
  {
    var owners := s.owners[e.i := Next(s.owners[e.i], e)];
    State(owners,
          if Republishes(e) then Published(owners, 0) else s.adapters,
          if e.CleanupEnds? && !e.ok then s.cleanupPending + {e.i} else s.cleanupPending)
  }

  // ----- the runtime object -----

  class ChannelRuntime {
    const owners: array<Owner>
    var adapters: seq<nat>
    var cleanupPending: set<nat>

    ghost function View(): State
      reads this, owners
    {
      State(owners[..], adapters, cleanupPending)
    }

    constructor (candidates: nat)
      ensures fresh(owners) && View() == Initial(candidates)
    {
      var all := new Owner[candidates](_ => NEW_OWNER);
      owners, adapters, cleanupPending := all, [], {};
      new;
      assert owners[..] == seq(candidates, _ => NEW_OWNER);
    }

    method OnMessage(i: nat, message: Message) returns (refused: bool)
      requires i < owners.Length
      modifies owners
      ensures View() == Apply(old(View()), Arrives(i, message))
      ensures refused <==> !owners[i].admitted && owners[i].failed
    {
      var owner := owners[i];
      if !owner.admitted {
        if owner.failed {
          assert owners[..] == old(owners[..])[i := owner];
          return true;
        }
        if !owner.settled {
          if |owner.buffer| >= STARTUP_MESSAGE_LIMIT {
            owners[i] := owner.(failed := true);
            return true;
          }
          owner := owner.(buffer := owner.buffer + [message], accepted := owner.accepted + [message]);
        }
        owners[i] := owner;
        return false;
      }
      owners[i] := owner.(chain := owner.chain + [message], accepted := owner.accepted + [message]);
      return false;
    }

    method PublishActiveAdapters()
      modifies this`adapters
      ensures adapters == Published(owners[..], 0)
    {
      adapters := Published(owners[..], 0);
    }

    method Reject(i: nat)
      requires i < owners.Length
      modifies this`adapters, owners
      ensures owners[..] == old(owners[..])[i := Fail(old(owners[i]))]
      ensures adapters == Published(owners[..], 0)
    {
      owners[i] := owners[i].(admitted := false, settled := true, buffer := [], stage := Cleaning);
      PublishActiveAdapters();
    }

    /** `adapter.start()` has settled. */
    method OnStart(i: nat, ok: bool)
      requires i < owners.Length && owners[i].stage == Starting
      modifies this`adapters, owners
      ensures View() == Apply(old(View()), if ok then StartResolves(i) else StartRejects(i))
    {
      var owner := owners[i];
      if !ok || owner.failed {
        Reject(i);
        return;
      }
      var n := 0;
      assert owner.chain + owner.buffer[..0] == owner.chain;
      while n < |owner.buffer|
        invariant 0 <= n <= |owner.buffer|
        invariant owners[..] == old(owners[..])[i := owner.(chain := owner.chain + owner.buffer[..n])]
      {
        owners[i] := owners[i].(chain := owners[i].chain + [owner.buffer[n]]);
        n := n + 1;
        assert owner.chain + owner.buffer[..n] == owner.chain + owner.buffer[..n - 1] + [owner.buffer[n - 1]];
      }
      assert owner.buffer[..n] == owner.buffer;
      owners[i] := owners[i].(buffer := [], admitted := true, stage := Delivering, mark := |owners[i].chain|);
      assert owners[..] == old(owners[..])[i := Admit(owner)];
      PublishActiveAdapters();
    }

    /** The awaited delivery has settled. */
    method OnDelivery(i: nat, ok: bool)
      requires i < owners.Length && owners[i].stage == Delivering
      requires if ok then MarkResolved(owners[i]) else MarkRejected(owners[i])
      modifies this`adapters, owners
      ensures View() == Apply(old(View()), if ok then DeliveryResolves(i) else DeliveryRejects(i))
    {
      if ok {
        owners[i] := owners[i].(settled := true, stage := Fulfilled);
      } else {
        Reject(i);
      }
    }

    method OnCleanup(i: nat, ok: bool)
      requires i < owners.Length && owners[i].stage == Cleaning
      modifies this`cleanupPending, owners
      ensures View() == Apply(old(View()), CleanupEnds(i, ok))
    {
      owners[i] := owners[i].(stage := Rejected);
      if !ok {
        cleanupPending := cleanupPending + {i};
      }
    }
  }

  // ----- every interleaving -----

  function Initial(candidates: nat): State {
    State(seq(candidates, _ => NEW_OWNER), [], {})
  }

  datatype Behaviour = Behaviour(states: seq<State>, events: seq<Event>)

  ghost predicate Interleaving(b: Behaviour, candidates: nat) {
    && |b.states| == |b.events| + 1 && b.states[0] == Initial(candidates)
    && forall k :: 0 <= k < |b.events| ==>
         Enabled(b.states[k], b.events[k]) && b.states[k + 1] == Apply(b.states[k], b.events[k])
  }

  ghost predicate OwnerInv(o: Owner) {
    && |o.buffer| <= STARTUP_MESSAGE_LIMIT
    && o.begun <= |o.chain| && o.chain <= o.accepted
    && (o.handling || o.broken ==> o.begun > 0)
    && !(o.handling && o.broken)
    && (o.failed ==> !o.admitted && o.chain == [])
    && match o.stage
       case Starting => !o.admitted && !o.settled && o.chain == [] && o.accepted == o.buffer
       case Delivering =>
         o.admitted && !o.settled && o.chain == o.accepted && o.mark <= |o.chain| && o.buffer == []
       case Fulfilled =>
         o.admitted && o.settled && o.chain == o.accepted && MarkReached(o) && o.buffer == []
       case _ => !o.admitted && o.settled && o.buffer == []
  }

  /** The deliveries the start waited for have all been handled. */
  ghost predicate MarkReached(o: Owner) {
    o.mark <= o.begun && (o.begun == o.mark ==> !o.handling && !o.broken)
  }

  ghost predicate Inv(s: State) {
    && (forall i :: 0 <= i < |s.owners| ==> OwnerInv(s.owners[i]))
    && s.adapters == Published(s.owners, 0)
    && (forall i :: i in s.cleanupPending ==> i < |s.owners| && s.owners[i].stage == Rejected)
  }

  lemma NextKeepsOwnerInv(o: Owner, e: Event)
    requires OwnerInv(o) && Possible(o, e)
    ensures OwnerInv(Next(o, e))
    ensures !Republishes(e) ==> Next(o, e).admitted == o.admitted
  {
  }

  lemma {:induction false} PublishedDepends(a: seq<Owner>, b: seq<Owner>, from: nat)
    requires |a| == |b| && from <= |a|
    requires forall i :: 0 <= i < |a| ==> a[i].admitted == b[i].admitted
    ensures Published(a, from) == Published(b, from)
    decreases |a| - from
  {
    if from < |a| {
      PublishedDepends(a, b, from + 1);
    }
  }

  lemma StepKeepsInv(s: State, e: Event)
    requires Inv(s) && Enabled(s, e)
    ensures Inv(Apply(s, e))
  {
    NextKeepsOwnerInv(s.owners[e.i], e);
    if !Republishes(e) {
      PublishedDepends(s.owners, Apply(s, e).owners, 0);
    }
  }

  lemma {:induction false} Reachable(b: Behaviour, candidates: nat, k: nat)
    requires Interleaving(b, candidates) && k < |b.states|
    ensures Inv(b.states[k]) && |b.states[k].owners| == candidates
  {
    if k == 0 {
      NoneAdmitted(candidates, 0);
    } else {
      Reachable(b, candidates, k - 1);
      StepKeepsInv(b.states[k - 1], b.events[k - 1]);
    }
  }

  lemma {:induction false} NoneAdmitted(candidates: nat, from: nat)
    requires from <= candidates
    ensures Published(Initial(candidates).owners, from) == []
    decreases candidates - from
  {
    if from < candidates {
      NoneAdmitted(candidates, from + 1);
    }
  }

  /** The messages handed to the handler. */
  function Handed(o: Owner): seq<Message>
    requires o.begun <= |o.chain|
  {
    o.chain[..o.begun]
  }

  // ----- main results -----

  /** The messages that arrived at an adapter, in order. */
  function Arrived(events: seq<Event>, i: nat): seq<Message> {
    if events == [] then []
    else
      var e := events[|events| - 1];
      Arrived(events[..|events| - 1], i) + if e.Arrives? && e.i == i then [e.message] else []
  }

  /** The start of the adapter has not settled. */
  ghost predicate Pending(events: seq<Event>, i: nat) {
    forall k :: 0 <= k < |events| && events[k].i == i ==> !events[k].StartResolves? && !events[k].StartRejects?
  }

  /** More messages than the limit arrived while the start was pending. */
  ghost predicate Overflows(events: seq<Event>, i: nat) {
    exists m :: 0 <= m <= |events| && Pending(events[..m], i) && |Arrived(events[..m], i)| > STARTUP_MESSAGE_LIMIT
  }

  /** What an owner records is what the events say. */
  ghost predicate Records(o: Owner, events: seq<Event>, i: nat) {
    && (o.stage == Starting <==> Pending(events, i))
    && (o.failed <==> Overflows(events, i))
    && (!o.failed && (o.stage == Starting || o.stage == Delivering || o.stage == Fulfilled) ==>
         o.accepted == Arrived(events, i))
    && o.accepted <= Arrived(events, i)
    && (o.failed ==> |o.accepted| == STARTUP_MESSAGE_LIMIT)
  }

  lemma PendingStep(events: seq<Event>, e: Event, i: nat)
    ensures Pending(events + [e], i) <==>
      Pending(events, i) && !(e.i == i && (e.StartResolves? || e.StartRejects?))
  {
    assert forall k :: 0 <= k < |events| ==> (events + [e])[k] == events[k];
    assert (events + [e])[|events|] == e;
  }

  lemma ArrivedStep(events: seq<Event>, e: Event, i: nat)
    ensures Arrived(events + [e], i) == Arrived(events, i) + if e.Arrives? && e.i == i then [e.message] else []
  {
    assert (events + [e])[..|events|] == events;
  }

  lemma OverflowsStep(events: seq<Event>, e: Event, i: nat)
    ensures Overflows(events + [e], i) <==>
      Overflows(events, i) ||
      (Pending(events + [e], i) && |Arrived(events + [e], i)| > STARTUP_MESSAGE_LIMIT)
  {
    hide Pending, Arrived;
    var all := events + [e];
    assert forall m :: 0 <= m <= |events| ==> all[..m] == events[..m];
    assert all[..|all|] == all;
  }

  lemma NextRecords(o: Owner, e: Event, events: seq<Event>, i: nat)
    requires OwnerInv(o) && Possible(o, e) && Records(o, events, i) && e.i == i
    ensures Records(Next(o, e), events + [e], i)
  {
    hide Pending, Arrived, Overflows;
    PendingStep(events, e, i);
    ArrivedStep(events, e, i);
    OverflowsStep(events, e, i);
  }

  lemma OtherRecords(o: Owner, e: Event, events: seq<Event>, i: nat)
    requires Records(o, events, i) && e.i != i && OwnerInv(o)
    ensures Records(o, events + [e], i)
  {
    hide Pending, Arrived, Overflows;
    PendingStep(events, e, i);
    ArrivedStep(events, e, i);
    OverflowsStep(events, e, i);
  }

  /** What is accepted is what arrives: in every interleaving, an owner that is neither rejected nor has
      overflowed has accepted all messages that arrived, in order; and an owner overflows exactly when more
      than the limit arrive before its start settles, with the first of them accepted. */
  lemma {:induction false} AcceptedIsArrived(b: Behaviour, candidates: nat, k: nat, i: nat)
    requires Interleaving(b, candidates) && k < |b.states| && i < candidates
    ensures i < |b.states[k].owners| && Records(b.states[k].owners[i], b.events[..k], i)
  {
    hide Records, OwnerInv, Possible, Next;
    Reachable(b, candidates, k);
    if k == 0 {
      NothingArrived(i);
    } else {
      AcceptedIsArrived(b, candidates, k - 1, i);
      Reachable(b, candidates, k - 1);
      assert b.events[..k] == b.events[..k - 1] + [b.events[k - 1]];
      var o, e := b.states[k - 1].owners[i], b.events[k - 1];
      if e.i == i {
        NextRecords(o, e, b.events[..k - 1], i);
      } else {
        OtherRecords(o, e, b.events[..k - 1], i);
      }
    }
  }

  lemma NothingArrived(i: nat)
    ensures Records(NEW_OWNER, [], i)
  {
  }

  /** In every interleaving, the messages handed on are a prefix of those that arrived, each once and in
      order; the buffer stays within its limit; an adapter that overflowed is never admitted and none of
      its messages is handed on. */
  lemma DeliveryIsAPrefix(b: Behaviour, candidates: nat, k: nat, i: nat)
    requires Interleaving(b, candidates) && k < |b.states| && i < candidates
    ensures i < |b.states[k].owners|
    ensures var o := b.states[k].owners[i];
      && o.begun <= |o.chain| && Handed(o) <= Arrived(b.events[..k], i)
      && |o.buffer| <= STARTUP_MESSAGE_LIMIT
      && (Overflows(b.events[..k], i) ==> !o.admitted && Handed(o) == [])
  {
    hide Overflows, Arrived, Pending;
    Reachable(b, candidates, k);
    AcceptedIsArrived(b, candidates, k, i);
  }

  /** The first messages handed on are these, and their handlers have ended without failing. */
  ghost predicate Delivered(messages: seq<Message>, o: Owner) {
    o.begun <= |o.chain| && messages <= Handed(o) && (o.begun == |messages| ==> !o.handling && !o.broken)
  }

  /** What was accepted while the adapter was starting is buffered, and then lies before the mark. */
  ghost predicate Kept(messages: seq<Message>, o: Owner) {
    messages <= o.accepted && (o.stage == Delivering || o.stage == Fulfilled ==> |messages| <= o.mark)
  }

  lemma {:induction false} BufferedIsKept(b: Behaviour, candidates: nat, m: nat, k: nat, i: nat)
    requires Interleaving(b, candidates) && m <= k < |b.states| && i < candidates
    ensures i < |b.states[m].owners| && i < |b.states[k].owners|
    ensures b.states[m].owners[i].stage == Starting ==> Kept(b.states[m].owners[i].accepted, b.states[k].owners[i])
    decreases k
  {
    hide OwnerInv, Possible, Next, Kept;
    Reachable(b, candidates, m);
    Reachable(b, candidates, k);
    if m < k {
      BufferedIsKept(b, candidates, m, k - 1, i);
      Reachable(b, candidates, k - 1);
      if b.states[m].owners[i].stage == Starting && b.events[k - 1].i == i {
        StepKeeps(b.states[m].owners[i].accepted, b.states[k - 1].owners[i], b.events[k - 1]);
      }
    } else if b.states[m].owners[i].stage == Starting {
      StartKeeps(b.states[m].owners[i]);
    }
  }

  lemma StartKeeps(o: Owner)
    requires o.stage == Starting
    ensures Kept(o.accepted, o)
  {
  }

  lemma StepKeeps(messages: seq<Message>, o: Owner, e: Event)
    requires OwnerInv(o) && Possible(o, e) && Kept(messages, o)
    ensures Kept(messages, Next(o, e))
  {
  }

  /** The prefix is all that arrived once a started adapter is idle and no handler has failed; and when a
      start succeeds, the handlers of everything that arrived before it settled have ended. */
  lemma DeliveryIsComplete(b: Behaviour, candidates: nat, m: nat, k: nat, i: nat)
    requires Interleaving(b, candidates) && m <= k < |b.states| && i < candidates
    ensures i < |b.states[k].owners|
    ensures var o := b.states[k].owners[i];
      && o.begun <= |o.chain|
      && (o.admitted && !o.broken && !o.handling && !Possible(o, HandlerBegins(i)) ==>
           Handed(o) == Arrived(b.events[..k], i))
      && (Pending(b.events[..m], i) && o.stage == Fulfilled ==> Delivered(Arrived(b.events[..m], i), o))
  {
    hide Arrived, Pending, Overflows;
    Reachable(b, candidates, k);
    AcceptedIsArrived(b, candidates, k, i);
    AcceptedIsArrived(b, candidates, m, i);
    BufferedIsKept(b, candidates, m, k, i);
    OverflowLasts(b.events, m, k, i);
  }

  lemma OverflowLasts(events: seq<Event>, m: nat, k: nat, i: nat)
    requires m <= k <= |events|
    ensures Overflows(events[..m], i) ==> Overflows(events[..k], i)
  {
    assert forall j :: 0 <= j <= m ==> events[..m][..j] == events[..k][..j];
  }

  /** A start that resolves admits its adapter, with all that has arrived queued and to be waited for, if and
      only if the adapter has not overflowed; a start that rejects never does. */
  lemma AdmittedExactly(b: Behaviour, candidates: nat, k: nat, i: nat)
    requires Interleaving(b, candidates) && k < |b.events| && i < candidates
    requires b.events[k] == StartResolves(i) || b.events[k] == StartRejects(i)
    ensures i < |b.states[k + 1].owners|
    ensures var o, came := b.states[k + 1].owners[i], Arrived(b.events[..k], i);
      if b.events[k].StartResolves? && !Overflows(b.events[..k], i) then
        o.stage == Delivering && o.admitted && o.chain == came && o.mark == |came| && i in b.states[k + 1].adapters
      else o.stage == Cleaning && !o.admitted && i !in b.states[k + 1].adapters
  {
    hide Arrived, Overflows, Pending;
    AcceptedIsArrived(b, candidates, k, i);
    Reachable(b, candidates, k);
    AdaptersAreTheAdmitted(b, candidates, k + 1);
  }

  ghost predicate Continues(o: Owner, later: Owner) {
    && o.begun <= |o.chain| && later.begun <= |later.chain|
    && o.accepted <= later.accepted && Handed(o) <= Handed(later)
  }

  lemma StepContinues(s: State, e: Event, i: nat)
    requires Inv(s) && Enabled(s, e) && i < |s.owners|
    ensures Continues(s.owners[i], Apply(s, e).owners[i])
  {
    StepKeepsInv(s, e);
  }

  /** Nothing that was accepted or handed on is ever forgotten or reordered. */
  lemma {:induction false} AcceptedOnlyGrows(b: Behaviour, candidates: nat, k: nat, m: nat, i: nat)
    requires Interleaving(b, candidates) && k <= m < |b.states| && i < candidates
    ensures i < |b.states[k].owners| && i < |b.states[m].owners|
    ensures Continues(b.states[k].owners[i], b.states[m].owners[i])
  {
    hide OwnerInv, Possible, Next, Handed;
    Reachable(b, candidates, k);
    Reachable(b, candidates, m);
    if k < m {
      AcceptedOnlyGrows(b, candidates, k, m - 1, i);
      Reachable(b, candidates, m - 1);
      StepContinues(b.states[m - 1], b.events[m - 1], i);
      ContinuesFurther(b.states[k].owners[i], b.states[m - 1].owners[i], b.states[m].owners[i]);
    } else {
      ContinuesItself(b.states[k], i);
    }
  }

  lemma ContinuesFurther(a: Owner, b: Owner, c: Owner)
    requires Continues(a, b) && Continues(b, c)
    ensures Continues(a, c)
  {
  }

  lemma ContinuesItself(s: State, i: nat)
    requires Inv(s) && i < |s.owners|
    ensures Continues(s.owners[i], s.owners[i])
  {
  }

  lemma {:induction false} PublishedIsOrdered(owners: seq<Owner>, from: nat)
    requires from <= |owners|
    ensures forall i :: i in Published(owners, from) <==> from <= i < |owners| && owners[i].admitted
    ensures forall m, n :: 0 <= m < n < |Published(owners, from)| ==>
      Published(owners, from)[m] < Published(owners, from)[n]
    decreases |owners| - from
  {
    if from < |owners| {
      var later := Published(owners, from + 1);
      PublishedIsOrdered(owners, from + 1);
      if owners[from].admitted {
        assert forall n :: 1 <= n < |later| + 1 ==> Published(owners, from)[n] == later[n - 1] && later[n - 1] in later;
      }
    }
  }

  /** The list of active adapters is at all times exactly the admitted owners, in the order in which
      they were registered. */
  lemma AdaptersAreTheAdmitted(b: Behaviour, candidates: nat, k: nat)
    requires Interleaving(b, candidates) && k < |b.states|
    ensures var s := b.states[k];
      && |s.owners| == candidates
      && (forall i :: i in s.adapters <==> 0 <= i < candidates && s.owners[i].admitted)
      && (forall m, n :: 0 <= m < n < |s.adapters| ==> s.adapters[m] < s.adapters[n])
  {
    Reachable(b, candidates, k);
    PublishedIsOrdered(b.states[k].owners, 0);
  }

  /** When every start has settled, each adapter is reported started or failed and never both, and
      every adapter whose cleanup failed is among the failed ones. */
  lemma ReceiptCoversAll(b: Behaviour, candidates: nat, k: nat)
    requires Interleaving(b, candidates) && k < |b.states|
    requires forall i :: 0 <= i < |b.states[k].owners| ==>
      b.states[k].owners[i].stage == Fulfilled || b.states[k].owners[i].stage == Rejected
    ensures var s := b.states[k];
      && |s.owners| == candidates
      && (forall i :: 0 <= i < candidates ==>
           (i in s.adapters <==> s.owners[i].stage == Fulfilled) &&
           (i !in s.adapters <==> s.owners[i].stage == Rejected))
      && (forall i :: i in s.cleanupPending ==> i < candidates && i !in s.adapters)
  {
    AdaptersAreTheAdmitted(b, candidates, k);
    Reachable(b, candidates, k);
  }
}
