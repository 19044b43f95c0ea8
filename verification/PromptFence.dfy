/** The prompt-admission generation that fences `stop()`
    (packages/channel-runtime/src/core.ts:158-185, 302-340, 342-539).

    Handlers of incoming messages, prompts in flight and calls of `start` and `stop` interleave at
    their `await`s; the code between two of them is one step. */
module PromptFence {

  /** Where a message handler is suspended. Every resumption checks the admission except the one
      after the "voice messages are not supported" notice. */
  datatype Wait = NoticeSent | Transcribing | SharedSession | CreatingSession

  /** What a resumed handler does when its checks pass. */
  datatype Move = GiveUp | AwaitNext(wait: Wait) | Prompt(execution: int)

  datatype Phase = Suspended(wait: Wait) | Prompted(execution: int) | Returned

  /** A message and the admission generation it captured on entry. */
  datatype Handler = Handler(generation: nat, phase: Phase)

  /** A `session.prompt` call: the handler that sent it, and what became of it. */
  datatype Operation = Operation(handler: int, inFlight: bool, aborted: bool)

  datatype State = State(
    closed: bool,
    generation: nat,
    handlers: map<int, Handler>,
    prompts: map<int, Operation>,
    registered: set<int>,
    stops: map<int, set<int>>)

  datatype Event =
    | Enter(h: int, move: Move)
    | Resume(h: int, move: Move)
    | PromptEnds(execution: int)
    | Unregister(execution: int)
    | Stop(call: int)
    | StopEnds(call: int)
    | Start

  predicate Current(s: State, generation: nat) {
    !s.closed && generation == s.generation
  }

  /** The `finally` block runs after the completion it waited for. */
  predicate Enabled(s: State, e: Event) {
    match e
    case Enter(h, move) => h !in s.handlers && (move.Prompt? ==> move.execution !in s.prompts)
    case Resume(h, move) =>
      h in s.handlers && s.handlers[h].phase.Suspended? &&
      (move.Prompt? ==> move.execution !in s.prompts)
    case PromptEnds(x) => x in s.prompts && s.prompts[x].inFlight
    case Unregister(x) => x in s.prompts && !s.prompts[x].inFlight
    case Stop(call) => call !in s.stops
    case StopEnds(call) =>
      call in s.stops && forall x :: x in s.stops[call] && x in s.prompts ==> !s.prompts[x].inFlight
    case Start => true
  }

  /** A handler proceeds; `submitTask` checks the admission once more before it prompts. */
  function Proceed(s: State, h: int, generation: nat, move: Move): State {
    match move
    case GiveUp => s.(handlers := s.handlers[h := Handler(generation, Returned)])
    case AwaitNext(wait) => s.(handlers := s.handlers[h := Handler(generation, Suspended(wait))])
    case Prompt(x) =>
      if Current(s, generation) then
        s.(handlers := s.handlers[h := Handler(generation, Prompted(x))],
           prompts := s.prompts[x := Operation(h, true, false)],
           registered := s.registered + {x})
      else s.(handlers := s.handlers[h := Handler(generation, Returned)])
  }

  function Aborted(prompts: map<int, Operation>, which: set<int>): map<int, Operation> {
    map x | x in prompts :: if x in which then prompts[x].(aborted := true) else prompts[x]
  }

  function Apply(s: State, e: Event): State
    requires Enabled(s, e)
  {
    match e
    case Enter(h, move) =>
      Proceed(s, h, s.generation, if Current(s, s.generation) then move else GiveUp)
    case Resume(h, move) =>
      var handler := s.handlers[h];
      var checked := !handler.phase.wait.NoticeSent?;
      Proceed(s, h, handler.generation,
              if checked && !Current(s, handler.generation) then GiveUp else move)
    case PromptEnds(x) => s.(prompts := s.prompts[x := s.prompts[x].(inFlight := false)])
    case Unregister(x) => s.(registered := s.registered - {x})
    case Stop(call) =>
      s.(closed := true, generation := s.generation + 1, stops := s.stops[call := s.registered],
         prompts := Aborted(s.prompts, s.registered))
    case StopEnds(call) => s.(registered := {}, stops := s.stops - {call})
    case Start => s.(closed := false)
  }

  const INITIAL := State(false, 0, map[], map[], {}, map[])

  // ----- the runtime object -----

  class DirectPrompts {
    var closed: bool
    var generation: nat
    var handlers: map<int, Handler>
    var prompts: map<int, Operation>
    var registered: set<int>
    var stops: map<int, set<int>>

    ghost function View(): State
      reads this
    {
      State(closed, generation, handlers, prompts, registered, stops)
    }

    constructor ()
      ensures View() == INITIAL
    {
      closed, generation, handlers, prompts, registered, stops := false, 0, map[], map[], {}, map[];
    }

    /** The end of a synchronous segment of `handleMessage`: return, suspend, or submit the task. */
    method Continue(h: int, captured: nat, move: Move)
      modifies this
      ensures View() == Proceed(old(View()), h, captured, move)
    {
      match move
      case GiveUp =>
        handlers := handlers[h := Handler(captured, Returned)];
      case AwaitNext(wait) =>
        handlers := handlers[h := Handler(captured, Suspended(wait))];
      case Prompt(x) =>
        if closed || captured != generation {
          handlers := handlers[h := Handler(captured, Returned)];
          return;
        }
        handlers := handlers[h := Handler(captured, Prompted(x))];
        prompts := prompts[x := Operation(h, true, false)];
        registered := registered + {x};
    }

    method HandleMessage(h: int, move: Move)
      requires Enabled(View(), Enter(h, move))
      modifies this
      ensures View() == Apply(old(View()), Enter(h, move))
    {
      var promptAdmissionGeneration := generation;
      if closed {
        handlers := handlers[h := Handler(promptAdmissionGeneration, Returned)];
        return;
      }
      Continue(h, promptAdmissionGeneration, move);
    }

    method ResumeMessage(h: int, move: Move)
      requires Enabled(View(), Resume(h, move))
      modifies this
      ensures View() == Apply(old(View()), Resume(h, move))
    {
      var handler := handlers[h];
      if handler.phase.wait != NoticeSent && (closed || handler.generation != generation) {
        handlers := handlers[h := Handler(handler.generation, Returned)];
        return;
      }
      Continue(h, handler.generation, move);
    }

    /** `stop()` up to its first `await`. */
    method BeginStop(call: int)
      requires Enabled(View(), Stop(call))
      modifies this
      ensures View() == Apply(old(View()), Stop(call))
    {
      closed := true;
      generation := generation + 1;
      var promptOperations := registered;
      prompts := map x | x in prompts ::
        if x in promptOperations then prompts[x].(aborted := true) else prompts[x];
      stops := stops[call := promptOperations];
    }

    /** `stop()` once all the completions it captured have settled. */
    method EndStop(call: int)
      requires Enabled(View(), StopEnds(call))
      modifies this
      ensures View() == Apply(old(View()), StopEnds(call))
    {
      registered := {};
      stops := stops - {call};
    }

    method Reopen()
      modifies this
      ensures View() == Apply(old(View()), Start)
    {
      closed := false;
    }
  }

  // ----- every interleaving -----

  datatype Behaviour = Behaviour(states: seq<State>, events: seq<Event>)

  ghost predicate Interleaving(b: Behaviour) {
    && |b.states| == |b.events| + 1 && b.states[0] == INITIAL
    && forall k :: 0 <= k < |b.events| ==>
         Enabled(b.states[k], b.events[k]) && b.states[k + 1] == Apply(b.states[k], b.events[k])
  }

  ghost predicate Inv(s: State) {
    && (forall h :: h in s.handlers ==> s.handlers[h].generation <= s.generation)
    && (forall x :: x in s.registered ==> x in s.prompts)
    && (forall x :: x in s.prompts ==> s.prompts[x].handler in s.handlers)
    && (forall c, x :: c in s.stops && x in s.stops[c] ==> x in s.prompts)
    && (forall c, x :: c in s.stops && x in s.stops[c] ==> s.prompts[x].aborted)
  }

  lemma StepKeepsInv(s: State, e: Event)
    requires Inv(s) && Enabled(s, e)
    ensures Inv(Apply(s, e))
  {
  }

  lemma {:induction false} Reachable(b: Behaviour, k: nat)
    requires Interleaving(b) && k < |b.states|
    ensures Inv(b.states[k])
  {
    if k > 0 {
      Reachable(b, k - 1);
      StepKeepsInv(b.states[k - 1], b.events[k - 1]);
    }
  }

  // ----- main result: the fence -----

  /** What keeps a handler from prompting once its generation has passed. */
  ghost predicate Stale(s: State, h: int) {
    h in s.handlers && s.handlers[h].generation < s.generation
  }

  lemma StaleNeverPrompts(s: State, e: Event, h: int)
    requires Inv(s) && Enabled(s, e) && Stale(s, h)
    ensures Stale(Apply(s, e), h)
    ensures forall x :: x in Apply(s, e).prompts && Apply(s, e).prompts[x].handler == h ==>
      x in s.prompts && s.prompts[x].handler == h
  {
  }

  /** In every interleaving, and however often the runtime is restarted, a message that entered before
      a stop begins no prompt after it. */
  lemma {:induction false} NoPromptAcrossStop(b: Behaviour, i: nat, j: nat, h: int, x: int)
    requires Interleaving(b) && i < j < |b.states| && b.events[i].Stop?
    requires h in b.states[i].handlers
    requires x in b.states[j].prompts && b.states[j].prompts[x].handler == h
    ensures x in b.states[i].prompts && b.states[i].prompts[x].handler == h
  {
    Reachable(b, i);
    StaleFrom(b, i, j, h);
  }

  lemma {:induction false} StaleFrom(b: Behaviour, i: nat, j: nat, h: int)
    requires Interleaving(b) && i < j < |b.states| && b.events[i].Stop? && h in b.states[i].handlers
    ensures Stale(b.states[j], h)
    ensures forall x :: x in b.states[j].prompts && b.states[j].prompts[x].handler == h ==>
      x in b.states[i].prompts && b.states[i].prompts[x].handler == h
  {
    Reachable(b, j - 1);
    if i < j - 1 {
      StaleFrom(b, i, j - 1, h);
      StaleNeverPrompts(b.states[j - 1], b.events[j - 1], h);
    }
  }

  // ----- and what goes through it -----

  /** The handler did what it was about to do. */
  ghost predicate Did(s: State, h: int, move: Move) {
    h in s.handlers &&
    match move
    case GiveUp => s.handlers[h].phase == Returned
    case AwaitNext(wait) => s.handlers[h].phase == Suspended(wait)
    case Prompt(x) =>
      s.handlers[h].phase == Prompted(x) && x in s.registered && x in s.prompts &&
      s.prompts[x] == Operation(h, true, false)
  }

  /** The handler entered with admission open, and no stop has been called since. */
  ghost predicate Unfenced(b: Behaviour, i: nat, j: nat, h: int) {
    && i < j < |b.states| && j <= |b.events| && b.events[i].Enter? && b.events[i].h == h && !b.states[i].closed
    && forall k :: i <= k < j ==> !b.events[k].Stop?
  }

  lemma {:induction false} UnfencedIsCurrent(b: Behaviour, i: nat, j: nat, h: int)
    requires Interleaving(b) && Unfenced(b, i, j, h)
    ensures h in b.states[j].handlers && Current(b.states[j], b.states[j].handlers[h].generation)
    decreases j
  {
    var s, e := b.states[j - 1], b.events[j - 1];
    assert Enabled(s, e) && b.states[j] == Apply(s, e);
    if i < j - 1 {
      UnfencedIsCurrent(b, i, j - 1, h);
    }
  }

  /** A message that enters with admission open and is not overtaken by a stop goes on after every await, and
      its prompt begins and is registered. */
  lemma UnfencedGoesOn(b: Behaviour, i: nat, j: nat, h: int, move: Move)
    requires Interleaving(b) && i <= j < |b.events|
    requires b.events[j] == if i == j then Enter(h, move) else Resume(h, move)
    requires if i == j then !b.states[i].closed else Unfenced(b, i, j, h)
    ensures Did(b.states[j + 1], h, move)
  {
    if i < j {
      UnfencedIsCurrent(b, i, j, h);
    }
    assert b.states[j + 1] == Apply(b.states[j], b.events[j]);
  }

  // ----- main result: stop reaches every prompt, exactly when its end clears nothing in flight -----

  ghost predicate InFlight(s: State, x: int) {
    x in s.prompts && s.prompts[x].inFlight
  }

  /** Every prompt in flight is registered, so that a stop would abort it. */
  ghost predicate Covered(s: State) {
    forall x :: InFlight(s, x) ==> x in s.registered
  }

  /** The one event after which a prompt in flight may be unknown to the next stop. */
  ghost predicate Forgets(s: State, e: Event) {
    e.StopEnds? && exists x :: InFlight(s, x)
  }

  lemma StepKeepsCovered(s: State, e: Event)
    requires Inv(s) && Enabled(s, e) && Covered(s)
    ensures Covered(Apply(s, e)) <==> !Forgets(s, e)
  {
    var t := Apply(s, e);
    match e
    case StopEnds(call) =>
      assert forall x :: InFlight(t, x) <==> InFlight(s, x);
    case _ =>
  }

  ghost predicate CoveredThroughout(b: Behaviour, k: nat)
    requires k < |b.states|
  {
    forall i :: 0 <= i <= k ==> Covered(b.states[i])
  }

  ghost predicate NeverForgets(b: Behaviour, k: nat)
    requires k <= |b.events| && k < |b.states|
  {
    forall i :: 0 <= i < k ==> !Forgets(b.states[i], b.events[i])
  }

  /** All prompts in flight are registered throughout a behaviour if and only if no `stop` ends while
      one is in flight. */
  lemma {:induction false} CoveredExactly(b: Behaviour, k: nat)
    requires Interleaving(b) && k < |b.states|
    ensures CoveredThroughout(b, k) <==> NeverForgets(b, k)
  {
    if k > 0 {
      CoveredExactly(b, k - 1);
      assert CoveredThroughout(b, k) <==> CoveredThroughout(b, k - 1) && Covered(b.states[k]);
      assert NeverForgets(b, k) <==> NeverForgets(b, k - 1) && !Forgets(b.states[k - 1], b.events[k - 1]);
      if CoveredThroughout(b, k - 1) {
        Reachable(b, k - 1);
        StepKeepsCovered(b.states[k - 1], b.events[k - 1]);
      }
    }
  }

  /** Start is never called between the beginning and the end of a stop. */
  ghost predicate Serial(b: Behaviour, k: nat)
    requires k <= |b.events| && k < |b.states|
  {
    forall i :: 0 <= i < k && b.events[i].Start? ==> b.states[i].stops == map[]
  }

  ghost predicate SerialInv(s: State) {
    forall c :: c in s.stops ==> s.closed && forall x :: InFlight(s, x) ==> x in s.stops[c]
  }

  /** When starts and stops do not overlap, a stop aborts and awaits every prompt that is in flight when
      it is called. */
  lemma SerialStopAbortsAll(b: Behaviour, k: nat, call: int, x: int)
    requires Interleaving(b) && k < |b.events| && Serial(b, k) && b.events[k] == Stop(call)
    requires InFlight(b.states[k], x)
    ensures x in b.states[k + 1].prompts && b.states[k + 1].prompts[x].aborted
    ensures call in b.states[k + 1].stops && x in b.states[k + 1].stops[call]
  {
    SerialIsCovered(b, k);
  }

  /** When starts and stops do not overlap, every prompt in flight is registered. */
  lemma {:induction false} SerialIsCovered(b: Behaviour, k: nat)
    requires Interleaving(b) && k < |b.states| && Serial(b, k)
    ensures Covered(b.states[k]) && SerialInv(b.states[k])
  {
    if k > 0 {
      SerialIsCovered(b, k - 1);
      Reachable(b, k - 1);
      var s, e := b.states[k - 1], b.events[k - 1];
      StepKeepsCovered(s, e);
      SerialStep(s, e);
    }
  }

  lemma SerialStep(s: State, e: Event)
    requires Inv(s) && Enabled(s, e) && Covered(s) && SerialInv(s)
    requires e.Start? ==> s.stops == map[]
    ensures SerialInv(Apply(s, e)) && !Forgets(s, e)
  {
    var t := Apply(s, e);
    assert forall x :: InFlight(t, x) ==> InFlight(s, x) || x in t.registered;
  }

  // ----- calls that overlap -----

  /** In flight after a stop was called, and not aborted. */
  ghost predicate Unreached(s: State, x: int) {
    s.closed && InFlight(s, x) && !s.prompts[x].aborted
  }

  function Last(b: Behaviour): State
    requires |b.states| > 0
  {
    b.states[|b.states| - 1]
  }

  /** `c` goes on where `b` ended, without another start. */
  ghost predicate GoesOn(b: Behaviour, c: Behaviour) {
    && b.states <= c.states && b.events <= c.events
    && forall k :: |b.events| <= k < |c.events| ==> !c.events[k].Start?
  }

  lemma Extended(b: Behaviour, e: Event) returns (c: Behaviour)
    requires Interleaving(b) && Enabled(Last(b), e)
    ensures Interleaving(c) && Last(c) == Apply(Last(b), e) && (!e.Start? ==> GoesOn(b, c))
  {
    c := Behaviour(b.states + [Apply(Last(b), e)], b.events + [e]);
  }

  /** Any prompts can end, and nothing else changes. */
  lemma {:induction false} PromptsEnd(b: Behaviour, todo: set<int>) returns (c: Behaviour)
    requires Interleaving(b)
    ensures Interleaving(c) && GoesOn(b, c) && Last(c) == Last(b).(prompts := Last(c).prompts)
    ensures forall y :: y in todo ==> !InFlight(Last(c), y)
    ensures forall y :: y in Last(b).prompts && y !in todo ==>
      y in Last(c).prompts && Last(c).prompts[y] == Last(b).prompts[y]
    decreases todo
  {
    if todo == {} {
      c := b;
    } else {
      var y := Member(todo);
      c := PromptsEnd(b, todo - {y});
      assert forall z :: z in todo && z != y ==> z in todo - {y};
      if InFlight(Last(c), y) {
        c := Extended(c, PromptEnds(y));
      }
    }
  }

  lemma {:induction false} Unused(used: set<int>) returns (x: int)
    ensures forall y :: y in used ==> y < x
  {
    if used == {} {
      x := 0;
    } else {
      var y := Member(used);
      x := Unused(used - {y});
      x := if x <= y then y + 1 else x;
      assert forall z :: z in used && z != y ==> z in used - {y};
    }
  }

  lemma Member<T>(s: set<T>) returns (x: T)
    requires s != {}
    ensures x in s
  {
    x :| x in s;
  }

  /** Every start that overlaps a stop can lose a prompt: however the behaviour came to that start, it can
      go on, without another one, to where a stop has been called and a prompt is in flight unaborted. */
  lemma OverlapLosesAPrompt(b: Behaviour) returns (c: Behaviour, x: int)
    requires Interleaving(b) && |b.events| > 0 && b.events[|b.events| - 1].Start?
    requires b.states[|b.events| - 1].stops != map[]
    ensures Interleaving(c) && GoesOn(b, c) && Unreached(Last(c), x)
  {
    var s := Last(b);
    Reachable(b, |b.events|);
    assert s.stops.Keys != {};
    var call := Member(s.stops.Keys);
    var h := Unused(s.handlers.Keys);
    x := Unused(s.prompts.Keys);
    var again := Unused(s.stops.Keys);
    c := Extended(b, Enter(h, Prompt(x)));
    c := PromptsEnd(c, s.stops[call]);
    c := Extended(c, StopEnds(call));
    c := Extended(c, Stop(again));
  }
}
