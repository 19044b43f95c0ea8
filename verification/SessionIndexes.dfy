/** The two in-memory indexes of the channel runtime: threads and sessions
    (packages/channel-runtime/src/session-coordinator.ts) and threads and tasks
    (packages/channel-runtime/src/core.ts:590-602, 1312-1316). */
module SessionIndexes {

  type Key = string

  datatype Session = Session(sessionId: string, channel: string, thread: string)

  // ----- sessions -----

  /** `index` lists the keys of a session in the order in which they were first added. */
  datatype Sessions = Sessions(sessions: map<Key, Session>, index: map<string, seq<Key>>)

  function KeysOf(s: Sessions, id: string): seq<Key> {
    if id in s.index then s.index[id] else []
  }

  function Bound(s: Sessions, key: Key, session: Session): Sessions {
    var keys := KeysOf(s, session.sessionId);
    Sessions(s.sessions[key := session],
             s.index[session.sessionId := if key in keys then keys else keys + [key]])
  }

  function Released(s: Sessions, id: string): Sessions {
    Sessions(s.sessions - (set k | k in KeysOf(s, id)), s.index - {id})
  }

  /** The sessions found under the listed keys, in their order. */
  function Found(sessions: map<Key, Session>, keys: seq<Key>): (found: seq<Session>)
    ensures |found| <= |keys|
  {
    if keys == [] then []
    else if keys[0] in sessions then [sessions[keys[0]]] + Found(sessions, keys[1..])
    else Found(sessions, keys[1..])
  }

  class SessionCoordinator {
    var sessions: map<Key, Session>
    var sessionIndex: map<string, seq<Key>>

    ghost function View(): Sessions
      reads this
    {
      Sessions(sessions, sessionIndex)
    }

    constructor ()
      ensures View() == Sessions(map[], map[])
    {
      sessions, sessionIndex := map[], map[];
    }

    method Bind(threadKey: Key, session: Session)
      modifies this
      ensures View() == Bound(old(View()), threadKey, session)
    {
      sessions := sessions[threadKey := session];
      var keys := if session.sessionId in sessionIndex then sessionIndex[session.sessionId] else [];
      if threadKey !in keys {
        keys := keys + [threadKey];
      }
      sessionIndex := sessionIndex[session.sessionId := keys];
    }

    method FindSessions(sessionId: string) returns (out: seq<Session>)
      ensures out == Found(sessions, KeysOf(View(), sessionId))
    {
      if sessionId !in sessionIndex || |sessionIndex[sessionId]| == 0 {
        return [];
      }
      var keys := sessionIndex[sessionId];
      out := [];
      var i := 0;
      while i < |keys|
        invariant 0 <= i <= |keys|
        invariant out + Found(sessions, keys[i..]) == Found(sessions, keys)
      {
        if keys[i] in sessions {
          out := out + [sessions[keys[i]]];
        }
        i := i + 1;
      }
    }

    method Release(sessionId: string)
      modifies this
      ensures View() == Released(old(View()), sessionId)
    {
      if sessionId in sessionIndex {
        var keys := sessionIndex[sessionId];
        var i := 0;
        while i < |keys|
          invariant 0 <= i <= |keys| && sessionIndex == old(sessionIndex)
          invariant sessions == old(sessions) - (set k | k in keys[..i])
        {
          sessions := sessions - {keys[i]};
          i := i + 1;
        }
        assert keys[..i] == keys;
        sessionIndex := sessionIndex - {sessionId};
      } else {
        assert old(sessionIndex) - {sessionId} == old(sessionIndex);
        assert old(sessions) - (set k | k in KeysOf(old(View()), sessionId)) == old(sessions);
      }
    }

    method Clear()
      modifies this
      ensures View() == Sessions(map[], map[])
    {
      sessions, sessionIndex := map[], map[];
    }
  }

  datatype Call = Bind(key: Key, session: Session) | Release(id: string) | Clear

  function Do(s: Sessions, c: Call): Sessions {
    match c
    case Bind(key, session) => Bound(s, key, session)
    case Release(id) => Released(s, id)
    case Clear => Sessions(map[], map[])
  }

  function DoAll(s: Sessions, calls: seq<Call>): Sessions {
    if calls == [] then s else Do(DoAll(s, calls[..|calls| - 1]), calls[|calls| - 1])
  }

  /** Every binding is listed under its session, and no key is listed twice. */
  ghost predicate Listed(s: Sessions) {
    && (forall k :: k in s.sessions ==> k in KeysOf(s, s.sessions[k].sessionId))
    && (forall id, i, j :: id in s.index && 0 <= i < j < |s.index[id]| ==> s.index[id][i] != s.index[id][j])
  }

  /** Every listed key is bound to the session it is listed under. */
  ghost predicate Tight(s: Sessions) {
    forall id, k :: id in s.index && k in s.index[id] ==> k in s.sessions && s.sessions[k].sessionId == id
  }

  lemma {:induction false} CallsKeepListed(calls: seq<Call>)
    ensures Listed(DoAll(Sessions(map[], map[]), calls))
  {
    if calls != [] {
      CallsKeepListed(calls[..|calls| - 1]);
    }
  }

  /** The one call that leaves a stale key behind: binding a key that another session holds. */
  predicate Rebinds(s: Sessions, c: Call) {
    c.Bind? && c.key in s.sessions && s.sessions[c.key].sessionId != c.session.sessionId
  }

  /** A call keeps the index exact if and only if it does not rebind a key to another session. */
  lemma TightExactly(s: Sessions, c: Call)
    requires Listed(s) && Tight(s)
    ensures Tight(Do(s, c)) <==> !Rebinds(s, c)
  {
    var t := Do(s, c);
    match c
    case Clear =>
    case Release(id) =>
      forall other, k | other in t.index && k in t.index[other]
        ensures k in t.sessions && t.sessions[k].sessionId == other
      {
        assert s.sessions[k].sessionId == other;
      }
    case Bind(key, session) =>
      if Rebinds(s, c) {
        var previous := s.sessions[key].sessionId;
        assert key in KeysOf(s, previous);
        assert previous in t.index && key in t.index[previous];
        assert t.sessions[key].sessionId == session.sessionId != previous;
        assert !Tight(t);
      } else {
        forall id, k | id in t.index && k in t.index[id]
          ensures k in t.sessions && t.sessions[k].sessionId == id
        {
          assert (id == session.sessionId && k == key) || k in KeysOf(s, id);
        }
      }
  }

  ghost predicate NeverRebinds(calls: seq<Call>) {
    forall i :: 0 <= i < |calls| ==> !Rebinds(DoAll(Sessions(map[], map[]), calls[..i]), calls[i])
  }

  lemma {:induction false} NeverRebindsIsTight(calls: seq<Call>)
    requires NeverRebinds(calls)
    ensures Tight(DoAll(Sessions(map[], map[]), calls))
  {
    if calls != [] {
      var before := calls[..|calls| - 1];
      assert forall i :: 0 <= i < |before| ==> before[..i] == calls[..i];
      NeverRebindsIsTight(before);
      CallsKeepListed(before);
      TightExactly(DoAll(Sessions(map[], map[]), before), calls[|calls| - 1]);
    }
  }

  lemma {:induction false} FoundContents(sessions: map<Key, Session>, keys: seq<Key>, x: Session)
    ensures x in Found(sessions, keys) <==> exists k :: k in keys && k in sessions && sessions[k] == x
  {
    if keys != [] {
      FoundContents(sessions, keys[1..], x);
    }
  }

  /** After any calls, a lookup misses no live binding of the session. */
  lemma FindMissesNothing(calls: seq<Call>, k: Key)
    requires k in DoAll(Sessions(map[], map[]), calls).sessions
    ensures var s := DoAll(Sessions(map[], map[]), calls);
      s.sessions[k] in Found(s.sessions, KeysOf(s, s.sessions[k].sessionId))
  {
    var s := DoAll(Sessions(map[], map[]), calls);
    CallsKeepListed(calls);
    FoundContents(s.sessions, KeysOf(s, s.sessions[k].sessionId), s.sessions[k]);
  }

  /** If no call rebinds a key to another session, a lookup returns exactly the bindings of the session,
      one result for each of its keys. */
  lemma FindIsExact(calls: seq<Call>, id: string, x: Session)
    requires NeverRebinds(calls)
    ensures var s := DoAll(Sessions(map[], map[]), calls);
      && (x in Found(s.sessions, KeysOf(s, id)) <==>
           x.sessionId == id && exists k :: k in s.sessions && s.sessions[k] == x)
      && |Found(s.sessions, KeysOf(s, id))| == |KeysOf(s, id)|
  {
    var s := DoAll(Sessions(map[], map[]), calls);
    CallsKeepListed(calls);
    NeverRebindsIsTight(calls);
    FoundContents(s.sessions, KeysOf(s, id), x);
    FoundAll(s.sessions, KeysOf(s, id));
  }

  lemma {:induction false} FoundAll(sessions: map<Key, Session>, keys: seq<Key>)
    requires forall k :: k in keys ==> k in sessions
    ensures |Found(sessions, keys)| == |keys|
  {
    if keys != [] {
      FoundAll(sessions, keys[1..]);
    }
  }

  /** After a rebinding, releasing the first session takes the second one's binding away. */
  lemma ReleaseTakesAReboundKey(key: Key, a: Session, b: Session)
    requires a.sessionId != b.sessionId
    ensures var s := DoAll(Sessions(map[], map[]), [Bind(key, a), Bind(key, b)]);
      && b in Found(s.sessions, KeysOf(s, a.sessionId))
      && Found(Released(s, a.sessionId).sessions, KeysOf(Released(s, a.sessionId), b.sessionId)) == []
  {
    var calls := [Bind(key, a), Bind(key, b)];
    assert calls[..1] == [Bind(key, a)] && calls[..1][..0] == [];
    assert DoAll(Sessions(map[], map[]), calls[..1]) == Bound(Sessions(map[], map[]), key, a);
    var s := Bound(Bound(Sessions(map[], map[]), key, a), key, b);
    assert DoAll(Sessions(map[], map[]), calls) == s;
    assert KeysOf(s, a.sessionId) == [key] && KeysOf(s, b.sessionId) == [key];
    FoundContents(s.sessions, [key], b);
  }

  // ----- tasks -----

  datatype Entry = Entry(platform: string, channel: string, thread: string, sessionId: string)

  function ThreadKey(e: Entry): Key {
    e.platform + ":" + e.channel + ":" + e.thread
  }

  predicate SameEntry(a: Entry, b: Entry) {
    a.platform == b.platform && a.channel == b.channel && a.thread == b.thread
  }

  function Colons(s: string): nat {
    if s == [] then 0 else (if s[0] == ':' then 1 else 0) + Colons(s[1..])
  }

  lemma {:induction false} ColonsPlus(s: string, t: string)
    ensures Colons(s + t) == Colons(s) + Colons(t)
  {
    if s == [] {
      assert s + t == t;
    } else {
      ColonsPlus(s[1..], t);
      assert (s + t)[1..] == s[1..] + t;
    }
  }

  /** Two texts that are continued alike after a colon are equal if they have equally many colons. */
  lemma SplitAtColon(a: string, b: string, s: string, t: string)
    requires a + ":" + s == b + ":" + t && Colons(a) == Colons(b)
    ensures a == b && s == t
  {
    if |a| < |b| {
      LongerHasColon(a, b, s, t);
    } else if |b| < |a| {
      LongerHasColon(b, a, t, s);
    }
    var w := a + ":" + s;
    assert w[..|a|] == a && w[..|b|] == b;
    assert w[|a| + 1..] == s && w[|b| + 1..] == t;
  }

  lemma LongerHasColon(a: string, b: string, s: string, t: string)
    requires a + ":" + s == b + ":" + t && |a| < |b|
    ensures Colons(b) > Colons(a)
  {
    var w := a + ":" + s;
    assert w[..|b|] == b && w[..|a|] == a && w[|a|] == ':';
    assert b == a + b[|a|..];
    ColonsPlus(a, b[|a|..]);
  }

  /** For platforms whose names have equally many colons, two threads that share a key are the same thread
      exactly when their channels have equally many colons too. */
  lemma KeysAreInjective(a: Entry, b: Entry)
    requires ThreadKey(a) == ThreadKey(b) && Colons(a.platform) == Colons(b.platform)
    ensures SameEntry(a, b) <==> Colons(a.channel) == Colons(b.channel)
  {
    var s, t := a.channel + ":" + a.thread, b.channel + ":" + b.thread;
    assert ThreadKey(a) == a.platform + ":" + s && ThreadKey(b) == b.platform + ":" + t;
    SplitAtColon(a.platform, b.platform, s, t);
    if Colons(a.channel) == Colons(b.channel) {
      SplitAtColon(a.channel, b.channel, a.thread, b.thread);
    }
  }

  datatype Tasks = Tasks(taskBindings: map<string, seq<Entry>>, taskByThread: map<Key, string>)

  function Without(entries: seq<Entry>, e: Entry): (rest: seq<Entry>)
    ensures forall x :: x in rest <==> x in entries && !SameEntry(x, e)
    ensures |rest| <= |entries|
  {
    if entries == [] then []
    else if SameEntry(entries[0], e) then Without(entries[1..], e)
    else [entries[0]] + Without(entries[1..], e)
  }

  function EntriesOf(t: Tasks, id: string): seq<Entry> {
    if id in t.taskBindings then t.taskBindings[id] else []
  }

  class TaskIndex {
    var taskBindings: map<string, seq<Entry>>
    var taskByThread: map<Key, string>

    ghost function View(): Tasks
      reads this
    {
      Tasks(taskBindings, taskByThread)
    }

    constructor ()
      ensures View() == Tasks(map[], map[])
    {
      taskBindings, taskByThread := map[], map[];
    }

    method BindTask(taskID: string, entry: Entry)
      modifies this
      ensures View() == TaskBound(old(View()), taskID, entry)
    {
      var key := ThreadKey(entry);
      if key in taskByThread && taskByThread[key] != "" && taskByThread[key] != taskID {
        var previous := taskByThread[key];
        var next := Without(if previous in taskBindings then taskBindings[previous] else [], entry);
        if |next| > 0 {
          taskBindings := taskBindings[previous := next];
        } else {
          taskBindings := taskBindings - {previous};
        }
      }
      taskByThread := taskByThread[key := taskID];
      var current := if taskID in taskBindings then taskBindings[taskID] else [];
      if exists i :: 0 <= i < |current| && SameEntry(current[i], entry) {
        return;
      }
      taskBindings := taskBindings[taskID := current + [entry]];
    }
  }

  /** The entry leaves the list of the task that held its key; an empty list is dropped. The empty task
      identifier counts as no task. */
  function Unbound(t: Tasks, id: string, e: Entry): map<string, seq<Entry>> {
    var key := ThreadKey(e);
    if key in t.taskByThread && t.taskByThread[key] != "" && t.taskByThread[key] != id then
      var previous := t.taskByThread[key];
      var next := Without(EntriesOf(t, previous), e);
      if |next| > 0 then t.taskBindings[previous := next] else t.taskBindings - {previous}
    else t.taskBindings
  }

  predicate Holds(entries: seq<Entry>, e: Entry) {
    exists i :: 0 <= i < |entries| && SameEntry(entries[i], e)
  }

  function TaskBound(t: Tasks, id: string, e: Entry): Tasks {
    Tasks(Added(Unbound(t, id, e), id, e), t.taskByThread[ThreadKey(e) := id])
  }

  function Added(bindings: map<string, seq<Entry>>, id: string, e: Entry): map<string, seq<Entry>> {
    var current := if id in bindings then bindings[id] else [];
    if Holds(current, e) then bindings else bindings[id := current + [e]]
  }

  datatype Binding = Binding(taskID: string, entry: Entry)

  function BindAll(bindings: seq<Binding>): Tasks {
    if bindings == [] then Tasks(map[], map[])
    else
      var last := bindings[|bindings| - 1];
      TaskBound(BindAll(bindings[..|bindings| - 1]), last.taskID, last.entry)
  }

  ghost predicate Lists(t: Tasks, id: string, e: Entry) {
    id in t.taskBindings && e in t.taskBindings[id]
  }

  ghost predicate NoRepeats(entries: seq<Entry>) {
    forall i, j :: 0 <= i < j < |entries| ==> !SameEntry(entries[i], entries[j])
  }

  /** The two maps describe the same relation: a thread is listed under a task exactly when its key maps
      to that task, and no list is empty or repeats a thread. */
  ghost predicate Agree(t: Tasks) {
    && (forall id, e :: Lists(t, id, e) ==> ThreadKey(e) in t.taskByThread && t.taskByThread[ThreadKey(e)] == id)
    && (forall k :: k in t.taskByThread ==> exists e :: Lists(t, t.taskByThread[k], e) && ThreadKey(e) == k)
    && (forall id :: id in t.taskBindings ==> t.taskBindings[id] != [] && NoRepeats(t.taskBindings[id]))
  }

  /** Another task lists another thread with the same key. */
  ghost predicate Collides(t: Tasks, id: string, e: Entry) {
    exists other, x :: Lists(t, other, x) && other != id && ThreadKey(x) == ThreadKey(e) && !SameEntry(x, e)
  }

  /** The key is held by the empty task identifier, which counts as no task. */
  predicate HeldByNoTask(t: Tasks, id: string, e: Entry) {
    ThreadKey(e) in t.taskByThread && t.taskByThread[ThreadKey(e)] == "" && id != ""
  }

  lemma {:induction false} WithoutKeepsOrder(entries: seq<Entry>, e: Entry)
    requires NoRepeats(entries)
    ensures NoRepeats(Without(entries, e))
  {
    if entries != [] {
      WithoutKeepsOrder(entries[1..], e);
      var rest := Without(entries[1..], e);
      assert forall x :: x in rest ==> x in entries[1..];
      if !SameEntry(entries[0], e) {
        forall i, j | 0 <= i < j < |rest| + 1
          ensures !SameEntry(([entries[0]] + rest)[i], ([entries[0]] + rest)[j])
        {
          assert rest[j - 1] in rest;
        }
      }
    }
  }

  /** Before the entry is added, no list is empty or repeats a thread. */
  lemma UnboundShape(t: Tasks, id: string, e: Entry)
    requires Agree(t)
    ensures forall other :: other in Unbound(t, id, e) ==>
      Unbound(t, id, e)[other] != [] && NoRepeats(Unbound(t, id, e)[other])
  {
    var key := ThreadKey(e);
    if key in t.taskByThread && t.taskByThread[key] != "" && t.taskByThread[key] != id {
      var entries := EntriesOf(t, t.taskByThread[key]);
      assert NoRepeats(entries);
      WithoutKeepsOrder(entries, e);
    }
  }

  /** Before the entry is added, its thread has left the list of its former task, and nothing else has
      changed. */
  lemma UnboundLists(t: Tasks, id: string, e: Entry)
    requires Agree(t)
    ensures var mid := Tasks(Unbound(t, id, e), t.taskByThread);
      && (forall other, x :: Lists(mid, other, x) ==> Lists(t, other, x))
      && (forall other, x :: Lists(t, other, x) && !SameEntry(x, e) ==> Lists(mid, other, x))
      && (forall x :: Lists(t, id, x) ==> Lists(mid, id, x))
      && (!HeldByNoTask(t, id, e) ==> forall other, x :: Lists(mid, other, x) && SameEntry(x, e) ==> other == id)
      && (HeldByNoTask(t, id, e) ==> mid == t)
  {
    hide NoRepeats;
    var key := ThreadKey(e);
    forall other, x | Lists(t, other, x) && SameEntry(x, e)
      ensures key in t.taskByThread && t.taskByThread[key] == other
    {
      assert ThreadKey(x) == key;
    }
  }

  /** What adding the entry to the list of its new task changes. */
  lemma AddedLists(mid: Tasks, id: string, e: Entry, next: Tasks)
    requires next.taskBindings == Added(mid.taskBindings, id, e)
    requires forall other :: other in mid.taskBindings ==>
      mid.taskBindings[other] != [] && NoRepeats(mid.taskBindings[other])
    ensures forall other, x :: Lists(mid, other, x) ==> Lists(next, other, x)
    ensures forall other, x :: Lists(next, other, x) ==> Lists(mid, other, x) || (other == id && x == e)
    ensures exists x :: Lists(next, id, x) && SameEntry(x, e)
    ensures forall other :: other in next.taskBindings ==>
      next.taskBindings[other] != [] && NoRepeats(next.taskBindings[other])
  {
    var current := if id in mid.taskBindings then mid.taskBindings[id] else [];
    if Holds(current, e) {
      var i :| 0 <= i < |current| && SameEntry(current[i], e);
      assert Lists(next, id, current[i]);
    } else {
      assert Lists(next, id, e);
      assert NoRepeats(current + [e]);
    }
  }

  /** Binding a thread keeps the two maps in agreement if and only if its key is neither held by the empty
      task identifier nor that of another thread which another task lists. */
  lemma BindKeepsAgreement(t: Tasks, id: string, e: Entry)
    requires Agree(t)
    ensures Agree(TaskBound(t, id, e)) <==> !HeldByNoTask(t, id, e) && !Collides(t, id, e)
  {
    var mid := Tasks(Unbound(t, id, e), t.taskByThread);
    var next := TaskBound(t, id, e);
    UnboundShape(t, id, e);
    UnboundLists(t, id, e);
    AddedLists(mid, id, e, next);
    if HeldByNoTask(t, id, e) {
      var x :| Lists(t, "", x) && ThreadKey(x) == ThreadKey(e);
      assert Lists(next, "", x) && next.taskByThread[ThreadKey(x)] == id;
    } else if Collides(t, id, e) {
      var other, x :| Lists(t, other, x) && other != id && ThreadKey(x) == ThreadKey(e) && !SameEntry(x, e);
      assert Lists(next, other, x) && next.taskByThread[ThreadKey(x)] == id;
    } else {
      ListsMatchKeys(t, id, e, mid, next);
      KeysMatchLists(t, id, e, mid, next);
    }
  }

  lemma ListsMatchKeys(t: Tasks, id: string, e: Entry, mid: Tasks, next: Tasks)
    requires Agree(t) && !Collides(t, id, e) && next.taskByThread == t.taskByThread[ThreadKey(e) := id]
    requires forall other, x :: Lists(mid, other, x) ==> Lists(t, other, x)
    requires forall other, x :: Lists(mid, other, x) && SameEntry(x, e) ==> other == id
    requires forall other, x :: Lists(next, other, x) ==> Lists(mid, other, x) || (other == id && x == e)
    ensures forall other, x :: Lists(next, other, x) ==>
      ThreadKey(x) in next.taskByThread && next.taskByThread[ThreadKey(x)] == other
  {
    forall other, x | Lists(next, other, x)
      ensures ThreadKey(x) in next.taskByThread && next.taskByThread[ThreadKey(x)] == other
    {
      if Lists(mid, other, x) && ThreadKey(x) == ThreadKey(e) {
        assert Lists(t, other, x);
      }
    }
  }

  lemma KeysMatchLists(t: Tasks, id: string, e: Entry, mid: Tasks, next: Tasks)
    requires Agree(t) && next.taskByThread == t.taskByThread[ThreadKey(e) := id]
    requires forall other, x :: Lists(t, other, x) && !SameEntry(x, e) ==> Lists(mid, other, x)
    requires forall other, x :: Lists(mid, other, x) ==> Lists(next, other, x)
    requires exists x :: Lists(next, id, x) && SameEntry(x, e)
    ensures forall k :: k in next.taskByThread ==>
      exists x :: Lists(next, next.taskByThread[k], x) && ThreadKey(x) == k
  {
    forall k | k in next.taskByThread
      ensures exists x :: Lists(next, next.taskByThread[k], x) && ThreadKey(x) == k
    {
      if k == ThreadKey(e) {
        var x :| Lists(next, id, x) && SameEntry(x, e);
        assert ThreadKey(x) == k;
      } else {
        var x :| Lists(t, t.taskByThread[k], x) && ThreadKey(x) == k;
        assert !SameEntry(x, e);
        assert Lists(next, next.taskByThread[k], x);
      }
    }
  }

  /** The key is held by the empty task identifier, or another task lists another thread with it. */
  ghost predicate Clashes(t: Tasks, b: Binding) {
    HeldByNoTask(t, b.taskID, b.entry) || Collides(t, b.taskID, b.entry)
  }

  ghost predicate AgreeThroughout(bindings: seq<Binding>, n: nat)
    requires n <= |bindings|
  {
    forall i :: 0 <= i <= n ==> Agree(BindAll(bindings[..i]))
  }

  ghost predicate NeverClash(bindings: seq<Binding>, n: nat)
    requires n <= |bindings|
  {
    forall i :: 0 <= i < n ==> !Clashes(BindAll(bindings[..i]), bindings[i])
  }

  lemma NextAgrees(bindings: seq<Binding>, n: nat)
    requires n < |bindings| && Agree(BindAll(bindings[..n]))
    ensures Agree(BindAll(bindings[..n + 1])) <==> !Clashes(BindAll(bindings[..n]), bindings[n])
  {
    assert bindings[..n + 1][..n] == bindings[..n];
    hide Agree, HeldByNoTask, Collides;
    BindKeepsAgreement(BindAll(bindings[..n]), bindings[n].taskID, bindings[n].entry);
  }

  lemma NoneAgrees()
    ensures Agree(BindAll([]))
  {
  }

  /** The maps agree throughout a run of bindings if and only if none of the bindings clashes. */
  lemma {:induction false} AgreesExactly(bindings: seq<Binding>, n: nat)
    requires n <= |bindings|
    ensures AgreeThroughout(bindings, n) <==> NeverClash(bindings, n)
  {
    hide Agree, Clashes, BindAll;
    if n == 0 {
      assert bindings[..0] == [];
      NoneAgrees();
    } else {
      AgreesExactly(bindings, n - 1);
      if AgreeThroughout(bindings, n - 1) {
        NextAgrees(bindings, n - 1);
      }
    }
  }

  /** Threads of the bindings that share a key are the same thread. */
  ghost predicate InjectiveKeys(bindings: seq<Binding>) {
    forall b, c :: b in bindings && c in bindings && ThreadKey(b.entry) == ThreadKey(c.entry) ==>
      SameEntry(b.entry, c.entry)
  }

  /** Only entries that were bound are listed. */
  lemma {:induction false} ListedWasBound(bindings: seq<Binding>, id: string, x: Entry)
    requires Lists(BindAll(bindings), id, x)
    ensures exists b :: b in bindings && b.entry == x
  {
    if bindings != [] {
      var before, last := bindings[..|bindings| - 1], bindings[|bindings| - 1];
      assert last in bindings && forall b :: b in before ==> b in bindings;
      if x != last.entry {
        assert Lists(BindAll(before), id, x);
        ListedWasBound(before, id, x);
      }
    }
  }

  /** After any bindings with injective keys, the two maps agree. */
  lemma {:induction false} IndexesAgree(bindings: seq<Binding>)
    requires InjectiveKeys(bindings) && forall b :: b in bindings ==> b.taskID != ""
    ensures Agree(BindAll(bindings))
    ensures forall k :: k in BindAll(bindings).taskByThread ==> BindAll(bindings).taskByThread[k] != ""
  {
    if bindings != [] {
      var before, last := bindings[..|bindings| - 1], bindings[|bindings| - 1];
      assert last in bindings && forall b :: b in before ==> b in bindings;
      IndexesAgree(before);
      forall other, x | Lists(BindAll(before), other, x) && ThreadKey(x) == ThreadKey(last.entry)
        ensures SameEntry(x, last.entry)
      {
        ListedWasBound(before, other, x);
      }
      BindKeepsAgreement(BindAll(before), last.taskID, last.entry);
    }
  }

  /** Keys are injective on bindings whose platforms have equally many colons, and whose channels do. */
  lemma EvenColonsAreInjective(bindings: seq<Binding>)
    requires forall b, c :: b in bindings && c in bindings ==>
      Colons(b.entry.platform) == Colons(c.entry.platform) &&
      (b.entry.platform == c.entry.platform ==> Colons(b.entry.channel) == Colons(c.entry.channel))
    ensures InjectiveKeys(bindings)
  {
    forall b, c | b in bindings && c in bindings && ThreadKey(b.entry) == ThreadKey(c.entry)
      ensures SameEntry(b.entry, c.entry)
    {
      SamePlatform(b.entry, c.entry);
      KeysAreInjective(b.entry, c.entry);
    }
  }

  lemma SamePlatform(a: Entry, b: Entry)
    requires ThreadKey(a) == ThreadKey(b) && Colons(a.platform) == Colons(b.platform)
    ensures a.platform == b.platform
  {
    var s, t := a.channel + ":" + a.thread, b.channel + ":" + b.thread;
    assert ThreadKey(a) == a.platform + ":" + s && ThreadKey(b) == b.platform + ":" + t;
    SplitAtColon(a.platform, b.platform, s, t);
  }

  /** After any bindings with injective keys, a thread is listed under a task exactly when the last binding
      of that thread named the task. */
  lemma LastBindingWins(bindings: seq<Binding>, id: string, e: Entry)
    requires InjectiveKeys(bindings) && forall b :: b in bindings ==> b.taskID != ""
    ensures Holds(EntriesOf(BindAll(bindings), id), e) <==>
      exists i :: IsLast(bindings, e, i) && bindings[i].taskID == id
  {
    var t := BindAll(bindings);
    IndexesAgree(bindings);
    if Holds(EntriesOf(t, id), e) {
      var i :| 0 <= i < |EntriesOf(t, id)| && SameEntry(EntriesOf(t, id)[i], e);
      var x := EntriesOf(t, id)[i];
      assert Lists(t, id, x) && ThreadKey(x) == ThreadKey(e);
      ListedWasBound(bindings, id, x);
      LastKeyWins(bindings, e);
    }
    if i :| IsLast(bindings, e, i) && bindings[i].taskID == id {
      assert bindings[i] in bindings;
      LastKeyWins(bindings, e);
      var x :| Lists(t, id, x) && ThreadKey(x) == ThreadKey(e);
      ListedWasBound(bindings, id, x);
    }
  }

  ghost predicate IsLast(bindings: seq<Binding>, e: Entry, i: int) {
    0 <= i < |bindings| && SameEntry(bindings[i].entry, e) &&
    forall j :: i < j < |bindings| ==> !SameEntry(bindings[j].entry, e)
  }

  lemma {:induction false} LastKeyWins(bindings: seq<Binding>, e: Entry)
    requires forall b :: b in bindings && ThreadKey(b.entry) == ThreadKey(e) ==> SameEntry(b.entry, e)
    ensures ThreadKey(e) in BindAll(bindings).taskByThread <==> exists i :: IsLast(bindings, e, i)
    ensures forall i :: IsLast(bindings, e, i) ==>
      BindAll(bindings).taskByThread[ThreadKey(e)] == bindings[i].taskID
  {
    if bindings != [] {
      var n := |bindings| - 1;
      var before := bindings[..n];
      LastKeyWins(before, e);
      var last := bindings[n];
      assert last in bindings;
      assert BindAll(bindings).taskByThread == BindAll(before).taskByThread[ThreadKey(last.entry) := last.taskID];
      if ThreadKey(last.entry) == ThreadKey(e) {
        assert IsLast(bindings, e, n);
      } else {
        SameLast(bindings, e);
        if i :| IsLast(bindings, e, i) {
          assert IsLast(before, e, i);
        }
        if i :| IsLast(before, e, i) {
          assert IsLast(bindings, e, i);
        }
      }
    }
  }

  lemma SameLast(bindings: seq<Binding>, e: Entry)
    requires bindings != [] && !SameEntry(bindings[|bindings| - 1].entry, e)
    ensures forall i :: IsLast(bindings, e, i) <==> IsLast(bindings[..|bindings| - 1], e, i)
  {
    forall i ensures IsLast(bindings, e, i) <==> IsLast(bindings[..|bindings| - 1], e, i) {
    }
  }

  /** Two threads that share a key: the first of them stays listed under a task that its key no longer
      maps to. */
  lemma ColonsBreakAgreement()
    ensures var one, other := Entry("p", "a:b", "c", "s"), Entry("p", "a", "b:c", "s");
      var t := TaskBound(TaskBound(Tasks(map[], map[]), "1", one), "2", other);
      !SameEntry(one, other) && Lists(t, "1", one) && t.taskByThread[ThreadKey(one)] == "2"
  {
    var one, other := Entry("p", "a:b", "c", "s"), Entry("p", "a", "b:c", "s");
    assert ThreadKey(one) == "p:a:b:c" == ThreadKey(other);
    var t := TaskBound(Tasks(map[], map[]), "1", one);
    assert !Holds([], one) && [] + [one] == [one];
    assert t == Tasks(map["1" := [one]], map["p:a:b:c" := "1"]);
    assert Without([one], other) == [one];
    assert TaskBound(t, "2", other).taskBindings["1"] == [one];
  }
}
