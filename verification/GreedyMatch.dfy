/** Greedy matching of two lists (packages/opencorvus/script/advanced-requirements-grill-e2e.ts:126-143):
    when taking the first fitting element is enough. */
module GreedyMatch {
  import opened Basics

  // ----- the source's matching -----

  /** The first element that fits, or -1. */
  function FindIndex<T>(item: T, candidates: seq<T>, same: (T, T) -> bool, from: nat): (at: int)
    requires from <= |candidates|
    ensures at == -1 || (from <= at < |candidates| && same(item, candidates[at]))
    ensures at == -1 ==> forall k :: from <= k < |candidates| ==> !same(item, candidates[k])
    ensures at != -1 ==> forall k :: from <= k < at ==> !same(item, candidates[k])
    decreases |candidates| - from
  {
    if from == |candidates| then -1 else if same(item, candidates[from]) then from
    else FindIndex(item, candidates, same, from + 1)
  }

  function Without<T>(s: seq<T>, at: nat): (r: seq<T>)
    requires at < |s|
    ensures |r| == |s| - 1
  {
    s[..at] + s[at + 1..]
  }

  function Greedy<T>(left: seq<T>, unmatched: seq<T>, same: (T, T) -> bool): bool {
    if left == [] then unmatched == []
    else
      var at := FindIndex(left[0], unmatched, same, 0);
      at != -1 && Greedy(left[1..], Without(unmatched, at), same)
  }

  method ExactMultisetMatch<T>(left: seq<T>, right: seq<T>, same: (T, T) -> bool) returns (matched: bool)
    ensures matched == Greedy(left, right, same)
  {
    GreedyCounts(left, right, same);
    if |left| != |right| {
      return false;
    }
    var unmatched := right;
    var i := 0;
    while i < |left|
      invariant 0 <= i <= |left|
      invariant Greedy(left, right, same) == Greedy(left[i..], unmatched, same)
    {
      assert left[i..][0] == left[i] && left[i..][1..] == left[i + 1..];
      var index := FindIndex(left[i], unmatched, same, 0);
      if index == -1 {
        return false;
      }
      unmatched := Without(unmatched, index);
      i := i + 1;
    }
    return unmatched == [];
  }

  lemma {:induction false} GreedyCounts<T>(left: seq<T>, right: seq<T>, same: (T, T) -> bool)
    ensures Greedy(left, right, same) ==> |left| == |right|
  {
    if left != [] {
      var at := FindIndex(left[0], right, same, 0);
      if at != -1 {
        GreedyCounts(left[1..], Without(right, at), same);
      }
    }
  }

  // ----- what it should decide -----

  /** `to` and `back` are inverse to each other, and pair each element with one that fits it. */
  ghost predicate Pairing<T>(left: seq<T>, right: seq<T>, same: (T, T) -> bool, to: seq<nat>, back: seq<nat>) {
    && |to| == |left| && |back| == |right|
    && (forall i :: 0 <= i < |to| ==> to[i] < |back| && back[to[i]] == i && same(left[i], right[to[i]]))
    && (forall v :: 0 <= v < |back| ==> back[v] < |to| && to[back[v]] == v)
  }

  ghost predicate Pairable<T(!new)>(left: seq<T>, right: seq<T>, same: (T, T) -> bool) {
    exists to, back :: Pairing(left, right, same, to, back)
  }

  /** Two elements that fit a common one fit the same ones. */
  ghost predicate Rectangular<T(!new)>(same: (T, T) -> bool) {
    forall a, b, x, y :: same(a, x) && same(b, x) && same(b, y) ==> same(a, y)
  }

  ghost predicate Equivalence<T(!new)>(same: (T, T) -> bool) {
    && (forall a :: same(a, a)) && (forall a, b :: same(a, b) ==> same(b, a))
    && forall a, b, c :: same(a, b) && same(b, c) ==> same(a, c)
  }

  lemma EquivalenceIsRectangular<T(!new)>(same: (T, T) -> bool)
    requires Equivalence(same)
    ensures Rectangular(same)
  {
    forall a, b, x, y | same(a, x) && same(b, x) && same(b, y)
      ensures same(a, y)
    {
      assert same(x, b);
      assert same(a, b);
    }
  }

  // ----- a pairing can begin with the greedy choice -----

  /** The index in the shorter list of an index other than `at`, and back. */
  function Close(v: nat, at: nat): int {
    if v > at then v - 1 else v
  }

  function Reopen(v: nat, at: nat): nat {
    if v >= at then v + 1 else v
  }

  function Shut(to: seq<nat>, at: nat): (t: seq<nat>)
    requires to != []
    ensures |t| == |to| - 1
  {
    seq(|to| - 1, i requires 0 <= i < |to| - 1 => Close(to[i + 1], at) as nat)
  }

  function Reopened(back: seq<nat>, at: nat): (b: seq<nat>)
    requires at < |back|
    ensures |b| == |back| - 1
  {
    seq(|back| - 1, v requires 0 <= v < |back| - 1 =>
      if back[Reopen(v, at)] == 0 then 0 else back[Reopen(v, at)] - 1)
  }

  lemma WithoutAt<T>(s: seq<T>, at: nat, v: nat)
    requires at < |s| && v < |s| - 1
    ensures Without(s, at)[v] == s[Reopen(v, at)]
  {
  }

  /** Leaving out a pair leaves a pairing of the rest. */
  lemma DropPair<T>(left: seq<T>, right: seq<T>, same: (T, T) -> bool, to: seq<nat>, back: seq<nat>)
    requires left != [] && Pairing(left, right, same, to, back)
    ensures Pairing(left[1..], Without(right, to[0]), same, Shut(to, to[0]), Reopened(back, to[0]))
  {
    hide Shut, Reopened, Without;
    var t, b := Shut(to, to[0]), Reopened(back, to[0]);
    forall i | 0 <= i < |t|
      ensures t[i] < |b| && b[t[i]] == i && same(left[1..][i], Without(right, to[0])[t[i]])
    {
      DropTo(left, right, same, to, back, i);
    }
    forall v | 0 <= v < |b|
      ensures b[v] < |t| && t[b[v]] == v
    {
      DropBack(left, right, same, to, back, v);
    }
  }

  ghost predicate ShutAt<T>(left: seq<T>, right: seq<T>, same: (T, T) -> bool, to: seq<nat>, back: seq<nat>, i: nat) {
    && |left| == |to| && |right| == |back| && i + 1 < |left| && to[0] < |right|
    && Shut(to, to[0])[i] < |right| - 1 && Reopened(back, to[0])[Shut(to, to[0])[i]] == i
    && same(left[1..][i], Without(right, to[0])[Shut(to, to[0])[i]])
  }

  ghost predicate ReopenedAt(to: seq<nat>, back: seq<nat>, v: nat) {
    && to != [] && to[0] < |back| && v < |back| - 1
    && Reopened(back, to[0])[v] < |to| - 1 && Shut(to, to[0])[Reopened(back, to[0])[v]] == v
  }

  lemma DropTo<T>(left: seq<T>, right: seq<T>, same: (T, T) -> bool, to: seq<nat>, back: seq<nat>, i: nat)
    requires Pairing(left, right, same, to, back) && i + 1 < |left|
    ensures ShutAt(left, right, same, to, back, i)
  {
    assert back[to[i + 1]] == i + 1 && back[to[0]] == 0;
    assert Reopen(Shut(to, to[0])[i], to[0]) == to[i + 1];
    WithoutAt(right, to[0], Shut(to, to[0])[i]);
  }

  lemma DropBack<T>(left: seq<T>, right: seq<T>, same: (T, T) -> bool, to: seq<nat>, back: seq<nat>, v: nat)
    requires left != [] && Pairing(left, right, same, to, back) && v < |right| - 1
    ensures ReopenedAt(to, back, v)
  {
    var w := Reopen(v, to[0]);
    assert to[back[w]] == w && w != to[0];
    assert back[w] != 0;
  }

  /** With a rectangular relation, any fitting element may be given to the first one. */
  lemma GiveFirst<T(!new)>(
    left: seq<T>, right: seq<T>, same: (T, T) -> bool, to: seq<nat>, back: seq<nat>, at: nat)
    returns (t: seq<nat>, b: seq<nat>)
    requires Rectangular(same) && left != [] && Pairing(left, right, same, to, back)
    requires at < |right| && same(left[0], right[at])
    ensures Pairing(left, right, same, t, b) && t[0] == at
  {
    var i, k := back[at], to[0];
    t, b := to[i := k][0 := at], back[k := i][at := 0];
    assert same(left[i], right[at]) && same(left[0], right[at]) && same(left[0], right[k]);
    assert same(left[i], right[k]);
  }

  /** A pairing of the rest, with one more pair in front. */
  lemma AddPair<T>(
    left: seq<T>, right: seq<T>, same: (T, T) -> bool, at: nat, to: seq<nat>, back: seq<nat>)
    returns (t: seq<nat>, b: seq<nat>)
    requires left != [] && at < |right| && same(left[0], right[at])
    requires Pairing(left[1..], Without(right, at), same, to, back)
    ensures Pairing(left, right, same, t, b)
  {
    t := Widened(to, at);
    b := Deepened(back, at);
    forall i | 0 <= i < |t|
      ensures t[i] < |b| && b[t[i]] == i && same(left[i], right[t[i]])
    {
      if i > 0 {
        AddTo(left, right, same, at, to, back, i);
      }
    }
    forall v | 0 <= v < |b|
      ensures b[v] < |t| && t[b[v]] == v
    {
      if v != at {
        assert to[back[Close(v, at)]] == Close(v, at);
      }
    }
  }

  function Widened(to: seq<nat>, at: nat): seq<nat> {
    [at] + seq(|to|, i requires 0 <= i < |to| => Reopen(to[i], at))
  }

  function Deepened(back: seq<nat>, at: nat): seq<nat>
    requires at <= |back|
  {
    seq(|back| + 1, v requires 0 <= v < |back| + 1 => if v == at then 0 else back[Close(v, at)] + 1)
  }

  lemma AddTo<T>(
    left: seq<T>, right: seq<T>, same: (T, T) -> bool, at: nat, to: seq<nat>, back: seq<nat>, i: nat)
    requires left != [] && at < |right| && Pairing(left[1..], Without(right, at), same, to, back) && 0 < i <= |to|
    ensures |to| == |left| - 1 && |back| == |right| - 1
    ensures Widened(to, at)[i] < |right| && Deepened(back, at)[Widened(to, at)[i]] == i
    ensures same(left[i], right[Widened(to, at)[i]])
  {
    WithoutAt(right, at, to[i - 1]);
    assert left[1..][i - 1] == left[i];
  }

  // ----- the results -----

  /** A match is always a pairing, whatever the relation. */
  lemma {:induction false} GreedyPairs<T(!new)>(left: seq<T>, right: seq<T>, same: (T, T) -> bool)
    requires Greedy(left, right, same)
    ensures Pairable(left, right, same)
  {
    if left == [] {
      assert Pairing(left, right, same, [], []);
    } else {
      var at := FindIndex(left[0], right, same, 0);
      GreedyPairs(left[1..], Without(right, at), same);
      var to, back :| Pairing(left[1..], Without(right, at), same, to, back);
      var t, b := AddPair(left, right, same, at, to, back);
    }
  }

  lemma {:induction false} PairableIsFound<T(!new)>(left: seq<T>, right: seq<T>, same: (T, T) -> bool)
    requires Rectangular(same) && Pairable(left, right, same)
    ensures Greedy(left, right, same)
  {
    var to, back :| Pairing(left, right, same, to, back);
    ghost var first := if back != [] then back[0] else 0;
    assert back != [] ==> first < |to|;
    if left != [] {
      assert same(left[0], right[to[0]]);
      var at := FindIndex(left[0], right, same, 0);
      var t, b := GiveFirst(left, right, same, to, back, at);
      DropPair(left, right, same, t, b);
      PairableIsFound(left[1..], Without(right, at), same);
    }
  }

  /** Greedy matching finds a pairing of any two lists that have one exactly when the relation is
      rectangular; every equivalence is. */
  lemma GreedyIsCompleteExactly<T(!new)>(same: (T, T) -> bool)
    ensures Rectangular(same) <==>
      forall left: seq<T>, right: seq<T> :: Greedy(left, right, same) <==> Pairable(left, right, same)
  {
    if Rectangular(same) {
      forall left: seq<T>, right: seq<T>
        ensures Greedy(left, right, same) <==> Pairable(left, right, same)
      {
        if Greedy(left, right, same) {
          GreedyPairs(left, right, same);
        }
        if Pairable(left, right, same) {
          PairableIsFound(left, right, same);
        }
      }
    } else {
      var a, b, x, y :| same(a, x) && same(b, x) && same(b, y) && !same(a, y);
      GreedyMisses(same, a, b, x, y);
    }
  }

  /** The lists on which the greedy choice is wrong. */
  lemma GreedyMisses<T(!new)>(same: (T, T) -> bool, a: T, b: T, x: T, y: T)
    requires same(a, x) && same(b, x) && same(b, y) && !same(a, y)
    ensures !Greedy([b, a], [x, y], same) && Pairable([b, a], [x, y], same)
  {
    assert Pairing([b, a], [x, y], same, [1, 0], [1, 0]);
    assert FindIndex(b, [x, y], same, 0) == 0;
    assert Without([x, y], 0) == [y];
    assert [b, a][1..] == [a];
  }

  lemma PairingsCompose<T>(
    a: seq<T>, b: seq<T>, c: seq<T>, first: (T, T) -> bool, second: (T, T) -> bool, both: (T, T) -> bool,
    to: seq<nat>, back: seq<nat>, to2: seq<nat>, back2: seq<nat>)
    returns (t: seq<nat>, r: seq<nat>)
    requires Pairing(a, b, first, to, back) && Pairing(b, c, second, to2, back2)
    requires forall i, j, k ::
      0 <= i < |a| && 0 <= j < |b| && 0 <= k < |c| && first(a[i], b[j]) && second(b[j], c[k]) ==>
      both(a[i], c[k])
    ensures Pairing(a, c, both, t, r)
  {
    t := seq(|a|, i requires 0 <= i < |a| => to2[to[i]]);
    r := seq(|c|, v requires 0 <= v < |c| => back[back2[v]]);
  }

  /** One list holds the elements of the other in some order. */
  ghost predicate Rearranged<T(!new)>(s: seq<T>, t: seq<T>) {
    Pairable(s, t, (a, b) => a == b)
  }

  lemma RearrangedKeepsPairable<T(!new)>(
    left: seq<T>, right: seq<T>, left2: seq<T>, right2: seq<T>, same: (T, T) -> bool)
    requires Rearranged(left2, left) && Rearranged(right, right2) && Pairable(left, right, same)
    ensures Pairable(left2, right2, same)
  {
    var eq := (a, b) => a == b;
    var to0, back0 :| Pairing(left2, left, eq, to0, back0);
    var to1, back1 :| Pairing(left, right, same, to1, back1);
    var to2, back2 :| Pairing(right, right2, eq, to2, back2);
    var t, r := PairingsCompose(left2, left, right, eq, same, same, to0, back0, to1, back1);
    var t2, r2 := PairingsCompose(left2, right, right2, same, eq, same, t, r, to2, back2);
  }

  lemma RearrangedBack<T(!new)>(s: seq<T>, t: seq<T>)
    requires Rearranged(s, t)
    ensures Rearranged(t, s)
  {
    var eq := (a, b) => a == b;
    var to, back :| Pairing(s, t, eq, to, back);
    assert Pairing(t, s, eq, back, to);
  }

  /** For an equivalence, the order of neither list matters. */
  lemma OrderDoesNotMatter<T(!new)>(left: seq<T>, right: seq<T>, left2: seq<T>, right2: seq<T>, same: (T, T) -> bool)
    requires Equivalence(same) && Rearranged(left, left2) && Rearranged(right, right2)
    ensures Greedy(left, right, same) == Greedy(left2, right2, same)
  {
    EquivalenceIsRectangular(same);
    GreedyIsCompleteExactly(same);
    RearrangedBack(left, left2);
    RearrangedBack(right, right2);
    if Pairable(left, right, same) {
      RearrangedKeepsPairable(left, right, left2, right2, same);
    }
    if Pairable(left2, right2, same) {
      RearrangedKeepsPairable(left2, right2, left, right, same);
    }
  }

  // ----- the two relations it is used with -----

  /** A registered record by field; a record that is missing has no fields. */
  type Registered = Option<map<string, string>>

  function Field(r: Registered, key: string): Option<string> {
    if r.Some? && key in r.value then Some(r.value[key]) else None
  }

  predicate SameFields(keys: seq<string>, left: Registered, right: Registered) {
    forall k :: 0 <= k < |keys| ==> Field(left, keys[k]) == Field(right, keys[k])
  }

  const REQUIREMENT_KEYS := ["id", "type", "description", "acceptance", "non_goals"]
  const DECISION_KEYS := ["key", "value", "reason"]

  predicate SameRegisteredRequirement(left: Registered, right: Registered) {
    SameFields(REQUIREMENT_KEYS, left, right)
  }

  predicate SameRegisteredDecision(left: Registered, right: Registered) {
    SameFields(DECISION_KEYS, left, right)
  }

  /** So registrations match exactly when they can be paired field by field. */
  lemma RegistrationsMatchExactly(left: seq<Registered>, right: seq<Registered>)
    ensures Greedy(left, right, SameRegisteredRequirement) <==> Pairable(left, right, SameRegisteredRequirement)
    ensures Greedy(left, right, SameRegisteredDecision) <==> Pairable(left, right, SameRegisteredDecision)
  {
    EquivalenceIsRectangular(SameRegisteredRequirement);
    EquivalenceIsRectangular(SameRegisteredDecision);
    GreedyIsCompleteExactly(SameRegisteredRequirement);
    GreedyIsCompleteExactly(SameRegisteredDecision);
  }
}
