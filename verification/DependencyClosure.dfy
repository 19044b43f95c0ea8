/** Two closures over package dependencies: the depth-first validation of a packaged runtime
    (packages/opencorvus/script/build-runtime-node-modules.ts:235-277) and the worklist that collects
    the external dependencies of a release (script/public-package-release.ts:185-204). */
module DependencyClosure {
  import opened Basics

  type Name = string
  type Source = string
  type Directory = string

  // ----- depth-first validation -----

  datatype Module = Module(name: Name, runtimeDependencies: seq<Name>)

  /** An identity: a package name together with the directory it resolved to. */
  datatype Node = Node(name: Name, source: Source)

  datatype Packages = Packages(
    resolve: (Name, Source) -> Option<Source>, inside: Source -> bool,
    manifestName: Source -> Option<Name>, dependencies: Source -> seq<Name>, base: Source)

  datatype Failure = Missing | Outside | WrongManifest
  datatype Result = Ok | Throws(failure: Failure)

  function RootNames(modules: seq<Module>): set<Name> {
    set m | m in modules :: m.name
  }

  /** The runtime dependencies of the first module of that name. */
  function Extra(modules: seq<Module>, name: Name): seq<Name> {
    if modules == [] then []
    else if modules[0].name == name then modules[0].runtimeDependencies
    else Extra(modules[1..], name)
  }

  /** The names that validating a package goes on to. */
  ghost predicate Needs(p: Packages, modules: seq<Module>, a: Node, name: Name) {
    name !in RootNames(modules) && (name in p.dependencies(a.source) || name in Extra(modules, a.name))
  }

  /** The package is where and what it should be, and each package it needs resolves into `s`. */
  ghost predicate Sound(p: Packages, modules: seq<Module>, a: Node, s: set<Node>) {
    && p.inside(a.source) && p.manifestName(a.source) == Some(a.name)
    && forall n :: Needs(p, modules, a, n) ==>
         p.resolve(n, a.source).Some? && Node(n, p.resolve(n, a.source).value) in s
  }

  /** A set of sound packages closed under what they need. */
  ghost predicate Closed(p: Packages, modules: seq<Module>, s: set<Node>) {
    forall a :: a in s ==> Sound(p, modules, a, s)
  }

  ghost predicate HasRoots(p: Packages, modules: seq<Module>, s: set<Node>, count: nat)
    requires count <= |modules|
  {
    forall i :: 0 <= i < count ==>
      p.resolve(modules[i].name, p.base).Some? && Node(modules[i].name, p.resolve(modules[i].name, p.base).value) in s
  }

  /** There are finitely many identities: whatever resolves, resolves into the universe. */
  ghost predicate Finite(p: Packages, universe: set<Node>) {
    forall n, x :: p.resolve(n, x).Some? ==> Node(n, p.resolve(n, x).value) in universe
  }

  /** The packages found since `before` are sound. */
  ghost predicate NewSound(p: Packages, modules: seq<Module>, before: set<Node>, s: set<Node>) {
    forall a :: a in s && a !in before ==> Sound(p, modules, a, s)
  }

  /** A name with an identity of its own in the set. */
  ghost predicate Found(p: Packages, name: Name, from: Source, s: set<Node>) {
    p.resolve(name, from).Some? && Node(name, p.resolve(name, from).value) in s
  }

  /** Every closed set that holds `start` is a reason to succeed, and holds all that was found. */
  ghost predicate Forced(p: Packages, modules: seq<Module>, start: set<Node>, ok: bool, s: set<Node>) {
    forall c :: Closed(p, modules, c) && start <= c ==> ok && s <= c
  }

  /** The modules themselves resolve from the runtime root only. */
  ghost predicate RootsFromBase(p: Packages, modules: seq<Module>, s: set<Node>) {
    forall a :: a in s && a.name in RootNames(modules) ==> p.resolve(a.name, p.base) == Some(a.source)
  }

  /** Of the modules, only `name` was found since `before`. */
  ghost predicate OnlyRoot(modules: seq<Module>, before: set<Node>, name: Name, s: set<Node>) {
    forall a :: a in s && a.name in RootNames(modules) ==> a in before || a.name == name
  }

  /** How the package loop may call: a module comes from the runtime root, with the runtime
      dependencies of the first module of its name; any other package comes with none. */
  ghost predicate CallFits(
    p: Packages, modules: seq<Module>, name: Name, from: Source, runtime: seq<Name>, s: set<Node>)
  {
    if name in RootNames(modules) then
      from == p.base && (runtime == Extra(modules, name) || exists a :: a in s && a.name == name)
    else
      runtime == [] == Extra(modules, name)
  }

  lemma NewSoundChains(p: Packages, modules: seq<Module>, before: set<Node>, mid: set<Node>, s: set<Node>)
    requires NewSound(p, modules, before, mid) && NewSound(p, modules, mid, s) && mid <= s
    ensures NewSound(p, modules, before, s)
  {
    forall a | a in s && a !in before
      ensures Sound(p, modules, a, s)
    {
      assert a in mid ==> Sound(p, modules, a, mid);
    }
  }

  /** Following one need of a package in `start`. */
  lemma ForcedChains(
    p: Packages, modules: seq<Module>, start: set<Node>, mid: set<Node>, a: Node, name: Name, ok: bool, s: set<Node>)
    requires Forced(p, modules, start, true, mid) && a in start && Needs(p, modules, a, name)
    requires p.resolve(name, a.source).Some? ==>
      Forced(p, modules, mid + {Node(name, p.resolve(name, a.source).value)}, ok, s)
    ensures Forced(p, modules, start, ok, s)
  {
    forall c | Closed(p, modules, c) && start <= c
      ensures ok && s <= c
    {
      assert Sound(p, modules, a, c);
      assert mid + {Node(name, p.resolve(name, a.source).value)} <= c;
    }
  }

  /** The identity just added needs what the call hands to its loop, and no more. */
  lemma NeedsOfCall(
    p: Packages, modules: seq<Module>, name: Name, from: Source, runtime: seq<Name>, s: set<Node>, a: Node, n: Name)
    requires CallFits(p, modules, name, from, runtime, s) && RootsFromBase(p, modules, s)
    requires p.resolve(name, from) == Some(a.source) && a.name == name && a !in s
    ensures Needs(p, modules, a, n) <==> n !in RootNames(modules) && n in p.dependencies(a.source) + runtime
  {
    forall b | b in s && b.name == name && name in RootNames(modules)
      ensures b == a
    {
    }
  }

  class Validator {
    const packages: Packages
    const modules: seq<Module>
    var validated: set<Node>

    constructor (p: Packages, m: seq<Module>)
      ensures packages == p && modules == m && validated == {}
    {
      packages, modules, validated := p, m, {};
    }

    method ValidatePackage(
      name: Name, from: Source, runtimeDependencies: seq<Name>, ghost universe: set<Node>)
      returns (r: Result)
      requires Finite(packages, universe)
      requires CallFits(packages, modules, name, from, runtimeDependencies, validated)
      requires RootsFromBase(packages, modules, validated)
      modifies this
      ensures old(validated) <= validated
      ensures RootsFromBase(packages, modules, validated)
      ensures OnlyRoot(modules, old(validated), name, validated)
      ensures r == Ok ==> Found(packages, name, from, validated)
      ensures r == Ok ==> NewSound(packages, modules, old(validated), validated)
      ensures packages.resolve(name, from).Some? ==>
        Forced(packages, modules, old(validated) + {Node(name, packages.resolve(name, from).value)}, r == Ok, validated)
      decreases |universe - validated|
    {
      hide Closed, NewSound, Extra, Forced, Sound, Needs, AllFound;
      var resolved := packages.resolve(name, from);
      if resolved == None {
        return Throws(Missing);
      }
      var source := resolved.value;
      var identity := Node(name, source);
      ghost var start := validated + {identity};
      UnsoundRefutes(packages, modules, start, identity);
      if !packages.inside(source) {
        return Throws(Outside);
      }
      if identity in validated {
        assert start == validated;
        NothingNew(packages, modules, validated);
        return Ok;
      }
      validated := validated + {identity};
      FewerLeft(universe, old(validated), validated, identity);
      if packages.manifestName(source) != Some(name) {
        return Throws(WrongManifest);
      }
      var dependencies := packages.dependencies(source) + runtimeDependencies;
      NothingNew(packages, modules, start);
      NoneAsked(packages, modules, source, start);
      assert dependencies[..0] == [];
      var i := 0;
      while i < |dependencies|
        invariant 0 <= i <= |dependencies|
        invariant start <= validated
        invariant RootsFromBase(packages, modules, validated)
        invariant OnlyRoot(modules, old(validated), name, validated)
        invariant AllFound(packages, modules, dependencies[..i], source, validated)
        invariant NewSound(packages, modules, start, validated)
        invariant Forced(packages, modules, start, true, validated)
      {
        var dependencyName := dependencies[i];
        ghost var mid := validated;
        if dependencyName !in RootNames(modules) {
          FewerLeft(universe, old(validated), validated, identity);
          ExtraOfRoots(modules, dependencyName);
          r := ValidatePackage(dependencyName, source, [], universe);
          NeedsOfCall(packages, modules, name, from, runtimeDependencies, old(validated), identity, dependencyName);
          ForcedChains(packages, modules, start, mid, identity, dependencyName, r == Ok, validated);
          if r != Ok {
            return;
          }
          NewSoundChains(packages, modules, start, mid, validated);
        }
        AllFoundNext(packages, modules, dependencies, i, source, mid, validated);
        i := i + 1;
      }
      assert dependencies[..|dependencies|] == dependencies;
      forall n
        ensures Needs(packages, modules, identity, n) <==>
          n !in RootNames(modules) && n in packages.dependencies(source) + runtimeDependencies
      {
        NeedsOfCall(packages, modules, name, from, runtimeDependencies, old(validated), identity, n);
      }
      AddSound(packages, modules, old(validated), dependencies, identity, validated);
      return Ok;
    }

    /** The whole validation succeeds if and only if some closed set of sound packages contains all
        modules, and then it has found the least such set. */
    method ValidateModules(ghost universe: set<Node>) returns (r: Result)
      requires Finite(packages, universe) && validated == {}
      modifies this
      ensures r == Ok <==> exists s :: Closed(packages, modules, s) && HasRoots(packages, modules, s, |modules|)
      ensures r == Ok ==> Closed(packages, modules, validated) && HasRoots(packages, modules, validated, |modules|)
      ensures r == Ok ==> AllRoots(packages, modules, true, validated)
    {
      hide Closed, NewSound, Extra, Forced;
      NothingNew(packages, modules, {});
      NoRootsYet(packages, modules);
      var i := 0;
      while i < |modules|
        invariant 0 <= i <= |modules|
        invariant RootsFromBase(packages, modules, validated)
        invariant forall a :: a in validated && a.name in RootNames(modules) ==>
          exists k :: 0 <= k < i && modules[k].name == a.name
        invariant HasRoots(packages, modules, validated, i)
        invariant NewSound(packages, modules, {}, validated)
        invariant AllRoots(packages, modules, true, validated)
      {
        ghost var mid := validated;
        ExtraOfFirst(modules, i);
        r := ValidatePackage(modules[i].name, packages.base, modules[i].runtimeDependencies, universe);
        AllRootsChains(packages, modules, mid, i, r == Ok, validated);
        if r != Ok {
          NoneWithAllRoots(packages, modules, validated);
          return;
        }
        NewSoundChains(packages, modules, {}, mid, validated);
        i := i + 1;
      }
      AllNewIsClosed(packages, modules, validated);
      return Ok;
    }
  }

  /** Every closed set with all the modules in it holds all that was found. */
  ghost predicate AllRoots(p: Packages, modules: seq<Module>, ok: bool, s: set<Node>) {
    forall c :: Closed(p, modules, c) && HasRoots(p, modules, c, |modules|) ==> ok && s <= c
  }

  lemma NoRootsYet(p: Packages, modules: seq<Module>)
    ensures AllRoots(p, modules, true, {})
  {
  }

  lemma NoneWithAllRoots(p: Packages, modules: seq<Module>, s: set<Node>)
    requires AllRoots(p, modules, false, s)
    ensures !exists c :: Closed(p, modules, c) && HasRoots(p, modules, c, |modules|)
  {
  }

  lemma AllRootsChains(p: Packages, modules: seq<Module>, mid: set<Node>, i: nat, ok: bool, s: set<Node>)
    requires i < |modules| && AllRoots(p, modules, true, mid)
    requires p.resolve(modules[i].name, p.base).Some? ==>
      Forced(p, modules, mid + {Node(modules[i].name, p.resolve(modules[i].name, p.base).value)}, ok, s)
    ensures AllRoots(p, modules, ok, s)
  {
    hide Closed;
    forall c | Closed(p, modules, c) && HasRoots(p, modules, c, |modules|)
      ensures ok && s <= c
    {
      assert mid + {Node(modules[i].name, p.resolve(modules[i].name, p.base).value)} <= c;
    }
  }

  lemma AllNewIsClosed(p: Packages, modules: seq<Module>, s: set<Node>)
    requires NewSound(p, modules, {}, s)
    ensures Closed(p, modules, s)
  {
  }

  lemma NothingNew(p: Packages, modules: seq<Module>, s: set<Node>)
    ensures NewSound(p, modules, s, s) && Forced(p, modules, s, true, s)
  {
  }

  /** A package that is not where or what it should be is in no closed set. */
  lemma UnsoundRefutes(p: Packages, modules: seq<Module>, start: set<Node>, a: Node)
    requires a in start
    ensures !p.inside(a.source) || p.manifestName(a.source) != Some(a.name) ==>
      forall s :: Forced(p, modules, start, false, s)
  {
    hide Sound;
    forall c | Closed(p, modules, c) && start <= c
      ensures p.inside(a.source) && p.manifestName(a.source) == Some(a.name)
    {
      SoundIsPlaced(p, modules, a, c);
    }
  }

  lemma SoundIsPlaced(p: Packages, modules: seq<Module>, a: Node, s: set<Node>)
    requires Sound(p, modules, a, s)
    ensures p.inside(a.source) && p.manifestName(a.source) == Some(a.name)
  {
  }

  /** The names that are no modules' are found. */
  ghost predicate AllFound(p: Packages, modules: seq<Module>, names: seq<Name>, from: Source, s: set<Node>) {
    forall n :: n in names && n !in RootNames(modules) ==> Found(p, n, from, s)
  }

  lemma NoneAsked(p: Packages, modules: seq<Module>, from: Source, s: set<Node>)
    ensures AllFound(p, modules, [], from, s)
  {
  }

  lemma AllFoundNext(
    p: Packages, modules: seq<Module>, names: seq<Name>, i: nat, from: Source, before: set<Node>, s: set<Node>)
    requires i < |names| && before <= s && AllFound(p, modules, names[..i], from, before)
    requires names[i] in RootNames(modules) || Found(p, names[i], from, s)
    ensures AllFound(p, modules, names[..i + 1], from, s)
  {
    forall n | n in names[..i + 1] && n !in RootNames(modules)
      ensures Found(p, n, from, s)
    {
      assert n in names[..i] ==> Found(p, n, from, before);
    }
  }

  lemma AddSound(p: Packages, modules: seq<Module>, before: set<Node>, names: seq<Name>, a: Node, s: set<Node>)
    requires NewSound(p, modules, before + {a}, s)
    requires p.inside(a.source) && p.manifestName(a.source) == Some(a.name)
    requires forall n :: Needs(p, modules, a, n) <==> n !in RootNames(modules) && n in names
    requires AllFound(p, modules, names, a.source, s)
    ensures NewSound(p, modules, before, s)
  {
    hide Needs;
    assert Sound(p, modules, a, s);
  }

  lemma {:induction false} ExtraOfRoots(modules: seq<Module>, name: Name)
    requires name !in RootNames(modules)
    ensures Extra(modules, name) == []
  {
    if modules != [] {
      assert modules[0] in modules;
      assert forall m :: m in modules[1..] ==> m in modules;
      ExtraOfRoots(modules[1..], name);
    }
  }

  lemma {:induction false} ExtraOfFirst(modules: seq<Module>, i: nat)
    requires i < |modules|
    ensures modules[i].name in RootNames(modules)
    ensures (forall k :: 0 <= k < i ==> modules[k].name != modules[i].name) ==>
      Extra(modules, modules[i].name) == modules[i].runtimeDependencies
  {
    assert modules[i] in modules;
    if i > 0 {
      ExtraOfFirst(modules[1..], i - 1);
    }
  }

  // ----- the worklist over external dependencies -----

  /** Where an installed package is found depends on the directories found so far. */
  datatype Installed = Installed(
    find: (Name, seq<Directory>) -> Option<Directory>, dependencies: Directory -> seq<Name>)

  /** Outside the release itself, the set is closed under what the collected directories ask for. */
  ghost predicate ClosedUnder(
    installed: Installed, released: set<Name>, directories: map<Name, Directory>, s: set<Name>)
  {
    forall n, d :: n in directories && n in s && d in installed.dependencies(directories[n]) && d !in released ==>
      d in s
  }

  ghost predicate Holds(initial: seq<Name>, released: set<Name>, s: set<Name>) {
    forall n :: n in initial && n !in released ==> n in s
  }

  /** Every set closed under what was collected, from the initial names on, holds these names too. */
  ghost predicate Wanted(
    initial: seq<Name>, released: set<Name>, installed: Installed, directories: map<Name, Directory>, names: set<Name>)
  {
    forall s :: Holds(initial, released, s) && ClosedUnder(installed, released, directories, s) ==> names <= s
  }

  /** The names were collected in this order, each found from the directories before it. */
  ghost predicate FoundInOrder(
    installed: Installed, directories: map<Name, Directory>, order: seq<Name>, found: seq<Directory>)
  {
    && |order| == |found| && (forall n :: n in order <==> n in directories)
    && (forall i, j :: 0 <= i < j < |order| ==> order[i] != order[j])
    && forall i :: 0 <= i < |order| ==>
         directories[order[i]] == found[i] && installed.find(order[i], found[..i]) == Some(found[i])
  }

  function NotReleased(names: seq<Name>, released: set<Name>): set<Name> {
    set n | n in names && n !in released
  }

  /** What is asked for by the collected directories is collected or pending. */
  ghost predicate Covered(
    initial: seq<Name>, released: set<Name>, installed: Installed, directories: map<Name, Directory>,
    pending: seq<Name>)
  {
    && Holds(initial, released, directories.Keys + NotReleased(pending, released))
    && forall n, d :: n in directories && d in installed.dependencies(directories[n]) && d !in released ==>
         d in directories || d in pending
  }

  /** The worklist ends, on cyclic dependencies too. It collects exactly the least set that holds the
      initial names and is closed under what it collected, or stops at a name in that set that is
      nowhere installed. */
  method ExternalDependencyDirectories(
    initial: seq<Name>, released: set<Name>, installed: Installed, ghost universe: set<Name>)
    returns (missing: Option<Name>, directories: map<Name, Directory>, ghost order: seq<Name>, found: seq<Directory>)
    requires forall n :: n in initial ==> n in universe
    requires forall d, n :: n in installed.dependencies(d) ==> n in universe
    ensures directories.Keys !! released
    ensures missing == None ==> Holds(initial, released, directories.Keys)
    ensures missing == None ==> ClosedUnder(installed, released, directories, directories.Keys)
    ensures Wanted(initial, released, installed, directories, directories.Keys)
    ensures FoundInOrder(installed, directories, order, found)
    ensures missing.Some? ==> installed.find(missing.value, found) == None
    ensures missing.Some? ==> missing.value !in released && missing.value !in directories
    ensures missing.Some? ==> Wanted(initial, released, installed, directories, {missing.value})
  {
    hide ClosedUnder, Covered, Wanted, Holds, FoundInOrder;
    directories := map[];
    order := [];
    found := [];
    var pending := initial;
    Started(initial, released, installed);
    while pending != []
      invariant directories.Keys !! released
      invariant forall n :: n in pending ==> n in universe
      invariant Covered(initial, released, installed, directories, pending)
      invariant Wanted(initial, released, installed, directories, directories.Keys + NotReleased(pending, released))
      invariant FoundInOrder(installed, directories, order, found)
      decreases |universe - directories.Keys|, |pending|
    {
      var name := pending[0];
      ghost var before := pending;
      pending := pending[1..];
      assert before == [name] + pending;
      if name in directories || name in released {
        Skipped(initial, released, installed, directories, name, pending);
        continue;
      }
      var directory := installed.find(name, found);
      WantedFewer(initial, released, installed, directories, directories.Keys + NotReleased(before, released), {name});
      WantedFewer(
        initial, released, installed, directories, directories.Keys + NotReleased(before, released), directories.Keys);
      if directory == None {
        return Some(name), directories, order, found;
      }
      ghost var known := directories;
      FewerLeft(universe, known.Keys, known.Keys + {name}, name);
      Collected(initial, released, installed, directories, name, pending, directory.value);
      FoundNext(installed, directories, order, found, name, directory.value);
      directories := directories[name := directory.value];
      assert directories.Keys == known.Keys + {name};
      found := found + [directory.value];
      order := order + [name];
      pending := pending + installed.dependencies(directory.value);
    }
    AllCollected(initial, released, installed, directories);
    missing := None;
  }

  lemma Started(initial: seq<Name>, released: set<Name>, installed: Installed)
    ensures Covered(initial, released, installed, map[], initial)
    ensures Wanted(initial, released, installed, map[], {} + NotReleased(initial, released))
    ensures FoundInOrder(installed, map[], [], [])
  {
  }

  lemma WantedFewer(
    initial: seq<Name>, released: set<Name>, installed: Installed, directories: map<Name, Directory>,
    more: set<Name>, fewer: set<Name>)
    requires Wanted(initial, released, installed, directories, more) && fewer <= more
    ensures Wanted(initial, released, installed, directories, fewer)
  {
    hide ClosedUnder, Holds;
  }

  lemma Skipped(
    initial: seq<Name>, released: set<Name>, installed: Installed, directories: map<Name, Directory>,
    name: Name, pending: seq<Name>)
    requires name in directories || name in released
    requires Covered(initial, released, installed, directories, [name] + pending)
    requires Wanted(initial, released, installed, directories,
                    directories.Keys + NotReleased([name] + pending, released))
    ensures Covered(initial, released, installed, directories, pending)
    ensures Wanted(initial, released, installed, directories, directories.Keys + NotReleased(pending, released))
  {
    assert directories.Keys + NotReleased([name] + pending, released) ==
      directories.Keys + NotReleased(pending, released);
  }

  lemma Collected(
    initial: seq<Name>, released: set<Name>, installed: Installed, directories: map<Name, Directory>,
    name: Name, pending: seq<Name>, directory: Directory)
    requires name !in directories && name !in released
    requires Covered(initial, released, installed, directories, [name] + pending)
    requires Wanted(initial, released, installed, directories,
                    directories.Keys + NotReleased([name] + pending, released))
    ensures var now := directories[name := directory];
      var next := pending + installed.dependencies(directory);
      Covered(initial, released, installed, now, next) &&
      Wanted(initial, released, installed, now, now.Keys + NotReleased(next, released))
  {
    var now := directories[name := directory];
    var next := pending + installed.dependencies(directory);
    assert NotReleased([name] + pending, released) == {name} + NotReleased(pending, released);
    assert NotReleased(next, released) ==
      NotReleased(pending, released) + NotReleased(installed.dependencies(directory), released);
    forall s | Holds(initial, released, s) && ClosedUnder(installed, released, now, s)
      ensures now.Keys + NotReleased(next, released) <= s
    {
      assert forall n :: n in directories ==> n in now && now[n] == directories[n];
      assert ClosedUnder(installed, released, directories, s);
      assert name in s && name in now;
    }
  }

  lemma FoundNext(
    installed: Installed, directories: map<Name, Directory>, order: seq<Name>, found: seq<Directory>,
    name: Name, directory: Directory)
    requires FoundInOrder(installed, directories, order, found) && name !in directories
    requires installed.find(name, found) == Some(directory)
    ensures FoundInOrder(installed, directories[name := directory], order + [name], found + [directory])
  {
    var longer := found + [directory];
    assert longer[..|found|] == found;
    forall i | 0 <= i < |order|
      ensures longer[..i] == found[..i] && order[i] != name
    {
      assert order[i] in order;
    }
  }

  lemma AllCollected(
    initial: seq<Name>, released: set<Name>, installed: Installed, directories: map<Name, Directory>)
    requires Covered(initial, released, installed, directories, [])
    requires Wanted(initial, released, installed, directories, directories.Keys + NotReleased([], released))
    ensures Holds(initial, released, directories.Keys)
    ensures ClosedUnder(installed, released, directories, directories.Keys)
    ensures Wanted(initial, released, installed, directories, directories.Keys)
  {
    assert directories.Keys + NotReleased([], released) == directories.Keys;
  }
}
