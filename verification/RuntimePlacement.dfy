/** Copying runtime packages into one `node_modules` tree
    (packages/opencorvus/script/build-runtime-node-modules.ts:13-29, 153-233).

    A package goes to the top of the tree, or, when another version of its name is already there,
    below the package that needs it. Copying first deletes whatever lies at the destination. */
module RuntimePlacement {
  import opened Basics

  type Name = string
  type Source = string

  /** A place in the output: `[a, b]` is `node_modules/a/node_modules/b`. */
  type Path = seq<Name>

  datatype Module = Module(name: Name, runtimeDependencies: seq<Name>)

  /** The installed packages: where a name resolves to from a package, and what a package declares.
      `base` is the package from which the root modules are resolved. */
  datatype Graph = Graph(
    resolve: (Name, Source) -> Option<Source>, dependencies: Source -> seq<Name>,
    base: Source, roots: set<Name>)

  /** A throw ends the run; `Exhausted` says that the recursion did not end within the given depth. */
  datatype Status = Running | Unresolved | Exhausted

  /** `copied` and `names` are the two shared collections of the recursion; `disk` is the output
      directory and `writes` the destinations written, in order. */
  datatype State = State(
    status: Status, copied: set<(Source, Path)>, names: map<Name, Source>,
    disk: map<Path, Source>, writes: seq<Path>)

  const EMPTY := State(Running, {}, map[], map[], [])

  function Destination(names: map<Name, Source>, name: Name, source: Source, conflict: Path): Path {
    if name in names && names[name] != source then conflict + [name] else [name]
  }

  /** `rm -r` at the destination, then the copy. */
  function Written(disk: map<Path, Source>, destination: Path, source: Source): map<Path, Source> {
    (map d | d in disk && !(destination <= d) :: disk[d])[destination := source]
  }

  function Copy(s: State, name: Name, source: Source, destination: Path): State {
    State(s.status, s.copied + {(source, destination)},
          if name in s.names && s.names[name] != source then s.names else s.names[name := source],
          Written(s.disk, destination, source), s.writes + [destination])
  }

  function NonRoot(names: seq<Name>, roots: set<Name>): (rest: seq<Name>)
    ensures forall n :: n in rest <==> n in names && n !in roots
  {
    if names == [] then []
    else if names[0] in roots then NonRoot(names[1..], roots)
    else [names[0]] + NonRoot(names[1..], roots)
  }

  /** One call of the recursion, cut off below the given depth. */
  function PlaceOne(
    g: Graph, depth: nat, s: State, name: Name, from: Source, conflict: Path, runtime: seq<Name>): State
    decreases depth, 1, 0
  {
    if s.status != Running then s
    else if depth == 0 then s.(status := Exhausted)
    else
      match g.resolve(name, from)
      case None => s.(status := Unresolved)
      case Some(source) =>
        var destination := Destination(s.names, name, source, conflict);
        if (source, destination) in s.copied then s
        else
          PlaceAll(g, depth - 1, Copy(s, name, source, destination),
                   NonRoot(g.dependencies(source) + runtime, g.roots), source, destination)
  }

  /** The dependency loop of a package placed at `destination`. */
  function PlaceAll(
    g: Graph, depth: nat, s: State, names: seq<Name>, source: Source, destination: Path): State
    decreases depth, 2, |names|
  {
    if names == [] then s
    else
      PlaceAll(g, depth, PlaceOne(g, depth, s, names[0], source, destination, []),
               names[1..], source, destination)
  }

  function PlaceModules(g: Graph, depth: nat, modules: seq<Module>): State {
    if modules == [] then EMPTY
    else
      var m := modules[|modules| - 1];
      PlaceOne(g, depth, PlaceModules(g, depth, modules[..|modules| - 1]), m.name, g.base, [],
               m.runtimeDependencies)
  }

  // ----- the recursion as the source runs it -----

  class Placer {
    const graph: Graph
    var copied: set<(Source, Path)>
    var copiedPackageNames: map<Name, Source>
    var disk: map<Path, Source>
    ghost var writes: seq<Path>

    ghost function View(status: Status): State
      reads this
    {
      State(status, copied, copiedPackageNames, disk, writes)
    }

    constructor (g: Graph)
      ensures graph == g && View(Running) == EMPTY
    {
      graph, copied, copiedPackageNames, disk, writes := g, {}, map[], map[], [];
    }

    method CopyPackageDirectory(source: Source, destination: Path)
      modifies this`disk, this`writes
      ensures disk == Written(old(disk), destination, source) && writes == old(writes) + [destination]
    {
      disk := map d | d in disk && !(destination <= d) :: disk[d];
      disk := disk[destination := source];
      writes := writes + [destination];
    }

    /** The recursion as it runs, where it ends: within some depth, which then is no part of the result
        (`DepthDoesNotMatter`). */
    method CopyRuntimePackageTree(
      name: Name, from: Source, conflictNodeModules: Path, runtimeDependencies: seq<Name>, ghost depth: nat)
      returns (status: Status)
      requires PlaceOne(graph, depth, View(Running), name, from, conflictNodeModules, runtimeDependencies).status
        != Exhausted
      modifies this
      ensures View(status) ==
        PlaceOne(graph, depth, old(View(Running)), name, from, conflictNodeModules, runtimeDependencies)
      decreases depth
    {
      hide Written, NonRoot, PlaceAll;
      var resolved := graph.resolve(name, from);
      if resolved == None {
        return Unresolved;
      }
      var source := resolved.value;
      var hasVersionConflict := name in copiedPackageNames && copiedPackageNames[name] != source;
      var destination := (if hasVersionConflict then conflictNodeModules else []) + [name];
      assert destination == Destination(copiedPackageNames, name, source, conflictNodeModules);
      if (source, destination) in copied {
        return Running;
      }
      copied := copied + {(source, destination)};
      if !hasVersionConflict {
        copiedPackageNames := copiedPackageNames[name := source];
      }
      CopyPackageDirectory(source, destination);
      var dependencyNames := NonRoot(graph.dependencies(source) + runtimeDependencies, graph.roots);
      ghost var result := PlaceAll(graph, depth - 1, View(Running), dependencyNames, source, destination);
      var i := 0;
      while i < |dependencyNames|
        invariant 0 <= i <= |dependencyNames|
        invariant PlaceAll(graph, depth - 1, View(Running), dependencyNames[i..], source, destination) == result
      {
        assert dependencyNames[i] in dependencyNames;
        assert dependencyNames[i..][0] == dependencyNames[i] && dependencyNames[i..][1..] == dependencyNames[i + 1..];
        AllStep(graph, depth - 1, View(Running), dependencyNames[i..], source, destination);
        ghost var one := PlaceOne(graph, depth - 1, View(Running), dependencyNames[i], source, destination, []);
        if one.status == Exhausted {
          Stopped(graph, depth - 1, one, dependencyNames[i + 1..], source, destination);
        }
        status := CopyRuntimePackageTree(dependencyNames[i], source, destination, [], depth - 1);
        if status != Running {
          Stopped(graph, depth - 1, View(status), dependencyNames[i + 1..], source, destination);
          return;
        }
        i := i + 1;
      }
      assert dependencyNames[i..] == [];
      AllDone(graph, depth - 1, View(Running), source, destination);
      return Running;
    }

    /** The module loop, on an empty output. */
    method CopyRuntimeNodeModules(modules: seq<Module>, ghost depth: nat) returns (status: Status)
      requires View(Running) == EMPTY
      requires PlaceModules(graph, depth, modules).status != Exhausted
      modifies this
      ensures View(status) == PlaceModules(graph, depth, modules)
    {
      hide PlaceOne;
      status := Running;
      var i := 0;
      while i < |modules|
        invariant 0 <= i <= |modules| && status == Running
        invariant View(status) == PlaceModules(graph, depth, modules[..i])
      {
        var item := modules[i];
        assert modules[..i + 1][..i] == modules[..i];
        if PlaceModules(graph, depth, modules[..i + 1]).status == Exhausted {
          RestStopped(graph, depth, modules, i + 1);
        }
        status := CopyRuntimePackageTree(item.name, graph.base, [], item.runtimeDependencies, depth);
        i := i + 1;
        if status != Running {
          RestStopped(graph, depth, modules, i);
          return;
        }
      }
      assert modules[..i] == modules;
    }
  }

  /** After a throw the remaining modules change nothing. */
  lemma {:induction false} RestStopped(g: Graph, depth: nat, modules: seq<Module>, i: nat)
    requires i <= |modules| && PlaceModules(g, depth, modules[..i]).status != Running
    ensures PlaceModules(g, depth, modules) == PlaceModules(g, depth, modules[..i])
  {
    if i < |modules| {
      var before := modules[..|modules| - 1];
      assert before[..i] == modules[..i];
      RestStopped(g, depth, before, i);
    } else {
      assert modules[..i] == modules;
    }
  }

  lemma AllStep(g: Graph, depth: nat, s: State, names: seq<Name>, source: Source, destination: Path)
    requires names != []
    ensures PlaceAll(g, depth, s, names, source, destination) ==
      PlaceAll(g, depth, PlaceOne(g, depth, s, names[0], source, destination, []), names[1..], source, destination)
  {
  }

  lemma AllDone(g: Graph, depth: nat, s: State, source: Source, destination: Path)
    ensures PlaceAll(g, depth, s, [], source, destination) == s
  {
  }

  lemma {:induction false} Stopped(
    g: Graph, depth: nat, s: State, names: seq<Name>, source: Source, destination: Path)
    requires s.status != Running
    ensures PlaceAll(g, depth, s, names, source, destination) == s
    decreases names
  {
    if names != [] {
      Stopped(g, depth, s, names[1..], source, destination);
    }
  }

  /** A depth that is enough can be made greater without changing the result. */
  lemma {:induction false} MoreDepth(
    g: Graph, depth: nat, more: nat, s: State, name: Name, from: Source, conflict: Path, runtime: seq<Name>)
    requires depth <= more && PlaceOne(g, depth, s, name, from, conflict, runtime).status != Exhausted
    ensures PlaceOne(g, more, s, name, from, conflict, runtime) ==
      PlaceOne(g, depth, s, name, from, conflict, runtime)
    decreases depth, 1, 0
  {
    hide NonRoot, Written;
    if s.status == Running && depth > 0 && g.resolve(name, from).Some? {
      var source := g.resolve(name, from).value;
      var destination := Destination(s.names, name, source, conflict);
      if (source, destination) !in s.copied {
        MoreDepthForAll(g, depth - 1, more - 1, Copy(s, name, source, destination),
                        NonRoot(g.dependencies(source) + runtime, g.roots), source, destination);
      }
    }
  }

  lemma {:induction false} MoreDepthForAll(
    g: Graph, depth: nat, more: nat, s: State, names: seq<Name>, source: Source, destination: Path)
    requires depth <= more && PlaceAll(g, depth, s, names, source, destination).status != Exhausted
    ensures PlaceAll(g, more, s, names, source, destination) == PlaceAll(g, depth, s, names, source, destination)
    decreases depth, 2, |names|
  {
    if names != [] {
      var one := PlaceOne(g, depth, s, names[0], source, destination, []);
      if one.status == Exhausted {
        Stopped(g, depth, one, names[1..], source, destination);
      }
      MoreDepth(g, depth, more, s, names[0], source, destination, []);
      MoreDepthForAll(g, depth, more, one, names[1..], source, destination);
    }
  }

  /** Where the recursion ends, the result is that of the recursion alone: any two depths that do not cut
      it off give the same. */
  lemma {:induction false} DepthDoesNotMatter(g: Graph, depth: nat, more: nat, modules: seq<Module>)
    requires depth <= more && PlaceModules(g, depth, modules).status != Exhausted
    ensures PlaceModules(g, more, modules) == PlaceModules(g, depth, modules)
  {
    hide PlaceOne;
    if modules != [] {
      var before, m := modules[..|modules| - 1], modules[|modules| - 1];
      var s := PlaceModules(g, depth, before);
      if s.status != Running {
        StoppedModule(g, depth, s, m);
        StoppedModule(g, more, s, m);
        DepthDoesNotMatter(g, depth, more, before);
      } else {
        DepthDoesNotMatter(g, depth, more, before);
        MoreDepth(g, depth, more, s, m.name, g.base, [], m.runtimeDependencies);
      }
    }
  }

  // ----- what every step keeps -----

  /** The shared collections describe the disk, and everything written is there. */
  ghost predicate Books(s: State) {
    && (forall x, d :: (x, d) in s.copied <==> d in s.disk && s.disk[d] == x)
    && (forall n :: n in s.names <==> [n] in s.disk)
    && (forall n :: n in s.names ==> s.disk[[n]] == s.names[n])
    && (forall d :: d in s.disk <==> d in s.writes)
  }

  /** A nested package lies below the one that needs it, and only because of a conflict. */
  ghost predicate Nested(g: Graph, s: State, d: Path)
    requires d in s.disk && |d| > 1
  {
    var parent, name := d[..|d| - 1], d[|d| - 1];
    && parent in s.disk && g.resolve(name, s.disk[parent]) == Some(s.disk[d])
    && name in s.names && s.names[name] != s.disk[d]
  }

  ghost predicate Tree(g: Graph, s: State) {
    forall d :: d in s.disk ==> d != [] && (|d| > 1 ==> Nested(g, s, d))
  }

  /** A root name at the top was resolved from the base. */
  ghost predicate RootsFromBase(g: Graph, s: State) {
    forall n :: n in s.names && n in g.roots ==> g.resolve(n, g.base) == Some(s.names[n])
  }

  /** No destination is written twice, and none is written above an earlier one, where the delete
      before the copy would take the earlier one away. */
  ghost predicate WrittenOnce(writes: seq<Path>) {
    forall i, j :: 0 <= i < j < |writes| ==> !(writes[j] <= writes[i])
  }

  ghost predicate Inv(g: Graph, s: State) {
    Books(s) && Tree(g, s) && RootsFromBase(g, s) && WrittenOnce(s.writes)
  }

  ghost predicate Extends(a: State, b: State) {
    && (forall d :: d in a.disk ==> d in b.disk && b.disk[d] == a.disk[d])
    && a.writes <= b.writes
  }

  predicate Has(disk: map<Path, Source>, d: Path, source: Source) {
    d in disk && disk[d] == source
  }

  /** The package that `name` resolves to from `source` lies in the `node_modules` of `d` or at the top. */
  ghost predicate Satisfied(g: Graph, s: State, d: Path, source: Source, name: Name) {
    g.resolve(name, source).Some? &&
    (Has(s.disk, d + [name], g.resolve(name, source).value) || Has(s.disk, [name], g.resolve(name, source).value))
  }

  ghost predicate AllSatisfied(g: Graph, s: State, d: Path, source: Source, names: seq<Name>) {
    forall n :: n in names && n !in g.roots ==> Satisfied(g, s, d, source, n)
  }

  /** All packages placed since `before` have their dependencies. */
  ghost predicate NewComplete(g: Graph, before: State, s: State) {
    forall d :: d in s.disk && d !in before.disk ==>
      AllSatisfied(g, s, d, s.disk[d], g.dependencies(s.disk[d]))
  }

  /** A call comes from the module loop, or from a package placed at `conflict`. */
  ghost predicate Called(g: Graph, s: State, name: Name, from: Source, conflict: Path) {
    if name in g.roots then from == g.base && conflict == [] else Has(s.disk, conflict, from)
  }

  lemma {:induction false} PrefixesAreThere(g: Graph, s: State, d: Path, p: Path)
    requires Tree(g, s) && d in s.disk && p <= d && p != []
    ensures p in s.disk
    decreases |d|
  {
    if |p| < |d| {
      assert Nested(g, s, d);
      PrefixesAreThere(g, s, d[..|d| - 1], p);
    } else {
      assert p == d;
    }
  }

  /** A destination that was not copied to is free, and nothing lies below it. */
  lemma DestinationIsFree(g: Graph, s: State, name: Name, from: Source, conflict: Path, source: Source)
    requires Inv(g, s) && Called(g, s, name, from, conflict) && g.resolve(name, from) == Some(source)
    requires (source, Destination(s.names, name, source, conflict)) !in s.copied
    ensures forall d :: d in s.disk ==> !(Destination(s.names, name, source, conflict) <= d)
  {
    var destination := Destination(s.names, name, source, conflict);
    if name in s.names && s.names[name] != source {
      assert destination[..|destination| - 1] == conflict;
    }
    assert destination !in s.disk;
    forall d | d in s.disk && destination <= d ensures false {
      PrefixesAreThere(g, s, d, destination);
    }
  }

  /** Only a dependency meets a conflict, and then the package that needs it has its place. */
  lemma ConflictIsBelow(g: Graph, s: State, name: Name, from: Source, conflict: Path, source: Source)
    requires Inv(g, s) && Called(g, s, name, from, conflict) && g.resolve(name, from) == Some(source)
    requires name in s.names && s.names[name] != source
    ensures conflict != [] && Has(s.disk, conflict, from)
  {
  }

  /** The call of a destination that is still free writes there and takes nothing away. */
  lemma CopyIsUpdate(g: Graph, s: State, name: Name, from: Source, conflict: Path, source: Source)
    requires Inv(g, s) && Called(g, s, name, from, conflict) && g.resolve(name, from) == Some(source)
    requires (source, Destination(s.names, name, source, conflict)) !in s.copied
    ensures var destination := Destination(s.names, name, source, conflict);
      && destination !in s.disk
      && Written(s.disk, destination, source) == s.disk[destination := source]
      && forall d :: d in s.writes ==> !(destination <= d)
  {
    hide Tree, RootsFromBase, WrittenOnce, Called;
    var destination := Destination(s.names, name, source, conflict);
    DestinationIsFree(g, s, name, from, conflict, source);
    assert destination <= destination;
    assert (map d | d in s.disk && !(destination <= d) :: s.disk[d]) == s.disk;
  }

  lemma BooksOfCopy(s: State, name: Name, source: Source, destination: Path, t: State)
    requires Books(s) && destination !in s.disk
    requires t.copied == s.copied + {(source, destination)} && t.disk == s.disk[destination := source]
    requires t.writes == s.writes + [destination]
    requires if destination == [name] then t.names == s.names[name := source]
             else |destination| > 1 && t.names == s.names
    ensures Books(t)
  {
    assert forall n :: [n] == [name] <==> n == name;
  }

  lemma TreeOfCopy(g: Graph, s: State, conflict: Path, name: Name, source: Source, destination: Path, t: State)
    requires Tree(g, s) && destination !in s.disk && t.disk == s.disk[destination := source]
    requires forall n :: n in s.names ==> n in t.names && t.names[n] == s.names[n]
    requires destination == [name] ||
      (destination == conflict + [name] && conflict in s.disk && name in s.names &&
       s.names[name] != source && g.resolve(name, s.disk[conflict]) == Some(source))
    ensures Tree(g, t)
  {
    forall d | d in t.disk && |d| > 1 ensures Nested(g, t, d) {
      if d in s.disk {
        assert Nested(g, s, d);
      } else {
        assert d[..|d| - 1] == conflict;
      }
    }
  }

  lemma AppendOnce(writes: seq<Path>, destination: Path)
    requires WrittenOnce(writes) && forall d :: d in writes ==> !(destination <= d)
    ensures WrittenOnce(writes + [destination])
  {
    var all := writes + [destination];
    forall i, j | 0 <= i < j < |all| ensures !(all[j] <= all[i]) {
      assert all[i] in writes;
    }
  }

  lemma CopyKeepsRoots(g: Graph, s: State, name: Name, from: Source, conflict: Path, source: Source)
    requires Inv(g, s) && Called(g, s, name, from, conflict) && g.resolve(name, from) == Some(source)
    ensures RootsFromBase(g, Copy(s, name, source, Destination(s.names, name, source, conflict)))
  {
    hide Written, Tree, Books, WrittenOnce;
  }

  lemma CopyKeepsInv(g: Graph, s: State, name: Name, from: Source, conflict: Path, source: Source)
    requires Inv(g, s) && Called(g, s, name, from, conflict) && g.resolve(name, from) == Some(source)
    requires (source, Destination(s.names, name, source, conflict)) !in s.copied
    ensures var destination := Destination(s.names, name, source, conflict);
      var t := Copy(s, name, source, destination);
      && Inv(g, t) && Extends(s, t) && t.disk == s.disk[destination := source]
  {
    hide Books, Tree, WrittenOnce, RootsFromBase, Written, Called;
    var destination := Destination(s.names, name, source, conflict);
    var t := Copy(s, name, source, destination);
    CopyIsUpdate(g, s, name, from, conflict, source);
    if name in s.names && s.names[name] != source {
      ConflictIsBelow(g, s, name, from, conflict, source);
    }
    BooksOfCopy(s, name, source, destination, t);
    TreeOfCopy(g, s, conflict, name, source, destination, t);
    AppendOnce(s.writes, destination);
    CopyKeepsRoots(g, s, name, from, conflict, source);
  }

  lemma SatisfiedLasts(g: Graph, s: State, t: State)
    requires Extends(s, t)
    ensures forall d, source, names :: AllSatisfied(g, s, d, source, names) ==>
      AllSatisfied(g, t, d, source, names)
    ensures forall d, source, n :: Satisfied(g, s, d, source, n) ==> Satisfied(g, t, d, source, n)
  {
  }

  lemma CompleteLasts(g: Graph, before: State, s: State, t: State)
    requires NewComplete(g, before, s) && NewComplete(g, s, t) && Extends(s, t)
    ensures NewComplete(g, before, t)
  {
    SatisfiedLasts(g, s, t);
  }

  /** What one call guarantees: its package is in place, whatever it placed has its dependencies, and a
      root placed by it has its runtime dependencies too. */
  ghost predicate Placed(
    g: Graph, s: State, t: State, name: Name, from: Source, conflict: Path, runtime: seq<Name>)
  {
    && Satisfied(g, t, conflict, from, name) && NewComplete(g, s, t)
    && ([name] in t.disk && [name] !in s.disk && name in g.roots ==>
         AllSatisfied(g, t, [name], t.disk[[name]], runtime))
  }

  lemma AlreadyPlaced(
    g: Graph, s: State, name: Name, from: Source, conflict: Path, runtime: seq<Name>, source: Source)
    requires Books(s) && g.resolve(name, from) == Some(source)
    requires (source, Destination(s.names, name, source, conflict)) in s.copied
    ensures Placed(g, s, s, name, from, conflict, runtime)
  {
  }

  lemma {:induction false} PlaceOneKeeps(
    g: Graph, depth: nat, s: State, name: Name, from: Source, conflict: Path, runtime: seq<Name>)
    requires Inv(g, s) && s.status == Running && Called(g, s, name, from, conflict)
    ensures var t := PlaceOne(g, depth, s, name, from, conflict, runtime);
      && Inv(g, t) && Extends(s, t)
      && (forall n :: n in t.names && n in g.roots ==> n in s.names || n == name)
      && (t.status == Running ==> Placed(g, s, t, name, from, conflict, runtime))
    decreases depth, 1, 0
  {
    hide Books, Tree, RootsFromBase, WrittenOnce, Placed, AllSatisfied, NewComplete, Written;
    if depth == 0 || g.resolve(name, from).None? {
      StatusIsFree(g, s, if depth == 0 then Exhausted else Unresolved);
    } else {
      var source := g.resolve(name, from).value;
      var destination := Destination(s.names, name, source, conflict);
      if (source, destination) in s.copied {
        AlreadyPlaced(g, s, name, from, conflict, runtime, source);
      } else {
        var copied := Copy(s, name, source, destination);
        var names := NonRoot(g.dependencies(source) + runtime, g.roots);
        CopyKeepsInv(g, s, name, from, conflict, source);
        PlaceAllKeeps(g, depth - 1, copied, names, source, destination);
        var t := PlaceAll(g, depth - 1, copied, names, source, destination);
        if t.status == Running {
          CallIsPlaced(g, s, copied, t, name, from, conflict, runtime, source, destination);
        }
      }
    }
  }

  lemma StatusIsFree(g: Graph, s: State, status: Status)
    requires Inv(g, s)
    ensures Inv(g, s.(status := status))
  {
    var t := s.(status := status);
    forall d | d in s.disk && |d| > 1 ensures Nested(g, t, d) {
      assert Nested(g, s, d);
    }
  }

  lemma CallIsPlaced(
    g: Graph, s: State, copied: State, t: State, name: Name, from: Source, conflict: Path, runtime: seq<Name>,
    source: Source, destination: Path)
    requires g.resolve(name, from) == Some(source)
    requires destination == [name] || (destination == conflict + [name] && name !in g.roots)
    requires copied.disk == s.disk[destination := source] && Extends(copied, t) && NewComplete(g, copied, t)
    requires AllSatisfied(g, t, destination, source, NonRoot(g.dependencies(source) + runtime, g.roots))
    ensures Placed(g, s, t, name, from, conflict, runtime)
  {
    assert Has(t.disk, destination, source);
    assert forall n :: n in g.dependencies(source) && n !in g.roots ==>
      n in NonRoot(g.dependencies(source) + runtime, g.roots);
    assert forall n :: n in runtime && n !in g.roots ==>
      n in NonRoot(g.dependencies(source) + runtime, g.roots);
    assert AllSatisfied(g, t, destination, source, g.dependencies(source));
    assert AllSatisfied(g, t, destination, source, runtime);
  }

  lemma {:induction false} PlaceAllKeeps(
    g: Graph, depth: nat, s: State, names: seq<Name>, source: Source, destination: Path)
    requires Inv(g, s) && s.status == Running && Has(s.disk, destination, source)
    requires forall n :: n in names ==> n !in g.roots
    ensures var t := PlaceAll(g, depth, s, names, source, destination);
      && Inv(g, t) && Extends(s, t) && (forall n :: n in t.names && n in g.roots ==> n in s.names)
      && (t.status == Running ==> NewComplete(g, s, t) && AllSatisfied(g, t, destination, source, names))
    decreases depth, 2, |names|
  {
    if names != [] {
      var one := PlaceOne(g, depth, s, names[0], source, destination, []);
      PlaceOneKeeps(g, depth, s, names[0], source, destination, []);
      if one.status == Running {
        PlaceAllKeeps(g, depth, one, names[1..], source, destination);
        var t := PlaceAll(g, depth, one, names[1..], source, destination);
        if t.status == Running {
          CompleteLasts(g, s, one, t);
          SatisfiedLasts(g, one, t);
          assert forall n :: n in names ==> n == names[0] || n in names[1..];
        }
      } else {
        Stopped(g, depth, one, names[1..], source, destination);
      }
    }
  }

  // ----- where the recursion ends -----

  /** Wherever the name resolves, it resolves to the same package. */
  ghost predicate OneVersion(g: Graph, n: Name) {
    forall x, y :: g.resolve(n, x).Some? && g.resolve(n, y).Some? ==> g.resolve(n, x) == g.resolve(n, y)
  }

  /** The dependency has one of the given names, or leads to a package of lower rank. */
  ghost predicate Falls(g: Graph, single: set<Name>, rank: Source -> nat, x: Source, n: Name) {
    g.resolve(n, x).Some? ==> n in single || rank(g.resolve(n, x).value) < rank(x)
  }

  /** Every cycle of dependencies passes through a name with only one version: without the names in
      `single`, which have one, ranks fall along all dependencies. */
  ghost predicate Grounded(g: Graph, single: set<Name>, rank: Source -> nat, height: nat) {
    && (forall n :: n in single ==> OneVersion(g, n))
    && (forall n, x :: n in single && g.resolve(n, x).Some? ==> rank(g.resolve(n, x).value) < height)
    && (forall x, n :: n in g.dependencies(x) && n !in g.roots ==> Falls(g, single, rank, x, n))
  }

  /** Names at the top were resolved from some package. */
  ghost predicate Resolved(g: Graph, s: State) {
    forall n :: n in s.names ==> exists x :: g.resolve(n, x) == Some(s.names[n])
  }

  /** The depth taken by the names of `single` that are not at the top yet. */
  function Levels(single: set<Name>, s: State, height: nat): nat {
    |single - s.names.Keys| * (height + 1)
  }

  lemma FewerTimes(a: nat, b: nat, step: nat)
    requires a <= b
    ensures a * step <= b * step
    ensures a < b ==> a * step + step <= b * step
  {
    assert b * step == a * step + (b - a) * step;
    if a < b {
      assert (b - a) * step == step + (b - a - 1) * step;
    }
  }

  lemma LevelsFall(single: set<Name>, s: State, t: State, height: nat)
    requires s.names.Keys <= t.names.Keys
    ensures Levels(single, t, height) <= Levels(single, s, height)
    ensures (exists n :: n in single && n !in s.names && n in t.names) ==>
      Levels(single, t, height) + height + 1 <= Levels(single, s, height)
  {
    SubsetSize(single - t.names.Keys, single - s.names.Keys);
    FewerTimes(|single - t.names.Keys|, |single - s.names.Keys|, height + 1);
    if n :| n in single && n !in s.names && n in t.names {
      FewerLeft(single, s.names.Keys, t.names.Keys, n);
    }
  }

  lemma NamesGrow(s: State, t: State)
    requires Books(s) && Books(t) && Extends(s, t)
    ensures s.names.Keys <= t.names.Keys
  {
  }

  /** A package that was not copied to its place has a name that is new, if that has only one version. */
  lemma SingleIsNew(g: Graph, s: State, name: Name, from: Source, conflict: Path, source: Source)
    requires Books(s) && Resolved(g, s) && OneVersion(g, name) && g.resolve(name, from) == Some(source)
    requires (source, Destination(s.names, name, source, conflict)) !in s.copied
    ensures name !in s.names
  {
  }

  lemma CopyKeepsResolved(g: Graph, s: State, name: Name, from: Source, source: Source, destination: Path)
    requires Resolved(g, s) && g.resolve(name, from) == Some(source)
    ensures Resolved(g, Copy(s, name, source, destination))
  {
    var t := Copy(s, name, source, destination);
    forall n | n in t.names ensures exists x :: g.resolve(n, x) == Some(t.names[n]) {
      if n !in s.names || t.names[n] != s.names[n] {
        assert g.resolve(n, from) == Some(t.names[n]);
      }
    }
  }

  /** One call of the recursion ends within the depth that ranks and single names leave. */
  lemma {:induction false} PlaceOneEnds(
    g: Graph, single: set<Name>, rank: Source -> nat, height: nat, depth: nat, s: State, name: Name,
    from: Source, conflict: Path, runtime: seq<Name>)
    requires Grounded(g, single, rank, height)
    requires Inv(g, s) && s.status == Running && Called(g, s, name, from, conflict) && Resolved(g, s)
    requires name !in g.roots ==> Falls(g, single, rank, from, name) && depth > Levels(single, s, height) + rank(from)
    requires name in g.roots ==> depth > 0
    requires name in g.roots && g.resolve(name, from).Some? ==>
      depth > Levels(single, s, height) + rank(g.resolve(name, from).value) + 1
    requires g.resolve(name, from).Some? ==>
      forall n :: n in runtime && n !in g.roots ==> Falls(g, single, rank, g.resolve(name, from).value, n)
    ensures var t := PlaceOne(g, depth, s, name, from, conflict, runtime);
      t.status != Exhausted && Resolved(g, t)
    decreases depth, 1, 0
  {
    hide Books, Tree, RootsFromBase, WrittenOnce, Written, Levels, OneVersion, Resolved;
    if g.resolve(name, from).Some? {
      var source := g.resolve(name, from).value;
      var destination := Destination(s.names, name, source, conflict);
      if (source, destination) !in s.copied {
        var copied := Copy(s, name, source, destination);
        CopyKeepsInv(g, s, name, from, conflict, source);
        CopyKeepsResolved(g, s, name, from, source, destination);
        LevelsFall(single, s, copied, height);
        if name in single {
          SingleIsNew(g, s, name, from, conflict, source);
        }
        PlaceAllEnds(g, single, rank, height, depth - 1, copied,
                     NonRoot(g.dependencies(source) + runtime, g.roots), source, destination);
      }
    } else {
      SameNamesResolved(g, s, s.(status := Unresolved));
    }
  }

  lemma SameNamesResolved(g: Graph, s: State, t: State)
    requires Resolved(g, s) && t.names == s.names
    ensures Resolved(g, t)
  {
  }

  lemma {:induction false} PlaceAllEnds(
    g: Graph, single: set<Name>, rank: Source -> nat, height: nat, depth: nat, s: State, names: seq<Name>,
    source: Source, destination: Path)
    requires Grounded(g, single, rank, height)
    requires Inv(g, s) && s.status == Running && Has(s.disk, destination, source) && Resolved(g, s)
    requires forall n :: n in names ==> n !in g.roots && Falls(g, single, rank, source, n)
    requires depth > Levels(single, s, height) + rank(source)
    ensures var t := PlaceAll(g, depth, s, names, source, destination);
      t.status != Exhausted && Resolved(g, t)
    decreases depth, 2, |names|
  {
    hide Books, Tree, RootsFromBase, WrittenOnce, Levels, Grounded, Resolved, Falls, PlaceOne;
    if names != [] {
      var one := PlaceOne(g, depth, s, names[0], source, destination, []);
      PlaceOneKeeps(g, depth, s, names[0], source, destination, []);
      PlaceOneEnds(g, single, rank, height, depth, s, names[0], source, destination, []);
      NamesGrow(s, one);
      LevelsFall(single, s, one, height);
      if one.status == Running {
        PlaceAllEnds(g, single, rank, height, depth, one, names[1..], source, destination);
      } else {
        Stopped(g, depth, one, names[1..], source, destination);
      }
    }
  }

  /** The depth is enough for a module: its ranks fall, as those of its runtime dependencies do. */
  ghost predicate DeepEnough(g: Graph, single: set<Name>, rank: Source -> nat, height: nat, depth: nat, m: Module) {
    && depth > 0
    && (g.resolve(m.name, g.base).Some? ==>
         var source := g.resolve(m.name, g.base).value;
         && depth > |single| * (height + 1) + rank(source) + 1
         && forall n :: n in m.runtimeDependencies && n !in g.roots ==> Falls(g, single, rank, source, n))
  }

  /** If every cycle of dependencies passes through a name with only one version, the run ends: within a
      depth given by the number of those names and by the ranks. A graph without cycles needs no such name. */
  lemma {:induction false} GroundedRunsEnd(
    g: Graph, single: set<Name>, rank: Source -> nat, height: nat, depth: nat, modules: seq<Module>)
    requires Grounded(g, single, rank, height)
    requires forall m :: m in modules ==> m.name in g.roots && DeepEnough(g, single, rank, height, depth, m)
    ensures var t := PlaceModules(g, depth, modules);
      t.status != Exhausted && Resolved(g, t)
  {
    hide Grounded, Falls, PlaceOne, Resolved, Inv;
    if modules == [] {
      EmptyIsResolved(g);
    } else {
      var before, m := modules[..|modules| - 1], modules[|modules| - 1];
      var s := PlaceModules(g, depth, before);
      GroundedRunsEnd(g, single, rank, height, depth, before);
      PlacementIsComplete(g, depth, before);
      if s.status == Running {
        LevelsAtMost(single, s, height);
        PlaceOneEnds(g, single, rank, height, depth, s, m.name, g.base, [], m.runtimeDependencies);
      } else {
        StoppedModule(g, depth, s, m);
      }
    }
  }

  lemma EmptyIsResolved(g: Graph)
    ensures Resolved(g, EMPTY)
  {
  }

  lemma LevelsAtMost(single: set<Name>, s: State, height: nat)
    ensures Levels(single, s, height) <= |single| * (height + 1)
  {
    LevelsFall(single, EMPTY, s, height);
    assert single - EMPTY.names.Keys == single;
  }

  // ----- where it does not -----

  /** The dependency resolves to a version other than that at the top. */
  predicate Conflicts(g: Graph, names: map<Name, Source>, x: Source, n: Name) {
    g.resolve(n, x).Some? && n in names && g.resolve(n, x).value != names[n]
  }

  /** From a dependency of `x`, that many conflicting dependencies can be followed one after the other. */
  ghost predicate Chain(g: Graph, names: map<Name, Source>, x: Source, n: Name, length: nat)
    decreases length, 0
  {
    length > 0 ==>
      Conflicts(g, names, x, n) && ChainFrom(g, names, g.resolve(n, x).value, length - 1)
  }

  ghost predicate ChainFrom(g: Graph, names: map<Name, Source>, x: Source, length: nat)
    decreases length, 1
  {
    exists n :: n in g.dependencies(x) && n !in g.roots && Chain(g, names, x, n, length)
  }

  /** Every dependency resolves, and its name has a version at the top. */
  ghost predicate AllAtTop(g: Graph, s: State) {
    forall x, n :: n in g.dependencies(x) && n !in g.roots ==> g.resolve(n, x).Some? && n in s.names
  }

  /** All that was placed since `s` lies at or below the destination. */
  ghost predicate AddsBelow(s: State, t: State, destination: Path) {
    forall p :: p in t.disk && p !in s.disk ==> destination <= p
  }

  /** Once all names are at the top, a dependency exceeds a depth if and only if there is a chain of that
      many conflicting dependencies from it: the recursion ends exactly if such chains do. */
  lemma {:induction false} EndsExactly(g: Graph, depth: nat, s: State, name: Name, from: Source, conflict: Path)
    requires Inv(g, s) && s.status == Running && AllAtTop(g, s) && Has(s.disk, conflict, from)
    requires name in g.dependencies(from) && name !in g.roots && conflict + [name] !in s.disk
    ensures var t := PlaceOne(g, depth, s, name, from, conflict, []);
      && (t.status == Exhausted <==> Chain(g, s.names, from, name, depth))
      && t.status != Unresolved && t.names == s.names && AddsBelow(s, t, conflict + [name])
    decreases depth, 1, 0
  {
    hide Tree, RootsFromBase, WrittenOnce, Written, ChainFrom;
    if depth > 0 {
      var source := g.resolve(name, from).value;
      if Conflicts(g, s.names, from, name) {
        var destination, copied := conflict + [name], Copy(s, name, source, conflict + [name]);
        assert g.dependencies(source) + [] == g.dependencies(source);
        CopyKeepsInv(g, s, name, from, conflict, source);
        NothingBelow(g, copied, s, destination);
        AllEndExactly(g, depth - 1, copied, NonRoot(g.dependencies(source), g.roots), source, destination);
        assert ChainFrom(g, s.names, source, depth - 1) <==>
          SomeChain(g, s.names, source, NonRoot(g.dependencies(source), g.roots), depth - 1) by {
          SameChains(g, s.names, source, depth - 1);
        }
      }
    }
  }

  ghost predicate SomeChain(g: Graph, names: map<Name, Source>, x: Source, wanted: seq<Name>, length: nat) {
    exists n :: n in wanted && Chain(g, names, x, n, length)
  }

  lemma SameChains(g: Graph, names: map<Name, Source>, x: Source, length: nat)
    ensures ChainFrom(g, names, x, length) <==> SomeChain(g, names, x, NonRoot(g.dependencies(x), g.roots), length)
  {
    hide Chain;
  }

  /** Nothing lies below a package that has just been placed. */
  lemma NothingBelow(g: Graph, t: State, s: State, destination: Path)
    requires Tree(g, s) && destination != [] && destination !in s.disk
    requires t.disk.Keys == s.disk.Keys + {destination}
    ensures forall n :: destination + [n] !in t.disk
  {
    forall n ensures destination + [n] !in t.disk {
      if destination + [n] in s.disk {
        PrefixesAreThere(g, s, destination + [n], destination);
      }
    }
  }

  lemma {:induction false} AllEndExactly(
    g: Graph, depth: nat, s: State, names: seq<Name>, source: Source, destination: Path)
    requires Inv(g, s) && s.status == Running && AllAtTop(g, s) && Has(s.disk, destination, source)
    requires forall n :: n in names ==> n in g.dependencies(source) && n !in g.roots
    requires forall n :: n in names && destination + [n] in s.disk ==> !Chain(g, s.names, source, n, depth)
    ensures var t := PlaceAll(g, depth, s, names, source, destination);
      && (t.status == Exhausted <==> SomeChain(g, s.names, source, names, depth))
      && t.status != Unresolved && t.names == s.names && AddsBelow(s, t, destination)
    decreases depth, 2, |names|
  {
    hide Inv, Chain, PlaceOne, AllAtTop;
    if names != [] {
      var n := names[0];
      var one := PlaceOne(g, depth, s, n, source, destination, []);
      PlaceOneKeeps(g, depth, s, n, source, destination, []);
      if destination + [n] in s.disk {
        PlacedBefore(g, depth, s, n, source, destination);
        AllEndExactly(g, depth, s, names[1..], source, destination);
      } else {
        EndsExactly(g, depth, s, n, source, destination);
        if one.status == Running {
          assert AllAtTop(g, one) by { SameTop(g, s, one); }
          forall m | m in names[1..] && destination + [m] in one.disk ensures !Chain(g, s.names, source, m, depth) {
            assert (destination + [n])[|destination|] == n && (destination + [m])[|destination|] == m;
          }
          AllEndExactly(g, depth, one, names[1..], source, destination);
        } else {
          Stopped(g, depth, one, names[1..], source, destination);
        }
      }
      assert forall m :: m in names <==> m == n || m in names[1..];
    }
  }

  lemma SameTop(g: Graph, s: State, t: State)
    requires AllAtTop(g, s) && t.names == s.names
    ensures AllAtTop(g, t)
  {
  }

  /** A nested dependency that is named again is left as it is. */
  lemma PlacedBefore(g: Graph, depth: nat, s: State, n: Name, source: Source, destination: Path)
    requires Inv(g, s) && s.status == Running && Has(s.disk, destination, source) && destination + [n] in s.disk
    requires !Chain(g, s.names, source, n, depth)
    ensures PlaceOne(g, depth, s, n, source, destination, []) == s
  {
    var below := destination + [n];
    assert below[..|below| - 1] == destination && below[|below| - 1] == n;
    assert destination != [] && Nested(g, s, below);
  }

  // ----- main results -----

  /** The first module of a name is the one that decides its runtime dependencies. */
  ghost predicate FirstOf(modules: seq<Module>, i: int) {
    0 <= i < |modules| && forall j :: 0 <= j < i ==> modules[j].name != modules[i].name
  }

  ghost predicate ModuleDelivered(g: Graph, s: State, m: Module, first: bool) {
    && Satisfied(g, s, [], g.base, m.name)
    && (first ==> AllSatisfied(g, s, [m.name], g.resolve(m.name, g.base).value, m.runtimeDependencies))
  }

  ghost predicate Delivered(g: Graph, s: State, modules: seq<Module>) {
    forall i :: 0 <= i < |modules| ==> ModuleDelivered(g, s, modules[i], FirstOf(modules, i))
  }

  /** Copying any list of modules, over any dependency graph, cyclic or not: no destination is written
      from two sources, or twice, and no delete takes an earlier placement away; and if the run does not
      throw, every non-root dependency of a package placed at `d` lies in `d`'s own `node_modules` or at
      the top, in the version it resolves to. */
  lemma {:induction false} PlacementIsComplete(g: Graph, depth: nat, modules: seq<Module>)
    requires forall m :: m in modules ==> m.name in g.roots
    ensures var t := PlaceModules(g, depth, modules);
      && Inv(g, t)
      && (forall n :: n in t.names && n in g.roots ==> exists m :: m in modules && m.name == n)
      && (t.status == Running ==> NewComplete(g, EMPTY, t) && Delivered(g, t, modules))
  {
    hide NewComplete, Delivered, Placed, Satisfied, PlaceOne, Nested, Called;
    if modules == [] {
      EmptyIsComplete(g);
    } else {
      var before, m := modules[..|modules| - 1], modules[|modules| - 1];
      var s := PlaceModules(g, depth, before);
      PlacementIsComplete(g, depth, before);
      assert modules == before + [m];
      if s.status == Running {
        assert Called(g, s, m.name, g.base, []) by { ModuleCalls(g, s, m.name); }
        PlaceOneKeeps(g, depth, s, m.name, g.base, [], m.runtimeDependencies);
        var t := PlaceModules(g, depth, modules);
        if t.status == Running {
          assert NewComplete(g, s, t) by { PlacedIsComplete(g, s, t, m); }
          CompleteLasts(g, EMPTY, s, t);
          ModuleAdded(g, s, t, modules);
        }
      } else {
        StoppedModule(g, depth, s, m);
      }
    }
  }

  lemma EmptyIsComplete(g: Graph)
    ensures Inv(g, EMPTY) && NewComplete(g, EMPTY, EMPTY) && Delivered(g, EMPTY, [])
  {
  }

  lemma ModuleCalls(g: Graph, s: State, name: Name)
    requires name in g.roots
    ensures Called(g, s, name, g.base, [])
  {
  }

  lemma PlacedIsComplete(g: Graph, s: State, t: State, m: Module)
    requires Placed(g, s, t, m.name, g.base, [], m.runtimeDependencies)
    ensures NewComplete(g, s, t)
  {
  }

  lemma StoppedModule(g: Graph, depth: nat, s: State, m: Module)
    requires s.status != Running
    ensures PlaceOne(g, depth, s, m.name, g.base, [], m.runtimeDependencies) == s
  {
  }

  lemma ModuleAdded(g: Graph, s: State, t: State, modules: seq<Module>)
    requires modules != [] && forall m :: m in modules ==> m.name in g.roots
    requires Books(s) && Extends(s, t) && Delivered(g, s, modules[..|modules| - 1])
    requires forall n :: n in s.names && n in g.roots ==> exists m :: m in modules[..|modules| - 1] && m.name == n
    requires var m := modules[|modules| - 1]; Placed(g, s, t, m.name, g.base, [], m.runtimeDependencies)
    ensures Delivered(g, t, modules)
  {
    hide ModuleDelivered, Placed, Books, Extends, FirstOf;
    forall i | 0 <= i < |modules| ensures ModuleDelivered(g, t, modules[i], FirstOf(modules, i)) {
      if i < |modules| - 1 {
        EarlierModule(g, s, t, modules, i);
      } else {
        LastModule(g, s, t, modules);
      }
    }
  }

  lemma EarlierModule(g: Graph, s: State, t: State, modules: seq<Module>, i: nat)
    requires i < |modules| - 1 && Extends(s, t) && Delivered(g, s, modules[..|modules| - 1])
    ensures ModuleDelivered(g, t, modules[i], FirstOf(modules, i))
  {
    var before := modules[..|modules| - 1];
    assert ModuleDelivered(g, s, before[i], FirstOf(before, i));
    assert FirstOf(modules, i) <==> FirstOf(before, i);
    DeliveredLasts(g, s, t, modules[i], FirstOf(modules, i));
  }

  lemma LastModule(g: Graph, s: State, t: State, modules: seq<Module>)
    requires modules != [] && Books(s)
    requires forall n :: n in s.names && n in g.roots ==> exists m :: m in modules[..|modules| - 1] && m.name == n
    requires var m := modules[|modules| - 1];
      m.name in g.roots && Placed(g, s, t, m.name, g.base, [], m.runtimeDependencies)
    ensures ModuleDelivered(g, t, modules[|modules| - 1], FirstOf(modules, |modules| - 1))
  {
    hide Placed, ModuleDelivered, Books;
    var n := |modules| - 1;
    assert FirstOf(modules, n) ==> forall m :: m in modules[..n] ==> m.name != modules[n].name;
    ModuleIsDelivered(g, s, t, modules[n], FirstOf(modules, n));
  }

  lemma DeliveredLasts(g: Graph, s: State, t: State, m: Module, first: bool)
    requires Extends(s, t) && ModuleDelivered(g, s, m, first)
    ensures ModuleDelivered(g, t, m, first)
  {
    SatisfiedLasts(g, s, t);
  }

  lemma ModuleIsDelivered(g: Graph, s: State, t: State, m: Module, first: bool)
    requires m.name in g.roots && Books(s) && (first ==> m.name !in s.names)
    requires Placed(g, s, t, m.name, g.base, [], m.runtimeDependencies)
    ensures ModuleDelivered(g, t, m, first)
  {
    assert [] + [m.name] == [m.name];
  }

  // ----- what Node's own lookup finds -----

  /** The nearest `node_modules` at or above `d` that has the name, as `require` looks it up. */
  function Lookup(disk: map<Path, Source>, d: Path, name: Name): Option<Source> {
    if d + [name] in disk then Some(disk[d + [name]])
    else if d == [] then None
    else Lookup(disk, d[..|d| - 1], name)
  }

  /** The name is in the `node_modules` of the first `k` steps of `d`, and in none nearer to `d`. */
  ghost predicate Nearest(disk: map<Path, Source>, d: Path, name: Name, k: nat) {
    k <= |d| && d[..k] + [name] in disk && forall m :: k < m <= |d| ==> d[..m] + [name] !in disk
  }

  lemma {:induction false} LookupFindsNearest(disk: map<Path, Source>, d: Path, name: Name) returns (k: nat)
    requires Lookup(disk, d, name).Some?
    ensures Nearest(disk, d, name, k) && Lookup(disk, d, name) == Some(disk[d[..k] + [name]])
  {
    if d + [name] in disk {
      k := |d|;
      assert d[..k] == d;
    } else {
      var parent := d[..|d| - 1];
      k := LookupFindsNearest(disk, parent, name);
      assert d[..k] == parent[..k];
      forall m | k < m <= |d| ensures d[..m] + [name] !in disk {
        assert d[..m] == if m == |d| then d else parent[..m];
      }
    }
  }

  lemma {:induction false} LookupSucceeds(disk: map<Path, Source>, d: Path, name: Name)
    requires d + [name] in disk || [name] in disk
    ensures Lookup(disk, d, name).Some?
  {
    if d + [name] !in disk {
      assert d == [] ==> d + [name] == [name];
      LookupSucceeds(disk, d[..|d| - 1], name);
    }
  }

  // ----- when it finds the version that was resolved -----

  /** The package placed at `d` needs the name: it declares it, or is a root with it in the runtime
      dependencies of the first module of that root. */
  ghost predicate Needs(g: Graph, modules: seq<Module>, d: Path, source: Source, n: Name) {
    n in g.dependencies(source) ||
    (|d| == 1 && exists i :: FirstOf(modules, i) && modules[i].name == d[0] && n in modules[i].runtimeDependencies)
  }

  /** A nested package is needed by the one it lies below. */
  ghost predicate NestedIsNeeded(g: Graph, modules: seq<Module>, s: State) {
    forall d :: d in s.disk && |d| > 1 ==>
      d[..|d| - 1] in s.disk && Needs(g, modules, d[..|d| - 1], s.disk[d[..|d| - 1]], d[|d| - 1])
  }

  lemma NeededCopy(
    g: Graph, modules: seq<Module>, s: State, name: Name, from: Source, conflict: Path, source: Source,
    destination: Path, t: State)
    requires NestedIsNeeded(g, modules, s) && destination !in s.disk && t.disk == s.disk[destination := source]
    requires destination == [name] || (destination == conflict + [name] && Has(s.disk, conflict, from))
    requires destination != [name] ==> Needs(g, modules, conflict, from, name)
    ensures NestedIsNeeded(g, modules, t)
  {
    hide Needs;
    forall d | d in t.disk && |d| > 1
      ensures d[..|d| - 1] in t.disk && Needs(g, modules, d[..|d| - 1], t.disk[d[..|d| - 1]], d[|d| - 1])
    {
      if d == destination {
        assert d[..|d| - 1] == conflict && d[|d| - 1] == name;
      }
    }
  }

  lemma {:induction false} PlaceOneNeeded(
    g: Graph, modules: seq<Module>, depth: nat, s: State, name: Name, from: Source, conflict: Path, runtime: seq<Name>)
    requires Inv(g, s) && s.status == Running && Called(g, s, name, from, conflict) && NestedIsNeeded(g, modules, s)
    requires if name in g.roots then [name] !in s.disk ==> Declared(modules, name, runtime)
             else runtime == [] && Needs(g, modules, conflict, from, name)
    ensures NestedIsNeeded(g, modules, PlaceOne(g, depth, s, name, from, conflict, runtime))
    decreases depth, 1, 0
  {
    hide Books, Tree, RootsFromBase, WrittenOnce, Written, NestedIsNeeded, Needs, Declared;
    if depth == 0 || g.resolve(name, from).None? {
      SameDiskNeeded(g, modules, s, PlaceOne(g, depth, s, name, from, conflict, runtime));
    } else {
      var source := g.resolve(name, from).value;
      var destination := Destination(s.names, name, source, conflict);
      if (source, destination) !in s.copied {
        var copied := Copy(s, name, source, destination);
        var names := NonRoot(g.dependencies(source) + runtime, g.roots);
        CopyKeepsInv(g, s, name, from, conflict, source);
        CopyIsUpdate(g, s, name, from, conflict, source);
        RootAtTop(g, s, name, from, conflict, source);
        NeededCopy(g, modules, s, name, from, conflict, source, destination, copied);
        forall n | n in names ensures Needs(g, modules, destination, source, n) {
          NamesAreNeeded(g, modules, destination, source, name, runtime, n);
        }
        PlaceAllNeeded(g, modules, depth - 1, copied, names, source, destination);
      }
    }
  }

  /** The runtime dependencies are those of the first module of that name. */
  ghost predicate Declared(modules: seq<Module>, name: Name, runtime: seq<Name>) {
    exists i :: FirstOf(modules, i) && modules[i].name == name && modules[i].runtimeDependencies == runtime
  }

  lemma RootAtTop(g: Graph, s: State, name: Name, from: Source, conflict: Path, source: Source)
    requires Inv(g, s) && Called(g, s, name, from, conflict) && g.resolve(name, from) == Some(source)
    ensures name in g.roots ==> Destination(s.names, name, source, conflict) == [name]
  {
  }

  lemma NamesAreNeeded(
    g: Graph, modules: seq<Module>, destination: Path, source: Source, name: Name, runtime: seq<Name>, n: Name)
    requires n in NonRoot(g.dependencies(source) + runtime, g.roots)
    requires runtime == [] || (destination == [name] && Declared(modules, name, runtime))
    ensures Needs(g, modules, destination, source, n)
  {
  }

  lemma SameDiskNeeded(g: Graph, modules: seq<Module>, s: State, t: State)
    requires NestedIsNeeded(g, modules, s) && t.disk == s.disk
    ensures NestedIsNeeded(g, modules, t)
  {
  }

  lemma {:induction false} PlaceAllNeeded(
    g: Graph, modules: seq<Module>, depth: nat, s: State, names: seq<Name>, source: Source, destination: Path)
    requires Inv(g, s) && s.status == Running && Has(s.disk, destination, source) && NestedIsNeeded(g, modules, s)
    requires forall n :: n in names ==> n !in g.roots && Needs(g, modules, destination, source, n)
    ensures NestedIsNeeded(g, modules, PlaceAll(g, depth, s, names, source, destination))
    decreases depth, 2, |names|
  {
    hide Books, Tree, RootsFromBase, WrittenOnce, NestedIsNeeded, Needs, PlaceOne;
    if names != [] {
      var one := PlaceOne(g, depth, s, names[0], source, destination, []);
      PlaceOneKeeps(g, depth, s, names[0], source, destination, []);
      PlaceOneNeeded(g, modules, depth, s, names[0], source, destination, []);
      if one.status == Running {
        PlaceAllNeeded(g, modules, depth, one, names[1..], source, destination);
      } else {
        Stopped(g, depth, one, names[1..], source, destination);
      }
    }
  }

  /** In every run, nested packages are needed by the ones they lie below. */
  lemma {:induction false} RunIsNeeded(g: Graph, depth: nat, modules: seq<Module>, i: nat)
    requires i <= |modules| && forall m :: m in modules ==> m.name in g.roots
    ensures NestedIsNeeded(g, modules, PlaceModules(g, depth, modules[..i]))
    decreases i
  {
    hide PlaceOne, Inv, NestedIsNeeded, NewComplete;
    if i == 0 {
      EmptyIsNeeded(g, modules);
    } else {
      var before, m := modules[..i - 1], modules[i - 1];
      assert modules[..i][..i - 1] == before;
      var s := PlaceModules(g, depth, before);
      RunIsNeeded(g, depth, modules, i - 1);
      PlacementIsComplete(g, depth, before);
      if s.status == Running {
        if [m.name] !in s.disk {
          NewIsFirst(g, s, modules, i - 1);
        }
        PlaceOneNeeded(g, modules, depth, s, m.name, g.base, [], m.runtimeDependencies);
      } else {
        StoppedModule(g, depth, s, m);
      }
    }
  }

  lemma EmptyIsNeeded(g: Graph, modules: seq<Module>)
    ensures NestedIsNeeded(g, modules, EMPTY)
  {
  }

  lemma NewIsFirst(g: Graph, s: State, modules: seq<Module>, i: nat)
    requires i < |modules| && Delivered(g, s, modules[..i]) && [modules[i].name] !in s.disk
    ensures Declared(modules, modules[i].name, modules[i].runtimeDependencies)
  {
    forall j | 0 <= j < i ensures modules[j].name != modules[i].name {
      assert ModuleDelivered(g, s, modules[..i][j], FirstOf(modules[..i], j));
      assert [] + [modules[j].name] == [modules[j].name];
    }
    assert FirstOf(modules, i);
  }

  /** What any package needs and is not a root, is in place for it. */
  ghost predicate Complete(g: Graph, modules: seq<Module>, s: State) {
    forall d, n :: d in s.disk && n !in g.roots && Needs(g, modules, d, s.disk[d], n) ==>
      Satisfied(g, s, d, s.disk[d], n)
  }

  lemma RunIsComplete(g: Graph, modules: seq<Module>, s: State)
    requires Books(s) && RootsFromBase(g, s) && NewComplete(g, EMPTY, s) && Delivered(g, s, modules)
    requires forall m :: m in modules ==> m.name in g.roots
    ensures Complete(g, modules, s)
  {
    forall d, n | d in s.disk && n !in g.roots && Needs(g, modules, d, s.disk[d], n)
      ensures Satisfied(g, s, d, s.disk[d], n)
    {
      if n !in g.dependencies(s.disk[d]) {
        var i :| FirstOf(modules, i) && modules[i].name == d[0] && n in modules[i].runtimeDependencies;
        assert ModuleDelivered(g, s, modules[i], FirstOf(modules, i));
        assert d == [modules[i].name];
      }
    }
  }

  // ----- when it throws -----

  /** A module, or a name that a placed package needs, does not resolve. */
  ghost predicate Unmet(g: Graph, modules: seq<Module>, s: State) {
    (exists m :: m in modules && g.resolve(m.name, g.base) == None) || exists d, n :: UnmetAt(g, modules, s, d, n)
  }

  ghost predicate UnmetAt(g: Graph, modules: seq<Module>, s: State, d: Path, n: Name) {
    d in s.disk && n !in g.roots && Needs(g, modules, d, s.disk[d], n) && g.resolve(n, s.disk[d]) == None
  }

  lemma {:induction false} UnresolvedOne(
    g: Graph, modules: seq<Module>, depth: nat, s: State, name: Name, from: Source, conflict: Path, runtime: seq<Name>)
    requires Inv(g, s) && s.status == Running && Called(g, s, name, from, conflict)
    requires if name in g.roots then
        (exists m :: m in modules && m.name == name) && ([name] !in s.disk ==> Declared(modules, name, runtime))
      else runtime == [] && Needs(g, modules, conflict, from, name)
    ensures var t := PlaceOne(g, depth, s, name, from, conflict, runtime);
      t.status == Unresolved ==> Unmet(g, modules, t)
    decreases depth, 1, 0
  {
    hide Books, Tree, RootsFromBase, WrittenOnce, Written, Needs, Declared;
    if depth > 0 {
      if g.resolve(name, from) == None {
        var t := PlaceOne(g, depth, s, name, from, conflict, runtime);
        assert name !in g.roots ==> UnmetAt(g, modules, t, conflict, name);
      } else {
        var source := g.resolve(name, from).value;
        var destination := Destination(s.names, name, source, conflict);
        if (source, destination) !in s.copied {
          var copied := Copy(s, name, source, destination);
          var names := NonRoot(g.dependencies(source) + runtime, g.roots);
          CopyKeepsInv(g, s, name, from, conflict, source);
          CopyIsUpdate(g, s, name, from, conflict, source);
          RootAtTop(g, s, name, from, conflict, source);
          forall n | n in names ensures Needs(g, modules, destination, source, n) {
            NamesAreNeeded(g, modules, destination, source, name, runtime, n);
          }
          UnresolvedAll(g, modules, depth - 1, copied, names, source, destination);
        }
      }
    }
  }

  lemma {:induction false} UnresolvedAll(
    g: Graph, modules: seq<Module>, depth: nat, s: State, names: seq<Name>, source: Source, destination: Path)
    requires Inv(g, s) && s.status == Running && Has(s.disk, destination, source)
    requires forall n :: n in names ==> n !in g.roots && Needs(g, modules, destination, source, n)
    ensures var t := PlaceAll(g, depth, s, names, source, destination);
      t.status == Unresolved ==> Unmet(g, modules, t)
    decreases depth, 2, |names|
  {
    hide Books, Tree, RootsFromBase, WrittenOnce, Unmet, Needs, PlaceOne;
    if names != [] {
      var one := PlaceOne(g, depth, s, names[0], source, destination, []);
      PlaceOneKeeps(g, depth, s, names[0], source, destination, []);
      UnresolvedOne(g, modules, depth, s, names[0], source, destination, []);
      if one.status == Running {
        UnresolvedAll(g, modules, depth, one, names[1..], source, destination);
      } else {
        Stopped(g, depth, one, names[1..], source, destination);
      }
    }
  }

  lemma {:induction false} UnresolvedRun(g: Graph, depth: nat, modules: seq<Module>, i: nat)
    requires i <= |modules| && forall m :: m in modules ==> m.name in g.roots
    ensures var t := PlaceModules(g, depth, modules[..i]);
      t.status == Unresolved ==> Unmet(g, modules, t)
    decreases i
  {
    hide PlaceOne, Inv, Unmet, NewComplete, Delivered, Declared;
    if i > 0 {
      var before, m := modules[..i - 1], modules[i - 1];
      assert modules[..i][..i - 1] == before && m in modules;
      var s := PlaceModules(g, depth, before);
      UnresolvedRun(g, depth, modules, i - 1);
      PlacementIsComplete(g, depth, before);
      if s.status == Running {
        if [m.name] !in s.disk {
          NewIsFirst(g, s, modules, i - 1);
        }
        UnresolvedOne(g, modules, depth, s, m.name, g.base, [], m.runtimeDependencies);
      } else {
        StoppedModule(g, depth, s, m);
      }
    }
  }

  /** A run that ends throws if and only if a module does not resolve, or a name that a package it has placed
      needs. */
  lemma FailsExactly(g: Graph, depth: nat, modules: seq<Module>)
    requires forall m :: m in modules ==> m.name in g.roots
    ensures var t := PlaceModules(g, depth, modules);
      t.status != Exhausted ==> (t.status == Unresolved <==> Unmet(g, modules, t))
  {
    hide PlaceModules, NewComplete, Books, Tree, WrittenOnce, RootsFromBase;
    var t := PlaceModules(g, depth, modules);
    assert modules[..|modules|] == modules;
    UnresolvedRun(g, depth, modules, |modules|);
    PlacementIsComplete(g, depth, modules);
    if t.status == Running {
      RunIsComplete(g, modules, t);
      AllMet(g, modules, t);
    }
  }

  lemma AllMet(g: Graph, modules: seq<Module>, s: State)
    requires Complete(g, modules, s) && Delivered(g, s, modules)
    ensures !Unmet(g, modules, s)
  {
    hide Needs;
    forall m | m in modules ensures g.resolve(m.name, g.base).Some? {
      var i :| 0 <= i < |modules| && modules[i] == m;
      assert ModuleDelivered(g, s, modules[i], FirstOf(modules, i));
    }
  }

  /** A package that encloses `d` needs the name in a version other than `source`. */
  ghost predicate EnclosingNeedsAnother(
    g: Graph, modules: seq<Module>, disk: map<Path, Source>, d: Path, name: Name, source: Source)
  {
    exists k :: 0 < k < |d| && d[..k] in disk && Needs(g, modules, d[..k], disk[d[..k]], name) &&
      g.resolve(name, disk[d[..k]]) != Some(source)
  }

  /** In a complete tree, the name is in the `node_modules` of a package exactly if the package needs it
      in a version other than that at the top. */
  lemma NestedExactly(g: Graph, modules: seq<Module>, s: State, p: Path, name: Name)
    requires Books(s) && Tree(g, s) && NestedIsNeeded(g, modules, s) && Complete(g, modules, s)
    requires p in s.disk && name !in g.roots && name in s.names
    ensures p + [name] in s.disk <==>
      Needs(g, modules, p, s.disk[p], name) && g.resolve(name, s.disk[p]) != Some(s.names[name])
    ensures p + [name] in s.disk ==> g.resolve(name, s.disk[p]) == Some(s.disk[p + [name]])
  {
    hide Needs;
    var below := p + [name];
    assert below[..|below| - 1] == p && below[|below| - 1] == name;
    if below in s.disk {
      assert Nested(g, s, below);
    } else if Needs(g, modules, p, s.disk[p], name) {
      assert Satisfied(g, s, p, s.disk[p], name);
    }
  }

  /** What a lookup finds that starts at a package without the name in its own `node_modules`. */
  lemma LookupAbove(g: Graph, modules: seq<Module>, s: State, d: Path, name: Name)
    requires Books(s) && Tree(g, s) && NestedIsNeeded(g, modules, s) && Complete(g, modules, s)
    requires d in s.disk && name !in g.roots && name in s.names && d + [name] !in s.disk
    ensures Lookup(s.disk, d, name) == Some(s.names[name]) <==>
      !EnclosingNeedsAnother(g, modules, s.disk, d, name, s.names[name])
  {
    hide Books, Tree, NestedIsNeeded, Complete, Needs;
    var top := s.names[name];
    assert s.disk[[name]] == top && [name] in s.disk by { TopHolds(s, name); }
    assert [] + [name] == [name] && d[..|d|] == d;
    LookupSucceeds(s.disk, d, name);
    var k := LookupFindsNearest(s.disk, d, name);
    if k == 0 {
      forall j | 0 < j < |d| ensures !(d[..j] in s.disk && Needs(g, modules, d[..j], s.disk[d[..j]], name) &&
                                       g.resolve(name, s.disk[d[..j]]) != Some(top)) {
        if d[..j] in s.disk {
          NestedExactly(g, modules, s, d[..j], name);
        }
      }
    } else if k < |d| {
      PrefixesAreThere(g, s, d, d[..k]);
      NestedExactly(g, modules, s, d[..k], name);
    }
  }

  lemma TopHolds(s: State, name: Name)
    requires Books(s) && name in s.names
    ensures [name] in s.disk && s.disk[[name]] == s.names[name]
  {
  }

  /** What a package needs and is not a root is what Node's lookup finds for it, if and only if it lies in
      the package's own `node_modules`, or no enclosing package needs that name in another version. */
  lemma LookupExactly(g: Graph, depth: nat, modules: seq<Module>, d: Path, name: Name)
    requires forall m :: m in modules ==> m.name in g.roots
    requires var t := PlaceModules(g, depth, modules);
      t.status == Running && d in t.disk && name !in g.roots && Needs(g, modules, d, t.disk[d], name)
    ensures var t := PlaceModules(g, depth, modules);
      && g.resolve(name, t.disk[d]).Some?
      && (Lookup(t.disk, d, name) == g.resolve(name, t.disk[d]) <==>
           d + [name] in t.disk ||
           !EnclosingNeedsAnother(g, modules, t.disk, d, name, g.resolve(name, t.disk[d]).value))
  {
    hide PlaceModules, Needs, Complete, NewComplete, Delivered, NestedIsNeeded;
    var t := PlaceModules(g, depth, modules);
    assert modules[..|modules|] == modules;
    PlacementIsComplete(g, depth, modules);
    RunIsNeeded(g, depth, modules, |modules|);
    RunIsComplete(g, modules, t);
    assert Satisfied(g, t, d, t.disk[d], name) by { CompleteAt(g, modules, t, d, name); }
    NeededIsAtTop(g, t, d, name);
    if d + [name] in t.disk {
      NestedExactly(g, modules, t, d, name);
    } else {
      LookupAbove(g, modules, t, d, name);
    }
  }

  lemma CompleteAt(g: Graph, modules: seq<Module>, s: State, d: Path, n: Name)
    requires Complete(g, modules, s) && d in s.disk && n !in g.roots && Needs(g, modules, d, s.disk[d], n)
    ensures Satisfied(g, s, d, s.disk[d], n)
  {
  }

  /** Every name that was placed anywhere has a version at the top. */
  lemma NeededIsAtTop(g: Graph, s: State, d: Path, name: Name)
    requires Books(s) && Tree(g, s) && d in s.disk && Satisfied(g, s, d, s.disk[d], name)
    ensures name in s.names
    ensures d + [name] !in s.disk ==> g.resolve(name, s.disk[d]) == Some(s.names[name])
  {
    var below := d + [name];
    if below in s.disk {
      assert below[|below| - 1] == name && Nested(g, s, below);
    }
  }

  /** The package declares the name, or is the package of a module with it in the runtime dependencies. */
  ghost predicate Wants(g: Graph, modules: seq<Module>, x: Source, n: Name) {
    n in g.dependencies(x) ||
    exists m :: m in modules && g.resolve(m.name, g.base) == Some(x) && n in m.runtimeDependencies
  }

  /** From package `x` the dependencies named in the path lead to `y`. */
  ghost predicate Leads(g: Graph, modules: seq<Module>, x: Source, path: Path, y: Source)
    decreases |path|
  {
    if path == [] then x == y
    else
      && Wants(g, modules, x, path[0]) && g.resolve(path[0], x).Some?
      && Leads(g, modules, g.resolve(path[0], x).value, path[1..], y)
  }

  /** No package wants a name in another version than a package that its dependencies lead to. */
  ghost predicate Agreeing(g: Graph, modules: seq<Module>) {
    forall x, path, y, n ::
      Leads(g, modules, x, path, y) && n !in g.roots && Wants(g, modules, x, n) && Wants(g, modules, y, n) ==>
        g.resolve(n, x) == g.resolve(n, y)
  }

  lemma NeedsIsWants(g: Graph, modules: seq<Module>, s: State, d: Path, n: Name)
    requires Books(s) && RootsFromBase(g, s) && forall m :: m in modules ==> m.name in g.roots
    requires d in s.disk && Needs(g, modules, d, s.disk[d], n)
    ensures Wants(g, modules, s.disk[d], n)
  {
    if n !in g.dependencies(s.disk[d]) {
      var i :| FirstOf(modules, i) && modules[i].name == d[0] && n in modules[i].runtimeDependencies;
      assert d == [modules[i].name] && modules[i] in modules;
    }
  }

  /** Dependencies lead from an enclosing package to the one it encloses. */
  lemma {:induction false} EnclosingLeads(g: Graph, modules: seq<Module>, s: State, d: Path, k: nat)
    requires Inv(g, s) && NestedIsNeeded(g, modules, s) && forall m :: m in modules ==> m.name in g.roots
    requires d in s.disk && 0 < k <= |d|
    ensures d[..k] in s.disk && Leads(g, modules, s.disk[d[..k]], d[k..], s.disk[d])
    decreases |d| - k
  {
    hide WrittenOnce, Wants, Needs;
    PrefixesAreThere(g, s, d, d[..k]);
    if k < |d| {
      EnclosingLeads(g, modules, s, d, k + 1);
      assert d[..k + 1][..k] == d[..k] && d[k..][1..] == d[k + 1..];
      assert Nested(g, s, d[..k + 1]);
      NeedsIsWants(g, modules, s, d[..k], d[k]);
    } else {
      assert d[..k] == d;
    }
  }

  /** So on a graph where they agree with what they lead to, Node's lookup finds, for every package placed
      by any run and every name it needs, the version that was resolved. */
  lemma AgreeingRunsAreNotShadowed(g: Graph, depth: nat, modules: seq<Module>, d: Path, name: Name)
    requires Agreeing(g, modules) && forall m :: m in modules ==> m.name in g.roots
    requires var t := PlaceModules(g, depth, modules);
      t.status == Running && d in t.disk && name !in g.roots && Needs(g, modules, d, t.disk[d], name)
    ensures var t := PlaceModules(g, depth, modules);
      g.resolve(name, t.disk[d]).Some? && Lookup(t.disk, d, name) == g.resolve(name, t.disk[d])
  {
    hide PlaceModules, Needs, Wants, Leads, NewComplete, Delivered, NestedIsNeeded, Books, Tree, WrittenOnce;
    var t := PlaceModules(g, depth, modules);
    assert modules[..|modules|] == modules;
    PlacementIsComplete(g, depth, modules);
    RunIsNeeded(g, depth, modules, |modules|);
    LookupExactly(g, depth, modules, d, name);
    NeedsIsWants(g, modules, t, d, name);
    forall k | 0 < k < |d| && d[..k] in t.disk && Needs(g, modules, d[..k], t.disk[d[..k]], name)
      ensures g.resolve(name, t.disk[d[..k]]) == g.resolve(name, t.disk[d])
    {
      EnclosingLeads(g, modules, t, d, k);
      NeedsIsWants(g, modules, t, d[..k], name);
    }
  }

  // ----- an example of shadowing -----

  /** `w` and `x` need different versions of `y` and `z`, and `x`'s version of `y` needs `w`'s of `z`. */
  function ShadowResolve(name: Name, from: Source): Option<Source> {
    if name == "z" then
      if from == "w" || from == "y2" then Some("z1") else if from == "x" then Some("z2") else None
    else if name == "y" then
      if from == "w" then Some("y1") else if from == "x" then Some("y2") else None
    else if from == "base" && (name == "w" || name == "x") then Some(name)
    else None
  }

  function ShadowDependencies(source: Source): seq<Name> {
    if source == "w" || source == "x" then ["y", "z"] else if source == "y2" then ["z"] else []
  }

  const SHADOW := Graph(ShadowResolve, ShadowDependencies, "base", {"w", "x"})

  lemma {:induction false} NoRoots(names: seq<Name>, roots: set<Name>)
    requires forall n :: n in names ==> n !in roots
    ensures NonRoot(names, roots) == names
  {
    if names != [] {
      NoRoots(names[1..], roots);
    }
  }

  /** The state after a package was copied to a free destination. */
  function After(s: State, name: Name, source: Source, destination: Path): State {
    State(s.status, s.copied + {(source, destination)},
          if destination == [name] then s.names[name := source] else s.names,
          s.disk[destination := source], s.writes + [destination])
  }

  /** A call for a package whose destination is free and whose dependencies are no roots. */
  lemma PlaceStep(
    g: Graph, depth: nat, s: State, name: Name, from: Source, conflict: Path, source: Source,
    destination: Path)
    requires s.status == Running && depth > 0 && g.resolve(name, from) == Some(source)
    requires if name in s.names && s.names[name] != source then destination == conflict + [name] != [name]
             else destination == [name]
    requires (source, destination) !in s.copied && forall d :: d in s.disk ==> !(destination <= d)
    requires forall n :: n in g.dependencies(source) ==> n !in g.roots
    ensures PlaceOne(g, depth, s, name, from, conflict, []) ==
      PlaceAll(g, depth - 1, After(s, name, source, destination), g.dependencies(source), source, destination)
  {
    NoRoots(g.dependencies(source), g.roots);
    assert g.dependencies(source) + [] == g.dependencies(source);
    assert Written(s.disk, destination, source) == s.disk[destination := source] by {
      assert (map d | d in s.disk && !(destination <= d) :: s.disk[d]) == s.disk;
    }
    assert Copy(s, name, source, destination) == After(s, name, source, destination);
  }

  function ShadowLeft(): State {
    After(After(After(EMPTY, "w", "w", ["w"]), "y", "y1", ["y"]), "z", "z1", ["z"])
  }

  function ShadowRight(): State {
    After(After(After(ShadowLeft(), "x", "x", ["x"]), "y", "y2", ["x", "y"]), "z", "z2", ["x", "z"])
  }

  lemma Apart(a: Name, b: Name)
    requires a != b
    ensures !([a] <= [b])
  {
    assert [a][0] != [b][0];
  }

  /** The part that the two examples share: `w` needs `y` and `z`, which need nothing. */
  ghost predicate LeftGraph(g: Graph) {
    && g.base == "base" && g.roots == {"w", "x"}
    && g.resolve("w", "base") == Some("w") && g.dependencies("w") == ["y", "z"]
    && g.resolve("y", "w") == Some("y1") && g.dependencies("y1") == []
    && g.resolve("z", "w") == Some("z1") && g.dependencies("z1") == []
  }

  lemma PlacesLeft(g: Graph, depth: nat)
    requires LeftGraph(g) && depth >= 3
    ensures PlaceOne(g, depth, EMPTY, "w", "base", [], []) == ShadowLeft()
  {
    hide PlaceOne, PlaceAll;
    var s1 := After(EMPTY, "w", "w", ["w"]);
    var s2 := After(s1, "y", "y1", ["y"]);
    Apart("y", "w");
    Apart("z", "w");
    Apart("z", "y");
    assert forall d :: d in s1.disk ==> d == ["w"];
    assert forall d :: d in s2.disk ==> d == ["w"] || d == ["y"];
    PlaceStep(g, depth, EMPTY, "w", "base", [], "w", ["w"]);
    TwoNames(g, depth - 1, s1, "w", ["w"]);
    PlaceStep(g, depth - 1, s1, "y", "w", ["w"], "y1", ["y"]);
    AllDone(g, depth - 2, s2, "y1", ["y"]);
    PlaceStep(g, depth - 1, s2, "z", "w", ["w"], "z1", ["z"]);
    AllDone(g, depth - 2, ShadowLeft(), "z1", ["z"]);
  }

  /** The loop over two dependencies. */
  lemma TwoNames(g: Graph, depth: nat, s: State, source: Source, destination: Path)
    ensures PlaceAll(g, depth, s, ["y", "z"], source, destination) ==
      PlaceOne(g, depth, PlaceOne(g, depth, s, "y", source, destination, []), "z", source, destination, [])
  {
    hide PlaceAll, PlaceOne;
    var one := PlaceOne(g, depth, s, "y", source, destination, []);
    assert ["y", "z"][1..] == ["z"] && ["z"][1..] == [];
    AllStep(g, depth, s, ["y", "z"], source, destination);
    AllStep(g, depth, one, ["z"], source, destination);
    AllDone(g, depth, PlaceOne(g, depth, one, "z", source, destination, []), source, destination);
  }

  lemma OneName(g: Graph, depth: nat, s: State, name: Name, source: Source, destination: Path)
    ensures PlaceAll(g, depth, s, [name], source, destination) ==
      PlaceOne(g, depth, s, name, source, destination, [])
  {
    hide PlaceAll, PlaceOne;
    assert [name][1..] == [];
    AllStep(g, depth, s, [name], source, destination);
    AllDone(g, depth, PlaceOne(g, depth, s, name, source, destination, []), source, destination);
  }

  lemma ShadowPlacesRight(depth: nat)
    requires depth >= 3
    ensures PlaceOne(SHADOW, depth, ShadowLeft(), "x", "base", [], []) == ShadowRight()
  {
    hide PlaceOne, PlaceAll;
    var s1 := After(ShadowLeft(), "x", "x", ["x"]);
    assert forall d :: d in ShadowLeft().disk ==> d == ["w"] || d == ["y"] || d == ["z"];
    Apart("x", "w");
    Apart("x", "y");
    Apart("x", "z");
    PlaceStep(SHADOW, depth, ShadowLeft(), "x", "base", [], "x", ["x"]);
    TwoNames(SHADOW, depth - 1, s1, "x", ["x"]);
    ShadowPlacesNested(depth, s1);
  }

  lemma ShadowPlacesNested(depth: nat, s1: State)
    requires depth >= 3 && s1 == After(ShadowLeft(), "x", "x", ["x"])
    ensures PlaceOne(SHADOW, depth - 1,
                     PlaceOne(SHADOW, depth - 1, s1, "y", "x", ["x"], []), "z", "x", ["x"], []) == ShadowRight()
  {
    hide PlaceOne, PlaceAll;
    ShadowNestsY(depth, s1);
    ShadowNestsZ(depth, After(s1, "y", "y2", ["x", "y"]));
  }

  lemma ShadowNestsY(depth: nat, s1: State)
    requires depth >= 3 && s1 == After(ShadowLeft(), "x", "x", ["x"])
    ensures PlaceOne(SHADOW, depth - 1, s1, "y", "x", ["x"], []) == After(s1, "y", "y2", ["x", "y"])
  {
    hide PlaceOne, PlaceAll;
    var s2 := After(s1, "y", "y2", ["x", "y"]);
    assert ["x"] + ["y"] == ["x", "y"];
    PlaceStep(SHADOW, depth - 1, s1, "y", "x", ["x"], "y2", ["x", "y"]);
    OneName(SHADOW, depth - 2, s2, "z", "y2", ["x", "y"]);
    AlreadyThere(SHADOW, depth - 2, s2, "z", "y2", ["x", "y"], "z1");
  }

  lemma ShadowNestsZ(depth: nat, s2: State)
    requires depth >= 3 && s2 == After(After(ShadowLeft(), "x", "x", ["x"]), "y", "y2", ["x", "y"])
    ensures PlaceOne(SHADOW, depth - 1, s2, "z", "x", ["x"], []) == ShadowRight()
  {
    hide PlaceOne, PlaceAll;
    assert SHADOW.dependencies("z2") == [] && SHADOW.resolve("z", "x") == Some("z2");
    assert ["x"] + ["z"] == ["x", "z"];
    NestedIsFree(s2);
    PlaceStep(SHADOW, depth - 1, s2, "z", "x", ["x"], "z2", ["x", "z"]);
    AllDone(SHADOW, depth - 2, ShadowRight(), "z2", ["x", "z"]);
  }

  lemma LeftIsAtTop()
    ensures ShadowLeft().names == map["w" := "w", "y" := "y1", "z" := "z1"] && ShadowLeft().status == Running
    ensures forall d :: d in ShadowLeft().disk ==> |d| == 1
    ensures forall x, d :: (x, d) in ShadowLeft().copied ==> |d| == 1
  {
  }

  lemma NestedIsFree(s: State)
    requires s == After(After(ShadowLeft(), "x", "x", ["x"]), "y", "y2", ["x", "y"])
    ensures s.names == map["w" := "w", "x" := "x", "y" := "y1", "z" := "z1"] && s.status == Running
    ensures ("z2", ["x", "z"]) !in s.copied && forall d :: d in s.disk ==> !(["x", "z"] <= d)
  {
    hide ShadowLeft;
    LeftIsAtTop();
    assert ["x", "y"][1] != ["x", "z"][1];
  }

  lemma AlreadyThere(
    g: Graph, depth: nat, s: State, name: Name, from: Source, conflict: Path, source: Source)
    requires s.status == Running && depth > 0 && g.resolve(name, from) == Some(source)
    requires (source, Destination(s.names, name, source, conflict)) in s.copied
    ensures PlaceOne(g, depth, s, name, from, conflict, []) == s
  {
  }

  lemma ShadowRun(depth: nat)
    requires depth >= 3
    ensures PlaceModules(SHADOW, depth, [Module("w", []), Module("x", [])]) == ShadowRight()
  {
    hide PlaceOne;
    var modules := [Module("w", []), Module("x", [])];
    assert modules[..1] == [Module("w", [])] && modules[..1][..0] == [];
    PlacesLeft(SHADOW, depth);
    ShadowPlacesRight(depth);
    assert PlaceModules(SHADOW, depth, modules[..1]) == ShadowLeft();
  }

  /** The run succeeds, and every dependency is in place; but Node's lookup from the nested `y` finds the
      `z` that `x` brought along, not the one `y` resolves to. */
  lemma LookupCanBeShadowed(depth: nat)
    requires depth >= 3
    ensures var t := PlaceModules(SHADOW, depth, [Module("w", []), Module("x", [])]);
      && t.status == Running && Has(t.disk, ["x", "y"], "y2")
      && Satisfied(SHADOW, t, ["x", "y"], "y2", "z") && SHADOW.resolve("z", "y2") == Some("z1")
      && Lookup(t.disk, ["x", "y"], "z") == Some("z2")
      && EnclosingNeedsAnother(SHADOW, [Module("w", []), Module("x", [])], t.disk, ["x", "y"], "z", "z1")
  {
    ShadowRun(depth);
    hide PlaceModules;
    var nested: Path := ["x", "y"];
    assert nested + ["z"] == ["x", "y", "z"] && nested[..1] == ["x"] && ["x"] + ["z"] == ["x", "z"];
    assert nested + ["z"] !in ShadowRight().disk;
    assert "z" in ShadowDependencies("x") && ShadowResolve("z", "x") == Some("z2");
    assert Needs(SHADOW, [Module("w", []), Module("x", [])], nested[..1], ShadowRight().disk[nested[..1]], "z");
  }

  // ----- cycles -----

  /** Two packages that need each other, in versions other than those at the top, are nested into one
      another without end: no depth is enough once the recursion has reached one of them. */
  lemma {:induction false} ConflictCycleNeverEnds(
    g: Graph, depth: nat, s: State, x: Name, v: Source, y: Name, u: Source, at: Path)
    requires g.resolve(x, u) == Some(v) && g.dependencies(v) == [y] && y !in g.roots
    requires g.resolve(y, v) == Some(u) && g.dependencies(u) == [x] && x !in g.roots
    requires x in s.names && s.names[x] != v && y in s.names && s.names[y] != u
    requires s.status == Running && forall z, d :: (z, d) in s.copied ==> |d| <= |at|
    ensures PlaceOne(g, depth, s, x, u, at, []).status == Exhausted
    decreases depth
  {
    if depth > 0 {
      var destination := at + [x];
      var t := Copy(s, x, v, destination);
      assert (v, destination) !in s.copied;
      assert [y] + [] == [y];
      NoRoots([y], g.roots);
      OneName(g, depth - 1, t, y, v, destination);
      ConflictCycleNeverEnds(g, depth - 1, t, y, u, x, v, destination);
    }
  }

  /** `w` brings first versions of `y` and `z`; the second ones, which need each other, come with `x`. */
  function CycleResolve(name: Name, from: Source): Option<Source> {
    if name == "y" then if from == "w" then Some("y1") else Some("y2")
    else if name == "z" then if from == "w" then Some("z1") else Some("z2")
    else if name == "w" || name == "x" then Some(name)
    else None
  }

  function CycleDependencies(source: Source): seq<Name> {
    if source == "w" then ["y", "z"]
    else if source == "x" || source == "z2" then ["y"]
    else if source == "y2" then ["z"]
    else []
  }

  const CYCLE := Graph(CycleResolve, CycleDependencies, "base", {"w", "x"})

  lemma CyclePlacesRight(depth: nat)
    requires depth >= 3
    ensures PlaceOne(CYCLE, depth, ShadowLeft(), "x", "base", [], []).status == Exhausted
  {
    hide PlaceOne, PlaceAll;
    var s1 := After(ShadowLeft(), "x", "x", ["x"]);
    var s2 := After(s1, "y", "y2", ["x", "y"]);
    assert forall d :: d in ShadowLeft().disk ==> d == ["w"] || d == ["y"] || d == ["z"];
    Apart("x", "w");
    Apart("x", "y");
    Apart("x", "z");
    PlaceStep(CYCLE, depth, ShadowLeft(), "x", "base", [], "x", ["x"]);
    OneName(CYCLE, depth - 1, s1, "y", "x", ["x"]);
    assert ["x"] + ["y"] == ["x", "y"];
    PlaceStep(CYCLE, depth - 1, s1, "y", "x", ["x"], "y2", ["x", "y"]);
    OneName(CYCLE, depth - 2, s2, "z", "y2", ["x", "y"]);
    ConflictCycleNeverEnds(CYCLE, depth - 2, s2, "z", "z2", "y", "y2", ["x", "y"]);
  }

  /** A run that never ends, from an empty output: no depth is enough. */
  lemma ConflictCycleRun(depth: nat)
    ensures PlaceModules(CYCLE, depth, [Module("w", []), Module("x", [])]).status == Exhausted
  {
    hide PlaceOne;
    var modules, more := [Module("w", []), Module("x", [])], depth + 3;
    assert modules[..1] == [Module("w", [])] && modules[..1][..0] == [];
    PlacesLeft(CYCLE, more);
    CyclePlacesRight(more);
    assert PlaceModules(CYCLE, more, modules[..1]) == ShadowLeft();
    if PlaceModules(CYCLE, depth, modules).status != Exhausted {
      DepthDoesNotMatter(CYCLE, depth, more, modules);
    }
  }
}
