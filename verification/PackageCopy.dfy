/** Copying one package directory (packages/opencorvus/script/build-runtime-node-modules.ts:17-40, 60-107):
    the walk that collects its files batch by batch, and the workers that copy them.

    An entry is its path below the package, which its source and its destination share. */
module PackageCopy {
  import opened Basics
  import opened PayloadStamp

  /** "node_modules" */
  const NODE_MODULES: Name := [110, 111, 100, 101, 95, 109, 111, 100, 117, 108, 101, 115]

  // ----- what is to be copied -----

  predicate IsDirectory(tree: Node, path: Path) {
    At(tree, path).Some? && At(tree, path).value.Directory?
  }

  /** Nothing below a nested `node_modules` belongs to the package. */
  predicate Belongs(path: Path) {
    NODE_MODULES !in path
  }

  lemma {:induction false} AtChild(tree: Node, path: Path, name: Name)
    ensures At(tree, path + [name]) ==
      if IsDirectory(tree, path) && name in At(tree, path).value.entries then Some(At(tree, path).value.entries[name])
      else None
  {
    if path == [] {
      assert [] + [name] == [name] && [name][1..] == [];
    } else {
      assert (path + [name])[0] == path[0] && (path + [name])[1..] == path[1..] + [name];
      if tree.Directory? && path[0] in tree.entries {
        AtChild(tree.entries[path[0]], path[1..], name);
      }
    }
  }

  // ----- one directory -----

  datatype Child = Child(path: Path, directory: bool)

  ghost predicate IsChild(tree: Node, directory: Path, c: Child) {
    && c.path != [] && c.path[..|c.path| - 1] == directory && c.path[|c.path| - 1] != NODE_MODULES
    && if c.directory then IsDirectory(tree, c.path) else IsFile(tree, c.path)
  }

  ghost predicate Distinct<T>(s: seq<T>) {
    forall i, j :: 0 <= i < j < |s| ==> s[i] != s[j]
  }

  ghost predicate PathsDiffer(children: seq<Child>) {
    forall i, j :: 0 <= i < j < |children| ==> children[i].path != children[j].path
  }

  /** The children found among the first `n` names. */
  ghost predicate Discovered(tree: Node, directory: Path, names: seq<Name>, n: nat, children: seq<Child>) {
    && n <= |names| && PathsDiffer(children)
    && forall c :: c in children <==> IsChild(tree, directory, c) && LastName(c.path) in names[..n]
  }

  function LastName(path: Path): Name {
    if path == [] then [] else path[|path| - 1]
  }

  /** The one child of that name, if there is one that belongs to the package. */
  lemma ChildNamed(tree: Node, directory: Path, name: Name, c: Child)
    requires IsDirectory(tree, directory) && name in At(tree, directory).value.entries
    ensures var node := At(tree, directory).value.entries[name];
      IsChild(tree, directory, c) && LastName(c.path) == name <==>
        name != NODE_MODULES && !node.Other? && c == Child(directory + [name], node.Directory?)
  {
    hide At;
    AtChild(tree, directory, name);
    assert IsChild(tree, directory, c) ==> c.path == c.path[..|c.path| - 1] + [LastName(c.path)];
    assert (directory + [name])[..|directory|] == directory;
  }

  lemma DiscoverNext(tree: Node, directory: Path, names: seq<Name>, n: nat, children: seq<Child>)
    requires Discovered(tree, directory, names, n, children) && n < |names| && Distinct(names)
    requires IsDirectory(tree, directory) && names[n] in At(tree, directory).value.entries
    ensures var node, path := At(tree, directory).value.entries[names[n]], directory + [names[n]];
      if names[n] == NODE_MODULES || node.Other? then Discovered(tree, directory, names, n + 1, children)
      else Discovered(tree, directory, names, n + 1, children + [Child(path, node.Directory?)])
  {
    hide At, IsChild;
    var name := names[n];
    var node, path := At(tree, directory).value.entries[name], directory + [name];
    assert names[..n + 1] == names[..n] + [name] && name !in names[..n];
    assert LastName(path) == name;
    forall c
      ensures IsChild(tree, directory, c) && LastName(c.path) == name <==>
        name != NODE_MODULES && !node.Other? && c == Child(path, node.Directory?)
    {
      ChildNamed(tree, directory, name, c);
    }
  }

  /** Reads one directory, whatever order its listing comes in. */
  method ReadDirectory(tree: Node, directory: Path, listing: seq<Name>) returns (children: seq<Child>)
    requires IsDirectory(tree, directory) && IsListing(listing, At(tree, directory).value.entries)
    ensures PathsDiffer(children)
    ensures forall c :: c in children <==> IsChild(tree, directory, c)
  {
    hide IsChild;
    children := [];
    var entries := At(tree, directory).value.entries;
    var i := 0;
    while i < |listing|
      invariant 0 <= i <= |listing|
      invariant Discovered(tree, directory, listing, i, children)
    {
      assert listing[i] in listing;
      DiscoverNext(tree, directory, listing, i, children);
      if listing[i] != NODE_MODULES && !entries[listing[i]].Other? {
        children := children + [Child(directory + [listing[i]], entries[listing[i]].Directory?)];
      }
      i := i + 1;
    }
    ChildrenAreListed(tree, directory, listing);
    assert listing[..i] == listing;
  }

  lemma ChildrenAreListed(tree: Node, directory: Path, listing: seq<Name>)
    requires IsDirectory(tree, directory) && IsListing(listing, At(tree, directory).value.entries)
    ensures forall c :: IsChild(tree, directory, c) ==> LastName(c.path) in listing
  {
    forall c | IsChild(tree, directory, c)
      ensures LastName(c.path) in listing
    {
      var name := c.path[|c.path| - 1];
      assert c.path == directory + [name];
      AtChild(tree, directory, name);
    }
  }

  // ----- the walk -----

  function DirsOf(children: seq<Child>): seq<Path> {
    if children == [] then []
    else if children[0].directory then [children[0].path] + DirsOf(children[1..])
    else DirsOf(children[1..])
  }

  function FilesOf(children: seq<Child>): seq<Path> {
    if children == [] then []
    else if children[0].directory then FilesOf(children[1..])
    else [children[0].path] + FilesOf(children[1..])
  }

  lemma {:induction false} PartsOf(children: seq<Child>)
    ensures forall p :: p in DirsOf(children) <==> Child(p, true) in children
    ensures forall p :: p in FilesOf(children) <==> Child(p, false) in children
  {
    if children != [] {
      PartsOf(children[1..]);
      assert forall c :: c in children <==> c == children[0] || c in children[1..];
    }
  }

  lemma {:induction false} PartsDiffer(children: seq<Child>)
    requires PathsDiffer(children)
    ensures Distinct(DirsOf(children)) && Distinct(FilesOf(children))
  {
    if children != [] {
      PartsDiffer(children[1..]);
      PartsOf(children[1..]);
      assert Child(children[0].path, true) !in children[1..] && Child(children[0].path, false) !in children[1..];
    }
  }

  function Parent(path: Path): Path
    requires path != []
  {
    path[..|path| - 1]
  }

  /** What has been reached is reached once, and from a directory that was read. */
  ghost predicate Reached(tree: Node, visited: set<Path>, pending: seq<Path>, files: seq<Path>) {
    && (forall p :: p in visited || p in pending ==> IsDirectory(tree, p) && Belongs(p))
    && (forall p :: p in visited || p in pending ==> p == [] || Parent(p) in visited)
    && (forall p :: p in files ==> p != [] && IsFile(tree, p) && Belongs(p) && Parent(p) in visited)
    && (forall p :: p in pending ==> p !in visited)
    && Distinct(pending) && Distinct(files)
  }

  /** What a directory that was read contains has been reached. */
  ghost predicate Followed(tree: Node, visited: set<Path>, pending: seq<Path>, files: seq<Path>) {
    && ([] in visited || [] in pending)
    && forall d, c :: d in visited && IsChild(tree, d, c) ==>
         if c.directory then c.path in visited || c.path in pending else c.path in files
  }

  ghost predicate ChildrenOf(tree: Node, directory: Path, children: seq<Child>) {
    PathsDiffer(children) && forall c :: c in children <==> IsChild(tree, directory, c)
  }

  lemma BelongsChild(path: Path)
    requires path != []
    ensures Belongs(path) <==> Belongs(Parent(path)) && path[|path| - 1] != NODE_MODULES
  {
    assert path == Parent(path) + [path[|path| - 1]];
  }

  lemma DistinctPlus<T>(a: seq<T>, b: seq<T>)
    requires Distinct(a) && Distinct(b) && forall x :: x in b ==> x !in a
    ensures Distinct(a + b)
  {
    forall i, j | 0 <= i < j < |a + b|
      ensures (a + b)[i] != (a + b)[j]
    {
      if i < |a| <= j {
        assert b[j - |a|] in b && a[i] in a;
      }
    }
  }

  lemma DistinctTail<T>(x: T, rest: seq<T>)
    requires Distinct([x] + rest)
    ensures Distinct(rest) && x !in rest
  {
    var all := [x] + rest;
    assert all[0] == x;
    assert forall i :: 0 <= i < |rest| ==> all[i + 1] == rest[i];
  }

  lemma ReadKeepsReached(
    tree: Node, visited: set<Path>, d: Path, rest: seq<Path>, files: seq<Path>, children: seq<Child>)
    requires Reached(tree, visited, [d] + rest, files) && ChildrenOf(tree, d, children)
    ensures Reached(tree, visited + {d}, rest + DirsOf(children), files + FilesOf(children))
  {
    hide Distinct, DirsOf, FilesOf, Belongs, PathsDiffer;
    PartsOf(children);
    PartsDiffer(children);
    DistinctTail(d, rest);
    assert ([d] + rest)[0] == d && d in [d] + rest;
    forall c | c in children
      ensures ChildIsNew(tree, visited, [d] + rest, files, d, c)
    {
      ChildIsNewOf(tree, visited, [d] + rest, files, d, c);
    }
    assert forall p :: p in DirsOf(children) ==> ChildIsNew(tree, visited, [d] + rest, files, d, Child(p, true));
    assert forall p :: p in FilesOf(children) ==> ChildIsNew(tree, visited, [d] + rest, files, d, Child(p, false));
    DistinctPlus(rest, DirsOf(children));
    DistinctPlus(files, FilesOf(children));
  }

  /** A child of a directory that was not read before was not reached before. */
  ghost predicate ChildIsNew(tree: Node, visited: set<Path>, pending: seq<Path>, files: seq<Path>, d: Path, c: Child) {
    && c.path != [] && Parent(c.path) == d && Belongs(c.path)
    && (if c.directory then IsDirectory(tree, c.path) else IsFile(tree, c.path))
    && c.path !in visited && c.path !in pending && c.path !in files
  }

  lemma ChildIsNewOf(tree: Node, visited: set<Path>, pending: seq<Path>, files: seq<Path>, d: Path, c: Child)
    requires Reached(tree, visited, pending, files) && d in pending && IsChild(tree, d, c)
    ensures ChildIsNew(tree, visited, pending, files, d, c)
  {
    hide Distinct, Belongs;
    BelongsChild(c.path);
  }

  lemma ReadKeepsFollowed(
    tree: Node, visited: set<Path>, d: Path, rest: seq<Path>, files: seq<Path>, children: seq<Child>)
    requires Followed(tree, visited, [d] + rest, files) && ChildrenOf(tree, d, children)
    ensures Followed(tree, visited + {d}, rest + DirsOf(children), files + FilesOf(children))
  {
    hide IsChild;
    PartsOf(children);
    forall e, c | e in visited + {d} && IsChild(tree, e, c)
      ensures if c.directory then c.path in visited + {d} || c.path in rest + DirsOf(children)
              else c.path in files + FilesOf(children)
    {
      if e == d {
        assert c in children && c == Child(c.path, c.directory);
      } else if c.directory && c.path !in visited {
        assert c.path in [d] + rest;
      }
    }
  }

  /** Appends the children of one directory that was read. */
  method Push(children: seq<Child>, dirs0: seq<Path>, files0: seq<Path>) returns (dirs: seq<Path>, files: seq<Path>)
    ensures dirs == dirs0 + DirsOf(children) && files == files0 + FilesOf(children)
  {
    dirs, files := dirs0, files0;
    var i := 0;
    while i < |children|
      invariant 0 <= i <= |children|
      invariant dirs + DirsOf(children[i..]) == dirs0 + DirsOf(children)
      invariant files + FilesOf(children[i..]) == files0 + FilesOf(children)
    {
      assert children[i..][0] == children[i] && children[i..][1..] == children[i + 1..];
      if children[i].directory {
        dirs := dirs + [children[i].path];
      } else {
        files := files + [children[i].path];
      }
      i := i + 1;
    }
  }

  /** The files of the package, each once, whatever the size of the batches and the order of listings. */
  method CollectPackageEntries(
    tree: Node, concurrency: nat, listing: map<Name, Node> -> seq<Name>, ghost universe: set<Path>)
    returns (files: seq<Path>)
    requires concurrency >= 1 && tree.Directory? && forall e :: IsListing(listing(e), e)
    requires forall p :: IsDirectory(tree, p) ==> p in universe
    ensures Distinct(files)
    ensures forall p :: p in files <==> IsFile(tree, p) && Belongs(p)
  {
    hide Reached, Followed, IsListing, DirsOf, FilesOf;
    files := [];
    var directories: seq<Path> := [[]];
    ghost var visited: set<Path> := {};
    WalkStarts(tree);
    while directories != []
      invariant Reached(tree, visited, directories, files) && Followed(tree, visited, directories, files)
      invariant visited <= universe
      decreases |universe - visited|
    {
      var n := if concurrency <= |directories| then concurrency else |directories|;
      var batch := directories[..n];
      ghost var before := visited;
      assert batch[0] in directories;
      FirstIsNew(tree, visited, directories, files);
      var rest := directories[n..];
      assert directories == batch[0..] + rest;
      var k := 0;
      while k < |batch|
        invariant 0 <= k <= |batch|
        invariant Reached(tree, visited, batch[k..] + rest, files) && Followed(tree, visited, batch[k..] + rest, files)
        invariant visited <= universe && before <= visited && (k > 0 ==> batch[0] in visited)
      {
        var d := batch[k];
        assert batch[k..] + rest == [d] + (batch[k + 1..] + rest);
        FirstIsNew(tree, visited, batch[k..] + rest, files);
        var children := ReadDirectory(tree, d, listing(At(tree, d).value.entries));
        ReadKeepsReached(tree, visited, d, batch[k + 1..] + rest, files, children);
        ReadKeepsFollowed(tree, visited, d, batch[k + 1..] + rest, files, children);
        Concat3(batch[k + 1..], rest, DirsOf(children));
        visited := visited + {d};
        rest, files := Push(children, rest, files);
        k := k + 1;
      }
      assert batch[k..] + rest == rest;
      FewerLeft(universe, before, visited, batch[0]);
      directories := rest;
    }
    WalkEnds(tree, visited, files);
  }

  lemma Concat3<T>(a: seq<T>, b: seq<T>, c: seq<T>)
    ensures (a + b) + c == a + (b + c)
  {
  }

  lemma WalkStarts(tree: Node)
    requires tree.Directory?
    ensures Reached(tree, {}, [[]], []) && Followed(tree, {}, [[]], [])
  {
  }

  lemma FirstIsNew(tree: Node, visited: set<Path>, pending: seq<Path>, files: seq<Path>)
    requires Reached(tree, visited, pending, files) && pending != []
    ensures IsDirectory(tree, pending[0]) && pending[0] !in visited
  {
    assert pending[0] in pending;
  }

  lemma {:induction false} AllVisited(tree: Node, visited: set<Path>, files: seq<Path>, p: Path)
    requires Followed(tree, visited, [], files) && IsDirectory(tree, p) && Belongs(p)
    ensures p in visited
    decreases |p|
  {
    if p != [] {
      ParentIsDirectory(tree, p);
      BelongsChild(p);
      AllVisited(tree, visited, files, Parent(p));
      assert IsChild(tree, Parent(p), Child(p, true));
    }
  }

  lemma ParentIsDirectory(tree: Node, p: Path)
    requires p != [] && At(tree, p).Some?
    ensures IsDirectory(tree, Parent(p))
  {
    hide At;
    assert p == Parent(p) + [p[|p| - 1]];
    AtChild(tree, Parent(p), p[|p| - 1]);
  }

  lemma WalkEnds(tree: Node, visited: set<Path>, files: seq<Path>)
    requires tree.Directory? && Reached(tree, visited, [], files) && Followed(tree, visited, [], files)
    ensures Distinct(files) && forall p :: p in files <==> IsFile(tree, p) && Belongs(p)
  {
    forall p | IsFile(tree, p) && Belongs(p)
      ensures p in files
    {
      ParentIsDirectory(tree, p);
      BelongsChild(p);
      AllVisited(tree, visited, files, Parent(p));
      assert IsChild(tree, Parent(p), Child(p, false));
    }
  }

  // ----- the workers -----

  /** A worker is copying the file of that index, has returned, or has failed. */
  datatype Worker = Copying(index: nat) | Returned | Failed

  /** `copied` are the files copied, in the order in which their copies ended. */
  datatype Pool = Pool(nextFile: nat, workers: seq<Worker>, copied: seq<nat>)

  /** A worker takes the next file, or returns. */
  function Take(nextFile: nat, count: nat): (nat, Worker) {
    if nextFile < count then (nextFile + 1, Copying(nextFile)) else (nextFile, Returned)
  }

  class CopyWorkers {
    const count: nat
    var nextFile: nat
    var workers: seq<Worker>
    var copied: seq<nat>

    ghost function View(): Pool
      reads this
    {
      Pool(nextFile, workers, copied)
    }

    /** Every worker runs up to its first copy before any copy ends. */
    constructor (files: nat, concurrency: nat)
      ensures count == files && View() == Started(files, if concurrency <= files then concurrency else files)
    {
      count, nextFile, workers, copied := files, 0, [], [];
      new;
      var n := if concurrency <= files then concurrency else files;
      var i := 0;
      while i < n
        invariant 0 <= i <= n && count == files
        invariant View() == Started(files, i)
      {
        var taken := Take(nextFile, count);
        nextFile, workers := taken.0, workers + [taken.1];
        i := i + 1;
      }
    }

    method CopyEnds(w: nat, ok: bool)
      requires w < |workers| && workers[w].Copying?
      modifies this
      ensures View() == Ended(old(View()), count, w, ok)
    {
      if !ok {
        workers := workers[w := Failed];
        return;
      }
      copied := copied + [workers[w].index];
      var taken := Take(nextFile, count);
      nextFile, workers := taken.0, workers[w := taken.1];
    }
  }

  function Started(count: nat, n: nat): Pool
    requires n <= count
  {
    Pool(n, seq(n, i requires 0 <= i < n => Copying(i)), [])
  }

  function Ended(p: Pool, count: nat, w: nat, ok: bool): Pool
    requires w < |p.workers| && p.workers[w].Copying?
  {
    if !ok then p.(workers := p.workers[w := Failed])
    else
      var taken := Take(p.nextFile, count);
      Pool(taken.0, p.workers[w := taken.1], p.copied + [p.workers[w].index])
  }

  datatype Step = Step(w: nat, ok: bool)
  datatype Behaviour = Behaviour(pools: seq<Pool>, steps: seq<Step>)

  /** Copies end in any order. */
  ghost predicate Interleaving(b: Behaviour, count: nat, n: nat) {
    && n <= count && |b.pools| == |b.steps| + 1 && b.pools[0] == Started(count, n)
    && forall k :: 0 <= k < |b.steps| ==> Moves(b.pools[k], b.steps[k], b.pools[k + 1], count)
  }

  ghost predicate Moves(p: Pool, s: Step, q: Pool, count: nat) {
    s.w < |p.workers| && p.workers[s.w].Copying? && q == Ended(p, count, s.w, s.ok)
  }

  /** Each file up to the next one is being copied by one worker, or has been copied once, or was lost to
      a worker that failed. */
  ghost predicate PoolInv(p: Pool, count: nat) {
    && p.nextFile <= count && Distinct(p.copied)
    && (forall i :: i in p.copied ==> i < p.nextFile)
    && (forall w :: 0 <= w < |p.workers| && p.workers[w].Copying? ==>
         p.workers[w].index < p.nextFile && p.workers[w].index !in p.copied)
    && (forall v, w :: 0 <= v < w < |p.workers| && p.workers[v].Copying? && p.workers[w].Copying? ==>
         p.workers[v].index != p.workers[w].index)
    && ((exists w :: 0 <= w < |p.workers| && p.workers[w].Returned?) ==> p.nextFile == count)
    && (NoneFailed(p) ==> forall i :: 0 <= i < p.nextFile ==> i in p.copied || BeingCopied(p, i))
  }

  ghost predicate NoneFailed(p: Pool) {
    forall w :: 0 <= w < |p.workers| ==> !p.workers[w].Failed?
  }

  ghost predicate BeingCopied(p: Pool, i: nat) {
    exists w :: 0 <= w < |p.workers| && p.workers[w] == Copying(i)
  }

  lemma StepKeepsPool(p: Pool, count: nat, w: nat, ok: bool)
    requires PoolInv(p, count) && w < |p.workers| && p.workers[w].Copying?
    ensures PoolInv(Ended(p, count, w, ok), count)
  {
    var q := Ended(p, count, w, ok);
    if NoneFailed(q) {
      assert q.workers[w] == Take(p.nextFile, count).1;
      assert forall v :: 0 <= v < |p.workers| && v != w ==> q.workers[v] == p.workers[v];
      forall i | 0 <= i < q.nextFile
        ensures i in q.copied || BeingCopied(q, i)
      {
        if i < p.nextFile && i !in q.copied {
          assert NoneFailed(p);
          var v :| 0 <= v < |p.workers| && p.workers[v] == Copying(i);
          assert q.workers[v] == Copying(i);
        }
      }
    }
  }

  lemma {:induction false} PoolReachable(b: Behaviour, count: nat, n: nat, k: nat)
    requires Interleaving(b, count, n) && k < |b.pools|
    ensures PoolInv(b.pools[k], count) && |b.pools[k].workers| == n
  {
    if k == 0 {
      forall i | 0 <= i < n
        ensures BeingCopied(b.pools[0], i)
      {
        assert b.pools[0].workers[i] == Copying(i);
      }
    } else {
      PoolReachable(b, count, n, k - 1);
      assert Moves(b.pools[k - 1], b.steps[k - 1], b.pools[(k - 1) + 1], count);
      StepKeepsPool(b.pools[k - 1], count, b.steps[k - 1].w, b.steps[k - 1].ok);
    }
  }

  ghost predicate AllReturned(p: Pool, n: nat) {
    forall w :: 0 <= w < n ==> w < |p.workers| && p.workers[w].Returned?
  }

  /** In every order in which copies end, no file is copied twice; and when all workers have returned,
      every file has been copied. */
  lemma EveryFileIsCopiedOnce(b: Behaviour, count: nat, n: nat, k: nat)
    requires Interleaving(b, count, n) && k < |b.pools|
    ensures Distinct(b.pools[k].copied) && forall i :: i in b.pools[k].copied ==> i < count
    ensures (count > 0 ==> n > 0) && AllReturned(b.pools[k], n) ==>
      forall i :: 0 <= i < count ==> i in b.pools[k].copied
  {
    PoolReachable(b, count, n, k);
    var p := b.pools[k];
    if (count > 0 ==> n > 0) && forall w :: 0 <= w < n ==> p.workers[w].Returned? {
      assert NoneFailed(p);
      assert n > 0 ==> p.workers[0].Returned?;
      assert forall i :: !BeingCopied(p, i);
    }
  }
}
