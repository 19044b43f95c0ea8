/** The payload stamp of a build (packages/opencorvus/script/build-overlay-payload-stamp.ts:8-73): which
    files are stamped and in which order, the reads that run ahead, and the stream that is hashed.

    Names are their UTF-8 bytes, and the order of names is any total one. */
module PayloadStamp {
  import opened Basics
  import opened Bytes

  type Name = seq<Byte>
  type Path = seq<Name>

  const SLASH: Byte := 47
  const EXECUTABLE: Byte := 120
  const PLAIN: Byte := 45

  // ----- which files -----

  datatype Node = File(executable: bool, payload: seq<Byte>) | Directory(entries: map<Name, Node>) | Other

  function At(node: Node, path: Path): Option<Node> {
    if path == [] then Some(node)
    else if node.Directory? && path[0] in node.entries then At(node.entries[path[0]], path[1..])
    else None
  }

  predicate IsFile(node: Node, path: Path) {
    At(node, path).Some? && At(node, path).value.File?
  }

  ghost predicate TotalOrder(less: (Name, Name) -> bool) {
    && (forall a :: !less(a, a))
    && (forall a, b :: a == b || less(a, b) || less(b, a))
    && forall a, b, c :: less(a, b) && less(b, c) ==> less(a, c)
  }

  /** The order of names, component by component. */
  predicate PathLess(less: (Name, Name) -> bool, p: Path, q: Path) {
    if q == [] then false
    else if p == [] then true
    else if p[0] == q[0] then PathLess(less, p[1..], q[1..])
    else less(p[0], q[0])
  }

  ghost predicate SortedPaths(less: (Name, Name) -> bool, paths: seq<Path>) {
    forall i, j :: 0 <= i < j < |paths| ==> PathLess(less, paths[i], paths[j])
  }

  /** The stamp file, which is not stamped; also not a directory of that name. */
  predicate Skips(top: bool, stamp: Name, path: Path) {
    top && path != [] && path[0] == stamp
  }

  /** All files below the node in order, relative to it. */
  ghost predicate Lists(less: (Name, Name) -> bool, node: Node, top: bool, stamp: Name, paths: seq<Path>) {
    SortedPaths(less, paths) && forall p :: p in paths <==> IsFile(node, p) && !Skips(top, stamp, p)
  }

  /** A directory listing has each name once, in any order. */
  ghost predicate IsListing(listing: seq<Name>, entries: map<Name, Node>) {
    && (forall name :: name in listing <==> name in entries)
    && forall i, j :: 0 <= i < j < |listing| ==> listing[i] != listing[j]
  }

  // ----- sorting names -----

  function Insert(less: (Name, Name) -> bool, name: Name, names: seq<Name>): seq<Name> {
    if names == [] || less(name, names[0]) then [name] + names else [names[0]] + Insert(less, name, names[1..])
  }

  function Sort(less: (Name, Name) -> bool, names: seq<Name>): seq<Name> {
    if names == [] then [] else Insert(less, names[0], Sort(less, names[1..]))
  }

  ghost predicate SortedNames(less: (Name, Name) -> bool, names: seq<Name>) {
    forall i, j :: 0 <= i < j < |names| ==> less(names[i], names[j])
  }

  lemma {:induction false} InsertHas(less: (Name, Name) -> bool, name: Name, names: seq<Name>, x: Name)
    ensures x in Insert(less, name, names) <==> x == name || x in names
  {
    if names != [] && !less(name, names[0]) {
      InsertHas(less, name, names[1..], x);
      assert x in names <==> x == names[0] || x in names[1..];
    }
  }

  lemma {:induction false} InsertSorts(less: (Name, Name) -> bool, name: Name, names: seq<Name>)
    requires TotalOrder(less) && SortedNames(less, names) && name !in names
    ensures SortedNames(less, Insert(less, name, names))
  {
    if names != [] && !less(name, names[0]) {
      var rest := Insert(less, name, names[1..]);
      assert less(names[0], name);
      InsertSorts(less, name, names[1..]);
      forall j | 0 <= j < |rest|
        ensures less(names[0], rest[j])
      {
        InsertHas(less, name, names[1..], rest[j]);
      }
    }
  }

  lemma {:induction false} SortHas(less: (Name, Name) -> bool, names: seq<Name>, x: Name)
    ensures x in Sort(less, names) <==> x in names
  {
    if names != [] {
      SortHas(less, names[1..], x);
      InsertHas(less, names[0], Sort(less, names[1..]), x);
      assert x in names <==> x == names[0] || x in names[1..];
    }
  }

  lemma {:induction false} SortSorts(less: (Name, Name) -> bool, names: seq<Name>)
    requires TotalOrder(less) && forall i, j :: 0 <= i < j < |names| ==> names[i] != names[j]
    ensures SortedNames(less, Sort(less, names))
  {
    if names != [] {
      SortSorts(less, names[1..]);
      SortHas(less, names[1..], names[0]);
      InsertSorts(less, names[0], Sort(less, names[1..]));
    }
  }

  // ----- collecting -----

  /** Paths under a name. */
  function Under(name: Name, paths: seq<Path>): (r: seq<Path>)
    ensures |r| == |paths|
    ensures forall i :: 0 <= i < |r| ==> r[i] == [name] + paths[i]
  {
    seq(|paths|, i requires 0 <= i < |paths| => [name] + paths[i])
  }

  /** All files below the first `n` names. */
  ghost predicate ListsPart(
    less: (Name, Name) -> bool, entries: map<Name, Node>, top: bool, stamp: Name, names: seq<Name>, n: nat,
    paths: seq<Path>)
  {
    && n <= |names| && SortedPaths(less, paths)
    && forall p :: p in paths <==>
         p != [] && p[0] in names[..n] && IsFile(Directory(entries), p) && !Skips(top, stamp, p)
  }

  lemma UnderSorted(less: (Name, Name) -> bool, name: Name, paths: seq<Path>)
    requires SortedPaths(less, paths)
    ensures SortedPaths(less, Under(name, paths))
  {
    var u := Under(name, paths);
    forall i, j | 0 <= i < j < |u|
      ensures PathLess(less, u[i], u[j])
    {
      assert u[i][1..] == paths[i] && u[j][1..] == paths[j];
    }
  }

  lemma UnderHas(name: Name, paths: seq<Path>, p: Path)
    ensures p in Under(name, paths) <==> p != [] && p[0] == name && p[1..] in paths
  {
    var u := Under(name, paths);
    if p != [] && p[0] == name && p[1..] in paths {
      var i :| 0 <= i < |paths| && paths[i] == p[1..];
      assert u[i] == [name] + paths[i] == p;
    }
    if p in u {
      var i :| 0 <= i < |u| && u[i] == p;
      assert p[1..] == paths[i];
    }
  }

  /** The files below one more name come after those below the names before it. */
  lemma ChildListed(
    less: (Name, Name) -> bool, entries: map<Name, Node>, top: bool, stamp: Name, names: seq<Name>, n: nat,
    paths: seq<Path>, below: seq<Path>)
    requires TotalOrder(less) && SortedNames(less, names) && n < |names| && names[n] in entries
    requires ListsPart(less, entries, top, stamp, names, n, paths)
    requires if top && names[n] == stamp then below == [] else Lists(less, entries[names[n]], false, stamp, below)
    ensures ListsPart(less, entries, top, stamp, names, n + 1, paths + Under(names[n], below))
  {
    var name, all := names[n], paths + Under(names[n], below);
    UnderSorted(less, name, below);
    forall i, j | 0 <= i < j < |all|
      ensures PathLess(less, all[i], all[j])
    {
      if i < |paths| <= j {
        assert all[i] == paths[i] && paths[i] in paths;
        var k :| 0 <= k < n && names[k] == paths[i][0];
        assert less(names[k], name) && !less(name, name);
      }
    }
    assert names[..n + 1] == names[..n] + [name];
    forall p
      ensures p in all <==> p != [] && p[0] in names[..n + 1] && IsFile(Directory(entries), p) && !Skips(top, stamp, p)
    {
      UnderHas(name, below, p);
      assert p in all <==> p in paths || p in Under(name, below);
      assert name !in names[..n];
    }
  }

  lemma PartIsAll(
    less: (Name, Name) -> bool, entries: map<Name, Node>, top: bool, stamp: Name, names: seq<Name>, paths: seq<Path>)
    requires ListsPart(less, entries, top, stamp, names, |names|, paths)
    requires forall name :: name in names <==> name in entries
    ensures Lists(less, Directory(entries), top, stamp, paths)
  {
    assert names[..|names|] == names;
    forall p
      ensures p in paths <==> IsFile(Directory(entries), p) && !Skips(top, stamp, p)
    {
    }
  }

  /** Paths relative to `prefix`, from the root. */
  function Below(prefix: Path, paths: seq<Path>): (r: seq<Path>)
    ensures |r| == |paths|
    ensures forall i :: 0 <= i < |r| ==> r[i] == prefix + paths[i]
  {
    seq(|paths|, i requires 0 <= i < |paths| => prefix + paths[i])
  }

  lemma BelowUnder(prefix: Path, paths: seq<Path>, name: Name, below: seq<Path>)
    ensures Below(prefix, paths + Under(name, below)) == Below(prefix, paths) + Below(prefix + [name], below)
  {
    var u := Under(name, below);
    forall i | 0 <= i < |below|
      ensures prefix + u[i] == prefix + [name] + below[i]
    {
    }
  }

  lemma FileLists(less: (Name, Name) -> bool, node: Node, stamp: Name)
    ensures node.File? ==> Lists(less, node, false, stamp, [[]])
    ensures node.Other? ==> Lists(less, node, false, stamp, [])
  {
  }

  lemma NoneListed(less: (Name, Name) -> bool, entries: map<Name, Node>, top: bool, stamp: Name, names: seq<Name>)
    ensures ListsPart(less, entries, top, stamp, names, 0, [])
  {
  }

  lemma SortedListing(less: (Name, Name) -> bool, listing: seq<Name>, entries: map<Name, Node>)
    requires TotalOrder(less) && IsListing(listing, entries)
    ensures SortedNames(less, Sort(less, listing))
    ensures forall name :: name in Sort(less, listing) <==> name in entries
  {
    SortSorts(less, listing);
    forall name
      ensures name in Sort(less, listing) <==> name in entries
    {
      SortHas(less, listing, name);
    }
  }

  class PayloadFiles {
    var files: seq<Path>

    constructor ()
      ensures files == []
    {
      files := [];
    }

    /** Adds the files below a directory, which is at `prefix`, whatever order listings come in. */
    method Visit(
      entries: map<Name, Node>, prefix: Path, stamp: Name, less: (Name, Name) -> bool,
      listing: map<Name, Node> -> seq<Name>)
      returns (ghost paths: seq<Path>)
      requires TotalOrder(less) && forall d :: IsListing(listing(d), d)
      modifies this
      ensures Lists(less, Directory(entries), prefix == [], stamp, paths)
      ensures files == old(files) + Below(prefix, paths)
      decreases Directory(entries), 1
    {
      hide Lists, ListsPart, SortedNames, Sort, TotalOrder, Below, Under, IsListing;
      var names := Sort(less, listing(entries));
      SortedListing(less, listing(entries), entries);
      paths := [];
      NoneListed(less, entries, prefix == [], stamp, names);
      var i := 0;
      while i < |names|
        invariant 0 <= i <= |names|
        invariant ListsPart(less, entries, prefix == [], stamp, names, i, paths)
        invariant files == old(files) + Below(prefix, paths)
      {
        var name := names[i];
        assert name in names;
        ghost var below := VisitEntry(entries, name, prefix, stamp, less, listing);
        ChildListed(less, entries, prefix == [], stamp, names, i, paths, below);
        BelowUnder(prefix, paths, name, below);
        paths := paths + Under(name, below);
        i := i + 1;
      }
      PartIsAll(less, entries, prefix == [], stamp, names, paths);
    }

    method VisitEntry(
      entries: map<Name, Node>, name: Name, prefix: Path, stamp: Name, less: (Name, Name) -> bool,
      listing: map<Name, Node> -> seq<Name>)
      returns (ghost below: seq<Path>)
      requires TotalOrder(less) && (forall d :: IsListing(listing(d), d)) && name in entries
      modifies this
      ensures if prefix == [] && name == stamp then below == [] else Lists(less, entries[name], false, stamp, below)
      ensures files == old(files) + Below(prefix + [name], below)
      decreases Directory(entries), 0
    {
      hide Lists, TotalOrder, IsListing;
      below := [];
      if prefix == [] && name == stamp {
        return;
      }
      FileLists(less, entries[name], stamp);
      match entries[name] {
        case Directory(children) =>
          below := Visit(children, prefix + [name], stamp, less, listing);
        case File(_, _) =>
          files := files + [prefix + [name]];
          below := [[]];
          assert prefix + [name] + [] == prefix + [name];
        case Other =>
      }
    }
  }

  // ----- one order -----

  lemma {:induction false} PathLessIsStrict(less: (Name, Name) -> bool, p: Path, q: Path)
    requires TotalOrder(less) && PathLess(less, p, q)
    ensures p != q && !PathLess(less, q, p)
  {
    if p != [] && p[0] == q[0] {
      PathLessIsStrict(less, p[1..], q[1..]);
    }
  }

  /** Sorted lists of the same paths are the same list. */
  lemma {:induction false} SortedPathsAreOne(less: (Name, Name) -> bool, a: seq<Path>, b: seq<Path>)
    requires TotalOrder(less) && SortedPaths(less, a) && SortedPaths(less, b)
    requires forall p :: p in a <==> p in b
    ensures a == b
  {
    assert a != [] ==> a[0] in b;
    assert b != [] ==> b[0] in a;
    if a != [] && b != [] {
      FirstIsFirst(less, a, b);
      FirstIsFirst(less, b, a);
      if a[0] != b[0] {
        PathLessIsStrict(less, a[0], b[0]);
      }
      TailHas(less, a);
      TailHas(less, b);
      forall p
        ensures p in a[1..] <==> p in b[1..]
      {
        assert p in a <==> p == a[0] || p in a[1..];
        assert p in b <==> p == b[0] || p in b[1..];
      }
      SortedPathsAreOne(less, a[1..], b[1..]);
      assert a == [a[0]] + a[1..] && b == [b[0]] + b[1..];
    }
  }

  lemma FirstIsFirst(less: (Name, Name) -> bool, a: seq<Path>, b: seq<Path>)
    requires SortedPaths(less, a) && a != [] && b != [] && b[0] in a
    ensures a[0] == b[0] || PathLess(less, a[0], b[0])
  {
  }

  lemma TailHas(less: (Name, Name) -> bool, a: seq<Path>)
    requires TotalOrder(less) && SortedPaths(less, a) && a != []
    ensures a[0] !in a[1..] && SortedPaths(less, a[1..])
  {
    forall j | 1 <= j < |a|
      ensures a[j] != a[0]
    {
      PathLessIsStrict(less, a[0], a[j]);
    }
  }

  /** The files and their order are those of the tree: they do not depend on any directory listing. */
  lemma ListingsDoNotMatter(less: (Name, Name) -> bool, node: Node, top: bool, stamp: Name, a: seq<Path>, b: seq<Path>)
    requires TotalOrder(less) && Lists(less, node, top, stamp, a) && Lists(less, node, top, stamp, b)
    ensures a == b
  {
    SortedPathsAreOne(less, a, b);
  }

  // ----- the stream -----

  datatype Entry = Entry(name: seq<Byte>, executable: bool, payload: seq<Byte>)

  function Frame(e: Entry): seq<Byte> {
    e.name + [NUL] + Decimal(|e.payload|) + [NUL] + [if e.executable then EXECUTABLE else PLAIN] + [NUL] +
    e.payload + [NUL]
  }

  function Stream(entries: seq<Entry>): seq<Byte> {
    if entries == [] then [] else Frame(entries[0]) + Stream(entries[1..])
  }

  /** Two texts with the same first NUL, and the rests. */
  lemma SplitAtNul(x: seq<Byte>, a: seq<Byte>, y: seq<Byte>, b: seq<Byte>)
    requires NUL !in x && NUL !in y && x + [NUL] + a == y + [NUL] + b
    ensures x == y && a == b
  {
    NulAt(x, a);
    NulAt(y, b);
    SplitAtLength(x, [NUL] + a, y, [NUL] + b);
    SplitAtLength([NUL], a, [NUL], b);
  }

  lemma NulAt(x: seq<Byte>, a: seq<Byte>)
    requires NUL !in x
    ensures IndexOf(x + [NUL] + a, NUL, 0) == |x| && x + [NUL] + a == x + ([NUL] + a)
  {
    hide IndexOf;
    var s := x + [NUL] + a;
    PrefixIs(x, [NUL] + a);
    assert s == x + ([NUL] + a);
    FirstOccurrence(s, 0, x, NUL);
  }

  lemma PrefixIs(x: seq<Byte>, a: seq<Byte>)
    requires a != []
    ensures (x + a)[0..0 + |x|] == x && (x + a)[0 + |x|] == a[0]
  {
  }

  lemma SplitAtLength(x: seq<Byte>, a: seq<Byte>, y: seq<Byte>, b: seq<Byte>)
    requires |x| == |y| && x + a == y + b
    ensures x == y && a == b
  {
    assert x == (x + a)[..|x|] && y == (y + b)[..|y|];
    assert a == (x + a)[|x|..] && b == (y + b)[|y|..];
  }

  lemma FrameParts(e: Entry, rest: seq<Byte>)
    ensures Frame(e) + rest ==
      e.name + [NUL] + (Decimal(|e.payload|) + [NUL] +
        ([if e.executable then EXECUTABLE else PLAIN, NUL] + (e.payload + ([NUL] + rest))))
  {
  }

  lemma DecimalHasNoNul(n: nat)
    ensures NUL !in Decimal(n)
  {
    assert forall d :: d in Decimal(n) ==> d != NUL;
  }

  /** A frame says where it ends. */
  lemma FrameIsPrefixFree(e: Entry, a: seq<Byte>, f: Entry, b: seq<Byte>)
    requires NUL !in e.name && NUL !in f.name && Frame(e) + a == Frame(f) + b
    ensures e == f && a == b
  {
    hide Frame, Decimal;
    var me, mf := if e.executable then EXECUTABLE else PLAIN, if f.executable then EXECUTABLE else PLAIN;
    FrameParts(e, a);
    FrameParts(f, b);
    DecimalHasNoNul(|e.payload|);
    DecimalHasNoNul(|f.payload|);
    DecimalRoundTrip(|e.payload|);
    DecimalRoundTrip(|f.payload|);
    hide Numeral;
    var te, tf := [me, NUL] + (e.payload + ([NUL] + a)), [mf, NUL] + (f.payload + ([NUL] + b));
    SplitAtNul(e.name, Decimal(|e.payload|) + [NUL] + te, f.name, Decimal(|f.payload|) + [NUL] + tf);
    SplitAtNul(Decimal(|e.payload|), te, Decimal(|f.payload|), tf);
    SplitAtLength([me, NUL], e.payload + ([NUL] + a), [mf, NUL], f.payload + ([NUL] + b));
    SplitAtLength(e.payload, [NUL] + a, f.payload, [NUL] + b);
    SplitAtLength([NUL], a, [NUL], b);
    assert [me, NUL][0] == [mf, NUL][0];
  }

  /** The stream determines the entries: there are no two lists of entries that are hashed alike. */
  lemma {:induction false} StreamIsInjective(a: seq<Entry>, b: seq<Entry>)
    requires forall e :: e in a || e in b ==> NUL !in e.name
    requires Stream(a) == Stream(b)
    ensures a == b
  {
    if a != [] && b != [] {
      assert a[0] in a && b[0] in b;
      FrameIsPrefixFree(a[0], Stream(a[1..]), b[0], Stream(b[1..]));
      assert forall e :: e in a[1..] || e in b[1..] ==> e in a || e in b;
      StreamIsInjective(a[1..], b[1..]);
      assert a == [a[0]] + a[1..] && b == [b[0]] + b[1..];
    } else {
      FramesAreNotEmpty(a);
      FramesAreNotEmpty(b);
    }
  }

  lemma FramesAreNotEmpty(entries: seq<Entry>)
    ensures entries != [] ==> Stream(entries) != []
  {
  }

  // ----- the stream of a tree -----

  /** A file system's names: not empty, without slash and NUL. */
  predicate ValidName(name: Name) {
    name != [] && SLASH !in name && NUL !in name
  }

  ghost predicate ValidPath(path: Path) {
    path != [] && forall name :: name in path ==> ValidName(name)
  }

  function Joined(path: Path): seq<Byte> {
    if path == [] then [] else if |path| == 1 then path[0] else path[0] + [SLASH] + Joined(path[1..])
  }

  lemma {:induction false} JoinedHasNoNul(path: Path)
    requires ValidPath(path)
    ensures NUL !in Joined(path)
  {
    assert path[0] in path;
    if |path| > 1 {
      JoinedHasNoNul(path[1..]);
    }
  }

  lemma SlashAt(x: seq<Byte>, a: seq<Byte>)
    requires SLASH !in x
    ensures IndexOf(x + [SLASH] + a, SLASH, 0) == |x| && x + [SLASH] + a == x + ([SLASH] + a)
  {
    hide IndexOf;
    PrefixIs(x, [SLASH] + a);
    assert x + [SLASH] + a == x + ([SLASH] + a);
    FirstOccurrence(x + [SLASH] + a, 0, x, SLASH);
  }

  lemma FirstSlash(path: Path)
    requires ValidPath(path)
    ensures var at := IndexOf(Joined(path), SLASH, 0);
      if |path| == 1 then at == -1 else at == |path[0]| && Joined(path) == path[0] + ([SLASH] + Joined(path[1..]))
  {
    assert path[0] in path;
    if |path| > 1 {
      SlashAt(path[0], Joined(path[1..]));
    } else {
      assert Joined(path) == path[0];
    }
  }

  lemma {:induction false} JoinedIsInjective(p: Path, q: Path)
    requires ValidPath(p) && ValidPath(q) && Joined(p) == Joined(q)
    ensures p == q
  {
    hide IndexOf;
    FirstSlash(p);
    FirstSlash(q);
    if |p| > 1 {
      var rp, rq := Joined(p[1..]), Joined(q[1..]);
      hide Joined;
      SplitAtLength(p[0], [SLASH] + rp, q[0], [SLASH] + rq);
      SplitAtLength([SLASH], rp, [SLASH], rq);
      JoinedIsInjective(p[1..], q[1..]);
      assert p == [p[0]] + p[1..] && q == [q[0]] + q[1..];
    } else {
      assert p == [p[0]] && q == [q[0]];
    }
  }

  function EntryAt(node: Node, path: Path): Entry
    requires IsFile(node, path)
  {
    Entry(Joined(path), At(node, path).value.executable, At(node, path).value.payload)
  }

  function EntriesOf(node: Node, paths: seq<Path>): (entries: seq<Entry>)
    requires forall p :: p in paths ==> IsFile(node, p)
    ensures |entries| == |paths|
    ensures forall i :: 0 <= i < |paths| ==> entries[i] == EntryAt(node, paths[i])
  {
    seq(|paths|, i requires 0 <= i < |paths| => EntryAt(node, paths[i]))
  }

  ghost predicate ValidTree(node: Node) {
    forall p :: IsFile(node, p) ==> ValidPath(p)
  }

  /** The trees have the same files, but for the stamp, and each reads the same in both. */
  ghost predicate SamePayload(stamp: Name, t: Node, u: Node) {
    forall p :: !Skips(true, stamp, p) ==>
      (IsFile(t, p) <==> IsFile(u, p)) && (IsFile(t, p) ==> At(t, p) == At(u, p))
  }

  lemma EntriesHaveNoNul(node: Node, paths: seq<Path>)
    requires ValidTree(node) && forall p :: p in paths ==> IsFile(node, p)
    ensures forall e :: e in EntriesOf(node, paths) ==> NUL !in e.name
  {
    forall i | 0 <= i < |paths|
      ensures NUL !in EntriesOf(node, paths)[i].name
    {
      assert paths[i] in paths;
      JoinedHasNoNul(paths[i]);
    }
  }

  lemma SameEntriesSamePaths(t: Node, a: seq<Path>, u: Node, b: seq<Path>)
    requires ValidTree(t) && ValidTree(u)
    requires (forall p :: p in a ==> IsFile(t, p)) && forall p :: p in b ==> IsFile(u, p)
    requires EntriesOf(t, a) == EntriesOf(u, b)
    ensures a == b && forall p :: p in a ==> At(t, p) == At(u, p)
  {
    forall i | 0 <= i < |a|
      ensures a[i] == b[i] && At(t, a[i]) == At(u, b[i])
    {
      assert a[i] in a && b[i] in b;
      assert EntriesOf(t, a)[i] == EntriesOf(u, b)[i];
      assert EntryAt(t, a[i]) == EntryAt(u, b[i]);
      JoinedIsInjective(a[i], b[i]);
    }
  }

  /** Two trees are hashed alike exactly when they have the same payload, whatever the order their
      directories are listed in. */
  lemma StampIsExact(
    less: (Name, Name) -> bool, stamp: Name, t: Node, a: seq<Path>, u: Node, b: seq<Path>)
    requires TotalOrder(less) && ValidTree(t) && ValidTree(u)
    requires Lists(less, t, true, stamp, a) && Lists(less, u, true, stamp, b)
    ensures Stream(EntriesOf(t, a)) == Stream(EntriesOf(u, b)) <==> SamePayload(stamp, t, u)
  {
    hide Stream, TotalOrder, Skips;
    if Stream(EntriesOf(t, a)) == Stream(EntriesOf(u, b)) {
      EntriesHaveNoNul(t, a);
      EntriesHaveNoNul(u, b);
      StreamIsInjective(EntriesOf(t, a), EntriesOf(u, b));
      SameEntriesSamePaths(t, a, u, b);
      forall p | !Skips(true, stamp, p)
        ensures (IsFile(t, p) <==> IsFile(u, p)) && (IsFile(t, p) ==> At(t, p) == At(u, p))
      {
        assert p in a <==> p in b;
      }
    }
    if SamePayload(stamp, t, u) {
      forall p
        ensures p in a <==> p in b
      {
        assert p in a <==> IsFile(t, p) && !Skips(true, stamp, p);
        assert p in b <==> IsFile(u, p) && !Skips(true, stamp, p);
      }
      SortedPathsAreOne(less, a, b);
      forall i | 0 <= i < |a|
        ensures EntriesOf(t, a)[i] == EntriesOf(u, b)[i]
      {
        assert a[i] in a;
      }
      assert EntriesOf(t, a) == EntriesOf(u, b);
    }
  }

  // ----- reading ahead -----

  /** What a file reads as; reading may fail. */
  datatype Contents = Contents(executable: bool, payload: seq<Byte>)

  function Total(entries: seq<Entry>): nat {
    if entries == [] then 0 else |entries[0].payload| + Total(entries[1..])
  }

  function EntryOf(file: seq<Byte>, c: Contents): Entry {
    Entry(file, c.executable, c.payload)
  }

  /** The first `n` files can be read. */
  ghost predicate Readable(disk: seq<Option<Contents>>, n: nat) {
    n <= |disk| && forall i :: 0 <= i < n ==> disk[i].Some?
  }

  /** Entries for the first `n` files, each with what it reads as. */
  ghost function Read(files: seq<seq<Byte>>, disk: seq<Option<Contents>>, n: nat): (entries: seq<Entry>)
    requires n <= |files| && Readable(disk, n)
  {
    if n == 0 then [] else Read(files, disk, n - 1) + [EntryOf(files[n - 1], disk[n - 1].value)]
  }

  lemma {:induction false} StreamPlus(entries: seq<Entry>, e: Entry)
    ensures Stream(entries + [e]) == Stream(entries) + Frame(e)
    ensures Total(entries + [e]) == Total(entries) + |e.payload|
  {
    hide Frame;
    if entries == [] {
      assert [e][1..] == [];
      assert entries + [e] == [e];
    } else {
      assert (entries + [e])[1..] == entries[1..] + [e];
      StreamPlus(entries[1..], e);
    }
  }

  lemma ReadNext(files: seq<seq<Byte>>, disk: seq<Option<Contents>>, n: nat)
    requires n < |files| && Readable(disk, n + 1)
    ensures Stream(Read(files, disk, n + 1)) == Stream(Read(files, disk, n)) + Frame(EntryOf(files[n], disk[n].value))
    ensures Total(Read(files, disk, n + 1)) == Total(Read(files, disk, n)) + |disk[n].value.payload|
  {
    hide Stream, Frame, Total;
    StreamPlus(Read(files, disk, n), EntryOf(files[n], disk[n].value));
  }

  lemma NothingRead(files: seq<seq<Byte>>, disk: seq<Option<Contents>>)
    ensures Stream(Read(files, disk, 0)) == [] && Total(Read(files, disk, 0)) == 0
  {
  }

  /** The reads under way when `index` is awaited are those of a window of files. */
  ghost predicate InWindow<V>(pending: map<nat, V>, index: nat, concurrency: nat, count: nat) {
    forall i :: i in pending <==> index <= i < index + concurrency && i < count
  }

  function Window(index: nat, concurrency: nat): (window: set<nat>)
    ensures forall i :: i in window <==> index <= i < index + concurrency
    ensures |window| == concurrency
  {
    if concurrency == 0 then {} else Window(index, concurrency - 1) + {index + concurrency - 1}
  }

  lemma WindowSize<V>(pending: map<nat, V>, index: nat, concurrency: nat, count: nat)
    requires InWindow(pending, index, concurrency, count)
    ensures |pending| <= concurrency
  {
    SubsetSize(pending.Keys, Window(index, concurrency));
    assert |pending| == |pending.Keys|;
  }

  /** What is hashed for one file, piece by piece. */
  method Update(hashed: seq<Byte>, file: seq<Byte>, executable: bool, payload: seq<Byte>) returns (h: seq<Byte>)
    ensures h == hashed + Frame(EntryOf(file, Contents(executable, payload)))
  {
    h := hashed + file;
    h := h + [NUL];
    h := h + Decimal(|payload|);
    h := h + [NUL];
    h := h + [if executable then EXECUTABLE else PLAIN];
    h := h + [NUL];
    h := h + payload;
    h := h + [NUL];
  }

  /** The reads of a stamp: those under way, and the order in which they were started. `disk` is what
      each of the files reads as. */
  class ReadAhead {
    const files: seq<seq<Byte>>
    const disk: seq<Option<Contents>>
    var pending: map<nat, Option<Contents>>
    ghost var started: seq<nat>

    constructor (f: seq<seq<Byte>>, d: seq<Option<Contents>>)
      ensures files == f && disk == d && pending == map[] && started == []
    {
      files, disk, pending, started := f, d, map[], [];
    }

    /** Starts reading a file; past the last one, nothing. */
    method Schedule(index: nat)
      requires |disk| == |files|
      modifies this
      ensures index < |files| ==> pending == old(pending)[index := disk[index]] && started == old(started) + [index]
      ensures index >= |files| ==> pending == old(pending) && started == old(started)
    {
      if index >= |files| {
        return;
      }
      pending := pending[index := disk[index]];
      started := started + [index];
    }

    ghost predicate StartedInOrder()
      reads this
    {
      |started| <= |files| && forall i :: 0 <= i < |started| ==> started[i] == i
    }

    /** The reads under way are those of the window, and of no file twice. */
    ghost predicate Ahead(index: nat, concurrency: nat)
      reads this
    {
      && |disk| == |files| && InWindow(pending, index, concurrency, |files|)
      && (forall i :: i in pending ==> i < |files| && pending[i] == disk[i])
      && |started| == (if index + concurrency <= |files| then index + concurrency else |files|)
      && StartedInOrder()
    }

    /** Awaits the read of a file and starts the one that comes into the window. */
    method Next(index: nat, concurrency: nat) returns (result: Option<Contents>)
      requires concurrency >= 1 && index < |files| && Ahead(index, concurrency)
      modifies this
      ensures result == disk[index]
      ensures result.Some? ==> Ahead(index + 1, concurrency)
      ensures |pending| <= concurrency && StartedInOrder()
    {
      WindowSize(pending, index, concurrency, |files|);
      result := pending[index];
      if result == None {
        return;
      }
      pending := pending - {index};
      Schedule(index + concurrency);
      WindowSize(pending, index + 1, concurrency, |files|);
    }

    /** Starts the reads of the first window. */
    method Fill(concurrency: nat) returns (ghost most: nat)
      requires |disk| == |files| && pending == map[] && started == []
      modifies this
      ensures Ahead(0, concurrency) && most <= concurrency
    {
      most := 0;
      var k := 0;
      while k < concurrency && k < |files|
        invariant 0 <= k <= concurrency && k <= |files| && most <= concurrency
        invariant Ahead(0, k)
      {
        Schedule(k);
        k := k + 1;
        WindowSize(pending, 0, k, |files|);
        most := if |pending| > most then |pending| else most;
      }
    }

    /** The window does not show in the stream: it is that of reading one file after the other, and it
        fails if and only if a file cannot be read. Each read is started once, before it is awaited, and
        no more than `concurrency` are under way at any time. */
    method HashFiles(concurrency: nat) returns (stream: Option<seq<Byte>>, bytes: nat, ghost most: nat)
      requires concurrency >= 1 && |disk| == |files| && pending == map[] && started == []
      modifies this
      ensures most <= concurrency
      ensures stream.Some? <==> Readable(disk, |files|)
      ensures stream.Some? ==> stream.value == Stream(Read(files, disk, |files|))
      ensures stream.Some? ==> bytes == Total(Read(files, disk, |files|))
      ensures stream.Some? ==> pending == map[] && |started| == |files|
      ensures StartedInOrder()
    {
      hide Stream, Total, Frame, Read;
      most := Fill(concurrency);
      var hashed: seq<Byte> := [];
      bytes := 0;
      NothingRead(files, disk);
      var index := 0;
      while index < |files|
        invariant 0 <= index <= |files| && most <= concurrency
        invariant Ahead(index, concurrency)
        invariant Readable(disk, index)
        invariant hashed == Stream(Read(files, disk, index)) && bytes == Total(Read(files, disk, index))
      {
        var result := Next(index, concurrency);
        most := if |pending| > most then |pending| else most;
        if result == None {
          return None, bytes, most;
        }
        ReadNext(files, disk, index);
        bytes := bytes + |result.value.payload|;
        hashed := Update(hashed, files[index], result.value.executable, result.value.payload);
        index := index + 1;
      }
      stream := Some(hashed);
    }
  }

  // ----- the stamp of a tree -----

  /** What a file of the tree reads as, if it can be read. */
  function ReadAt(node: Node, path: Path, readable: Path -> bool): Option<Contents>
    requires IsFile(node, path)
  {
    var e := EntryAt(node, path);
    if readable(path) then Some(Contents(e.executable, e.payload)) else None
  }

  function DiskOf(node: Node, paths: seq<Path>, readable: Path -> bool): (disk: seq<Option<Contents>>)
    requires forall p :: p in paths ==> IsFile(node, p)
    ensures |disk| == |paths|
    ensures forall i :: 0 <= i < |disk| ==> disk[i] == ReadAt(node, paths[i], readable)
  {
    seq(|paths|, i requires 0 <= i < |paths| => ReadAt(node, paths[i], readable))
  }

  function JoinedAll(paths: seq<Path>): (files: seq<seq<Byte>>)
    ensures |files| == |paths|
    ensures forall i :: 0 <= i < |files| ==> files[i] == Joined(paths[i])
  {
    seq(|paths|, i requires 0 <= i < |paths| => Joined(paths[i]))
  }

  lemma {:induction false} ReadIsEntries(node: Node, paths: seq<Path>, readable: Path -> bool, n: nat)
    requires n <= |paths| && (forall p :: p in paths ==> IsFile(node, p)) && forall p :: p in paths ==> readable(p)
    ensures Readable(DiskOf(node, paths, readable), n)
    ensures Read(JoinedAll(paths), DiskOf(node, paths, readable), n) == EntriesOf(node, paths)[..n]
    decreases n
  {
    hide IsFile, Joined;
    if n > 0 {
      assert paths[n - 1] in paths;
      ReadIsEntries(node, paths, readable, n - 1);
      assert EntriesOf(node, paths)[..n] == EntriesOf(node, paths)[..n - 1] + [EntryAt(node, paths[n - 1])];
    }
  }

  lemma AllRead(node: Node, paths: seq<Path>, readable: Path -> bool)
    requires forall p :: p in paths ==> IsFile(node, p)
    ensures Readable(DiskOf(node, paths, readable), |paths|) <==> forall p :: p in paths ==> readable(p)
    ensures (forall p :: p in paths ==> readable(p)) ==>
      Read(JoinedAll(paths), DiskOf(node, paths, readable), |paths|) == EntriesOf(node, paths)
  {
    hide IsFile, Read, EntryAt;
    assert forall i :: 0 <= i < |paths| ==> paths[i] in paths;
    if forall p :: p in paths ==> readable(p) {
      ReadIsEntries(node, paths, readable, |paths|);
    }
  }

  /** What the stamp says of the tree: the stream, the number of files and that of bytes, of the tree's
      files in their order. */
  ghost predicate Stamps(
    less: (Name, Name) -> bool, stamp: Name, node: Node, stream: seq<Byte>, count: nat, bytes: nat)
  {
    exists paths :: Lists(less, node, true, stamp, paths) && stream == Stream(EntriesOf(node, paths)) &&
      count == |paths| && bytes == Total(EntriesOf(node, paths))
  }

  /** Two stamps agree on the stream if and only if their trees have the same payload. */
  lemma SameStampExactly(
    less: (Name, Name) -> bool, stamp: Name, t: Node, x: seq<Byte>, count: nat, bytes: nat, u: Node, y: seq<Byte>,
    count2: nat, bytes2: nat)
    requires TotalOrder(less) && ValidTree(t) && ValidTree(u)
    requires Stamps(less, stamp, t, x, count, bytes) && Stamps(less, stamp, u, y, count2, bytes2)
    ensures x == y <==> SamePayload(stamp, t, u)
    ensures x == y ==> count == count2 && bytes == bytes2
  {
    hide TotalOrder, ValidTree, SamePayload, Stream, Total;
    var a :| Lists(less, t, true, stamp, a) && x == Stream(EntriesOf(t, a)) &&
      count == |a| && bytes == Total(EntriesOf(t, a));
    var b :| Lists(less, u, true, stamp, b) && y == Stream(EntriesOf(u, b)) &&
      count2 == |b| && bytes2 == Total(EntriesOf(u, b));
    StampIsExact(less, stamp, t, a, u, b);
    if x == y {
      EntriesHaveNoNul(t, a);
      EntriesHaveNoNul(u, b);
      StreamIsInjective(EntriesOf(t, a), EntriesOf(u, b));
    }
  }

  /** Collecting the files of a directory and hashing them, however directories are listed and reads run
      ahead, gives what the stamp says of the tree, and fails exactly when a file of it cannot be read. */
  method HashPayload(
    entries: map<Name, Node>, stamp: Name, less: (Name, Name) -> bool, listing: map<Name, Node> -> seq<Name>,
    readable: Path -> bool, concurrency: nat)
    returns (stream: Option<seq<Byte>>, count: nat, bytes: nat)
    requires TotalOrder(less) && (forall d :: IsListing(listing(d), d)) && concurrency >= 1
    ensures stream.Some? <==>
      forall p :: IsFile(Directory(entries), p) && !Skips(true, stamp, p) ==> readable(p)
    ensures stream.Some? ==> Stamps(less, stamp, Directory(entries), stream.value, count, bytes)
  {
    hide TotalOrder, IsListing, Skips, Stream, Total, Read, SortedPaths, IsFile, Readable, DiskOf, JoinedAll, EntriesOf;
    var collected := new PayloadFiles();
    ghost var paths := collected.Visit(entries, [], stamp, less, listing);
    assert collected.files == paths by { FromTheRoot(paths); }
    var node := Directory(entries);
    AllRead(node, paths, readable);
    var ahead := new ReadAhead(JoinedAll(collected.files), DiskOf(node, collected.files, readable));
    ghost var most;
    stream, bytes, most := ahead.HashFiles(concurrency);
    count := |collected.files|;
  }

  lemma FromTheRoot(paths: seq<Path>)
    ensures [] + Below([], paths) == paths
  {
    assert forall i :: 0 <= i < |paths| ==> [] + paths[i] == paths[i];
  }
}
