/** The paged Release inventory that decides publication ownership
    (script/verify-release-identity.ts:250-349).

    The inventory is listed newest first and read one page at a time; other
    workflow runs may insert records between two page reads. */
module ReleaseInventory {
  import opened Basics

  const PAGE_SIZE: nat := 100
  const PAGE_LIMIT: nat := 100

  type Tag = string

  /** A workflow run at one source commit: what a publication receipt names. */
  datatype Owner = Owner(runID: string, sourceSHA: string)

  /** One inventory record. `receipts` are the owner receipts its body contains, in order;
      `wellFormed` says that id, draft, prerelease and body all have the expected types. */
  datatype Release = Release(
    id: int, tag: Tag, receipts: seq<Owner>, draft: bool, prerelease: bool, wellFormed: bool)

  datatype Error = ApiFailure | Invalid | Missing | NotDraft | OwnerMismatch | PrereleaseMismatch

  datatype Result<+T> = Ok(value: T) | Err(error: Error)

  datatype Input = Input(tag: Tag, owner: Owner, prerelease: bool)

  /** The loop variables: how many full pages were read, and the one match so far. */
  datatype Scan = Scan(page: nat, found: Option<Release>)

  datatype Progress = More(scan: Scan) | Complete(found: Option<Release>) | Reject

  const START := Scan(0, None)

  function Min(a: int, b: int): int { if a < b then a else b }

  /** Page `k` (counting from zero) of an inventory. */
  function PageOf<T>(inventory: seq<T>, k: nat): (page: seq<T>) {
    inventory[Min(k * PAGE_SIZE, |inventory|)..Min((k + 1) * PAGE_SIZE, |inventory|)]
  }

  function Matching(page: seq<Release>, tag: Tag): (matches: seq<Release>)
    ensures forall r :: r in matches <==> r in page && r.tag == tag
    ensures |matches| <= |page|
  {
    if page == [] then []
    else if page[0].tag == tag then [page[0]] + Matching(page[1..], tag)
    else Matching(page[1..], tag)
  }

  /** One iteration of the page loop. */
  function Absorb(scan: Scan, tag: Tag, page: seq<Release>): Progress {
    var matches := Matching(page, tag);
    if |matches| > 1 || (|matches| == 1 && scan.found.Some?) then Reject
    else
      var found := if |matches| == 1 then Some(matches[0]) else scan.found;
      if |page| < PAGE_SIZE then Complete(found)
      else if scan.page + 1 >= PAGE_LIMIT then Reject
      else More(Scan(scan.page + 1, found))
  }

  /** What a completed scan means for the run that made it. */
  function Judge(found: Option<Release>, input: Input): Result<Release> {
    if found.None? then Err(Missing)
    else if !found.value.wellFormed then Err(Invalid)
    else if found.value.receipts != [input.owner] then Err(OwnerMismatch)
    else if found.value.prerelease != input.prerelease then Err(PrereleaseMismatch)
    else Ok(found.value)
  }

  // ----- one page: exactly one match, none, or several -----

  /** `j` is the only index of `page` that carries `tag`. */
  ghost predicate OnlyAt(page: seq<Release>, tag: Tag, j: int) {
    0 <= j < |page| && page[j].tag == tag &&
    forall k :: 0 <= k < |page| && page[k].tag == tag ==> k == j
  }

  lemma {:induction false} MatchingCases(page: seq<Release>, tag: Tag)
    ensures |Matching(page, tag)| == 0 <==> forall k :: 0 <= k < |page| ==> page[k].tag != tag
    ensures |Matching(page, tag)| == 1 <==> exists j :: OnlyAt(page, tag, j)
    ensures forall j :: OnlyAt(page, tag, j) ==> Matching(page, tag) == [page[j]]
  {
    if page != [] {
      var rest := page[1..];
      MatchingCases(rest, tag);
      assert forall k :: 1 <= k < |page| ==> page[k] == rest[k - 1];
      if page[0].tag == tag {
        if |Matching(page, tag)| == 1 {
          assert OnlyAt(page, tag, 0);
        }
        forall j | OnlyAt(page, tag, j)
          ensures |Matching(page, tag)| == 1 && Matching(page, tag) == [page[j]]
        {
        }
      } else {
        if j :| OnlyAt(rest, tag, j) {
          assert OnlyAt(page, tag, j + 1);
        }
        forall j | OnlyAt(page, tag, j)
          ensures |Matching(page, tag)| == 1 && Matching(page, tag) == [page[j]]
        {
          assert OnlyAt(rest, tag, j - 1);
        }
      }
    }
  }

  lemma SingleMatch(page: seq<Release>, tag: Tag) returns (j: int)
    requires |Matching(page, tag)| == 1
    ensures OnlyAt(page, tag, j) && Matching(page, tag) == [page[j]]
  {
    MatchingCases(page, tag);
    j :| OnlyAt(page, tag, j);
  }

  // ----- a fixed inventory -----

  /** The page steps of a scan, taken with nothing in between. */
  function ScanAll(inventory: seq<Release>, tag: Tag, scan: Scan): Progress
    requires scan.page < PAGE_LIMIT
    decreases PAGE_LIMIT - scan.page
  {
    match Absorb(scan, tag, PageOf(inventory, scan.page))
    case More(next) => ScanAll(inventory, tag, next)
    case last => last
  }

  function Verdict(last: Progress, input: Input): Result<Release> {
    if last.Complete? then Judge(last.found, input) else Err(Invalid)
  }

  /** What a reader must answer on an inventory short enough to be read to its end. */
  ghost predicate Decides(inventory: seq<Release>, input: Input, r: Result<Release>) {
    && (forall j :: OnlyAt(inventory, input.tag, j) ==> r == Judge(Some(inventory[j]), input))
    && ((forall k :: 0 <= k < |inventory| ==> inventory[k].tag != input.tag) <==> r == Err(Missing))
    && (forall j, k :: TwoOf(inventory, input.tag, j, k) ==> r == Err(Invalid))
  }

  /** The reader as the source runs it, over an inventory nobody changes meanwhile. */
  method ReadPublicationOwner(inventory: seq<Release>, input: Input) returns (r: Result<Release>)
    ensures r == Verdict(ScanAll(inventory, input.tag, START), input)
  {
    hide Matching, Judge, PageOf;
    var release, page := None, 0;
    var inventoryComplete := false;
    while page < PAGE_LIMIT
      invariant 0 <= page <= PAGE_LIMIT && !inventoryComplete
      invariant ScanAll(inventory, input.tag, START) ==
        if page < PAGE_LIMIT then ScanAll(inventory, input.tag, Scan(page, release)) else Reject
    {
      var read := PageOf(inventory, page);
      var matches := Matching(read, input.tag);
      if |matches| > 1 || (|matches| == 1 && release.Some?) {
        return Err(Invalid);
      }
      if |matches| == 1 {
        release := Some(matches[0]);
      }
      if |read| < PAGE_SIZE {
        inventoryComplete := true;
        break;
      }
      page := page + 1;
    }
    if !inventoryComplete {
      return Err(Invalid);
    }
    r := Judge(release, input);
  }

  /** On an inventory nobody changes, the answer is the judgement on the single record of the tag,
      `Missing` when there is none, and a rejection when there are two or the listing is unbounded. */
  lemma FixedInventoryIsDecided(inventory: seq<Release>, input: Input)
    ensures var r := Verdict(ScanAll(inventory, input.tag, START), input);
      if |inventory| < PAGE_SIZE * PAGE_LIMIT then Decides(inventory, input, r) else r == Err(Invalid)
  {
    ScanDecides(inventory, input, START);
  }

  /** The page loop, from any page on, decides an inventory nobody changes. */
  lemma {:induction false} ScanDecides(inventory: seq<Release>, input: Input, scan: Scan)
    requires scan.page < PAGE_LIMIT && scan.page * PAGE_SIZE <= |inventory|
    requires ReadSoFar(inventory[..scan.page * PAGE_SIZE], input.tag, scan.found)
    ensures var r := Verdict(ScanAll(inventory, input.tag, scan), input);
      if |inventory| < PAGE_SIZE * PAGE_LIMIT then Decides(inventory, input, r) else r == Err(Invalid)
    decreases PAGE_LIMIT - scan.page
  {
    hide Matching, Judge, Decides;
    var part := inventory[..scan.page * PAGE_SIZE];
    var page := PageOf(inventory, scan.page);
    var end := PartGrows(inventory, scan.page);
    match Absorb(scan, input.tag, page)
    case Reject =>
      if |page| < PAGE_SIZE || scan.page + 1 < PAGE_LIMIT || |inventory| < PAGE_SIZE * PAGE_LIMIT {
        Ambiguous(part, page, input.tag, scan.found);
        RejectDecides(inventory, end, input);
      }
    case Complete(found) =>
      ReadOn(part, page, input.tag, scan.found);
      JudgeDecides(inventory, input, found);
    case More(next) =>
      ReadOn(part, page, input.tag, scan.found);
      ScanDecides(inventory, input, next);
  }

  /** Reading one more page extends the part that has been read. */
  lemma PartGrows(inventory: seq<Release>, page: nat) returns (end: nat)
    requires page * PAGE_SIZE <= |inventory|
    ensures end <= |inventory|
    ensures inventory[..page * PAGE_SIZE] + PageOf(inventory, page) == inventory[..end]
    ensures |PageOf(inventory, page)| < PAGE_SIZE ==> inventory[..end] == inventory
    ensures |PageOf(inventory, page)| >= PAGE_SIZE ==>
      end == (page + 1) * PAGE_SIZE && |PageOf(inventory, page)| == PAGE_SIZE
  {
    end := Min((page + 1) * PAGE_SIZE, |inventory|);
  }

  lemma JudgeDecides(inventory: seq<Release>, input: Input, found: Option<Release>)
    requires ReadSoFar(inventory, input.tag, found)
    ensures Decides(inventory, input, Judge(found, input))
  {
    if found.Some? {
      var j :| OnlyAt(inventory, input.tag, j) && inventory[j] == found.value;
      assert inventory[j].tag == input.tag;
    }
  }

  lemma RejectDecides(inventory: seq<Release>, end: nat, input: Input)
    requires end <= |inventory|
    requires exists j, k :: TwoOf(inventory[..end], input.tag, j, k)
    ensures Decides(inventory, input, Err(Invalid))
  {
    var j, k :| TwoOf(inventory[..end], input.tag, j, k);
    assert inventory[j].tag == inventory[k].tag == input.tag;
  }

  /** What the loop knows of the part it has read: at most one record carries the tag. */
  ghost predicate ReadSoFar(part: seq<Release>, tag: Tag, found: Option<Release>) {
    if found.None? then forall k :: 0 <= k < |part| ==> part[k].tag != tag
    else exists j :: OnlyAt(part, tag, j) && part[j] == found.value
  }

  ghost predicate TwoOf(part: seq<Release>, tag: Tag, j: int, k: int) {
    0 <= j < k < |part| && part[j].tag == part[k].tag == tag
  }

  lemma ReadOn(part: seq<Release>, page: seq<Release>, tag: Tag, found: Option<Release>)
    requires ReadSoFar(part, tag, found)
    requires |Matching(page, tag)| == 0 || (|Matching(page, tag)| == 1 && found.None?)
    ensures ReadSoFar(part + page, tag, if |Matching(page, tag)| == 1 then Some(Matching(page, tag)[0]) else found)
  {
    MatchingCases(page, tag);
    if |Matching(page, tag)| == 1 {
      var j :| OnlyAt(page, tag, j);
      assert OnlyAt(part + page, tag, |part| + j);
    } else if found.Some? {
      var j :| OnlyAt(part, tag, j) && part[j] == found.value;
      assert OnlyAt(part + page, tag, j);
    }
  }

  lemma {:induction false} OneInPage(page: seq<Release>, tag: Tag) returns (k: nat)
    requires |Matching(page, tag)| >= 1
    ensures k < |page| && page[k].tag == tag
  {
    if page[0].tag == tag {
      k := 0;
    } else {
      k := OneInPage(page[1..], tag);
      k := k + 1;
    }
  }

  lemma {:induction false} TwoInPage(page: seq<Release>, tag: Tag) returns (j: nat, k: nat)
    requires |Matching(page, tag)| > 1
    ensures TwoOf(page, tag, j, k)
  {
    if page[0].tag == tag {
      k := OneInPage(page[1..], tag);
      j, k := 0, k + 1;
    } else {
      j, k := TwoInPage(page[1..], tag);
      j, k := j + 1, k + 1;
    }
  }

  lemma Ambiguous(part: seq<Release>, page: seq<Release>, tag: Tag, found: Option<Release>)
    requires ReadSoFar(part, tag, found)
    requires |Matching(page, tag)| > 1 || (|Matching(page, tag)| == 1 && found.Some?)
    ensures exists j, k :: TwoOf(part + page, tag, j, k)
  {
    hide Matching;
    if found.Some? {
      var j :| OnlyAt(part, tag, j) && part[j] == found.value;
      var k := OneInPage(page, tag);
      assert TwoOf(part + page, tag, j, |part| + k);
    } else {
      var j, k := TwoInPage(page, tag);
      assert TwoOf(part + page, tag, |part| + j, |part| + k);
    }
  }

  // ----- an inventory that grows while it is read -----

  /** `b` is `a` with records inserted anywhere: nothing is removed or reordered. */
  ghost predicate Grows<T(!new)>(a: seq<T>, b: seq<T>) {
    exists at: seq<nat> :: Embeds(a, b, at)
  }

  ghost predicate Embeds<T>(a: seq<T>, b: seq<T>, at: seq<nat>) {
    && |at| == |a|
    && (forall i :: 0 <= i < |at| ==> at[i] < |b| && b[at[i]] == a[i])
    && (forall i, j :: 0 <= i < j < |at| ==> at[i] < at[j])
  }

  lemma {:induction false} NeverMovesForward<T>(a: seq<T>, b: seq<T>, at: seq<nat>, i: nat)
    requires Embeds(a, b, at) && i < |a|
    ensures i <= at[i]
  {
    if i > 0 {
      NeverMovesForward(a, b, at, i - 1);
    }
  }

  /** Page `k` was read from the inventory as it stood at `states[k]`. Whatever the first of these
      states listed is on one of the pages read, when the last page read was a short one. */
  lemma {:induction false} ScanCovers<T(!new)>(states: seq<seq<T>>, i: nat)
    requires |states| > 0 && i < |states[0]|
    requires forall k :: 0 < k < |states| ==> Grows(states[k - 1], states[k])
    requires |PageOf(states[|states| - 1], |states| - 1)| < PAGE_SIZE
    ensures exists k :: 0 <= k < |states| && states[0][i] in PageOf(states[k], k)
  {
    CoversFrom(states, 0, i);
  }

  lemma {:induction false} CoversFrom<T(!new)>(states: seq<seq<T>>, k: nat, i: nat)
    requires k < |states| && i < |states[k]| && k * PAGE_SIZE <= i
    requires forall m :: 0 < m < |states| ==> Grows(states[m - 1], states[m])
    requires |PageOf(states[|states| - 1], |states| - 1)| < PAGE_SIZE
    ensures exists m :: k <= m < |states| && states[k][i] in PageOf(states[m], m)
    decreases |states| - k
  {
    if i < (k + 1) * PAGE_SIZE {
      var page := PageOf(states[k], k);
      assert page[i - k * PAGE_SIZE] == states[k][i];
    } else if k + 1 < |states| {
      assert Grows(states[k], states[k + 1]);
      var at :| Embeds(states[k], states[k + 1], at);
      NeverMovesForward(states[k], states[k + 1], at, i);
      CoversFrom(states, k + 1, at[i]);
    }
  }
}
