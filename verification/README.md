# Verified models of OpenCorvus protocols and build algorithms

This project models the parts of OpenCorvus whose correctness is spread over many steps, and proves
properties of them for all inputs and all interleavings:

- **Publishing a release** (`ReleaseInventory`, `ReleasePublication`, `ReleaseSafety`, `ReleaseProgress`,
  `ReleaseReordering`, `ReleaseIdentity`, `ReleaseVersion`, `ChannelSettlement`). Workflow runs race on one GitHub
  store: they claim a tag, claim a draft release by an owner receipt, open it, and move an update channel. Every
  request is one step, responses can be lost, and what a run may do is decided only by reading the store again.
- **The channel runtime** (`ChannelStartup`, `PromptFence`, `SessionIndexes`, `LockedClaim`, `BundledEnv`).
  Adapters start while messages arrive, `stop` fences prompts, two indexes follow threads, and several processes
  claim one value under a file lock. The code between two `await`s is one step; steps interleave freely.
- **Reading Git objects for the secret scan** (`Bytes`, `GitIndex`, `GitBlobs`, `SecretScan`).
- **Closing over and placing runtime packages** (`RuntimePlacement`, `DependencyClosure`, `PackageCopy`).
- **Polishing and splitting messages** (`Texts`, `MessageSplit`, `MessagePolish`, `MessageLines`, `MessageReply`).
- **Stamping a payload** (`PayloadStamp`) and **matching registrations** (`GreedyMatch`).

Code that changes things step by step is modelled by classes and loops, and each method is proved against a
function or predicate whose properties are the results. Protocols are a state, an `Apply` function and a
behaviour; the results are about every state of every behaviour.

What the proofs brought out, each stated by a lemma and, where one exists, with its exact condition:

- While the inventory does not fill a page, publication is exclusive wherever records are listed; after that, one
  record listed behind another of its tag lets two owners claim (`ExclusivePublication`,
  `MiddleInsertionBreaksExclusivity`).
- Every `start` that overlaps a `stop` can lose track of a prompt (`OverlapLosesAPrompt`); every prompt stays tracked
  exactly when no `stop` ends while one is in flight (`CoveredExactly`).
- Rebinding a thread key to another session leaves a stale key behind, exactly then (`TightExactly`), and
  releasing the first session takes the second one's binding away (`ReleaseTakesAReboundKey`).
- Two thread keys are equal for different threads of a platform only if their channels differ in the number of
  colons (`KeysAreInjective`); such a collision, or a key held by the empty task identifier, ends the agreement of
  the two indexes, and nothing else does (`AgreesExactly`, `ColonsBreakAgreement`).
- After every dependency has been put in place, Node's own lookup can still find another version, exactly when an
  enclosing package needs one and the dependency itself lies at the top (`LookupExactly`, `LookupCanBeShadowed`).
- The placement ends on cyclic graphs as long as every cycle passes through a name with one version
  (`GroundedRunsEnd`), and once all names are placed exactly as long as chains of conflicting versions do
  (`EndsExactly`); a cycle of them is nested without end (`ConflictCycleRun`).
- An upload to the channel that is cut between deleting the manifest and writing it lets the channel go back, and
  no other failure of serial calls does (`ChannelNeverGoesBack`, `CutLetsAnythingIn`).
- Two channel settlements that overlap can move the channel back, exactly when the later upload is behind
  (`OverlapGoesBackExactly`).
- Greedy matching is complete exactly for relations in which two elements that fit a common one fit the same ones
  (`GreedyIsCompleteExactly`); equivalences are such relations.
- A bundle variable named `__proto__` parses and is then lost (`ProtoIsLost`).

`dafny verify dfyconfig.toml` checks the whole project.

## Model

| member | source | states |
|---|---|---|
| `ReleaseInventory.ReadPublicationOwner` | script/verify-release-identity.ts:250-349 | the page loop with its early exits answers what the pure page steps followed by the judgement of the record answer |
| `ReleaseInventory.FixedInventoryIsDecided` | script/verify-release-identity.ts:257-349 | on an inventory nobody changes: shorter than 10000 records, the answer is the judgement on the one record of the tag, "missing" if and only if there is none, and a rejection if there are two; longer, always a rejection |
| `ReleaseInventory.ScanDecides` | script/verify-release-identity.ts:257-304 | the same from any page on, given what the pages before it held |
| `ReleaseInventory.MatchingCases` | script/verify-release-identity.ts:277-286 | a page has no, one or several records of the tag, and with one the match is that record |
| `ReleaseInventory.ScanCovers` | script/verify-release-identity.ts:257-292 | while records are inserted anywhere between page reads, a scan that ends on a short page has had every record on one of its pages that was listed when it began |
| `ReleasePublication.AbsorbKeepsAnchor` | script/verify-release-identity.ts:277-291 | reading one page keeps the fact that all other records of the tag are listed in front of the match, or unread; a completed scan holds the last listed one |
| `ReleasePublication.RevealKeepsRunInv` | script/verify-release-identity.ts:440-459 | a draft that becomes visible between any two reads disturbs no run, if it is in front of its tag's records or the inventory does not fill a page yet |
| `ReleasePublication.AbsorbKeepsWaits` | script/verify-release-identity.ts:277-291 | a scan that has the record of a successful run in hand, has not reached it, or can find nothing any more, is in one of these cases after every page read, and ends with no other record |
| `ReleasePublication.LastOfTagIsAwaited` | script/verify-release-identity.ts:277-291 | when a run succeeds, every other scan of the tag under way is in one of these cases |
| `ReleasePublication.StepKeepsInv` | script/verify-release-identity.ts:366-464 | every step of every run, of the store and of strangers keeps the protocol invariant |
| `ReleaseSafety.ExclusivePublication` | script/verify-release-identity.ts:366-464 | no interleaving lets runs with different run or source both obtain a claimed, owned or settled result for one tag, wherever records are listed while the inventory does not fill a page, and with each arriving in front of its tag after that; all that do succeed hold the same release |
| `ReleaseSafety.OneCreate` | script/verify-release-identity.ts:414-443 | a run sends at most one create, only when it claims, and is told "claimed" only after one |
| `ReleaseSafety.PatchesOwnReleaseOnly` | script/verify-release-identity.ts:374-397 | whatever becomes of the request, an applied PATCH opens a release of the tag with exactly the run's own receipt and changes nothing else |
| `ReleasePublication.PatchTargetsOwn` | script/verify-release-identity.ts:385-397 | the listed record that a settling run is about to open carries its tag, its single receipt and its prerelease flag |
| `ReleaseSafety.DraftNeverReturns` | script/verify-release-identity.ts:385-397 | no step makes a listed release a draft again, changes its tag, receipts or prerelease flag, or removes it |
| `ReleaseSafety.SettledIsPublic` | script/verify-release-identity.ts:374-406 | "settled" is reported only for a listed, public release of the tag that carries the run's single receipt |
| `ReleaseSafety.NothingClaimedAfterSettlement` | script/verify-release-identity.ts:351-364 | once a run was told "settled", no claim or verification of that tag that begins later succeeds or sends a create, by any run and at any time |
| `ReleaseReordering.MiddleInsertionBreaksExclusivity` | script/verify-release-identity.ts:366-464 | on every inventory of a full page and up to 97 records more, for any two owners of one tag: a whole behaviour, possible in every step but that one draft becomes visible behind the other, in which both runs are told "claimed" |
| `ReleaseProgress.OwnOrLacks` | script/verify-release-identity.ts:277-339 | a run has a record of its own (the only one of the tag, well formed, with exactly its receipt and its prerelease flag) or lacks one for exactly one of the four reasons |
| `ReleaseProgress.ScanEnds` | script/verify-release-identity.ts:257-349 | in every behaviour, a scan of an inventory of fewer than 10000 records that nobody changes, without failures, is one page further for each read, or has ended as the inventory says |
| `ReleaseProgress.ScanIsShort` | script/verify-release-identity.ts:257-292 | and it has ended once it has read more pages than the inventory fills |
| `ReleaseProgress.OwnedExactly` | script/verify-release-identity.ts:351-372 | such a run ends with a record as owned if and only if it is its own and a draft; it goes on to create exactly when it claims and the tag is missing; and it fails with an error exactly when the inventory gives that reason, or with "not draft" exactly for a public record of its own |
| `ReleaseProgress.SettlesExactly` | script/verify-release-identity.ts:374-384 | a settling run is settled exactly on a public record of its own, waits to patch exactly a draft of its own, and fails exactly for what the inventory lacks |
| `ReleaseProgress.PatchedExactly` | script/verify-release-identity.ts:385-411 | after a patch, applied or not, it is settled exactly on a public record of its own, which the record patched is; it fails exactly on a draft or for what the inventory lacks |
| `ReleaseProgress.CreateAnswered` | script/verify-release-identity.ts:437-443 | 201 and 422 are followed by reads, and only after 201 do they claim; any other answer fails |
| `ReleaseProgress.CreatedExactly` | script/verify-release-identity.ts:445-464 | such a read ends as claimed, or owned after 422, exactly with a draft of its own; another one follows exactly while the record is missing and there are attempts left; and each error has its one reason |
| `ReleaseProgress.ClaimEnds` | script/verify-release-identity.ts:418-459 | once the draft of a create answered with 201 is listed as the only record of its tag, the first read of it ends as claimed, unless somebody has opened it |
| `ReleaseProgress.UndisturbedReleaseSettles` | script/verify-release-identity.ts:366-464 | from every inventory of fewer than 9999 records without the tag there is a behaviour in which a release is claimed, found to be owned, and settled, and nothing else changes |
| `ReleaseIdentity.Peel` | script/verify-release-identity.ts:152-167 | peeling ends on every object store: it reaches an object exactly when the chain of tags ends there, reports a cycle exactly when the chain never ends, and cannot read exactly when it breaks |
| `ReleaseIdentity.StepKeepsInv` | script/verify-release-identity.ts:126-216 | every request, and every reference or tag object created by others meanwhile, keeps the identity invariant |
| `ReleaseIdentity.OneSourcePerVersion` | script/verify-release-identity.ts:165-172 | over all interleavings, all runs told claimed or owned for one version build the same source |
| `ReleaseIdentity.OneClaimant` | script/verify-release-identity.ts:195-215 | at most one run is told "claimed" for a version |
| `ReleaseIdentity.IdentityLasts` | script/verify-release-identity.ts:126-172 | an admitted identity stays so: in every later state the tag still peels to the admitted source |
| `ReleaseIdentity.EndsExactly` | script/verify-release-identity.ts:126-173 | a run that reads while nobody changes the store ends as available, as owned or claimed, or with an error, exactly in the case for it: the tag is missing, or the chain behind it ends at the run's commit, at another commit, at no commit, never, or breaks |
| `ReleaseIdentity.BeginsToRead` | script/verify-release-identity.ts:175-216 | only a dispatched claim posts first; its reply decides whether it reads at all, and whether what it finds counts as claimed |
| `ReleaseIdentity.UndisturbedClaim` | script/verify-release-identity.ts:175-216 | a dispatched claim of a missing tag that nothing disturbs ends as claimed, and a later verification as owned |
| `ReleaseVersion.PatternIsExact` | script/release-version.ts:1-2 | the product pattern matches a text if and only if it is the canonical text of a version |
| `ReleaseVersion.RenderIsInjective` | script/release-version.ts:18-23 | a canonical text is that of one version only |
| `ReleaseVersion.NormalizationIsExact` | script/release-version.ts:5-16 | normalization accepts exactly the canonical and, for betas, compact spellings with or without a v, and gives the canonical text of the version spelled, which is its own normal form |
| `ReleaseVersion.CompareIsPrecedence` | script/settle-desktop-update-channel.ts:60-60 | the sign of the comparison is precedence as section 11 of Semantic Versioning 2.0.0 states it on the numeric fields and the identifier lists, and it is 0 for equal versions only |
| `ReleaseVersion.PrecedenceIsTotal` | script/settle-desktop-update-channel.ts:60-60 | precedence is a strict total order |
| `ChannelSettlement.DesktopChannel.Settle` | script/settle-desktop-update-channel.ts:44-85 | what one call leaves in the channel, uploads and answers, under failures of any request before or after it takes effect, and of an upload between its deletion and its write |
| `ChannelSettlement.ChannelNeverGoesBack` | script/settle-desktop-update-channel.ts:57-72 | over any serial calls with any failures, the channel stays at or above what it held throughout, in that precedence, if and only if no upload is cut between deleting the manifest and writing it |
| `ChannelSettlement.CutLetsAnythingIn` | script/settle-desktop-update-channel.ts:57-72 | after such a cut the channel is empty, and the next call without failures is promoted whatever its version: the channel has gone back exactly if that is behind what it held before |
| `ChannelSettlement.CutUploadGoesBack` | script/settle-desktop-update-channel.ts:228-242 | there are such calls |
| `ChannelSettlement.UploadsNeverGoBack` | script/settle-desktop-update-channel.ts:57-69 | after any serial calls without such a cut, nothing older than the channel was is uploaded |
| `ChannelSettlement.ChannelEndsAtMaximum` | script/settle-desktop-update-channel.ts:44-85 | without failures the channel ends at the maximum of its start and all candidates: it holds one of them, and none is above it |
| `ChannelSettlement.RepeatWritesNothing` | script/settle-desktop-update-channel.ts:63-65 | a candidate that was promoted or current is current when repeated, and any number of repetitions upload nothing |
| `ChannelSettlement.CleanCallAlwaysSettles` | script/settle-desktop-update-channel.ts:68-85 | after any serial calls with any failures, a call without failures settles, on a version no lower than its own |
| `ChannelSettlement.AnswerHolds` | script/settle-desktop-update-channel.ts:60-84 | an answer is true of the channel afterwards: superseded by a higher version that it holds, or holding the candidate |
| `ChannelSettlement.InvalidIsRefused` | script/settle-desktop-update-channel.ts:48-59 | a call is refused as invalid exactly for an input that is no version, a candidate of another version, or an invalid manifest in the channel, and then writes nothing |
| `ChannelSettlement.OverlapGoesBackExactly` | script/settle-desktop-update-channel.ts:57-69 | two overlapping calls leave the channel behind the first candidate exactly when the second would be promoted too and is behind it |
| `ChannelSettlement.OverlapGoesBack` | script/settle-desktop-update-channel.ts:57-69 | there are two such calls |
| `ChannelStartup.ChannelRuntime.OnMessage` | packages/channel-runtime/src/core.ts:218-235 | a message is queued, buffered, dropped or refused; refused exactly when the adapter is not admitted and has overflowed |
| `ChannelStartup.ChannelRuntime.OnStart` | packages/channel-runtime/src/core.ts:245-260 | admission queues the whole buffer in order and publishes; a failure or an overflow rejects the owner |
| `ChannelStartup.ChannelRuntime.OnDelivery` | packages/channel-runtime/src/core.ts:253-260 | the awaited delivery settles the owner or rejects it |
| `ChannelStartup.ChannelRuntime.OnCleanup` | packages/channel-runtime/src/core.ts:262-268 | a failed clean-up is remembered |
| `ChannelStartup.StepKeepsInv` | packages/channel-runtime/src/core.ts:209-271 | every callback and settled promise keeps the startup invariant of all owners |
| `ChannelStartup.DeliveryIsAPrefix` | packages/channel-runtime/src/core.ts:218-253 | in every interleaving the messages handed to the handler are a prefix of those that arrived, in order and each once; the buffer stays within 1000; an adapter to which more than 1000 came before its start settled is never admitted and nothing is handed on |
| `ChannelStartup.AcceptedIsArrived` | packages/channel-runtime/src/core.ts:218-235 | what is accepted, told from the events alone: all messages that arrived, in order, while an owner is neither rejected nor has overflowed; it overflows exactly when more than 1000 arrive before its start settles |
| `ChannelStartup.AdmittedExactly` | packages/channel-runtime/src/core.ts:238-270 | a start that resolves admits the adapter, with all that arrived queued, if and only if it has not overflowed; one that rejects never does |
| `ChannelStartup.DeliveryIsComplete` | packages/channel-runtime/src/core.ts:245-255 | the prefix is all that arrived once an admitted adapter is idle and no handler failed; when a start succeeds, the handlers of everything that arrived while it was pending have ended without failing |
| `ChannelStartup.AcceptedOnlyGrows` | packages/channel-runtime/src/core.ts:218-260 | over any interleaving, what was accepted and what was handed on only grow at their ends |
| `ChannelStartup.AdaptersAreTheAdmitted` | packages/channel-runtime/src/core.ts:238-252 | the active adapters are at all times the admitted owners, in registration order |
| `ChannelStartup.ReceiptCoversAll` | packages/channel-runtime/src/core.ts:272-290 | when all starts have settled, each adapter is reported started or failed and never both; one whose clean-up is pending is not active |
| `PromptFence.DirectPrompts.HandleMessage` | packages/channel-runtime/src/core.ts:342-347 | entering captures the generation and proceeds only when admission is open |
| `PromptFence.DirectPrompts.ResumeMessage` | packages/channel-runtime/src/core.ts:362-457 | after each await but the one after the voice notice, a handler goes on only in its own generation |
| `PromptFence.DirectPrompts.Continue` | packages/channel-runtime/src/core.ts:475-531 | a task is submitted, and its prompt registered, only in the current generation |
| `PromptFence.DirectPrompts.BeginStop` | packages/channel-runtime/src/core.ts:302-310 | stop closes admission, moves the generation on and aborts every registered prompt |
| `PromptFence.DirectPrompts.EndStop` | packages/channel-runtime/src/core.ts:313-319 | after the captured completions, the registry is emptied |
| `PromptFence.NoPromptAcrossStop` | packages/channel-runtime/src/core.ts:302-310 | in every interleaving with any restarts, a message that entered before a stop begins no prompt after it |
| `PromptFence.UnfencedGoesOn` | packages/channel-runtime/src/core.ts:342-531 | a message that enters with admission open and is overtaken by no stop goes on after every await, and its prompt begins and is registered |
| `PromptFence.CoveredExactly` | packages/channel-runtime/src/core.ts:302-319 | every prompt in flight is registered throughout, if and only if no stop ends while one is in flight |
| `PromptFence.SerialIsCovered` | packages/channel-runtime/src/core.ts:158-185 | with starts and stops that do not overlap, every prompt in flight is registered |
| `PromptFence.SerialStopAbortsAll` | packages/channel-runtime/src/core.ts:307-317 | then a stop aborts and awaits every prompt in flight |
| `PromptFence.OverlapLosesAPrompt` | packages/channel-runtime/src/core.ts:177-319 | every behaviour up to a start between the beginning and the end of a stop can go on, without another start, to where a stop was called and a prompt is in flight and not aborted |
| `SessionIndexes.SessionCoordinator.Bind` | packages/channel-runtime/src/session-coordinator.ts:9-14 | binding sets the session of a key and lists the key once |
| `SessionIndexes.SessionCoordinator.FindSessions` | packages/channel-runtime/src/session-coordinator.ts:26-35 | the sessions bound to the listed keys, in their order |
| `SessionIndexes.SessionCoordinator.Release` | packages/channel-runtime/src/session-coordinator.ts:37-45 | the listed keys are unbound and the session is no longer listed |
| `SessionIndexes.TightExactly` | packages/channel-runtime/src/session-coordinator.ts:9-50 | a call keeps every listed key bound to its session if and only if it does not rebind a key of another session |
| `SessionIndexes.FindMissesNothing` | packages/channel-runtime/src/session-coordinator.ts:9-50 | after any calls, a lookup misses no live binding of its session |
| `SessionIndexes.FindIsExact` | packages/channel-runtime/src/session-coordinator.ts:9-50 | after any calls that rebind no key, a lookup returns exactly the bindings of its session, one for each key |
| `SessionIndexes.ReleaseTakesAReboundKey` | packages/channel-runtime/src/session-coordinator.ts:37-45 | after a rebinding, the old session still finds the new one, and releasing the old one unbinds the new one |
| `SessionIndexes.TaskIndex.BindTask` | packages/channel-runtime/src/core.ts:590-602 | both maps after binding a thread to a task |
| `SessionIndexes.KeysAreInjective` | packages/channel-runtime/src/core.ts:591-592 | of platforms with equally many colons in their names, two threads with one key are the same thread if and only if their channels have equally many colons |
| `SessionIndexes.EvenColonsAreInjective` | packages/channel-runtime/src/core.ts:591-592 | so keys are injective on bindings whose platforms have equally many colons, and whose channels do on each platform, as Matrix rooms have |
| `SessionIndexes.BindKeepsAgreement` | packages/channel-runtime/src/core.ts:590-602 | binding keeps the two maps in agreement if and only if the key is neither held by the empty task identifier nor that of another thread which another task lists |
| `SessionIndexes.AgreesExactly` | packages/channel-runtime/src/core.ts:590-602 | over any run of bindings, the maps agree throughout if and only if no binding meets such a clash |
| `SessionIndexes.IndexesAgree` | packages/channel-runtime/src/core.ts:590-602 | after any bindings in which different threads have different keys, a thread is in a task's list exactly when its key maps to that task, without empty lists or repeats |
| `SessionIndexes.LastBindingWins` | packages/channel-runtime/src/core.ts:590-602 | then a task lists a thread exactly when the last binding of that thread named the task |
| `SessionIndexes.ColonsBreakAgreement` | packages/channel-runtime/src/core.ts:591-602 | two threads that share a key leave the first listed under a task that its key no longer maps to |
| `LockedClaim.StepKeepsInv` | packages/channel-runtime/src/core.ts:833-886 | every step of any process, crashes and failed requests included, keeps the claim invariant |
| `LockedClaim.PublishedNeverChanges` | packages/channel-runtime/src/core.ts:857-875 | a published value is never replaced |
| `LockedClaim.OneValueForAll` | packages/channel-runtime/src/core.ts:833-886 | over all interleavings, all calls that return a value return the same one, which is published from then on |
| `LockedClaim.OnePublication` | packages/channel-runtime/src/core.ts:857-875 | at most one publication takes effect, and none where there was a value at the start |
| `LockedClaim.ValueWasProposed` | packages/channel-runtime/src/bundled-env.ts:167-170 | a published value was there at the start or was published by a step |
| `LockedClaim.LockExcludes` | packages/channel-runtime/src/bundled-env.ts:155-173 | two calls never hold the lock at once |
| `LockedClaim.UndisturbedCallReturns` | packages/channel-runtime/src/core.ts:833-886 | from every state with the lock free, a call that nothing disturbs returns the published value, or publishes and returns its own, gives the lock back, and its process remembers the value |
| `BundledEnv.ParseBundle` | packages/channel-runtime/src/bundled-env.ts:75-97 | a bundle is valid exactly when no line is bad, and then holds the last value set for each variable; otherwise the answer is all bad lines with their numbers |
| `BundledEnv.ParsesToOne` | packages/channel-runtime/src/bundled-env.ts:75-97 | these conditions determine the result |
| `BundledEnv.ReadLineExactly` | packages/channel-runtime/src/bundled-env.ts:51-95 | a line is skipped exactly if it is white or a comment, and sets exactly the name and value that it is an assignment of: with white space around, behind "export " or not, in double, single or no quotes; all others are bad |
| `BundledEnv.WrittenIsReadBack` | packages/channel-runtime/src/bundled-env.ts:51-97 | round trip: variables with distinct names, each on a line with its value quoted, are read back as they were, whatever the values |
| `BundledEnv.ProtoIsLost` | packages/channel-runtime/src/bundled-env.ts:76-93 | a bundle that sets only `__proto__` is valid and empty |
| `BundledEnv.BundledEnvironment.ClaimFirstUsedAt` | packages/channel-runtime/src/bundled-env.ts:150-174 | the recorded first use, or now recorded, under failures before and after the write |
| `BundledEnv.BundledEnvironment.SetMissing` | packages/channel-runtime/src/bundled-env.ts:244-253 | variables that are set or inherited are skipped, the others get the bundle's values, and both are counted |
| `BundledEnv.BundledEnvironment.ApplyBundledEnv` | packages/channel-runtime/src/bundled-env.ts:176-265 | variables are applied if and only if the whole bundle parses, declares one, and now is within the TTL (24 hours unless set) of the first use; only such a bundle touches the state; otherwise the environment is unchanged |
| `BundledEnv.AppliedWithinOneWindow` | packages/channel-runtime/src/bundled-env.ts:150-229 | over any starts of the program, a usable bundle is applied exactly while the TTL of the first usable start whose claim reached the state file lasts |
| `BundledEnv.WindowIsRecorded` | packages/channel-runtime/src/bundled-env.ts:167-170 | the recorded first use is that start's, and never moves |
| `BundledEnv.RefusedNeverBegins` | packages/channel-runtime/src/bundled-env.ts:176-224 | missing, empty and invalid bundles never begin the window |
| `Bytes.DecimalRoundTrip` | packages/opencorvus/script/build-overlay-payload-stamp.ts:67-67 | the decimal numeral of a length reads back as that length |
| `GitIndex.ParseGitIndexEntries` | script/secret-scan.ts:128-161 | the parser with its moving offset computes the entry-by-entry parse, reads only within bounds on any bytes, and succeeds with exactly the announced number of entries |
| `GitIndex.ReadEntry` | script/secret-scan.ts:140-158 | one entry: its fields, its path up to the NUL, and where the padding ends, or the error |
| `GitIndex.RoundTrip` | script/secret-scan.ts:128-161 | parsing what Git writes (index format, versions 2 and 3, "Index entry") for any entries, with any bytes after them, returns them |
| `GitIndex.ParseOne` | script/secret-scan.ts:140-158 | one written entry anywhere in the data is read back, and the next one is found behind its 1 to 8 NUL bytes |
| `GitIndex.ParsedEntriesAreSound` | script/secret-scan.ts:128-161 | on any bytes, entries that were parsed have NUL-free paths and 20-byte object ids, and the data is long enough for them |
| `GitIndex.ParsedExactly` | script/secret-scan.ts:128-161 | an index is parsed to entries if and only if it has the signature and version 2 or 3 and the announced number of entries, which are these, stand one behind the other; a missing signature and another version are refused as such |
| `GitBlobs.ChunkObjectIdsBySize` | script/secret-scan.ts:316-331 | chunks keep order and lose nothing, are not empty, stay within 8 MiB unless of one element, and could not have taken the next one; it fails exactly when a size is missing |
| `GitBlobs.ChunkingIsUnique` | script/secret-scan.ts:272-331 | there is only one such chunking, so the two chunkers agree |
| `GitBlobs.ReadGitBlob` | script/secret-scan.ts:349-367 | one object of the output: header line, announced bytes, line end, or the error |
| `GitBlobs.ReadGitBlobBatch` | script/secret-scan.ts:345-369 | the loop computes the object-by-object reading |
| `GitBlobs.BatchRoundTrip` | script/secret-scan.ts:345-369 | what `cat-file` writes for any blobs, line ends and NULs included, is read back exactly |
| `GitBlobs.ObjectExactly` | script/secret-scan.ts:349-367 | an object is read if and only if it stands there: a line of three words with "blob" and a size, that many bytes, which are what is read, and a line end |
| `GitBlobs.ReadGitBlobs` | script/secret-scan.ts:372-382 | fetching in batches over distinct ids gives exactly the contents of all ids, and fails when one is missing |
| `SecretScan.ChunkGitEntries` | script/secret-scan.ts:272-285 | the same chunking of entries by size |
| `SecretScan.Scanner.ScanText` | script/secret-scan.ts:244-270 | scanning lines and patterns in place records the findings of the text in order, each key once over the whole run |
| `SecretScan.Scanner.ScanChunk` | script/secret-scan.ts:405-412 | one chunk records the findings of its entries, or stops at a missing blob |
| `SecretScan.Scan` | script/secret-scan.ts:384-414 | the two branches: given files, or the snapshots; reported are exactly the places where a pattern matches a line without the ignore directive in a text that is kept, in order of text, line and pattern, without those whose key was there before; it fails exactly when a file or blob to be scanned is missing |
| `SecretScan.ScanSnapshots` | script/secret-scan.ts:400-413 | the same for the batched scan of the entries that are scanned by name, no Git links and at most 1 MiB |
| `SecretScan.ScanFiles` | script/secret-scan.ts:389-398 | the same for given files that are scanned by name and at most 1 MiB |
| `SecretScan.FirstsAreReported` | script/secret-scan.ts:244-270 | the findings of all texts, without those whose key was there before, are exactly that report |
| `SecretScan.ReportsAreOne` | script/secret-scan.ts:244-270 | the texts and patterns determine the report |
| `SecretScan.FilesAsTheSnapshot` | script/secret-scan.ts:389-413 | files that are as the snapshot has them have the same findings in the same order in both branches |
| `SecretScan.RecordedAreFirsts` | script/secret-scan.ts:258-261 | the `seen` set keeps exactly the first finding of each key, in order |
| `SecretScan.FirstsAreComplete` | script/secret-scan.ts:258-261 | no key is lost |
| `SecretScan.FirstsAreDistinct` | script/secret-scan.ts:258-261 | no key is kept twice |
| `RuntimePlacement.Placer.CopyPackageDirectory` | packages/opencorvus/script/build-runtime-node-modules.ts:17-40 | everything at and below the destination is deleted and the source is put there |
| `RuntimePlacement.Placer.CopyRuntimePackageTree` | packages/opencorvus/script/build-runtime-node-modules.ts:153-201 | the recursion computes the placement, at the top or nested below the dependent on a version conflict, on every graph and state on which it ends |
| `RuntimePlacement.Placer.CopyRuntimeNodeModules` | packages/opencorvus/script/build-runtime-node-modules.ts:203-233 | the loop over the modules leaves what placing them one after the other leaves, and stops at the first failure |
| `RuntimePlacement.GroundedRunsEnd` | packages/opencorvus/script/build-runtime-node-modules.ts:180-233 | the run ends if every cycle of dependencies passes through a name with only one version, within a depth given by the number of such names and the ranks of packages; without such names, on every graph without cycles |
| `RuntimePlacement.DepthDoesNotMatter` | packages/opencorvus/script/build-runtime-node-modules.ts:180-233 | where a run ends, any depth that does not cut it off gives the same result |
| `RuntimePlacement.EndsExactly` | packages/opencorvus/script/build-runtime-node-modules.ts:166-200 | once all names have a version at the top, copying a dependency exceeds a depth if and only if that many dependencies in versions other than those at the top can be followed one after the other from it |
| `RuntimePlacement.PlaceOneKeeps` | packages/opencorvus/script/build-runtime-node-modules.ts:153-201 | one call keeps all earlier placements and satisfies every dependency of each package that it placed |
| `RuntimePlacement.PlacementIsComplete` | packages/opencorvus/script/build-runtime-node-modules.ts:203-233 | no destination is written twice, no delete removes an earlier placement, and every non-root dependency of a package placed at D ends up with its resolved source at D/node_modules or at the top |
| `RuntimePlacement.FailsExactly` | packages/opencorvus/script/build-runtime-node-modules.ts:180-233 | a run that ends throws if and only if a module does not resolve, or a name that a placed package needs |
| `RuntimePlacement.LookupExactly` | packages/opencorvus/script/build-runtime-node-modules.ts:166-176 | after a run without a throw, what any package needs and is not a root is what Node's lookup finds for it, if and only if it lies in the package's own `node_modules` or no enclosing package needs the name in another version |
| `RuntimePlacement.NestedExactly` | packages/opencorvus/script/build-runtime-node-modules.ts:166-177 | a name lies in the `node_modules` of a package if and only if the package needs it in a version other than that at the top |
| `RuntimePlacement.AgreeingRunsAreNotShadowed` | packages/opencorvus/script/build-runtime-node-modules.ts:203-233 | if no package wants a name in another version than a package that its dependencies lead to, Node's lookup finds every version that was resolved |
| `RuntimePlacement.LookupCanBeShadowed` | packages/opencorvus/script/build-runtime-node-modules.ts:166-200 | a graph and modules where an enclosing package does, and Node's lookup finds the wrong version |
| `RuntimePlacement.ConflictCycleNeverEnds` | packages/opencorvus/script/build-runtime-node-modules.ts:166-200 | two packages that need each other, both in versions other than those at the top, are nested into one another beyond every depth |
| `RuntimePlacement.ConflictCycleRun` | packages/opencorvus/script/build-runtime-node-modules.ts:203-233 | a graph and modules whose run comes to this from an empty output, and so never ends |
| `DependencyClosure.Validator.ValidatePackage` | packages/opencorvus/script/build-runtime-node-modules.ts:245-268 | on any finite graph the depth-first call ends; a success leaves all newly found packages sound and closed, and every closed set with the package in it forces success and contains all that was found |
| `DependencyClosure.Validator.ValidateModules` | packages/opencorvus/script/build-runtime-node-modules.ts:235-273 | validation succeeds if and only if some closed set of sound packages holds all modules, and then returns the least one |
| `DependencyClosure.ExternalDependencyDirectories` | script/public-package-release.ts:185-204 | the worklist ends on cyclic graphs too; it returns exactly the least set of names that holds the initial ones and is closed under what was collected, each found from those before it, or a needed name that is nowhere installed |
| `PackageCopy.CollectPackageEntries` | packages/opencorvus/script/build-runtime-node-modules.ts:61-108 | for every batch size and order of listings, the walk returns each file of the package once, and none below a nested `node_modules` |
| `PackageCopy.ReadDirectory` | packages/opencorvus/script/build-runtime-node-modules.ts:73-99 | the children of one directory that belong to the package, each once |
| `PackageCopy.CopyWorkers.constructor` | packages/opencorvus/script/build-runtime-node-modules.ts:31-38 | the workers start on the first files, at most `concurrency` of them |
| `PackageCopy.CopyWorkers.CopyEnds` | packages/opencorvus/script/build-runtime-node-modules.ts:33-37 | a worker whose copy ended takes the next file or returns; a failure stops it |
| `PackageCopy.EveryFileIsCopiedOnce` | packages/opencorvus/script/build-runtime-node-modules.ts:32-39 | in every order in which copies end no file is copied twice, and when all workers have returned every file has been copied |
| `MessageSplit.SplitText` | packages/channel-runtime/src/message-formatter.ts:55-112 | no message is longer than the limit, for any text; for a tidy text the messages are its cutting |
| `MessageSplit.SplitBlock` | packages/channel-runtime/src/message-formatter.ts:79-107 | the loop over the lines of a block longer than the limit keeps the cutting |
| `MessageSplit.SplitLine` | packages/channel-runtime/src/message-formatter.ts:96-106 | a line longer than the limit becomes full slices and a shorter rest |
| `MessageSplit.CuttingIsUnique` | packages/channel-runtime/src/message-formatter.ts:55-112 | the rules of a cutting (each message ends because the next block or line does not fit, or is a full slice of one line, and crosses a block or line break only with the whole next block or line) admit one cutting only |
| `MessageSplit.MessagesRebuildTheText` | packages/channel-runtime/src/message-formatter.ts:55-112 | the messages with no, one or two line breaks between them are the text, with none only after a full slice of a longer line |
| `MessageSplit.ShortLinesStayWhole` | packages/channel-runtime/src/message-formatter.ts:79-94 | a line within the limit is never split |
| `MessagePolish.PolishedText` | packages/channel-runtime/src/message-formatter.ts:42-53 | a polished reply is framed by ink and has no non-breaking space, no line that ends in white space and no three line breaks in a row |
| `MessagePolish.PolishFixesExactly` | packages/channel-runtime/src/message-formatter.ts:42-53 | polishing leaves exactly the empty and the polished texts alone |
| `MessagePolish.PolishIsIdempotent` | packages/channel-runtime/src/message-formatter.ts:42-53 | polishing twice is polishing once |
| `MessagePolish.InkIsKept` | packages/channel-runtime/src/message-formatter.ts:42-53 | polishing changes white space only |
| `MessagePolish.PolishedIsTidy` | packages/channel-runtime/src/message-formatter.ts:42-59 | what is polished meets what splitting relies on |
| `MessageLines.PolishKeepsLines` | packages/channel-runtime/src/message-formatter.ts:42-53 | what polishing does to white space: the lines from the first to the last with ink, of each run of lines without ink one, each up to its last ink unit for unit with spaces for non-breaking ones, the first from its first ink |
| `MessageLines.PolishesToOne` | packages/channel-runtime/src/message-formatter.ts:42-53 | this determines the polished text |
| `Texts.LinesExactly` | packages/channel-runtime/src/message-formatter.ts:49-51 | a text has exactly the lines that it joins |
| `MessageReply.ReplyMessages` | packages/channel-runtime/src/core.ts:1141-1150 | what is sent of any reply: nothing if it has no ink, else the one cutting of the text it is polished to; the messages carry exactly the reply's ink |
| `PayloadStamp.PayloadFiles.Visit` | packages/opencorvus/script/build-overlay-payload-stamp.ts:11-24 | the recursion appends all files below a directory in the order of their paths, but for the stamp |
| `PayloadStamp.ListingsDoNotMatter` | packages/opencorvus/script/build-overlay-payload-stamp.ts:12-13 | the files and their order are determined by the tree, not by any directory listing |
| `PayloadStamp.ReadAhead.HashFiles` | packages/opencorvus/script/build-overlay-payload-stamp.ts:30-73 | reading ahead gives the stream and the byte count of reading one file after the other, fails exactly when a file cannot be read, starts each read once and in order, and has at most `concurrency` under way |
| `PayloadStamp.ReadAhead.Next` | packages/opencorvus/script/build-overlay-payload-stamp.ts:60-62 | awaiting a read and starting the one that enters the window keeps the window |
| `PayloadStamp.ReadAhead.Schedule` | packages/opencorvus/script/build-overlay-payload-stamp.ts:43-54 | a read is started, past the last file none |
| `PayloadStamp.Update` | packages/opencorvus/script/build-overlay-payload-stamp.ts:65-72 | the eight updates for a file add its frame to the stream |
| `PayloadStamp.FrameIsPrefixFree` | packages/opencorvus/script/build-overlay-payload-stamp.ts:65-72 | a frame says where it ends: two continued frames are equal only if the entries and the continuations are |
| `PayloadStamp.StreamIsInjective` | packages/opencorvus/script/build-overlay-payload-stamp.ts:58-73 | different lists of entries with NUL-free names have different streams |
| `PayloadStamp.HashPayload` | packages/opencorvus/script/build-overlay-payload-stamp.ts:8-73 | collecting and hashing compose: the stream, the file count and the byte count are those of the tree's files in their order, and it fails exactly when one of these cannot be read |
| `PayloadStamp.StampIsExact` | packages/opencorvus/script/build-overlay-payload-stamp.ts:8-73 | two trees have the same stream if and only if they have the same files with the same executable bits and contents, but for the stamp, whatever their listings |
| `PayloadStamp.SameStampExactly` | packages/opencorvus/script/build-overlay-payload-stamp.ts:8-88 | so two stamps agree on the stream if and only if their trees have the same payload, and then on the counts too |
| `GreedyMatch.ExactMultisetMatch` | packages/opencorvus/script/advanced-requirements-grill-e2e.ts:134-143 | the loop that removes first fits computes the greedy match |
| `GreedyMatch.GreedyPairs` | packages/opencorvus/script/advanced-requirements-grill-e2e.ts:134-143 | a match is a bijection of fitting pairs, for any relation |
| `GreedyMatch.GreedyIsCompleteExactly` | packages/opencorvus/script/advanced-requirements-grill-e2e.ts:134-143 | the match is found whenever there is a bijection, for all lists, if and only if the relation is rectangular |
| `GreedyMatch.OrderDoesNotMatter` | packages/opencorvus/script/advanced-requirements-grill-e2e.ts:134-143 | for an equivalence, rearranging either list changes nothing |
| `GreedyMatch.GreedyMisses` | packages/opencorvus/script/advanced-requirements-grill-e2e.ts:134-143 | for any other relation, the lists on which it fails |
| `GreedyMatch.RegistrationsMatchExactly` | packages/opencorvus/script/advanced-requirements-grill-e2e.ts:126-132 | registered requirements and decisions match exactly when they can be paired with equal fields |

## Left out

- HTTP, `gh`, Git processes, the file system and `fetch` are replaced by an abstract store whose requests succeed, fail, or take effect without a usable response.
- Publication assumes that the inventory keeps its records, that bodies do not change, and that, once it fills a page, a record becomes visible in front of the visible records of its tag; owner receipts are the list that the pattern finds in a body, and malformed JSON is a failed page read.
- RuntimePlacement.Placer.CopyRuntimePackageTree: is about runs that end, within a depth that is not part of the result; `GroundedRunsEnd` gives one, and `ConflictCycleRun` shows why there is none for every graph. Lower-casing of keys is not modelled, scoped names are single path components, and the copy through a Node child process (lines 42-58) puts the same source at the destination.
- PackageCopy.CollectPackageEntries: trees are finite, so links that form a cycle are not part of the model, and the order of `localeCompare` is any listing order.
- DependencyClosure.Validator.ValidateModules: which packages are returned, not the final sort by source; which of the three errors a failure reports is as in the code but not part of the contract.
- DependencyClosure.ExternalDependencyDirectories: where a name is found is a function of the name and the directories found before; optional and ordinary dependencies are one list.
- GitBlobs.ReadGitBlobs: the size query is answered from the same object store as the contents; `Number` is a parameter that reads decimal numerals back.
- SecretScan.Scan: patterns, the ignore directive, the file filter and the decoding into lines are parameters, a pattern has no memory of earlier lines, keys are tuples instead of NUL-joined strings, and the size of a given file is that of its contents.
- GitIndex.ParseGitIndexEntries: paths and object ids stay bytes; their UTF-8 and hexadecimal texts are not modelled.
- ReleaseVersion.NormalizationIsExact: the input is trimmed already, and is given as the bytes of its text.
- ChannelSettlement.DesktopChannel.Settle: reading a manifest's version is a parameter; an upload with `--clobber` is a deletion and a write, with nothing of other calls in between; concurrent settlements appear only in the overlap lemmas.
- ChannelStartup.ReceiptCoversAll: the errors that `start` throws for pending clean-ups or no adapter are not modelled, nor is the roll-back.
- PromptFence.CoveredExactly: aborting is recorded on the prompt; what the server does with it, message texts, mirrors and notices are not modelled.
- SessionIndexes.FindIsExact: `findSession` (lines 16-24), which returns the first of the sessions found, is not modelled by itself.
- LockedClaim.OneValueForAll: the lock excludes mutually; stale locks, time-outs and clock skew are not part of the model, nor is anyone else writing the file.
- BundledEnv.BundledEnvironment.ApplyBundledEnv: `Number` of the TTL setting is a parameter, times are real numbers, and the names that `process.env` inherits are a parameter.
- MessageSplit.SplitText: needs a limit of at least 1 for a text longer than the limit, as the source's loop does; for a text that was not polished only the length of the messages is stated, as the source then drops some line breaks.
- PayloadStamp.ReadAhead.HashFiles: each file reads as one value during the run; SHA-256 and the JSON of the stamp are not modelled, and names are their UTF-8 bytes with any total order.
- GreedyMatch.RegistrationsMatchExactly: field values are texts, for which `===` is equality.
- The startup order of servers and event subscriptions, speech to text, vision, screenshots, mirrors, tool status texts and text buffers: no state that the properties depend on.
- Platform adapters, the adapter registry, the channel catalogue, packaging matrices, signing and installers: static tables and plumbing.
