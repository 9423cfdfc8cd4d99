# Verified models of Mindwtr's cloud server, release scripts and MCP bootstrap

Dafny models of the parts of Mindwtr where a wrong order of steps loses data or breaks a promise, with
proofs of what they keep. `dafny verify dfyconfig.toml` checks everything.

**Storage that survives crashes** (`Volume`, `SystemCalls`, `Publication`, `DurablePublication`, `Removal`).
A disk has a visible layer and a durable one. A directory entry that changed since the last fsync of its
directory can be found after a crash with any value it has had since; bytes that were not fsynced can be
found as anything. Every system call can succeed, fail with or without its effect, or be cut by a crash.
`faults` counts everything that went wrong from outside, so each contract says what holds in every run
and, beyond that, the exact outcome when nothing went wrong; `stuck` counts, per path, the removals that
left what they were meant to remove, and `strays` the root checks that threw with a stage at hand and no handler
around them. Only the system calls write any of them. On this disk: staged publication, durable
removal, creation of directories.

**Attachments** (`AttachmentKeys`, `Attachments`, `AttachmentGc`, `ProjectPurge`). Key normalization, the keys
a document references, the orphan collector over a finite tree of any depth, and the pending deletions of a
project purge.

**Voice capture** (`Capture`, `CaptureGc`). The audio is published before the document that names it. The
invariant speaks of every document that a crash may leave, not only of the visible one.

**Protocols as step systems or interfering objects** (`WriteLock`, `NamespaceCap`, `ConditionalPatch`,
`Bootstrap`). Queues and shard locks with aborts and dying processes; admission of namespaces; If-Match
edits with everybody else at work between two requests; publication of a database by link.

**Stateful structures against a simple specification** (`RateLimiter`, `DataCache`).

**Play releases** (`PlayConsole`, `ReleasePlan`, `RolloutControl`, `Publishing`). Edit transactions whose
requests can be refused or lost, and the state of the production track over whole runs.

**Closed algorithms** (`Validation`, `AuditGraph`, `Jpeg`). `JsMap`, `Text` and `Wrappers` are helpers.

## Where the code does less than its comments or design say

Each is proved, by a concrete case or an exact clause of a contract, with the condition under which the
promise does hold.

- A collector pass that reports no error leaves old unreferenced files whose names do not normalize
  (`AttachmentGc.OrphanIsGoneIffItsNameNormalizes`, `AttachmentGc.UnnameableFileIsNeverCollected`).
- A captured key of sixteen path segments behind `attachments/` is stored but not kept by the collector;
  captured names have one segment (`AttachmentKeys.FullDepthKeyIsStoredButNotKept`,
  `AttachmentKeys.StoredKeyIsKeptIffKeyNormalizes`).
- The answer to a replayed capture can be taken back by a crash, when the first attempt renamed the document
  and failed to fsync its directory (`Capture.ReplayedCaptureCanBeLost`). Where no other possible document has
  the capture, it is safe exactly when the document's entry is settled (`Capture.ReplayIsDurableIffSettled`).
- A collector pass between such a failed write and a crash can remove audio that the document a crash brings
  back still names (`CaptureGc.CollectionCanOutrunTheDocument`). A finished pass keeps the captures exactly when
  every one that a possible document names is kept by the document that was read, or is still young
  (`CaptureGc.CleanCollectionKeepsCapturesIff`).
- `loadAppData` caches an unreadable file as an empty document, which `loadAppDataForWrite` then serves,
  although its comment says that a hit proves the file parsed (`DataCache.UnreadableBecomesBlank`). Without
  faults, the load of a version that was never misread is wrong exactly when it is a hit on bytes that do not
  decode (`DataCache.Cache.LoadForWrite`). Nothing but tests calls `loadAppData`.
- An exception in a call is followed by an attempt to discard its edit exactly when the edit was opened with a
  usable id: an edit whose answer was lost, or whose id was unusable, stays (`RolloutControl.ControlRollout`).
- `durablyPublishFile` removes another writer's file at the path of its stage. Where its directory exists, that
  file is lost exactly when it was there before the call and no removal failed
  (`DurablePublication.DurablyPublishFile`). That is for callers that pass a stage name; the default one is
  random, and no caller in the server passes any.
- `writeData` leaves its stage behind when the root check right after opening it throws, because that check is
  before the handler that abandons the stage. With no failed removal, a new file is at the stage's path exactly
  then (`Publication.WriteData`).
- The limiter takes the empty key for "no key to evict". A new key outgrows a table within its bound exactly
  when the table is full, no window has expired and the empty key is the one to evict
  (`RateLimiter.RateLimiter.Check`, `RateLimiter.EmptyKeyOverflows`); once its window expires, pruning takes it
  and the bound is back. The server's own callers never pass the empty key.
- A limit of zero still admits the first hit of a window. For a key that keeps its limit and is not evicted,
  twice the limit bounds every stretch as long as the window exactly when the limit is positive, the window
  empty, or the key was never seen (`RateLimiter.TwiceTheLimitExactlyUnlessZero`). The server's configuration
  admits no limit below one.
- The namespace count does not see a namespace whose only name is of the wrong kind. Given enough new keys, some
  run exceeds the cap and what was there exactly when the cap is positive, a key had a name of the wrong kind at
  the start, and the cap and such keys together outnumber what was there (`NamespaceCap.CapIsExceededIffOddKeys`,
  whose runs may crash; `NamespaceCap.CapIsReached` has one without a crash).

## Assumptions

SHA-256 is injective. The limiter's clock never goes back. Every rename gives a file a fresh stat identity,
and nothing is written between a read and its stat. Generated ids, attachment names and stage names are new,
and stage names start with a dot. A failed `open` creates nothing. The attachment tree has no symbolic links.
Finalizing a document drops no task, repeats none, and invents neither task nor reference. Play version codes are used
once, a track update merges by version codes, a refused request did nothing, and an edit sees no other commit
between opening and committing. Percentages are reals. Namespaces disappear only when the machine goes down.

## Model

| member | source | states |
|---|---|---|
| Volumes.DurableFileIffEveryCrashKeepsIt | apps/cloud/src/server-storage.ts:241-260 | a file is durable exactly when its directory is and every crash image shows a reader those bytes: the meaning of the fsync discipline |
| SystemCalls.Volume.Attempt | apps/cloud/src/server-storage.ts:95-103 | one call is done, fails with or without its effect, or is cut by a crash before or after it |
| SystemCalls.Volume.Rename | apps/cloud/src/server-storage.ts:739-740 | a rename moves one entry; before the directory is fsynced a crash may show the old or new value at both paths |
| SystemCalls.Volume.Remove | apps/cloud/src/server-storage.ts:297-305 | unlink and rmdir: what they refuse, that ENOENT means the entry is gone, and that a failure that leaves the entry is on record for its path |
| Publication.EnsureDirectoryWithinRoot | apps/cloud/src/server-storage.ts:327-366 | with create, success makes the whole way down durable and changes nothing off it; without create nothing changes; false only outside the root or when a non-directory is in the way |
| Publication.Prepare | apps/cloud/src/server-storage.ts:589-674 | a handed-out stage is a fresh inode possible nowhere else; a call that hands none out and leaves a new file at the stage's path had a removal of that path fail |
| Publication.Publish | apps/cloud/src/server-storage.ts:719-744 | atomic (the staged inode is possible at the destination only with complete synced bytes), durable on true, nothing changed on false, true when nothing failed |
| Publication.Abandon | apps/cloud/src/server-storage.ts:696-717 | a stage that is still the staged inode afterwards had its look or unlink fail; nothing else changes |
| Publication.PublishFile | apps/cloud/src/server-capture.ts:520-547 | the composed publication of a captured audio file: frame, atomicity, durability, and success whenever nothing failed or stood in the way; on every exit a new file at the stage's path means that a removal of that path failed |
| Publication.PublishPrepared | apps/cloud/src/server-capture.ts:536-545 | the try and the finally of a publication: every exit abandons the stage, and the destination holds what it held or the complete new bytes |
| Publication.PublicationIsAtomic | apps/cloud/src/server-storage.ts:719-744 | after a crash at any step a reader of the destination finds what it could have found before, or exactly the new bytes |
| Publication.WriteData | apps/cloud/src/server-storage.ts:813-853 | a document write that returns is durable; one that throws leaves the old or the new document, and no third; a new file at the stage's path means that its removal failed or that the root check before the handler threw, and without a failed removal exactly the latter |
| DurablePublication.DurablyPublishFile | apps/cloud/src/server-storage.ts:505-569 | atomic and durable publication in an existing directory; false leaves the destination alone; on every exit something at the stage's path means that its removal failed; somebody else's file there makes the call throw, and is lost exactly when no removal failed |
| Removal.DurablyRemoveEntry | apps/cloud/src/server-storage.ts:281-309 | a normal return with the parent synced makes absence durable, even after an earlier attempt failed its fsync; exact result when nothing fails |
| Removal.RemoveStep | apps/cloud/src/server-storage.ts:293-307 | removing a file or an empty directory keeps everything durable elsewhere, and keeps everything else reachable |
| AttachmentKeys.NormalizeIsIdempotent | apps/cloud/src/server-storage.ts:437-450 | a normalized path is canonical, and normalizing it again gives the same path |
| AttachmentKeys.NormalizedStaysUnderRoot | apps/cloud/src/server-storage.ts:460-484 | resolving a normalized path against a root stays strictly below it, by plain concatenation |
| AttachmentKeys.StoredKeyIsKeptIffKeyNormalizes | apps/cloud/src/server-attachments.ts:148-157 | the path where a key's bytes are stored is in the collector's keep set if and only if the key itself normalizes |
| AttachmentKeys.CapturedKeyLinesUp | apps/cloud/src/server-capture.ts:509-516 | a captured key is stored, served and kept under one and the same path |
| AttachmentKeys.FullDepthKeyIsStoredButNotKept | apps/cloud/src/server-attachments.ts:148-157 | a prefixed key at the segment limit is stored, yet missing from the keep set |
| AttachmentKeys.FullDepthKeyExists | apps/cloud/src/server-storage.ts:444-445 | such a key exists |
| AttachmentKeys.StoredFileHasItsKey | apps/cloud/src/server-attachments.ts:198-199 | a file found at the path of a stored key is looked up under that key |
| Attachments.CollectReferenced | apps/cloud/src/server-attachments.ts:100-117 | the normalized keys of live attachments of owners that are not purged, and no others |
| Attachments.CollectKept | apps/cloud/src/server-attachments.ts:148-157 | the keep set is that of exactly the live keys, prefixed keys under both layouts |
| AttachmentGc.Tally.Record | apps/cloud/src/server-attachments.ts:197-218 | each visited file gets one fate: the counters are the sizes of disjoint sets, they add up, and every failed removal has its error |
| AttachmentGc.ReadDirectory | apps/cloud/src/server-attachments.ts:165 | every name of the directory, each once |
| AttachmentGc.Judge | apps/cloud/src/server-attachments.ts:197-218 | a file is kept exactly when it is referenced, young or unnameable; otherwise removed when nothing fails |
| AttachmentGc.Visit | apps/cloud/src/server-attachments.ts:164-233 | over any finite tree: only doomed files and emptied directories go, whatever fails or crashes; the books hold live files of this tree with their true fate, and every file not in them lies at or below a reported path; a visit with no new error leaves nothing doomed and a durable tree equal to the visible one |
| AttachmentGc.GarbageCollect | apps/cloud/src/server-attachments.ts:119-247 | the whole request, whatever fails: scanned is kept, deleted, failed and vanished together over sets of live files of this tree, kept ones are not doomed and the others are, deleted and vanished ones are gone, what went is booked, a failed removal is named among the errors, and unvisited files lie at or below a reported path; exactness and durability when no error is reported; exact counters when nothing fails |
| AttachmentGc.ReferencedIsKept | apps/cloud/src/server-attachments.ts:148-157 | no path that a live attachment resolves to is among what a pass may remove |
| AttachmentGc.ReferencedBytesSurvive | apps/cloud/src/server-attachments.ts:119-247 | durable bytes that a live attachment names are durable after any pass, finished or cut |
| AttachmentGc.OrphanIsGoneIffItsNameNormalizes | apps/cloud/src/server-attachments.ts:198-209 | after an error-free pass an old orphan is gone if and only if its name normalizes |
| AttachmentGc.UnnameableFileIsNeverCollected | apps/cloud/src/server-attachments.ts:198-204 | an old unreferenced file named "a b" is outside what a pass may remove, in a tree that counts as clean |
| ProjectPurge.CollectRetained | apps/cloud/src/server-attachments.ts:43-60 | exactly the keys of file attachments of other projects and of tasks, purged owners excepted |
| ProjectPurge.CollectPending | apps/cloud/src/server-attachments.ts:62-76 | each key of the project that is not retained, once |
| ProjectPurge.PendingIsUnreferenced | apps/cloud/src/server.ts:957-975 | no pending deletion is a key that a live attachment still names once the project is purged |
| ProjectPurge.AppendPending | apps/cloud/src/server-attachments.ts:78-98 | the loops over an insertion-ordered map compute the specified ledger |
| ProjectPurge.AppendIsAnIdempotentUnion | apps/cloud/src/server-attachments.ts:78-98 | the result has the union of the keys, each once, and appending again changes nothing |
| Capture.AudioIsServedWhereItIsStored | apps/cloud/src/server-capture.ts:509-516 | a captured name is stored where the GET route reads |
| Capture.StoreAudio | apps/cloud/src/server-capture.ts:520-547 | true makes the audio durable at that path; no document becomes possible; the invariant holds at every exit |
| Capture.WriteDocument | apps/cloud/src/server-capture.ts:415-418 | only this document becomes possible; on return it is what every crash leaves; a failed write leaves no hidden new document |
| Capture.RemoveOrphanedAudio | apps/cloud/src/server-capture.ts:444-507 | the audio goes only when no possible document names it, and then durably if nothing fails; every exit keeps the invariant |
| Capture.LockedCapture | apps/cloud/src/server-capture.ts:391-439 | the locked section: invariant at every exit, at most the finalized visible document plus this task becomes possible, one that throws hides nothing new from readers, retries of a found capture change nothing, and the exact answer when nothing fails |
| Capture.AdvancesKeeps | apps/cloud/src/server-capture.ts:391-439 | a capture loses no task that every crash kept, and brings in no id and no key but its own |
| Capture.Run | apps/cloud/src/server-capture.ts:391-507 | over every run with failures and crashes anywhere: each possible document that names the audio of an arrival has exactly its bytes durable at its path, as for the captures before the run; no task twice, and every task that a 201 acknowledged |
| Capture.RecordedHoldsEachArrival | apps/cloud/src/server-capture.ts:509-516 | what the invariant speaks of after a run: each arrival's name stands for its bytes, earlier names for theirs, and no other name is there |
| Capture.ReplayIsDurableIffSettled | apps/cloud/src/server-capture.ts:396-404 | where only the visible document has the task, every crash keeps it if and only if no failed write of the document is pending |
| Capture.FirstAttemptIsOnlyVisible | apps/cloud/src/server-capture.ts:396-418 | after a first attempt that threw, no possible document but the visible one has the capture |
| Capture.ReplayedCaptureCanBeLost | apps/cloud/src/server-capture.ts:396-404 | a disk left by rename and failed fsync where the replay answers 200, the task is not safe, and a crash takes the capture back |
| CaptureGc.CollectionKeepsCaptures | apps/cloud/src/server-attachments.ts:119-247 | however it ends, a pass keeps the capture invariant when each capture that a possible document names is kept by its document or still young |
| CaptureGc.CleanCollectionKeepsCapturesIff | apps/cloud/src/server-attachments.ts:119-247 | a pass that finished without an error keeps the invariant if and only if that holds |
| CaptureGc.LeavesWhatIsNotDoomed | apps/cloud/src/server-attachments.ts:198-209 | recorded audio in place is doomed exactly when the keep set lacks its name and it is older than the grace period |
| CaptureGc.SettledDocumentIsEnough | apps/cloud/src/server-attachments.ts:250-300 | with no failed document write pending, it is enough that the document read keeps its own captures live |
| CaptureGc.CollectionCanOutrunTheDocument | apps/cloud/src/server-attachments.ts:119-247 | with one pending, a correct pass can break the invariant, and the condition fails |
| WriteLock.OneRunsPerKey | apps/cloud/src/server-storage.ts:893-962 | in every reachable state at most one callback per key runs, across processes that share a data directory |
| WriteLock.StartsInArrivalOrder | apps/cloud/src/server-storage.ts:1140-1174 | callbacks of one queue start in arrival order, each at most once |
| WriteLock.RejectedNeverStarts | apps/cloud/src/server-storage.ts:1143-1160 | an operation whose caller the queue rejected on abort never starts, however the run goes on |
| WriteLock.KeyLeavesWhenDrained | apps/cloud/src/server-storage.ts:1162-1168 | a key is missing from the map only when nothing on it is queued, polling or running |
| WriteLock.Drains | apps/cloud/src/server-storage.ts:1154-1174 | from every state of the invariant a schedule empties the map and runs every waiting operation that was not aborted: failures, aborts and deaths in front block nobody |
| WriteLock.StepKeepsInv | apps/cloud/src/server-storage.ts:1140-1174 | each arrival, abort, turn, poll, settlement, cleanup and death keeps the invariant of queues, map, locks and start order |
| NamespaceCap.CountTokenNamespaces | apps/cloud/src/server-request.ts:21-32 | the loop counts the keys that have a json file or a directory |
| NamespaceCap.CountIsExactWhenTidy | apps/cloud/src/server-request.ts:14-32 | the count never exceeds the namespaces that exist, and equals them exactly when each has a name of the counted kind; without names of the wrong kind it does |
| NamespaceCap.CapHolds | apps/cloud/src/server-request.ts:132-156 | over all interleavings of requests, routes, failures and crashes the namespaces never outnumber what was there, or the cap plus the keys with a name of the wrong kind at the start |
| NamespaceCap.CapIsExceededIffOddKeys | apps/cloud/src/server-request.ts:17-32 | given enough new keys, some run ends with more namespaces than the cap and than there were if and only if the cap is positive, there are odd keys, and both together outnumber what was there |
| NamespaceCap.CapIsExceeded | apps/cloud/src/server-request.ts:132-156 | for every directory, positive cap and as many new keys, a run ends with exactly the cap and the odd keys together |
| NamespaceCap.CapIsReached | apps/cloud/src/server-request.ts:132-156 | without a crash, a run fills the cap and ends with the namespaces that the count does not see on top |
| NamespaceCap.OddKeyAddsRoom | apps/cloud/src/server-request.ts:17-32 | an instance: from a directory where a document should be, two namespaces under a cap of one |
| NamespaceCap.StepKeepsInv | apps/cloud/src/server-request.ts:132-156 | each arrival, look, lock, reservation, write, end and crash keeps the room that an approved request was promised |
| NamespaceCap.WithoutTheRecheckTheCapFails | apps/cloud/src/server-request.ts:138-147 | the same system with the cap looked up before the lock instead of under it: a run admits two namespaces under a cap of one |
| ConditionalPatch.GeneratedTagAcceptsItselfOnly | apps/cloud/src/server.ts:438-458 | a generated tag is strong as the client demands, and as an If-Match header accepts itself and nothing else |
| ConditionalPatch.Server.Patch | apps/cloud/src/server.ts:565-595 | a conditional patch commits only on the very version that was read, in its caller's name, and keeps the attachments equal to the fold of the commit log; the reply tells of a commit, or of a change, truly |
| ConditionalPatch.ReadForPatch | apps/mcp-server/src/cloud-service.ts:196-216 | a read hands out the current entity with its strong tag, on record for this caller, or fails |
| ConditionalPatch.PatchLinks | apps/mcp-server/src/cloud-service.ts:218-259 | with everybody else at work in between, as the server's log and request counts show it: at most three reads and three patches, at most one commit, of these links on a version this call was given; success is that commit; a conflict sent all three, committed nothing and saw three commits by others; nothing else stops the call but a failed request |
| Bootstrap.CanonicalIsComplete | apps/mcp-server/src/db.ts:110-154 | whatever interleaves or is killed, the canonical path names nothing or one complete database |
| Bootstrap.NeverOverwritten | apps/mcp-server/src/db.ts:143-149 | once present it is never replaced or written by a bootstrap |
| Bootstrap.OneCreator | apps/mcp-server/src/db.ts:188-206 | at most one caller reports created, and the canonical database is the one it built |
| Bootstrap.ReportsAreTrue | apps/mcp-server/src/db-write-lock.ts:46-81 | a caller that returns finds a database; at most one holds the lock and builds |
| Bootstrap.StepKeepsInv | apps/mcp-server/src/db.ts:110-154 | every step of every process, and of an outside creator, keeps the invariant and the canonical database |
| RateLimiter.RateLimiter.Prune | apps/cloud/src/server-rate-limit.ts:34-40 | exactly the expired windows go, nothing changes when there are none, and the specification's answers do not change |
| RateLimiter.RateLimiter.FindLeastRecentlyUsed | apps/cloud/src/server-rate-limit.ts:42-57 | the first, in insertion order, of the oldest by last sight, then by reset |
| RateLimiter.RateLimiter.EnsureCapacity | apps/cloud/src/server-rate-limit.ts:59-66 | evicts only live windows, out of at least maxKeys, only older ones than those that stay, and no more than one slot needs; at a table of maxKeys it makes no room exactly when nothing has expired and the empty key is the one to evict |
| RateLimiter.RateLimiter.Check | apps/cloud/src/server-rate-limit.ts:68-87 | the answer is that of a limiter that forgets nothing but evicted keys; keys are evicted only for a new key, out of at least maxKeys live ones, older than those that stay, and no more than one slot needs; the table stays within maxKeys, for a new key exactly unless it is full, nothing has expired and the empty key is the one to evict |
| RateLimiter.AnswerReachesTheReset | apps/cloud/src/server-rate-limit.ts:74-80 | Retry-After is the least whole number of seconds that reaches the end of the window |
| RateLimiter.AtMostTwiceTheLimit | apps/cloud/src/server-rate-limit.ts:68-87 | in a log in time order, any half-open stretch as long as the window admits at most twice the limit of a key that keeps it and is not evicted |
| RateLimiter.TwiceTheLimitExactlyUnlessZero | apps/cloud/src/server-rate-limit.ts:68-87 | twice the limit itself bounds such a stretch if and only if the limit is positive, the window empty, or the key never seen |
| RateLimiter.LetsThroughTheAdmitted | apps/cloud/src/server-rate-limit.ts:68-87 | the requests that get no 429 in a stretch are as many as the specification admits there |
| RateLimiter.Run | apps/cloud/src/server-rate-limit.ts:23-90 | over every run of requests and cleanups: the answers are those of the specification, at most twice the limit gets through, each eviction is of a live key out of at least maxKeys and leaves all but one slot, the table is bounded without empty keys, and with no more keys than it holds nothing is ever evicted |
| RateLimiter.EmptyKeyOverflows | apps/cloud/src/server-rate-limit.ts:61-65 | an instance: a table of one slot with the empty key in it takes a second |
| DataCache.PromoteAndTrim | apps/cloud/src/server-data-cache.ts:72-83 | the entry becomes the most recent, and only the least recent of the others can go, at the bound |
| DataCache.Cache.LoadForWrite | apps/cloud/src/server-data-cache.ts:150-167 | without faults, for a version never misread, it agrees with the uncached loader exactly unless it hits bytes that do not decode; in every case it gives the uncached answer, a refusal that a failed read explains, or what the version was remembered as; the document returned is nobody else's |
| DataCache.Cache.Load | apps/cloud/src/server-data-cache.ts:126-140 | the uncached answer, a blank for what it could not read, or what the version was remembered as; only a version it could not read is remembered as blank |
| DataCache.Cache.Write | apps/cloud/src/server-data-cache.ts:197-206 | success publishes, caches and trusts this version; failure forgets the path and trusts nothing new |
| DataCache.Cache.IsTrusted | apps/cloud/src/server-data-cache.ts:85-95 | trusted exactly when the current version is the remembered one, and then only if it was validated or published |
| DataCache.Run | apps/cloud/src/server-data-cache.ts:63-206 | over every run of loads of both kinds, writes, validations, questions of trust and writes by others, with callers changing what they were given: each load gives what decoding the bytes at that moment gives, a blank where this version was opened before and not read, or the value this version was written from; trust means that this version was validated or published before; bounds hold |
| DataCache.UnreadableBecomesBlank | apps/cloud/src/server-data-cache.ts:126-167 | an unreadable file loaded by loadAppData is then served as an empty document for writing |
| PlayConsole.MergedReplaces | scripts/ci/google-play-edit.py:730-735 | a track update with the codes of a release replaces that release and no other |
| RolloutControl.FindTarget | scripts/ci/google-play-edit.py:531-619 | a target is found exactly when the asked version, or the newest, is the sole newest release |
| RolloutControl.ControlRollout | scripts/ci/google-play-edit.py:482-756 | a return sent exactly one terminal request and tells whether production moved; an exception sent at most one commit and then a discard exactly when the edit was opened with a usable id; only the sole newest release is moved; without faults exactly the answerable calls return |
| RolloutControl.MutationKeepsSingleRollout | scripts/ci/google-play-edit.py:693-728 | moving the sole newest release keeps one rollout at most, with every halted code below it |
| RolloutControl.MutationNeverShrinks | scripts/ci/google-play-edit.py:693-728 | the share of users never goes down, codes and other fields stay, and resuming undoes a halt exactly |
| RolloutControl.AutoCompletes | scripts/ci/google-play-edit.py:672-691 | from a percentage on the schedule auto completes in exactly the steps left, in progress until then, through 20 and 50 percent, and stops |
| RolloutControl.AutoCountsDown | scripts/ci/google-play-edit.py:672-691 | each automatic step lowers the measure by one, and only the last completes |
| ReleasePlan.ResolveTracks | scripts/ci/android-play-release-plan.py:42-77 | valid, distinct tracks; production alone, or expanded to the stable three |
| ReleasePlan.BuildPlan | scripts/ci/android-play-release-plan.py:111-183 | production only in a stable plan, once, in progress exactly when staged; and when there is a plan at all |
| Publishing.ValidateStaged | scripts/ci/google-play-edit.py:759-819 | passes exactly when every version code on production is valid and older, and every release finished or halted |
| Publishing.PublishRelease | scripts/ci/google-play-edit.py:822-920 | the same lifecycle, tied to the reply that opened the edit; production gains exactly the planned release; without faults exactly the publishable plans go out |
| Publishing.PublishingKeepsSingleRollout | scripts/ci/google-play-edit.py:833-845 | a planned publication keeps one rollout at most |
| Publishing.ReadMaxVersionCode | scripts/ci/google-play-edit.py:411-448 | the highest code over the releases of all tracks as users get them, in one edit that is discarded once when its id is usable; without faults it returns exactly when every code is valid |
| Publishing.HaltThenResumeRestores | scripts/ci/google-play-edit.py:708-719 | halting and resuming a version puts production back exactly |
| Publishing.Run | scripts/ci/google-play-edit.py:482-920 | over every run of publications and actions with refused or lost requests: at most one rollout in progress, halted codes below it, and no release loses users |
| Validation.ValidateReferences | apps/cloud/src/server-validation.ts:280-420 | accepts exactly the documents whose live sections, tasks and projects refer to live things |
| Validation.AcceptedTaskHasItsSection | apps/cloud/src/server-validation.ts:313-341 | in an accepted document the section of a live task is unique, of the same live project, and live or archived with it |
| AuditGraph.ReachesIffPath | scripts/ci/validate-mobile-npm-audit.js:71-80 | the search with a copied path set ends, and is true exactly when a directed path to image-size exists |
| AuditGraph.ValidateMobileAuditReport | scripts/ci/validate-mobile-npm-audit.js:26-90 | accepts exactly the well-formed reports with the expected advisories, all on image-size, and everything else caused by it |
| Jpeg.JpegDimensions | scripts/ci/prepare-google-play-listing-assets.py:77-132 | the loops stay in bounds, end, and compute the specified walk |
| Jpeg.WalkInvertsStream | scripts/ci/prepare-google-play-listing-assets.py:97-132 | any skippable segments, standalone markers and fill before a frame header are skipped and its dimensions come out |
| Jpeg.WalkOnlyReadsStreams | scripts/ci/prepare-google-play-listing-assets.py:97-132 | dimensions come out of nothing but such a stream |
| Jpeg.DimensionsIffStream | scripts/ci/prepare-google-play-listing-assets.py:77-132 | both directions for whole files |
| Jpeg.SignaturesExclude | scripts/ci/prepare-google-play-listing-assets.py:135-137 | no file is both a PNG with dimensions and a JPEG |

## Left out

- Merging, recurrence, quick-add and lifecycle rules of the core package: finalizing a document and applying links are parameters.
- HTTP, CORS, logging, body parsing, token hashing and the SQLite engine: locks are exclusive, a checkpoint completes.
- Symbolic links, realpath and device identities: a replaced root, parent or stage is one more thing that can go wrong.
- AttachmentGc.GarbageCollect: the clock is read once per pass, error entries hold the path on disk and the code instead of one text, and an unlocked upload next to a pass is not modelled.
- Publication.PublishFile: the checks between the parts of a publication are one outcome each, JSON encoding always succeeds, and what the upload and document routes do between preparing a stage and publishing it, inside the same handler, is left out.
- Capture.Run: runs of captures only; other writers of the same document are not part of these runs, and the document is read from disk rather than through the cache.
- WriteLock.Drains: shows that a good schedule always exists; fairness of the event loop and the polling times are not modelled.
- ConditionalPatch.PatchLinks: one entity, and the effect of the static part of a patch is any other field value.
- Bootstrap.CanonicalIsComplete: later writes by programs that open the database are not modelled.
- DataCache.Cache.Load: metadata responses and their cache are left out.
- RolloutControl.ControlRollout: interrupts that are not exceptions of the usual kind, and the texts of errors.
- Publishing.PublishRelease: validation of the plan file, and which listing texts and images are sent.
- Validation.ValidateReferences: shape checks, limits, people and settings; only ASCII white space is trimmed.
- AuditGraph.ValidateMobileAuditReport: the advisory id is taken from its URL beforehand, and sorted lists are compared as multisets.
- The user interface, build configuration, text scans and metadata validators.
