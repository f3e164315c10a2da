# Verified models of MacLoader's protocols and algorithms

MacLoader prepares an OpenCore installation of macOS: it resolves and caches dependency archives,
acquires Apple's Recovery image, keeps configurations and tools on disk, and writes installation
media. This project models the parts of it that carry state between processes, crashes or hostile
inputs, and proves what they promise. `dafny verify dfyconfig.toml` checks the whole project.

How the code is rendered:

- Code that loops over files, handles or tables is a method or a class with the same fields, proved
  against a specification function or predicate. Places where the outside world decides (an I/O error,
  a cancellation, a crash, a server's answer, a device list) are parameters or arbitrary choices, so
  each contract holds for all of them.
- Protocols between processes (`LockProtocol`, `CacheProtocol`, `WaitGraph`, `PublishedFiles`, and the
  runs in `ConfigurationStore`) are step machines: a `Step`, `Enabled`, `Apply`, `Run`,
  an invariant that every step keeps, and results about every run. Any process may stop between any
  two steps.
- SHA-256 is an abstract incremental hash (`Hashing`): a state, `update`, `finish`, where finishing
  gives the hash of everything fed in. Injectivity is a stated hypothesis of the lemmas that need it.
  The RSA check (EMSA-PKCS1-v1_5, section 9.2 of RFC 8017) is an abstract predicate.

| file | content |
|---|---|
| `Graph`, `GraphOrder`, `Ordering` | dependency closure and topological sort, and which order and which cycle it gives |
| `Resolver`, `ResolvedAnswer` | capabilities to an ordered dependency list, and its content by literal name |
| `LockProtocol`, `AtomicReclaim`, `LockRelease`, `LockRuns` | token-owned lock files, their reclaiming and release, and runs that go wrong |
| `ArtifactNames` | lock-file and cache-file names |
| `CacheProtocol`, `CacheRuns` | leases, acquisition and eviction over those locks, and runs that go wrong |
| `Eviction` | the size-bounded pruning pass |
| `WaitGraph` | the order in which tasks take locks |
| `Hashing`, `ChunklistFormat`, `ChunklistLayout`, `ChunkVerifier` | Apple CNKL chunklists, their bytes, and the streaming verifier |
| `ResumableDownload` | the resumable Recovery download |
| `ConfigurationStore` | the revision-checked store and its clients |
| `ToolchainPublication` | publication of tools with rollback |
| `MediaPlan`, `MediaWriter`, `MediaLayout` | the guarded media write and the on-disk layout |
| `JsonLimits` | the two JSON complexity checks |
| `RecoveryContracts`, `RecoveryGrammar`, `PublishedFiles`, `RecoveryState` | Recovery locks and evidence, what a document must hold to be read as one, and their published files |

## Where the code does less than its documentation says

Each of these is a lemma with a concrete input together with the exact condition.

- **Lock reclaiming.** The reclaimer moves a lock file aside, looks at its token and restores it when
  it is not the one it condemned (`macloader/dependencies/cache.py:313-335`). "Without racing other
  processes" holds as long as nobody creates the lock in between: `LockProtocol.CreateIsSafeExactly`;
  `LockRuns.TwoInside` is a run with two live processes inside one lock. If rename, comparison and
  restore are one step, all runs are safe: `AtomicReclaim.AtomicRunsAreSafe`.
- **Lock release.** A release reads its own token back and then unlinks whatever has the name
  (`macloader/dependencies/cache.py:291-308`). In the same window it can remove the lock of a live
  holder: `LockRuns.ForeignRelease` is a run, `LockRelease.ReleaseIsSafeExactly` the condition.
- **One lock, one artifact.** Lock-file names join id and version with a dot, cache-file names with an
  underscore. Ids with a dot share lock files (the catalog schema forbids them), and a lease over two
  artifacts blocks on itself exactly when their lock files coincide. Versions with an underscore, which
  the schema permits, can give one cache file two locks (`ArtifactNames.OneFileTwoLocksExactly`); then a
  stale lock can hide a live lease, and one file can be downloaded twice.
- **Released locks that come back.** When the lock is moved aside while its owner releases it, the
  release is skipped and the reclaimer then restores the file, with a live owner that no longer knows of
  it. Nobody, the process itself included, gets that lock while the process lives:
  `LockRuns.SelfBlocked`, `LockRelease.LeftBehindBlocks`; when this can happen:
  `LockRelease.ReleasedLockReturnsExactly`. It is the only way to a circular wait:
  `WaitGraph.CircularWaitNeedsLeftover`.
- **Lease protection.** The lease check looks at the lock files in their places, and compares an
  absolute path with a resolved one (`macloader/dependencies/cache.py:198-205`,
  `macloader/dependencies/cache.py:421`). A live lease is not recognised while its lock is moved aside
  (`CacheRuns.MovedLockLosesLease`), nor ever when the two paths differ, as under a symbolic link
  (`CacheRuns.IndirectCacheLosesLease`). The conditions are exact:
  `CacheProtocol.HeldFilesAreSparedExactly`, `CacheProtocol.EvictionSparesHeldArtifacts`.
- **One download per miss.** Two live processes inside one lock download twice:
  `CacheRuns.OneLockTwoDownloads`; without a creation in the window it cannot happen
  (`CacheProtocol.AtMostOneDownload`), and `LockProtocol.CreateIsSafeExactly` says which creations
  those are.
- **Compare-and-swap on configurations.** A created draft has base revision 0. If a file with its id is
  imported and saved at revision 0 before it, the edited draft replaces that content without having seen
  it: `ConfigurationStore.UnseenOverwriteHappens`; this is the only way:
  `ConfigurationStore.UnseenOverwriteExactly`.
- **Toolchain rollback.** The rollback handles `Exception` only. An interrupt leaves the directory
  torn, with the moved-aside files deleted: `ToolchainPublication.InterruptedUpdate` runs one, and
  `ToolchainPublication.InterruptIsHarmlessExactly` says which publications are safe from it.
- **Media invalidation.** An exit by an exception other than `Exception` and `KeyboardInterrupt`, or a
  final progress callback that raises, leaves the medium without invalidation:
  `MediaWriter.UninvalidatedWrite` and `MediaWriter.UnreportedWrite` are such calls,
  `MediaWriter.InvalidatesAlwaysExactly` the condition. Without an enumerator the target is the planned
  device, not a freshly listed one.
- **Media manifests.** A manifest does not say whether it was taken from the source directory or from its
  EFI subdirectory, nor what lies beside that: `MediaPlan.DifferentTreesOneManifest`,
  `MediaPlan.ManifestDeterminesFilesExactly`.
- **Published Recovery state.** The writer does not apply the reader's string limit, so a save can
  publish what no load accepts: `RecoveryState.SavedIsLoadableExactly`.
- **Chunk limit.** The limit of 2,000,000 chunks can never be reached under the 32 MiB file limit.

## Model

| member | source | states |
|---|---|---|
| Graph.DependencyGraph.AddNode | macloader/dependencies/graph.py:15-17 | an added node replaces the prerequisites of its lower-cased id and nothing else; all ids stay lower-case |
| Graph.DependencyGraph.CollectNeeded | macloader/dependencies/graph.py:33-47 | the worklist ends with exactly the ids reachable from the request, or with a reachable id that is missing |
| Graph.DepthFirstSearch.Dfs | macloader/dependencies/graph.py:53-74 | one call of the search, with its colours, path and list updated in place, does what the recursive specification `Visit` does |
| Graph.DependencyGraph.SortNeeded | macloader/dependencies/graph.py:49-79 | the second phase returns the specified order or a cycle |
| Graph.DependencyGraph.ResolveOrderedSet | macloader/dependencies/graph.py:25-79 | without cancellation the answer is determined by the reachable set, as `Answers` says; the list and the cycle are those of `GraphOrder` |
| Graph.VisitInvariant | macloader/dependencies/graph.py:53-74 | a visit lists every node it finishes exactly once, prerequisites first, or returns a real walk whose last node repeats; so the membership test before appending is always true |
| Graph.SortCorrect | macloader/dependencies/graph.py:49-79 | the sort of a closed set is an order of exactly that set, or exhibits a cycle in it |
| Graph.OrderedIsAcyclic | macloader/dependencies/graph.py:49-79 | an ordered set has no cycle |
| Graph.ResolutionExact | macloader/dependencies/graph.py:25-79 | resolution succeeds if and only if every reachable id exists and the reachable graph is acyclic; NotFound if and only if a reachable id is missing; otherwise the reported cycle is a real one among the reachable ids |
| Graph.ResolutionCanonical | macloader/dependencies/graph.py:25-79 | the answer depends on the set of reachable ids only |
| Graph.ResolutionIdempotent | macloader/dependencies/graph.py:25-79 | resolving a resolved list returns it unchanged |
| GraphOrder.ReturnedExactly | macloader/dependencies/graph.py:53-79 | a list is returned if and only if it takes the reachable ids in increasing order and, before each, the prerequisites of it that are not yet listed, in declared order; one list does |
| GraphOrder.LeastIdsFirst | macloader/dependencies/graph.py:76-79 | for every k, what is reachable from the k least reachable ids is exactly a prefix of the list |
| GraphOrder.PrerequisitesAsDeclared | macloader/dependencies/graph.py:63-74 | before a listed id, what is reachable from its first k declared prerequisites comes first, for every k, and directly after all of them the id itself |
| GraphOrder.ReportedExactly | macloader/dependencies/graph.py:53-79 | the reported cycle is the walk from the least id that can reach a cycle, always on to the first declared prerequisite that can, up to the first id met again |
| Ordering.BeforeExactly | macloader/dependencies/graph.py:76 | one id is less than another if and only if it is a proper prefix of it or has the smaller character at the first difference |
| Resolver.RequestedExact | macloader/dependencies/resolver.py:95-192 | the request table holds exactly what the base runtime and some capability ask for, although later entries overwrite earlier ones |
| Resolver.RequestedCanonical | macloader/dependencies/resolver.py:95-192 | the table is the same for any two capability lists with the same members |
| Resolver.ResolvedListExact | macloader/dependencies/resolver.py:194-231 | the list is the canonical order of everything reachable; an item is transitive exactly when nothing asks for it, otherwise it carries the reason of one that does |
| Resolver.ResolutionIgnoresRepetition | macloader/dependencies/resolver.py:95-231 | permuting or duplicating capabilities changes neither success nor the list, reasons and flags included |
| Resolver.OnlyRequestsCanBeMissing | macloader/dependencies/resolver.py:34-39 | in a loaded catalog only a directly requested id can be missing |
| Resolver.DependencyResolver.constructor | macloader/dependencies/resolver.py:27-39 | the graph built from a catalog has exactly its dependencies as edges |
| Resolver.DependencyResolver.Resolve | macloader/dependencies/resolver.py:49-247 | a run that is not cancelled returns what `Resolves` allows: mapping, order, reasons, notes, completeness and every error case |
| ResolvedAnswer.RequestedByName | macloader/dependencies/resolver.py:105-192 | which id is asked for, with which reason, by which capability name on which macOS, as a table of literals |
| ResolvedAnswer.NotesByName | macloader/dependencies/resolver.py:95-192 | the unresolved notes and the warnings, one capability after the other, by literal names |
| ResolvedAnswer.AnswerByName | macloader/dependencies/resolver.py:194-247 | a successful answer, field by field: version, artifact and subcomponents are the catalog's, an entry is a request exactly when the table says so and all requests are listed; it is complete if and only if the plan left nothing unresolved, every capability is known and Tahoe audio is not asked for |
| ResolvedAnswer.FailsOnFirstUndefined | macloader/dependencies/resolver.py:198-231 | once the order is found, the answer fails if and only if a listed id has no artifact of the variant, and names the first such id |
| LockProtocol.StepKeepsInv | macloader/dependencies/cache.py:243-335 | each step of any process (create, read metadata, judge, rename, restore or discard, read back, unlink, die) keeps the invariant unless a lock is created while a foreign lock of that name is moved aside |
| LockProtocol.CalmRunsAreSafe | macloader/dependencies/cache.py:243-335 | in every run without such a creation, for any number of processes, deaths and reclaimers with stale readings, at most one live process is inside each lock and its lock is on file or about to be restored |
| LockProtocol.ReleaseRemovesOwnLock | macloader/dependencies/cache.py:291-308 | in every run without such a creation a release removes its own lock only |
| LockRuns.ForeignRelease | macloader/dependencies/cache.py:291-308 | a concrete run of the actual steps in which the next release removes the lock of a live holder |
| LockRelease.ReleaseIsSafeExactly | macloader/dependencies/cache.py:291-308 | creating a lock can lead, with no further such creation, to a release of another owner's lock if and only if a foreign lock of its name is moved aside by a live process or its owner has already read its token back |
| LockRelease.ReleasedLockReturnsExactly | macloader/dependencies/cache.py:291-335 | after the last step of an acquisition (its unlink, or a read-back that does not find its lock) its lock file can come back, in any continuation or in one without a creation in the window, if and only if a live reclaimer has it in hand at that moment |
| LockRuns.SelfBlocked | macloader/dependencies/cache.py:291-335 | a run of the actual steps, with no creation in the window, in which a process is left waiting for the lock file of an acquisition it has ended |
| LockRuns.WaiterGetsIn | macloader/dependencies/cache.py:243-308 | a run in which a process finds the lock held by a live one, waits, and gets it after the release, while a third gives up |
| LockRuns.StaleReadingFindsNothing | macloader/dependencies/cache.py:313-335 | a run in which a second reclaimer's rename finds no file, so that it starts over |
| LockRelease.LeftBehindBlocks | macloader/dependencies/cache.py:243-289 | from then on nobody, that process included, gets this lock while that process lives, whatever anyone does |
| LockProtocol.HazardBreaks | macloader/dependencies/cache.py:313-335 | a creation while a foreign lock is moved aside leads in at most one more step to a broken state |
| LockProtocol.CreateIsSafeExactly | macloader/dependencies/cache.py:253-258 | creating a lock is safe in every continuation without a further creation in such a window if and only if no foreign lock of its name is moved aside that is still to be restored or still has a live owner |
| LockRuns.TwoInside | macloader/dependencies/cache.py:313-335 | a concrete run of the actual steps with two live processes inside one lock |
| AtomicReclaim.AtomicRunsAreCalm | macloader/dependencies/cache.py:313-335 | with reclaiming as one step every run is a run of the actual steps in which no lock is created in the window and none is left moved aside |
| AtomicReclaim.AtomicRunsAreSafe | macloader/dependencies/cache.py:243-335 | hence at most one live process is inside each lock and its token is the token in the file |
| ArtifactNames.LockNameDetermines | macloader/dependencies/cache.py:216-220 | for ids of the catalog schema, a lock-file name determines id, variant and sanitized version |
| ArtifactNames.DottedIdsCollide | macloader/dependencies/cache.py:216-220 | with a dot in an id it does not |
| ArtifactNames.CacheNamesCollideExactly | macloader/dependencies/cache.py:412-424 | two cache-file names are equal if and only if variant, digest prefix and the joined id and version are |
| ArtifactNames.CacheNameDetermines | macloader/dependencies/cache.py:412-424 | for versions without underscore, a cache-file name determines the artifact and its lock file |
| ArtifactNames.OneFileTwoLocksExactly | macloader/dependencies/cache.py:412-424 | for ids of the catalog schema, two artifacts share a cache file but not a lock file if and only if their ids differ while variant, digest prefix and the joined id and version agree |
| ArtifactNames.UnderscoredVersionsCollide | macloader/dependencies/cache.py:412-424 | two artifacts that the schema permits and for which this happens |
| ArtifactNames.GlobalLockIsNoArtifactLock | macloader/dependencies/cache.py:216-220 | no artifact lock has the name of the global cache lock |
| ArtifactNames.NamesInFull | macloader/dependencies/cache.py:216-220 | both names, spelled out with their separators; sanitizing keeps letters, digits, dot, underscore and hyphen and turns every other character into an underscore |
| CacheProtocol.HeldFilesAreSparedExactly | macloader/dependencies/cache.py:198-214 | in every run of the actual lock steps, the file of an artifact whose lock a live process is inside can be removed by a prune or clear step if and only if the path of the cache directory changes when resolved, or no lock file in its place protects the path for a live owner |
| CacheProtocol.EvictionSparesHeldArtifacts | macloader/dependencies/cache.py:198-214 | in every run without a creation in the reclaiming window the second case is exactly: some reclaiming process has the holder's lock moved aside at that moment; at all other moments neither a lease nor an acquisition loses its file |
| CacheRuns.IndirectCacheLosesLease | macloader/dependencies/cache.py:198-205 | a run on a cache directory reached indirectly in which a leased file may be evicted |
| CacheRuns.MovedLockLosesLease | macloader/dependencies/cache.py:313-335 | a run on a directly reached one, with no creation in the window, in which a leased file is evicted while its lock is moved aside |
| CacheRuns.DamageLosesLease | macloader/dependencies/cache.py:182-196 | a calm run on a directly reached cache, in which damage from outside makes a validated leased file invalid: a lease excludes evictions only |
| CacheProtocol.LeasedFilesStay | macloader/dependencies/cache.py:182-196 | on a directly reached cache directory, from the validation inside a lease to its release the file stays valid, absent damage from outside, creations in the window, and evictions of a path whose lock is moved aside |
| CacheProtocol.AtMostOneDownload | macloader/dependencies/cache.py:350-385 | however many processes miss an artifact at once, at most one download of it ever succeeds while nothing is evicted or damaged and no lock is created in the reclaiming window |
| CacheProtocol.SecondDownloadExactly | macloader/dependencies/cache.py:350-385 | in any state where nothing was downloaded twice yet, a download can be followed by a second one of the same path if and only if another live process inside has missed it as well |
| CacheRuns.OneLockTwoDownloads | macloader/dependencies/cache.py:313-335 | a run with a creation in the window in which one path is downloaded twice under one lock name |
| CacheProtocol.OneLockPerPathExactly | macloader/dependencies/cache.py:216-220 | artifact locks give each cache path one lock name, which the results above need, if and only if no two artifacts in use have different ids but one cache file |
| CacheProtocol.ArtifactNamesGiveOneLockPerPath | macloader/dependencies/cache.py:216-220 | versions without underscore are enough for that |
| CacheRuns.LeaseHiddenByStaleLock | macloader/dependencies/cache.py:198-214 | with two lock names for one path, a run in which a leased file is evicted because the check stops at the first, stale lock |
| CacheRuns.TwoLocksTwoDownloads | macloader/dependencies/cache.py:350-385 | with two lock names for one path, a run in which it is downloaded twice |
| WaitGraph.CircularWaitNeedsLeftover | macloader/orchestrator.py:201-217 | among any number of processes that fetch, lease, put and clear, in every reachable state every closed wait chain over artifact locks and the global lock has a process in it that waits for a lock file left behind by a release |
| WaitGraph.SelfWaitExactly | macloader/orchestrator.py:201-217 | in every reachable state a process waits for itself if and only if it waits for a lock file it left behind |
| WaitGraph.NoCircularWait | macloader/orchestrator.py:201-217 | in runs in which every release frees its lock the wait-for graph is acyclic in every reachable state; no process waits for itself |
| WaitGraph.LeftoverBlocksItself | macloader/dependencies/cache.py:291-308 | a run in which a process waits for a lock it left behind |
| WaitGraph.ProgramAscends | macloader/orchestrator.py:201-217 | each task requests locks in increasing order, the global lock last |
| WaitGraph.LeaseTakesEveryLock | macloader/orchestrator.py:201-217 | a lease acquires the lock file of every dependency, in increasing order of id, before the first release |
| WaitGraph.FetchTakesLocksInTurn | macloader/dependencies/cache.py:350-385 | a fetch takes nothing for a cached item, else that item's lock and, for a download, the global lock inside it |
| WaitGraph.LeaseBlocksItselfExactly | macloader/orchestrator.py:209-216 | a lease over any list of artifacts blocks on itself if and only if two of them share a lock file |
| WaitGraph.DottedIdsBlock | macloader/dependencies/cache.py:216-220 | two ids outside the schema are enough for that |
| Eviction.DownloadDirectory.ListAccounted | macloader/dependencies/cache.py:496-500 | the listing holds each accounted file once and the total is the sum of their sizes |
| Eviction.SortedByAge | macloader/dependencies/cache.py:502 | the visiting order is the listing, rearranged from oldest to newest |
| Eviction.SortIsStable | macloader/dependencies/cache.py:502 | equally old files keep the order of the listing |
| Eviction.AccountedExactly | macloader/dependencies/cache.py:496-499 | a file is accounted if and only if its name does not begin with a dot and does not end in ".part" or ".tmp" |
| Eviction.DownloadDirectory.RemoveOldest | macloader/dependencies/cache.py:495-510 | the pass satisfies `Prunes` and its accounted total is the sum of the surviving sizes |
| Eviction.DownloadDirectory.Prune | macloader/dependencies/cache.py:495-521 | no leased file is removed, each removal happened over the limit, the pass ends within the limit or with only leased files left, unleased survivors are at least as new as every removed file; hidden, partial and leased files stay; index entries that pointed at files still do, and those that survive are kept |
| Eviction.EvictionIsDetermined | macloader/dependencies/cache.py:502-510 | these four clauses leave no freedom: with distinct ages the removed files and their order are a function of directory, lease answers and limit |
| ChunklistFormat.ParseEncode | macloader/recovery/acquirer.py:748-792 | parsing an encoded header, entry list and signature returns them, whatever the pad byte |
| ChunklistFormat.EncodeParse | macloader/recovery/acquirer.py:748-792 | every structurally accepted file is the encoding of what was parsed from it |
| ChunklistFormat.ParseIgnoresOnlyPad | macloader/recovery/acquirer.py:748-792 | two accepted files parse alike if and only if they differ at most in the pad byte |
| ChunklistFormat.CountIsBoundedByFileLimit | macloader/recovery/acquirer.py:46-49 | under the 32 MiB limit at most 932,059 chunks fit (932,065 without a signature), so the limit of 2,000,000 never binds |
| ChunklistLayout.ParseByBytes | macloader/recovery/acquirer.py:748-768 | every answer of the structural checks, in their order, for literal bytes at literal positions; integers have their least significant byte first |
| ChunklistLayout.AcceptedByBytes | macloader/recovery/acquirer.py:748-792 | an accepted file holds the magic, the count, and entry k's size and digest in the bytes from 36 + 36k on, and the signature at the end |
| ChunklistLayout.ShortFileIsTruncated | macloader/recovery/acquirer.py:749-751 | the header is reported truncated if and only if the file has fewer than 36 bytes |
| ChunkVerifier.FileHandle.ReadFully | macloader/recovery/acquirer.py:748-776 | a read of a buffered file returns the requested bytes or all that are left |
| ChunkVerifier.HashFile | macloader/recovery/acquirer.py:738-746 | however the reads are split, the digest is the hash of the whole file |
| ChunkVerifier.VerifyChunk | macloader/recovery/acquirer.py:797-815 | for any short reads, a chunk is good exactly when that many bytes are left and their hash is the entry's; the running image hash covers what was read |
| ChunkVerifier.Verify | macloader/recovery/acquirer.py:714-820 | the streaming verifier returns, for every read schedule, what the whole-file specification `Outcome` says, error cases included |
| ChunkVerifier.OutcomeExact | macloader/recovery/acquirer.py:714-820 | it accepts with (count, size) if and only if the file encodes a signed chunklist with valid signature, both whole-file digests match and the image is exactly the listed blocks; size is then the image length |
| ChunkVerifier.OutcomeCases | macloader/recovery/acquirer.py:714-820 | which error each pair of files gives: in turn file size, file digest, structure, method byte, the last 256 bytes, the first block that is short or has another digest, trailing image bytes, image digest |
| ChunkVerifier.OneImagePerChunklist | macloader/recovery/acquirer.py:793-820 | under an injective hash one chunklist accepts at most one image |
| ResumableDownload.Acquisition.HashBytes | macloader/recovery/acquirer.py:639-646 | the hash state after reading a file block by block has absorbed exactly its bytes |
| ResumableDownload.Acquisition.KeepOrRemoveDestination | macloader/recovery/acquirer.py:166-171 | a destination is kept exactly when it has the declared size and digest |
| ResumableDownload.Acquisition.OpenResumeFiles | macloader/recovery/acquirer.py:172-186 | the part opened is the prior one only if the metadata vouches for it and it is not oversized; an interruption never leaves unvouched bytes beside matching metadata |
| ResumableDownload.Acquisition.WriteChunk | macloader/recovery/acquirer.py:271-276 | a chunk past the declared size is never written; a completed write keeps the running hash equal to the hash of the bytes on disk, a broken one leaves a prefix of the chunk |
| ResumableDownload.Acquisition.Receive | macloader/recovery/acquirer.py:252-276 | after any chunking and any failure the part is its old content followed by a prefix of the body, within the declared size |
| ResumableDownload.Acquisition.Transfer | macloader/recovery/acquirer.py:219-276 | the part is continued only by a 206 answer that starts at its size, otherwise replaced from the start |
| ResumableDownload.Acquisition.PublishVerified | macloader/recovery/acquirer.py:277-314 | only bytes of the declared size and digest are published; a mismatch removes part and metadata |
| ResumableDownload.Acquisition.Attempt | macloader/recovery/acquirer.py:163-334 | for arbitrary prior files, answers and failures: a published file is the declared asset, other errors retain a part that is accounted for, and with an honest server the part stays a prefix of the true asset and the digest cannot mismatch; an attempt that nothing disturbs ends exactly as the prior files and the answer determine: it continues a vouched part, publishes the true asset on a correct answer, and fails on a wrong range or length |
| ResumableDownload.Acquisition.AttemptRepeatedly | macloader/recovery/acquirer.py:163-334 | over any sequence of attempts: only the declared asset is published and a declared one kept, a part that was written is within the declared size, and with honest servers it stays a prefix of the asset and no attempt ends in a mismatch |
| ResumableDownload.Acquisition.Fetch | macloader/recovery/acquirer.py:208-304 | from the opened part on, the attempt publishes exactly when the answer brings the part to the declared size and digest |
| ResumableDownload.HonestAnswerCompletes | macloader/recovery/acquirer.py:226-251 | a complete answer of an honest server completes a retained prefix to the true asset |
| ResumableDownload.CorrectAnswerCompletes | macloader/recovery/acquirer.py:226-251 | a 206 answer with the right start and the remaining bytes, or another status with all bytes, with the matching length or none, is accepted and completes the asset |
| ResumableDownload.HonestTransfer | macloader/recovery/acquirer.py:230-258 | a continued prefix of the asset is a prefix of the asset |
| ConfigurationStore.Store.Save | macloader/configuration/store.py:33-73 | a save that is refused changes nothing; one stopped after n file actions leaves the files of the machine after n actions; a completed one has the new version as target and the old target as backup; a target is never lost before; each reason of refusal has its condition |
| ConfigurationStore.SaveIsTheMachine | macloader/configuration/store.py:52-72 | a save performs the steps of the run machine |
| ConfigurationStore.StepKeepsInv | macloader/configuration/store.py:33-73 | every client action and every file action keeps the store's invariant |
| ConfigurationStore.FilesAreAlwaysWhole | macloader/configuration/store.py:52-72 | at every point of every run with any crashes, revisions have strictly increased, the target is the newest saved version once there is one, and the backup is a whole version with no greater revision |
| ConfigurationStore.RevisionDeterminesContent | macloader/configuration/store.py:37-51 | over any interleaving of clients a revision number determines the stored content |
| ConfigurationStore.NoLostUpdate | macloader/workflow/service.py:81-83 | a publication by a client that loaded replaces exactly the content it loaded |
| ConfigurationStore.LoadedSaveAcceptedExactly | macloader/workflow/service.py:426-447 | its save is accepted if and only if what it loaded is still stored and its draft has advanced |
| ConfigurationStore.ReplacementKeepsPredecessor | macloader/configuration/store.py:63-71 | a completed replacement leaves its immediate predecessor in the backup |
| ConfigurationStore.PublishesTheDraft | macloader/workflow/service.py:426-447 | over every run, what a save publishes is the draft it began with: its body always, its own revision or exactly one more than the replaced one, as the newest version and the target |
| ConfigurationStore.DraftsBeginAsGiven | macloader/workflow/service.py:73-83 | a loaded draft is the newest version ever published; a created one has revision 0; a shared one keeps its base |
| ConfigurationStore.EditsAdvance | macloader/workflow/service.py:449-477 | an edit stores its content, makes the revision one greater, and keeps the base revision and all other drafts |
| ConfigurationStore.UnloadedSaveAcceptedExactly | macloader/workflow/service.py:426-447 | a draft that was not loaded may replace a stored version if and only if it was created here, the stored revision is 0 and the new one is not |
| ConfigurationStore.UnseenOverwriteExactly | macloader/workflow/service.py:426-447 | over a stored version other than the one its id was created with, a created draft is accepted if and only if that version is an imported revision 0, nothing has been saved since, and the new revision is not 0 |
| ConfigurationStore.CreatedReplacesItself | macloader/workflow/service.py:73-76 | without such an import a created draft replaces only the draft it was edited from |
| ConfigurationStore.UnseenOverwriteHappens | macloader/workflow/service.py:479-491 | a run in which an imported version with the same id is replaced by an edited created draft that never saw it |
| ToolchainPublication.ToolDirectory.MakeRoom | macloader/toolchain/loader.py:453-460 | an existing tool is moved aside, and only then, with its backup recorded |
| ToolchainPublication.ToolDirectory.PlaceAll | macloader/toolchain/loader.py:450-462 | wherever the loop stops, the directory is the prior one with exactly the first k staged files in place and at most the next one moved aside, and every replaced file is backed up |
| ToolchainPublication.ToolDirectory.RollBack | macloader/toolchain/loader.py:464-469 | from any such point the rollback restores the prior directory exactly |
| ToolchainPublication.ToolDirectory.Publish | macloader/toolchain/loader.py:450-472 | for any files and any troubles: the first step that fails decides; all staged files are in place if and only if no step failed, the verification included; after an error the directory is exactly as before; other names are never touched; only an interrupt leaves it midway |
| ToolchainPublication.InterruptIsDetermined | macloader/toolchain/loader.py:450-472 | what an interrupt leaves is a function of the step it hits |
| ToolchainPublication.InterruptIsHarmlessExactly | macloader/toolchain/loader.py:464-472 | whatever step an interrupt hits the directory is all or nothing, if and only if the publication places at most one file and replaces none |
| ToolchainPublication.InterruptTearsExactly | macloader/toolchain/loader.py:464-472 | what an interrupt left is all or nothing if and only if no tool is moved aside and the placed, or the missing, files equal the old ones |
| ToolchainPublication.InterruptedUpdate | macloader/toolchain/loader.py:464-472 | an update of one existing tool, interrupted at its third step, leaves neither the old nor the new version |
| MediaPlan.SourceManifest | macloader/removable/writer.py:879-902 | the manifest lists every payload file once with size and digest; there is none exactly when an entry is irregular, a bound is exceeded or nothing is left |
| MediaPlan.PayloadExactly | macloader/removable/writer.py:254-258 | the payload is the EFI directory, relative to itself, if there is one and no Recovery directory, else everything |
| MediaPlan.BoundsExactly | macloader/removable/writer.py:879-902 | at least one and at most 10,000 files, none above 8 GiB, 32 GiB in sum |
| MediaPlan.EqualManifestsEqualPayload | macloader/removable/writer.py:879-902 | under an injective hash equal manifests mean equal payloads, file for file |
| MediaPlan.EqualPayloadsOfWholeTrees | macloader/removable/writer.py:254-258 | for trees not reduced to their EFI directory, equal payloads are equal file trees |
| MediaPlan.ManifestDeterminesFilesExactly | macloader/removable/writer.py:254-258 | under an injective hash a manifest determines all files of its tree, among trees of the same kind, if and only if the tree is not reduced to its EFI directory |
| MediaPlan.EfiDirectoryHasSameManifest | macloader/removable/writer.py:254-258 | every tree that is has the manifest of its EFI directory taken by itself, a tree with other files |
| MediaPlan.DifferentTreesOneManifest | macloader/removable/writer.py:254-258 | such a pair of trees for any file name and content |
| MediaPlan.DigestDeterminesPlan | macloader/removable/writer.py:156-180 | under an injective digest, plans for one device id with one digest are equal |
| MediaPlan.ConfirmationAuthorisesExactly | macloader/removable/writer.py:218-241 | an issued confirmation is valid for a plan if and only if it was issued for that plan and has not expired |
| MediaWriter.RemovableMediaWriter.RecheckDevice | macloader/removable/writer.py:640-681 | re-enumeration yields the one listed device with the planned id, unaltered and safe, or an error when there is none |
| MediaWriter.RemovableMediaWriter.Preflight | macloader/removable/writer.py:483-534 | the checks pass if and only if everything in `Authorised` holds |
| MediaWriter.AuthorisedExactly | macloader/removable/writer.py:474-534 | `Authorised`, field by field: a removable, whole, unmounted, writable device that is not the system's, with room, id and serial, unaltered since the plan and alone under its id; six digests; an unexpired confirmation of this plan; quiet callbacks; accepted source |
| MediaWriter.SnapshotReadyExactly | macloader/removable/writer.py:537-553 | what must hold between the private copy and the destructive call |
| MediaWriter.RemovableMediaWriter.WriteSnapshot | macloader/removable/writer.py:537-553 | the destructive call is reached if and only if the private copy has the plan's manifest and nothing cancelled |
| MediaWriter.RemovableMediaWriter.Conclude | macloader/removable/writer.py:554-584 | invalidation follows every caught failure after the start and every false readback |
| MediaWriter.RemovableMediaWriter.Write | macloader/removable/writer.py:474-566 | with every answer of the environment arbitrary, device calls are made exactly when everything authorises them; the destructive call comes first and at most once, all calls are for one target, the call returns normally if and only if the readback was true and the progress callback quiet, and any other end after the destructive start is followed by invalidation, with two exceptions; each call and each escaping exception is tied to the answers one by one |
| MediaWriter.OnlyThePlannedDevice | macloader/removable/writer.py:512-529 | under an injective digest the device written is the planned one in every field, safe, and alone under its id in the fresh list |
| MediaWriter.OnlyThePlannedPayload | macloader/removable/writer.py:537-545 | the payload written is the one the plan was made from |
| MediaWriter.InvalidatesAlwaysExactly | macloader/removable/writer.py:554-566 | for any write that can come to the destructive call: invalidation follows for every later answer of the environment if and only if adapter and callbacks raise nothing but `Exception` and `KeyboardInterrupt` and no progress callback that may raise is passed |
| MediaWriter.ImageWriteReaches | macloader/removable/writer.py:474-553 | a concrete plan, confirmation and environment for which the destructive call is made |
| MediaWriter.UninvalidatedWrite | macloader/removable/writer.py:554-558 | a call of the write in which the adapter leaves by `SystemExit`: the destructive call is the only device call, although there is an invalidator |
| MediaWriter.UnreportedWrite | macloader/removable/writer.py:564-566 | a call that fails in the last progress callback: the medium is written, read back well, and not invalidated |
| MediaLayout.BlockDevice.ClearWindow | macloader/removable/adapters.py:466-473 | for any short writes, success means exactly the window is zero and lies on the device; after a failure no byte has another value than its own or zero, and only inside the window |
| MediaLayout.BlockDevice.InvalidateDescriptor | macloader/removable/adapters.py:463-474 | the same for the first and last 1 MiB together; on a device whose writes make progress it succeeds if and only if both windows fit |
| MediaLayout.InvalidationClearsBothTables | macloader/removable/adapters.py:464-465 | on a device of at least 1 MiB, of any size modulo 512, both GPT copies (section 5.3 of the UEFI Specification) are cleared |
| MediaLayout.InvalidationKeepsThePartition | macloader/removable/adapters.py:464-465 | the first window ends where the partition starts: only the partition's last 1 MiB is cleared |
| MediaLayout.WindowsExactly | macloader/removable/adapters.py:463-474 | the cleared bytes are the first and the last 1,048,576 of the announced size |
| MediaLayout.PartitionIsTheUsableSpace | macloader/removable/adapters.py:502-510 | the partition is exactly the blocks from 2048 to the last usable one, sectors - 34, and overlaps neither table |
| JsonLimits.CheckWithStack | macloader/recovery/service.py:315-333 | the stack loop terminates and accepts if and only if node count (keys included), depth and every string length are within the limits |
| JsonLimits.CheckRecursively | macloader/workflow/service.py:749-763 | the recursive check with its threaded counter decides the same predicate |
| JsonLimits.CheckValue | macloader/workflow/service.py:749-763 | one call decides its value against what is left of the counter, and advances the counter by its node count |
| JsonLimits.FitsExactly | macloader/recovery/service.py:318-333 | checking depth and strings node by node is the same as bounding the depth and the longest string of the value |
| JsonLimits.MeasuresOfSmallValues | macloader/recovery/service.py:315-333 | node count, depth and longest string of scalars, empty and one-element containers: keys are nodes and strings, items lie one level down |
| JsonLimits.MeasuresOfLists | macloader/recovery/service.py:315-333 | one more item adds its nodes and may raise depth and longest string |
| JsonLimits.MeasuresOfObjects | macloader/recovery/service.py:315-333 | the same for one more entry, its key included |
| JsonLimits.ImportIsStricterExactly | macloader/workflow/service.py:42-45 | with the shipped constants an accepted import is acceptable Recovery metadata; the converse fails for strings over 8192 characters only |
| RecoveryContracts.LockRoundTrip | macloader/domain/recovery.py:199-231 | writing a lock and reading it back loses the session references and nothing else |
| RecoveryContracts.EvidenceRoundTrip | macloader/domain/recovery.py:239-267 | evidence is read back as written |
| RecoveryContracts.DigestIsStable | macloader/domain/recovery.py:209-216 | the lock digest is invariant under redaction, any change of lifecycle state, and the round trip |
| RecoveryContracts.DigestIdentifiesExactly | macloader/domain/recovery.py:209-216 | under an injective digest it is equal if and only if the locks agree up to state and session references |
| RecoveryGrammar.VersionExactly | macloader/domain/recovery.py:34 | a version is two or three numbers separated by dots |
| RecoveryGrammar.BuildExactly | macloader/domain/recovery.py:36 | a build is two digits, a capital letter, two to six digits and perhaps a small letter |
| RecoveryGrammar.LockReadExactly | macloader/domain/recovery.py:218-231 | any document is read as a given lock if and only if it holds its fields under their keys and they are valid |
| RecoveryGrammar.EvidenceReadExactly | macloader/recovery/service.py:290-292 | any document is read as given evidence if and only if it has exactly the seven keys, with three digests, a true value and two positive ones |
| PublishedFiles.WritesAddUp | macloader/recovery/service.py:249-257 | the writes of one save, made one by one, leave the files that a save stopped at that point leaves |
| PublishedFiles.SavedThenRead | macloader/recovery/service.py:249-275 | from any state, an undisturbed save and a load after it read the save's three documents, in the order state, lock, evidence |
| PublishedFiles.StateReadWasSaved | macloader/recovery/service.py:262-275 | whatever writers and readers do and where they crash, the state document a reader has read was written by a save that was begun |
| RecoveryState.LoadFollowsState | macloader/recovery/service.py:262-295 | a successful load returns the pair of the state file, whatever the other two files hold |
| RecoveryState.LoadsExactly | macloader/recovery/service.py:262-333 | whatever three files are found, they are loaded as a pair if and only if all are bounded, the state file repeats the two others under version "1", they hold the pair, and the evidence names the lock's digest |
| RecoveryState.LoadsAreNeverTorn | macloader/recovery/service.py:239-295 | for any interleaving and crashes of writers and three reads at different times, a successful load returns a pair that one save wrote and that the digest binds |
| RecoveryState.LimitsBindOnStringsOnly | macloader/recovery/service.py:315-333 | published state never reaches the node or depth limits; it is within the limits if and only if its strings are |
| RecoveryState.SavedIsLoadableExactly | macloader/recovery/service.py:239-259 | an undisturbed save is loadable if and only if all its strings are at most 65,536 characters and each encoded file at most 4 MiB, and then gives back the saved pair |
| RecoveryState.LongToolNameIsLost | macloader/recovery/service.py:239-259 | every savable pair has a variant that is saved and cannot be loaded |
| RecoveryState.RecoveryDirectory.SaveVerifiedBundle | macloader/recovery/service.py:239-259 | evidence for another lock is refused before anything is written; a save stopped after n replacements leaves exactly the first n files changed; it reports success if and only if the pair is loadable |

## Left out

- Graph.DependencyGraph.ResolveOrderedSet: cancellation may happen at any check; which check is not recorded. Python's recursion limit is not modelled.
- Resolver.DependencyResolver.Resolve: starts after the plan, model, policy and configuration gates, and keeps reasons and notes as data instead of English text; ids are lower-cased for ASCII only.
- AtomicReclaim.AtomicRunsAreSafe: one host, fresh tokens and intact metadata; remote leases that expire on a live owner, and the reclaiming of empty or corrupt lock files without an expected token, are not modelled, and creating a lock file and writing its metadata are one step.
- LockProtocol.StepKeepsInv: the retry loop, its timeout and its sleeps appear as steps that a process may take in any order and number; a process that gives up is a step, and PID reuse does not occur.
- CacheProtocol.HeldFilesAreSparedExactly: the lease check and the removal of one file are one step; whether the cache directory is reached directly does not change during a run.
- Eviction.DownloadDirectory.Prune: takes each file's lease answer as given and assumes no writer outside the cache lock; index paths are resolved names in the download directory.
- WaitGraph.NoCircularWait: proved for ids of the catalog schema; lock timeouts, which would end any wait, are not modelled.
- WaitGraph.CircularWaitNeedsLeftover: releasing and reclaiming a lock are one step each here, a lock that a reclaimer puts back after its release counts as never removed, and mutual exclusion is taken from the runs of `LockProtocol` without a creation in the window.
- ChunkVerifier.Verify: the RSA check is an abstract predicate on a digest and a signature; deadlines count as cancellation.
- ResumableDownload.Acquisition.Attempt: the resumable mode only; redirects, cookies, host and URL policy, free-space checks, symlink checks and the transport callback are outside. Digests are compared as bytes, not as hexadecimal of either case.
- ResumableDownload.Acquisition.AttemptRepeatedly: safety only; a resume whose part is already full need not make progress.
- ConfigurationStore.UnseenOverwriteExactly: an id drawn by `uuid4` is taken to be fresh.
- ConfigurationStore.Store.Save: path and symlink checks and durability of renames are assumed; a document parses back to what was written.
- ToolchainPublication.ToolDirectory.Publish: rollback operations are assumed to succeed, and download, unpacking and version checks of the staged files come before it.
- MediaPlan.SourceManifest: files are values read once; the canonical listing order is a parameter; blanks are ASCII.
- MediaWriter.RemovableMediaWriter.Write: the source validation and the published-artifact checks are one answer of the environment; the confirmation is judged at one moment, as in the code; a private copy is not changed by others. Exceptions come from calls only: a Ctrl-C that arrives between the end of the `try` block and the invalidation after a false readback is not modelled.
- MediaLayout.BlockDevice.InvalidateDescriptor: flushing may fail but has no effect on the bytes.
- JsonLimits.CheckWithStack: numbers are integers; keys keep their order.
- RecoveryGrammar.VersionExactly: digits and blanks are ASCII, where Python also takes others.
- RecoveryContracts.LockRoundTrip: the canonical JSON digest and `str` on other values than strings are parameters; the opaque verification marker of a binding is not part of the value.
- RecoveryState.LoadsAreNeverTorn: files are documents, compared with their key order; encoding and the size of an encoded document are a parameter.
- The disposable image adapter, the Windows backend, partition mounting and boot-file copying.
- Binding of media and Recovery inputs to manifests and policies beyond the digests above.
- `download_bundle`'s own backup and rollback of two files.
- Hardware detection, the compatibility engine, data loading, EFI building, reports, command line and text interface: mostly independent case tables or presentation.
