# Bundle cache of Apache Twill, modelled in Dafny

This project models `BundleCache` of twill-core. That class caches the
bundle jars Twill generates for the classes an application ships. The
model covers five things:

- the three `createBundle` overloads: content-hash lookup, build on a
  miss, re-stamp on a hit, then copy to the target;
- `startUp`, which creates the session's liveness marker;
- one run of the periodic cleanup task, phase A: heartbeat the marker,
  then reap stale sibling sessions;
- the same run, phase B: trim the own session to `maxEntries` entries,
  oldest first;
- `shutDown`, which deletes the marker.

The store behind `Location` is an immutable value. It maps paths to file
and directory entries. A set of faulty paths stands for the IOExceptions
the store throws: an operation on a faulty path throws before it has any
effect. The parameters are:

- the wall clock `now`;
- the SHA-256 digest function;
- the wrapped `Bundler`;
- the random part of temporary file names;
- the order in which the store enumerates a directory.

Java's `long` and `int` arithmetic is written out where it matters:

- the expiry time `now - cleanupPeriodMs * 4` wraps at 64 bits;
- `size - maxEntries` wraps at 32 bits.

Modules, in dependency order:

- `FileStore` (`store.dfy`): the store and the `Location` operations the
  cache uses, and `LocationStatus`.
- `ContentHash` (`hashing.dfy`): the hashed byte stream and the hex slot
  name.
- `StatusSort` (`sorting.dfy`): the stable sort of a listing by
  last-modified time.
- `Survivors` (`survivors.dfy`): removing statuses from a listing, and
  why that commutes with the sort.
- `BundleCache` (`cache.dfy`): `createBundle` and its overloads,
  `startUp`, `shutDown`.
- `Cleanup` (`cleanup.dfy`): one run of the cleanup task, phase A
  (reaping) and phase B (trimming), as the code runs them.
- `Reaping` (`reaping.dfy`): a declarative account of phase A.
- `Trimming` (`trimming.dfy`): a declarative account of phase B.
- `CycleFixpoint` (`cycle.dfy`): a second run at the same instant changes
  nothing.
- `BundleFacts` (`bundles.dfy`): properties of `createBundle` across
  calls and across sessions.
- `CacheInvariant` (`invariant.dfy`): every cache operation keeps the
  store well formed, meaning every entry below the top level sits in a
  directory entry.

## Model

| member | source | states |
|---|---|---|
| FileStore.StatusOf | twill-common/src/main/java/org/apache/twill/filesystem/LocationStatus.java:23-66 | A status records its location, whether it is a directory, its last-modified time and its length; a file's length is its byte count, a directory's is 0. |
| FileStore.ListStatus | twill-core/src/main/java/org/apache/twill/internal/BundleCache.java:173 | Listing a directory succeeds exactly when the directory is present, reachable and a directory. It gives one status per listed child, with that child's own time. |
| ContentHash.HashInputIsClassesThenResources | twill-core/src/main/java/org/apache/twill/internal/BundleCache.java:109-111 | The hashed bytes are every class's bytecode in iteration order, followed by every resource's body in iteration order. |
| ContentHash.ReorderingChangesHashInput | twill-core/src/main/java/org/apache/twill/internal/BundleCache.java:109-111 | Swapping two classes whose bytecodes have the same length but differ changes the hashed bytes, whatever resources follow. Bytecodes of different lengths can commute, so the claim is limited to equal lengths. |
| ContentHash.HexInjective | twill-core/src/main/java/org/apache/twill/internal/BundleCache.java:111 | The hex rendering of a digest loses nothing: equal renderings come from equal digests. |
| ContentHash.SlotName | twill-core/src/main/java/org/apache/twill/internal/BundleCache.java:111 | A slot name is the 64 hex digits of a 32-byte digest, so it never collides with the marker name `active`. |
| BundleFacts.SameSlotMeansSameDigest | twill-core/src/main/java/org/apache/twill/internal/BundleCache.java:111-114 | Two requests share a slot only when the digests of their hashed inputs are equal. |
| StatusSort.SortByLastModified | twill-core/src/main/java/org/apache/twill/internal/BundleCache.java:179-185 | The sorted listing is ascending by last-modified time and is a permutation of the listing. |
| StatusSort.SortKeepsLocationsDistinct | twill-core/src/main/java/org/apache/twill/internal/BundleCache.java:179-185 | Sorting a listing with one status per location keeps one status per location. |
| Survivors.SortSurviving | twill-core/src/main/java/org/apache/twill/internal/BundleCache.java:179-185 | The sort is stable, so removing some statuses before sorting gives the same sequence as removing them from the sorted listing. |
| Survivors.InsertSurviving | twill-core/src/main/java/org/apache/twill/internal/BundleCache.java:179-185 | Removing statuses commutes with inserting one status into a sorted listing. |
| Survivors.SortKeepsTiesInOrder | twill-core/src/main/java/org/apache/twill/internal/BundleCache.java:179-185 | The sort is stable: of two statuses with equal times, the one listed first comes first in the sorted listing. |
| Survivors.SurvivingPair | twill-core/src/main/java/org/apache/twill/internal/BundleCache.java:179-185 | Removing every location but two leaves exactly those two statuses, in listing order. |
| Survivors.SurvivingDrop | twill-core/src/main/java/org/apache/twill/internal/BundleCache.java:187-191 | Removing the locations of the first `j` statuses, and of no other, leaves the statuses from position `j` on. |
| BundleCache.Populate | twill-core/src/main/java/org/apache/twill/internal/BundleCache.java:115-120 | On a miss, the build completes exactly when the bundler succeeds and its output can be written to the temporary file. A completed build leaves the bundler's output from the classes alone in the slot. A build that throws leaves the store exactly as it was, so no slot appears. Nothing but the temporary file, the slot and the slot's missing directories changes. |
| BundleCache.CopyOut | twill-core/src/main/java/org/apache/twill/internal/BundleCache.java:128 | The copy completes exactly when the slot can be read and the target written. When it completes, the target holds the slot's bytes. When it throws, the store is as it was, because a failing stream is modelled as failing before any effect. |
| BundleCache.CreateBundle | twill-core/src/main/java/org/apache/twill/internal/BundleCache.java:107-129 | See the notes under this table. |
| BundleCache.CreateBundleOf | twill-core/src/main/java/org/apache/twill/internal/BundleCache.java:96-99 | The two-argument form is the three-argument form with no resources; its slot is named by the hash of the class bytes alone. |
| BundleCache.DistinctInOrder | twill-core/src/main/java/org/apache/twill/internal/BundleCache.java:103 | The set builder keeps exactly the given classes, each once. Input without duplicates is unchanged, and the first element stays first. |
| BundleCache.DistinctInOrderKeepsOrder | twill-core/src/main/java/org/apache/twill/internal/BundleCache.java:103 | The set builder keeps the classes in the order of their first occurrence. |
| BundleCache.CreateBundleVarargs | twill-core/src/main/java/org/apache/twill/internal/BundleCache.java:101-104 | The varargs form runs `createBundle` with no resources on `clz` followed by `classes`, duplicates dropped. Its slot is named by the hash of those classes' bytes. |
| BundleCache.DistinctInOrderIgnoresRepeat | twill-core/src/main/java/org/apache/twill/internal/BundleCache.java:103 | Adding a class the builder already holds leaves the built set as it was. |
| BundleFacts.RepeatedClassChangesNothing | twill-core/src/main/java/org/apache/twill/internal/BundleCache.java:101-104 | Naming a class a second time in the varargs form changes neither the slot nor anything the call does. |
| BundleFacts.DistinctVarargsKeepOrder | twill-core/src/main/java/org/apache/twill/internal/BundleCache.java:101-104 | Without repeated classes, the varargs form is the class-list form on `clz` followed by `classes`, in that order. |
| BundleFacts.RepeatCallIsHit | twill-core/src/main/java/org/apache/twill/internal/BundleCache.java:113-128 | See the notes under this table. |
| BundleFacts.OtherSessionsUntouched | twill-core/src/main/java/org/apache/twill/internal/BundleCache.java:114-128 | A `createBundle` call changes nothing in another session's subtree, except the target and the directories leading to it. |
| BundleFacts.ResourcesDoNotReachBundler | twill-core/src/main/java/org/apache/twill/internal/BundleCache.java:118 | Two completed misses on the same classes fill their slots, and so their targets, with the same bytes whatever the resources were. |
| BundleCache.StartUp | twill-core/src/main/java/org/apache/twill/internal/BundleCache.java:131-136 | See the notes under this table. |
| BundleCache.ShutDown | twill-core/src/main/java/org/apache/twill/internal/BundleCache.java:200-205 | Shutting down fails exactly when the marker is unreachable or is a non-empty directory. Otherwise it removes the marker and keeps every other entry as it was. |
| Cleanup.ExpireTime | twill-core/src/main/java/org/apache/twill/internal/BundleCache.java:151 | The expiry time is `now - cleanupPeriodMs * 4` in `long` arithmetic; for a non-negative clock and a period that does not overflow, it is exactly four periods before `now`. |
| Cleanup.ReapAll | twill-core/src/main/java/org/apache/twill/internal/BundleCache.java:152-166 | The reaping loop only removes entries and keeps the faulty set; Reaping.ReapAllRemovesDeadSiblings says which entries. |
| Cleanup.ReapPhase | twill-core/src/main/java/org/apache/twill/internal/BundleCache.java:143-169 | Phase A adds no entry, changes no entry except the own marker's time, and leaves a surviving, reachable marker stamped `now`. A heartbeat that throws leaves the store as it was. A listing of the cache directory that throws ends the phase right after the heartbeat, so only the marker's time changes. When both succeed, Reaping.ReapPhaseVerdicts and Reaping.ReapPhaseOutcome say what it removes. |
| Cleanup.Victims | twill-core/src/main/java/org/apache/twill/internal/BundleCache.java:174-189 | Within the limit there are no victims; over a non-negative limit they are the `size - maxEntries` oldest statuses. Trimming.NegativeLimitNeverTrims covers a negative limit. |
| Cleanup.DeleteEach | twill-core/src/main/java/org/apache/twill/internal/BundleCache.java:189-191 | The deletion loop only removes entries and keeps the faulty set; Trimming.DeleteEachStopsAtFirstFailure says which. |
| Cleanup.TrimPhase | twill-core/src/main/java/org/apache/twill/internal/BundleCache.java:171-195 | Phase B only removes entries. A listing that throws, or one within the limit, leaves the store alone; the Trimming lemmas say what it removes otherwise. |
| Cleanup.CleanupCycle | twill-core/src/main/java/org/apache/twill/internal/BundleCache.java:142-196 | One run of the task only removes entries and re-stamps the own marker; CycleFixpoint.CleanupCycleIdempotent says a second run at the same instant changes nothing. |
| Cleanup.ReapOne | twill-core/src/main/java/org/apache/twill/internal/BundleCache.java:152-165 | One sibling is deleted recursively exactly when it is `Reaped`; otherwise, including on any caught IOException, the store is unchanged. |
| Reaping.ReapAllRemovesDeadSiblings | twill-core/src/main/java/org/apache/twill/internal/BundleCache.java:152-166 | See the notes under this table. |
| Reaping.HeartbeatKeepsVerdicts | twill-core/src/main/java/org/apache/twill/internal/BundleCache.java:144-160 | Stamping the own marker changes no verdict on any sibling. |
| Reaping.ReapPhaseOutcome | twill-core/src/main/java/org/apache/twill/internal/BundleCache.java:143-169 | When the heartbeat and the listing succeed, phase A equals the heartbeat followed by the removal of the subtrees of the stale siblings of the original listing. |
| Reaping.ReapPhaseVerdicts | twill-core/src/main/java/org/apache/twill/internal/BundleCache.java:143-169 | See the notes under this table. |
| Reaping.FailedHeartbeatSkipsReaping | twill-core/src/main/java/org/apache/twill/internal/BundleCache.java:143-171 | When the marker is missing or unreachable, phase A changes nothing and the cycle is phase B alone. |
| Trimming.DeleteEachOnlyRemovesVictims | twill-core/src/main/java/org/apache/twill/internal/BundleCache.java:189-191 | The deletion loop removes only the listed victims and changes no other entry. |
| Trimming.DeleteEachRemovesAll | twill-core/src/main/java/org/apache/twill/internal/BundleCache.java:189-191 | When no delete throws, the deletion loop removes exactly the victims. |
| Trimming.ListedFacts | twill-core/src/main/java/org/apache/twill/internal/BundleCache.java:173 | The listing of the session directory holds each present child exactly once, with its own status. |
| Trimming.TrimPhaseWithinLimit | twill-core/src/main/java/org/apache/twill/internal/BundleCache.java:173-176 | A listing of at most `maxEntries` entries is left alone. |
| Trimming.NegativeLimitNeverTrims | twill-core/src/main/java/org/apache/twill/internal/BundleCache.java:174-191 | With a negative `maxEntries`, `size - maxEntries` exceeds the listing or wraps negative. `subList` then throws and nothing is deleted. |
| Trimming.TrimPhaseOnlyDeletesSessionEntries | twill-core/src/main/java/org/apache/twill/internal/BundleCache.java:171-195 | Whatever happens, phase B only removes children of the session directory and changes no entry's contents, time or the faulty set. |
| Trimming.TrimPhaseDeletesOldestPrefix | twill-core/src/main/java/org/apache/twill/internal/BundleCache.java:178-191 | Over the limit and with every entry deletable, phase B deletes exactly the first `size - maxEntries` statuses of the listing sorted by time. |
| Trimming.TrimPhaseLeavesLimit | twill-core/src/main/java/org/apache/twill/internal/BundleCache.java:178-191 | Over the limit and with every entry deletable, exactly `maxEntries` children survive and `size - maxEntries` are deleted. |
| Trimming.TrimPhaseKeepsNewest | twill-core/src/main/java/org/apache/twill/internal/BundleCache.java:178-191 | Over the limit, no surviving child of the session directory is older than any deleted entry, also when a throwing delete ended the batch early. |
| Trimming.TrimPhaseKeepsLimit | twill-core/src/main/java/org/apache/twill/internal/BundleCache.java:178-191 | Over the limit, at least `maxEntries` children of the session directory survive, however early a throwing delete ended the batch. |
| Trimming.DeleteEachStopsAtFirstFailure | twill-core/src/main/java/org/apache/twill/internal/BundleCache.java:189-193 | The deletion loop removes a prefix of the victims; when it stops short, the delete of the next victim throws on the store it leaves. |
| Trimming.TrimStopsAtFirstFailure | twill-core/src/main/java/org/apache/twill/internal/BundleCache.java:178-193 | Over the limit, phase B deletes the `j` oldest entries for some `j` up to `size - maxEntries`; when `j` falls short, deleting the next oldest entry throws. |
| Trimming.ListedAfterRemoval | twill-core/src/main/java/org/apache/twill/internal/BundleCache.java:173 | After entries are removed, the directory lists the statuses of the others, in the order of the first listing. |
| CycleFixpoint.RelistAfterTrim | twill-core/src/main/java/org/apache/twill/internal/BundleCache.java:173-185 | After the `j` oldest entries are removed, the session directory lists and sorts the rest exactly as the rest of the first sorted listing. |
| CycleFixpoint.OverLimitSettles | twill-core/src/main/java/org/apache/twill/internal/BundleCache.java:171-195 | Over the limit, a second run of phase B deletes nothing: either the first run got within the limit, or the second run's first victim is the entry whose delete threw, and it throws again. |
| CycleFixpoint.ReapPhaseShrinks | twill-core/src/main/java/org/apache/twill/internal/BundleCache.java:143-169 | Phase A changes no entry's kind: a file stays a file and a directory stays a directory. This is the only clause beyond the contract of Cleanup.ReapPhase, which it restates for use in the later lemmas. |
| CycleFixpoint.ReapAfterCycle | twill-core/src/main/java/org/apache/twill/internal/BundleCache.java:143-169 | Run on the result of a cycle at the same instant, phase A changes nothing. |
| CycleFixpoint.TrimPhaseSettles | twill-core/src/main/java/org/apache/twill/internal/BundleCache.java:171-195 | Run on its own result, phase B deletes nothing more, whether the first run completed its batch or a delete threw. |
| CycleFixpoint.CleanupCycleIdempotent | twill-core/src/main/java/org/apache/twill/internal/BundleCache.java:142-196 | Two cleanup runs at the same instant leave the store as one run does, also when deletes in the first run threw. |
| Cleanup.ExpireTimeIsFourPeriodsAgo | twill-core/src/main/java/org/apache/twill/internal/BundleCache.java:151 | When nothing overflows, the expiry time is exactly four cleanup periods before `now`. |
| Reaping.ReapPhaseSiblingVerdicts | twill-core/src/main/java/org/apache/twill/internal/BundleCache.java:152-166 | After phase A, each other session directory of the cache is gone entirely if it was `Reaped`, and is otherwise intact. |
| CycleFixpoint.SurvivorsNotReaped | twill-core/src/main/java/org/apache/twill/internal/BundleCache.java:152-166 | After a cycle whose phase A reaped, no surviving sibling is `Reaped` at the same instant: each one is the own session, is unreachable, has an unreachable marker, or has a marker newer than the expiry time. |
| CycleFixpoint.TrimAfterCycle | twill-core/src/main/java/org/apache/twill/internal/BundleCache.java:171-195 | Run on the result of a cycle, phase B deletes nothing, also when deletes in the first run threw. |
| CacheInvariant.StartUpKeeps | twill-core/src/main/java/org/apache/twill/internal/BundleCache.java:131-136 | Creating the marker and its missing directories keeps the store well formed. |
| CacheInvariant.ShutDownKeeps | twill-core/src/main/java/org/apache/twill/internal/BundleCache.java:200-205 | Deleting the marker keeps the store well formed. |
| CacheInvariant.CreateBundleKeeps | twill-core/src/main/java/org/apache/twill/internal/BundleCache.java:107-129 | A `createBundle` call keeps the store well formed, whether it completes or throws. |
| CacheInvariant.ReapPhaseKeeps | twill-core/src/main/java/org/apache/twill/internal/BundleCache.java:143-169 | Phase A keeps the store well formed: it removes whole subtrees only. |
| CacheInvariant.TrimPhaseKeeps | twill-core/src/main/java/org/apache/twill/internal/BundleCache.java:171-195 | Phase B keeps the store well formed: a non-recursive delete removes only files and empty directories. |
| CacheInvariant.CleanupCycleKeeps | twill-core/src/main/java/org/apache/twill/internal/BundleCache.java:142-196 | One run of the cleanup task keeps the store well formed. |

Notes on the longer rows:

- **BundleCache.CreateBundle.** The slot is `cacheDir/sessionId/<hex of the digest>`. The bundler runs exactly when the slot is absent and reachable, at most once.
  - An unreachable slot makes the call throw before anything changes.
  - A miss whose bundler or temporary write throws fails and leaves the store as it was, with no slot.
  - A miss completes exactly when the build completes and the copy from the built slot completes. A build that completes fills the slot with the bundler's output from the classes, stamped `now` by the temporary write and kept by the rename, even when the copy then throws. Phase B ranks the slot by that time.
  - A hit stamps the slot `now` and keeps a file slot's bytes, even when the copy then throws. It completes exactly when the copy from the stamped slot completes.
  - On either path the target ends up with the slot's bytes.
  - Nothing changes except the slot, its temporary file and the target, plus the directories those need.
- **BundleFacts.RepeatCallIsHit.** After a completed call, the same request again looks up the same slot and does not call the bundler. Its target receives the bytes the first call left in the slot, which after a miss are the bundler's output.
- **BundleCache.StartUp.** Start-up succeeds exactly when the marker is reachable and either present or creatable.
  - An absent marker is created as an empty file stamped `now`, together with the session directory.
  - An existing marker is kept.
  - Nothing else changes.
- **Reaping.ReapAllRemovesDeadSiblings.** The reaping loop removes exactly the subtrees of the listed siblings that are `Reaped` in the store it starts from, whatever the listing order. A sibling is `Reaped` when:
  - it is not the own session;
  - it is reachable;
  - its marker is absent or its marker's time is `<=` the expiry time.
- **Reaping.ReapPhaseVerdicts.** After phase A:
  - the own marker carries `now`;
  - the own session's other entries are intact;
  - every other session directory is deleted entirely when `Reaped`, and otherwise kept intact;
  - nothing outside the cache directory changes.

## Left out

- The `java.util.Timer` (scheduling, the daemon thread, `cancel`) is not modelled. One run of the `TimerTask` is the function `Cleanup.CleanupCycle`. Concurrent `createBundle` calls and writers in other processes are outside a sequential model.
- The SHA-256 digest is a function parameter that returns 32 bytes. Reading class files through the class loader and opening resource URLs are replaced by the bytes they yield.
- The `Bundler` implementation is a function parameter from the class list to the jar bytes or an IOException.
- The `Location` implementations are not part of this model, so the store fixes a few points the interface leaves open:
  - the temporary file of a slot is named `<slot>.<random>.tmp` and placed beside the slot;
  - `renameTo` that the store refuses (the destination exists, or a file blocks its directory) leaves the store as it was and does not throw;
  - `setLastModified`, `lastModified` and `listStatus` on a missing path throw;
  - a non-recursive `delete` of a missing path is not an error;
  - a non-recursive `delete` of a non-empty directory throws;
  - `createNew` creates the missing parent directories, so `startUp` makes the session directory;
  - writing a stream creates the target's missing parent directories, and so does the bundler writing the temporary file;
  - the status of a directory reports length 0;
  - directories keep their own last-modified time when their children change.
- BundleCache.CopyOut: a stream that fails after it was opened is modelled as failing before any effect. `ByteStreams.copy` opens the target before it reads, so a read that fails mid-copy leaves a truncated target, which the model does not produce.
- BundleCache.Populate: a bundler that throws part-way through writing the temporary file leaves, in the source, a partial `<slot>.<random>.tmp` in the session directory, which nothing deletes and phase B counts toward `maxEntries`. The model treats a failing bundler as writing nothing, so such leftovers are not modelled.
- A recursive `delete` that fails half-way is not modelled. The model assumes the delete either removes the whole subtree or throws before removing anything.
- A copy whose target is the slot itself is not modelled specially. It rewrites the slot with its own bytes.
- Trimming.TrimPhaseLeavesLimit requires every entry of the session directory to be deletable. Phase B runs its deletions inside one `try` block, so one throwing delete leaves every later victim in place and exactly `maxEntries` survivors is no longer true. Trimming.TrimPhaseKeepsLimit describes such a shortened batch.
- Trimming.TrimPhaseDeletesOldestPrefix requires every entry of the session directory to be deletable, for the same reason: the exact count of deleted entries assumes every delete succeeds. Trimming.TrimStopsAtFirstFailure and Trimming.TrimPhaseKeepsNewest describe a shortened batch.
- Trimming.NegativeLimitNeverTrims and the trimming lemmas assume the listing has fewer than 2^31 entries. A Java list cannot be longer.
- Reaping.ReapPhaseVerdicts requires that the store enumerates every entry, with no duplicates. It describes phase A when the heartbeat and the listing of the cache directory succeed. Reaping.FailedHeartbeatSkipsReaping covers the case where the heartbeat fails, and the contract of Cleanup.ReapPhase covers a listing that throws.
