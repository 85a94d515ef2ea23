# BeeGFS metadata file inode: locking, striping and attribute updates

This project models the core of the BeeGFS metadata server's `FileInode`
(`meta/source/storage/FileInode.cpp`). It covers one file inode's in-memory state and the
operations that change that state.

- **Entry lock manager.** The BSD `flock` and append locks live in two
  `EntryLockQueuesContainer`s. Each holds one exclusive holder, a set of shared holders,
  FIFO queues of exclusive and shared waiters, and the ack IDs of all waiters. A request
  locks, unlocks, cancels or waits. After any release the manager hands the lock to the
  waiters and returns the list of clients to notify.
- **Byte-range lock manager.** POSIX record locks are kept as inclusive byte ranges.
  Granted ranges of one handle are merged when they touch. An unlock trims or splits them.
  Waiters are granted in queue order unless an earlier exclusive waiter or a granted range
  is in the way.
- **`initFileInfoVec`.** It splits the file size over the stripe targets. Whole stripe sets
  are shared evenly, and the last partial set is handed out one chunk per target. A mask and
  a shift replace modulo and division when the number of targets is a power of two.
- **Sessions and attributes.**
  - Open and close sessions are counted.
  - `checkAccessAndOpen` applies the file-state access check before counting an open.
  - `setAttrData` and `incDecNumHardLinks` change the stat data and roll the change back
    when writing the inode to disk fails.

## Structure

Each lock manager has two layers.

- **Value layer.** `EntryLockSpec` and `RangeLockSpec` define one datatype for the
  manager's containers, and one function per C++ routine that computes the state the
  routine leaves. The one exception is the entry manager's hand-over to waiters:
  `EntryLockSpec.TryNextWaiters` is the corrected branch of "## Findings" row 1, which
  grants an exclusive waiter only when no shared lock is held, and the request, cancel and
  wrapper members built on it inherit that correction. The branch as written is
  `EntryLockSpec.TryNextWaitersAsWritten`.
- **Lemma modules.** `EntryLockLemmas`, `RangeLockLemmas`, `RangeMergeLemmas`,
  `RangeQueueLemmas` and `RangeDetails` prove what the routines promise:
  - mutual exclusion is kept;
  - no byte is gained or lost by a merge or an unlock;
  - a cancel removes exactly what it selects;
  - waiters are handed locks only when nothing blocks them;
  - a repeated request changes nothing.
- **Class layer.** `EntryLocking.EntryLockQueues` and `RangeLocking.RangeLockTable` hold the
  containers as fields. They perform the C++ loops in place, and each method is proved to
  leave exactly the state that the value function computes. Every state-changing method
  except `RangeLockTable.Grant` keeps the invariant `Valid()` whenever it held before the
  call; the range table's `Release` and `Request` do so for a well-formed range. `Grant`
  keeps it only for a request that passed the conflict check, which
  `RangeLockLemmas.GrantFacts` states.

`Striping` holds the stripe arithmetic. `FileInodeModel.FileInode` is the inode: its stat
data, session counters, chunk file vector and the three lock managers.

## Model

| member | source | states |
|---|---|---|
| EntryLocking.CheckConflicts | meta/source/storage/FileInode.cpp:1523-1565 | the loop over the shared holders reports a conflict exactly when a foreign exclusive holder exists, or the request is exclusive and a foreign shared holder exists, or the request is shared and an exclusive waiter is queued |
| EntryLocking.FilterWaiters | meta/source/storage/FileInode.cpp:1347-1426 | the erase loop over a waiter queue keeps exactly the waiters the selector does not match, in order, and returns the ones it removed |
| EntryLocking.FilterShared | meta/source/storage/FileInode.cpp:1436-1511 | the erase loop over the shared holders keeps exactly the holders the selector does not match, and reports whether one was removed |
| EntryLocking.GrantWaitingShared | meta/source/storage/FileInode.cpp:1662-1677 | popping every shared waiter grants each one, forgets its ack ID and notifies all of them in queue order |
| EntryLocking.EntryLockQueues.Release | meta/source/storage/FileInode.cpp:1602-1620 | the state after the unlock is the one `EntryLockSpec.Release` gives, and the invariant is kept |
| EntryLocking.EntryLockQueues.CancelMatching | meta/source/storage/FileInode.cpp:1436-1511 | the state after removing the selected holders and waiters is the one `EntryLockSpec.CancelMatching` gives, and the invariant is kept |
| EntryLocking.EntryLockQueues.TryNextWaiters | meta/source/storage/FileInode.cpp:1652-1696 | the state and notify list after handing over the lock are the ones `EntryLockSpec.TryNextWaiters` gives, and the invariant is kept. This holds for the corrected hand-over of "## Findings" row 1, not for the branch at 1683-1693 as written. |
| EntryLocking.EntryLockQueues.Request | meta/source/storage/FileInode.cpp:1198-1285 | the state, grant flag and notify list are the ones `EntryLockSpec.Request` gives, and the invariant is kept. This holds for the corrected hand-over of "## Findings" row 1, not for the branch at 1683-1693 as written. |
| EntryLocking.EntryLockQueues.CancelByClientID | meta/source/storage/FileInode.cpp:1347-1426 | the state and notify list are the ones `EntryLockSpec.CancelByClientID` gives, and the invariant is kept. This holds for the corrected hand-over of "## Findings" row 1, not for the branch at 1683-1693 as written. |
| EntryLocking.EntryLockQueues.CancelAllWaiters | meta/source/storage/FileInode.cpp:1312-1319 | both waiter queues and the waiter IDs are emptied, the granted locks stay, and the invariant is kept |
| EntryLockLemmas.GrantAllSharedFacts | meta/source/storage/FileInode.cpp:1662-1677 | granting all shared waiters keeps every old holder unchanged, adds exactly the waiters' handles and files each lock under its own handle |
| EntryLockLemmas.TryNextWaitersPolicy | meta/source/storage/FileInode.cpp:1652-1696 | nothing is granted while an exclusive lock is held; with no exclusive waiter all shared waiters are granted and notified; otherwise the head exclusive waiter is granted only when no shared lock is held; the notified ack IDs leave the waiter set |
| EntryLockLemmas.TryNextWaitersKeepsInvariants | meta/source/storage/FileInode.cpp:1652-1696 | handing over the lock keeps the bookkeeping invariant and mutual exclusion |
| EntryLockLemmas.CancelRemovesExactlyMatching | meta/source/storage/FileInode.cpp:1436-1511 | after a cancel, a holder or waiter remains exactly when it was there and the selector does not match it; removed waiters' ack IDs are gone; the flag is true exactly when something matched |
| EntryLockLemmas.CancelMatchingKeepsInvariants | meta/source/storage/FileInode.cpp:1436-1511 | a cancel keeps the bookkeeping invariant and mutual exclusion |
| EntryLockLemmas.CancelLeavesNothingOfClient | meta/source/storage/FileInode.cpp:1347-1426 | after cancelling a client node, no holder and no waiter of that node is left |
| EntryLockLemmas.TryNextKeepsNothingOfClient | meta/source/storage/FileInode.cpp:1652-1696 | handing over the lock brings no lock of an absent client node back and notifies none of its waiters |
| EntryLockLemmas.CancelByClientIDLeavesNothingOfClient | meta/source/storage/FileInode.cpp:1347-1426 | after the client-node cancel and the hand-over, no holder, waiter or notified lock belongs to that node, and the invariants hold. This holds for the corrected hand-over of "## Findings" row 1, not for the branch at 1683-1693 as written. |
| EntryLockLemmas.CancelAllWaitersKeepsInvariants | meta/source/storage/FileInode.cpp:1312-1319 | dropping all waiters keeps the holders, empties the queues and the waiter IDs, and keeps the invariants |
| EntryLockLemmas.ReleaseKeepsInvariants | meta/source/storage/FileInode.cpp:1602-1620 | an unlock leaves the handle with no lock, touches no waiter, keeps the invariants, and reports a release exactly when the handle held a lock |
| EntryLockLemmas.GrantKeepsInvariants | meta/source/storage/FileInode.cpp:1627-1640 | granting a request that passed the conflict check keeps mutual exclusion, and the handle then holds the requested lock |
| EntryLockLemmas.EnqueueKeepsInvariants | meta/source/storage/FileInode.cpp:1247-1278 | queueing a request whose ack ID is not yet waiting keeps the invariants |
| EntryLockLemmas.RequestKeepsInvariants | meta/source/storage/FileInode.cpp:1198-1285 | every lock, unlock or cancel request keeps the bookkeeping invariant and mutual exclusion. This holds for the corrected hand-over of "## Findings" row 1, not for the branch at 1683-1693 as written. |
| EntryLockLemmas.RepeatedRequestChangesNothing | meta/source/storage/FileInode.cpp:1228-1238 | a request whose ack ID is already waiting, or whose lock is already held, changes nothing and notifies nobody; it counts as granted exactly when it is not waiting |
| EntryLockLemmas.GrantedRequestIsHeld | meta/source/storage/FileInode.cpp:1198-1285 | a request reported as granted is held afterwards |
| EntryLockLemmas.NewRequestGrantedIffNoConflict | meta/source/storage/FileInode.cpp:1195-1285 | a new lock request, neither waiting nor already held, is reported granted exactly when no conflict is in its way |
| EntryLockLemmas.ConflictingRequestWaits | meta/source/storage/FileInode.cpp:1240-1285 | a conflicting request is not granted; without permission to wait it changes nothing; with it the request is appended to its queue and its ack ID recorded. This holds for the corrected hand-over of "## Findings" row 1, not for the branch at 1683-1693 as written. |
| EntryLockLemmas.UpgradeGrantedBesideSharedHolderAsWritten | meta/source/storage/FileInode.cpp:1683-1693 | with the exclusive branch as written, a shared-to-exclusive upgrade is granted while another handle holds a shared lock; the corrected hand-over keeps it waiting |
| RangeDetails.Merge | meta/source/storage/FileInode.cpp:2207-2282 | a merged range keeps the request's handle, ack ID and kind and spans both ranges |
| RangeDetails.OverlapKind | meta/source/storage/FileInode.cpp:2292-2412 | the classification is not `NoOverlap` exactly when the ranges overlap, and is `Equals` or `IsContained` exactly when the granted range contains the request |
| RangeDetails.OverlapsIffCommonByte | meta/source/storage/FileInode.cpp:2134-2200 | two well-formed ranges overlap exactly when a byte lies in both |
| RangeDetails.MergeCoversUnion | meta/source/storage/FileInode.cpp:2207-2282 | merging touching ranges covers exactly the bytes of the two |
| RangeDetails.RemainderFacts | meta/source/storage/FileInode.cpp:2420-2622 | trimming or splitting a range leaves well-formed, non-adjacent pieces inside it that cover exactly its bytes outside the unlock, and nothing exactly when the unlock contains it |
| RangeMergeLemmas.MergeScanFacts | meta/source/storage/FileInode.cpp:2207-2282 | the merge loop grows the request to cover every same-handle range it touches, erases only ranges inside the result, gains no byte, and leaves no same-handle range touching it |
| RangeMergeLemmas.MergeInsertHeld | meta/source/storage/FileInode.cpp:2207-2282 | after merge and insert the set stays merged, and a handle holds a byte exactly when it held it before or the request covers it |
| RangeMergeLemmas.MergeScanOverlap | meta/source/storage/FileInode.cpp:2207-2282 | a range overlapping the merged request overlaps the request or one of the handle's old ranges |
| RangeMergeLemmas.GrantedInIffHeld | meta/source/storage/FileInode.cpp:2292-2412 | on a merged set, the granted check holds exactly when the handle holds every byte of the request |
| RangeMergeLemmas.RemainderHeld | meta/source/storage/FileInode.cpp:2420-2622 | the pieces an unlock leaves of a range hold exactly that range's bytes outside the unlock |
| RangeMergeLemmas.UnlockScanFacts | meta/source/storage/FileInode.cpp:2420-2622 | one unlock loop removes exactly the unlocked bytes of the handle, keeps other handles' ranges and the set merged, reports whether a range overlapped, and stops early exactly when one range contained the whole unlock |
| RangeLocking.MergeRanges | meta/source/storage/FileInode.cpp:2207-2282 | the in-place merge loop returns the kept ranges and the grown request that `MergeScan` describes |
| RangeLocking.UnlockRanges | meta/source/storage/FileInode.cpp:2420-2622 | the in-place unlock loop returns the ranges, flag and early-stop flag that `UnlockScan` describes |
| RangeLocking.ScanGranted | meta/source/storage/FileInode.cpp:2292-2412 | the granted-check loop returns what `GrantedIn` describes |
| RangeLocking.FilterRanges | meta/source/storage/FileInode.cpp:2008-2098 | the erase loop keeps exactly the ranges the selector does not match, in order, and returns the removed ones |
| RangeLocking.CheckConflictsEx | meta/source/storage/FileInode.cpp:2134-2200 | reports a conflict exactly when a foreign overlapping exclusive range exists, or the request is exclusive and a foreign overlapping shared range exists, or a foreign overlapping exclusive waiter is among the first `limit` (all when negative) |
| RangeLocking.RangeLockTable.IsGranted | meta/source/storage/FileInode.cpp:2292-2412 | returns whether the handle holds the requested range in the set of its kind |
| RangeLocking.RangeLockTable.Release | meta/source/storage/FileInode.cpp:2420-2622 | the table after the unlock is the one `RangeLockSpec.Release` gives, and the invariant is kept for a well-formed unlock |
| RangeLocking.RangeLockTable.Grant | meta/source/storage/FileInode.cpp:2207-2282 | the table after merging and inserting is the one `RangeLockSpec.Grant` gives |
| RangeLocking.RangeLockTable.CancelMatching | meta/source/storage/FileInode.cpp:2008-2098 | the table after removing the selected ranges and waiters is the one `RangeLockSpec.CancelMatching` gives, and the invariant is kept |
| RangeLocking.RangeLockTable.TryNextWaiters | meta/source/storage/FileInode.cpp:2630-2681 | the table and notify list after the two grant loops are the ones `RangeLockSpec.TryNextWaiters` gives, and the invariant is kept |
| RangeLocking.RangeLockTable.Request | meta/source/storage/FileInode.cpp:1804-1890 | the table, grant flag and notify list are the ones `RangeLockSpec.Request` gives, and the invariant is kept for a well-formed request |
| RangeLocking.RangeLockTable.CancelByClientID | meta/source/storage/FileInode.cpp:1907-2000 | the table and notify list are the ones `RangeLockSpec.CancelByClientID` gives, and the invariant is kept |
| RangeLocking.RangeLockTable.CancelAllWaiters | meta/source/storage/FileInode.cpp:1895-1902 | both waiter queues and the waiter IDs are emptied, and the invariant is kept |
| RangeLockLemmas.UnlockScanShrunk | meta/source/storage/FileInode.cpp:2420-2622 | an unlock loop leaves only pieces of old ranges of the same handle, well formed and merged |
| RangeLockLemmas.ShrunkConflicts | meta/source/storage/FileInode.cpp:2134-2200 | a request free of conflicts stays free when the granted ranges only shrink |
| RangeLockLemmas.ReleaseHeldBytes | meta/source/storage/FileInode.cpp:2420-2622 | an unlock removes exactly the handle's unlocked bytes from the exclusive ranges, and from the shared ones unless an exclusive range contained the whole unlock; the flag is true exactly when a range of the handle overlapped |
| RangeLockLemmas.ReleaseKeepsInvariants | meta/source/storage/FileInode.cpp:2420-2622 | an unlock touches no waiter, only shrinks granted ranges and keeps the invariants |
| RangeLockLemmas.ReleaseFacts | meta/source/storage/FileInode.cpp:2420-2622 | an unlock removes exactly the handle's unlocked bytes from the exclusive ranges, and also from the shared ones unless an exclusive range contained the whole unlock; it keeps the invariants and reports whether a range of the handle overlapped |
| RangeLockLemmas.GrantExclNoConflict | meta/source/storage/FileInode.cpp:2248-2282 | inserting an exclusive range that no foreign range blocks keeps mutual exclusion |
| RangeLockLemmas.GrantSharedNoConflict | meta/source/storage/FileInode.cpp:2207-2243 | inserting a shared range that no foreign exclusive range blocks keeps mutual exclusion |
| RangeLockLemmas.GrantFacts | meta/source/storage/FileInode.cpp:2207-2282 | granting a request that passed the conflict check keeps the invariants, and adds exactly the request's bytes to the handle in the set of its kind |
| RangeLockLemmas.ConflictsGrow | meta/source/storage/FileInode.cpp:2134-2200 | a conflict persists while the granted ranges only grow and the exclusive waiters before the limit stay in place |
| RangeLockLemmas.HandOverTrans | meta/source/storage/FileInode.cpp:2630-2681 | two hand-over steps in a row are one hand-over of both notify lists |
| RangeLockLemmas.GrantExclWaitersFacts | meta/source/storage/FileInode.cpp:2637-2657 | the exclusive grant loop keeps the invariants, grants only queued waiters, and leaves each remaining exclusive waiter blocked by the table or by an earlier waiter |
| RangeLockLemmas.GrantSharedWaitersFacts | meta/source/storage/FileInode.cpp:2659-2678 | the shared grant loop keeps the invariants, grants only queued waiters, and leaves each remaining shared waiter blocked |
| RangeLockLemmas.GrantExclWaitersOrder | meta/source/storage/FileInode.cpp:2637-2657 | the exclusive loop notifies the waiters it grants in queue order, each enclosing its request, and the waiters it leaves keep their order |
| RangeLockLemmas.GrantSharedWaitersOrder | meta/source/storage/FileInode.cpp:2659-2678 | the shared loop notifies the waiters it grants in queue order, each enclosing its request, and the waiters it leaves keep their order |
| RangeLockLemmas.TryNextWaitersOrder | meta/source/storage/FileInode.cpp:2630-2681 | the notify list is the granted exclusive waiters, then the granted shared waiters, each part in queue order, and both queues keep the order of the waiters left |
| RangeLockLemmas.TryNextWaitersFacts | meta/source/storage/FileInode.cpp:2630-2681 | handing over keeps the invariants and leaves every remaining waiter blocked; the notify list is the granted exclusive waiters and then the granted shared ones, each part in queue order, each notified lock enclosing the range its waiter asked for; the waiters left keep their queue order |
| RangeLockLemmas.CancelMatchingKeepsInvariants | meta/source/storage/FileInode.cpp:2008-2098 | a cancel keeps the invariants |
| RangeLockLemmas.CancelRemovesExactlyMatching | meta/source/storage/FileInode.cpp:2008-2098 | after a cancel, a range or waiter remains exactly when it was there and the selector does not match it; removed waiters' ack IDs are gone; the flag is true exactly when something matched |
| RangeLockLemmas.TryNextKeepsOwnersOut | meta/source/storage/FileInode.cpp:2630-2681 | handing over brings no range of an absent client node back and notifies none of its waiters |
| RangeLockLemmas.CancelByClientIDLeavesNothingOfClient | meta/source/storage/FileInode.cpp:1907-2000 | after the client-node cancel and the hand-over, no range, waiter or notified lock belongs to that node, and the invariants hold |
| RangeLockLemmas.CancelAllWaitersKeepsInvariants | meta/source/storage/FileInode.cpp:1895-1902 | dropping all waiters keeps the granted ranges, empties the queues and the waiter IDs, and keeps the invariants |
| RangeLockLemmas.EnqueueKeepsInvariants | meta/source/storage/FileInode.cpp:1862-1882 | queueing a request whose ack ID is not yet waiting keeps the invariants and records the ack ID |
| RangeLockLemmas.RequestKeepsInvariants | meta/source/storage/FileInode.cpp:1804-1890 | every well-formed lock, unlock or cancel request keeps the invariants |
| RangeLockLemmas.RepeatedRequestChangesNothing | meta/source/storage/FileInode.cpp:1833-1843 | a request whose ack ID is already waiting, or whose bytes are already held, changes nothing and notifies nobody; it counts as granted exactly when it is not waiting |
| RangeLockLemmas.GrantedRequestIsHeld | meta/source/storage/FileInode.cpp:1804-1890 | after a request reported as granted, the handle holds every byte of it in the set of its kind |
| RangeLockLemmas.NewRequestGrantedIffNoConflict | meta/source/storage/FileInode.cpp:1801-1890 | a new lock request, neither waiting nor already held, is reported granted exactly when no conflict is in its way |
| RangeLockLemmas.ConflictingRequestWaits | meta/source/storage/FileInode.cpp:1845-1890 | a conflicting request is not granted; without permission to wait it changes nothing; with it the request is queued or granted by the hand-over that follows |
| RangeMergeBound.BoundedScanMatchesFullScan | meta/source/storage/FileInode.cpp:2253-2255 | on ranges ordered by start, the merge loop that stops at the first range beyond the unwrapped `end + 1` computes the full merge scan |
| RangeMergeBound.WrappedBoundSkipsAdjacentRange | meta/source/storage/FileInode.cpp:2253-2255 | with the 64-bit bound as written, a request ending at the largest offset is not merged with the same handle's adjacent range, while the full scan merges them |
| Striping.MaskIsModulo | meta/source/storage/FileInode.cpp:88 | masking with `2^k - 1` is the remainder modulo `2^k` |
| Striping.ShiftIsDivision | meta/source/storage/FileInode.cpp:90 | shifting right by `k` is dividing by `2^k` |
| Striping.ProductIsPowerOfTwo | meta/source/storage/FileInode.cpp:71-90 | the stripe set size is a power of two when both factors are |
| Striping.DivisionLayout | meta/source/storage/FileInode.cpp:92-97 | the last stripe set is smaller than a stripe set, and it starts where the complete sets end |
| Striping.FastPathMatchesDivision | meta/source/storage/FileInode.cpp:86-97 | with power-of-two sizes the mask-and-shift path gives the same layout as the division path |
| Striping.ComputeLayout | meta/source/storage/FileInode.cpp:71-97 | either path yields the division layout of the file over `chunkSize * numTargets` |
| Striping.DivisionLayoutEven | meta/source/storage/FileInode.cpp:73-97 | each target's share of the complete stripe sets is a whole number of chunks, and the shares add up to the start of the last set |
| Striping.SharesAddUp | meta/source/storage/FileInode.cpp:104-131 | the first `n` targets hold `n` full shares plus `n` chunks of the last stripe set, or all of it |
| Striping.LengthsSumToFileSize | meta/source/storage/FileInode.cpp:62-132 | the chunk file lengths of all targets add up to the file size |
| Striping.LengthsNonIncreasing | meta/source/storage/FileInode.cpp:104-131 | chunk file lengths never grow along the target list, and differ by at most one chunk |
| FileInodeModel.AddWrappedUndo | meta/source/storage/FileInode.cpp:2758-2768 | subtracting the added value restores an unsigned 32-bit link count, whatever the wrap-around |
| FileInodeModel.IncSessions | meta/source/storage/FileInode.cpp:3036-3037 | an open adds one session, to the read counter when the read flag is set and to the write counter otherwise |
| FileInodeModel.DecSessions | meta/source/storage/FileInode.cpp:226-249 | a close removes one session from the counter its flags select, and nothing when that counter is zero |
| FileInodeModel.CloseUndoesOpen | meta/source/storage/FileInode.cpp:222-255 | a close with the flags of an open restores the counters |
| FileInodeModel.OpenDeniedCases | meta/source/storage/FileInode.cpp:3013-3034 | an unlocked file or a bypassed check admits every open; a fully locked file refuses every unbypassed open; a file neither fully nor write locked admits an open that does not ask to read |
| FileInodeModel.ApplyAttribs | meta/source/storage/FileInode.cpp:1090-1120 | each flagged attribute takes the new value and each unflagged one keeps the old value |
| FileInodeModel.ChunkInfos | meta/source/storage/FileInode.cpp:104-131 | the vector built for `n` targets has `n` entries |
| FileInodeModel.ChunkInfosAt | meta/source/storage/FileInode.cpp:104-131 | entry `i` of the vector is the entry built for target `i` |
| FileInodeModel.ChunkInfosSum | meta/source/storage/FileInode.cpp:104-131 | the entries' lengths add up to the layout's lengths of the same targets |
| FileInodeModel.ChunkInfosCoverFile | meta/source/storage/FileInode.cpp:62-132 | the chunk files of all targets hold exactly the file's bytes; every entry carries the chunk size, its logarithm and the file's times, and its length is the same whole number of chunks for every target plus at most one more chunk |
| FileInodeModel.ChunkInfoEntry | meta/source/storage/FileInode.cpp:104-131 | one entry: the chunk size, its logarithm, the file's times, and a length between the whole-chunk share of the complete stripe sets and one chunk more |
| FileInodeModel.StampTimesAgreesWithAttribs | meta/source/storage/FileInode.cpp:1133-1145 | after a successful change every chunk entry carries the inode's new modification and access times, and nothing else in it changes |
| FileInodeModel.FileInode.constructor | meta/source/storage/FileInode.cpp:49-57 | a new inode, before `initFileInfoVec`, has no sessions, no chunk entries and empty, valid lock managers |
| FileInodeModel.FileInode.InitFileInfoVec | meta/source/storage/FileInode.cpp:62-132 | appends exactly the per-target entries of the division layout, changing nothing else |
| FileInodeModel.FileInode.DecNumSessionsAndStore | meta/source/storage/FileInode.cpp:222-255 | the counters become `DecSessions` of the old ones, and nothing else changes |
| FileInodeModel.FileInode.IncNumSessions | meta/source/storage/FileInode.cpp:3036-3037 | the counters become `IncSessions` of the old ones, and nothing else changes |
| FileInodeModel.FileInode.CheckAccessAndOpen | meta/source/storage/FileInode.cpp:3009-3038 | the open is refused exactly when `OpenDenied` holds, and then the counters stay; otherwise the session is counted |
| FileInodeModel.FileInode.SetAttrData | meta/source/storage/FileInode.cpp:1076-1151 | the change time is stamped; the flagged attributes are kept only if the store succeeds; the original-UID feature flag is added even on failure; the chunk entries take the new times only after a successful store |
| FileInodeModel.FileInode.SetChunkModificationTimes | meta/source/storage/FileInode.cpp:1135-1139 | every chunk entry takes the new modification time |
| FileInodeModel.FileInode.SetChunkLastAccessTimes | meta/source/storage/FileInode.cpp:1141-1145 | every chunk entry takes the new access time |
| FileInodeModel.FileInode.IncDecNumHardLinks | meta/source/storage/FileInode.cpp:2754-2773 | the change time is stamped, and the link count moves by `value` (32-bit wrap-around) only if the store succeeds |
| FileInodeModel.FileInode.FlockEntry | meta/source/storage/FileInode.cpp:1180-1186 | the flock manager performs `EntryLockSpec.Request` and the managers stay valid. This holds for the corrected hand-over of "## Findings" row 1, not for the branch at 1683-1693 as written. |
| FileInodeModel.FileInode.FlockAppend | meta/source/storage/FileInode.cpp:1163-1169 | the append manager performs `EntryLockSpec.Request` and the managers stay valid. This holds for the corrected hand-over of "## Findings" row 1, not for the branch at 1683-1693 as written. |
| FileInodeModel.FileInode.FlockEntryCancelByClientID | meta/source/storage/FileInode.cpp:1335-1340 | the flock manager performs the client-node cancel and stays valid. This holds for the corrected hand-over of "## Findings" row 1, not for the branch at 1683-1693 as written. |
| FileInodeModel.FileInode.FlockAppendCancelByClientID | meta/source/storage/FileInode.cpp:1325-1330 | the append manager performs the client-node cancel and stays valid. This holds for the corrected hand-over of "## Findings" row 1, not for the branch at 1683-1693 as written. |
| FileInodeModel.FileInode.FlockEntryCancelAllWaiters | meta/source/storage/FileInode.cpp:1300-1305 | the flock manager drops all its waiters and stays valid |
| FileInodeModel.FileInode.FlockAppendCancelAllWaiters | meta/source/storage/FileInode.cpp:1290-1295 | the append manager drops all its waiters and stays valid |
| FileInodeModel.FileInode.FlockRange | meta/source/storage/FileInode.cpp:1789-1794 | the range manager performs `RangeLockSpec.Request` and stays valid for a well-formed request |
| FileInodeModel.FileInode.FlockRangeGetConflictor | meta/source/storage/FileInode.cpp:2105-2119 | reports a conflict exactly when the request conflicts with a granted range or any exclusive waiter |

## Left out

- Writing the inode to disk (`storeUpdatedInodeUnlocked`) is not modelled. Its result is the
  `storeOk` parameter of `SetAttrData` and `IncDecNumHardLinks`, and
  `DecNumSessionsAndStore` ignores it, as the source does.
- The clock (`TimeAbs`) is the `now` parameter.
- Logging is not modelled.
- The inode's read-write lock and the lock-manager mutexes are not modelled: every public
  operation is one atomic step.
- The serialization of the inode, the extended-attribute functions,
  `updateDynamicAttribs`, `setRemoteStorageTarget` and the other `FileInode` members outside
  the locking, striping, session and attribute code are not part of this model.
- `meta/source/net/msghelpers/MsgHelperClose.cpp` is not part of this model.
- The lock containers are declared in `FileInode.h`, which is not part of this model. The
  model's container constructors create empty, valid containers.
- `Locking.h`, `FileInode.h`, `StatData.h`, `FileState.h` and `MathTk.h` are not part of
  this model. The model therefore assumes these semantics:
  - shared entry holders are one per handle;
  - `incNumSessionsUnlocked` counts a reader exactly when the read flag is set, mirroring
    `decNumSessionsAndStore`;
  - the link count is an unsigned 32-bit number changed by `+=`;
  - `StatData::BLOCK_SHIFT` is the constructor parameter `blockShift`;
  - `FileState` answers four yes/no questions;
  - `MathTk::isPowerOfTwo` and `log2Int32` are the usual functions on positive numbers.
- The granted range sets and the shared entry holders are ordered sets in the source. Here
  they are sequences and a map whose order carries no meaning. The early exits the range
  loops take once the set order passes the request's end are left out;
  `RangeMergeBound.BoundedScanMatchesFullScan` shows that the exit in `flockRangeExclusive`
  loses nothing on ordered ranges.
- `FileInodeModel.FileInode.FlockRangeGetConflictor`: does not return the conflicting lock
  (`outConflictor`), only whether one exists.
- `FileInodeModel.FileInode.InitFileInfoVec`: does not model a negative file size, or the
  64-bit overflow of `chunkSize * numTargets`; it requires a power-of-two chunk size and at
  least one target, which the source assumes.
- `FileInodeModel.FileInode.IncNumSessions`: the session counters are unbounded, without
  32-bit wrap-around.
- `FileInodeModel.FileInode.SetAttrData`: the caller's attributes pointer, which may be
  null when no flag is set, is a value here. The source only reads it when a flag is set.
- `EntryLocking.EntryLockQueues.TryNextWaiters`: performs the corrected hand-over of
  "## Findings" row 1. When a shared lock is held it grants no exclusive waiter, where
  the source at 1683-1693 grants the head one.
- `EntryLocking.EntryLockQueues.Request`: the hand-over after a release is the corrected
  one, so an exclusive upgrade beside another shared holder stays queued where the source
  grants it.
- `EntryLocking.EntryLockQueues.CancelByClientID`: the hand-over after the cancel is the
  corrected one.
- `EntryLockLemmas.CancelByClientIDLeavesNothingOfClient`: the invariants it states hold for
  the corrected hand-over only; the source as written can break mutual exclusion
  (`EntryLockLemmas.UpgradeGrantedBesideSharedHolderAsWritten`).
- `EntryLockLemmas.RequestKeepsInvariants`: mutual exclusion is kept by the corrected
  hand-over only; the source as written breaks it on the input of "## Findings" row 1.
- `EntryLockLemmas.ConflictingRequestWaits`: the queued request stays queued under the
  corrected hand-over only; as written, an exclusive upgrade beside a shared holder is
  granted at once.
- `FileInodeModel.FileInode.FlockEntry`: delegates to the request with the corrected
  hand-over.
- `FileInodeModel.FileInode.FlockAppend`: delegates to the request with the corrected
  hand-over.
- `FileInodeModel.FileInode.FlockEntryCancelByClientID`: delegates to the cancel with the
  corrected hand-over.
- `FileInodeModel.FileInode.FlockAppendCancelByClientID`: delegates to the cancel with the
  corrected hand-over.
- The `FileInodeModel` lock wrappers do not model the lock-manager mutex taken around each
  call.

## Findings

| source | as written | input that shows it | evidently intended | confidence | as-written member | corrected member |
|---|---|---|---|---|---|---|
| meta/source/storage/FileInode.cpp:1683-1693 | `flockEntryTryNextWaiters` grants the head exclusive waiter whenever no exclusive lock is held. It does not check the shared holders, although the comment before it says that neither exclusive nor shared locks are set. | Handles A and B hold shared locks. B asks for an exclusive lock and may wait. The conflict with A makes B release its shared lock and queue. The hand-over then grants B exclusively while A still holds its shared lock. | Grant the head exclusive waiter only when no shared lock is held. | medium; not executed | EntryLockLemmas.UpgradeGrantedBesideSharedHolderAsWritten | EntryLockLemmas.TryNextWaitersKeepsInvariants |
| meta/source/storage/FileInode.cpp:2253-2255 | The merge loop of `flockRangeExclusive` stops at the first range starting beyond `end + 1`. That bound is computed in 64 bits, so it wraps to 0 when the request ends at the largest offset. | A handle holds bytes 5..9 exclusively and locks 10 up to the largest 64-bit offset. The loop stops at once and the two adjacent ranges of the handle stay separate. | Stop beyond the unwrapped bound, so adjacent ranges of the handle are merged. | low; not executed | RangeMergeBound.WrappedBoundSkipsAdjacentRange | RangeMergeBound.BoundedScanMatchesFullScan |
