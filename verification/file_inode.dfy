/** The per-file state of the metadata server's `FileInode` that the model covers: the
    attributes kept in its stat data, the open-session counters, the chunk file information of
    each stripe target and the three lock managers. Every public operation runs under the
    inode's write lock in the source, so each method here is one atomic step. Writes of the
    inode to disk are not modelled; where an operation depends on whether that write
    succeeded, the outcome is a parameter (`storeOk`). */
module FileInodeModel {
  import opened LockCommon
  import opened Striping
  import EntryLockSpec
  import RangeDetails
  import RangeLockSpec
  import EntryLocking
  import RangeLocking

  /** One more than the largest unsigned 32-bit value. */
  const Uint32Limit: nat := 0x1_0000_0000

  type Uint32 = x: int | 0 <= x < Uint32Limit

  /** Adding a signed value to an unsigned 32-bit counter, with wrap-around. */
  function AddWrapped(n: Uint32, value: int): Uint32
  {
    (n + value) % Uint32Limit
  }

  /** Adding `-value` after `value` restores the counter, whatever the wrap-around. */
  lemma AddWrappedUndo(n: Uint32, value: int)
    ensures AddWrapped(AddWrapped(n, value), -value) == n
  {
    var m := AddWrapped(n, value);
    var q := (n + value) / Uint32Limit;
    assert n + value == Uint32Limit * q + m;
    assert m - value == n + Uint32Limit * (-q);
    ShiftedModulo(n, -q);
  }

  lemma ShiftedModulo(n: Uint32, q: int)
    ensures (n + Uint32Limit * q) % Uint32Limit == n
  {
    var x := n + Uint32Limit * q;
    assert x == Uint32Limit * (x / Uint32Limit) + x % Uint32Limit;
    assert Uint32Limit * (q - x / Uint32Limit) == x % Uint32Limit - n;
    MulInside(q - x / Uint32Limit, x % Uint32Limit - n);
  }

  /** A multiple of `Uint32Limit` strictly between its negation and itself is zero. */
  lemma MulInside(k: int, diff: int)
    requires Uint32Limit * k == diff && -(Uint32Limit as int) < diff < Uint32Limit
    ensures k == 0 && diff == 0
  {
    MulAtLeast(Uint32Limit, k);
    MulAtLeast(Uint32Limit, -k);
    assert Uint32Limit * -k == -diff;
  }

  // ---------------------------------------------------------------------------------------
  // Open sessions and the access check

  /** The `OPENFILE_ACCESS_...` flags of an open request, as a set. */
  datatype AccessFlag = Read | Write | ReadWrite | Append | Trunc

  /** The predicates of the file's access state the open check asks. */
  datatype FileState = FileState(unlocked: bool, fullyLocked: bool, readLocked: bool, writeLocked: bool)

  datatype OpenResult = Success | FileAccessDenied

  /** `numSessionsRead` and `numSessionsWrite`. */
  datatype SessionCounts = SessionCounts(read: nat, write: nat)

  /** The counter an open or close with these flags uses: the read counter only when the read
      flag is set; read-write opens count as writers. */
  predicate CountsAsReader(accessFlags: set<AccessFlag>)
  {
    Read in accessFlags
  }

  function IncSessions(c: SessionCounts, accessFlags: set<AccessFlag>): (r: SessionCounts)
    ensures r.read + r.write == c.read + c.write + 1
    ensures CountsAsReader(accessFlags) ==> r.write == c.write
    ensures !CountsAsReader(accessFlags) ==> r.read == c.read
  {
    if CountsAsReader(accessFlags) then c.(read := c.read + 1) else c.(write := c.write + 1)
  }

  /** Closing: the counter is decremented unless it is already zero. */
  function DecSessions(c: SessionCounts, accessFlags: set<AccessFlag>): (r: SessionCounts)
    ensures r.read <= c.read && r.write <= c.write
    ensures CountsAsReader(accessFlags) ==> r.write == c.write
    ensures !CountsAsReader(accessFlags) ==> r.read == c.read
    ensures r.read + r.write == c.read + c.write
      - (if (if CountsAsReader(accessFlags) then c.read else c.write) > 0 then 1 else 0)
  {
    if CountsAsReader(accessFlags) then
      if c.read == 0 then c else c.(read := c.read - 1)
    else
      if c.write == 0 then c else c.(write := c.write - 1)
  }

  /** A close with the flags of an open undoes that open's count. */
  lemma CloseUndoesOpen(c: SessionCounts, accessFlags: set<AccessFlag>)
    ensures DecSessions(IncSessions(c, accessFlags), accessFlags) == c
  {
  }

  predicate ReadRequested(accessFlags: set<AccessFlag>)
  {
    Read in accessFlags || ReadWrite in accessFlags
  }

  predicate WriteRequested(accessFlags: set<AccessFlag>)
  {
    Write in accessFlags || ReadWrite in accessFlags || Trunc in accessFlags
  }

  /** The rule of `checkAccessAndOpen`: an open is refused when the check is not bypassed, the
      file is not unlocked, and it is fully locked, or read-locked while reading is asked for,
      or write-locked while writing or truncating is asked for. */
  predicate OpenDenied(state: FileState, accessFlags: set<AccessFlag>, bypassAccessCheck: bool)
  {
    && !bypassAccessCheck
    && !state.unlocked
    && (|| state.fullyLocked
        || (state.readLocked && ReadRequested(accessFlags))
        || (state.writeLocked && WriteRequested(accessFlags)))
  }

  /** An unlocked file, or a bypassed check, admits every open; a fully locked file refuses
      every open that does not bypass the check. */
  lemma OpenDeniedCases(state: FileState, accessFlags: set<AccessFlag>, bypassAccessCheck: bool)
    ensures state.unlocked || bypassAccessCheck ==> !OpenDenied(state, accessFlags, bypassAccessCheck)
    ensures !state.unlocked && state.fullyLocked && !bypassAccessCheck ==> OpenDenied(state, accessFlags, bypassAccessCheck)
    ensures !state.fullyLocked && !state.writeLocked && !ReadRequested(accessFlags) ==> !OpenDenied(state, accessFlags, bypassAccessCheck)
  {
  }

  // ---------------------------------------------------------------------------------------
  // Attributes

  /** The `SETATTR_CHANGE_...` flags. */
  datatype AttribChange = ChangeMode | ChangeModificationTime | ChangeLastAccessTime | ChangeUserId | ChangeGroupId

  datatype SettableFileAttribs = SettableFileAttribs(
    mode: int, userID: nat, groupID: nat, modificationTimeSecs: int, lastAccessTimeSecs: int)

  /** The part of the inode's stat data the model keeps. `targetChunkBlocks` holds the block
      counts of sparse files, one per target. */
  datatype StatData = StatData(
    settable: SettableFileAttribs,
    attribChangeTimeSecs: int,
    fileSize: nat,
    numHardLinks: Uint32,
    isSparse: bool,
    targetChunkBlocks: seq<nat>)

  /** The attributes after a change with the given flags: flagged fields take the new value. */
  function ApplyAttribs(a: SettableFileAttribs, validAttribs: set<AttribChange>, n: SettableFileAttribs): (r: SettableFileAttribs)
    ensures ChangeMode in validAttribs ==> r.mode == n.mode
    ensures ChangeMode !in validAttribs ==> r.mode == a.mode
    ensures ChangeModificationTime in validAttribs ==> r.modificationTimeSecs == n.modificationTimeSecs
    ensures ChangeModificationTime !in validAttribs ==> r.modificationTimeSecs == a.modificationTimeSecs
    ensures ChangeLastAccessTime in validAttribs ==> r.lastAccessTimeSecs == n.lastAccessTimeSecs
    ensures ChangeLastAccessTime !in validAttribs ==> r.lastAccessTimeSecs == a.lastAccessTimeSecs
    ensures ChangeUserId in validAttribs ==> r.userID == n.userID
    ensures ChangeUserId !in validAttribs ==> r.userID == a.userID
    ensures ChangeGroupId in validAttribs ==> r.groupID == n.groupID
    ensures ChangeGroupId !in validAttribs ==> r.groupID == a.groupID
  {
    SettableFileAttribs(
      if ChangeMode in validAttribs then n.mode else a.mode,
      if ChangeUserId in validAttribs then n.userID else a.userID,
      if ChangeGroupId in validAttribs then n.groupID else a.groupID,
      if ChangeModificationTime in validAttribs then n.modificationTimeSecs else a.modificationTimeSecs,
      if ChangeLastAccessTime in validAttribs then n.lastAccessTimeSecs else a.lastAccessTimeSecs)
  }

  // ---------------------------------------------------------------------------------------
  // Chunk file information

  /** `ChunkFileInfo` with its dynamic attributes. */
  datatype ChunkFileInfo = ChunkFileInfo(
    chunkSize: nat, chunkSizeLog2: nat, storageVersion: nat,
    fileLength: nat, usedBlocks: nat, modificationTimeSecs: int, lastAccessTimeSecs: int)

  /** The entry `initFileInfoVec` builds for `target`. Block counts come from the stat data
      for sparse files and are estimated from the length otherwise. */
  function TargetChunkInfo(stat: StatData, chunkSize: nat, numTargets: nat, blockShift: nat, target: nat): ChunkFileInfo
    requires chunkSize > 0 && numTargets > 0
    requires stat.isSparse ==> target < |stat.targetChunkBlocks|
  {
    var length := TargetLength(DivisionLayout(stat.fileSize, chunkSize * numTargets, numTargets), chunkSize, target);
    ChunkFileInfo(chunkSize, Log2(chunkSize), 0, length,
      if stat.isSparse then stat.targetChunkBlocks[target] else ShiftRight(length, blockShift),
      stat.settable.modificationTimeSecs, stat.settable.lastAccessTimeSecs)
  }

  /** The entries of the first `n` targets. */
  function ChunkInfos(stat: StatData, chunkSize: nat, numTargets: nat, blockShift: nat, n: nat): (r: seq<ChunkFileInfo>)
    requires chunkSize > 0 && numTargets > 0
    requires stat.isSparse ==> n <= |stat.targetChunkBlocks|
    ensures |r| == n
  {
    if n == 0 then [] else
      ChunkInfos(stat, chunkSize, numTargets, blockShift, n - 1) + [TargetChunkInfo(stat, chunkSize, numTargets, blockShift, n - 1)]
  }

  function SumFileLengths(infos: seq<ChunkFileInfo>): nat
  {
    if infos == [] then 0 else SumFileLengths(infos[..|infos| - 1]) + infos[|infos| - 1].fileLength
  }

  /** Entry `i` of the vector is the entry built for target `i`. */
  lemma {:induction false} ChunkInfosAt(stat: StatData, chunkSize: nat, numTargets: nat, blockShift: nat, n: nat, i: nat)
    requires chunkSize > 0 && numTargets > 0
    requires stat.isSparse ==> n <= |stat.targetChunkBlocks|
    requires i < n
    ensures ChunkInfos(stat, chunkSize, numTargets, blockShift, n)[i] == TargetChunkInfo(stat, chunkSize, numTargets, blockShift, i)
    decreases n
  {
    if i < n - 1 {
      ChunkInfosAt(stat, chunkSize, numTargets, blockShift, n - 1, i);
    }
  }

  /** The entries' lengths add up to the lengths the layout gives the first `n` targets. */
  lemma {:induction false} ChunkInfosSum(stat: StatData, chunkSize: nat, numTargets: nat, blockShift: nat, n: nat)
    requires chunkSize > 0 && numTargets > 0
    requires stat.isSparse ==> n <= |stat.targetChunkBlocks|
    ensures SumFileLengths(ChunkInfos(stat, chunkSize, numTargets, blockShift, n))
      == SumLengths(DivisionLayout(stat.fileSize, chunkSize * numTargets, numTargets), chunkSize, n)
    decreases n
  {
    if n > 0 {
      ChunkInfosSum(stat, chunkSize, numTargets, blockShift, n - 1);
      var infos := ChunkInfos(stat, chunkSize, numTargets, blockShift, n);
      assert infos[..n - 1] == ChunkInfos(stat, chunkSize, numTargets, blockShift, n - 1);
    }
  }

  /** Entry `i` carries the chunk size and its logarithm and the file's times, and its length
      is every target's share of the complete stripe sets, a whole number of chunks, plus at
      most one more chunk. */
  lemma ChunkInfoEntry(stat: StatData, chunkSize: nat, numTargets: nat, blockShift: nat, n: nat, i: nat)
    requires IsPowerOfTwo(chunkSize) && numTargets > 0
    requires stat.isSparse ==> n <= |stat.targetChunkBlocks|
    requires i < n
    ensures var e := ChunkInfos(stat, chunkSize, numTargets, blockShift, n)[i];
      var full := DivisionLayout(stat.fileSize, chunkSize * numTargets, numTargets).fullLengthPerTarget;
      && e.chunkSize == chunkSize && Pow2(e.chunkSizeLog2) == chunkSize
      && e.modificationTimeSecs == stat.settable.modificationTimeSecs
      && e.lastAccessTimeSecs == stat.settable.lastAccessTimeSecs
      && full % chunkSize == 0 && full <= e.fileLength <= full + chunkSize
  {
    PowerOfTwoLog(chunkSize);
    ChunkInfosAt(stat, chunkSize, numTargets, blockShift, n, i);
    DivisionLayoutEven(stat.fileSize, chunkSize, numTargets);
  }

  /** The chunk files of all stripe targets hold exactly the file's bytes, each target's chunk
      file is a whole number of chunks plus at most one more, and all carry the chunk size and
      the file's times. */
  lemma ChunkInfosCoverFile(stat: StatData, chunkSize: nat, numTargets: nat, blockShift: nat, n: nat)
    requires IsPowerOfTwo(chunkSize) && numTargets > 0
    requires stat.isSparse ==> n <= |stat.targetChunkBlocks|
    ensures var infos := ChunkInfos(stat, chunkSize, numTargets, blockShift, n);
      var full := DivisionLayout(stat.fileSize, chunkSize * numTargets, numTargets).fullLengthPerTarget;
      && SumFileLengths(infos) == SumLengths(DivisionLayout(stat.fileSize, chunkSize * numTargets, numTargets), chunkSize, n)
      && (n == numTargets ==> SumFileLengths(infos) == stat.fileSize)
      && full % chunkSize == 0
      && forall i :: 0 <= i < n ==>
        && infos[i].chunkSize == chunkSize && Pow2(infos[i].chunkSizeLog2) == chunkSize
        && infos[i].modificationTimeSecs == stat.settable.modificationTimeSecs
        && infos[i].lastAccessTimeSecs == stat.settable.lastAccessTimeSecs
        && full <= infos[i].fileLength <= full + chunkSize
  {
    ChunkInfosSum(stat, chunkSize, numTargets, blockShift, n);
    DivisionLayoutEven(stat.fileSize, chunkSize, numTargets);
    var infos := ChunkInfos(stat, chunkSize, numTargets, blockShift, n);
    var full := DivisionLayout(stat.fileSize, chunkSize * numTargets, numTargets).fullLengthPerTarget;
    forall i | 0 <= i < n
      ensures && infos[i].chunkSize == chunkSize && Pow2(infos[i].chunkSizeLog2) == chunkSize
        && infos[i].modificationTimeSecs == stat.settable.modificationTimeSecs
        && infos[i].lastAccessTimeSecs == stat.settable.lastAccessTimeSecs
        && full <= infos[i].fileLength <= full + chunkSize
    {
      ChunkInfoEntry(stat, chunkSize, numTargets, blockShift, n, i);
    }
    if n == numTargets {
      LengthsSumToFileSize(stat.fileSize, chunkSize, numTargets);
    }
  }

  function WithModificationTime(infos: seq<ChunkFileInfo>, secs: int): (r: seq<ChunkFileInfo>)
    ensures |r| == |infos|
  {
    seq(|infos|, i requires 0 <= i < |infos| => infos[i].(modificationTimeSecs := secs))
  }

  function WithLastAccessTime(infos: seq<ChunkFileInfo>, secs: int): (r: seq<ChunkFileInfo>)
    ensures |r| == |infos|
  {
    seq(|infos|, i requires 0 <= i < |infos| => infos[i].(lastAccessTimeSecs := secs))
  }

  /** After a successful attribute change, the chunk file entries take the new modification
      and access times where those were changed. */
  function StampTimes(infos: seq<ChunkFileInfo>, validAttribs: set<AttribChange>, n: SettableFileAttribs): (r: seq<ChunkFileInfo>)
    ensures |r| == |infos|
  {
    var m := if ChangeModificationTime in validAttribs then WithModificationTime(infos, n.modificationTimeSecs) else infos;
    if ChangeLastAccessTime in validAttribs then WithLastAccessTime(m, n.lastAccessTimeSecs) else m
  }

  /** Stamping the times changes nothing else of any entry, and leaves every entry with the
      attributes' times. */
  lemma StampTimesAgreesWithAttribs(infos: seq<ChunkFileInfo>, a: SettableFileAttribs, validAttribs: set<AttribChange>, n: SettableFileAttribs)
    requires forall i :: 0 <= i < |infos| ==>
      infos[i].modificationTimeSecs == a.modificationTimeSecs && infos[i].lastAccessTimeSecs == a.lastAccessTimeSecs
    ensures var r, b := StampTimes(infos, validAttribs, n), ApplyAttribs(a, validAttribs, n);
      forall i :: 0 <= i < |r| ==>
        && r[i].modificationTimeSecs == b.modificationTimeSecs
        && r[i].lastAccessTimeSecs == b.lastAccessTimeSecs
        && r[i].(modificationTimeSecs := 0, lastAccessTimeSecs := 0) == infos[i].(modificationTimeSecs := 0, lastAccessTimeSecs := 0)
  {
  }

  // ---------------------------------------------------------------------------------------
  // The inode

  class FileInode {
    const chunkSize: nat
    const numTargets: nat
    /** `StatData::BLOCK_SHIFT`. */
    const blockShift: nat
    const origUID: nat
    const origFeature: bool
    const fileState: FileState

    var statData: StatData
    /** `FILEINODE_FEATURE_HAS_ORIG_UID` in the feature flags. */
    var hasOrigUidFeature: bool
    var numSessionsRead: nat
    var numSessionsWrite: nat
    var fileInfoVec: seq<ChunkFileInfo>

    const entryLocks: EntryLocking.EntryLockQueues
    const appendLocks: EntryLocking.EntryLockQueues
    const rangeLocks: RangeLocking.RangeLockTable

    function Sessions(): SessionCounts
      reads this
    {
      SessionCounts(numSessionsRead, numSessionsWrite)
    }

    /** The lock managers are three separate objects, each keeping its own invariants. */
    ghost predicate LocksValid()
      reads this, entryLocks, appendLocks, rangeLocks
    {
      && entryLocks != appendLocks
      && entryLocks.Valid() && appendLocks.Valid() && rangeLocks.Valid()
    }

    constructor (chunkSize: nat, numTargets: nat, blockShift: nat, origUID: nat, origFeature: bool,
                 fileState: FileState, statData: StatData)
      ensures this.chunkSize == chunkSize && this.numTargets == numTargets && this.blockShift == blockShift
      ensures this.origUID == origUID && this.origFeature == origFeature && this.fileState == fileState
      ensures this.statData == statData && !hasOrigUidFeature
      ensures Sessions() == SessionCounts(0, 0) && fileInfoVec == []
      ensures fresh(entryLocks) && fresh(appendLocks) && fresh(rangeLocks)
      ensures entryLocks.Snapshot() == EntryLockSpec.Empty && appendLocks.Snapshot() == EntryLockSpec.Empty
      ensures rangeLocks.Snapshot() == RangeLockSpec.Empty
      ensures LocksValid()
    {
      this.chunkSize, this.numTargets, this.blockShift := chunkSize, numTargets, blockShift;
      this.origUID, this.origFeature, this.fileState := origUID, origFeature, fileState;
      this.statData := statData;
      hasOrigUidFeature := false;
      numSessionsRead, numSessionsWrite := 0, 0;
      fileInfoVec := [];
      entryLocks := new EntryLocking.EntryLockQueues();
      appendLocks := new EntryLocking.EntryLockQueues();
      rangeLocks := new RangeLocking.RangeLockTable();
    }

    /** `initFileInfoVec`: appends one chunk file entry per stripe target, computing the
        layout by mask and shift when the number of targets is a power of two and by modulo and
        division otherwise. */
    method InitFileInfoVec()
      requires IsPowerOfTwo(chunkSize) && numTargets > 0
      requires statData.isSparse ==> numTargets <= |statData.targetChunkBlocks|
      modifies this
      ensures statData == old(statData) && hasOrigUidFeature == old(hasOrigUidFeature)
      ensures fileInfoVec == old(fileInfoVec) + ChunkInfos(statData, chunkSize, numTargets, blockShift, numTargets)
      ensures Sessions() == old(Sessions())
    {
      var lastStripeSetSize, stripeSetStart, fullLengthPerTarget :=
        ComputeLayout(statData.fileSize, chunkSize, numTargets);
      var remainingLastSetSize: int := lastStripeSetSize;
      var target := 0;
      while target < numTargets
        invariant 0 <= target <= numTargets
        invariant remainingLastSetSize == lastStripeSetSize - target * chunkSize
        invariant statData == old(statData) && hasOrigUidFeature == old(hasOrigUidFeature)
        invariant fileInfoVec == old(fileInfoVec) + ChunkInfos(statData, chunkSize, numTargets, blockShift, target)
        invariant Sessions() == old(Sessions())
      {
        var targetFileLength := fullLengthPerTarget;
        if remainingLastSetSize > 0 {
          targetFileLength := targetFileLength
            + if remainingLastSetSize < chunkSize then remainingLastSetSize else chunkSize;
        }
        var usedBlocks := if statData.isSparse then statData.targetChunkBlocks[target]
          else ShiftRight(targetFileLength, blockShift);
        var info := ChunkFileInfo(chunkSize, Log2(chunkSize), 0, targetFileLength, usedBlocks,
          statData.settable.modificationTimeSecs, statData.settable.lastAccessTimeSecs);
        assert info == TargetChunkInfo(statData, chunkSize, numTargets, blockShift, target);
        assert old(fileInfoVec) + ChunkInfos(statData, chunkSize, numTargets, blockShift, target + 1)
            == fileInfoVec + [info];
        fileInfoVec := fileInfoVec + [info];
        assert (target + 1) * chunkSize == target * chunkSize + chunkSize;
        remainingLastSetSize := remainingLastSetSize - chunkSize;
        target := target + 1;
      }
    }

    /** `decNumSessionsAndStore`: a close decrements the counter its flags select, and leaves a
        counter that is already zero alone. */
    method DecNumSessionsAndStore(accessFlags: set<AccessFlag>)
      modifies this
      ensures Sessions() == DecSessions(old(Sessions()), accessFlags)
      ensures statData == old(statData) && hasOrigUidFeature == old(hasOrigUidFeature)
      ensures fileInfoVec == old(fileInfoVec)
    {
      if Read in accessFlags {
        if numSessionsRead != 0 {
          numSessionsRead := numSessionsRead - 1;
        }
      } else {
        if numSessionsWrite != 0 {
          numSessionsWrite := numSessionsWrite - 1;
        }
      }
    }

    /** `incNumSessionsUnlocked`. */
    method IncNumSessions(accessFlags: set<AccessFlag>)
      modifies this
      ensures Sessions() == IncSessions(old(Sessions()), accessFlags)
      ensures statData == old(statData) && hasOrigUidFeature == old(hasOrigUidFeature)
      ensures fileInfoVec == old(fileInfoVec)
    {
      if Read in accessFlags {
        numSessionsRead := numSessionsRead + 1;
      } else {
        numSessionsWrite := numSessionsWrite + 1;
      }
    }

    /** `checkAccessAndOpen`: refuses the open exactly when `OpenDenied` holds, without
        touching the counters; otherwise counts the new session. */
    method CheckAccessAndOpen(accessFlags: set<AccessFlag>, bypassAccessCheck: bool) returns (res: OpenResult)
      modifies this
      ensures res == FileAccessDenied <==> OpenDenied(fileState, accessFlags, bypassAccessCheck)
      ensures Sessions() == if res == Success then IncSessions(old(Sessions()), accessFlags) else old(Sessions())
      ensures statData == old(statData) && hasOrigUidFeature == old(hasOrigUidFeature)
      ensures fileInfoVec == old(fileInfoVec)
    {
      if !bypassAccessCheck {
        var state := fileState;
        if !state.unlocked {
          var readRequested := Read in accessFlags || ReadWrite in accessFlags;
          var writeRequested := Write in accessFlags || ReadWrite in accessFlags || Trunc in accessFlags;
          var blockOpenRequest := state.fullyLocked || (state.readLocked && readRequested)
            || (state.writeLocked && writeRequested);
          if blockOpenRequest {
            return FileAccessDenied;
          }
        }
      }
      IncNumSessions(accessFlags);
      res := Success;
    }

    /** `setAttrData`: stamps the change time, applies the flagged attributes and writes the
        inode. When the write fails the attributes are put back, while the change time and an
        added original-UID feature flag stay; when it succeeds the chunk file entries take the
        new times. */
    method SetAttrData(validAttribs: set<AttribChange>, attribs: SettableFileAttribs, now: int, storeOk: bool)
      returns (success: bool)
      modifies this
      ensures success == storeOk
      ensures statData == old(statData).(
        attribChangeTimeSecs := now,
        settable := if storeOk then ApplyAttribs(old(statData.settable), validAttribs, attribs) else old(statData.settable))
      ensures hasOrigUidFeature == (old(hasOrigUidFeature)
        || (ChangeUserId in validAttribs && attribs.userID != origUID && origFeature))
      ensures fileInfoVec == if storeOk then StampTimes(old(fileInfoVec), validAttribs, attribs) else old(fileInfoVec)
      ensures Sessions() == old(Sessions())
    {
      var oldAttribs := statData.settable;
      statData := statData.(attribChangeTimeSecs := now);
      var settable := oldAttribs;
      if validAttribs != {} {
        if ChangeMode in validAttribs {
          settable := settable.(mode := attribs.mode);
        }
        if ChangeModificationTime in validAttribs {
          settable := settable.(modificationTimeSecs := attribs.modificationTimeSecs);
        }
        if ChangeLastAccessTime in validAttribs {
          settable := settable.(lastAccessTimeSecs := attribs.lastAccessTimeSecs);
        }
        if ChangeUserId in validAttribs {
          settable := settable.(userID := attribs.userID);
          if attribs.userID != origUID && origFeature {
            hasOrigUidFeature := true;
          }
        }
        if ChangeGroupId in validAttribs {
          settable := settable.(groupID := attribs.groupID);
        }
      }
      assert settable == ApplyAttribs(oldAttribs, validAttribs, attribs);
      statData := statData.(settable := settable);

      if !storeOk {
        statData := statData.(settable := oldAttribs);
        return false;
      }
      if ChangeModificationTime in validAttribs {
        SetChunkModificationTimes(attribs.modificationTimeSecs);
      }
      if ChangeLastAccessTime in validAttribs {
        SetChunkLastAccessTimes(attribs.lastAccessTimeSecs);
      }
      success := true;
    }

    /** The loop over the chunk file entries that gives each the new modification time. */
    method SetChunkModificationTimes(secs: int)
      modifies this
      ensures fileInfoVec == WithModificationTime(old(fileInfoVec), secs)
      ensures statData == old(statData) && hasOrigUidFeature == old(hasOrigUidFeature)
      ensures Sessions() == old(Sessions())
    {
      var i := 0;
      while i < |fileInfoVec|
        invariant 0 <= i <= |fileInfoVec| == |old(fileInfoVec)|
        invariant forall j :: 0 <= j < i ==> fileInfoVec[j] == old(fileInfoVec)[j].(modificationTimeSecs := secs)
        invariant forall j :: i <= j < |fileInfoVec| ==> fileInfoVec[j] == old(fileInfoVec)[j]
        invariant statData == old(statData) && hasOrigUidFeature == old(hasOrigUidFeature)
        invariant Sessions() == old(Sessions())
      {
        fileInfoVec := fileInfoVec[i := fileInfoVec[i].(modificationTimeSecs := secs)];
        i := i + 1;
      }
    }

    /** The loop over the chunk file entries that gives each the new access time. */
    method SetChunkLastAccessTimes(secs: int)
      modifies this
      ensures fileInfoVec == WithLastAccessTime(old(fileInfoVec), secs)
      ensures statData == old(statData) && hasOrigUidFeature == old(hasOrigUidFeature)
      ensures Sessions() == old(Sessions())
    {
      var i := 0;
      while i < |fileInfoVec|
        invariant 0 <= i <= |fileInfoVec| == |old(fileInfoVec)|
        invariant forall j :: 0 <= j < i ==> fileInfoVec[j] == old(fileInfoVec)[j].(lastAccessTimeSecs := secs)
        invariant forall j :: i <= j < |fileInfoVec| ==> fileInfoVec[j] == old(fileInfoVec)[j]
        invariant statData == old(statData) && hasOrigUidFeature == old(hasOrigUidFeature)
        invariant Sessions() == old(Sessions())
      {
        fileInfoVec := fileInfoVec[i := fileInfoVec[i].(lastAccessTimeSecs := secs)];
        i := i + 1;
      }
    }

    /** `incDecNumHardLinks`: adds `value` to the link count and stamps the change time; when
        writing the inode fails, the link count is put back. */
    method IncDecNumHardLinks(value: int, now: int, storeOk: bool) returns (ok: bool)
      modifies this
      ensures ok == storeOk
      ensures statData == old(statData).(
        attribChangeTimeSecs := now,
        numHardLinks := if storeOk then AddWrapped(old(statData.numHardLinks), value) else old(statData.numHardLinks))
      ensures hasOrigUidFeature == old(hasOrigUidFeature) && fileInfoVec == old(fileInfoVec)
      ensures Sessions() == old(Sessions())
    {
      statData := statData.(numHardLinks := AddWrapped(statData.numHardLinks, value));
      statData := statData.(attribChangeTimeSecs := now);
      if !storeOk {
        AddWrappedUndo(old(statData.numHardLinks), value);
        statData := statData.(numHardLinks := AddWrapped(statData.numHardLinks, -value));
      }
      ok := storeOk;
    }

    /** `flockEntry`: a request to the flock lock manager. */
    method FlockEntry(d: EntryLockSpec.EntryLock) returns (granted: bool, notify: seq<EntryLockSpec.EntryLock>)
      modifies entryLocks
      ensures (entryLocks.Snapshot(), granted, notify) == EntryLockSpec.Request(old(entryLocks.Snapshot()), d)
      ensures old(LocksValid()) ==> LocksValid()
    {
      granted, notify := entryLocks.Request(d);
    }

    /** `flockAppend`: the same request to the append lock manager. */
    method FlockAppend(d: EntryLockSpec.EntryLock) returns (granted: bool, notify: seq<EntryLockSpec.EntryLock>)
      modifies appendLocks
      ensures (appendLocks.Snapshot(), granted, notify) == EntryLockSpec.Request(old(appendLocks.Snapshot()), d)
      ensures old(LocksValid()) ==> LocksValid()
    {
      granted, notify := appendLocks.Request(d);
    }

    /** `flockEntryCancelByClientID`. */
    method FlockEntryCancelByClientID(clientId: nat) returns (notify: seq<EntryLockSpec.EntryLock>)
      modifies entryLocks
      ensures (entryLocks.Snapshot(), notify) == EntryLockSpec.CancelByClientID(old(entryLocks.Snapshot()), clientId)
      ensures old(LocksValid()) ==> LocksValid()
    {
      notify := entryLocks.CancelByClientID(clientId);
    }

    /** `flockAppendCancelByClientID`. */
    method FlockAppendCancelByClientID(clientId: nat) returns (notify: seq<EntryLockSpec.EntryLock>)
      modifies appendLocks
      ensures (appendLocks.Snapshot(), notify) == EntryLockSpec.CancelByClientID(old(appendLocks.Snapshot()), clientId)
      ensures old(LocksValid()) ==> LocksValid()
    {
      notify := appendLocks.CancelByClientID(clientId);
    }

    /** `flockEntryCancelAllWaiters`. */
    method FlockEntryCancelAllWaiters()
      modifies entryLocks
      ensures entryLocks.Snapshot() == EntryLockSpec.CancelAllWaiters(old(entryLocks.Snapshot()))
      ensures old(LocksValid()) ==> LocksValid()
    {
      entryLocks.CancelAllWaiters();
    }

    /** `flockAppendCancelAllWaiters`. */
    method FlockAppendCancelAllWaiters()
      modifies appendLocks
      ensures appendLocks.Snapshot() == EntryLockSpec.CancelAllWaiters(old(appendLocks.Snapshot()))
      ensures old(LocksValid()) ==> LocksValid()
    {
      appendLocks.CancelAllWaiters();
    }

    /** `flockRange`: a request to the byte-range lock manager. */
    method FlockRange(d: RangeDetails.RangeLock) returns (granted: bool, notify: seq<RangeDetails.RangeLock>)
      modifies rangeLocks
      ensures (rangeLocks.Snapshot(), granted, notify) == RangeLockSpec.Request(old(rangeLocks.Snapshot()), d)
      ensures old(LocksValid()) && RangeDetails.WellFormed(d) ==> LocksValid()
    {
      granted, notify := rangeLocks.Request(d);
    }

    /** `flockRangeGetConflictor`, without the conflicting lock it reports: whether a range
        request conflicts with a granted range or with any exclusive waiter. */
    method FlockRangeGetConflictor(d: RangeDetails.RangeLock) returns (conflict: bool)
      ensures conflict <==> RangeLockSpec.Conflicts(rangeLocks.Snapshot(), d)
    {
      conflict := RangeLocking.CheckConflictsEx(rangeLocks.Snapshot(), d, -1);
    }
  }
}
