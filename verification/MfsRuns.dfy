/**
 Whole runs of the filesystem: ownership in every reachable state, rollback as the inverse of
 whatever happened since the commit, the directory tree kept in path strings, and the crash
 behaviour of a write.
 */
module MfsRuns {
  import opened Machine
  import opened MfsVolume
  import opened MfsSpec
  import opened MfsSnapshot

  datatype Call = Call(op: Op, status: Status)

  /** `states[k]` is the volume before `calls[k]`; any device failure may occur in any call. */
  ghost predicate IsRun(online: bool, states: seq<Volume>, calls: seq<Call>)
  {
    && |states| == |calls| + 1
    && forall k :: 0 <= k < |calls| ==> Step(online, calls[k].op, states[k], calls[k].status, states[k + 1])
  }

  /** What formatting leaves. */
  predicate Formatted(v: Volume)
  {
    && |v.nodes| == MAX_NODES && (forall i :: 0 <= i < |v.nodes| ==> v.nodes[i] == BLANK)
    && |v.bitmap| == DATA_SECTORS && (forall b :: 0 <= b < |v.bitmap| ==> !v.bitmap[b])
    && v.generation == 1 && v.committed == 0
  }

  lemma FormattedConsistent(v: Volume)
    requires Formatted(v)
    ensures Consistent(v)
  {
    RefsBlank(v.nodes);
    assert Used(v.bitmap) == {};
  }

  lemma {:induction false} RunConsistent(online: bool, states: seq<Volume>, calls: seq<Call>, k: nat)
    requires IsRun(online, states, calls) && Consistent(states[0]) && k < |states|
    ensures Consistent(states[k])
  {
    if k > 0 {
      RunConsistent(online, states, calls, k - 1);
      StepConsistent(online, calls[k - 1].op, states[k - 1], calls[k - 1].status, states[k]);
    }
  }

  /**
   In every state of every run from a format, a block is marked in the bitmap exactly when it
   occurs in the live and snapshot block lists, and then it occurs exactly once.
   */
  lemma BitmapIsExact(online: bool, states: seq<Volume>, calls: seq<Call>, k: nat, b: nat)
    requires IsRun(online, states, calls) && Formatted(states[0]) && k < |states| && b < DATA_SECTORS
    ensures |states[k].bitmap| == DATA_SECTORS
    ensures Refs(states[k].nodes)[b] == if states[k].bitmap[b] then 1 else 0
  {
    FormattedConsistent(states[0]);
    RunConsistent(online, states, calls, k);
    OwnedOnce(states[k], b);
  }

  // ---------- Rollback ----------

  /** A live node without a snapshot that rollback would not drop. */
  predicate Stale(n: Node, committed: nat)
  {
    n.active && !n.snapshotActive && n.generation < committed
  }

  predicate NoneStale(v: Volume)
  {
    forall j :: 0 <= j < |v.nodes| ==> !Stale(v.nodes[j], v.committed)
  }

  /** Rollback brings back the snapshot exactly when no stale node exists. */
  lemma RollbackExact(v: Volume, v': Volume)
    requires Consistent(v) && RollbackComplete(v, v')
    ensures LiveView(v') == SnapView(v) <==> NoneStale(v)
  {
    hide RollbackComplete;
    RollbackKeeps(v, v');
    if j :| 0 <= j < |v.nodes| && Stale(v.nodes[j], v.committed) {
      assert LiveView(v')[j] == RolledBackSlot(v, |v.nodes|, j) && SnapView(v)[j] == Absent;
    } else {
      forall j | 0 <= j < |v.nodes| ensures LiveView(v')[j] == SnapView(v)[j] {
        assert !Stale(v.nodes[j], v.committed) && LiveView(v')[j] == RolledBackSlot(v, |v.nodes|, j);
      }
    }
  }

  /** The generation counter has not wrapped past the commit. */
  predicate Fresh(v: Volume)
  {
    v.committed <= v.generation && NoneStale(v)
  }

  /** Calls other than commit and rename, with whatever status. */
  predicate IsEdit(op: Op) { !op.Commit? && !op.Rename? }

  lemma CommitFresh(v: Volume, v': Volume)
    requires Consistent(v) && CommitDone(v, v')
    ensures Fresh(v') && SnapView(v') == LiveView(v)
  {
    hide CommitDone;
    CommitKeeps(v, v');
    forall j | 0 <= j < |v'.nodes| ensures !Stale(v'.nodes[j], v'.committed) {
      assert SameLiveHalf(v.nodes[j], v'.nodes[j]);
    }
  }

  /** A commit that stops creates no stale node: what it left without a snapshot it did not reach. */
  lemma StoppedCommitFresh(v: Volume, v': Volume, k: nat, status: Status)
    requires Consistent(v) && Fresh(v) && CommitStopped(v, v', k, status)
    ensures Fresh(v')
  {
    hide CommitStopped;
    StoppedCommitKeeps(v, v', k, status);
    forall j | 0 <= j < |v'.nodes| ensures !Stale(v'.nodes[j], v'.committed) {
      assert SameLiveHalf(v.nodes[j], v'.nodes[j]) && !Stale(v.nodes[j], v.committed);
    }
  }

  lemma RollbackFresh(v: Volume, v': Volume, k: nat)
    requires Fresh(v) && RollbackKeepsSnap(v, v') && LiveView(v') == RolledBack(v, k) && v'.committed <= v'.generation
    ensures Fresh(v')
  {
    forall j | 0 <= j < |v'.nodes| ensures !Stale(v'.nodes[j], v'.committed) {
      assert SameSnapHalf(v.nodes[j], v'.nodes[j]) && !Stale(v.nodes[j], v.committed);
      assert LiveView(v')[j] == RolledBackSlot(v, k, j) && LiveView(v')[j] == LiveSlot(v'.nodes[j], v'.disk);
      assert LiveView(v)[j] == LiveSlot(v.nodes[j], v.disk);
    }
  }

  lemma StampedFresh(v: Volume, v': Volume, t: nat, n: Node)
    requires Fresh(v) && v.generation < TWO64 - 1 && t < |v.nodes|
    requires v'.nodes == v.nodes[t := n] && n.generation == v.generation
    requires v'.committed == v.committed && v'.generation == Tick(v.generation)
    ensures Fresh(v')
  {
  }

  lemma MakeDirFresh(v: Volume, path: string, v': Volume)
    requires Fresh(v) && v.generation < TWO64 - 1 && MakeDirEffect(v, path, v')
    ensures Fresh(v')
  {
  }

  lemma WriteFresh(v: Volume, path: string, data: seq<byte>, v': Volume)
    requires Fresh(v) && v.generation < TWO64 - 1 && WriteEffect(v, path, data, v')
    ensures Fresh(v')
  {
    var t := Target(v.nodes, path);
    StampedFresh(v, v', t, v'.nodes[t]);
  }

  lemma DeleteFresh(v: Volume, path: string, v': Volume)
    requires Fresh(v) && v.generation < TWO64 - 1 && DeleteEffect(v, path, v')
    ensures Fresh(v')
  {
  }

  lemma UntouchedFresh(v: Volume, v': Volume)
    requires Fresh(v) && Untouched(v, v')
    ensures Fresh(v')
  {
  }

  /** Short of a counter wrap, no edit creates a stale node. */
  lemma EditFresh(online: bool, op: Op, v: Volume, status: Status, v': Volume)
    requires Consistent(v) && Step(online, op, v, status, v') && IsEdit(op)
    requires Fresh(v) && v.generation < TWO64 - 1
    ensures Fresh(v')
  {
    hide Consistent, Fresh, MakeDirEffect, WriteEffect, DeleteEffect, RollbackOutcome;
    if Untouched(v, v') {
      UntouchedFresh(v, v');
    } else {
      match op
      case MakeDir(path) => MakeDirFresh(v, path, v');
      case WriteFile(path, data) => WriteFresh(v, path, data, v');
      case Delete(path) => DeleteFresh(v, path, v');
      case Rollback => RollbackStepFresh(online, v, status, v');
    }
  }

  lemma CompleteFresh(v: Volume, v': Volume)
    requires Consistent(v) && RollbackComplete(v, v') && Fresh(v) && v.generation < TWO64 - 1
    ensures Fresh(v')
  {
    hide RollbackComplete, RolledBack, Consistent, NoneStale;
    RollbackKeeps(v, v');
    RollbackFresh(v, v', |v.nodes|);
  }

  lemma PartialFresh(v: Volume, v': Volume, k: nat, cause: Status)
    requires Consistent(v) && RollbackPartial(v, v', k, cause) && Fresh(v)
    ensures Fresh(v')
  {
    hide RollbackPartial, RolledBack, Consistent, NoneStale;
    PartialRollbackKeeps(v, v', k, cause);
    RollbackFresh(v, v', k);
  }

  lemma RollbackStepFresh(online: bool, v: Volume, status: Status, v': Volume)
    requires Consistent(v) && RollbackOutcome(online, v, status, v') && Fresh(v) && v.generation < TWO64 - 1
    ensures Fresh(v')
  {
    hide RollbackComplete, RollbackPartial, Consistent, Fresh;
    if v' != v {
      if RollbackComplete(v, v') {
        CompleteFresh(v, v');
      } else {
        var k, cause :| RollbackPartial(v, v', k, cause);
        PartialFresh(v, v', k, cause);
      }
    }
  }

  lemma RollbackStepKeepsSnap(v: Volume, status: Status, v': Volume)
    requires Consistent(v) && RollbackOutcome(true, v, status, v')
    ensures RollbackKeepsSnap(v, v')
  {
    hide RollbackComplete, RollbackPartial, RolledBack;
    if RollbackComplete(v, v') {
      RollbackKeeps(v, v');
    } else {
      var k, cause :| RollbackPartial(v, v', k, cause);
      PartialRollbackKeeps(v, v', k, cause);
    }
  }

  /** Every edit, failed or not, leaves the snapshot alone. */
  lemma EditKeepsSnapshot(online: bool, op: Op, v: Volume, status: Status, v': Volume)
    requires Consistent(v) && Step(online, op, v, status, v') && IsEdit(op)
    ensures SnapView(v') == SnapView(v)
  {
    if Untouched(v, v') {
      UntouchedKeeps(v, v');
    } else {
      match op
      case MakeDir(path) => MakeDirKeeps(v, path, v');
      case WriteFile(path, data) => WriteKeeps(v, path, data, v');
      case Delete(path) => DeleteKeeps(v, path, v');
      case Rollback => RollbackStepKeepsSnap(v, status, v');
    }
  }

  /** Calls after the first that are edits, short of a counter wrap. */
  predicate EditsAfterFirst(states: seq<Volume>, calls: seq<Call>)
    requires |states| == |calls| + 1
  {
    forall i :: 1 <= i < |calls| ==> IsEdit(calls[i].op) && states[i].generation < TWO64 - 1
  }

  lemma {:induction false} EditsKeep(states: seq<Volume>, calls: seq<Call>, k: nat)
    requires IsRun(true, states, calls) && 1 <= k < |states| && Consistent(states[1]) && Fresh(states[1])
    requires EditsAfterFirst(states, calls)
    ensures Consistent(states[k]) && Fresh(states[k]) && SnapView(states[k]) == SnapView(states[1])
  {
    hide Step, Consistent, Fresh;
    if k > 1 {
      EditsKeep(states, calls, k - 1);
      StepConsistent(true, calls[k - 1].op, states[k - 1], calls[k - 1].status, states[k]);
      EditKeepsSnapshot(true, calls[k - 1].op, states[k - 1], calls[k - 1].status, states[k]);
      EditFresh(true, calls[k - 1].op, states[k - 1], calls[k - 1].status, states[k]);
    }
  }

  /** A successful rollback after edits recreates whatever snapshot the first call left. */
  lemma RollbackAfterEdits(states: seq<Volume>, calls: seq<Call>)
    requires IsRun(true, states, calls) && |calls| >= 2 && Consistent(states[1]) && Fresh(states[1])
    requires EditsAfterFirst(states, calls)
    requires calls[|calls| - 1].op.Rollback? && calls[|calls| - 1].status.Ok?
    ensures LiveView(states[|calls|]) == SnapView(states[1]) == SnapView(states[|calls|])
  {
    hide Consistent;
    var last := |calls| - 1;
    EditsKeep(states, calls, last);
    assert Step(true, calls[last].op, states[last], calls[last].status, states[last + 1]);
    RollbackExact(states[last], states[last + 1]);
    RollbackKeeps(states[last], states[last + 1]);
  }

  /**
   After a successful commit, any run of mkdirs, writes, deletes and earlier rollbacks, each
   successful or failed at any point, followed by a successful rollback recreates the
   committed tree in every slot: paths, kinds, sizes, hashes and bytes.
   */
  lemma RollbackRecreatesCommit(states: seq<Volume>, calls: seq<Call>)
    requires IsRun(true, states, calls) && |calls| >= 2 && Consistent(states[0])
    requires calls[0].op.Commit? && calls[0].status.Ok? && EditsAfterFirst(states, calls)
    requires calls[|calls| - 1].op.Rollback? && calls[|calls| - 1].status.Ok?
    ensures LiveView(states[|calls|]) == LiveView(states[0])
    ensures SnapView(states[|calls|]) == LiveView(states[0])
  {
    hide Consistent;
    assert Step(true, calls[0].op, states[0], calls[0].status, states[1]);
    CommitFresh(states[0], states[1]);
    CommitKeeps(states[0], states[1]);
    RollbackAfterEdits(states, calls);
  }

  /**
   The same after a commit that stopped at file `k`: the rollback then recreates the tree as it
   was at the commit up to `k`, the snapshot before it behind `k`, and file `k` without its bytes.
   */
  lemma RollbackAfterStoppedCommit(states: seq<Volume>, calls: seq<Call>, k: nat)
    requires IsRun(true, states, calls) && |calls| >= 2 && Consistent(states[0]) && Fresh(states[0])
    requires CommitStopped(states[0], states[1], k, calls[0].status) && EditsAfterFirst(states, calls)
    requires calls[|calls| - 1].op.Rollback? && calls[|calls| - 1].status.Ok?
    ensures LiveView(states[|calls|]) == Mixed(states[0], k)[k := Emptied(LiveView(states[0])[k])]
    ensures SnapView(states[|calls|]) == LiveView(states[|calls|])
  {
    hide Consistent, Fresh, Snapshotted;
    StoppedCommitFresh(states[0], states[1], k, calls[0].status);
    StoppedCommitKeeps(states[0], states[1], k, calls[0].status);
    RollbackAfterEdits(states, calls);
  }

  // ---------- Crashes ----------

  /**
   If the writes of a call went only to metadata and to blocks free before it, then after any
   prefix of them every old file of both trees still reads back unchanged from the old nodes.
   */
  lemma CrashSafe(v: Volume, log: seq<SectorWrite>, d': Disk, log': seq<SectorWrite>, k: nat)
    requires Consistent(v) && Wrote(v.disk, log, d', log', FreeList(v.bitmap)) && |log| <= k <= |log'|
    ensures var crashed := v.(disk := ApplyWrites(v.disk, log'[|log|..k]));
      Consistent(crashed) && LiveView(crashed) == LiveView(v) && SnapView(crashed) == SnapView(v)
  {
    CrashSpares(v, log, d', log', k);
    UntouchedKeeps(v, v.(disk := ApplyWrites(v.disk, log'[|log|..k])));
  }

  lemma CrashSpares(v: Volume, log: seq<SectorWrite>, d': Disk, log': seq<SectorWrite>, k: nat)
    requires Wrote(v.disk, log, d', log', FreeList(v.bitmap)) && |log| <= k <= |log'|
    ensures SameUsed(v.bitmap, v.disk, ApplyWrites(v.disk, log'[|log|..k]))
  {
    hide ApplyWrites;
    var ws := log'[|log|..k];
    forall b | 0 <= b < |v.bitmap| && v.bitmap[b]
      ensures ReadSector(v.disk, SectorOf(b)) == ReadSector(ApplyWrites(v.disk, ws), SectorOf(b))
    {
      forall w | w in ws ensures w.sector != SectorOf(b) {
        var i :| 0 <= i < |ws| && ws[i] == w;
        assert WritesWithin(log'[|log| + i].sector, FreeList(v.bitmap));
      }
      ApplyFrame(v.disk, ws, SectorOf(b));
    }
  }

  /**
   A write takes effect at its first metadata write: from there on, whatever prefix of its writes
   reached the disk and however the last one was torn, the new tables show the new trees.
   */
  lemma CrashAfterMetadata(v: Volume, path: string, data: seq<byte>, v': Volume, log: seq<SectorWrite>,
      log': seq<SectorWrite>, k: nat)
    requires Consistent(v) && WriteEffect(v, path, data, v') && |log| <= k <= |log'|
    requires Wrote(v.disk, log, v'.disk, log', FreeList(v.bitmap)) &&
      DataFirst(v.disk, log, log', NewBlocks(v.bitmap, data), data)
    requires exists i :: |log| <= i < k && InMetadata(log'[i].sector)
    ensures var crashed := v'.(disk := ApplyWrites(v.disk, log'[|log|..k]));
      Consistent(crashed) && LiveView(crashed) == LiveView(v') && SnapView(crashed) == SnapView(v')
  {
    hide Consistent, Content, FreeList, ApplyWrites;
    var crashed := v'.(disk := ApplyWrites(v.disk, log'[|log|..k]));
    CrashSpares(v, log, v'.disk, log', k);
    CrashHolds(v, data, log, log', k);
    WriteKeeps(v, path, data, crashed);
    WriteKeeps(v, path, data, v');
  }

  /** At that point the new blocks hold the data, and no later write touches them. */
  lemma CrashHolds(v: Volume, data: seq<byte>, log: seq<SectorWrite>, log': seq<SectorWrite>, k: nat)
    requires DataFirst(v.disk, log, log', NewBlocks(v.bitmap, data), data)
    requires |log| <= k <= |log'| && exists i :: |log| <= i < k && InMetadata(log'[i].sector)
    ensures Content(ApplyWrites(v.disk, log'[|log|..k]), NewBlocks(v.bitmap, data), |data|) == data
  {
    hide Content, ApplyWrites, NewBlocks;
    var blocks := NewBlocks(v.bitmap, data);
    var m: nat :| TurnsAt(log, log', m) &&
      (m < |log'| ==> Content(ApplyWrites(v.disk, log'[|log|..m]), blocks, |data|) == data);
    var i :| |log| <= i < k && InMetadata(log'[i].sector);
    var head, tail := log'[|log|..m], log'[m..k];
    assert log'[|log|..k] == head + tail;
    ApplyConcat(v.disk, head, tail);
    forall b | b in blocks
      ensures ReadSector(ApplyWrites(v.disk, head), SectorOf(b)) ==
        ReadSector(ApplyWrites(v.disk, head + tail), SectorOf(b))
    {
      forall w | w in tail ensures w.sector != SectorOf(b) {
        var t :| 0 <= t < |tail| && tail[t] == w;
        assert InMetadata(log'[m + t].sector);
      }
      ApplyFrame(ApplyWrites(v.disk, head), tail, SectorOf(b));
    }
    ContentFrame(ApplyWrites(v.disk, head), ApplyWrites(v.disk, head + tail), blocks, |data|);
  }
}
