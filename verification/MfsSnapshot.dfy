/**
 What commit and rollback come to, derived from their node-by-node definition in `MfsSpec`:
 block ownership, both trees, and what a call that stops halfway leaves.
 */
module MfsSnapshot {
  import opened Machine
  import opened MfsVolume
  import opened MfsSpec

  // ---------- One node ----------

  /** Replacing a node by one that gave up the blocks in `freed`. */
  lemma FreeStep(v: Volume, v': Volume, t: nat, n: Node, freed: seq<nat>)
    requires Consistent(v) && t < |v.nodes| && NodeOk(n, v.disk)
    requires Owned(v.nodes[t]) == Owned(n) + multiset(freed)
    requires v' == v.(nodes := v.nodes[t := n], bitmap := Cleared(v.bitmap, freed))
    ensures Consistent(v')
    ensures LiveView(v') == LiveView(v)[t := LiveSlot(n, v.disk)] &&
      SnapView(v') == SnapView(v)[t := SnapSlot(n, v.disk)]
  {
    SpliceViews(v, v', t, n);
    assert Owned(v.nodes[t]) + multiset{} == Owned(n) + (multiset{} + multiset(freed));
    Reattach(v.nodes, v.bitmap, multiset{}, t, n, multiset{} + multiset(freed));
    FreeBalanced(v'.nodes, v.bitmap, multiset{}, freed);
  }

  /** Replacing a node by one that took the first `count` free blocks, written meanwhile. */
  lemma StoreStep(v: Volume, v': Volume, t: nat, n: Node, count: nat)
    requires Consistent(v) && t < |v.nodes| && NodeOk(n, v'.disk) && count <= |FreeList(v.bitmap)|
    requires Owned(n) == Owned(v.nodes[t]) + multiset(FreeList(v.bitmap)[..count])
    requires v' ==
      v.(nodes := v.nodes[t := n], bitmap := Marked(v.bitmap, FreeList(v.bitmap)[..count]), disk := v'.disk)
    requires SameUsed(v.bitmap, v.disk, v'.disk)
    ensures Consistent(v')
    ensures LiveView(v') == LiveView(v)[t := LiveSlot(n, v'.disk)] &&
      SnapView(v') == SnapView(v)[t := SnapSlot(n, v'.disk)]
  {
    SpliceViews(v, v', t, n);
    var blocks := FreeList(v.bitmap)[..count];
    FirstFree(v.bitmap, count);
    AllocBalanced(v.nodes, v.bitmap, multiset{}, blocks);
    assert Owned(v.nodes[t]) + (multiset{} + multiset(blocks)) == Owned(n) + multiset{};
    Reattach(v.nodes, v'.bitmap, multiset{} + multiset(blocks), t, n, multiset{});
  }

  /** A file without its bytes: what a header alone shows. */
  function Emptied(s: Slot): Slot
  {
    if s.Present? && s.entry.Regular? then s.(entry := s.entry.(bytes := [])) else s
  }

  lemma SnapHeaderOk(n: Node, d: Disk)
    requires NodeOk(n, d)
    ensures NodeOk(SnapHeader(n), d) && LiveSlot(SnapHeader(n), d) == LiveSlot(n, d)
    ensures Owned(n) == Owned(SnapHeader(n)) + multiset(SnapBlocks(n))
    ensures SnapSlot(SnapHeader(n), d) == Emptied(LiveSlot(n, d))
  {
    if n.active && n.kind.File? && BlocksFor(n.size) == 0 {
      assert Content(d, n.blocks, n.size) == Content(d, [], n.size);
    }
  }

  lemma LiveHeaderOk(n: Node, d: Disk)
    requires NodeOk(n, d) && n.snapshotActive
    ensures NodeOk(LiveHeader(n), d) && SnapSlot(LiveHeader(n), d) == SnapSlot(n, d)
    ensures Owned(n) == Owned(LiveHeader(n)) + multiset(LiveBlocks(n))
    ensures LiveSlot(LiveHeader(n), d) == Emptied(SnapSlot(n, d))
  {
    if n.snapshotKind.File? && BlocksFor(n.snapshotSize) == 0 {
      assert Content(d, n.snapshotBlocks, n.snapshotSize) == Content(d, [], n.snapshotSize);
    }
  }

  /** A snapshot whose blocks hold a copy of the live bytes shows the live entry. */
  lemma SnapFilled(n: Node, d: Disk, blocks: seq<nat>)
    requires n.active && n.kind.File? && NodeOk(n, d) && |blocks| == |n.blocks|
    requires Content(d, blocks, n.size) == Content(d, n.blocks, n.size)
    ensures var n' := SnapHeader(n).(snapshotBlocks := blocks);
      && NodeOk(n', d) && LiveSlot(n', d) == LiveSlot(n, d) && SnapSlot(n', d) == LiveSlot(n, d)
      && Owned(n') == Owned(SnapHeader(n)) + multiset(blocks)
  {
  }

  lemma LiveFilled(n: Node, d: Disk, blocks: seq<nat>)
    requires n.snapshotActive && n.snapshotKind.File? && NodeOk(n, d) && |blocks| == |n.snapshotBlocks|
    requires Content(d, blocks, n.snapshotSize) == Content(d, n.snapshotBlocks, n.snapshotSize)
    ensures var n' := LiveHeader(n).(blocks := blocks);
      && NodeOk(n', d) && SnapSlot(n', d) == SnapSlot(n, d) && LiveSlot(n', d) == SnapSlot(n, d)
      && Owned(n') == Owned(LiveHeader(n)) + multiset(blocks)
  {
  }

  lemma SnapBegins(v: Volume, i: nat)
    requires Consistent(v) && i < |v.nodes|
    ensures var w := SnapBegun(v, i);
      Consistent(w) && LiveView(w) == LiveView(v) && SnapView(w) == SnapView(v)[i := Emptied(LiveView(v)[i])]
  {
    assert NodeOk(v.nodes[i], v.disk);
    SnapHeaderOk(v.nodes[i], v.disk);
    FreeStep(v, SnapBegun(v, i), i, SnapHeader(v.nodes[i]), SnapBlocks(v.nodes[i]));
  }

  lemma LiveBegins(v: Volume, i: nat)
    requires Consistent(v) && i < |v.nodes| && v.nodes[i].snapshotActive
    ensures var w := LiveBegun(v, i);
      Consistent(w) && SnapView(w) == SnapView(v) && LiveView(w) == LiveView(v)[i := Emptied(SnapView(v)[i])]
  {
    assert NodeOk(v.nodes[i], v.disk);
    LiveHeaderOk(v.nodes[i], v.disk);
    FreeStep(v, LiveBegun(v, i), i, LiveHeader(v.nodes[i]), LiveBlocks(v.nodes[i]));
  }

  /** What commit's work on node `i` comes to. */
  ghost predicate SnapStep(v: Volume, v': Volume, i: nat, ok: bool)
    requires i < |v.nodes|
  {
    && Consistent(v') && |v'.nodes| == |v.nodes|
    && v' == v.(nodes := v.nodes[i := v'.nodes[i]], bitmap := v'.bitmap, disk := v'.disk)
    && SameLiveHalf(v.nodes[i], v'.nodes[i]) && v'.nodes[i].snapshotActive == v.nodes[i].active
    && LiveView(v') == LiveView(v)
    && SnapView(v') == SnapView(v)[i := if ok then LiveView(v)[i] else Emptied(LiveView(v)[i])]
    && (!ok ==> LiveFile(v.nodes[i]))
  }

  lemma EmptiedSame(v: Volume, i: nat)
    requires i < |v.nodes|
    ensures !LiveFile(v.nodes[i]) ==> Emptied(LiveView(v)[i]) == LiveView(v)[i]
    ensures !SnapFile(v.nodes[i]) ==> Emptied(SnapView(v)[i]) == SnapView(v)[i]
  {
  }

  lemma SnapNodeKeeps(v: Volume, v': Volume, i: nat, status: Status)
    requires Consistent(v) && i < |v.nodes| && SnapNode(v, v', i, status)
    ensures SnapStep(v, v', i, status.Ok?)
  {
    hide NodeOk, Balanced, LiveSlot, SnapSlot;
    var n, w := v.nodes[i], SnapBegun(v, i);
    SnapBegins(v, i);
    if !LiveFile(n) {
      EmptiedSame(v, i);
    } else if status.Ok? {
      SnapCopy(w, v', i);
    } else {
      UntouchedKeeps(w, v');
    }
  }

  lemma SnapCopy(w: Volume, w': Volume, i: nat)
    requires Consistent(w) && i < |w.nodes| && LiveFile(w.nodes[i]) && w.nodes[i] == SnapHeader(w.nodes[i])
    requires SnapCopied(w, w', i)
    ensures Consistent(w') && LiveView(w') == LiveView(w) && SnapView(w') == SnapView(w)[i := LiveView(w)[i]]
  {
    var n := w.nodes[i];
    var blocks := FreeList(w.bitmap)[..|n.blocks|];
    SpliceViews(w, w', i, w'.nodes[i]);
    assert NodeOk(n, w.disk) && LiveSlot(n, w'.disk) == LiveSlot(n, w.disk);
    SnapFilled(n, w'.disk, blocks);
    StoreStep(w, w', i, w'.nodes[i], |n.blocks|);
  }

  /** What rollback's work on node `i` comes to. */
  ghost predicate RestoreStep(v: Volume, v': Volume, i: nat, ok: bool)
    requires i < |v.nodes|
  {
    && Consistent(v') && |v'.nodes| == |v.nodes|
    && v' == v.(nodes := v.nodes[i := v'.nodes[i]], bitmap := v'.bitmap, disk := v'.disk)
    && SameSnapHalf(v.nodes[i], v'.nodes[i])
    && SnapView(v') == SnapView(v)
    && LiveView(v') == LiveView(v)[i := if ok then SnapView(v)[i] else Emptied(SnapView(v)[i])]
  }

  lemma RestoreNodeKeeps(v: Volume, v': Volume, i: nat, status: Status)
    requires Consistent(v) && i < |v.nodes| && v.nodes[i].snapshotActive && RestoreNode(v, v', i, status)
    ensures RestoreStep(v, v', i, status.Ok?)
  {
    hide NodeOk, Balanced, LiveSlot, SnapSlot;
    var n, w := v.nodes[i], LiveBegun(v, i);
    LiveBegins(v, i);
    if !SnapFile(n) {
      EmptiedSame(v, i);
    } else if status.Ok? {
      LiveCopy(w, v', i);
    } else {
      UntouchedKeeps(w, v');
    }
  }

  lemma LiveCopy(w: Volume, w': Volume, i: nat)
    requires Consistent(w) && i < |w.nodes| && SnapFile(w.nodes[i]) && w.nodes[i] == LiveHeader(w.nodes[i])
    requires LiveCopied(w, w', i)
    ensures Consistent(w') && SnapView(w') == SnapView(w) && LiveView(w') == LiveView(w)[i := SnapView(w)[i]]
  {
    var n := w.nodes[i];
    var blocks := FreeList(w.bitmap)[..|n.snapshotBlocks|];
    SpliceViews(w, w', i, w'.nodes[i]);
    assert NodeOk(n, w.disk) && SnapSlot(n, w'.disk) == SnapSlot(n, w.disk);
    LiveFilled(n, w'.disk, blocks);
    StoreStep(w, w', i, w'.nodes[i], |n.snapshotBlocks|);
  }

  // ---------- Commit ----------

  /** Commit has processed nodes 0..k-1 and not yet stamped the commit. */
  ghost predicate CommitProgress(v: Volume, w: Volume, k: nat)
  {
    && Consistent(w) && |w.nodes| == |v.nodes| && k <= |v.nodes|
    && LiveView(w) == LiveView(v) && w.generation == v.generation && w.committed == v.committed
    && (forall j :: 0 <= j < |v.nodes| ==> SameLiveHalf(v.nodes[j], w.nodes[j]))
    && (forall j :: 0 <= j < k ==> SnapView(w)[j] == LiveView(v)[j] && w.nodes[j].snapshotActive == v.nodes[j].active)
    && (forall j :: k <= j < |v.nodes| ==> w.nodes[j] == v.nodes[j] && SnapView(w)[j] == SnapView(v)[j])
  }

  lemma CommitStart(v: Volume)
    requires Consistent(v)
    ensures CommitProgress(v, v, 0)
  {
  }

  lemma CommitAdvance(v: Volume, w: Volume, w': Volume, k: nat)
    requires CommitProgress(v, w, k) && k < |v.nodes| && SnapNode(w, w', k, Ok)
    ensures CommitProgress(v, w', k + 1)
  {
    hide SnapNode;
    SnapNodeKeeps(w, w', k, Ok);
  }

  lemma SnapshottedBefore(v: Volume, w: Volume, k: nat) returns (u: Volume)
    requires Snapshotted(v, w, k)
    ensures k == 0 ==> w == v
    ensures k > 0 ==> Snapshotted(v, u, k - 1) && k <= |u.nodes| && SnapNode(u, w, k - 1, Ok)
  {
    u := v;
    if k > 0 {
      u :| Snapshotted(v, u, k - 1) && k <= |u.nodes| && SnapNode(u, w, k - 1, Ok);
    }
  }

  lemma {:induction false} SnapshottedKeeps(v: Volume, w: Volume, k: nat)
    requires Consistent(v) && k <= |v.nodes| && Snapshotted(v, w, k)
    ensures CommitProgress(v, w, k)
    decreases k
  {
    hide SnapNode, CommitProgress, Snapshotted;
    var u := SnapshottedBefore(v, w, k);
    if k == 0 {
      CommitStart(v);
    } else {
      SnapshottedKeeps(v, u, k - 1);
      CommitAdvance(v, u, w, k - 1);
    }
  }

  lemma SnapshottedStart(v: Volume)
    ensures Snapshotted(v, v, 0)
  {
  }

  lemma SnapshottedNext(v: Volume, w: Volume, w': Volume, k: nat)
    requires Snapshotted(v, w, k) && k < |w.nodes| && SnapNode(w, w', k, Ok)
    ensures Snapshotted(v, w', k + 1)
  {
    hide SnapNode;
    var next := k + 1;
    assert Snapshotted(v, w', next) by { assert Snapshotted(v, w, next - 1); }
  }

  /** What every commit keeps: the live tree, node by node. */
  ghost predicate CommitKeepsLive(v: Volume, v': Volume)
  {
    && Consistent(v') && |v'.nodes| == |v.nodes| && LiveView(v') == LiveView(v) && v'.generation == v.generation
    && forall j :: 0 <= j < |v.nodes| ==> SameLiveHalf(v.nodes[j], v'.nodes[j])
  }

  /** A complete commit makes the snapshot equal to the live tree. */
  lemma CommitKeeps(v: Volume, v': Volume)
    requires Consistent(v) && CommitDone(v, v')
    ensures CommitKeepsLive(v, v') && SnapView(v') == LiveView(v) && v'.committed == v.generation
    ensures forall j :: 0 <= j < |v.nodes| ==> v'.nodes[j].snapshotActive == v.nodes[j].active
  {
    hide Snapshotted;
    var w :| Snapshotted(v, w, |v.nodes|) && v' == w.(committed := w.generation, disk := v'.disk) &&
      SameUsed(w.bitmap, w.disk, v'.disk);
    SnapshottedKeeps(v, w, |v.nodes|);
    UntouchedKeeps(w, v');
    assert SnapView(w) == LiveView(v);
  }

  /** The live tree up to node `k` and the old snapshot behind it. */
  function Mixed(v: Volume, k: nat): (s: seq<Slot>)
    ensures |s| == |v.nodes|
    ensures forall j {:trigger s[j]} :: 0 <= j < |s| ==> s[j] == if j <= k then LiveView(v)[j] else SnapView(v)[j]
  {
    seq(|v.nodes|, j requires 0 <= j < |v.nodes| => if j <= k then LiveView(v)[j] else SnapView(v)[j])
  }

  /**
   A commit that stops does so at a live file `k`. The snapshot is then the live tree up to `k`,
   with the bytes of file `k` missing, and the old snapshot behind it.
   */
  lemma StoppedCommitKeeps(v: Volume, v': Volume, k: nat, status: Status)
    requires Consistent(v) && CommitStopped(v, v', k, status)
    ensures CommitKeepsLive(v, v') && v'.committed == v.committed && LiveFile(v.nodes[k])
    ensures SnapView(v') == Mixed(v, k)[k := Emptied(LiveView(v)[k])]
    ensures forall j :: 0 <= j <= k ==> v'.nodes[j].snapshotActive == v.nodes[j].active
    ensures forall j :: k < j < |v.nodes| ==> v'.nodes[j] == v.nodes[j]
  {
    hide Snapshotted, SnapNode, Consistent, SameLiveHalf, LiveSlot, SnapSlot;
    var w :| Snapshotted(v, w, k) && k < |w.nodes| && SnapNode(w, v', k, status);
    SnapshottedKeeps(v, w, k);
    SnapNodeKeeps(w, v', k, status);
  }

  // ---------- Rollback ----------

  predicate Restored(n: Node, j: nat, dirs: nat, files: nat)
  {
    n.snapshotActive && if n.snapshotKind.Dir? then j < dirs else j < files
  }

  /** The state of slot `j` in a rollback under way; see `RollProgress`. */
  predicate RollSlot(v: Volume, w: Volume, j: nat, dropped: nat, dirs: nat, files: nat)
    requires j < |v.nodes| == |w.nodes|
  {
    && SameSnapHalf(v.nodes[j], w.nodes[j])
    && (dropped <= j ==> w.nodes[j] == v.nodes[j])
    && (Restored(v.nodes[j], j, dirs, files) ==> LiveView(w)[j] == SnapView(v)[j])
    && (v.nodes[j].snapshotActive && !Restored(v.nodes[j], j, dirs, files) ==>
          w.nodes[j] == v.nodes[j] && LiveView(w)[j] == LiveView(v)[j])
    && (!v.nodes[j].snapshotActive ==>
          && w.nodes[j].generation == v.nodes[j].generation
          && LiveView(w)[j] == if j < dropped && Dropped(v.nodes[j], v.committed) then Absent else LiveView(v)[j])
  }

  /**
   Rollback has decided dropping for nodes below `dropped`, restored snapshot directories
   below `dirs` and snapshot files below `files`.
   */
  ghost predicate RollProgress(v: Volume, w: Volume, dropped: nat, dirs: nat, files: nat)
  {
    && Consistent(w) && |w.nodes| == |v.nodes|
    && SnapView(w) == SnapView(v) && w.generation == v.generation && w.committed == v.committed
    && forall j :: 0 <= j < |v.nodes| ==> RollSlot(v, w, j, dropped, dirs, files)
  }

  lemma RollStart(v: Volume)
    requires Consistent(v)
    ensures RollProgress(v, v, 0, 0, 0)
  {
  }

  /** Dropping a node keeps ownership and the snapshot and empties its live slot. */
  lemma DropStep(w: Volume, i: nat)
    requires Consistent(w) && i < |w.nodes|
    ensures var w' := DropNode(w, i);
      && Consistent(w') && SnapView(w') == SnapView(w)
      && LiveView(w') == if Dropped(w.nodes[i], w.committed) then LiveView(w)[i := Absent] else LiveView(w)
  {
    var n := w.nodes[i];
    assert NodeOk(n, w.disk);
    if Dropped(n, w.committed) {
      FreeStep(w, DropNode(w, i), i, n.(active := false, blocks := []), LiveBlocks(n));
    }
  }

  lemma RollDrop(v: Volume, w: Volume, i: nat)
    requires RollProgress(v, w, i, 0, 0) && i < |v.nodes|
    ensures RollProgress(v, DropNode(w, i), i + 1, 0, 0)
  {
    hide Consistent, LiveSlot, SnapSlot, LiveBlocks;
    var next := i + 1;
    assert RollSlot(v, w, i, i, 0, 0);
    DropStep(w, i);
    forall j | 0 <= j < |v.nodes| ensures RollSlot(v, DropNode(w, i), j, next, 0, 0) {
      assert RollSlot(v, w, j, i, 0, 0);
    }
  }

  lemma {:induction false} RollDrops(v: Volume, k: nat)
    requires Consistent(v) && k <= |v.nodes|
    ensures RollProgress(v, DropNodes(v, k), k, 0, 0)
  {
    hide RollProgress, DropNode;
    if k == 0 {
      RollStart(v);
    } else {
      RollDrops(v, k - 1);
      RollDrop(v, DropNodes(v, k - 1), k - 1);
    }
  }

  /** A node that is not due leaves the progress as it is. */
  lemma RollSkip(v: Volume, w: Volume, dirs: nat, files: nat, dirs': nat, files': nat)
    requires RollProgress(v, w, |v.nodes|, dirs, files)
    requires forall j :: 0 <= j < |v.nodes| ==>
      (Restored(v.nodes[j], j, dirs', files') <==> Restored(v.nodes[j], j, dirs, files))
    ensures RollProgress(v, w, |v.nodes|, dirs', files')
  {
    forall j | 0 <= j < |v.nodes| ensures RollSlot(v, w, j, |v.nodes|, dirs', files') {
      assert RollSlot(v, w, j, |v.nodes|, dirs, files);
    }
  }

  lemma RollRestore(v: Volume, w: Volume, w': Volume, i: nat, dirs: nat, files: nat, dirs': nat, files': nat)
    requires RollProgress(v, w, |v.nodes|, dirs, files) && i < |v.nodes| && v.nodes[i].snapshotActive
    requires RestoreStep(w, w', i, true) && !Restored(v.nodes[i], i, dirs, files)
    requires forall j :: 0 <= j < |v.nodes| ==>
      (Restored(v.nodes[j], j, dirs', files') <==> Restored(v.nodes[j], j, dirs, files) || j == i)
    ensures RollProgress(v, w', |v.nodes|, dirs', files')
  {
    forall j | 0 <= j < |v.nodes| ensures RollSlot(v, w', j, |v.nodes|, dirs', files') {
      assert RollSlot(v, w, j, |v.nodes|, dirs, files);
      assert SnapView(v)[j] == SnapView(w)[j];
    }
  }

  lemma {:induction false} RollDirs(v: Volume, k: nat)
    requires Consistent(v) && k <= |v.nodes|
    ensures RollProgress(v, RestoreDirs(DropNodes(v, |v.nodes|), k), |v.nodes|, k, 0)
  {
    hide RollProgress, DropNodes, LiveBegun;
    if k == 0 {
      RollDrops(v, |v.nodes|);
    } else {
      RollDirs(v, k - 1);
      RollDir(v, RestoreDirs(DropNodes(v, |v.nodes|), k - 1), k - 1);
    }
  }

  lemma RollDir(v: Volume, w: Volume, i: nat)
    requires RollProgress(v, w, |v.nodes|, i, 0) && i < |v.nodes|
    ensures RollProgress(v, if SnapDir(w.nodes[i]) then LiveBegun(w, i) else w, |v.nodes|, i + 1, 0)
  {
    hide LiveBegun;
    var next := i + 1;
    assert RollSlot(v, w, i, |v.nodes|, i, 0);
    if SnapDir(w.nodes[i]) {
      RestoreNodeKeeps(w, LiveBegun(w, i), i, Ok);
      RollRestore(v, w, LiveBegun(w, i), i, i, 0, next, 0);
    } else {
      RollSkip(v, w, i, 0, next, 0);
    }
  }

  lemma RestoredBefore(v: Volume, w: Volume, k: nat) returns (u: Volume)
    requires RestoredFiles(v, w, k)
    ensures k == 0 ==> w == v
    ensures k > 0 ==>
      RestoredFiles(v, u, k - 1) && k <= |u.nodes| &&
      if SnapFile(u.nodes[k - 1]) then RestoreNode(u, w, k - 1, Ok) else w == u
  {
    u := v;
    if k > 0 {
      u :| RestoredFiles(v, u, k - 1) && k <= |u.nodes| &&
        if SnapFile(u.nodes[k - 1]) then RestoreNode(u, w, k - 1, Ok) else w == u;
    }
  }

  lemma {:induction false} RollFiles(v: Volume, w: Volume, k: nat)
    requires Consistent(v) && k <= |v.nodes| && RestoredFiles(Cleaned(v), w, k)
    ensures RollProgress(v, w, |v.nodes|, |v.nodes|, k)
    decreases k
  {
    hide RollProgress, RestoreDirs, DropNodes, RestoreNode, RestoredFiles;
    var u := RestoredBefore(Cleaned(v), w, k);
    if k == 0 {
      RollDirs(v, |v.nodes|);
    } else {
      RollFiles(v, u, k - 1);
      RollFile(v, u, w, k - 1);
    }
  }

  lemma RollFile(v: Volume, u: Volume, w: Volume, i: nat)
    requires RollProgress(v, u, |v.nodes|, |v.nodes|, i) && i < |v.nodes|
    requires if SnapFile(u.nodes[i]) then RestoreNode(u, w, i, Ok) else w == u
    ensures RollProgress(v, w, |v.nodes|, |v.nodes|, i + 1)
  {
    hide RestoreNode;
    var next := i + 1;
    assert RollSlot(v, u, i, |v.nodes|, |v.nodes|, i) && NodeOk(u.nodes[i], u.disk);
    if SnapFile(u.nodes[i]) {
      RestoreNodeKeeps(u, w, i, Ok);
      RollRestore(v, u, w, i, |v.nodes|, i, |v.nodes|, next);
    } else {
      RollSkip(v, u, |v.nodes|, i, |v.nodes|, next);
    }
  }

  lemma RestoredStart(v: Volume)
    ensures RestoredFiles(v, v, 0)
  {
  }

  lemma RestoredNext(v: Volume, w: Volume, w': Volume, k: nat)
    requires RestoredFiles(v, w, k) && k < |w.nodes|
    requires if SnapFile(w.nodes[k]) then RestoreNode(w, w', k, Ok) else w' == w
    ensures RestoredFiles(v, w', k + 1)
  {
    hide RestoreNode;
    var next := k + 1;
    assert RestoredFiles(v, w', next) by { assert RestoredFiles(v, w, next - 1); }
  }

  /** Slot `j` of the live tree after a rollback that failed on file `k`, or on none when `k` is behind the table. */
  function RolledBackSlot(v: Volume, k: nat, j: nat): Slot
    requires j < |v.nodes|
  {
    if !v.nodes[j].snapshotActive then if Dropped(v.nodes[j], v.committed) then Absent else LiveView(v)[j]
    else if v.nodes[j].snapshotKind.Dir? || j < k then SnapView(v)[j]
    else if j == k then Emptied(SnapView(v)[j])
    else LiveView(v)[j]
  }

  function RolledBack(v: Volume, k: nat): (s: seq<Slot>)
    ensures |s| == |v.nodes| && forall j {:trigger s[j]} :: 0 <= j < |s| ==> s[j] == RolledBackSlot(v, k, j)
  {
    seq(|v.nodes|, j requires 0 <= j < |v.nodes| => RolledBackSlot(v, k, j))
  }

  /** What every rollback keeps: the snapshot, node by node. */
  ghost predicate RollbackKeepsSnap(v: Volume, v': Volume)
  {
    && Consistent(v') && |v'.nodes| == |v.nodes| && SnapView(v') == SnapView(v) && v'.committed == v.committed
    && forall j :: 0 <= j < |v.nodes| ==>
         && SameSnapHalf(v.nodes[j], v'.nodes[j])
         && (!v.nodes[j].snapshotActive ==> v'.nodes[j].generation == v.nodes[j].generation)
  }

  lemma RollSlots(v: Volume, w: Volume, k: nat)
    requires RollProgress(v, w, |v.nodes|, |v.nodes|, k) && k <= |v.nodes|
    ensures RollbackKeepsSnap(v, w)
    ensures forall j :: 0 <= j < |v.nodes| && !(j == k && SnapFile(v.nodes[j])) ==>
      LiveView(w)[j] == RolledBackSlot(v, k, j)
  {
    forall j | 0 <= j < |v.nodes|
      ensures SameSnapHalf(v.nodes[j], w.nodes[j])
      ensures !v.nodes[j].snapshotActive ==> w.nodes[j].generation == v.nodes[j].generation
      ensures !(j == k && SnapFile(v.nodes[j])) ==> LiveView(w)[j] == RolledBackSlot(v, k, j)
    {
      assert RollSlot(v, w, j, |v.nodes|, |v.nodes|, k) && NodeOk(w.nodes[j], w.disk);
    }
  }

  /** A complete rollback restores every node that has a snapshot and drops the new ones. */
  lemma RollbackKeeps(v: Volume, v': Volume)
    requires Consistent(v) && RollbackComplete(v, v')
    ensures RollbackKeepsSnap(v, v') && LiveView(v') == RolledBack(v, |v.nodes|) && v'.generation == Tick(v.generation)
  {
    hide RestoredFiles, Cleaned, RolledBackSlot;
    var w :| RestoredFiles(Cleaned(v), w, |v.nodes|)
      && v' == w.(generation := Tick(w.generation), disk := v'.disk) && SameUsed(w.bitmap, w.disk, v'.disk);
    RollFiles(v, w, |v.nodes|);
    RollSlots(v, w, |v.nodes|);
    UntouchedKeeps(w, v');
    assert LiveView(w) == RolledBack(v, |v.nodes|);
  }

  /** A rollback that fails on file `k` leaves it without bytes and the files behind it as they were. */
  lemma PartialRollbackKeeps(v: Volume, v': Volume, k: nat, cause: Status)
    requires Consistent(v) && RollbackPartial(v, v', k, cause)
    ensures RollbackKeepsSnap(v, v') && LiveView(v') == RolledBack(v, k) && v'.generation == v.generation
    ensures SnapFile(v.nodes[k])
  {
    hide RestoredFiles, Cleaned, RestoreNode;
    var w :| RestoredFiles(Cleaned(v), w, k) && k < |w.nodes| && SnapFile(w.nodes[k]) && RestoreNode(w, v', k, cause);
    RollFiles(v, w, k);
    RollSlots(v, w, k);
    RestoreNodeKeeps(w, v', k, cause);
    assert LiveView(v') == RolledBack(v, k);
  }

  // ---------- Every call ----------

  lemma CommitConsistent(v: Volume, status: Status, v': Volume)
    requires Consistent(v) && CommitOutcome(true, v, status, v')
    ensures Consistent(v')
  {
    hide CommitDone, Snapshotted;
    if CommitDone(v, v') {
      CommitKeeps(v, v');
    } else {
      var k :| CommitStopped(v, v', k, status);
      StoppedCommitKeeps(v, v', k, status);
    }
  }

  lemma RollbackConsistent(v: Volume, status: Status, v': Volume)
    requires Consistent(v) && RollbackOutcome(true, v, status, v')
    ensures Consistent(v')
  {
    hide RollbackComplete, RestoredFiles;
    if RollbackComplete(v, v') {
      RollbackKeeps(v, v');
    } else {
      var k, cause :| RollbackPartial(v, v', k, cause);
      PartialRollbackKeeps(v, v', k, cause);
    }
  }

  /** Block ownership survives every call, whatever its arguments, status and device failures. */
  lemma StepConsistent(online: bool, op: Op, v: Volume, status: Status, v': Volume)
    requires Consistent(v) && Step(online, op, v, status, v')
    ensures Consistent(v')
  {
    if v' != v {
      match op
      case MakeDir(path) => MakeDirKeeps(v, path, v');
      case WriteFile(path, data) =>
        if Untouched(v, v') { UntouchedKeeps(v, v'); } else { WriteKeeps(v, path, data, v'); }
      case Delete(path) => DeleteKeeps(v, path, v');
      case Rename(from, to) => RenameKeeps(v, from, to, v');
      case Commit => CommitConsistent(v, status, v');
      case Rollback => RollbackConsistent(v, status, v');
    }
  }
}
