/**
 What every filesystem call does to the volume, as relations between volume values, and the
 invariants those relations keep. `MutableFs.MutableFs` proves each of its methods against
 them, so a fact about all chains of steps is a fact about all runs of the code.
 */
module MfsSpec {
  import opened Machine
  import opened Collections
  import opened MfsPaths
  import opened MfsVolume

  // ---------- Node lookup ----------

  predicate Matches(n: Node, path: string, includeSnapshot: bool)
  {
    (n.active || (includeSnapshot && n.snapshotActive)) && n.path == path
  }

  function Find(nodes: seq<Node>, path: string, includeSnapshot: bool): (r: int)
    ensures -1 <= r < |nodes|
    ensures r >= 0 ==> Matches(nodes[r], path, includeSnapshot)
    ensures forall k :: 0 <= k < (if r < 0 then |nodes| else r) ==> !Matches(nodes[k], path, includeSnapshot)
  {
    FindFrom(nodes, path, includeSnapshot, 0)
  }

  function FindFrom(nodes: seq<Node>, path: string, includeSnapshot: bool, i: nat): (r: int)
    requires i <= |nodes|
    ensures r == -1 || i <= r < |nodes|
    ensures r >= 0 ==> Matches(nodes[r], path, includeSnapshot)
    ensures forall k :: i <= k < (if r < 0 then |nodes| else r) ==> !Matches(nodes[k], path, includeSnapshot)
    decreases |nodes| - i
  {
    if i == |nodes| then -1
    else if Matches(nodes[i], path, includeSnapshot) then i
    else FindFrom(nodes, path, includeSnapshot, i + 1)
  }

  predicate Vacant(n: Node) { !n.active && !n.snapshotActive }

  function FindVacant(nodes: seq<Node>, i: nat): (r: int)
    requires i <= |nodes|
    ensures r == -1 || i <= r < |nodes|
    ensures r >= 0 ==> Vacant(nodes[r])
    ensures forall k :: i <= k < (if r < 0 then |nodes| else r) ==> !Vacant(nodes[k])
    decreases |nodes| - i
  {
    if i == |nodes| then -1
    else if Vacant(nodes[i]) then i
    else FindVacant(nodes, i + 1)
  }

  /** The node a creating call uses: the visible one at `path`, else the first vacant one. */
  function Target(nodes: seq<Node>, path: string): (r: int)
    ensures -1 <= r < |nodes|
    ensures r >= 0 ==> Matches(nodes[r], path, true) || Vacant(nodes[r])
  {
    if Find(nodes, path, true) >= 0 then Find(nodes, path, true) else FindVacant(nodes, 0)
  }

  predicate ParentExists(nodes: seq<Node>, path: string)
  {
    var p := Parent(path);
    p == "/" || (Find(nodes, p, false) >= 0 && nodes[Find(nodes, p, false)].kind.Dir?)
  }

  predicate HasActiveChildren(nodes: seq<Node>, path: string)
  {
    exists i :: 0 <= i < |nodes| && nodes[i].active && Beneath(nodes[i].path, path)
  }

  // ---------- Bitmap ----------

  function Marked(bm: seq<bool>, blocks: seq<nat>): (r: seq<bool>)
    ensures |r| == |bm| && forall b :: 0 <= b < |r| ==> r[b] == (bm[b] || b in blocks)
  {
    seq(|bm|, b requires 0 <= b < |bm| => bm[b] || b in blocks)
  }

  function Cleared(bm: seq<bool>, blocks: seq<nat>): (r: seq<bool>)
    ensures |r| == |bm| && forall b :: 0 <= b < |r| ==> r[b] == (bm[b] && b !in blocks)
  {
    seq(|bm|, b requires 0 <= b < |bm| => bm[b] && b !in blocks)
  }

  /** The free blocks in ascending order: what first-fit allocation draws from. */
  function FreeList(bm: seq<bool>): (f: seq<nat>)
    ensures forall k :: 0 <= k < |f| ==> f[k] < |bm| && !bm[f[k]]
    ensures forall b :: 0 <= b < |bm| && !bm[b] ==> b in f
    ensures forall j, k :: 0 <= j < k < |f| ==> f[j] < f[k]
  {
    if bm == [] then []
    else
      var rest := FreeList(bm[..|bm| - 1]);
      if bm[|bm| - 1] then rest else rest + [|bm| - 1]
  }

  lemma {:induction false} FreeListPrefix(bm: seq<bool>, i: nat)
    requires i <= |bm|
    ensures FreeList(bm[..i]) <= FreeList(bm)
  {
    if i < |bm| {
      assert bm[..|bm| - 1][..i] == bm[..i];
      FreeListPrefix(bm[..|bm| - 1], i);
    } else {
      assert bm[..i] == bm;
    }
  }

  lemma FreeListStep(bm: seq<bool>, i: nat)
    requires i < |bm|
    ensures FreeList(bm[..i + 1]) == FreeList(bm[..i]) + if bm[i] then [] else [i]
    ensures i !in FreeList(bm[..i])
  {
    assert bm[..i + 1][..i] == bm[..i];
  }

  lemma FirstFree(bm: seq<bool>, count: nat)
    requires count <= |FreeList(bm)|
    ensures Distinct(FreeList(bm)[..count])
    ensures forall b :: b in FreeList(bm)[..count] ==> b < |bm| && !bm[b]
  {
  }

  lemma {:induction false} DistinctCount(s: seq<nat>, x: nat)
    requires Distinct(s)
    ensures multiset(s)[x] == if x in s then 1 else 0
  {
    if s != [] {
      var rest := s[..|s| - 1];
      assert s == rest + [s[|s| - 1]];
      DistinctCount(rest, x);
    }
  }

  lemma AllocBalanced(nodes: seq<Node>, bm: seq<bool>, pending: multiset<nat>, blocks: seq<nat>)
    requires Balanced(nodes, bm, pending) && Distinct(blocks)
    requires forall b :: b in blocks ==> b < |bm| && !bm[b]
    ensures Balanced(nodes, Marked(bm, blocks), pending + multiset(blocks))
  {
    var l, r := Refs(nodes) + (pending + multiset(blocks)), multiset(Used(Marked(bm, blocks)));
    forall x: nat ensures l[x] == r[x] {
      DistinctCount(blocks, x);
      assert (Refs(nodes) + pending)[x] == multiset(Used(bm))[x];
    }
    assert l == r;
  }

  lemma FreeBalanced(nodes: seq<Node>, bm: seq<bool>, pending: multiset<nat>, blocks: seq<nat>)
    requires Balanced(nodes, bm, pending + multiset(blocks))
    ensures Balanced(nodes, Cleared(bm, blocks), pending)
  {
    var l, r := Refs(nodes) + pending, multiset(Used(Cleared(bm, blocks)));
    forall x: nat ensures l[x] == r[x] {
      assert (Refs(nodes) + (pending + multiset(blocks)))[x] == multiset(Used(bm))[x];
      assert x in blocks <==> multiset(blocks)[x] > 0;
    }
    assert l == r;
  }

  /** Moving blocks between a node and the pending set keeps the balance. */
  lemma Reattach(nodes: seq<Node>, bm: seq<bool>, pending: multiset<nat>, i: nat, n: Node, pending': multiset<nat>)
    requires Balanced(nodes, bm, pending) && i < |nodes|
    requires Owned(nodes[i]) + pending == Owned(n) + pending'
    ensures Balanced(nodes[i := n], bm, pending')
  {
    RefsUpdate(nodes, i, n);
    var was, now, mine, next := Refs(nodes), Refs(nodes[i := n]), Owned(nodes[i]), Owned(n);
    forall x: nat ensures (now + pending')[x] == (was + pending)[x] {
      assert (now + mine)[x] == (was + next)[x];
      assert (mine + pending)[x] == (next + pending')[x];
    }
    assert now + pending' == was + pending;
  }

  // ---------- Device writes ----------

  predicate InMetadata(sector: nat) { START_SECTOR <= sector < START_SECTOR + METADATA_SECTORS }

  predicate WritesWithin(sector: nat, blocks: seq<nat>) { InMetadata(sector) || sector - DATA_START_SECTOR in blocks }

  /**
   The writes logged between `log` and `log'` turned disk `d` into `d'`, and each went to a
   metadata sector or to one of `blocks`.
   */
  predicate Wrote(d: Disk, log: seq<SectorWrite>, d': Disk, log': seq<SectorWrite>, blocks: seq<nat>)
  {
    && log <= log' && d' == ApplyWrites(d, log'[|log|..])
    && forall k :: |log| <= k < |log'| ==> WritesWithin(log'[k].sector, blocks)
  }

  lemma WroteOne(d: Disk, log: seq<SectorWrite>, d1: Disk, log1: seq<SectorWrite>, d2: Disk, log2: seq<SectorWrite>,
      blocks: seq<nat>)
    requires Wrote(d, log, d1, log1, blocks) && |log2| == |log1| + 1 && log2[..|log1|] == log1
    requires var w := log2[|log1|]; d2 == d1[w.sector := w.landed] && WritesWithin(w.sector, blocks)
    ensures Wrote(d, log, d2, log2, blocks)
  {
    var ws := log2[|log|..];
    assert ws[..|ws| - 1] == log1[|log|..];
  }

  lemma {:induction false} ApplyConcat(d: Disk, a: seq<SectorWrite>, b: seq<SectorWrite>)
    ensures ApplyWrites(d, a + b) == ApplyWrites(ApplyWrites(d, a), b)
  {
    if b == [] {
      assert a + b == a;
    } else {
      assert (a + b)[..|a + b| - 1] == a + b[..|b| - 1];
      ApplyConcat(d, a, b[..|b| - 1]);
    }
  }

  lemma WroteChain(d: Disk, log: seq<SectorWrite>, d1: Disk, log1: seq<SectorWrite>, d2: Disk, log2: seq<SectorWrite>,
      blocks: seq<nat>)
    requires Wrote(d, log, d1, log1, blocks) && Wrote(d1, log1, d2, log2, [])
    ensures Wrote(d, log, d2, log2, blocks)
  {
    assert log2[|log|..] == log1[|log|..] + log2[|log1|..];
    ApplyConcat(d, log1[|log|..], log2[|log1|..]);
    forall k | |log| <= k < |log2| ensures WritesWithin(log2[k].sector, blocks) {
      if k < |log1| { assert log2[k] == log1[k]; }
    }
  }

  lemma WroteFree(d: Disk, log: seq<SectorWrite>, d': Disk, log': seq<SectorWrite>, blocks: seq<nat>, bm: seq<bool>)
    requires Wrote(d, log, d', log', blocks) && blocks <= FreeList(bm)
    ensures Wrote(d, log, d', log', FreeList(bm))
  {
  }

  /** All writes between the two logs went to data sectors, or all to metadata. */
  predicate OnlyData(log: seq<SectorWrite>, log': seq<SectorWrite>)
  {
    forall k :: |log| <= k < |log'| ==> !InMetadata(log'[k].sector)
  }

  predicate OnlyMetadata(log: seq<SectorWrite>, log': seq<SectorWrite>)
  {
    forall k :: |log| <= k < |log'| ==> InMetadata(log'[k].sector)
  }

  /** The writes up to `m` went to data sectors and those from `m` on to metadata. */
  predicate TurnsAt(log: seq<SectorWrite>, log': seq<SectorWrite>, m: nat)
  {
    |log| <= m <= |log'| && OnlyData(log, log'[..m]) && OnlyMetadata(log'[..m], log')
  }

  /** No data write follows a metadata write, and at the first metadata write `blocks` hold `data`. */
  ghost predicate DataFirst(d: Disk, log: seq<SectorWrite>, log': seq<SectorWrite>, blocks: seq<nat>, data: seq<byte>)
  {
    exists m: nat ::
      TurnsAt(log, log', m) && (m < |log'| ==> Content(ApplyWrites(d, log'[|log|..m]), blocks, |data|) == data)
  }

  lemma DataThenMetadata(d: Disk, log: seq<SectorWrite>, d1: Disk, log1: seq<SectorWrite>, log2: seq<SectorWrite>,
      blocks: seq<nat>, data: seq<byte>)
    requires log <= log1 <= log2 && d1 == ApplyWrites(d, log1[|log|..])
    requires OnlyData(log, log1) && OnlyMetadata(log1, log2) && (log1 != log2 ==> Content(d1, blocks, |data|) == data)
    ensures DataFirst(d, log, log2, blocks, data)
  {
    assert log2[..|log1|] == log1 && log2[|log|..|log1|] == log1[|log|..];
    assert TurnsAt(log, log2, |log1|);
  }

  /** The blocks a write of `data` allocates. */
  function NewBlocks(bm: seq<bool>, data: seq<byte>): seq<nat>
  {
    FreeList(bm)[..Min(BlocksFor(|data|), |FreeList(bm)|)]
  }

  // ---------- What each call does ----------

  function Tick(g: nat): nat { (g + 1) % TWO64 }

  /** A call that left node table, bitmap and counters alone and wrote no allocated block. */
  predicate Untouched(v: Volume, v': Volume)
  {
    v' == v.(disk := v'.disk) && SameUsed(v.bitmap, v.disk, v'.disk)
  }

  function MadeDir(n: Node, path: string, g: nat): Node
  {
    (if n.snapshotActive then n else BLANK).(active := true, kind := Dir, size := 0, hash := 0,
      generation := g, blocks := [], path := path)
  }

  predicate MakeDirEffect(v: Volume, path: string, v': Volume)
  {
    var t := Target(v.nodes, path);
    && ValidPath(path) && ParentExists(v.nodes, path)
    && t >= 0 && !v.nodes[t].active
    && v' == v.(nodes := v.nodes[t := MadeDir(v.nodes[t], path, v.generation)],
                generation := Tick(v.generation), disk := v'.disk)
    && SameUsed(v.bitmap, v.disk, v'.disk)
  }

  function Written(n: Node, path: string, data: seq<byte>, g: nat, blocks: seq<nat>): Node
  {
    n.(active := true, kind := File, size := |data|, hash := Fnv1a64(data), generation := g,
       blocks := blocks, path := path)
  }

  predicate WriteEffect(v: Volume, path: string, data: seq<byte>, v': Volume)
  {
    var t := Target(v.nodes, path);
    var count := BlocksFor(|data|);
    && ValidPath(path) && ParentExists(v.nodes, path) && |data| <= MAX_FILE_BYTES
    && t >= 0 && (v.nodes[t].active ==> v.nodes[t].kind.File?)
    && count <= |FreeList(v.bitmap)|
    && var blocks := FreeList(v.bitmap)[..count];
    && v' == v.(nodes := v.nodes[t := Written(v.nodes[t], path, data, v.generation, blocks)],
                bitmap := Cleared(Marked(v.bitmap, blocks), LiveBlocks(v.nodes[t])),
                generation := Tick(v.generation), disk := v'.disk)
    && SameUsed(v.bitmap, v.disk, v'.disk)
    && Content(v'.disk, blocks, |data|) == data
  }

  function Deleted(n: Node, g: nat): Node
  {
    n.(active := false, generation := g, blocks := if n.kind.File? then [] else n.blocks)
  }

  predicate DeleteEffect(v: Volume, path: string, v': Volume)
  {
    var t := Find(v.nodes, path, false);
    && ValidPath(path)
    && t >= 0 && (v.nodes[t].kind.Dir? ==> !HasActiveChildren(v.nodes, path))
    && v' == v.(nodes := v.nodes[t := Deleted(v.nodes[t], v.generation)],
                bitmap := Cleared(v.bitmap, LiveBlocks(v.nodes[t])),
                generation := Tick(v.generation), disk := v'.disk)
    && SameUsed(v.bitmap, v.disk, v'.disk)
  }

  predicate RenameEffect(v: Volume, from: string, to: string, v': Volume)
  {
    var t := Find(v.nodes, from, false);
    && ValidPath(from) && ValidPath(to) && ParentExists(v.nodes, to)
    && t >= 0 && Find(v.nodes, to, false) < 0
    && (v.nodes[t].kind.Dir? ==> !HasActiveChildren(v.nodes, from))
    && v' == v.(nodes := v.nodes[t := v.nodes[t].(path := to, generation := v.generation)],
                generation := Tick(v.generation), disk := v'.disk)
    && SameUsed(v.bitmap, v.disk, v'.disk)
  }

  predicate SameLiveHalf(n: Node, n': Node)
  {
    n' == n.(snapshotActive := n'.snapshotActive, snapshotKind := n'.snapshotKind, snapshotSize := n'.snapshotSize,
             snapshotHash := n'.snapshotHash, snapshotGeneration := n'.snapshotGeneration,
             snapshotBlocks := n'.snapshotBlocks)
  }

  predicate SameSnapHalf(n: Node, n': Node)
  {
    n' == n.(active := n'.active, kind := n'.kind, size := n'.size, hash := n'.hash,
             generation := n'.generation, blocks := n'.blocks)
  }

  /** The node with its old snapshot dropped and, when it is live, a new snapshot begun without data. */
  function SnapHeader(n: Node): Node
  {
    if n.active then
      n.(snapshotActive := true, snapshotKind := n.kind, snapshotSize := n.size, snapshotHash := n.hash,
         snapshotGeneration := n.generation, snapshotBlocks := [])
    else
      n.(snapshotActive := false, snapshotKind := Free, snapshotSize := 0, snapshotHash := 0,
         snapshotGeneration := 0, snapshotBlocks := [])
  }

  /** The node with its live half taken back from the snapshot, still without data. */
  function LiveHeader(n: Node): Node
  {
    n.(active := true, kind := n.snapshotKind, size := n.snapshotSize, hash := n.snapshotHash,
       generation := n.snapshotGeneration, blocks := [])
  }

  /** Node `i` with its old snapshot freed and the header of a new one. */
  function SnapBegun(v: Volume, i: nat): Volume
    requires i < |v.nodes|
  {
    v.(nodes := v.nodes[i := SnapHeader(v.nodes[i])], bitmap := Cleared(v.bitmap, SnapBlocks(v.nodes[i])))
  }

  /** The live bytes of node `i` copied into the first free blocks, which become its snapshot blocks. */
  predicate SnapCopied(w: Volume, w': Volume, i: nat)
    requires i < |w.nodes|
  {
    var n := w.nodes[i];
    && |n.blocks| <= |FreeList(w.bitmap)|
    && var blocks := FreeList(w.bitmap)[..|n.blocks|];
    && w' == w.(nodes := w.nodes[i := n.(snapshotBlocks := blocks)], bitmap := Marked(w.bitmap, blocks),
      disk := w'.disk)
    && SameUsed(w.bitmap, w.disk, w'.disk)
    && Content(w'.disk, blocks, n.size) == Content(w.disk, n.blocks, n.size)
  }

  /** A copy of `count` blocks on `w` that failed: for want of space, or in the device. */
  predicate CopyFailed(w: Volume, w': Volume, count: nat, status: Status)
  {
    || (status.ErrNoMemory? && count > |FreeList(w.bitmap)| && w' == w)
    || (status.ErrIo? && count > 0 && Untouched(w, w'))
  }

  predicate LiveFile(n: Node) { n.active && n.kind.File? }
  predicate SnapFile(n: Node) { n.snapshotActive && n.snapshotKind.File? }
  predicate SnapDir(n: Node) { n.snapshotActive && n.snapshotKind.Dir? }

  /** Commit's work on node `i`. */
  predicate SnapNode(v: Volume, v': Volume, i: nat, status: Status)
    requires i < |v.nodes|
  {
    var w := SnapBegun(v, i);
    if !LiveFile(v.nodes[i]) then status.Ok? && v' == w
    else (status.Ok? && SnapCopied(w, v', i)) || CopyFailed(w, v', |v.nodes[i].blocks|, status)
  }

  /** Nodes 0..k-1 snapshotted one after the other. */
  ghost predicate Snapshotted(v: Volume, w: Volume, k: nat)
    decreases k
  {
    if k == 0 then w == v else exists u :: Snapshotted(v, u, k - 1) && k <= |u.nodes| && SnapNode(u, w, k - 1, Ok)
  }

  /** A commit that went through the whole table; its metadata write may have failed. */
  ghost predicate CommitDone(v: Volume, v': Volume)
  {
    exists w :: Snapshotted(v, w, |v.nodes|)
             && v' == w.(committed := w.generation, disk := v'.disk) && SameUsed(w.bitmap, w.disk, v'.disk)
  }

  /** A commit that failed on node `k`. */
  ghost predicate CommitStopped(v: Volume, v': Volume, k: nat, status: Status)
  {
    && k < |v.nodes| && !status.Ok?
    && exists w :: Snapshotted(v, w, k) && k < |w.nodes| && SnapNode(w, v', k, status)
  }

  /** Rollback drops live nodes that have no snapshot and are not older than the commit. */
  predicate Dropped(n: Node, committed: nat)
  {
    !n.snapshotActive && n.active && n.generation >= committed
  }

  function DropNode(v: Volume, i: nat): Volume
    requires i < |v.nodes|
  {
    var n := v.nodes[i];
    if Dropped(n, v.committed) then
      v.(nodes := v.nodes[i := n.(active := false, blocks := [])], bitmap := Cleared(v.bitmap, LiveBlocks(n)))
    else v
  }

  /** The first loop of rollback, up to node `k`. */
  function DropNodes(v: Volume, k: nat): (w: Volume)
    requires k <= |v.nodes|
    ensures |w.nodes| == |v.nodes|
  {
    if k == 0 then v else DropNode(DropNodes(v, k - 1), k - 1)
  }

  /** Node `i` with its live blocks freed and the header of its snapshot. */
  function LiveBegun(v: Volume, i: nat): Volume
    requires i < |v.nodes|
  {
    v.(nodes := v.nodes[i := LiveHeader(v.nodes[i])], bitmap := Cleared(v.bitmap, LiveBlocks(v.nodes[i])))
  }

  /** The second loop of rollback, which restores directories, up to node `k`. */
  function RestoreDirs(v: Volume, k: nat): (w: Volume)
    requires k <= |v.nodes|
    ensures |w.nodes| == |v.nodes|
  {
    if k == 0 then v
    else
      var w := RestoreDirs(v, k - 1);
      if SnapDir(w.nodes[k - 1]) then LiveBegun(w, k - 1) else w
  }

  /** The snapshot bytes of node `i` copied into the first free blocks, which become its live blocks. */
  predicate LiveCopied(w: Volume, w': Volume, i: nat)
    requires i < |w.nodes|
  {
    var n := w.nodes[i];
    && |n.snapshotBlocks| <= |FreeList(w.bitmap)|
    && var blocks := FreeList(w.bitmap)[..|n.snapshotBlocks|];
    && w' == w.(nodes := w.nodes[i := n.(blocks := blocks)], bitmap := Marked(w.bitmap, blocks), disk := w'.disk)
    && SameUsed(w.bitmap, w.disk, w'.disk)
    && Content(w'.disk, blocks, n.snapshotSize) == Content(w.disk, n.snapshotBlocks, n.snapshotSize)
  }

  /** Rollback's work on node `i`, which has a snapshot. */
  predicate RestoreNode(v: Volume, v': Volume, i: nat, status: Status)
    requires i < |v.nodes|
  {
    var w := LiveBegun(v, i);
    if !SnapFile(v.nodes[i]) then status.Ok? && v' == w
    else (status.Ok? && LiveCopied(w, v', i)) || CopyFailed(w, v', |v.nodes[i].snapshotBlocks|, status)
  }

  /** The third loop of rollback, which restores files, up to node `k`. */
  ghost predicate RestoredFiles(v: Volume, w: Volume, k: nat)
    decreases k
  {
    if k == 0 then w == v
    else exists u :: RestoredFiles(v, u, k - 1) && k <= |u.nodes|
                  && if SnapFile(u.nodes[k - 1]) then RestoreNode(u, w, k - 1, Ok) else w == u
  }

  function Cleaned(v: Volume): Volume { RestoreDirs(DropNodes(v, |v.nodes|), |v.nodes|) }

  ghost predicate RollbackComplete(v: Volume, v': Volume)
  {
    exists w :: RestoredFiles(Cleaned(v), w, |v.nodes|)
             && v' == w.(generation := Tick(w.generation), disk := v'.disk) && SameUsed(w.bitmap, w.disk, v'.disk)
  }

  /** A rollback that could not restore file `k`, for the given cause. */
  ghost predicate RollbackPartial(v: Volume, v': Volume, k: nat, cause: Status)
  {
    && k < |v.nodes| && !cause.Ok?
    && exists w ::
      RestoredFiles(Cleaned(v), w, k) && k < |w.nodes| && SnapFile(w.nodes[k]) && RestoreNode(w, v', k, cause)
  }

  // ---------- Runs ----------

  datatype Op = MakeDir(path: string) | WriteFile(path: string, data: seq<byte>) | Delete(path: string)
              | Rename(from: string, to: string) | Commit | Rollback

  predicate MakeDirOutcome(online: bool, v: Volume, path: string, status: Status, v': Volume)
  {
    var at := Find(v.nodes, path, true);
    if !online || !ValidPath(path) || !ParentExists(v.nodes, path) then status == ErrInvalid && v' == v
    else if at >= 0 && v.nodes[at].active then
      v' == v && status == if v.nodes[at].kind.Dir? then Ok else ErrInvalid
    else if Target(v.nodes, path) < 0 then status == ErrNoMemory && v' == v
    else MakeDirEffect(v, path, v') && (status.Ok? || status.ErrIo?)
  }

  predicate WriteOutcome(online: bool, v: Volume, path: string, data: seq<byte>, status: Status, v': Volume)
  {
    var t := Target(v.nodes, path);
    if !online || !ValidPath(path) || !ParentExists(v.nodes, path) || |data| > MAX_FILE_BYTES then
      status == ErrInvalid && v' == v
    else if BlocksFor(|data|) > |FreeList(v.bitmap)| then status == ErrNoMemory && v' == v
    else if t < 0 then Untouched(v, v') && (status.ErrIo? || status.ErrNoMemory?)
    else if v.nodes[t].active && !v.nodes[t].kind.File? then Untouched(v, v') && (status.ErrIo? || status.ErrInvalid?)
    else (status.ErrIo? && Untouched(v, v')) || ((status.Ok? || status.ErrIo?) && WriteEffect(v, path, data, v'))
  }

  predicate DeleteOutcome(online: bool, v: Volume, path: string, status: Status, v': Volume)
  {
    var t := Find(v.nodes, path, false);
    if !online || !ValidPath(path) then status == ErrInvalid && v' == v
    else if t < 0 then status == ErrNotFound && v' == v
    else if v.nodes[t].kind.Dir? && HasActiveChildren(v.nodes, path) then status == ErrBusy && v' == v
    else DeleteEffect(v, path, v') && (status.Ok? || status.ErrIo?)
  }

  predicate RenameOutcome(online: bool, v: Volume, from: string, to: string, status: Status, v': Volume)
  {
    var t := Find(v.nodes, from, false);
    if !online || !ValidPath(from) || !ValidPath(to) || !ParentExists(v.nodes, to) then status == ErrInvalid && v' == v
    else if t < 0 then status == ErrNotFound && v' == v
    else if Find(v.nodes, to, false) >= 0 || (v.nodes[t].kind.Dir? && HasActiveChildren(v.nodes, from)) then
      status == ErrBusy && v' == v
    else RenameEffect(v, from, to, v') && (status.Ok? || status.ErrIo?)
  }

  ghost predicate CommitOutcome(online: bool, v: Volume, status: Status, v': Volume)
  {
    if !online then status == ErrInvalid && v' == v
    else
      || ((status.Ok? || status.ErrIo?) && CommitDone(v, v'))
      || exists k :: CommitStopped(v, v', k, status)
  }

  ghost predicate RollbackOutcome(online: bool, v: Volume, status: Status, v': Volume)
  {
    if !online then status == ErrInvalid && v' == v
    else
      || ((status.Ok? || status.ErrIo?) && RollbackComplete(v, v'))
      || (status.ErrIo? && exists k, cause :: RollbackPartial(v, v', k, cause))
  }

  /**
   One call with its status, for any pattern of device failures; `online` tells whether the
   volume is mounted for writing. A call that reports an I/O error may still have taken
   effect: the metadata write comes last.
   */
  ghost predicate Step(online: bool, op: Op, v: Volume, status: Status, v': Volume)
  {
    match op
    case MakeDir(path) => MakeDirOutcome(online, v, path, status, v')
    case WriteFile(path, data) => WriteOutcome(online, v, path, data, status, v')
    case Delete(path) => DeleteOutcome(online, v, path, status, v')
    case Rename(from, to) => RenameOutcome(online, v, from, to, status, v')
    case Commit => CommitOutcome(online, v, status, v')
    case Rollback => RollbackOutcome(online, v, status, v')
  }

  // ---------- Every call keeps the invariant ----------

  lemma UntouchedKeeps(v: Volume, v': Volume)
    requires Consistent(v) && v'.nodes == v.nodes && v'.bitmap == v.bitmap && SameUsed(v.bitmap, v.disk, v'.disk)
    ensures Consistent(v') && LiveView(v') == LiveView(v) && SnapView(v') == SnapView(v)
  {
    TableFrame(v.nodes, v.bitmap, multiset{}, v.disk, v'.disk);
  }

  /** Replacing one node, with the blocks of the others spared, changes that slot only. */
  lemma SpliceViews(v: Volume, v': Volume, t: nat, n: Node)
    requires Balanced(v.nodes, v.bitmap, multiset{}) && t < |v.nodes|
    requires v'.nodes == v.nodes[t := n] && SameUsed(v.bitmap, v.disk, v'.disk)
    requires forall i {:trigger NodeOk(v.nodes[i], v.disk)} :: 0 <= i < |v.nodes| ==> NodeOk(v.nodes[i], v.disk)
    ensures LiveView(v') == LiveView(v)[t := LiveSlot(n, v'.disk)]
    ensures SnapView(v') == SnapView(v)[t := SnapSlot(n, v'.disk)]
    ensures NodeOk(n, v'.disk) ==>
      forall i {:trigger NodeOk(v'.nodes[i], v'.disk)} :: 0 <= i < |v'.nodes| ==> NodeOk(v'.nodes[i], v'.disk)
    ensures LiveSlot(v.nodes[t], v'.disk) == LiveView(v)[t] && SnapSlot(v.nodes[t], v'.disk) == SnapView(v)[t]
    ensures NodeOk(v.nodes[t], v'.disk)
  {
    TableFrame(v.nodes, v.bitmap, multiset{}, v.disk, v'.disk);
  }

  /** Giving node `t` freshly allocated live blocks and freeing its former ones keeps the balance. */
  lemma SwapLive(nodes: seq<Node>, bm: seq<bool>, t: nat, n: Node, blocks: seq<nat>)
    requires Balanced(nodes, bm, multiset{}) && t < |nodes|
    requires Distinct(blocks) && forall b :: b in blocks ==> b < |bm| && !bm[b]
    requires LiveBlocks(n) == blocks && SnapBlocks(n) == SnapBlocks(nodes[t])
    ensures Balanced(nodes[t := n], Cleared(Marked(bm, blocks), LiveBlocks(nodes[t])), multiset{})
  {
    var live, snap, added := multiset(LiveBlocks(nodes[t])), multiset(SnapBlocks(nodes[t])), multiset(blocks);
    AllocBalanced(nodes, bm, multiset{}, blocks);
    assert (live + snap) + (multiset{} + added) == (added + snap) + (multiset{} + live);
    Reattach(nodes, Marked(bm, blocks), multiset{} + added, t, n, multiset{} + live);
    FreeBalanced(nodes[t := n], Marked(bm, blocks), multiset{}, LiveBlocks(nodes[t]));
  }

  lemma MakeDirKeeps(v: Volume, path: string, v': Volume)
    requires Consistent(v) && MakeDirEffect(v, path, v')
    ensures Consistent(v')
    ensures LiveView(v') == LiveView(v)[Target(v.nodes, path) := Present(path, Directory)]
    ensures SnapView(v') == SnapView(v)
  {
    var t := Target(v.nodes, path);
    var n := MadeDir(v.nodes[t], path, v.generation);
    SpliceViews(v, v', t, n);
    Reattach(v.nodes, v.bitmap, multiset{}, t, n, multiset{});
  }

  lemma WrittenNode(n: Node, d: Disk, path: string, data: seq<byte>, g: nat, blocks: seq<nat>)
    requires NodeOk(n, d) && |data| <= MAX_FILE_BYTES && |blocks| == BlocksFor(|data|)
    requires Content(d, blocks, |data|) == data && (n.snapshotActive ==> n.path == path)
    ensures var n' := Written(n, path, data, g, blocks);
      && NodeOk(n', d) && SnapSlot(n', d) == SnapSlot(n, d)
      && LiveSlot(n', d) == Present(path, Regular(|data|, Fnv1a64(data), data))
  {
  }

  lemma WriteViews(v: Volume, path: string, data: seq<byte>, v': Volume)
    requires Consistent(v) && WriteEffect(v, path, data, v')
    ensures LiveView(v') == LiveView(v)[Target(v.nodes, path) := Present(path, Regular(|data|, Fnv1a64(data), data))]
    ensures SnapView(v') == SnapView(v)
    ensures forall i {:trigger NodeOk(v'.nodes[i], v'.disk)} :: 0 <= i < |v'.nodes| ==> NodeOk(v'.nodes[i], v'.disk)
  {
    hide FreeList, Content, Fnv1a64, ValidPath, ParentExists, Find, FindVacant, Balanced, Cleared, Marked;
    var t := Target(v.nodes, path);
    var blocks := FreeList(v.bitmap)[..BlocksFor(|data|)];
    SpliceViews(v, v', t, Written(v.nodes[t], path, data, v.generation, blocks));
    WrittenNode(v.nodes[t], v'.disk, path, data, v.generation, blocks);
    assert SnapView(v') == SnapView(v)[t := SnapView(v)[t]];
  }

  lemma WriteKeeps(v: Volume, path: string, data: seq<byte>, v': Volume)
    requires Consistent(v) && WriteEffect(v, path, data, v')
    ensures Consistent(v')
    ensures LiveView(v') == LiveView(v)[Target(v.nodes, path) := Present(path, Regular(|data|, Fnv1a64(data), data))]
    ensures SnapView(v') == SnapView(v)
  {
    WriteBalanced(v, path, data, v');
    WriteViews(v, path, data, v');
  }

  lemma WriteBalanced(v: Volume, path: string, data: seq<byte>, v': Volume)
    requires Balanced(v.nodes, v.bitmap, multiset{}) && WriteEffect(v, path, data, v')
    ensures Balanced(v'.nodes, v'.bitmap, multiset{})
  {
    var t := Target(v.nodes, path);
    var blocks := FreeList(v.bitmap)[..BlocksFor(|data|)];
    FirstFree(v.bitmap, |blocks|);
    SwapLive(v.nodes, v.bitmap, t, Written(v.nodes[t], path, data, v.generation, blocks), blocks);
  }

  lemma DeleteKeeps(v: Volume, path: string, v': Volume)
    requires Consistent(v) && DeleteEffect(v, path, v')
    ensures Consistent(v')
    ensures LiveView(v') == LiveView(v)[Find(v.nodes, path, false) := Absent]
    ensures SnapView(v') == SnapView(v)
  {
    var t := Find(v.nodes, path, false);
    var n := Deleted(v.nodes[t], v.generation);
    SpliceViews(v, v', t, n);
    assert Marked(v.bitmap, []) == v.bitmap;
    SwapLive(v.nodes, v.bitmap, t, n, []);
  }

  lemma RenameKeeps(v: Volume, from: string, to: string, v': Volume)
    requires Consistent(v) && RenameEffect(v, from, to, v')
    ensures Consistent(v')
    ensures var t := Find(v.nodes, from, false);
      && LiveView(v') == LiveView(v)[t := LiveView(v)[t].(path := to)]
      && SnapView(v') ==
        if v.nodes[t].snapshotActive then SnapView(v)[t := SnapView(v)[t].(path := to)] else SnapView(v)
  {
    var t := Find(v.nodes, from, false);
    var n := v.nodes[t].(path := to, generation := v.generation);
    SpliceViews(v, v', t, n);
    Reattach(v.nodes, v.bitmap, multiset{}, t, n, multiset{});
  }

  // ---------- The consistency checker ----------

  predicate LiveReferenced(v: Volume, b: nat)
  {
    exists j :: 0 <= j < |v.nodes| && b in LiveBlocks(v.nodes[j])
  }

  predicate SnapReferenced(v: Volume, b: nat)
  {
    exists j :: 0 <= j < |v.nodes| && b in SnapBlocks(v.nodes[j])
  }

  predicate FsckError(v: Volume, b: nat)
    requires b < |v.bitmap|
  {
    v.bitmap[b] != LiveReferenced(v, b)
  }

  function FsckErrors(v: Volume): set<nat>
  {
    set b: nat | b < |v.bitmap| && FsckError(v, b)
  }

  /**
   The checker looks at live block lists only, so on every consistent volume what it reports
   as errors are exactly the blocks of the committed snapshot.
   */
  lemma FsckReportsSnapshots(v: Volume, b: nat)
    requires Consistent(v) && b < |v.bitmap|
    ensures FsckError(v, b) <==> SnapReferenced(v, b)
  {
    OwnedOnce(v, b);
    if v.bitmap[b] {
      RefsOwner(v.nodes, b);
      var i :| 0 <= i < |v.nodes| && b in Owned(v.nodes[i]);
      if b in SnapBlocks(v.nodes[i]) && LiveReferenced(v, b) {
        var j :| 0 <= j < |v.nodes| && b in LiveBlocks(v.nodes[j]);
        OneList(v, i, j, b);
      } else if b in LiveBlocks(v.nodes[i]) && SnapReferenced(v, b) {
        var j :| 0 <= j < |v.nodes| && b in SnapBlocks(v.nodes[j]);
        OneList(v, j, i, b);
      }
    } else {
      forall j | 0 <= j < |v.nodes| ensures b !in Owned(v.nodes[j]) {
        if b in Owned(v.nodes[j]) { OwnedIsUsed(v.nodes, v.bitmap, multiset{}, j, b); }
      }
    }
  }

  /** No block is in a snapshot list and in a live list. */
  lemma OneList(v: Volume, i: nat, j: nat, b: nat)
    requires Consistent(v) && i < |v.nodes| && j < |v.nodes|
    requires b in SnapBlocks(v.nodes[i])
    ensures b !in LiveBlocks(v.nodes[j])
  {
    if b in LiveBlocks(v.nodes[j]) {
      assert b in Owned(v.nodes[i]) && b in Owned(v.nodes[j]);
      if i != j {
        OwnersDisjoint(v, i, j, b);
      } else {
        assert Owned(v.nodes[i])[b] >= 2;
        RefsMember(v.nodes, i);
        OwnedOnce(v, b);
      }
    }
  }

  /** Hence the checker declares a consistent volume valid exactly when no snapshot holds data. */
  lemma FsckValidIff(v: Volume)
    requires Consistent(v)
    ensures FsckErrors(v) == {} <==> forall i :: 0 <= i < |v.nodes| ==> SnapBlocks(v.nodes[i]) == []
  {
    forall b: nat | b < |v.bitmap| ensures FsckError(v, b) <==> SnapReferenced(v, b) {
      FsckReportsSnapshots(v, b);
    }
    if i :| 0 <= i < |v.nodes| && SnapBlocks(v.nodes[i]) != [] {
      var b := SnapBlocks(v.nodes[i])[0];
      assert b in Owned(v.nodes[i]);
      OwnedIsUsed(v.nodes, v.bitmap, multiset{}, i, b);
      assert SnapReferenced(v, b) && b in FsckErrors(v);
    }
  }
}
