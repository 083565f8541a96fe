/**
 When commit and rollback find enough free blocks: exact conditions on the block counts of the
 volume before the call, from counting what each node holds while the call is under way.
 */
module MfsRoom {
  import opened Machine
  import opened MfsVolume
  import opened MfsSpec
  import opened MfsSnapshot

  // ---------- Counting ----------

  function Tally(ls: seq<nat>): nat
  {
    if ls == [] then 0 else Tally(ls[..|ls| - 1]) + ls[|ls| - 1]
  }

  lemma {:induction false} TallyUpdate(ls: seq<nat>, i: nat, x: nat)
    requires i < |ls|
    ensures Tally(ls[i := x]) + ls[i] == Tally(ls) + x
  {
    var last := |ls| - 1;
    if i == last {
      assert ls[i := x][..last] == ls[..last];
    } else {
      assert ls[i := x][..last] == ls[..last][i := x];
      TallyUpdate(ls[..last], i, x);
    }
  }

  function Load(n: Node): nat { |LiveBlocks(n)| + |SnapBlocks(n)| }

  function Loads(nodes: seq<Node>): (s: seq<nat>)
    ensures |s| == |nodes| && forall i {:trigger s[i]} :: 0 <= i < |s| ==> s[i] == Load(nodes[i])
  {
    seq(|nodes|, i requires 0 <= i < |nodes| => Load(nodes[i]))
  }

  lemma {:induction false} SumSize(ms: seq<multiset<nat>>, ls: seq<nat>)
    requires |ms| == |ls| && forall i :: 0 <= i < |ms| ==> |ms[i]| == ls[i]
    ensures |Sum(ms)| == Tally(ls)
  {
    if ms != [] {
      SumSize(ms[..|ms| - 1], ls[..|ls| - 1]);
    }
  }

  lemma UsedLast(bm: seq<bool>)
    requires bm != []
    ensures var last := |bm| - 1; var before := Used(bm[..last]);
      last !in before && Used(bm) == if bm[last] then before + {last} else before
  {
  }

  lemma {:induction false} FreeOrUsed(bm: seq<bool>)
    ensures |FreeList(bm)| + |Used(bm)| == |bm|
  {
    hide Used;
    if bm == [] {
      assert Used(bm) == {};
    } else {
      var last := |bm| - 1;
      FreeOrUsed(bm[..last]);
      UsedLast(bm);
    }
  }

  /** The free blocks of a consistent volume: all but those the nodes hold. */
  lemma FreeExact(v: Volume)
    requires Consistent(v)
    ensures |FreeList(v.bitmap)| + Tally(Loads(v.nodes)) == DATA_SECTORS
  {
    FreeOrUsed(v.bitmap);
    SumSize(OwnedLists(v.nodes), Loads(v.nodes));
    assert |Refs(v.nodes)| == |multiset(Used(v.bitmap))|;
  }

  // ---------- Commit ----------

  /** What each node holds once the nodes below `k` are snapshotted. */
  function CommitLoads(nodes: seq<Node>, k: nat): (s: seq<nat>)
    ensures |s| == |nodes|
    ensures forall j {:trigger s[j]} :: 0 <= j < |s| ==>
      s[j] == if j < k then 2 * |LiveBlocks(nodes[j])| else Load(nodes[j])
  {
    seq(|nodes|, j requires 0 <= j < |nodes| => if j < k then 2 * |LiveBlocks(nodes[j])| else Load(nodes[j]))
  }

  /** In no stage of a commit do the nodes hold more than there is. */
  predicate CommitFits(v: Volume)
  {
    forall k :: 0 < k <= |v.nodes| ==> Tally(CommitLoads(v.nodes, k)) <= DATA_SECTORS
  }

  lemma SnapNodeLoad(v: Volume, v': Volume, i: nat)
    requires i < |v.nodes| && SnapNode(v, v', i, Ok)
    ensures |v'.nodes| == |v.nodes| && v'.nodes == v.nodes[i := v'.nodes[i]] &&
      Load(v'.nodes[i]) == 2 * |LiveBlocks(v.nodes[i])|
  {
  }

  lemma {:induction false} SnapshottedLoads(v: Volume, w: Volume, k: nat)
    requires Consistent(v) && k <= |v.nodes| && Snapshotted(v, w, k)
    ensures Consistent(w) && Loads(w.nodes) == CommitLoads(v.nodes, k)
    ensures |w.nodes| == |v.nodes| && forall j :: k <= j < |v.nodes| ==> w.nodes[j] == v.nodes[j]
    ensures forall i :: 0 < i <= k ==> Tally(CommitLoads(v.nodes, i)) <= DATA_SECTORS
    decreases k
  {
    hide SnapNode, Snapshotted, Consistent, Tally;
    var u := SnapshottedBefore(v, w, k);
    if k == 0 {
      assert Loads(w.nodes) == CommitLoads(v.nodes, 0);
    } else {
      SnapshottedLoads(v, u, k - 1);
      SnapNodeKeeps(u, w, k - 1, Ok);
      SnapNodeLoad(u, w, k - 1);
      forall j | 0 <= j < |v.nodes| ensures Loads(w.nodes)[j] == CommitLoads(v.nodes, k)[j] {
        assert Loads(u.nodes)[j] == CommitLoads(v.nodes, k - 1)[j];
      }
      assert Loads(w.nodes) == CommitLoads(v.nodes, k);
      FreeExact(w);
    }
  }

  lemma DoneFits(v: Volume, v': Volume)
    requires Consistent(v) && CommitDone(v, v')
    ensures CommitFits(v)
  {
    hide Snapshotted, Consistent;
    var w :| Snapshotted(v, w, |v.nodes|) && v' == w.(committed := w.generation, disk := v'.disk) &&
      SameUsed(w.bitmap, w.disk, v'.disk);
    SnapshottedLoads(v, w, |v.nodes|);
  }

  /** What is held when node `k` has its header: all of the next stage but the copy. */
  lemma BegunLoads(v: Volume, w: Volume, k: nat)
    requires k < |v.nodes| == |w.nodes| && Loads(w.nodes) == CommitLoads(v.nodes, k) && w.nodes[k] == v.nodes[k]
    ensures Tally(Loads(SnapBegun(w, k).nodes)) + |LiveBlocks(v.nodes[k])| == Tally(CommitLoads(v.nodes, k + 1))
  {
    hide Tally;
    var b, more, next := SnapBegun(w, k), |LiveBlocks(v.nodes[k])|, k + 1;
    var held := Loads(b.nodes)[k := more + more];
    forall j | 0 <= j < |v.nodes| ensures held[j] == CommitLoads(v.nodes, next)[j] {
      assert Loads(w.nodes)[j] == CommitLoads(v.nodes, k)[j];
    }
    assert Loads(b.nodes)[k] == more && held == CommitLoads(v.nodes, next);
    TallyUpdate(Loads(b.nodes), k, more + more);
  }

  lemma OutOfSpace(v: Volume, v': Volume, k: nat)
    requires Consistent(v) && CommitStopped(v, v', k, ErrNoMemory)
    ensures !CommitFits(v)
  {
    hide Snapshotted, Consistent, Tally, Loads, CommitLoads;
    var w :| Snapshotted(v, w, k) && k < |w.nodes| && SnapNode(w, v', k, ErrNoMemory);
    SnapshottedLoads(v, w, k);
    SnapBegins(w, k);
    FreeExact(SnapBegun(w, k));
    BegunLoads(v, w, k);
  }

  // ---------- Rollback ----------

  /** What node `j` holds once dropping, directories and the files below `k` are done. */
  function RollbackLoad(v: Volume, k: nat, j: nat): nat
    requires j < |v.nodes|
  {
    var n := v.nodes[j];
    |SnapBlocks(n)| +
    if !n.snapshotActive then if Dropped(n, v.committed) then 0 else |LiveBlocks(n)|
    else if n.snapshotKind.Dir? then 0
    else if j < k then |SnapBlocks(n)|
    else |LiveBlocks(n)|
  }

  function RollbackLoads(v: Volume, k: nat): (s: seq<nat>)
    ensures |s| == |v.nodes| && forall j {:trigger s[j]} :: 0 <= j < |s| ==> s[j] == RollbackLoad(v, k, j)
  {
    seq(|v.nodes|, j requires 0 <= j < |v.nodes| => RollbackLoad(v, k, j))
  }

  predicate RollbackFits(v: Volume)
  {
    forall k :: 0 < k <= |v.nodes| ==> Tally(RollbackLoads(v, k)) <= DATA_SECTORS
  }

  lemma {:induction false} DroppedNode(v: Volume, k: nat, j: nat)
    requires k <= |v.nodes| && j < |v.nodes|
    ensures DropNodes(v, k).committed == v.committed
    ensures var n := v.nodes[j];
      DropNodes(v, k).nodes[j] == if j < k && Dropped(n, v.committed) then n.(active := false, blocks := []) else n
  {
    if k > 0 { DroppedNode(v, k - 1, j); }
  }

  lemma {:induction false} RestoredDir(v: Volume, k: nat, j: nat)
    requires k <= |v.nodes| && j < |v.nodes|
    ensures var n := v.nodes[j]; RestoreDirs(v, k).nodes[j] == if j < k && SnapDir(n) then LiveHeader(n) else n
  {
    if k > 0 { RestoredDir(v, k - 1, j); }
  }

  lemma CleanedLoads(v: Volume)
    requires Consistent(v)
    ensures |Cleaned(v).nodes| == |v.nodes| && Loads(Cleaned(v).nodes) == RollbackLoads(v, 0)
    ensures forall j :: 0 <= j < |v.nodes| && SnapFile(v.nodes[j]) ==> Cleaned(v).nodes[j] == v.nodes[j]
    ensures forall j :: 0 <= j < |v.nodes| ==> (SnapFile(Cleaned(v).nodes[j]) <==> SnapFile(v.nodes[j]))
  {
    forall j | 0 <= j < |v.nodes|
      ensures Load(Cleaned(v).nodes[j]) == RollbackLoad(v, 0, j)
      ensures SnapFile(v.nodes[j]) ==> Cleaned(v).nodes[j] == v.nodes[j]
      ensures SnapFile(Cleaned(v).nodes[j]) <==> SnapFile(v.nodes[j])
    {
      assert NodeOk(v.nodes[j], v.disk);
      DroppedNode(v, |v.nodes|, j);
      RestoredDir(DropNodes(v, |v.nodes|), |v.nodes|, j);
    }
  }

  lemma RestoreNodeLoad(v: Volume, v': Volume, i: nat)
    requires i < |v.nodes| && SnapFile(v.nodes[i]) && RestoreNode(v, v', i, Ok)
    ensures |v'.nodes| == |v.nodes| && v'.nodes == v.nodes[i := v'.nodes[i]] &&
      Load(v'.nodes[i]) == 2 * |SnapBlocks(v.nodes[i])|
  {
  }

  lemma {:induction false} RestoredLoads(v: Volume, w: Volume, k: nat)
    requires Consistent(v) && k <= |v.nodes| && RestoredFiles(Cleaned(v), w, k)
    ensures Consistent(w) && |w.nodes| == |v.nodes| && Loads(w.nodes) == RollbackLoads(v, k)
    ensures forall j :: k <= j < |v.nodes| && SnapFile(v.nodes[j]) ==> w.nodes[j] == v.nodes[j]
    ensures forall j :: 0 <= j < |v.nodes| ==> (SnapFile(w.nodes[j]) <==> SnapFile(v.nodes[j]))
    ensures forall i :: 0 < i <= k ==> Tally(RollbackLoads(v, i)) <= DATA_SECTORS
    decreases k
  {
    hide RestoreNode, RestoredFiles, Cleaned, Consistent, Tally, RollProgress;
    RollFiles(v, w, k);
    RollConsistent(v, w, k);
    FreeExact(w);
    var u := RestoredBefore(Cleaned(v), w, k);
    if k == 0 {
      CleanedLoads(v);
    } else {
      RestoredLoads(v, u, k - 1);
      SnapKind(v, k - 1);
      RestoredLoad(v, u, w, k - 1);
    }
  }

  lemma SnapKind(v: Volume, i: nat)
    requires Consistent(v) && i < |v.nodes|
    ensures v.nodes[i].snapshotActive ==> v.nodes[i].snapshotKind != Free
  {
    assert NodeOk(v.nodes[i], v.disk);
  }

  lemma RollConsistent(v: Volume, w: Volume, k: nat)
    requires RollProgress(v, w, |v.nodes|, |v.nodes|, k)
    ensures Consistent(w) && |w.nodes| == |v.nodes| &&
      forall j :: 0 <= j < |v.nodes| ==> (SnapFile(w.nodes[j]) <==> SnapFile(v.nodes[j]))
  {
    forall j | 0 <= j < |v.nodes| ensures SnapFile(w.nodes[j]) <==> SnapFile(v.nodes[j]) {
      assert RollSlot(v, w, j, |v.nodes|, |v.nodes|, k);
    }
  }

  lemma RestoredLoad(v: Volume, u: Volume, w: Volume, i: nat)
    requires i < |v.nodes| == |u.nodes| && Loads(u.nodes) == RollbackLoads(v, i)
    requires if SnapFile(u.nodes[i]) then RestoreNode(u, w, i, Ok) else w == u
    requires SnapFile(u.nodes[i]) <==> SnapFile(v.nodes[i])
    requires forall j :: i <= j < |v.nodes| && SnapFile(v.nodes[j]) ==> u.nodes[j] == v.nodes[j]
    requires v.nodes[i].snapshotActive ==> v.nodes[i].snapshotKind != Free
    ensures |w.nodes| == |v.nodes| && Loads(w.nodes) == RollbackLoads(v, i + 1)
    ensures forall j :: i < j < |v.nodes| && SnapFile(v.nodes[j]) ==> w.nodes[j] == v.nodes[j]
  {
    hide RestoreNode;
    var next := i + 1;
    if SnapFile(u.nodes[i]) { RestoreNodeLoad(u, w, i); }
    forall j | 0 <= j < |v.nodes| ensures Loads(w.nodes)[j] == RollbackLoads(v, next)[j] {
      assert Loads(u.nodes)[j] == RollbackLoads(v, i)[j];
    }
    assert Loads(w.nodes) == RollbackLoads(v, next);
  }

  lemma CompleteFits(v: Volume, v': Volume)
    requires Consistent(v) && RollbackComplete(v, v')
    ensures RollbackFits(v)
  {
    hide RestoredFiles, Cleaned, Consistent;
    var w :| RestoredFiles(Cleaned(v), w, |v.nodes|)
      && v' == w.(generation := Tick(w.generation), disk := v'.disk) && SameUsed(w.bitmap, w.disk, v'.disk);
    RestoredLoads(v, w, |v.nodes|);
  }

  lemma LiveBegunLoads(v: Volume, w: Volume, k: nat)
    requires k < |v.nodes| == |w.nodes| && Loads(w.nodes) == RollbackLoads(v, k) && w.nodes[k] == v.nodes[k] &&
      SnapFile(v.nodes[k])
    ensures Tally(Loads(LiveBegun(w, k).nodes)) + |SnapBlocks(v.nodes[k])| == Tally(RollbackLoads(v, k + 1))
  {
    hide Tally;
    var b, more, next := LiveBegun(w, k), |SnapBlocks(v.nodes[k])|, k + 1;
    var held := Loads(b.nodes)[k := more + more];
    forall j | 0 <= j < |v.nodes| ensures held[j] == RollbackLoads(v, next)[j] {
      assert Loads(w.nodes)[j] == RollbackLoads(v, k)[j];
    }
    assert Loads(b.nodes)[k] == more && held == RollbackLoads(v, next);
    TallyUpdate(Loads(b.nodes), k, more + more);
  }

  lemma NoRoomToRestore(v: Volume, v': Volume, k: nat)
    requires Consistent(v) && RollbackPartial(v, v', k, ErrNoMemory)
    ensures !RollbackFits(v)
  {
    hide RestoredFiles, Cleaned, Consistent, Tally, Loads, RollbackLoads;
    var w :| RestoredFiles(Cleaned(v), w, k) && k < |w.nodes| && SnapFile(w.nodes[k]) &&
      RestoreNode(w, v', k, ErrNoMemory);
    RestoredLoads(v, w, k);
    LiveBegins(w, k);
    FreeExact(LiveBegun(w, k));
    LiveBegunLoads(v, w, k);
  }
}
