/**
 The directory tree encoded in path strings: unique visible paths, parents present, the tree
 as a map from paths to entries, and what each call does to that map.
 */
module MfsTree {
  import opened Machine
  import opened MfsPaths
  import opened MfsVolume
  import opened MfsSpec
  import opened MfsSnapshot
  import opened MfsRuns

  predicate Visible(n: Node) { n.active || n.snapshotActive }

  predicate UniqueVisible(nodes: seq<Node>)
  {
    forall i, j :: 0 <= i < j < |nodes| && Visible(nodes[i]) && Visible(nodes[j]) ==> nodes[i].path != nodes[j].path
  }

  predicate PathsValid(nodes: seq<Node>)
  {
    forall i :: 0 <= i < |nodes| && Visible(nodes[i]) ==> ValidPath(nodes[i].path)
  }

  predicate HasDirectory(view: seq<Slot>, path: string)
  {
    exists j :: 0 <= j < |view| && view[j] == Present(path, Directory)
  }

  /** Every entry has its parent directory, the root being implicit. */
  predicate Closed(view: seq<Slot>)
  {
    forall i :: 0 <= i < |view| && view[i].Present? ==>
      Parent(view[i].path) == "/" || HasDirectory(view, Parent(view[i].path))
  }

  ghost predicate TreeOk(v: Volume)
  {
    Consistent(v) && UniqueVisible(v.nodes) && PathsValid(v.nodes) && Closed(LiveView(v))
  }

  // ---------- The tree as a map ----------

  predicate UniquePaths(view: seq<Slot>)
  {
    forall i, j :: 0 <= i < j < |view| && view[i].Present? && view[j].Present? ==> view[i].path != view[j].path
  }

  function Tree(view: seq<Slot>): map<string, Entry>
    requires UniquePaths(view)
  {
    map i | 0 <= i < |view| && view[i].Present? :: view[i].path := view[i].entry
  }

  lemma ViewsUnique(v: Volume)
    requires UniqueVisible(v.nodes)
    ensures UniquePaths(LiveView(v)) && UniquePaths(SnapView(v))
  {
  }

  lemma TreeHas(view: seq<Slot>, i: nat)
    requires UniquePaths(view) && i < |view| && view[i].Present?
    ensures view[i].path in Tree(view) && Tree(view)[view[i].path] == view[i].entry
  {
  }

  lemma TreeSlot(view: seq<Slot>, p: string) returns (i: nat)
    requires UniquePaths(view) && p in Tree(view)
    ensures i < |view| && view[i] == Present(p, Tree(view)[p])
  {
    i :| 0 <= i < |view| && view[i].Present? && view[i].path == p;
    TreeHas(view, i);
  }

  lemma PutUnique(view: seq<Slot>, t: nat, path: string, e: Entry)
    requires UniquePaths(view) && t < |view|
    requires forall i :: 0 <= i < |view| && view[i].Present? && view[i].path == path ==> i == t
    ensures UniquePaths(view[t := Present(path, e)])
  {
  }

  lemma TreePut(view: seq<Slot>, t: nat, path: string, e: Entry)
    requires UniquePaths(view) && t < |view|
    requires forall i :: 0 <= i < |view| && view[i].Present? && view[i].path == path ==> i == t
    requires view[t].Present? ==> view[t].path == path
    ensures UniquePaths(view[t := Present(path, e)])
    ensures Tree(view[t := Present(path, e)]) == Tree(view)[path := e]
  {
    hide Tree, UniquePaths;
    var view' := view[t := Present(path, e)];
    PutUnique(view, t, path, e);
    TreeHas(view', t);
    forall p | p in Tree(view') && p != path ensures p in Tree(view) && Tree(view)[p] == Tree(view')[p] {
      var i := TreeSlot(view', p);
      TreeHas(view, i);
    }
    forall p | p in Tree(view) && p != path ensures p in Tree(view') {
      var i := TreeSlot(view, p);
      TreeHas(view', i);
    }
  }

  lemma RemoveUnique(view: seq<Slot>, t: nat)
    requires UniquePaths(view) && t < |view|
    ensures UniquePaths(view[t := Absent])
  {
  }

  lemma OtherPath(view: seq<Slot>, i: nat, t: nat)
    requires UniquePaths(view) && i < |view| && t < |view| && i != t && view[i].Present? && view[t].Present?
    ensures view[i].path != view[t].path
  {
    if i < t { assert view[i].path != view[t].path; } else { assert view[t].path != view[i].path; }
  }

  lemma TreeRemove(view: seq<Slot>, t: nat)
    requires UniquePaths(view) && t < |view| && view[t].Present?
    ensures UniquePaths(view[t := Absent])
    ensures Tree(view[t := Absent]) == Tree(view) - {view[t].path}
  {
    hide Tree, UniquePaths;
    var view' := view[t := Absent];
    RemoveUnique(view, t);
    forall p | p in Tree(view') ensures p != view[t].path && p in Tree(view) && Tree(view)[p] == Tree(view')[p] {
      var i := TreeSlot(view', p);
      OtherPath(view, i, t);
      TreeHas(view, i);
    }
    forall p | p in Tree(view) && p != view[t].path ensures p in Tree(view') {
      var i := TreeSlot(view, p);
      TreeHas(view', i);
    }
  }

  // ---------- Find and Target under uniqueness ----------

  lemma FindUnique(nodes: seq<Node>, path: string, includeSnapshot: bool, i: nat)
    requires UniqueVisible(nodes) && i < |nodes| && Matches(nodes[i], path, includeSnapshot)
    ensures Find(nodes, path, includeSnapshot) == i
  {
  }

  /** A creating call cannot produce a second visible node at its path. */
  lemma TargetUnique(nodes: seq<Node>, path: string, n: Node)
    requires UniqueVisible(nodes) && Target(nodes, path) >= 0 && n.path == path
    ensures UniqueVisible(nodes[Target(nodes, path) := n])
    ensures forall i :: 0 <= i < |nodes| && Visible(nodes[i]) && nodes[i].path == path ==> i == Target(nodes, path)
  {
  }

  /** The parent test of a creating call finds exactly a live directory of that name. */
  lemma ParentVisible(v: Volume, path: string)
    requires Consistent(v) && ParentExists(v.nodes, path)
    ensures Parent(path) == "/" || HasDirectory(LiveView(v), Parent(path))
  {
    var p := Parent(path);
    if p != "/" {
      var f := Find(v.nodes, p, false);
      assert LiveView(v)[f] == Present(p, Directory);
    }
  }

  /** Adding an entry whose parent is there, or overwriting a file, keeps the tree closed. */
  lemma PutClosed(view: seq<Slot>, t: nat, path: string, e: Entry)
    requires Closed(view) && t < |view| && view[t] != Present(path, Directory)
    requires view[t].Present? ==> view[t].entry != Directory
    requires Parent(path) == "/" || HasDirectory(view, Parent(path))
    ensures Closed(view[t := Present(path, e)])
  {
    var view' := view[t := Present(path, e)];
    forall p | HasDirectory(view, p) ensures HasDirectory(view', p) {
      var j :| 0 <= j < |view| && view[j] == Present(p, Directory);
      assert j != t && view'[j] == Present(p, Directory);
    }
  }

  lemma MakeDirTreeOk(v: Volume, path: string, v': Volume)
    requires TreeOk(v) && MakeDirEffect(v, path, v')
    ensures TreeOk(v')
  {
    var t := Target(v.nodes, path);
    MakeDirKeeps(v, path, v');
    TargetUnique(v.nodes, path, v'.nodes[t]);
    ParentVisible(v, path);
    assert LiveView(v)[t] == Absent;
    PutClosed(LiveView(v), t, path, Directory);
  }

  lemma MakeDirTree(v: Volume, path: string, v': Volume)
    requires TreeOk(v) && MakeDirEffect(v, path, v')
    ensures UniquePaths(LiveView(v)) && UniquePaths(LiveView(v'))
    ensures Tree(LiveView(v')) == Tree(LiveView(v))[path := Directory] && path !in Tree(LiveView(v))
  {
    var t := Target(v.nodes, path);
    MakeDirKeeps(v, path, v');
    ViewsUnique(v);
    TargetUnique(v.nodes, path, v'.nodes[t]);
    assert LiveView(v)[t] == Absent;
    LiveOnlyAt(v, path, t);
    TreePut(LiveView(v), t, path, Directory);
  }

  lemma LiveOnlyAt(v: Volume, path: string, t: nat)
    requires t < |v.nodes|
    requires forall i :: 0 <= i < |v.nodes| && Visible(v.nodes[i]) && v.nodes[i].path == path ==> i == t
    ensures forall i :: 0 <= i < |v.nodes| && LiveView(v)[i].Present? && LiveView(v)[i].path == path ==> i == t
  {
  }

  lemma WriteTreeOk(v: Volume, path: string, data: seq<byte>, v': Volume)
    requires TreeOk(v) && WriteEffect(v, path, data, v')
    ensures TreeOk(v')
  {
    var t := Target(v.nodes, path);
    WriteKeeps(v, path, data, v');
    TargetUnique(v.nodes, path, v'.nodes[t]);
    ParentVisible(v, path);
    assert LiveView(v)[t] == LiveSlot(v.nodes[t], v.disk);
    PutClosed(LiveView(v), t, path, Regular(|data|, Fnv1a64(data), data));
  }

  /** A write makes its path read the new bytes and changes no other path of either tree. */
  lemma WriteTree(v: Volume, path: string, data: seq<byte>, v': Volume)
    requires TreeOk(v) && WriteEffect(v, path, data, v')
    ensures UniquePaths(LiveView(v)) && UniquePaths(LiveView(v'))
    ensures Tree(LiveView(v')) == Tree(LiveView(v))[path := Regular(|data|, Fnv1a64(data), data)]
    ensures SnapView(v') == SnapView(v)
  {
    var t := Target(v.nodes, path);
    WriteKeeps(v, path, data, v');
    ViewsUnique(v);
    TargetUnique(v.nodes, path, v'.nodes[t]);
    assert LiveView(v)[t] == LiveSlot(v.nodes[t], v.disk);
    LiveOnlyAt(v, path, t);
    TreePut(LiveView(v), t, path, Regular(|data|, Fnv1a64(data), data));
  }

  lemma DeleteTreeOk(v: Volume, path: string, v': Volume)
    requires TreeOk(v) && DeleteEffect(v, path, v')
    ensures TreeOk(v')
  {
    DeleteKeeps(v, path, v');
    NoLiveChildren(v, path);
    RemovedClosed(LiveView(v), Find(v.nodes, path, false));
  }

  lemma DeleteTree(v: Volume, path: string, v': Volume)
    requires TreeOk(v) && DeleteEffect(v, path, v')
    ensures UniquePaths(LiveView(v)) && UniquePaths(LiveView(v'))
    ensures Tree(LiveView(v')) == Tree(LiveView(v)) - {path} && path in Tree(LiveView(v))
  {
    var t := Find(v.nodes, path, false);
    DeleteKeeps(v, path, v');
    ViewsUnique(v);
    assert LiveView(v)[t] == LiveSlot(v.nodes[t], v.disk) && LiveView(v)[t].path == path;
    TreeRemove(LiveView(v), t);
    TreeHas(LiveView(v), t);
  }

  /** Removing an entry no other entry has as its parent keeps a tree closed. */
  lemma RemovedClosed(w: seq<Slot>, t: nat)
    requires Closed(w) && t < |w| && w[t].Present?
    requires w[t].entry.Directory? ==>
      forall i :: 0 <= i < |w| && i != t && w[i].Present? ==> Parent(w[i].path) == "/" || Parent(w[i].path) != w[t].path
    ensures Closed(w[t := Absent])
  {
    var w' := w[t := Absent];
    forall p | HasDirectory(w, p) && (w[t].entry.Directory? ==> p != w[t].path) ensures HasDirectory(w', p) {
      var j :| 0 <= j < |w| && w[j] == Present(p, Directory);
      assert w'[j] == Present(p, Directory);
    }
  }

  /** The prefix test protects every directory that the last-slash rule names as a parent. */
  lemma NoLiveChildren(v: Volume, from: string)
    requires TreeOk(v) && Find(v.nodes, from, false) >= 0
    requires v.nodes[Find(v.nodes, from, false)].kind.Dir? ==> !HasActiveChildren(v.nodes, from)
    ensures var t := Find(v.nodes, from, false);
      && LiveView(v)[t].Present? && LiveView(v)[t].path == from
      && (LiveView(v)[t].entry.Directory? ==>
            forall i :: 0 <= i < |v.nodes| && LiveView(v)[i].Present? ==>
              Parent(LiveView(v)[i].path) == "/" || Parent(LiveView(v)[i].path) != from)
  {
    var t := Find(v.nodes, from, false);
    assert LiveView(v)[t] == LiveSlot(v.nodes[t], v.disk) && NodeOk(v.nodes[t], v.disk);
    forall i | 0 <= i < |v.nodes| && LiveView(v)[i].Present? && Parent(LiveView(v)[i].path) == from && from != "/"
      ensures HasActiveChildren(v.nodes, from)
    {
      assert LiveView(v)[i] == LiveSlot(v.nodes[i], v.disk);
      ChildSeen(v.nodes, i, from);
    }
  }

  /** A live child of `d` is seen by the prefix test. */
  lemma ChildSeen(nodes: seq<Node>, i: nat, d: string)
    requires PathsValid(nodes) && i < |nodes| && nodes[i].active && Parent(nodes[i].path) == d && d != "/"
    ensures HasActiveChildren(nodes, d)
  {
  }

  /** What `ReadFile` then finds at a path just written: complete data with its hash. */
  lemma ReadAfterWrite(v: Volume, path: string, data: seq<byte>, v': Volume)
    requires TreeOk(v) && WriteEffect(v, path, data, v')
    ensures var t := Find(v'.nodes, path, false);
      && t >= 0 && v'.nodes[t].kind.File? && v'.nodes[t].size == |data| && v'.nodes[t].hash == Fnv1a64(data)
      && Content(v'.disk, v'.nodes[t].blocks, v'.nodes[t].size) == data
  {
    WriteTreeOk(v, path, data, v');
    FindUnique(v'.nodes, path, false, Target(v.nodes, path));
  }

  // ---------- Commit, rollback and whole runs ----------

  lemma VisibleShrinks(nodes: seq<Node>, nodes': seq<Node>)
    requires UniqueVisible(nodes) && PathsValid(nodes) && |nodes'| == |nodes|
    requires forall j :: 0 <= j < |nodes| ==>
      nodes'[j].path == nodes[j].path && (Visible(nodes'[j]) ==> Visible(nodes[j]))
    ensures UniqueVisible(nodes') && PathsValid(nodes')
  {
  }

  /** A commit, complete or not, leaves the live tree and the paths of visible nodes as they were. */
  lemma CommitTreeOk(v: Volume, status: Status, v': Volume)
    requires TreeOk(v) && CommitOutcome(true, v, status, v')
    ensures TreeOk(v') && (status.Ok? ==> Closed(SnapView(v')))
  {
    hide CommitDone, Snapshotted, Consistent, Closed, UniqueVisible, PathsValid;
    if CommitDone(v, v') {
      CommitKeeps(v, v');
    } else {
      var k :| CommitStopped(v, v', k, status);
      StoppedCommitKeeps(v, v', k, status);
    }
    forall j | 0 <= j < |v.nodes| ensures v'.nodes[j].path == v.nodes[j].path && (Visible(v'.nodes[j]) ==>
      Visible(v.nodes[j])) {
      assert SameLiveHalf(v.nodes[j], v'.nodes[j]);
    }
    VisibleShrinks(v.nodes, v'.nodes);
  }

  /** Two views with the same paths and the same directories are closed or not closed alike. */
  lemma ClosedAlike(a: seq<Slot>, b: seq<Slot>)
    requires Closed(a) && |a| == |b|
    requires forall i :: 0 <= i < |a| ==> Emptied(a[i]) == Emptied(b[i])
    ensures Closed(b)
  {
    forall p | HasDirectory(a, p) ensures HasDirectory(b, p) {
      var j :| 0 <= j < |a| && a[j] == Present(p, Directory);
      assert b[j] == Present(p, Directory);
    }
    forall i | 0 <= i < |b| && b[i].Present? ensures a[i].Present? && a[i].path == b[i].path {
      assert Emptied(a[i]) == Emptied(b[i]);
    }
  }

  /**
   A commit that stopped at file `k` left a closed snapshot exactly when the live tree up to `k`
   and the old snapshot behind it make a closed tree together.
   */
  lemma StoppedCommitClosedIff(v: Volume, v': Volume, k: nat, status: Status)
    requires Consistent(v) && CommitStopped(v, v', k, status)
    ensures Closed(SnapView(v')) <==> Closed(Mixed(v, k))
  {
    hide CommitStopped, Consistent, Closed;
    StoppedCommitKeeps(v, v', k, status);
    if Closed(SnapView(v')) { ClosedAlike(SnapView(v'), Mixed(v, k)); }
    if Closed(Mixed(v, k)) { ClosedAlike(Mixed(v, k), SnapView(v')); }
  }

  /** Rollback, complete or cut short at file `k`, leaves a closed tree when the snapshot was closed. */
  lemma RollbackTreeOk(v: Volume, v': Volume, k: nat)
    requires TreeOk(v) && NoneStale(v) && Closed(SnapView(v))
    requires RollbackKeepsSnap(v, v') && LiveView(v') == RolledBack(v, k)
    ensures TreeOk(v')
  {
    forall j | 0 <= j < |v.nodes|
      ensures v'.nodes[j].path == v.nodes[j].path && (Visible(v'.nodes[j]) ==> Visible(v.nodes[j]))
      ensures LiveView(v')[j].Present? ==> SnapView(v)[j].Present? && LiveView(v')[j].path == SnapView(v)[j].path
    {
      assert SameSnapHalf(v.nodes[j], v'.nodes[j]) && !Stale(v.nodes[j], v.committed);
      assert LiveView(v)[j] == LiveSlot(v.nodes[j], v.disk) && LiveView(v')[j] == LiveSlot(v'.nodes[j], v'.disk);
      assert SnapView(v)[j] == SnapSlot(v.nodes[j], v.disk) && LiveView(v')[j] == RolledBackSlot(v, k, j);
    }
    VisibleShrinks(v.nodes, v'.nodes);
    forall p | HasDirectory(SnapView(v), p) ensures HasDirectory(LiveView(v'), p) {
      var j :| 0 <= j < |v.nodes| && SnapView(v)[j] == Present(p, Directory);
      assert SnapView(v)[j] == SnapSlot(v.nodes[j], v.disk) && NodeOk(v.nodes[j], v.disk);
      assert v.nodes[j].snapshotKind.Dir? && LiveView(v')[j] == SnapView(v)[j];
    }
    forall i | 0 <= i < |v'.nodes| && LiveView(v')[i].Present? && Parent(LiveView(v')[i].path) != "/"
      ensures HasDirectory(LiveView(v'), Parent(LiveView(v')[i].path))
    {
      assert HasDirectory(SnapView(v), Parent(SnapView(v)[i].path));
    }
  }

  lemma RollbackStepTreeOk(v: Volume, status: Status, v': Volume)
    requires TreeOk(v) && NoneStale(v) && Closed(SnapView(v)) && RollbackOutcome(true, v, status, v')
    ensures TreeOk(v')
  {
    hide RollbackComplete, RestoredFiles, RolledBack, NoneStale, Closed, UniqueVisible, PathsValid, Consistent;
    if RollbackComplete(v, v') {
      RollbackKeeps(v, v');
      RollbackTreeOk(v, v', |v.nodes|);
    } else {
      var k, cause :| RollbackPartial(v, v', k, cause);
      PartialRollbackKeeps(v, v', k, cause);
      RollbackTreeOk(v, v', k);
    }
  }

  /** The condition under which one call keeps the live tree: no rename, and rollbacks only to a closed snapshot. */
  predicate KeepsTree(c: Call, v: Volume)
  {
    !c.op.Rename? && v.generation < TWO64 - 1 && (c.op.Rollback? ==> Closed(SnapView(v)))
  }

  lemma StepTree(online: bool, c: Call, v: Volume, v': Volume)
    requires TreeOk(v) && Fresh(v) && Step(online, c.op, v, c.status, v') && KeepsTree(c, v)
    ensures TreeOk(v') && Fresh(v')
    ensures if c.op.Commit? then c.status.Ok? ==> Closed(SnapView(v')) else SnapView(v') == SnapView(v)
  {
    hide Closed, UniqueVisible, PathsValid, Consistent;
    if c.op.Commit? {
      if online {
        CommitTreeOk(v, c.status, v');
        CommitStepFresh(v, c.status, v');
      }
    } else {
      EditKeepsSnapshot(online, c.op, v, c.status, v');
      EditFresh(online, c.op, v, c.status, v');
      EditTreeOk(online, c.op, v, c.status, v');
    }
  }

  lemma CommitStepFresh(v: Volume, status: Status, v': Volume)
    requires Consistent(v) && Fresh(v) && CommitOutcome(true, v, status, v')
    ensures Fresh(v')
  {
    hide CommitDone, Snapshotted, Consistent, Fresh;
    if CommitDone(v, v') {
      CommitFresh(v, v');
    } else {
      var k :| CommitStopped(v, v', k, status);
      StoppedCommitFresh(v, v', k, status);
    }
  }

  lemma EditTreeOk(online: bool, op: Op, v: Volume, status: Status, v': Volume)
    requires TreeOk(v) && NoneStale(v) && Step(online, op, v, status, v') && IsEdit(op)
    requires op.Rollback? ==> Closed(SnapView(v))
    ensures TreeOk(v')
  {
    if Untouched(v, v') {
      UntouchedKeeps(v, v');
    } else {
      match op
      case MakeDir(path) => MakeDirTreeOk(v, path, v');
      case WriteFile(path, data) => WriteTreeOk(v, path, data, v');
      case Delete(path) => DeleteTreeOk(v, path, v');
      case Rollback => RollbackStepTreeOk(v, status, v');
    }
  }

  /**
   In every run from a format without renames, with every call free to fail anywhere, visible
   paths are unique and every live entry has its parent directory at exactly its parent path,
   as long as each rollback finds a closed snapshot.
   */
  lemma {:induction false} RunTree(online: bool, states: seq<Volume>, calls: seq<Call>, k: nat)
    requires IsRun(online, states, calls) && Formatted(states[0]) && k < |states|
    requires forall i :: 0 <= i < k ==> KeepsTree(calls[i], states[i])
    ensures TreeOk(states[k]) && Fresh(states[k])
  {
    hide Step, KeepsTree;
    if k == 0 {
      FormattedConsistent(states[0]);
    } else {
      RunTree(online, states, calls, k - 1);
      StepTree(online, calls[k - 1], states[k - 1], states[k]);
    }
  }

  /** After the first `i` calls the last commit among them, if there is one, reported success. */
  predicate CommitStands(calls: seq<Call>, i: nat)
    requires i <= |calls|
  {
    i == 0 || if calls[i - 1].op.Commit? then calls[i - 1].status.Ok? else CommitStands(calls, i - 1)
  }

  /** What a caller can see to: no rename, and no rollback between a failed commit and the next successful one. */
  predicate Careful(states: seq<Volume>, calls: seq<Call>, i: nat)
    requires i < |calls| < |states|
  {
    !calls[i].op.Rename? && states[i].generation < TWO64 - 1 && (calls[i].op.Rollback? ==> CommitStands(calls, i))
  }

  /** The same for callers: the snapshot is closed too wherever the last commit reported success. */
  lemma {:induction false} CarefulRunTree(online: bool, states: seq<Volume>, calls: seq<Call>, k: nat)
    requires IsRun(online, states, calls) && Formatted(states[0]) && k < |states|
    requires forall i :: 0 <= i < k ==> Careful(states, calls, i)
    ensures TreeOk(states[k]) && Fresh(states[k]) && (CommitStands(calls, k) ==> Closed(SnapView(states[k])))
  {
    hide Step, TreeOk, Fresh, Closed;
    if k == 0 {
      RunTree(online, states, calls, 0);
      BlankClosed(states[0]);
    } else {
      CarefulRunTree(online, states, calls, k - 1);
      assert Careful(states, calls, k - 1);
      StepTree(online, calls[k - 1], states[k - 1], states[k]);
    }
  }

  lemma BlankClosed(v: Volume)
    requires Formatted(v)
    ensures Closed(SnapView(v))
  {
  }

  /** A call that no caller needs to watch: no rename and no failed commit. */
  predicate KeepsTrees(c: Call)
  {
    !c.op.Rename? && (c.op.Commit? ==> c.status.Ok?)
  }

  lemma {:induction false} AllStand(calls: seq<Call>, i: nat)
    requires i <= |calls| && forall j :: 0 <= j < i ==> KeepsTrees(calls[j])
    ensures CommitStands(calls, i)
  {
    if i > 0 { AllStand(calls, i - 1); }
  }

  /** In runs without failed commits both trees are closed in every state. */
  lemma RunTrees(online: bool, states: seq<Volume>, calls: seq<Call>, k: nat)
    requires IsRun(online, states, calls) && Formatted(states[0]) && k < |states|
    requires forall i :: 0 <= i < k ==> KeepsTrees(calls[i]) && states[i].generation < TWO64 - 1
    ensures TreeOk(states[k]) && Fresh(states[k]) && Closed(SnapView(states[k]))
  {
    hide Step, TreeOk, Fresh, Closed, Formatted;
    forall i | 0 <= i < k ensures Careful(states, calls, i) { AllStand(calls, i); }
    AllStand(calls, k);
    CarefulRunTree(online, states, calls, k);
  }

  /** What a rollback after a commit that stopped at file `k` makes of the tree. */
  lemma StoppedCommitThenRollback(states: seq<Volume>, calls: seq<Call>, k: nat)
    requires IsRun(true, states, calls) && |calls| >= 2 && Consistent(states[0]) && Fresh(states[0])
    requires CommitStopped(states[0], states[1], k, calls[0].status) && EditsAfterFirst(states, calls)
    requires calls[|calls| - 1].op.Rollback? && calls[|calls| - 1].status.Ok?
    ensures Closed(LiveView(states[|calls|])) <==> Closed(Mixed(states[0], k))
  {
    hide Step, Consistent, Fresh, Closed, CommitStopped;
    RollbackAfterStoppedCommit(states, calls, k);
    StoppedCommitKeeps(states[0], states[1], k, calls[0].status);
    StoppedCommitClosedIff(states[0], states[1], k, calls[0].status);
  }

  // ---------- Rename ----------

  /**
   Rename keeps visible paths unique exactly when no snapshot-only node sits at the target,
   keeps the tree closed exactly when it does not move a directory beneath itself (the root
   node, whose children need no parent node, aside), and keeps
   the snapshot exactly when the renamed node has none.
   */
  lemma RenameExact(v: Volume, from: string, to: string, v': Volume)
    requires TreeOk(v) && RenameEffect(v, from, to, v')
    ensures UniqueVisible(v'.nodes) <==> Find(v.nodes, to, true) < 0
    ensures Closed(LiveView(v')) <==> Parent(to) != from || from == "/"
    ensures SnapView(v') == SnapView(v) <==> !v.nodes[Find(v.nodes, from, false)].snapshotActive
  {
    var t := Find(v.nodes, from, false);
    RenameKeeps(v, from, to, v');
    assert LiveView(v)[t] == LiveSlot(v.nodes[t], v.disk) && SnapView(v)[t] == SnapSlot(v.nodes[t], v.disk);
    assert from != to;
    RenameUnique(v, from, to, v');
    RenameClosed(v, from, to, v');
  }

  lemma RenameUnique(v: Volume, from: string, to: string, v': Volume)
    requires TreeOk(v) && RenameEffect(v, from, to, v')
    ensures UniqueVisible(v'.nodes) <==> Find(v.nodes, to, true) < 0
  {
    var t, f := Find(v.nodes, from, false), Find(v.nodes, to, true);
    if f >= 0 {
      assert f != t && Visible(v'.nodes[f]) && Visible(v'.nodes[t]) && v'.nodes[f].path == v'.nodes[t].path;
    } else {
      assert forall j :: 0 <= j < |v.nodes| && Visible(v.nodes[j]) ==> v.nodes[j].path != to;
    }
  }

  lemma RenameClosed(v: Volume, from: string, to: string, v': Volume)
    requires TreeOk(v) && RenameEffect(v, from, to, v')
    ensures Closed(LiveView(v')) <==> Parent(to) != from || from == "/"
  {
    if Parent(to) == from && from != "/" {
      RenameBeneathItself(v, from, to, v');
    } else {
      var t := Find(v.nodes, from, false);
      RenameKeeps(v, from, to, v');
      ParentVisible(v, to);
      NoLiveChildren(v, from);
      MovedClosed(LiveView(v), t, to);
    }
  }

  /** Moving an entry no other entry has as its parent, to a place that has one, keeps a tree closed. */
  lemma MovedClosed(w: seq<Slot>, t: nat, to: string)
    requires Closed(w) && t < |w| && w[t].Present?
    requires Parent(to) == "/" || (HasDirectory(w, Parent(to)) && Parent(to) != w[t].path)
    requires w[t].entry.Directory? ==>
      forall i :: 0 <= i < |w| && i != t && w[i].Present? ==> Parent(w[i].path) == "/" || Parent(w[i].path) != w[t].path
    ensures Closed(w[t := w[t].(path := to)])
  {
    var w' := w[t := w[t].(path := to)];
    forall p | HasDirectory(w, p) && (w[t].entry.Directory? ==> p != w[t].path) ensures HasDirectory(w', p) {
      var j :| 0 <= j < |w| && w[j] == Present(p, Directory);
      assert w'[j] == Present(p, Directory);
    }
  }

  lemma RenameBeneathItself(v: Volume, from: string, to: string, v': Volume)
    requires TreeOk(v) && RenameEffect(v, from, to, v') && Parent(to) == from && from != "/"
    ensures !Closed(LiveView(v'))
  {
    var t := Find(v.nodes, from, false);
    RenameKeeps(v, from, to, v');
    assert LiveView(v)[t] == LiveSlot(v.nodes[t], v.disk);
    assert LiveView(v')[t].Present? && Parent(LiveView(v')[t].path) == from;
    if HasDirectory(LiveView(v'), from) {
      var j :| 0 <= j < |v.nodes| && LiveView(v')[j] == Present(from, Directory);
      assert j != t && LiveView(v)[j] == LiveView(v')[j] && LiveView(v)[j] == LiveSlot(v.nodes[j], v.disk);
      FindUnique(v.nodes, from, false, j);
    }
  }
}
