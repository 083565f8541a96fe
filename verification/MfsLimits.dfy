/**
 Inputs that show why the run theorems carry their conditions: a wrapped generation counter
 defeats rollback, a failed commit leaves a snapshot with entries whose parents are gone, and
 renames break unique paths, the tree and the snapshot.
 */
module MfsLimits {
  import opened Machine
  import opened MfsPaths
  import opened MfsVolume
  import opened MfsSpec
  import opened MfsSnapshot
  import opened MfsRuns
  import opened MfsTree

  function Blanks(): (s: seq<Node>)
    ensures |s| == 32 && forall i :: 0 <= i < 32 ==> s[i] == BLANK
  {
    seq(32, _ => BLANK)
  }

  function NoBlocks(): (s: seq<bool>)
    ensures |s| == 96 && forall i :: 0 <= i < 96 ==> !s[i]
  {
    seq(96, _ => false)
  }

  function LiveDir(path: string, g: nat): Node { BLANK.(active := true, kind := Dir, generation := g, path := path) }

  // ---------- Commit and rollback of volumes without file data ----------

  function Headed(nodes: seq<Node>, k: nat): (s: seq<Node>)
    ensures |s| == |nodes| && forall j :: 0 <= j < |s| ==> s[j] == if j < k then SnapHeader(nodes[j]) else nodes[j]
  {
    seq(|nodes|, j requires 0 <= j < |nodes| => if j < k then SnapHeader(nodes[j]) else nodes[j])
  }

  /** Up to the first live file, and without snapshot files to free, a commit only rewrites headers. */
  lemma {:induction false} HeadersSnapshotted(v: Volume, k: nat)
    requires k <= |v.nodes| && forall j :: 0 <= j < k ==> !LiveFile(v.nodes[j]) && SnapBlocks(v.nodes[j]) == []
    ensures Snapshotted(v, v.(nodes := Headed(v.nodes, k)), k)
  {
    hide Snapshotted;
    var w := v.(nodes := Headed(v.nodes, k));
    if k == 0 {
      assert w.nodes == v.nodes;
      SnapshottedStart(v);
    } else {
      var u := v.(nodes := Headed(v.nodes, k - 1));
      HeadersSnapshotted(v, k - 1);
      assert w.nodes == u.nodes[k - 1 := SnapHeader(u.nodes[k - 1])] && Cleared(u.bitmap, []) == u.bitmap;
      SnapshottedNext(v, u, w, k - 1);
    }
  }

  lemma HeadersCommitted(v: Volume)
    requires forall j :: 0 <= j < |v.nodes| ==> !LiveFile(v.nodes[j]) && SnapBlocks(v.nodes[j]) == []
    ensures CommitDone(v, v.(nodes := Headed(v.nodes, |v.nodes|), committed := v.generation))
  {
    hide Snapshotted;
    HeadersSnapshotted(v, |v.nodes|);
  }

  function Thinned(nodes: seq<Node>, committed: nat, k: nat): (s: seq<Node>)
    ensures |s| == |nodes|
    ensures forall j :: 0 <= j < |s| ==>
      s[j] == if j < k && Dropped(nodes[j], committed) then nodes[j].(active := false, blocks := []) else nodes[j]
  {
    seq(|nodes|, j requires 0 <= j < |nodes| =>
      if j < k && Dropped(nodes[j], committed) then nodes[j].(active := false, blocks := []) else nodes[j])
  }

  lemma {:induction false} DropsDirs(v: Volume, k: nat)
    requires k <= |v.nodes| && forall j :: 0 <= j < |v.nodes| ==> LiveBlocks(v.nodes[j]) == []
    ensures DropNodes(v, k) == v.(nodes := Thinned(v.nodes, v.committed, k))
  {
    hide DropNode;
    if k == 0 {
      assert Thinned(v.nodes, v.committed, 0) == v.nodes;
    } else {
      DropsDirs(v, k - 1);
      DropsDir(v, k - 1);
    }
  }

  lemma DropsDir(v: Volume, i: nat)
    requires i < |v.nodes| && LiveBlocks(v.nodes[i]) == []
    ensures DropNode(v.(nodes := Thinned(v.nodes, v.committed, i)), i) ==
      v.(nodes := Thinned(v.nodes, v.committed, i + 1))
  {
    var next := i + 1;
    var w := v.(nodes := Thinned(v.nodes, v.committed, i));
    assert Cleared(v.bitmap, []) == v.bitmap;
    assert DropNode(w, i).nodes == Thinned(v.nodes, v.committed, next);
  }

  lemma {:induction false} NothingRestored(v: Volume, k: nat)
    requires k <= |v.nodes| && forall j :: 0 <= j < |v.nodes| ==> !v.nodes[j].snapshotActive
    ensures RestoreDirs(v, k) == v && RestoredFiles(v, v, k)
  {
    hide RestoredFiles;
    if k == 0 {
      RestoredStart(v);
    } else {
      NothingRestored(v, k - 1);
      RestoredNext(v, v, v, k - 1);
    }
  }

  /** Without snapshots and files, a rollback only drops nodes. */
  lemma OnlyDrops(v: Volume)
    requires forall j :: 0 <= j < |v.nodes| ==> LiveBlocks(v.nodes[j]) == [] && !v.nodes[j].snapshotActive
    ensures RollbackComplete(v, v.(nodes := Thinned(v.nodes, v.committed, |v.nodes|), generation := Tick(v.generation)))
  {
    hide RestoredFiles, RestoreDirs, DropNodes;
    var w := v.(nodes := Thinned(v.nodes, v.committed, |v.nodes|));
    DropsDirs(v, |v.nodes|);
    NothingRestored(w, |v.nodes|);
    assert RestoredFiles(Cleaned(v), w, |v.nodes|);
  }

  // ---------- A wrapped generation counter ----------

  /** A volume without files is consistent: nothing is allocated. */
  lemma NoFilesConsistent(v: Volume)
    requires |v.nodes| == MAX_NODES && v.bitmap == NoBlocks()
    requires forall i :: 0 <= i < |v.nodes| ==> !v.nodes[i].kind.File? && !v.nodes[i].snapshotKind.File?
    requires forall i {:trigger NodeOk(v.nodes[i], v.disk)} :: 0 <= i < |v.nodes| ==> NodeOk(v.nodes[i], v.disk)
    ensures Consistent(v)
  {
    SumEmpty(OwnedLists(v.nodes));
    assert Used(v.bitmap) == {};
  }

  const LAST: nat := TWO64 - 1

  function Pair(a: Node, b: Node): (s: seq<Node>)
    ensures |s| == 32 && s[0] == a && s[1] == b && forall j :: 2 <= j < 32 ==> s[j] == BLANK
  {
    Blanks()[0 := a][1 := b]
  }

  /** The volume after `k` calls of the run below: commit, mkdir /a, mkdir /b, rollback. */
  function Wrapping(k: nat): Volume
    requires k <= 4
  {
    var a, b := LiveDir("/a", LAST), LiveDir("/b", 0);
    match k
    case 0 => Volume(Blanks(), NoBlocks(), LAST, 0, map[])
    case 1 => Volume(Blanks(), NoBlocks(), LAST, LAST, map[])
    case 2 => Volume(Pair(a, BLANK), NoBlocks(), 0, LAST, map[])
    case 3 => Volume(Pair(a, b), NoBlocks(), 1, LAST, map[])
    case _ => Volume(Pair(a.(active := false), b), NoBlocks(), 2, LAST, map[])
  }

  lemma WrapCommit()
    ensures Consistent(Wrapping(0)) && CommitDone(Wrapping(0), Wrapping(1))
  {
    hide CommitDone, Headed;
    NoFilesConsistent(Wrapping(0));
    HeadersCommitted(Wrapping(0));
    assert Headed(Blanks(), 32) == Blanks();
  }

  /** A creating call at a path that no visible node has takes the first vacant node. */
  lemma FirstVacant(nodes: seq<Node>, path: string, t: nat)
    requires t < |nodes| && Vacant(nodes[t]) && forall j :: 0 <= j < t ==> !Vacant(nodes[j])
    requires forall j :: 0 <= j < |nodes| ==> !Matches(nodes[j], path, true)
    ensures Target(nodes, path) == t && Find(nodes, path, true) < 0
  {
  }

  lemma NewDir(v: Volume, path: string, t: nat)
    requires ValidPath(path) && ParentExists(v.nodes, path)
    requires t < |v.nodes| && Vacant(v.nodes[t]) && forall j :: 0 <= j < t ==> !Vacant(v.nodes[j])
    requires forall j :: 0 <= j < |v.nodes| ==> !Matches(v.nodes[j], path, true)
    ensures var v' := v.(nodes := v.nodes[t := LiveDir(path, v.generation)], generation := Tick(v.generation));
      MakeDirEffect(v, path, v') && MakeDirOutcome(true, v, path, Ok, v')
  {
    FirstVacant(v.nodes, path, t);
  }

  lemma WrapPaths()
    ensures Parent("/a") == "/" && Parent("/b") == "/" && ValidPath("/a") && ValidPath("/b")
  {
    assert LastSlash("/a") == 0 && LastSlash("/b") == 0;
  }

  lemma WrapMakeDirs()
    ensures MakeDirEffect(Wrapping(1), "/a", Wrapping(2)) && MakeDirEffect(Wrapping(2), "/b", Wrapping(3))
  {
    hide MakeDirOutcome, MakeDirEffect, ValidPath, Parent, Find, FindVacant;
    WrapPaths();
    NewDir(Wrapping(1), "/a", 0);
    assert Blanks()[0 := LiveDir("/a", LAST)] == Wrapping(2).nodes;
    NewDir(Wrapping(2), "/b", 1);
    assert Wrapping(2).nodes[1 := LiveDir("/b", 0)] == Wrapping(3).nodes;
  }

  lemma WrapRollback()
    ensures RollbackComplete(Wrapping(3), Wrapping(4))
  {
    hide RollbackComplete;
    OnlyDrops(Wrapping(3));
    assert Thinned(Wrapping(3).nodes, LAST, 32) == Wrapping(4).nodes;
  }

  /**
   With the counter at its last value, a commit, two mkdirs and a rollback that all succeed
   leave the second new directory in place.
   */
  lemma WrapDefeatsRollback() returns (v0: Volume, v1: Volume, v2: Volume, v3: Volume, v4: Volume)
    ensures Consistent(v0) && CommitDone(v0, v1)
    ensures MakeDirEffect(v1, "/a", v2) && MakeDirEffect(v2, "/b", v3)
    ensures RollbackComplete(v3, v4) && LiveView(v4) != LiveView(v0)
  {
    hide CommitDone, RollbackComplete;
    v0, v1, v2, v3, v4 := Wrapping(0), Wrapping(1), Wrapping(2), Wrapping(3), Wrapping(4);
    WrapCommit();
    WrapMakeDirs();
    WrapRollback();
    assert LiveView(Wrapping(4))[1].Present? && LiveView(Wrapping(0))[1] == Absent;
  }

  // ---------- A commit that stops ----------

  function Three(a: Node, b: Node, c: Node): (s: seq<Node>)
    ensures |s| == 32 && s[0] == a && s[1] == b && s[2] == c && forall j :: 3 <= j < 32 ==> s[j] == BLANK
  {
    Blanks()[0 := a][1 := b][2 := c]
  }

  function D(): Node { LiveDir("/d", 1) }
  function X(): Node { LiveDir("/d/x", 3) }
  function T(): Node { LiveDir("/t", 2).(active := false, generation := 4) }
  function G(): Node { Written(T(), "/g", [0], 7, [0]) }

  function Bare(nodes: seq<Node>, g: nat, committed: nat): Volume { Volume(nodes, NoBlocks(), g, committed, map[]) }

  /** The volume after `k` calls of the run below. */
  function Stage(k: nat): Volume
    requires k <= 9
  {
    match k
    case 0 => Bare(Blanks(), 1, 0)
    case 1 => Bare(Three(D(), BLANK, BLANK), 2, 0)
    case 2 => Bare(Three(D(), LiveDir("/t", 2), BLANK), 3, 0)
    case 3 => Bare(Three(D(), LiveDir("/t", 2), X()), 4, 0)
    case 4 => Bare(Three(D(), T(), X()), 5, 0)
    case 5 => Bare(Three(SnapHeader(D()), T(), SnapHeader(X())), 5, 5)
    case 6 => Bare(Three(SnapHeader(D()), T(), Deleted(SnapHeader(X()), 5)), 6, 5)
    case 7 => Bare(Three(Deleted(SnapHeader(D()), 6), T(), Deleted(SnapHeader(X()), 5)), 7, 5)
    case 8 =>
      var nodes := Three(Deleted(SnapHeader(D()), 6), G(), Deleted(SnapHeader(X()), 5));
      Bare(nodes, 8, 5).(bitmap := NoBlocks()[0 := true])
    case _ =>
      var nodes := Three(SnapHeader(Deleted(SnapHeader(D()), 6)), SnapHeader(G()), Deleted(SnapHeader(X()), 5));
      Bare(nodes, 8, 5).(bitmap := NoBlocks()[0 := true])
  }

  function CallAt(k: nat): Call
    requires k < 9
  {
    match k
    case 0 => Call(MakeDir("/d"), Ok)
    case 1 => Call(MakeDir("/t"), Ok)
    case 2 => Call(MakeDir("/d/x"), Ok)
    case 3 => Call(Delete("/t"), Ok)
    case 4 => Call(Commit, Ok)
    case 5 => Call(Delete("/d/x"), Ok)
    case 6 => Call(Delete("/d"), Ok)
    case 7 => Call(WriteFile("/g", [0]), Ok)
    case _ => Call(Commit, ErrIo)
  }

  lemma Paths()
    ensures Parent("/d") == "/" && Parent("/g") == "/" && Parent("/t") == "/" && Parent("/d/x") == "/d"
    ensures ValidPath("/d") && ValidPath("/g") && ValidPath("/t") && ValidPath("/d/x")
  {
    assert LastSlash("/d") == 0 && LastSlash("/g") == 0 && LastSlash("/t") == 0 && LastSlash("/d/x") == 2;
  }

  lemma MakeD()
    ensures Step(true, CallAt(0).op, Stage(0), Ok, Stage(1))
  {
    hide MakeDirOutcome, MakeDirEffect, ValidPath, Parent, Find, FindVacant;
    Paths();
    NewDir(Stage(0), "/d", 0);
    assert Blanks()[0 := D()] == Stage(1).nodes;
  }

  lemma MakeT()
    ensures Step(true, CallAt(1).op, Stage(1), Ok, Stage(2))
  {
    hide MakeDirOutcome, MakeDirEffect, ValidPath, Parent, Find, FindVacant;
    Paths();
    NewDir(Stage(1), "/t", 1);
    assert Stage(1).nodes[1 := LiveDir("/t", 2)] == Stage(2).nodes;
  }

  lemma FindIs(nodes: seq<Node>, path: string, t: nat)
    requires t < |nodes| && nodes[t].active && nodes[t].path == path && forall j :: 0 <= j < t ==> nodes[j].path != path
    ensures Find(nodes, path, false) == t
  {
  }

  lemma MakeX()
    ensures Step(true, CallAt(2).op, Stage(2), Ok, Stage(3))
  {
    hide MakeDirOutcome, MakeDirEffect, ValidPath, Parent, Find, FindVacant;
    Paths();
    FindIs(Stage(2).nodes, "/d", 0);
    NewDir(Stage(2), "/d/x", 2);
    assert Stage(2).nodes[2 := X()] == Stage(3).nodes;
  }

  lemma DeleteDir(v: Volume, path: string, t: nat)
    requires ValidPath(path) && t < |v.nodes| && v.nodes[t].kind.Dir? && !HasActiveChildren(v.nodes, path)
    requires v.nodes[t].active && v.nodes[t].path == path && forall j :: 0 <= j < t ==> v.nodes[j].path != path
    ensures DeleteOutcome(true, v, path, Ok,
      v.(nodes := v.nodes[t := Deleted(v.nodes[t], v.generation)], generation := Tick(v.generation)))
  {
    FindIs(v.nodes, path, t);
    assert Cleared(v.bitmap, []) == v.bitmap;
  }

  lemma DeleteT()
    ensures Step(true, CallAt(3).op, Stage(3), Ok, Stage(4))
  {
    hide DeleteOutcome, ValidPath, Parent;
    Paths();
    DeleteDir(Stage(3), "/t", 1);
    assert Stage(3).nodes[1 := Deleted(LiveDir("/t", 2), 4)] == Stage(4).nodes;
  }

  lemma CommitD()
    ensures Step(true, CallAt(4).op, Stage(4), Ok, Stage(5))
  {
    hide CommitDone;
    HeadersCommitted(Stage(4));
    assert Headed(Stage(4).nodes, 32) == Stage(5).nodes;
  }

  lemma DeleteX()
    ensures Step(true, CallAt(5).op, Stage(5), Ok, Stage(6))
  {
    hide DeleteOutcome, ValidPath, Parent;
    Paths();
    DeleteDir(Stage(5), "/d/x", 2);
    assert Stage(5).nodes[2 := Deleted(SnapHeader(X()), 5)] == Stage(6).nodes;
  }

  lemma DeleteD()
    ensures Step(true, CallAt(6).op, Stage(6), Ok, Stage(7))
  {
    hide DeleteOutcome, ValidPath, Parent;
    Paths();
    DeleteDir(Stage(6), "/d", 0);
    assert Stage(6).nodes[0 := Deleted(SnapHeader(D()), 6)] == Stage(7).nodes;
  }

  lemma FirstBlock(bm: seq<bool>)
    requires bm != [] && !bm[0]
    ensures |FreeList(bm)| >= 1 && FreeList(bm)[..1] == [0]
    ensures Cleared(Marked(bm, [0]), []) == bm[0 := true]
  {
    hide FreeList;
    FreeListStep(bm, 0);
    FreeListPrefix(bm, 1);
    NoneFree();
    assert bm[..0] == [];
  }

  lemma NoneFree()
    ensures FreeList([]) == []
  {
  }

  lemma OneByte()
    ensures BlocksFor(1) == 1 && Content(map[], [0], 1) == [0]
  {
  }

  lemma WriteG()
    ensures Step(true, CallAt(7).op, Stage(7), Ok, Stage(8))
  {
    hide FreeList, Content, Fnv1a64, ValidPath, Marked, Cleared;
    Paths();
    FirstBlock(NoBlocks());
    FirstVacant(Stage(7).nodes, "/g", 1);
    assert Stage(7).nodes[1 := G()] == Stage(8).nodes;
    OneByte();
    assert WriteEffect(Stage(7), "/g", [0], Stage(8));
  }

  lemma CommitFails()
    ensures CommitStopped(Stage(8), Stage(9), 1, ErrIo)
  {
    hide Snapshotted;
    var v, w := Stage(8), Stage(8).(nodes := Headed(Stage(8).nodes, 1));
    HeadersSnapshotted(v, 1);
    assert Cleared(v.bitmap, []) == v.bitmap;
    assert w.nodes[1 := SnapHeader(G())] == Stage(9).nodes;
    assert SnapBegun(w, 1) == Stage(9);
    assert SnapNode(w, Stage(9), 1, ErrIo);
  }

  lemma StageStep(k: nat)
    requires k < 9
    ensures Step(true, CallAt(k).op, Stage(k), CallAt(k).status, Stage(k + 1))
  {
    hide Stage, CommitStopped, CommitDone, MakeDirOutcome, DeleteOutcome, WriteOutcome;
    match k
    case 0 => MakeD();
    case 1 => MakeT();
    case 2 => MakeX();
    case 3 => DeleteT();
    case 4 => CommitD();
    case 5 => DeleteX();
    case 6 => DeleteD();
    case 7 => WriteG();
    case _ => CommitFails();
  }

  function Stages(): (s: seq<Volume>)
    ensures |s| == 10 && forall k :: 0 <= k < 10 ==> s[k] == Stage(k)
  {
    seq(10, k requires 0 <= k < 10 => Stage(k))
  }

  function Calls(): (s: seq<Call>)
    ensures |s| == 9 && forall k :: 0 <= k < 9 ==> s[k] == CallAt(k)
  {
    seq(9, k requires 0 <= k < 9 => CallAt(k))
  }

  lemma StagesRun()
    ensures IsRun(true, Stages(), Calls()) && Formatted(Stages()[0])
  {
    hide Stage, Step;
    forall k | 0 <= k < 9 ensures Step(true, Calls()[k].op, Stages()[k], Calls()[k].status, Stages()[k + 1]) {
      StageStep(k);
    }
    StartsFormatted();
  }

  lemma StartsFormatted()
    ensures Formatted(Stage(0))
  {
  }

  lemma StagesGenerations(k: nat)
    requires k < 9
    ensures Stage(k).generation < TWO64 - 1
  {
  }

  lemma CallsOk()
    ensures forall i :: 0 <= i < 8 ==> CallAt(i).status.Ok? && !CallAt(i).op.Rename? && !CallAt(i).op.Rollback?
    ensures CallAt(8) == Call(Commit, ErrIo)
  {
  }

  lemma StagesTrees()
    ensures TreeOk(Stage(8)) && Closed(SnapView(Stage(8))) && TreeOk(Stage(9)) && Fresh(Stage(9))
  {
    hide Stage, Step, TreeOk, Fresh, Closed, Formatted;
    var states, calls := Stages(), Calls();
    StagesRun();
    forall i | 0 <= i < 9 ensures KeepsTree(calls[i], states[i]) && (i < 8 ==> KeepsTrees(calls[i])) {
      StagesGenerations(i);
    }
    RunTrees(true, states, calls, 8);
    RunTree(true, states, calls, 9);
  }

  /**
   A run from a format: mkdir /d, /t and /d/x, delete /t, commit, delete /d/x and /d, write /g,
   all successful, then a commit that cannot read /g. Both trees are closed before that commit;
   after it the snapshot holds /d/x without /d, and a successful rollback makes that the live tree.
   */
  lemma FailedCommitBreaksSnapshot() returns (states: seq<Volume>, calls: seq<Call>)
    ensures IsRun(true, states, calls) && Formatted(states[0]) && |calls| == 9
    ensures forall i :: 0 <= i < 8 ==> calls[i].status.Ok? && !calls[i].op.Rename? && !calls[i].op.Rollback?
    ensures TreeOk(states[8]) && Closed(SnapView(states[8]))
    ensures calls[8].op.Commit? && CommitStopped(states[8], states[9], 1, calls[8].status)
    ensures !Closed(SnapView(states[9])) && !Closed(Mixed(states[8], 1))
    ensures forall v' :: RollbackComplete(states[9], v') ==> !Closed(LiveView(v'))
  {
    hide Stage, CallAt, Step, TreeOk, Fresh, Closed, CommitStopped, RollbackComplete, Consistent, Formatted;
    states, calls := Stages(), Calls();
    StagesRun();
    CallsOk();
    StagesTrees();
    CommitFails();
    Orphan();
    TreeConsistent(states[8]);
    StoppedCommitClosedIff(states[8], states[9], 1, ErrIo);
    forall v' | RollbackComplete(states[9], v') ensures !Closed(LiveView(v')) {
      RollsBackTo(states[9], v');
    }
  }

  lemma TreeConsistent(v: Volume)
    requires TreeOk(v)
    ensures Consistent(v)
  {
  }

  lemma RollsBackTo(v: Volume, v': Volume)
    requires TreeOk(v) && Fresh(v) && RollbackComplete(v, v')
    ensures LiveView(v') == SnapView(v)
  {
    RollbackExact(v, v');
  }

  lemma Orphan()
    ensures !Closed(SnapView(Stage(9)))
  {
    hide Parent;
    Paths();
    var w := Stage(9);
    assert SnapView(w)[2] == Present("/d/x", Directory);
    assert !HasDirectory(SnapView(w), "/d");
  }

  // ---------- Renames ----------

  /** A volume of directories directly beneath the root. */
  lemma RootDirs(v: Volume)
    requires |v.nodes| == MAX_NODES && v.bitmap == NoBlocks() && UniqueVisible(v.nodes)
    requires forall i :: 0 <= i < |v.nodes| ==>
      v.nodes[i] == BLANK || (v.nodes[i].kind.Dir? && !v.nodes[i].snapshotKind.File?)
    requires forall i :: 0 <= i < |v.nodes| && v.nodes[i].snapshotActive ==> v.nodes[i].snapshotKind.Dir?
    requires forall i :: 0 <= i < |v.nodes| && Visible(v.nodes[i]) ==>
      ValidPath(v.nodes[i].path) && Parent(v.nodes[i].path) == "/"
    ensures TreeOk(v)
  {
    NoFilesConsistent(v);
  }

  lemma RenameDir(v: Volume, from: string, to: string, t: nat)
    requires ValidPath(from) && ValidPath(to) && ParentExists(v.nodes, to) && !HasActiveChildren(v.nodes, from)
    requires t < |v.nodes| && v.nodes[t].active && v.nodes[t].path == from &&
      forall j :: 0 <= j < t ==> v.nodes[j].path != from
    requires forall j :: 0 <= j < |v.nodes| ==> !Matches(v.nodes[j], to, false)
    ensures RenameEffect(v, from, to,
      v.(nodes := v.nodes[t := v.nodes[t].(path := to, generation := v.generation)], generation := Tick(v.generation)))
  {
    FindIs(v.nodes, from, t);
  }

  /** A directory moved beneath itself loses its parent. */
  lemma RenameBeneath() returns (v: Volume, v': Volume)
    ensures TreeOk(v) && RenameEffect(v, "/d", "/d/x", v') && !Closed(LiveView(v'))
  {
    hide TreeOk, RenameEffect, Closed, ValidPath, Parent, Find, FindVacant;
    v := Stage(1);
    Paths();
    RootDirs(v);
    FindIs(v.nodes, "/d", 0);
    RenameDir(v, "/d", "/d/x", 0);
    v' := v.(nodes := v.nodes[0 := v.nodes[0].(path := "/d/x", generation := v.generation)],
      generation := Tick(v.generation));
    RenameExact(v, "/d", "/d/x", v');
  }

  /** A committed directory that is renamed takes its snapshot along. */
  lemma RenameMovesSnapshot() returns (v: Volume, v': Volume)
    ensures TreeOk(v) && RenameEffect(v, "/d", "/t", v') && SnapView(v') != SnapView(v)
  {
    hide TreeOk, RenameEffect, Closed, ValidPath, Parent, Find, FindVacant;
    v := Bare(Three(SnapHeader(D()), BLANK, BLANK), 2, 2);
    Paths();
    RootDirs(v);
    FindIs(v.nodes, "/d", 0);
    RenameDir(v, "/d", "/t", 0);
    v' := v.(nodes := v.nodes[0 := v.nodes[0].(path := "/t", generation := v.generation)],
      generation := Tick(v.generation));
    RenameExact(v, "/d", "/t", v');
  }

  /** A path that survives only in the snapshot can be taken a second time. */
  lemma RenameOntoSnapshot() returns (v: Volume, v': Volume)
    ensures TreeOk(v) && RenameEffect(v, "/t", "/d", v') && !UniqueVisible(v'.nodes)
  {
    hide TreeOk, RenameEffect, Closed, ValidPath, Parent, Find, FindVacant;
    v := Bare(Three(Deleted(SnapHeader(D()), 2), LiveDir("/t", 3), BLANK), 4, 2);
    Paths();
    RootDirs(v);
    RenameDir(v, "/t", "/d", 1);
    v' := v.(nodes := v.nodes[1 := v.nodes[1].(path := "/d", generation := v.generation)],
      generation := Tick(v.generation));
    RenameExact(v, "/t", "/d", v');
    assert Matches(v.nodes[0], "/d", true);
  }
}
