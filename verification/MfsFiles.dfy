/**
 A filesystem as a map from paths to entries, with the status of every call on a device that
 does not fail, and the proof that the node table behaves as such a map: with its status and
 its change when the device works, and with all of the change or none when it fails.
 */
module MfsFiles {
  import opened Machine
  import opened MfsPaths
  import opened MfsVolume
  import opened MfsSpec
  import opened MfsTree

  type Files = map<string, Entry>

  datatype Result = Result(status: Status, fs: Files)

  predicate DirectoryAt(fs: Files, p: string) { p in fs && fs[p].Directory? }

  predicate ParentIn(fs: Files, path: string) { Parent(path) == "/" || DirectoryAt(fs, Parent(path)) }

  predicate SomethingBeneath(fs: Files, path: string) { exists q :: q in fs && Beneath(q, path) }

  /** `node` tells whether the node table has an entry for a new path. */
  function MakeDirIn(fs: Files, path: string, node: bool): Result
  {
    if !ValidPath(path) || !ParentIn(fs, path) then Result(ErrInvalid, fs)
    else if path in fs then Result(if fs[path].Directory? then Ok else ErrInvalid, fs)
    else if node then Result(Ok, fs[path := Directory])
    else Result(ErrNoMemory, fs)
  }

  /** A file is created or replaced, a directory is not; `free` is the number of free blocks. */
  function WriteIn(fs: Files, path: string, data: seq<byte>, node: bool, free: nat): Result
  {
    if !ValidPath(path) || !ParentIn(fs, path) || |data| > 8192 then Result(ErrInvalid, fs)
    else if 512 * free < |data| then Result(ErrNoMemory, fs)
    else if DirectoryAt(fs, path) then Result(ErrInvalid, fs)
    else if path in fs || node then Result(Ok, fs[path := Regular(|data|, Fnv1a64(data), data)])
    else Result(ErrNoMemory, fs)
  }

  function DeleteIn(fs: Files, path: string): Result
  {
    if !ValidPath(path) then Result(ErrInvalid, fs)
    else if path !in fs then Result(ErrNotFound, fs)
    else if fs[path].Directory? && SomethingBeneath(fs, path) then Result(ErrBusy, fs)
    else Result(Ok, fs - {path})
  }

  function RenameIn(fs: Files, from: string, to: string): Result
  {
    if !ValidPath(from) || !ValidPath(to) || !ParentIn(fs, to) then Result(ErrInvalid, fs)
    else if from !in fs then Result(ErrNotFound, fs)
    else if to in fs || (fs[from].Directory? && SomethingBeneath(fs, from)) then Result(ErrBusy, fs)
    else Result(Ok, (fs - {from})[to := fs[from]])
  }

  // ---------- The node table as such a map ----------

  function FilesOf(v: Volume): Files
  {
    if UniquePaths(LiveView(v)) then Tree(LiveView(v)) else map[]
  }

  /** A vacant node, or one that has the path in the snapshot only. */
  predicate NodeFor(nodes: seq<Node>, path: string)
  {
    exists j :: 0 <= j < |nodes| && !nodes[j].active && (!nodes[j].snapshotActive || nodes[j].path == path)
  }

  /** What the map says, or an I/O error after all of it or nothing. */
  predicate Follows(v: Volume, r: Result, status: Status, v': Volume)
  {
    || (status == r.status && FilesOf(v') == r.fs)
    || (status.ErrIo? && (FilesOf(v') == FilesOf(v) || FilesOf(v') == r.fs))
  }

  lemma LiveAt(v: Volume, path: string, i: nat)
    requires TreeOk(v) && i < |v.nodes| && v.nodes[i].active && v.nodes[i].path == path
    ensures path in FilesOf(v) && (FilesOf(v)[path].Directory? <==> v.nodes[i].kind.Dir?)
    ensures FilesOf(v)[path] == LiveSlot(v.nodes[i], v.disk).entry
    ensures Find(v.nodes, path, false) == i && Find(v.nodes, path, true) == i
  {
    hide Tree, Closed;
    ViewsUnique(v);
    assert LiveView(v)[i] == LiveSlot(v.nodes[i], v.disk) && NodeOk(v.nodes[i], v.disk);
    TreeHas(LiveView(v), i);
    FindUnique(v.nodes, path, false, i);
    FindUnique(v.nodes, path, true, i);
  }

  lemma InFiles(v: Volume, path: string) returns (i: nat)
    requires TreeOk(v) && path in FilesOf(v)
    ensures i < |v.nodes| && v.nodes[i].active && v.nodes[i].path == path
  {
    hide Tree, Closed;
    ViewsUnique(v);
    i := TreeSlot(LiveView(v), path);
    assert LiveView(v)[i] == LiveSlot(v.nodes[i], v.disk);
  }

  /** The lookup of live nodes finds exactly the paths of the map. */
  lemma FindsFiles(v: Volume, path: string)
    requires TreeOk(v)
    ensures var f := Find(v.nodes, path, false);
      && (f >= 0 <==> path in FilesOf(v))
      && (f >= 0 ==> (v.nodes[f].kind.Dir? <==> FilesOf(v)[path].Directory?))
  {
    hide TreeOk, FilesOf;
    var f := Find(v.nodes, path, false);
    if f >= 0 { LiveAt(v, path, f); }
    if path in FilesOf(v) {
      var i := InFiles(v, path);
      LiveAt(v, path, i);
    }
  }

  lemma ParentSame(v: Volume, path: string)
    requires TreeOk(v)
    ensures ParentExists(v.nodes, path) <==> ParentIn(FilesOf(v), path)
  {
    hide TreeOk, FilesOf;
    FindsFiles(v, Parent(path));
  }

  lemma BeneathSame(v: Volume, path: string)
    requires TreeOk(v)
    ensures HasActiveChildren(v.nodes, path) <==> SomethingBeneath(FilesOf(v), path)
  {
    hide TreeOk, FilesOf;
    if i :| 0 <= i < |v.nodes| && v.nodes[i].active && Beneath(v.nodes[i].path, path) {
      LiveAt(v, v.nodes[i].path, i);
    }
    if q :| q in FilesOf(v) && Beneath(q, path) {
      var i := InFiles(v, q);
    }
  }

  /** The node a creating call uses: the live one of a path in the map, else one that is free for it. */
  lemma TargetSame(v: Volume, path: string)
    requires TreeOk(v)
    ensures var t, at := Target(v.nodes, path), Find(v.nodes, path, true);
      if path in FilesOf(v)
      then t == at >= 0 && v.nodes[t].active && (v.nodes[t].kind.Dir? <==> FilesOf(v)[path].Directory?)
      else (t >= 0 <==> NodeFor(v.nodes, path)) && (t >= 0 ==> !v.nodes[t].active) && (at >= 0 ==> !v.nodes[at].active)
  {
    hide TreeOk, FilesOf;
    if path in FilesOf(v) {
      var i := InFiles(v, path);
      LiveAt(v, path, i);
    } else {
      var at := Find(v.nodes, path, true);
      if at >= 0 && v.nodes[at].active { LiveAt(v, path, at); }
    }
  }

  lemma FilesAre(v: Volume)
    requires UniquePaths(LiveView(v))
    ensures FilesOf(v) == Tree(LiveView(v))
  {
  }

  lemma UntouchedFiles(v: Volume, v': Volume)
    requires TreeOk(v) && Untouched(v, v')
    ensures FilesOf(v') == FilesOf(v)
  {
    UntouchedKeeps(v, v');
  }

  lemma MakeDirFollows(v: Volume, path: string, status: Status, v': Volume)
    requires TreeOk(v) && MakeDirOutcome(true, v, path, status, v')
    ensures Follows(v, MakeDirIn(FilesOf(v), path, NodeFor(v.nodes, path)), status, v')
  {
    hide TreeOk, FilesOf, MakeDirEffect, ParentExists, Find, Target, NodeFor;
    ParentSame(v, path);
    TargetSame(v, path);
    if MakeDirEffect(v, path, v') {
      MakeDirTree(v, path, v');
      FilesAre(v);
      FilesAre(v');
    }
  }

  lemma BlocksEnough(size: nat, free: nat)
    ensures BlocksFor(size) <= free <==> size <= 512 * free
  {
  }

  /** A live node is a directory or a file. */
  lemma NodesKinds(v: Volume)
    requires TreeOk(v)
    ensures forall i :: 0 <= i < |v.nodes| && v.nodes[i].active ==> v.nodes[i].kind.Dir? || v.nodes[i].kind.File?
  {
    forall i | 0 <= i < |v.nodes| && v.nodes[i].active ensures v.nodes[i].kind.Dir? || v.nodes[i].kind.File? {
      assert NodeOk(v.nodes[i], v.disk);
    }
  }

  lemma WriteFiles(v: Volume, path: string, data: seq<byte>, v': Volume)
    requires TreeOk(v) && WriteEffect(v, path, data, v')
    ensures FilesOf(v') == FilesOf(v)[path := Regular(|data|, Fnv1a64(data), data)]
  {
    hide TreeOk, WriteEffect, Fnv1a64;
    WriteTree(v, path, data, v');
  }

  lemma WriteFollows(v: Volume, path: string, data: seq<byte>, status: Status, v': Volume)
    requires TreeOk(v) && WriteOutcome(true, v, path, data, status, v')
    ensures Follows(v, WriteIn(FilesOf(v), path, data, NodeFor(v.nodes, path), |FreeList(v.bitmap)|), status, v')
  {
    hide TreeOk, FilesOf, WriteEffect, ParentExists, Find, Target, NodeFor, FreeList, Fnv1a64, BlocksFor, Untouched;
    ParentSame(v, path);
    TargetSame(v, path);
    BlocksEnough(|data|, |FreeList(v.bitmap)|);
    NodesKinds(v);
    if Untouched(v, v') { UntouchedFiles(v, v'); }
    if WriteEffect(v, path, data, v') { WriteFiles(v, path, data, v'); }
  }

  lemma DeleteFollows(v: Volume, path: string, status: Status, v': Volume)
    requires TreeOk(v) && DeleteOutcome(true, v, path, status, v')
    ensures Follows(v, DeleteIn(FilesOf(v), path), status, v')
  {
    hide TreeOk, FilesOf, DeleteEffect, Find, HasActiveChildren, SomethingBeneath;
    FindsFiles(v, path);
    BeneathSame(v, path);
    if DeleteEffect(v, path, v') {
      DeleteTree(v, path, v');
      FilesAre(v);
      FilesAre(v');
    }
  }

  lemma RenameFollows(v: Volume, from: string, to: string, status: Status, v': Volume)
    requires TreeOk(v) && RenameOutcome(true, v, from, to, status, v')
    ensures Follows(v, RenameIn(FilesOf(v), from, to), status, v')
  {
    hide TreeOk, FilesOf, RenameEffect, Find, HasActiveChildren, SomethingBeneath, ParentExists;
    ParentSame(v, to);
    FindsFiles(v, from);
    FindsFiles(v, to);
    BeneathSame(v, from);
    if RenameEffect(v, from, to, v') { RenameTree(v, from, to, v'); }
  }

  lemma RenameTree(v: Volume, from: string, to: string, v': Volume)
    requires TreeOk(v) && RenameEffect(v, from, to, v')
    ensures from in FilesOf(v) && to !in FilesOf(v)
    ensures FilesOf(v') == (FilesOf(v) - {from})[to := FilesOf(v)[from]]
  {
    hide Tree, Closed, UniquePaths;
    var t := Find(v.nodes, from, false);
    FindsFiles(v, from);
    FindsFiles(v, to);
    RenameKeeps(v, from, to, v');
    ViewsUnique(v);
    FilesAre(v);
    var w := LiveView(v);
    assert w[t] == LiveSlot(v.nodes[t], v.disk) && w[t].path == from;
    TreeHas(w, t);
    TreeRemove(w, t);
    var gone, e := w[t := Absent], w[t].entry;
    NowhereIn(gone, to);
    TreePut(gone, t, to, e);
    assert gone[t := Present(to, e)] == LiveView(v');
    FilesAre(v');
  }

  // What a call that is refused before it looks at the node table does.

  lemma MakeDirRefused(v: Volume, path: string)
    ensures MakeDirOutcome(false, v, path, ErrInvalid, v)
    ensures !ValidPath(path) ==> MakeDirOutcome(true, v, path, ErrInvalid, v)
  {
  }

  lemma WriteRefused(v: Volume, path: string, data: seq<byte>)
    ensures WriteOutcome(false, v, path, data, ErrInvalid, v)
    ensures !ValidPath(path) || !ParentExists(v.nodes, path) || |data| > MAX_FILE_BYTES ==>
      WriteOutcome(true, v, path, data, ErrInvalid, v)
  {
  }

  lemma DeleteRefused(v: Volume, path: string)
    ensures DeleteOutcome(false, v, path, ErrInvalid, v)
    ensures !ValidPath(path) ==> DeleteOutcome(true, v, path, ErrInvalid, v)
  {
  }

  lemma RenameRefused(v: Volume, from: string, to: string)
    ensures RenameOutcome(false, v, from, to, ErrInvalid, v)
    ensures !ValidPath(from) || !ValidPath(to) ==> RenameOutcome(true, v, from, to, ErrInvalid, v)
  {
  }

  /** The node a read finds is the entry of the map. */
  lemma ReadsFiles(v: Volume, path: string)
    requires TreeOk(v)
    ensures var f, fs := Find(v.nodes, path, false), FilesOf(v);
      && (f >= 0 <==> path in fs)
      && (f >= 0 ==> fs[path] == LiveSlot(v.nodes[f], v.disk).entry)
  {
    hide TreeOk, FilesOf, LiveSlot;
    FindsFiles(v, path);
    var f := Find(v.nodes, path, false);
    if f >= 0 { LiveAt(v, path, f); }
  }

  /** A path that is not in the map of a view is at none of its slots. */
  lemma NowhereIn(view: seq<Slot>, path: string)
    requires UniquePaths(view) && path !in Tree(view)
    ensures forall i :: 0 <= i < |view| && view[i].Present? ==> view[i].path != path
  {
    forall i | 0 <= i < |view| && view[i].Present? ensures view[i].path != path { TreeHas(view, i); }
  }
}
