/**
 The mutable filesystem as the kernel runs it: node table and bitmap updated in place, sectors
 written one at a time, every device call free to fail. Each call is proved against its
 relation in `MfsSpec`.
 */
module MutableFs {
  import opened Machine
  import opened Collections
  import opened MfsPaths
  import opened MfsVolume
  import opened MfsSpec
  import opened MfsSnapshot
  import opened MfsRoom
  import opened MfsRuns
  import opened MfsTree
  import opened MfsFiles

  /** The block device. A failed write may leave anything in its sector. */
  class BlockDevice {
    var disk: Disk
    ghost var log: seq<SectorWrite>
    const reliable: bool // no call ever fails

    constructor (initial: Disk, reliable: bool)
      ensures disk == initial && log == [] && this.reliable == reliable
    {
      disk := initial;
      log := [];
      this.reliable := reliable;
    }

    method Read(sector: nat) returns (ok: bool, data: Sector)
      ensures (ok ==> data == ReadSector(disk, sector)) && (reliable ==> ok)
    {
      data := ReadSector(disk, sector);
      ok := *;
      ok := ok || reliable;
    }

    method Write(sector: nat, data: Sector) returns (ok: bool)
      modifies this
      ensures sector in disk && disk == old(disk)[sector := disk[sector]]
      ensures (ok ==> disk[sector] == data) && (reliable ==> ok)
      ensures log == old(log) + [SectorWrite(sector, disk[sector])]
    {
      ok := *;
      ok := ok || reliable;
      var landed: Sector := *;
      if ok {
        landed := data;
      }
      disk := disk[sector := landed];
      log := log + [SectorWrite(sector, landed)];
    }
  }

  /** The sector image of block `i` of `data`: its bytes, zero-padded. */
  function SectorImage(data: seq<byte>, i: nat): Sector
    requires 512 * i <= |data|
  {
    var chunk := Min(|data| - 512 * i, 512);
    data[512 * i..512 * i + chunk] + seq(512 - chunk, _ => 0)
  }

  /** The first `n` blocks hold their images of `data`. */
  predicate Imaged(d: Disk, blocks: seq<nat>, data: seq<byte>, n: nat)
    requires n <= |blocks| && (n > 0 ==> 512 * (n - 1) <= |data|)
  {
    forall k :: 0 <= k < n ==> ReadSector(d, SectorOf(blocks[k])) == SectorImage(data, k)
  }

  lemma ImagedStep(d: Disk, d': Disk, blocks: seq<nat>, data: seq<byte>, n: nat)
    requires n < |blocks| && Distinct(blocks) && 512 * n <= |data|
    requires Imaged(d, blocks, data, n)
    requires d' == d[SectorOf(blocks[n]) := SectorImage(data, n)]
    ensures Imaged(d', blocks, data, n + 1)
  {
  }

  class MutableFs {
    const nodes: array<Node>
    const bitmap: array<bool>
    const device: BlockDevice
    const mounted: bool
    const writable: bool
    var generation: nat
    var committed: nat

    ghost function State(): Volume
      reads this, nodes, bitmap, device
    {
      Volume(nodes[..], bitmap[..], generation, committed, device.disk)
    }

    ghost predicate Shape()
      reads this
    {
      && nodes.Length == MAX_NODES && bitmap.Length == DATA_SECTORS
      && nodes as object != bitmap
      && generation < TWO64 && committed < TWO64
    }

    ghost predicate Valid()
      reads this, nodes, bitmap, device
    {
      Shape() && Consistent(State())
    }

    /** A freshly formatted v2 volume. */
    constructor (mounted: bool, writable: bool, device: BlockDevice)
      ensures Valid() && fresh(nodes) && fresh(bitmap) && this.device == device
      ensures this.mounted == mounted && this.writable == writable
      ensures forall i :: 0 <= i < MAX_NODES ==> nodes[i] == BLANK
      ensures forall b :: 0 <= b < DATA_SECTORS ==> !bitmap[b]
      ensures generation == 1 && committed == 0
    {
      this.mounted := mounted;
      this.writable := writable;
      this.device := device;
      nodes := new Node[MAX_NODES](_ => BLANK);
      bitmap := new bool[DATA_SECTORS](_ => false);
      generation := 1;
      committed := 0;
      new;
      RefsBlank(nodes[..]);
      assert Used(bitmap[..]) == {};
    }

    // ---------- Bitmap ----------

    /** First fit: takes the lowest free blocks, or changes nothing. */
    method AllocateBlocks(count: nat) returns (status: Status, blocks: seq<nat>)
      requires Shape()
      modifies bitmap
      ensures status.Ok? <==> count <= FILE_MAX_BLOCKS && count <= |FreeList(old(bitmap[..]))|
      ensures status.Ok? ==> blocks == FreeList(old(bitmap[..]))[..count]
      ensures status.Ok? ==> bitmap[..] == Marked(old(bitmap[..]), blocks)
      ensures !status.Ok? ==> bitmap[..] == old(bitmap[..])
      ensures !status.Ok? ==> status == if count > FILE_MAX_BLOCKS then ErrInvalid else ErrNoMemory
    {
      if count > FILE_MAX_BLOCKS {
        return ErrInvalid, [];
      }
      ghost var was := bitmap[..];
      blocks := TakeFree(count);
      if |blocks| != count {
        FirstFree(was, |FreeList(was)|);
        UndoAllocation(blocks, was);
        return ErrNoMemory, [];
      }
      return Ok, blocks;
    }

    method TakeFree(count: nat) returns (blocks: seq<nat>)
      requires Shape()
      modifies bitmap
      ensures blocks == FreeList(old(bitmap[..]))[..Min(count, |FreeList(old(bitmap[..]))|)]
      ensures bitmap[..] == Marked(old(bitmap[..]), blocks)
    {
      blocks := [];
      ghost var was := bitmap[..];
      var i := 0;
      while i < DATA_SECTORS && |blocks| < count
        invariant 0 <= i <= DATA_SECTORS && |blocks| <= count
        invariant blocks == FreeList(was[..i])
        invariant forall b :: 0 <= b < DATA_SECTORS ==> bitmap[b] == (was[b] || b in blocks)
      {
        FreeListStep(was, i);
        if !bitmap[i] {
          bitmap[i] := true;
          blocks := blocks + [i];
        }
        i := i + 1;
      }
      assert bitmap[..] == Marked(was, blocks);
      FreeListPrefix(was, i);
      if i == DATA_SECTORS {
        assert was[..i] == was;
      }
    }

    method UndoAllocation(blocks: seq<nat>, ghost was: seq<bool>)
      requires Shape() && |was| == DATA_SECTORS && bitmap[..] == Marked(was, blocks)
      requires Distinct(blocks) && forall b :: b in blocks ==> b < DATA_SECTORS && !was[b]
      modifies bitmap
      ensures bitmap[..] == was
    {
      assert forall b :: 0 <= b < DATA_SECTORS ==> bitmap[b] == bitmap[..][b];
      var k := 0;
      while k < |blocks|
        invariant 0 <= k <= |blocks|
        invariant forall b :: 0 <= b < DATA_SECTORS ==> bitmap[b] == (was[b] || b in blocks[k..])
      {
        assert blocks[k..] == [blocks[k]] + blocks[k + 1..];
        assert blocks[k] in blocks;
        bitmap[blocks[k]] := false;
        k := k + 1;
      }
      assert bitmap[..] == was;
    }

    method FreeBlocks(blocks: seq<nat>)
      requires Shape()
      modifies bitmap
      ensures bitmap[..] == Cleared(old(bitmap[..]), blocks)
    {
      ghost var was := bitmap[..];
      var i := 0;
      while i < |blocks|
        invariant 0 <= i <= |blocks|
        invariant bitmap[..] == Cleared(was, blocks[..i])
      {
        if blocks[i] < DATA_SECTORS && bitmap[blocks[i]] {
          bitmap[blocks[i]] := false;
        }
        i := i + 1;
      }
      assert blocks[..i] == blocks;
    }

    // ---------- Sectors ----------

    method WriteBlocks(blocks: seq<nat>, data: seq<byte>, size: nat) returns (ok: bool)
      requires Distinct(blocks) && |blocks| <= BlocksFor(size) && |data| == Min(size, 512 * |blocks|)
      modifies device
      ensures (ok ==> Content(device.disk, blocks, size) == data) && (device.reliable || blocks == [] ==> ok)
      ensures forall s: nat :: s - DATA_START_SECTOR !in blocks ==>
                ReadSector(device.disk, s) == ReadSector(old(device.disk), s)
      ensures Wrote(old(device.disk), old(device.log), device.disk, device.log, blocks) &&
        OnlyData(old(device.log), device.log)
    {
      hide SectorImage, Content;
      assert |blocks| > 0 ==> 512 * (|blocks| - 1) <= |data|;
      var i := 0;
      while i < |blocks|
        invariant 0 <= i <= |blocks| && Imaged(device.disk, blocks, data, i)
        invariant forall s: nat :: s - DATA_START_SECTOR !in blocks ==>
                    ReadSector(device.disk, s) == ReadSector(old(device.disk), s)
        invariant Wrote(old(device.disk), old(device.log), device.disk, device.log, blocks) &&
          OnlyData(old(device.log), device.log)
      {
        ghost var was, log := device.disk, device.log;
        var done := device.Write(SectorOf(blocks[i]), SectorImage(data, i));
        WroteOne(old(device.disk), old(device.log), was, log, device.disk, device.log, blocks);
        if !done {
          return false;
        }
        ImagedStep(was, device.disk, blocks, data, i);
        i := i + 1;
      }
      ImageContent(device.disk, blocks, data, size);
      return true;
    }

    method ReadBlocks(blocks: seq<nat>, size: nat) returns (ok: bool, bytes: seq<byte>)
      requires |blocks| <= BlocksFor(size)
      ensures (ok ==> bytes == Content(device.disk, blocks, size)) && (device.reliable || blocks == [] ==> ok)
    {
      bytes := [];
      var i := 0;
      while i < |blocks|
        invariant 0 <= i <= |blocks|
        invariant |bytes| == Min(size, 512 * i) && bytes == Content(device.disk, blocks, size)[..|bytes|]
      {
        var copy := Min(size - 512 * i, 512);
        var done, sector := device.Read(SectorOf(blocks[i]));
        if !done {
          return false, [];
        }
        ContentChunk(device.disk, blocks, size, i);
        bytes := bytes + sector[..copy];
        i := i + 1;
      }
      return true, bytes;
    }

    /** Rewrites the metadata sectors; their contents are not part of this model. */
    method WriteMetadata() returns (status: Status)
      modifies device
      ensures status.Ok? || (status.ErrIo? && !device.reliable)
      ensures forall s: nat :: !InMetadata(s) ==> ReadSector(device.disk, s) == ReadSector(old(device.disk), s)
      ensures Wrote(old(device.disk), old(device.log), device.disk, device.log, []) &&
        OnlyMetadata(old(device.log), device.log)
    {
      var i := 0;
      while i < METADATA_SECTORS
        invariant 0 <= i <= METADATA_SECTORS
        invariant forall s: nat :: !InMetadata(s) ==> ReadSector(device.disk, s) == ReadSector(old(device.disk), s)
        invariant Wrote(old(device.disk), old(device.log), device.disk, device.log, []) &&
          OnlyMetadata(old(device.log), device.log)
      {
        var image: Sector := *;
        ghost var was, log := device.disk, device.log;
        var done := device.Write(START_SECTOR + i, image);
        WroteOne(old(device.disk), old(device.log), was, log, device.disk, device.log, []);
        if !done {
          return ErrIo;
        }
        i := i + 1;
      }
      return Ok;
    }

    // ---------- Lookup ----------

    method FindNode(path: string, includeSnapshot: bool) returns (r: int)
      ensures r == Find(nodes[..], path, includeSnapshot)
    {
      var i := 0;
      while i < nodes.Length
        invariant 0 <= i <= nodes.Length
        invariant Find(nodes[..], path, includeSnapshot) == FindFrom(nodes[..], path, includeSnapshot, i)
      {
        if Matches(nodes[i], path, includeSnapshot) {
          return i;
        }
        i := i + 1;
      }
      return -1;
    }

    method FindFreeNode() returns (r: int)
      ensures r == FindVacant(nodes[..], 0)
    {
      var i := 0;
      while i < nodes.Length
        invariant 0 <= i <= nodes.Length
        invariant FindVacant(nodes[..], 0) == FindVacant(nodes[..], i)
      {
        if Vacant(nodes[i]) {
          return i;
        }
        i := i + 1;
      }
      return -1;
    }

    method ParentExistsFor(path: string) returns (ok: bool)
      requires ValidPath(path)
      ensures ok <==> ParentExists(nodes[..], path)
    {
      var parent := ParentPathOf(path);
      if parent == "/" {
        return true;
      }
      var i := FindNode(parent, false);
      return i >= 0 && nodes[i].kind.Dir?;
    }

    method HasChildren(path: string) returns (found: bool)
      ensures found <==> HasActiveChildren(nodes[..], path)
    {
      var i := 0;
      while i < nodes.Length
        invariant 0 <= i <= nodes.Length
        invariant forall k :: 0 <= k < i ==> !(nodes[k].active && Beneath(nodes[k].path, path))
      {
        if nodes[i].active && Beneath(nodes[i].path, path) {
          assert nodes[..][i] == nodes[i];
          return true;
        }
        i := i + 1;
      }
      return false;
    }

    // ---------- Calls ----------

    /** Allocates blocks and fills them with `data`; on failure the bitmap is as before. */
    method StoreBlocks(count: nat, data: seq<byte>, size: nat) returns (status: Status, blocks: seq<nat>)
      requires Shape() && count <= FILE_MAX_BLOCKS && count <= BlocksFor(size) && |data| == Min(size, 512 * count)
      modifies bitmap, device
      ensures SameUsed(old(bitmap[..]), old(device.disk), device.disk)
      ensures Wrote(old(device.disk), old(device.log), device.disk, device.log, FreeList(old(bitmap[..]))) &&
        OnlyData(old(device.log), device.log)
      ensures count > |FreeList(old(bitmap[..]))| ==> status == ErrNoMemory && device.disk == old(device.disk)
      ensures count <= |FreeList(old(bitmap[..]))| ==> status.Ok? || (status.ErrIo? && !device.reliable && count > 0)
      ensures !status.Ok? ==> bitmap[..] == old(bitmap[..])
      ensures status.Ok? ==>
        blocks == FreeList(old(bitmap[..]))[..count] && bitmap[..] == Marked(old(bitmap[..]), blocks)
      ensures status.Ok? ==> Content(device.disk, blocks, size) == data
    {
      ghost var was := bitmap[..];
      status, blocks := AllocateBlocks(count);
      if !status.Ok? {
        return status, [];
      }
      FirstFree(was, count);
      var written := WriteBlocks(blocks, data, size);
      WroteFree(old(device.disk), old(device.log), device.disk, device.log, blocks, was);
      if !written {
        FreeBlocks(blocks);
        assert bitmap[..] == was;
        return ErrIo, [];
      }
      return Ok, blocks;
    }

    /** Puts `n`, stamped with the next generation, into slot `t` and writes the metadata. */
    method Install(t: nat, n: Node) returns (status: Status)
      requires Shape() && t < MAX_NODES
      modifies this`generation, nodes, device
      ensures Shape() && (status.Ok? || (status.ErrIo? && !device.reliable))
      ensures generation == Tick(old(generation))
      ensures nodes[..] == old(nodes[..])[t := n.(generation := old(generation))]
      ensures forall s: nat :: !InMetadata(s) ==> ReadSector(device.disk, s) == ReadSector(old(device.disk), s)
      ensures Wrote(old(device.disk), old(device.log), device.disk, device.log, []) &&
        OnlyMetadata(old(device.log), device.log)
    {
      nodes[t] := n.(generation := generation);
      generation := (generation + 1) % TWO64;
      status := WriteMetadata();
    }

    method CreateDir(path: string) returns (status: Status)
      requires Valid()
      modifies this`generation, nodes, device
      ensures Valid() && MakeDirOutcome(mounted && writable, old(State()), path, status, State())
      ensures device.reliable ==> !status.ErrIo?
      ensures mounted && writable && TreeOk(old(State())) ==>
        var fs := FilesOf(old(State()));
        && Follows(old(State()), MakeDirIn(fs, path, NodeFor(old(nodes[..]), path)), status, State())
        && (device.reliable && ValidPath(path) && ParentIn(fs, path) ==>
              (status.Ok? <==> DirectoryAt(fs, path) || (path !in fs && NodeFor(old(nodes[..]), path))))
        && (status.Ok? ==> FilesOf(State()) == fs[path := Directory])
    {
      hide MakeDirOutcome, TreeOk, FilesOf, NodeFor, Consistent, ValidPath, Find, Wrote;
      ghost var v := State();
      MakeDirRefused(v, path);
      status := ErrInvalid;
      var valid := ValidatePath(path);
      if mounted && writable && valid {
        status := MakeDir(path);
        if TreeOk(v) {
          MakeDirFollows(v, path, status, State());
        }
      }
    }

    /** The part of a mkdir after its path was accepted. */
    method MakeDir(path: string) returns (status: Status)
      requires Valid() && ValidPath(path)
      modifies this`generation, nodes, device
      ensures Valid() && MakeDirOutcome(true, old(State()), path, status, State())
      ensures device.reliable ==> !status.ErrIo?
    {
      hide Consistent, ValidPath, Wrote, Find, FindVacant, ParentExists, HasActiveChildren, ReadSector;
      ghost var v := State();
      var parent := ParentExistsFor(path);
      if !parent {
        return ErrInvalid;
      }
      var t := FindNode(path, true);
      if t >= 0 && nodes[t].active {
        return if nodes[t].kind.Dir? then Ok else ErrInvalid;
      }
      if t < 0 {
        t := FindFreeNode();
      }
      if t < 0 {
        return ErrNoMemory;
      }
      status := Install(t, MadeDir(nodes[t], path, 0));
      assert MakeDirEffect(v, path, State());
      MakeDirKeeps(v, path, State());
    }

    method WriteFile(path: string, data: seq<byte>) returns (status: Status)
      requires Valid()
      modifies this`generation, nodes, bitmap, device
      ensures Valid() && WriteOutcome(mounted && writable, old(State()), path, data, status, State())
      ensures device.reliable ==> !status.ErrIo?
      ensures Wrote(old(device.disk), old(device.log), device.disk, device.log, FreeList(old(bitmap[..])))
      ensures DataFirst(old(device.disk), old(device.log), device.log, NewBlocks(old(bitmap[..]), data), data)
      ensures mounted && writable && TreeOk(old(State())) ==>
        var fs, node, free := FilesOf(old(State())), NodeFor(old(nodes[..]), path), |FreeList(old(bitmap[..]))|;
        && Follows(old(State()), WriteIn(fs, path, data, node, free), status, State())
        && (device.reliable && ValidPath(path) && ParentIn(fs, path) && |data| <= 8192 && |data| <= 512 * free ==>
              (status.Ok? <==> (path in fs && fs[path].Regular?) || (path !in fs && node)))
        && (status.Ok? ==> FilesOf(State()) == fs[path := Regular(|data|, Fnv1a64(data), data)])
    {
      hide WriteOutcome, TreeOk, FilesOf, NodeFor, FreeList, NewBlocks, Fnv1a64, Consistent, ValidPath;
      hide Find, DataFirst, ParentExists;
      ghost var v := State();
      DataThenMetadata(device.disk, device.log, device.disk, device.log, device.log, NewBlocks(bitmap[..], data), data);
      WriteRefused(v, path, data);
      status := ErrInvalid;
      var valid := ValidatePath(path);
      if mounted && writable && valid {
        var parent := ParentExistsFor(path);
        if parent && |data| <= MAX_FILE_BYTES {
          status := ReplaceFile(path, data);
        }
        if TreeOk(v) {
          WriteFollows(v, path, data, status, State());
        }
      }
    }

    /** The part of a write after its arguments were accepted. */
    method ReplaceFile(path: string, data: seq<byte>) returns (status: Status)
      requires Valid() && ValidPath(path) && ParentExists(nodes[..], path) && |data| <= MAX_FILE_BYTES
      modifies this`generation, nodes, bitmap, device
      ensures Valid() && WriteOutcome(true, old(State()), path, data, status, State())
      ensures device.reliable ==> !status.ErrIo?
      ensures Wrote(old(device.disk), old(device.log), device.disk, device.log, FreeList(old(bitmap[..])))
      ensures DataFirst(old(device.disk), old(device.log), device.log, NewBlocks(old(bitmap[..]), data), data)
    {
      ghost var v := State();
      var blocks;
      status, blocks := StoreBlocks(BlocksFor(|data|), data, |data|);
      ghost var disk, log := device.disk, device.log;
      DataThenMetadata(v.disk, old(device.log), disk, log, log, NewBlocks(v.bitmap, data), data);
      if !status.Ok? {
        UntouchedKeeps(v, State());
        return;
      }
      var t := FindNode(path, true);
      if t < 0 {
        t := FindFreeNode();
      }
      if t < 0 || (nodes[t].active && !nodes[t].kind.File?) {
        AbandonFile(blocks, v);
        return if t < 0 then ErrNoMemory else ErrInvalid;
      }
      status := AttachFile(t, path, data, blocks, v);
      WroteChain(old(device.disk), old(device.log), disk, log, device.disk, device.log, FreeList(v.bitmap));
      DataThenMetadata(v.disk, old(device.log), disk, log, device.log, NewBlocks(v.bitmap, data), data);
      WriteKeeps(v, path, data, State());
    }

    /** Gives back stored blocks that found no node. */
    method AbandonFile(blocks: seq<nat>, ghost v: Volume)
      requires Shape() && Consistent(v) && blocks <= FreeList(v.bitmap)
      requires State() == v.(bitmap := Marked(v.bitmap, blocks), disk := device.disk)
      requires SameUsed(v.bitmap, v.disk, device.disk)
      modifies bitmap
      ensures Valid() && Untouched(v, State())
    {
      FreeBlocks(blocks);
      FirstFree(v.bitmap, |blocks|);
      assert bitmap[..] == v.bitmap;
      UntouchedKeeps(v, State());
    }

    /** Swaps the stored blocks into node `t` and frees its former ones. */
    method AttachFile(t: nat, path: string, data: seq<byte>, blocks: seq<nat>, ghost v: Volume) returns (status: Status)
      requires Shape() && ValidPath(path) && ParentExists(v.nodes, path) && |data| <= MAX_FILE_BYTES
      requires |v.nodes| == MAX_NODES && t == Target(v.nodes, path) && (v.nodes[t].active ==> v.nodes[t].kind.File?)
      requires BlocksFor(|data|) <= |FreeList(v.bitmap)| && blocks == FreeList(v.bitmap)[..BlocksFor(|data|)]
      requires State() == v.(bitmap := Marked(v.bitmap, blocks), disk := device.disk)
      requires SameUsed(v.bitmap, v.disk, device.disk) && Content(device.disk, blocks, |data|) == data
      modifies this`generation, nodes, bitmap, device
      ensures Shape() && WriteEffect(v, path, data, State()) && (status.Ok? || (status.ErrIo? && !device.reliable))
      ensures Wrote(old(device.disk), old(device.log), device.disk, device.log, []) &&
        OnlyMetadata(old(device.log), device.log)
    {
      hide ValidPath, ParentExists, Find, FindVacant, FreeList, Content, Cleared, Marked, Fnv1a64, Wrote;
      ghost var stored := device.disk;
      assert nodes[..][t] == nodes[t];
      FreeBlocks(LiveBlocks(nodes[t]));
      status := Install(t, Written(nodes[t], path, data, 0, blocks));
      ContentFrame(stored, device.disk, blocks, |data|);
    }

    method DeleteNode(path: string) returns (status: Status)
      requires Valid()
      modifies this`generation, nodes, bitmap, device
      ensures Valid() && DeleteOutcome(mounted && writable, old(State()), path, status, State())
      ensures device.reliable ==> !status.ErrIo?
      ensures mounted && writable && TreeOk(old(State())) ==>
        var fs := FilesOf(old(State()));
        && Follows(old(State()), DeleteIn(fs, path), status, State())
        && (device.reliable && ValidPath(path) ==>
              (status.Ok? <==> path in fs && (fs[path].Regular? || forall q :: q in fs ==> !Beneath(q, path))))
        && (status.Ok? ==> FilesOf(State()) == fs - {path})
    {
      hide DeleteOutcome, TreeOk, FilesOf, Consistent, ValidPath, Find, Wrote;
      ghost var v := State();
      DeleteRefused(v, path);
      status := ErrInvalid;
      var valid := ValidatePath(path);
      if mounted && writable && valid {
        status := RemoveNode(path);
        if TreeOk(v) {
          DeleteFollows(v, path, status, State());
        }
      }
    }

    /** The part of a delete after its path was accepted. */
    method RemoveNode(path: string) returns (status: Status)
      requires Valid() && ValidPath(path)
      modifies this`generation, nodes, bitmap, device
      ensures Valid() && DeleteOutcome(true, old(State()), path, status, State())
      ensures device.reliable ==> !status.ErrIo?
    {
      hide Consistent, ValidPath, Wrote, Find, FindVacant, ParentExists, HasActiveChildren, ReadSector;
      ghost var v := State();
      var t := FindNode(path, false);
      if t < 0 {
        return ErrNotFound;
      }
      var busy := HasChildren(path);
      if nodes[t].kind.Dir? && busy {
        return ErrBusy;
      }
      FreeBlocks(LiveBlocks(nodes[t]));
      status := Install(t, Deleted(nodes[t], 0));
      assert DeleteEffect(v, path, State());
      DeleteKeeps(v, path, State());
    }

    method RenameNode(from: string, to: string) returns (status: Status)
      requires Valid()
      modifies this`generation, nodes, device
      ensures Valid() && RenameOutcome(mounted && writable, old(State()), from, to, status, State())
      ensures device.reliable ==> !status.ErrIo?
      ensures mounted && writable && TreeOk(old(State())) ==>
        var fs := FilesOf(old(State()));
        && Follows(old(State()), RenameIn(fs, from, to), status, State())
        && (status.Ok? ==> from in fs && to !in fs && FilesOf(State()) == (fs - {from})[to := fs[from]])
    {
      hide RenameOutcome, TreeOk, FilesOf, Consistent, ValidPath, Find, Wrote;
      ghost var v := State();
      RenameRefused(v, from, to);
      status := ErrInvalid;
      var validFrom := ValidatePath(from);
      var validTo := ValidatePath(to);
      if mounted && writable && validFrom && validTo {
        status := MoveNode(from, to);
        if TreeOk(v) {
          RenameFollows(v, from, to, status, State());
        }
      }
    }

    /** The part of a rename after its paths were accepted. */
    method MoveNode(from: string, to: string) returns (status: Status)
      requires Valid() && ValidPath(from) && ValidPath(to)
      modifies this`generation, nodes, device
      ensures Valid() && RenameOutcome(true, old(State()), from, to, status, State())
      ensures device.reliable ==> !status.ErrIo?
    {
      hide Consistent, ValidPath, Wrote, Find, FindVacant, ParentExists, HasActiveChildren, ReadSector;
      ghost var v := State();
      var parent := ParentExistsFor(to);
      if !parent {
        return ErrInvalid;
      }
      var t := FindNode(from, false);
      if t < 0 {
        return ErrNotFound;
      }
      var taken := FindNode(to, false);
      var busy := HasChildren(from);
      if taken >= 0 || (nodes[t].kind.Dir? && busy) {
        return ErrBusy;
      }
      status := Install(t, nodes[t].(path := to));
      assert RenameEffect(v, from, to, State());
      RenameKeeps(v, from, to, State());
    }

    // ---------- Snapshot and rollback ----------

    /** One iteration of the commit loop. */
    method SnapshotNode(i: nat) returns (status: Status)
      requires Valid() && i < MAX_NODES
      modifies nodes, bitmap, device
      ensures Valid() && SnapNode(old(State()), State(), i, status)
      ensures status.Ok? || status.ErrNoMemory? || (status.ErrIo? && !device.reliable)
    {
      hide SnapCopied, CopyFailed;
      ghost var v := State();
      var n := nodes[i];
      assert n == v.nodes[i];
      FreeBlocks(SnapBlocks(n));
      nodes[i] := SnapHeader(n);
      assert State() == SnapBegun(v, i);
      SnapBegins(v, i);
      if LiveFile(n) {
        status := FillSnapshot(i);
      } else {
        status := Ok;
      }
      SnapNodeKeeps(v, State(), i, status);
    }

    /** Copies the live blocks of node `i` into newly allocated snapshot blocks. */
    method FillSnapshot(i: nat) returns (status: Status)
      requires Valid() && i < MAX_NODES && LiveFile(nodes[i])
      modifies nodes, bitmap, device
      ensures Shape() && (status.Ok? || status.ErrNoMemory? || (status.ErrIo? && !device.reliable))
      ensures
        || (status.Ok? && SnapCopied(old(State()), State(), i))
        || CopyFailed(old(State()), State(), |old(nodes[i]).blocks|, status)
    {
      ghost var w := State();
      var n := nodes[i];
      assert n == w.nodes[i] && NodeOk(w.nodes[i], w.disk);
      var read, bytes := ReadBlocks(n.blocks, n.size);
      if !read {
        return ErrIo;
      }
      var blocks;
      status, blocks := StoreBlocks(|n.blocks|, bytes, n.size);
      if status.Ok? {
        nodes[i] := nodes[i].(snapshotBlocks := blocks);
      }
    }

    method CommitSnapshot() returns (status: Status)
      requires Valid()
      modifies this`committed, nodes, bitmap, device
      ensures Valid() && CommitOutcome(mounted && writable, old(State()), status, State())
      ensures device.reliable && mounted && writable ==> (status.Ok? <==> CommitFits(old(State()))) && !status.ErrIo?
      ensures status.Ok? ==> SnapView(State()) == LiveView(State()) == LiveView(old(State()))
    {
      hide SnapNode, Snapshotted, Consistent, CommitFits, LiveView, SnapView;
      ghost var v := State();
      if !mounted || !writable {
        return ErrInvalid;
      }
      SnapshottedStart(v);
      var i := 0;
      while i < MAX_NODES
        invariant 0 <= i <= MAX_NODES && Valid() && Snapshotted(v, State(), i)
      {
        ghost var w := State();
        status := SnapshotNode(i);
        if !status.Ok? {
          assert CommitStopped(v, State(), i, status);
          if status.ErrNoMemory? { OutOfSpace(v, State(), i); }
          return;
        }
        SnapshottedNext(v, w, State(), i);
        i := i + 1;
      }
      ghost var w := State();
      committed := generation;
      status := WriteMetadata();
      UntouchedKeeps(w, State());
      assert CommitDone(v, State());
      DoneFits(v, State());
      CommitKeeps(v, State());
    }

    method RestoreSnapshotNode(i: nat) returns (status: Status)
      requires Valid() && i < MAX_NODES
      modifies nodes, bitmap, device
      ensures Valid() && (status.Ok? || status.ErrNoMemory? || (status.ErrIo? && !device.reliable))
      ensures old(nodes[i]).snapshotActive ==> RestoreNode(old(State()), State(), i, status)
      ensures !old(nodes[i]).snapshotActive ==> status.Ok? && State() == old(State())
    {
      hide LiveCopied, CopyFailed;
      ghost var v := State();
      var n := nodes[i];
      if !n.snapshotActive {
        return Ok;
      }
      assert n == v.nodes[i];
      FreeBlocks(LiveBlocks(n));
      nodes[i] := LiveHeader(n);
      assert State() == LiveBegun(v, i);
      LiveBegins(v, i);
      if n.snapshotKind.File? {
        status := FillLive(i);
      } else {
        status := Ok;
      }
      RestoreNodeKeeps(v, State(), i, status);
    }

    /** Copies the snapshot blocks of node `i` into newly allocated live blocks. */
    method FillLive(i: nat) returns (status: Status)
      requires Valid() && i < MAX_NODES && SnapFile(nodes[i])
      modifies nodes, bitmap, device
      ensures Shape() && (status.Ok? || status.ErrNoMemory? || (status.ErrIo? && !device.reliable))
      ensures
        || (status.Ok? && LiveCopied(old(State()), State(), i))
        || CopyFailed(old(State()), State(), |old(nodes[i]).snapshotBlocks|, status)
    {
      ghost var w := State();
      var n := nodes[i];
      assert n == w.nodes[i] && NodeOk(w.nodes[i], w.disk);
      var read, bytes := ReadBlocks(n.snapshotBlocks, n.snapshotSize);
      if !read {
        return ErrIo;
      }
      var blocks;
      status, blocks := StoreBlocks(|n.snapshotBlocks|, bytes, n.snapshotSize);
      if status.Ok? {
        nodes[i] := nodes[i].(blocks := blocks);
      }
    }

    method RollbackSnapshot() returns (status: Status)
      requires Valid()
      modifies this`generation, nodes, bitmap, device
      ensures Valid() && RollbackOutcome(mounted && writable, old(State()), status, State())
      ensures device.reliable && mounted && writable ==> (status.Ok? <==> RollbackFits(old(State())))
      ensures status.Ok? ==> (LiveView(State()) == SnapView(old(State())) <==> NoneStale(old(State())))
    {
      hide RestoreNode, RestoredFiles, Cleaned, Consistent, RollbackFits, LiveView, SnapView, NoneStale;
      ghost var v := State();
      if !mounted || !writable {
        return ErrInvalid;
      }
      CleanUp();
      RestoredStart(Cleaned(v));
      var i := 0;
      while i < MAX_NODES
        invariant 0 <= i <= MAX_NODES && Valid() && RestoredFiles(Cleaned(v), State(), i) && generation == v.generation
      {
        ghost var w := State();
        assert nodes[i] == w.nodes[i];
        if SnapFile(nodes[i]) {
          status := RestoreSnapshotNode(i);
          if !status.Ok? {
            assert RollbackPartial(v, State(), i, status);
            if status.ErrNoMemory? { NoRoomToRestore(v, State(), i); }
            return ErrIo;
          }
        }
        RestoredNext(Cleaned(v), w, State(), i);
        i := i + 1;
      }
      status := FinishRollback(v);
      CompleteFits(v, State());
      RollbackExact(v, State());
    }

    method FinishRollback(ghost v: Volume) returns (status: Status)
      requires Valid() && |v.nodes| == MAX_NODES && RestoredFiles(Cleaned(v), State(), MAX_NODES)
      modifies this`generation, device
      ensures Valid() && RollbackComplete(v, State()) && (status.Ok? || (status.ErrIo? && !device.reliable))
    {
      hide RestoredFiles, Cleaned;
      ghost var w := State();
      generation := (generation + 1) % TWO64;
      status := WriteMetadata();
      UntouchedKeeps(w, State());
    }

    /** The parts of rollback that cannot fail. */
    method CleanUp()
      requires Valid()
      modifies nodes, bitmap, device
      ensures Valid() && State() == Cleaned(old(State()))
    {
      hide RestoreDirs, DropNodes, Consistent;
      DropNewNodes();
      RestoreDirectories();
    }

    /** The first loop of rollback: drops what was created since the commit. */
    method DropNewNodes()
      requires Valid()
      modifies nodes, bitmap
      ensures Valid() && State() == DropNodes(old(State()), MAX_NODES)
    {
      ghost var v := State();
      var i := 0;
      while i < MAX_NODES
        invariant 0 <= i <= MAX_NODES && Shape() && State() == DropNodes(v, i)
      {
        ghost var w := State();
        var n := nodes[i];
        assert n == w.nodes[i];
        if Dropped(n, committed) {
          FreeBlocks(LiveBlocks(n));
          nodes[i] := n.(active := false, blocks := []);
        }
        assert State() == DropNode(w, i);
        i := i + 1;
      }
      RollDrops(v, MAX_NODES);
    }

    /** Pass 0 of rollback: directories, which cannot fail. */
    method RestoreDirectories()
      requires Valid()
      modifies nodes, bitmap, device
      ensures Valid() && State() == RestoreDirs(old(State()), MAX_NODES)
    {
      hide LiveBegun, Consistent;
      ghost var v := State();
      var i := 0;
      while i < MAX_NODES
        invariant 0 <= i <= MAX_NODES && Valid() && State() == RestoreDirs(v, i)
      {
        assert nodes[i] == State().nodes[i];
        if SnapDir(nodes[i]) {
          var restored := RestoreSnapshotNode(i);
        }
        i := i + 1;
      }
    }

    // ---------- Reading and checking ----------

    /**
     Reads a file into `buffer`. The bytes a damaged block list cannot supply stay those of the
     caller's buffer, so success means that the content hash matched.
     */
    method ReadFile(path: string, buffer: seq<byte>) returns (status: Status, out: seq<byte>, size: nat)
      requires Valid()
      ensures var t := Find(nodes[..], path, false);
        if !mounted || !ValidPath(path) then status == ErrInvalid
        else if t < 0 || !nodes[t].kind.File? || nodes[t].size > |buffer| then status == ErrNotFound
        else if status.ErrIo? then true
        else
          var c := Content(device.disk, nodes[t].blocks, nodes[t].size);
          && out == c + buffer[|c|..]
          && status == (if Fnv1a64(out[..nodes[t].size]) == nodes[t].hash then Ok else ErrInvalid)
          && (status.Ok? ==> size == nodes[t].size)
          && (|c| == nodes[t].size ==> status.Ok?)
      ensures device.reliable ==> !status.ErrIo?
      ensures mounted && ValidPath(path) && TreeOk(State()) ==>
        var fs := FilesOf(State());
        if path !in fs || fs[path].Directory? || fs[path].size > |buffer| then status == ErrNotFound
        else |fs[path].bytes| == fs[path].size && !status.ErrIo? ==>
               status == Ok && size == fs[path].size && out == fs[path].bytes + buffer[size..]
    {
      if TreeOk(State()) {
        ReadsFiles(State(), path);
      }
      out, size := buffer, 0;
      var valid := ValidatePath(path);
      if !mounted || !valid {
        return ErrInvalid, out, size;
      }
      var t := FindNode(path, false);
      if t < 0 || !nodes[t].kind.File? || nodes[t].size > |buffer| {
        return ErrNotFound, out, size;
      }
      assert NodeOk(State().nodes[t], device.disk) && State().nodes[t] == nodes[t];
      var read, bytes := ReadBlocks(nodes[t].blocks, nodes[t].size);
      if !read {
        return ErrIo, out, size;
      }
      out := bytes + buffer[|bytes|..];
      CompleteContent(device.disk, nodes[t].blocks, nodes[t].size);
      assert |bytes| == nodes[t].size ==> out[..nodes[t].size] == bytes;
      if Fnv1a64(out[..nodes[t].size]) != nodes[t].hash {
        return ErrInvalid, out, size;
      }
      return Ok, out, nodes[t].size;
    }

    /** The number of blocks on which the bitmap and the live block lists disagree. */
    method Fsck() returns (errors: nat)
      requires Valid()
      ensures errors == |FsckErrors(State())|
    {
      errors := 0;
      ghost var bad: set<nat> := {};
      var b := 0;
      while b < DATA_SECTORS
        invariant 0 <= b <= DATA_SECTORS && errors == |bad|
        invariant forall x :: x in bad <==> 0 <= x < b && FsckError(State(), x)
      {
        var referenced := false;
        var i := 0;
        while i < MAX_NODES
          invariant 0 <= i <= MAX_NODES
          invariant referenced <==> exists j :: 0 <= j < i && b in LiveBlocks(nodes[j])
        {
          if b in LiveBlocks(nodes[i]) {
            referenced := true;
          }
          i := i + 1;
        }
        assert referenced <==> LiveReferenced(State(), b) by {
          assert forall j :: 0 <= j < MAX_NODES ==> State().nodes[j] == nodes[j];
        }
        if bitmap[b] != referenced {
          errors := errors + 1;
          bad := bad + {b};
        }
        b := b + 1;
      }
      assert bad == FsckErrors(State());
    }
  }

  lemma CompleteContent(d: Disk, blocks: seq<nat>, size: nat)
    requires |blocks| <= BlocksFor(size)
    ensures |Content(d, blocks, size)| == size <==> |blocks| == BlocksFor(size)
  {
  }

  /** Block lists written with the images of `data` hold `data`. */
  lemma ImageContent(d: Disk, blocks: seq<nat>, data: seq<byte>, size: nat)
    requires |data| == Min(size, 512 * |blocks|) && (|blocks| > 0 ==> 512 * (|blocks| - 1) <= |data|)
    requires Imaged(d, blocks, data, |blocks|)
    ensures Content(d, blocks, size) == data
  {
  }

  /** The `i`-th block contributes its leading bytes to the content. */
  lemma ContentChunk(d: Disk, blocks: seq<nat>, size: nat, i: nat)
    requires i < |blocks| <= BlocksFor(size)
    ensures 512 * i <= size
    ensures var copy := Min(size - 512 * i, 512); var c := Content(d, blocks, size);
      && Min(size, 512 * (i + 1)) == 512 * i + copy <= |c|
      && c[..512 * i + copy] == c[..512 * i] + ReadSector(d, SectorOf(blocks[i]))[..copy]
  {
  }
}
