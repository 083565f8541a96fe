/**
 The value of a mounted v2 volume: node table, block bitmap, generation counters and disk
 sectors, with the two visible trees it encodes (the live one and the committed snapshot) and
 the ownership equation that ties the bitmap to the block lists.
 */
module MfsVolume {
  import opened Machine

  const SECTOR_SIZE: nat := 512
  const START_SECTOR: nat := 3072
  const METADATA_SECTORS: nat := 16
  const JOURNAL_SECTORS: nat := 2
  const DATA_START_SECTOR: nat := START_SECTOR + METADATA_SECTORS + JOURNAL_SECTORS
  const DATA_SECTORS: nat := 96
  const MAX_NODES: nat := 32
  const FILE_MAX_BLOCKS: nat := 16
  const MAX_FILE_BYTES: nat := FILE_MAX_BLOCKS * SECTOR_SIZE

  type Sector = s: seq<byte> | |s| == 512 witness seq(512, _ => 0)
  type Disk = map<nat, Sector>

  datatype Kind = Free | Dir | File

  /** One node table entry. `blocks` is the first `block_count` elements of the C array. */
  datatype Node = Node(
    active: bool, snapshotActive: bool,
    kind: Kind, snapshotKind: Kind,
    size: nat, hash: nat, generation: nat,
    snapshotSize: nat, snapshotHash: nat, snapshotGeneration: nat,
    blocks: seq<nat>, snapshotBlocks: seq<nat>,
    path: string)

  const BLANK: Node := Node(false, false, Free, Free, 0, 0, 0, 0, 0, 0, [], [], "")

  datatype Volume = Volume(
    nodes: seq<Node>, bitmap: seq<bool>, generation: nat, committed: nat, disk: Disk)

  // ---------- FNV-1a, the content hash ----------

  const FNV_OFFSET: nat := 14695981039346656037
  const FNV_PRIME: nat := 1099511628211

  function XorBits(a: nat, b: nat, width: nat): (r: nat)
  {
    if width == 0 then 0
    else (if a % 2 == b % 2 then 0 else 1) + 2 * XorBits(a / 2, b / 2, width - 1)
  }

  function FnvStep(h: nat, b: byte): nat
  {
    (((h / 256) * 256 + XorBits(h % 256, b, 8)) * FNV_PRIME) % TWO64
  }

  function Fnv1a64(data: seq<byte>): nat
  {
    if data == [] then FNV_OFFSET
    else FnvStep(Fnv1a64(data[..|data| - 1]), data[|data| - 1])
  }

  // ---------- Blocks and file contents ----------

  function SectorOf(block: nat): nat { DATA_START_SECTOR + block }

  function ReadSector(d: Disk, sector: nat): Sector
  {
    if sector in d then d[sector] else seq(512, _ => 0)
  }

  function BlocksFor(size: nat): nat { (size + SECTOR_SIZE - 1) / SECTOR_SIZE }

  /** The bytes that `blocks` hold of a file of `size` bytes (all of them when the list is complete). */
  function Content(d: Disk, blocks: seq<nat>, size: nat): (c: seq<byte>)
    ensures |c| == Min(size, 512 * |blocks|)
    ensures forall k :: 0 <= k < |c| ==> c[k] == ReadSector(d, SectorOf(blocks[k / 512]))[k % 512]
  {
    seq(Min(size, 512 * |blocks|), k requires 0 <= k < 512 * |blocks| =>
      ReadSector(d, SectorOf(blocks[k / 512]))[k % 512])
  }

  lemma ContentFrame(d: Disk, d': Disk, blocks: seq<nat>, size: nat)
    requires forall b :: b in blocks ==> ReadSector(d, SectorOf(b)) == ReadSector(d', SectorOf(b))
    ensures Content(d, blocks, size) == Content(d', blocks, size)
  {
  }

  // ---------- The two trees ----------

  datatype Entry = Directory | Regular(size: nat, hash: nat, bytes: seq<byte>)
  datatype Slot = Absent | Present(path: string, entry: Entry)

  function LiveSlot(n: Node, d: Disk): Slot
  {
    if !n.active then Absent
    else Present(n.path, if n.kind.File? then Regular(n.size, n.hash, Content(d, n.blocks, n.size)) else Directory)
  }

  function SnapSlot(n: Node, d: Disk): Slot
  {
    if !n.snapshotActive then Absent
    else Present(n.path, if n.snapshotKind.File?
                         then Regular(n.snapshotSize, n.snapshotHash, Content(d, n.snapshotBlocks, n.snapshotSize))
                         else Directory)
  }

  function LiveView(v: Volume): (s: seq<Slot>)
    ensures |s| == |v.nodes|
    ensures forall i {:trigger s[i]} :: 0 <= i < |s| ==> s[i] == LiveSlot(v.nodes[i], v.disk)
  {
    seq(|v.nodes|, i requires 0 <= i < |v.nodes| => LiveSlot(v.nodes[i], v.disk))
  }

  function SnapView(v: Volume): (s: seq<Slot>)
    ensures |s| == |v.nodes|
    ensures forall i {:trigger s[i]} :: 0 <= i < |s| ==> s[i] == SnapSlot(v.nodes[i], v.disk)
  {
    seq(|v.nodes|, i requires 0 <= i < |v.nodes| => SnapSlot(v.nodes[i], v.disk))
  }

  // ---------- Block ownership ----------

  function LiveBlocks(n: Node): seq<nat> { if n.active && n.kind.File? then n.blocks else [] }
  function SnapBlocks(n: Node): seq<nat> { if n.snapshotActive && n.snapshotKind.File? then n.snapshotBlocks else [] }

  ghost function Owned(n: Node): multiset<nat>
  {
    multiset(LiveBlocks(n)) + multiset(SnapBlocks(n))
  }

  ghost function Sum(ms: seq<multiset<nat>>): multiset<nat>
  {
    if ms == [] then multiset{} else Sum(ms[..|ms| - 1]) + ms[|ms| - 1]
  }

  ghost function OwnedLists(nodes: seq<Node>): (ms: seq<multiset<nat>>)
    ensures |ms| == |nodes| && forall i {:trigger ms[i]} :: 0 <= i < |ms| ==> ms[i] == Owned(nodes[i])
  {
    seq(|nodes|, i requires 0 <= i < |nodes| => Owned(nodes[i]))
  }

  /** Every block reference of the node table, with multiplicity. */
  ghost function Refs(nodes: seq<Node>): multiset<nat>
  {
    Sum(OwnedLists(nodes))
  }

  ghost function Used(bitmap: seq<bool>): (u: set<nat>)
    ensures forall b :: b in u <==> 0 <= b < |bitmap| && bitmap[b]
  {
    set b: nat | b < |bitmap| && bitmap[b]
  }

  lemma {:induction false} SumUpdate(ms: seq<multiset<nat>>, i: nat, m: multiset<nat>)
    requires i < |ms|
    ensures Sum(ms[i := m]) + ms[i] == Sum(ms) + m
  {
    var last := |ms| - 1;
    if i == last {
      assert ms[i := m][..last] == ms[..last];
    } else {
      assert ms[i := m][..last] == ms[..last][i := m];
      SumUpdate(ms[..last], i, m);
      assert Sum(ms[i := m]) + ms[i] == (Sum(ms[..last][i := m]) + ms[i]) + ms[last];
    }
  }

  lemma RefsUpdate(nodes: seq<Node>, i: nat, n: Node)
    requires i < |nodes|
    ensures Refs(nodes[i := n]) + Owned(nodes[i]) == Refs(nodes) + Owned(n)
  {
    SumUpdate(OwnedLists(nodes), i, Owned(n));
    assert OwnedLists(nodes[i := n]) == OwnedLists(nodes)[i := Owned(n)];
  }

  lemma {:induction false} SumMember(ms: seq<multiset<nat>>, i: nat)
    requires i < |ms|
    ensures ms[i] <= Sum(ms)
  {
    if i < |ms| - 1 {
      SumMember(ms[..|ms| - 1], i);
    }
  }

  lemma RefsMember(nodes: seq<Node>, i: nat)
    requires i < |nodes|
    ensures Owned(nodes[i]) <= Refs(nodes)
  {
    SumMember(OwnedLists(nodes), i);
  }

  lemma {:induction false} SumOwner(ms: seq<multiset<nat>>, b: nat)
    requires b in Sum(ms)
    ensures exists i :: 0 <= i < |ms| && b in ms[i]
  {
    if b !in ms[|ms| - 1] {
      SumOwner(ms[..|ms| - 1], b);
      var i :| 0 <= i < |ms| - 1 && b in ms[..|ms| - 1][i];
      assert b in ms[i];
    }
  }

  lemma RefsOwner(nodes: seq<Node>, b: nat)
    requires b in Refs(nodes)
    ensures exists i :: 0 <= i < |nodes| && b in Owned(nodes[i])
  {
    SumOwner(OwnedLists(nodes), b);
    var i :| 0 <= i < |nodes| && b in OwnedLists(nodes)[i];
  }

  lemma {:induction false} SumEmpty(ms: seq<multiset<nat>>)
    requires forall i :: 0 <= i < |ms| ==> ms[i] == multiset{}
    ensures Sum(ms) == multiset{}
  {
    if ms != [] {
      SumEmpty(ms[..|ms| - 1]);
    }
  }

  lemma RefsBlank(nodes: seq<Node>)
    requires forall i :: 0 <= i < |nodes| ==> nodes[i] == BLANK
    ensures Refs(nodes) == multiset{}
  {
    SumEmpty(OwnedLists(nodes));
  }

  /** What a file half of a node must satisfy: bounded, and hashed correctly once complete. */
  predicate HalfOk(d: Disk, blocks: seq<nat>, size: nat, hash: nat)
  {
    && size <= MAX_FILE_BYTES
    && |blocks| <= BlocksFor(size)
    && (|blocks| == BlocksFor(size) ==> hash == Fnv1a64(Content(d, blocks, size)))
  }

  predicate NodeOk(n: Node, d: Disk)
  {
    && (n.active ==> n.kind != Free)
    && (n.snapshotActive ==> n.snapshotKind != Free)
    && (n.active && n.kind.File? ==> HalfOk(d, n.blocks, n.size, n.hash))
    && (n.snapshotActive && n.snapshotKind.File? ==> HalfOk(d, n.snapshotBlocks, n.snapshotSize, n.snapshotHash))
  }

  /**
   The invariant of every run: the references of all live and snapshot block lists, counted
   with multiplicity, are exactly the allocated blocks. Since the right-hand side is a set,
   every allocated block occurs exactly once and no free block occurs at all. `pending` holds
   blocks allocated by a call in progress and not yet attached to a node.
   */
  ghost predicate Balanced(nodes: seq<Node>, bitmap: seq<bool>, pending: multiset<nat>)
  {
    Refs(nodes) + pending == multiset(Used(bitmap))
  }

  ghost predicate Consistent(v: Volume)
  {
    && |v.nodes| == MAX_NODES
    && |v.bitmap| == DATA_SECTORS
    && Balanced(v.nodes, v.bitmap, multiset{})
    && forall i {:trigger NodeOk(v.nodes[i], v.disk)} :: 0 <= i < |v.nodes| ==> NodeOk(v.nodes[i], v.disk)
  }

  /** Reading of the invariant: one owner and one position for each allocated block. */
  lemma OwnedOnce(v: Volume, b: nat)
    requires Consistent(v)
    ensures b < |v.bitmap| && v.bitmap[b] ==> Refs(v.nodes)[b] == 1
    ensures !(b < |v.bitmap| && v.bitmap[b]) ==> Refs(v.nodes)[b] == 0
  {
    assert Refs(v.nodes) == multiset(Used(v.bitmap));
  }

  /** Blocks referenced by a node are allocated. */
  lemma OwnedIsUsed(nodes: seq<Node>, bitmap: seq<bool>, pending: multiset<nat>, i: nat, b: nat)
    requires Balanced(nodes, bitmap, pending) && i < |nodes| && b in Owned(nodes[i])
    ensures b < |bitmap| && bitmap[b] && pending[b] == 0
  {
    RefsMember(nodes, i);
    assert Refs(nodes)[b] >= 1;
    assert multiset(Used(bitmap))[b] >= 1;
  }

  /** Two different nodes never share a block. */
  lemma OwnersDisjoint(v: Volume, i: nat, j: nat, b: nat)
    requires Consistent(v) && i < |v.nodes| && j < |v.nodes| && i != j
    requires b in Owned(v.nodes[i])
    ensures b !in Owned(v.nodes[j])
  {
    var blanked := v.nodes[i := BLANK];
    RefsUpdate(v.nodes, i, BLANK);
    RefsMember(blanked, j);
    OwnedOnce(v, b);
    var mine, theirs, all := Owned(v.nodes[i]), Owned(v.nodes[j]), Refs(v.nodes);
    assert blanked[j] == v.nodes[j];
    assert Refs(blanked) + mine == all + Owned(BLANK);
    assert (Refs(blanked) + mine)[b] == Refs(blanked)[b] + mine[b];
    assert (all + Owned(BLANK))[b] == all[b] + Owned(BLANK)[b];
    assert theirs[b] <= Refs(blanked)[b];
  }

  // ---------- Disk writes ----------

  datatype SectorWrite = SectorWrite(sector: nat, landed: Sector)

  /** The disk after a sequence of sector writes. */
  function ApplyWrites(d: Disk, ws: seq<SectorWrite>): Disk
  {
    if ws == [] then d else ApplyWrites(d, ws[..|ws| - 1])[ws[|ws| - 1].sector := ws[|ws| - 1].landed]
  }

  lemma {:induction false} ApplyFrame(d: Disk, ws: seq<SectorWrite>, sector: nat)
    requires forall w :: w in ws ==> w.sector != sector
    ensures ReadSector(ApplyWrites(d, ws), sector) == ReadSector(d, sector)
  {
    if ws != [] {
      assert ws[|ws| - 1] in ws;
      ApplyFrame(d, ws[..|ws| - 1], sector);
    }
  }

  /** `d'` agrees with `d` on the sector of every block that is allocated in `bitmap`. */
  predicate SameUsed(bitmap: seq<bool>, d: Disk, d': Disk)
  {
    forall b :: 0 <= b < |bitmap| && bitmap[b] ==> ReadSector(d, SectorOf(b)) == ReadSector(d', SectorOf(b))
  }

  /** A change of disk that spares a node's own blocks spares both of its slots and its checks. */
  lemma SlotFrame(n: Node, d: Disk, d': Disk)
    requires forall b :: b in LiveBlocks(n) ==> ReadSector(d, SectorOf(b)) == ReadSector(d', SectorOf(b))
    requires forall b :: b in SnapBlocks(n) ==> ReadSector(d, SectorOf(b)) == ReadSector(d', SectorOf(b))
    ensures LiveSlot(n, d) == LiveSlot(n, d') && SnapSlot(n, d) == SnapSlot(n, d')
    ensures NodeOk(n, d) <==> NodeOk(n, d')
  {
    if n.active && n.kind.File? { ContentFrame(d, d', n.blocks, n.size); }
    if n.snapshotActive && n.snapshotKind.File? { ContentFrame(d, d', n.snapshotBlocks, n.snapshotSize); }
  }

  /** Writing only outside the allocated blocks preserves every slot of both trees. */
  lemma TableFrame(nodes: seq<Node>, bitmap: seq<bool>, pending: multiset<nat>, d: Disk, d': Disk)
    requires Balanced(nodes, bitmap, pending) && SameUsed(bitmap, d, d')
    ensures forall i {:trigger LiveSlot(nodes[i], d')} {:trigger SnapSlot(nodes[i], d')} :: 0 <= i < |nodes| ==>
      LiveSlot(nodes[i], d) == LiveSlot(nodes[i], d') && SnapSlot(nodes[i], d) == SnapSlot(nodes[i], d')
    ensures forall i {:trigger NodeOk(nodes[i], d')} :: 0 <= i < |nodes| ==>
      (NodeOk(nodes[i], d) <==> NodeOk(nodes[i], d'))
  {
    forall i | 0 <= i < |nodes|
      ensures LiveSlot(nodes[i], d) == LiveSlot(nodes[i], d') && SnapSlot(nodes[i], d) == SnapSlot(nodes[i], d')
      ensures NodeOk(nodes[i], d) <==> NodeOk(nodes[i], d')
    {
      forall b | b in LiveBlocks(nodes[i]) || b in SnapBlocks(nodes[i])
        ensures ReadSector(d, SectorOf(b)) == ReadSector(d', SectorOf(b))
      {
        assert b in Owned(nodes[i]);
        OwnedIsUsed(nodes, bitmap, pending, i, b);
      }
      SlotFrame(nodes[i], d, d');
    }
  }
}
