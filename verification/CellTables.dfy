/**
 The tables behind the AI-cell resource protocol as values: who holds which core, NIC queue,
 workspace, arena and model reference, the invariant that ties the tables to the cells, and
 the proof that preparing, failing to prepare and stopping keep it.
 */
module CellTables {
  import opened Machine

  const MAX_AI_CELLS: nat := 5
  const MAX_NIC_QUEUES: nat := 4
  const MAX_WORKSPACES: nat := 2
  const MAX_MODEL_ARENAS: nat := 4
  const MAX_ARENAS: nat := 32
  const MAX_CORE_LEASES: nat := 4096
  const MAX_RUNTIME_CELLS: nat := 4
  const MASK_CPUS: nat := 32

  type CoreMask = m: set<nat> | forall k :: k in m ==> k < 32

  datatype CellState = Empty | Created | Ready | Running | Stopped | Failed
  datatype Manifest = Manifest(cores: CoreMask, model: nat, kvBytes: nat, sourceBytes: nat, queue: nat, workspace: nat)

  /** `arenas` lists the arena ids reserved so far, in the order KV cache, source index, build output, log. */
  datatype Cell = Cell(state: CellState, manifest: Manifest, arenas: seq<nat>)

  datatype Lease = Lease(active: bool, owner: nat, cores: CoreMask)
  datatype Role = Housekeeping | Scheduling | AiHot
  datatype Cpu = Cpu(online: bool, role: Role, leaseOwner: nat)
  datatype Model = Model(registered: bool, refs: nat)
  datatype ArenaState = Unused | Live | Destroyed
  datatype Arena = Arena(state: ArenaState, refs: nat)

  /** A value of all tables. */
  datatype Tables = Tables(
    cells: seq<Cell>, queueOwner: seq<nat>, workspaceOwner: seq<nat>, leases: seq<Lease>, cpus: seq<Cpu>,
    models: seq<Model>, arenas: seq<Arena>, bound: seq<Option<nat>>, net: map<nat, nat>)

  predicate Holds(c: Cell) { c.state.Ready? || c.state.Running? }

  predicate HoldsAt(cells: seq<Cell>, c: nat) { c < |cells| && Holds(cells[c]) }

  predicate Sized(t: Tables)
  {
    && |t.cells| == MAX_AI_CELLS && |t.queueOwner| == MAX_NIC_QUEUES && |t.workspaceOwner| == MAX_WORKSPACES + 1
    && |t.leases| == MAX_CORE_LEASES && |t.cpus| == MASK_CPUS && |t.models| == MAX_MODEL_ARENAS
    && |t.arenas| == MAX_ARENAS && |t.bound| == MAX_RUNTIME_CELLS
  }

  // ---------- Exclusive resources ----------

  /**
   An owner table (0 for free, cell id plus one otherwise) agrees with what the cells hold:
   every owned entry is held by its owner, and every held entry names its holder. As a table
   has one owner per entry, no two cells hold the same one.
   */
  predicate Agree(owner: seq<nat>, held: seq<set<nat>>)
  {
    && (forall r: nat :: r < |owner| && owner[r] != 0 ==> owner[r] <= |held| && r in held[owner[r] - 1])
    && (forall c: nat, r: nat {:trigger r in held[c]} :: c < |held| && r in held[c] ==>
      r < |owner| && owner[r] == c + 1)
  }

  function Assign(owner: seq<nat>, rs: set<nat>, value: nat): (o: seq<nat>)
    ensures |o| == |owner| && forall r :: 0 <= r < |o| ==> o[r] == if r in rs then value else owner[r]
  {
    seq(|owner|, r requires 0 <= r < |owner| => if r in rs then value else owner[r])
  }

  lemma AgreeAcquire(owner: seq<nat>, held: seq<set<nat>>, c: nat, rs: set<nat>)
    requires Agree(owner, held) && c < |held| && held[c] == {}
    requires forall r :: r in rs ==> r < |owner| && owner[r] == 0
    ensures Agree(Assign(owner, rs, c + 1), held[c := rs])
  {
  }

  lemma AgreeRelease(owner: seq<nat>, held: seq<set<nat>>, c: nat)
    requires Agree(owner, held) && c < |held|
    ensures Agree(Assign(owner, held[c], 0), held[c := {}])
  {
  }

  lemma Exclusive(owner: seq<nat>, held: seq<set<nat>>, c: nat, d: nat)
    requires Agree(owner, held) && c < |held| && d < |held| && c != d
    ensures held[c] !! held[d]
  {
  }

  function CoresHeld(cells: seq<Cell>): (h: seq<set<nat>>)
    ensures |h| == |cells| &&
      forall c :: 0 <= c < |h| ==> h[c] == if Holds(cells[c]) then cells[c].manifest.cores else {}
  {
    seq(|cells|, c requires 0 <= c < |cells| => if Holds(cells[c]) then cells[c].manifest.cores else {})
  }

  function QueuesHeld(cells: seq<Cell>): (h: seq<set<nat>>)
    ensures |h| == |cells| &&
      forall c :: 0 <= c < |h| ==> h[c] == if Holds(cells[c]) then {cells[c].manifest.queue} else {}
  {
    seq(|cells|, c requires 0 <= c < |cells| => if Holds(cells[c]) then {cells[c].manifest.queue} else {})
  }

  function WorkspacesHeld(cells: seq<Cell>): (h: seq<set<nat>>)
    ensures |h| == |cells| &&
      forall c :: 0 <= c < |h| ==> h[c] == if Holds(cells[c]) then {cells[c].manifest.workspace} else {}
  {
    seq(|cells|, c requires 0 <= c < |cells| => if Holds(cells[c]) then {cells[c].manifest.workspace} else {})
  }

  /** A CPU is hot exactly while it is leased, and then it is online. */
  predicate CpuOk(u: Cpu) { (u.role.AiHot? <==> u.leaseOwner != 0) && (u.role.AiHot? ==> u.online) }

  function LeaseOwners(cpus: seq<Cpu>): (o: seq<nat>)
    ensures |o| == |cpus| && forall k :: 0 <= k < |o| ==> o[k] == cpus[k].leaseOwner
  {
    seq(|cpus|, k requires 0 <= k < |cpus| => cpus[k].leaseOwner)
  }

  predicate CpusOk(cells: seq<Cell>, cpus: seq<Cpu>)
  {
    AllCpusOk(cpus) && Agree(LeaseOwners(cpus), CoresHeld(cells))
  }

  /** The active leases are one per holder, with its mask. */
  ghost predicate LeasesOk(cells: seq<Cell>, leases: seq<Lease>)
  {
    && (forall i :: 0 <= i < |leases| && leases[i].active ==>
          HoldsAt(cells, leases[i].owner) && leases[i].cores == cells[leases[i].owner].manifest.cores)
    && (forall i, j :: 0 <= i < j < |leases| && leases[i].active && leases[j].active ==>
      leases[i].owner != leases[j].owner)
    && (forall c :: HoldsAt(cells, c) ==> LeasedTo(leases, c))
  }

  predicate LeasedTo(leases: seq<Lease>, c: nat)
  {
    exists i :: 0 <= i < |leases| && leases[i].active && leases[i].owner == c
  }

  /** The network stack's bindings are those of the owner table. */
  predicate NetOk(owner: seq<nat>, net: map<nat, nat>)
  {
    forall q :: 0 <= q < |owner| ==> (q in net <==> owner[q] != 0) && (q in net ==> net[q] + 1 == owner[q])
  }

  // ---------- Arenas, models, runtime ----------

  /** KV cache, source index, build output and log arena of cell `c`. */
  function ArenaIds(c: nat): seq<nat> { [4 + c, 8 + c, 12 + c, 16 + c] }

  ghost predicate HeldArena(cells: seq<Cell>, id: nat)
  {
    exists c :: HoldsAt(cells, c) && id in ArenaIds(c)
  }

  /** Above the model arenas, the live ones are exactly those of holders, and nobody references them. */
  ghost predicate ArenasOk(cells: seq<Cell>, arenas: seq<Arena>)
  {
    && (forall id :: MAX_MODEL_ARENAS <= id < |arenas| ==>
      (arenas[id].state.Live? <==> HeldArena(cells, id)) && arenas[id].refs == 0)
    && (forall c :: 0 <= c < |cells| ==> cells[c].arenas == if Holds(cells[c]) then ArenaIds(c) else [])
  }

  function Holders(cells: seq<Cell>, model: nat): (h: set<nat>)
    ensures forall c :: c in h <==> 0 <= c < |cells| && Holds(cells[c]) && cells[c].manifest.model == model
  {
    set c: nat | c < |cells| && Holds(cells[c]) && cells[c].manifest.model == model
  }

  /** A model's count and its mirror in the arena manager are twice its holders. */
  predicate ModelsOk(cells: seq<Cell>, models: seq<Model>, arenas: seq<Arena>)
    requires |models| <= |arenas|
  {
    forall m :: 0 <= m < |models| ==>
      && (models[m].registered <==> arenas[m].state.Live?)
      && models[m].refs == arenas[m].refs == 2 * |Holders(cells, m)|
      && (!models[m].registered ==> models[m].refs == 0)
  }

  /** Holders are bound in the runtime; cells not yet prepared, and stopped ones, are not. */
  predicate RuntimeOk(cells: seq<Cell>, bound: seq<Option<nat>>)
  {
    forall c :: 0 <= c < |cells| ==>
      && (Holds(cells[c]) ==> c < |bound| && bound[c] == Some(cells[c].manifest.model))
      && (c < |bound| && (cells[c].state.Empty? || cells[c].state.Created? || cells[c].state.Stopped?) ==>
        bound[c] == None)
  }

  predicate ManifestOk(m: Manifest)
  {
    m.cores != {} && m.kvBytes != 0 && m.sourceBytes != 0 && 1 <= m.workspace <= MAX_WORKSPACES &&
      m.queue < MAX_NIC_QUEUES
  }

  predicate CellsOk(cells: seq<Cell>)
  {
    forall c :: 0 <= c < |cells| ==>
      && (!cells[c].state.Empty? ==> ManifestOk(cells[c].manifest))
      && (Holds(cells[c]) ==> cells[c].manifest.model < MAX_MODEL_ARENAS && 0 !in cells[c].manifest.cores)
  }

  /** Cores, leases, queues and workspaces have one holder each. */
  ghost predicate ExclusiveOk(t: Tables)
  {
    && CpusOk(t.cells, t.cpus)
    && LeasesOk(t.cells, t.leases)
    && Agree(t.queueOwner, QueuesHeld(t.cells)) && NetOk(t.queueOwner, t.net)
    && Agree(t.workspaceOwner, WorkspacesHeld(t.cells))
  }

  /** Arenas have one holder each, model references are counted. */
  ghost predicate MemoryOk(t: Tables)
    requires |t.models| <= |t.arenas|
  {
    ArenasOk(t.cells, t.arenas) && ModelsOk(t.cells, t.models, t.arenas)
  }

  /** The protocol invariant. */
  ghost predicate Inv(t: Tables)
  {
    && Sized(t)
    && CellsOk(t.cells) && RuntimeOk(t.cells, t.bound)
    && ExclusiveOk(t) && MemoryOk(t)
  }

  // ---------- Table updates ----------

  function MarkCpus(cpus: seq<Cpu>, ks: set<nat>, owner: nat): (r: seq<Cpu>)
    ensures |r| == |cpus|
    ensures forall k :: 0 <= k < |r| ==>
      r[k] == if k in ks then cpus[k].(role := AiHot, leaseOwner := owner) else cpus[k]
  {
    seq(|cpus|, k requires 0 <= k < |cpus| => if k in ks then cpus[k].(role := AiHot, leaseOwner := owner) else cpus[k])
  }

  function FreeCpus(cpus: seq<Cpu>, ks: set<nat>): (r: seq<Cpu>)
    ensures |r| == |cpus|
    ensures forall k :: 0 <= k < |r| ==>
      r[k] == if k in ks then cpus[k].(role := Scheduling, leaseOwner := 0) else cpus[k]
  {
    seq(|cpus|, k requires 0 <= k < |cpus| =>
      if k in ks then cpus[k].(role := Scheduling, leaseOwner := 0) else cpus[k])
  }

  predicate Leasable(u: Cpu, owner: nat) { u.online && u.role.Scheduling? &&
      (u.leaseOwner == 0 || u.leaseOwner == owner + 1) }

  predicate Leased(u: Cpu, owner: nat) { u.online && u.role.AiHot? && u.leaseOwner == owner + 1 }

  lemma MarkStep(cpus: seq<Cpu>, ks: set<nat>, owner: nat, k: nat)
    requires k < |cpus| && k !in ks
    ensures MarkCpus(cpus, ks + {k}, owner) ==
      MarkCpus(cpus, ks, owner)[k := cpus[k].(role := AiHot, leaseOwner := owner)]
  {
  }

  lemma FreeStep(cpus: seq<Cpu>, ks: set<nat>, k: nat)
    requires k < |cpus| && k !in ks
    ensures FreeCpus(cpus, ks + {k}) == FreeCpus(cpus, ks)[k := cpus[k].(role := Scheduling, leaseOwner := 0)]
  {
  }

  lemma UnmarkRestores(cpus: seq<Cpu>, ks: set<nat>, owner: nat)
    requires forall k :: 0 <= k < |cpus| ==> CpuOk(cpus[k])
    requires forall k :: k in ks && k < |cpus| ==> cpus[k].role.Scheduling?
    ensures FreeCpus(MarkCpus(cpus, ks, owner), ks) == cpus
  {
  }

  predicate AllLeasable(cpus: seq<Cpu>, mask: CoreMask, owner: nat)
    requires |cpus| == MASK_CPUS
  {
    forall k :: k in mask ==> Leasable(cpus[k], owner)
  }

  predicate AllCpusOk(cpus: seq<Cpu>) { forall k :: 0 <= k < |cpus| ==> CpuOk(cpus[k]) }

  /** Exactly when a lease can be granted. */
  predicate CanLease(cpus: seq<Cpu>, leases: seq<Lease>, mask: CoreMask, owner: nat)
    requires |cpus| == MASK_CPUS
  {
    && ValidMask(cpus, mask) && UsedCores(leases) * mask == {}
    && FirstIdle(leases, 0) < |leases| && AllLeasable(cpus, mask, owner)
  }

  /** Cores of all active leases. */
  function UsedCores(leases: seq<Lease>): set<nat>
  {
    if leases == [] then {}
    else
      var rest := UsedCores(leases[..|leases| - 1]);
      if leases[|leases| - 1].active then rest + leases[|leases| - 1].cores else rest
  }

  lemma {:induction false} UsedCoresExact(leases: seq<Lease>, k: nat)
    ensures k in UsedCores(leases) <==> exists i :: 0 <= i < |leases| && leases[i].active && k in leases[i].cores
  {
    if leases != [] {
      var rest := leases[..|leases| - 1];
      UsedCoresExact(rest, k);
      if i :| 0 <= i < |rest| && rest[i].active && k in rest[i].cores {
        assert leases[i] == rest[i];
      }
      if i :| 0 <= i < |leases| - 1 && leases[i].active && k in leases[i].cores {
        assert leases[i] == rest[i];
      }
    }
  }

  predicate ValidMask(cpus: seq<Cpu>, mask: CoreMask)
    requires |cpus| == MASK_CPUS
  {
    mask != {} && 0 !in mask && forall k :: k in mask ==> cpus[k].online && cpus[k].role.Scheduling?
  }

  function FirstIdle(leases: seq<Lease>, i: nat): (r: nat)
    requires i <= |leases|
    ensures i <= r <= |leases|
    ensures r < |leases| ==> !leases[r].active
    ensures forall k :: i <= k < r ==> leases[k].active
    decreases |leases| - i
  {
    if i == |leases| || !leases[i].active then i else FirstIdle(leases, i + 1)
  }

  predicate Mirrored(models: seq<Model>, arenas: seq<Arena>)
  {
    && |models| == MAX_MODEL_ARENAS && |arenas| == MAX_ARENAS
    && forall m :: 0 <= m < |models| ==>
         && (models[m].registered <==> arenas[m].state.Live?)
         && models[m].refs == arenas[m].refs
         && (!models[m].registered ==> models[m].refs == 0)
  }

  function AddModelRef(models: seq<Model>, m: nat, d: int): seq<Model>
    requires m < |models| && models[m].refs + d >= 0
  {
    models[m := models[m].(refs := models[m].refs + d)]
  }

  function AddArenaRef(arenas: seq<Arena>, m: nat, d: int): seq<Arena>
    requires m < |arenas| && arenas[m].refs + d >= 0
  {
    arenas[m := arenas[m].(refs := arenas[m].refs + d)]
  }

  /** Arenas agree on what is live; an idle entry may have been reset. */
  predicate SameArenas(a: seq<Arena>, b: seq<Arena>)
  {
    |a| == |b| &&
      forall id :: 0 <= id < |a| ==> b[id] == a[id] || (!a[id].state.Live? && !b[id].state.Live? && b[id].refs == 0)
  }

  function SetArenas(arenas: seq<Arena>, ids: seq<nat>, state: ArenaState): (r: seq<Arena>)
    ensures |r| == |arenas| && forall id :: 0 <= id < |r| ==> r[id] == if id in ids then Arena(state, 0) else arenas[id]
  {
    seq(|arenas|, id requires 0 <= id < |arenas| => if id in ids then Arena(state, 0) else arenas[id])
  }

  /** Leases agree on what is active; an idle slot may remember another owner. */
  predicate SameLeases(a: seq<Lease>, b: seq<Lease>)
  {
    |a| == |b| && forall i :: 0 <= i < |a| ==> b[i] == a[i] || (!a[i].active && !b[i].active)
  }

  /** The only active lease of `owner` is at `at`; there is none when `at` is the table size. */
  predicate OnlyLease(leases: seq<Lease>, owner: nat, at: nat)
  {
    && at <= |leases| && (at < |leases| ==> leases[at].active && leases[at].owner == owner)
    && forall i :: 0 <= i < |leases| && i != at ==> !(leases[i].active && leases[i].owner == owner)
  }

  /** Tables equal in everything a cell can own. */
  predicate SameOwnership(t: Tables, t': Tables)
  {
    && t'.queueOwner == t.queueOwner && t'.workspaceOwner == t.workspaceOwner && t'.net == t.net
    && t'.cpus == t.cpus && t'.models == t.models
    && SameLeases(t.leases, t'.leases) && SameArenas(t.arenas, t'.arenas)
  }

  /** The runtime entry after a failed prepare: marked bound by a tokenizer failure, untouched by any other. */
  predicate LeftBound(bound: seq<Option<nat>>, bound': seq<Option<nat>>, c: nat, model: nat, tokenizerFailed: bool)
  {
    if tokenizerFailed then c < |bound| && bound[c] == None && bound' == bound[c := Some(model)] else bound' == bound
  }

  /**
   A failed prepare: the cell is failed and everything else is as before, except that a
   tokenizer failure leaves the runtime entry of the cell marked bound.
   */
  predicate PrepareFailed(t: Tables, t': Tables, c: nat, tokenizerFailed: bool)
    requires c < |t.cells|
  {
    && t'.cells == t.cells[c := t.cells[c].(state := Failed)]
    && SameOwnership(t, t')
    && LeftBound(t.bound, t'.bound, c, t.cells[c].manifest.model, tokenizerFailed)
  }

  /** Cores, queue and workspace of the manifest were free and are now the cell's. */
  predicate TookExclusive(t: Tables, t': Tables, c: nat)
    requires Sized(t) && c < |t.cells|
  {
    var m := t.cells[c].manifest;
    && CanLease(t.cpus, t.leases, m.cores, c)
    && t'.cpus == MarkCpus(t.cpus, m.cores, c + 1)
    && t'.leases == t.leases[FirstIdle(t.leases, 0) := Lease(true, c, m.cores)]
    && m.queue < MAX_NIC_QUEUES && t.queueOwner[m.queue] == 0
    && t'.queueOwner == t.queueOwner[m.queue := c + 1] && t'.net == t.net[m.queue := c]
    && 1 <= m.workspace <= MAX_WORKSPACES && t.workspaceOwner[m.workspace] == 0
    && t'.workspaceOwner == t.workspaceOwner[m.workspace := c + 1]
  }

  /** One model reference and the arenas taken: the tables before the runtime binding. */
  predicate TookArenas(t: Tables, t': Tables, c: nat)
    requires Sized(t) && c < |t.cells|
  {
    var m := t.cells[c].manifest.model;
    && t'.cells == t.cells[c := t.cells[c].(arenas := ArenaIds(c))]
    && m < MAX_MODEL_ARENAS && t.models[m].registered && t'.models == AddModelRef(t.models, m, 1)
    && (forall id :: id in ArenaIds(c) ==> id < MAX_ARENAS && !t.arenas[id].state.Live?)
    && t'.arenas == SetArenas(AddArenaRef(t.arenas, m, 1), ArenaIds(c), Live)
  }

  /** The arenas were free and are now live, the model has two more references. */
  predicate TookMemory(t: Tables, t': Tables, c: nat)
    requires Sized(t) && c < |t.cells|
  {
    var m := t.cells[c].manifest.model;
    && m < MAX_MODEL_ARENAS && t.models[m].registered && t'.models == AddModelRef(t.models, m, 2)
    && (forall id :: id in ArenaIds(c) ==> id < MAX_ARENAS && !t.arenas[id].state.Live?)
    && t'.arenas == AddArenaRef(SetArenas(t.arenas, ArenaIds(c), Live), m, 2)
  }

  /** Queue, workspace and arenas of the manifest are free. */
  predicate PlaceFree(t: Tables, c: nat)
    requires Sized(t) && c < |t.cells|
  {
    var m := t.cells[c].manifest;
    && m.queue < MAX_NIC_QUEUES && t.queueOwner[m.queue] == 0
    && 1 <= m.workspace <= MAX_WORKSPACES && t.workspaceOwner[m.workspace] == 0
    && (forall id :: id in ArenaIds(c) ==> id < MAX_ARENAS && !t.arenas[id].state.Live?)
  }

  /** Everything a prepare acquires is there to be had. */
  predicate Admits(t: Tables, c: nat)
    requires Sized(t) && c < |t.cells|
  {
    var m := t.cells[c].manifest;
    && m.model < MAX_MODEL_ARENAS && t.models[m.model].registered && CanLease(t.cpus, t.leases, m.cores, c)
    && PlaceFree(t, c) && c < MAX_RUNTIME_CELLS && t.bound[c] == None
  }

  function Prepared(cells: seq<Cell>, c: nat): Cell
    requires c < |cells|
  {
    cells[c].(state := Ready, arenas := ArenaIds(c))
  }

  /** A successful prepare. */
  predicate PrepareDone(t: Tables, t': Tables, c: nat)
    requires Sized(t) && c < |t.cells|
  {
    && t'.cells == t.cells[c := Prepared(t.cells, c)]
    && TookExclusive(t, t', c) && TookMemory(t, t', c)
    && c < MAX_RUNTIME_CELLS && t.bound[c] == None && t'.bound == t.bound[c := Some(t.cells[c].manifest.model)]
  }

  /** Cores, lease, queue and workspace of the cell are free again. */
  predicate GaveExclusive(t: Tables, t': Tables, c: nat, at: nat)
    requires Sized(t) && c < |t.cells|
  {
    var m := t.cells[c].manifest;
    && t'.cpus == FreeCpus(t.cpus, m.cores)
    && at < |t.leases| && OnlyLease(t.leases, c, at) && t'.leases == t.leases[at := Lease(false, c, {})]
    && m.queue < MAX_NIC_QUEUES && t'.queueOwner == t.queueOwner[m.queue := 0] && t'.net == t.net - {m.queue}
    && m.workspace <= MAX_WORKSPACES && t'.workspaceOwner == t.workspaceOwner[m.workspace := 0]
  }

  /** The cell's arenas are destroyed and both model references are gone. */
  predicate GaveMemory(t: Tables, t': Tables, c: nat)
    requires Sized(t) && c < |t.cells|
  {
    var m := t.cells[c].manifest.model;
    && m < MAX_MODEL_ARENAS && t.models[m].refs >= 2 && t'.models == AddModelRef(t.models, m, -2)
    && t.arenas[m].refs >= 2 && t'.arenas == SetArenas(AddArenaRef(t.arenas, m, -2), ArenaIds(c), Destroyed)
  }

  function Halted(cells: seq<Cell>, c: nat): Cell
    requires c < |cells|
  {
    cells[c].(state := Stopped, arenas := [])
  }

  predicate CellHalted(t: Tables, t': Tables, c: nat)
    requires Sized(t) && c < |t.cells|
  {
    && t'.cells == t.cells[c := Halted(t.cells, c)]
    && c < MAX_RUNTIME_CELLS && t'.bound == t.bound[c := None]
  }

  /** A stop. */
  predicate StopDone(t: Tables, t': Tables, c: nat, at: nat)
    requires Sized(t) && c < |t.cells|
  {
    CellHalted(t, t', c) && GaveExclusive(t, t', c, at) && GaveMemory(t, t', c)
  }

  // ---------- The invariant is kept ----------

  /** Cells that differ only in the state of a cell that held nothing and holds nothing. */
  predicate Relabelled(cells: seq<Cell>, cells': seq<Cell>, c: nat)
  {
    && c < |cells| == |cells'| && cells' == cells[c := cells'[c]]
    && Holds(cells'[c]) == Holds(cells[c]) && cells'[c].arenas == cells[c].arenas
    && (Holds(cells[c]) ==> cells'[c].manifest == cells[c].manifest)
  }

  lemma RelabelledSame(cells: seq<Cell>, cells': seq<Cell>, c: nat)
    requires Relabelled(cells, cells', c)
    ensures CoresHeld(cells') == CoresHeld(cells) && QueuesHeld(cells') == QueuesHeld(cells)
    ensures WorkspacesHeld(cells') == WorkspacesHeld(cells)
    ensures forall m :: Holders(cells', m) == Holders(cells, m)
    ensures forall d :: HoldsAt(cells', d) <==> HoldsAt(cells, d)
    ensures forall id :: HeldArena(cells', id) <==> HeldArena(cells, id)
  {
  }

  lemma LeasesCarry(cells: seq<Cell>, leases: seq<Lease>, cells': seq<Cell>, leases': seq<Lease>, c: nat)
    requires LeasesOk(cells, leases) && Relabelled(cells, cells', c) && SameLeases(leases, leases')
    ensures LeasesOk(cells', leases')
  {
    forall d | HoldsAt(cells', d) ensures LeasedTo(leases', d) {
      assert HoldsAt(cells, d);
      var i :| 0 <= i < |leases| && leases[i].active && leases[i].owner == d;
      assert leases'[i] == leases[i];
    }
  }

  lemma ArenasCarry(t: Tables, t': Tables, c: nat)
    requires Sized(t) && ArenasOk(t.cells, t.arenas) && ModelsOk(t.cells, t.models, t.arenas)
    requires Relabelled(t.cells, t'.cells, c) && SameArenas(t.arenas, t'.arenas) && t'.models == t.models
    ensures ArenasOk(t'.cells, t'.arenas) && ModelsOk(t'.cells, t'.models, t'.arenas)
  {
    RelabelledSame(t.cells, t'.cells, c);
  }

  /** A change of state that acquires and releases nothing keeps the invariant. */
  lemma InvCarry(t: Tables, t': Tables, c: nat)
    requires Inv(t) && Relabelled(t.cells, t'.cells, c) && SameOwnership(t, t') && |t'.bound| == |t.bound|
    requires CellsOk(t'.cells) && RuntimeOk(t'.cells, t'.bound)
    ensures Inv(t')
  {
    RelabelledSame(t.cells, t'.cells, c);
    assert ExclusiveOk(t);
    LeasesCarry(t.cells, t.leases, t'.cells, t'.leases, c);
    assert ExclusiveOk(t');
    ArenasCarry(t, t', c);
  }

  /** A failed prepare gives everything back. */
  lemma FailedKeeps(t: Tables, t': Tables, c: nat, tokenizerFailed: bool)
    requires Inv(t) && c < |t.cells| && t.cells[c].state.Created? && PrepareFailed(t, t', c, tokenizerFailed)
    ensures Inv(t')
  {
    InvCarry(t, t', c);
  }

  // Acquisition, table by table: cell `c` held nothing and `x`, its next value, holds.

  predicate Joins(cells: seq<Cell>, c: nat, x: Cell) { c < |cells| && !Holds(cells[c]) && Holds(x) }

  lemma LeasesJoin(cells: seq<Cell>, leases: seq<Lease>, c: nat, x: Cell, at: nat)
    requires LeasesOk(cells, leases) && Joins(cells, c, x) && at < |leases| && !leases[at].active
    ensures LeasesOk(cells[c := x], leases[at := Lease(true, c, x.manifest.cores)])
  {
    var cells', leases' := cells[c := x], leases[at := Lease(true, c, x.manifest.cores)];
    forall d | HoldsAt(cells', d) ensures LeasedTo(leases', d) {
      if d == c {
        assert leases'[at].active && leases'[at].owner == c;
      } else {
        assert HoldsAt(cells, d);
        var i :| 0 <= i < |leases| && leases[i].active && leases[i].owner == d;
        assert leases'[i] == leases[i];
      }
    }
  }

  lemma CpusJoin(cells: seq<Cell>, cpus: seq<Cpu>, c: nat, x: Cell)
    requires CpusOk(cells, cpus) && Joins(cells, c, x) && |cpus| == MASK_CPUS && AllLeasable(cpus, x.manifest.cores, c)
    ensures CpusOk(cells[c := x], MarkCpus(cpus, x.manifest.cores, c + 1))
  {
    var m := x.manifest.cores;
    assert forall k :: k in m ==> cpus[k].leaseOwner == 0 by {
      forall k | k in m ensures cpus[k].leaseOwner == 0 { assert CpuOk(cpus[k]) && Leasable(cpus[k], c); }
    }
    AgreeAcquire(LeaseOwners(cpus), CoresHeld(cells), c, m);
    assert LeaseOwners(MarkCpus(cpus, m, c + 1)) == Assign(LeaseOwners(cpus), m, c + 1);
    assert CoresHeld(cells[c := x]) == CoresHeld(cells)[c := m];
    var marked := MarkCpus(cpus, m, c + 1);
    forall k | 0 <= k < |cpus| ensures CpuOk(marked[k]) {
      assert CpuOk(cpus[k]);
    }
  }

  lemma QueuesJoin(cells: seq<Cell>, owner: seq<nat>, net: map<nat, nat>, c: nat, x: Cell)
    requires Agree(owner, QueuesHeld(cells)) && NetOk(owner, net) && Joins(cells, c, x)
    requires x.manifest.queue < |owner| && owner[x.manifest.queue] == 0
    ensures var q := x.manifest.queue;
      Agree(owner[q := c + 1], QueuesHeld(cells[c := x])) && NetOk(owner[q := c + 1], net[q := c])
  {
    var q := x.manifest.queue;
    AgreeAcquire(owner, QueuesHeld(cells), c, {q});
    assert owner[q := c + 1] == Assign(owner, {q}, c + 1);
    assert QueuesHeld(cells[c := x]) == QueuesHeld(cells)[c := {q}];
  }

  lemma WorkspacesJoin(cells: seq<Cell>, owner: seq<nat>, c: nat, x: Cell)
    requires Agree(owner, WorkspacesHeld(cells)) && Joins(cells, c, x)
    requires x.manifest.workspace < |owner| && owner[x.manifest.workspace] == 0
    ensures Agree(owner[x.manifest.workspace := c + 1], WorkspacesHeld(cells[c := x]))
  {
  }

  lemma ArenasJoin(cells: seq<Cell>, arenas: seq<Arena>, c: nat, x: Cell, m: nat)
    requires ArenasOk(cells, arenas) && Joins(cells, c, x) && x.arenas == ArenaIds(c) &&
      m < MAX_MODEL_ARENAS <= |arenas|
    ensures ArenasOk(cells[c := x], AddArenaRef(SetArenas(arenas, ArenaIds(c), Live), m, 2))
  {
  }

  lemma HoldersJoin(cells: seq<Cell>, c: nat, x: Cell, m: nat)
    requires Joins(cells, c, x)
    ensures |Holders(cells[c := x], m)| == |Holders(cells, m)| + if x.manifest.model == m then 1 else 0
  {
    assert c !in Holders(cells, m);
    assert Holders(cells[c := x], m) == Holders(cells, m) + if x.manifest.model == m then {c} else {};
  }

  lemma ModelsJoin(cells: seq<Cell>, models: seq<Model>, arenas: seq<Arena>, c: nat, x: Cell)
    requires |models| == MAX_MODEL_ARENAS && |arenas| == MAX_ARENAS && ModelsOk(cells, models, arenas) &&
      Joins(cells, c, x)
    requires x.manifest.model < |models| && models[x.manifest.model].registered
    ensures var m := x.manifest.model;
      ModelsOk(cells[c := x], AddModelRef(models, m, 2), AddArenaRef(SetArenas(arenas, ArenaIds(c), Live), m, 2))
  {
    forall m | 0 <= m < |models|
      ensures |Holders(cells[c := x], m)| == |Holders(cells, m)| + if x.manifest.model == m then 1 else 0
    {
      HoldersJoin(cells, c, x, m);
    }
  }

  lemma CellsJoin(cells: seq<Cell>, bound: seq<Option<nat>>, c: nat, x: Cell)
    requires CellsOk(cells) && RuntimeOk(cells, bound) && Joins(cells, c, x) && c < |bound|
    requires ManifestOk(x.manifest) && x.manifest.model < MAX_MODEL_ARENAS && 0 !in x.manifest.cores
    ensures CellsOk(cells[c := x]) && RuntimeOk(cells[c := x], bound[c := Some(x.manifest.model)])
  {
  }

  lemma DoneExclusive(t: Tables, t': Tables, c: nat)
    requires Sized(t) && ExclusiveOk(t) && c < |t.cells| && !Holds(t.cells[c])
    requires TookExclusive(t, t', c) && t'.cells == t.cells[c := Prepared(t.cells, c)]
    ensures ExclusiveOk(t')
  {
    var x := Prepared(t.cells, c);
    LeasesJoin(t.cells, t.leases, c, x, FirstIdle(t.leases, 0));
    CpusJoin(t.cells, t.cpus, c, x);
    QueuesJoin(t.cells, t.queueOwner, t.net, c, x);
    WorkspacesJoin(t.cells, t.workspaceOwner, c, x);
  }

  lemma DoneMemory(t: Tables, t': Tables, c: nat)
    requires Sized(t) && MemoryOk(t) && c < |t.cells| && !Holds(t.cells[c])
    requires TookMemory(t, t', c) && t'.cells == t.cells[c := Prepared(t.cells, c)]
    ensures |t'.models| == |t.models| && |t'.arenas| == |t.arenas| && MemoryOk(t')
  {
    var x := Prepared(t.cells, c);
    ArenasJoin(t.cells, t.arenas, c, x, x.manifest.model);
    ModelsJoin(t.cells, t.models, t.arenas, c, x);
  }

  /** A successful prepare keeps the invariant: nothing it took was held. */
  lemma DoneKeeps(t: Tables, t': Tables, c: nat)
    requires Inv(t) && c < |t.cells| && t.cells[c].state.Created? && PrepareDone(t, t', c)
    ensures Inv(t')
  {
    CellsJoin(t.cells, t.bound, c, Prepared(t.cells, c));
    DoneExclusive(t, t', c);
    DoneMemory(t, t', c);
  }

  // Release, table by table: cell `c` held and `x`, its next value, does not.

  predicate Leaves(cells: seq<Cell>, c: nat, x: Cell) { c < |cells| && Holds(cells[c]) && !Holds(x) &&
      x.manifest == cells[c].manifest }

  lemma LeasesLeave(cells: seq<Cell>, leases: seq<Lease>, c: nat, x: Cell, at: nat)
    requires LeasesOk(cells, leases) && Leaves(cells, c, x) && at < |leases| && OnlyLease(leases, c, at)
    ensures LeasesOk(cells[c := x], leases[at := Lease(false, c, {})])
  {
    var cells', leases' := cells[c := x], leases[at := Lease(false, c, {})];
    forall d | HoldsAt(cells', d) ensures LeasedTo(leases', d) {
      assert HoldsAt(cells, d) && d != c;
      var i :| 0 <= i < |leases| && leases[i].active && leases[i].owner == d;
      assert leases'[i] == leases[i];
    }
  }

  lemma CpusLeave(cells: seq<Cell>, cpus: seq<Cpu>, c: nat, x: Cell)
    requires CpusOk(cells, cpus) && Leaves(cells, c, x)
    ensures CpusOk(cells[c := x], FreeCpus(cpus, cells[c].manifest.cores))
  {
    var m := cells[c].manifest.cores;
    AgreeRelease(LeaseOwners(cpus), CoresHeld(cells), c);
    assert LeaseOwners(FreeCpus(cpus, m)) == Assign(LeaseOwners(cpus), m, 0);
    assert CoresHeld(cells[c := x]) == CoresHeld(cells)[c := {}];
    var freed := FreeCpus(cpus, m);
    forall k | 0 <= k < |cpus| ensures CpuOk(freed[k]) {
      assert CpuOk(cpus[k]);
    }
  }

  lemma QueuesLeave(cells: seq<Cell>, owner: seq<nat>, net: map<nat, nat>, c: nat, x: Cell)
    requires Agree(owner, QueuesHeld(cells)) && NetOk(owner, net) && Leaves(cells, c, x) &&
      cells[c].manifest.queue < |owner|
    ensures var q := cells[c].manifest.queue;
      Agree(owner[q := 0], QueuesHeld(cells[c := x])) && NetOk(owner[q := 0], net - {q})
  {
    var q := cells[c].manifest.queue;
    AgreeRelease(owner, QueuesHeld(cells), c);
    assert owner[q := 0] == Assign(owner, {q}, 0);
    assert QueuesHeld(cells[c := x]) == QueuesHeld(cells)[c := {}];
  }

  lemma WorkspacesLeave(cells: seq<Cell>, owner: seq<nat>, c: nat, x: Cell)
    requires Agree(owner, WorkspacesHeld(cells)) && Leaves(cells, c, x) && cells[c].manifest.workspace < |owner|
    ensures Agree(owner[cells[c].manifest.workspace := 0], WorkspacesHeld(cells[c := x]))
  {
    var w := cells[c].manifest.workspace;
    AgreeRelease(owner, WorkspacesHeld(cells), c);
    assert owner[w := 0] == Assign(owner, {w}, 0);
    assert WorkspacesHeld(cells[c := x]) == WorkspacesHeld(cells)[c := {}];
  }

  /** Only cells the runtime has an entry for hold, so cell 4 never does. */
  predicate RuntimeHolders(cells: seq<Cell>)
  {
    forall c :: 0 <= c < |cells| && Holds(cells[c]) ==> c < MAX_RUNTIME_CELLS
  }

  lemma HoldersInRuntime(cells: seq<Cell>, bound: seq<Option<nat>>)
    requires RuntimeOk(cells, bound) && |bound| == MAX_RUNTIME_CELLS
    ensures RuntimeHolders(cells)
  {
  }

  /** Cells 0 to 3 have disjoint arena ids; those of cell 4 collide with those of cell 0. */
  lemma ArenaIdsDisjoint(c: nat, d: nat, id: nat)
    requires c < MAX_RUNTIME_CELLS && d < MAX_RUNTIME_CELLS && id in ArenaIds(c) && id in ArenaIds(d)
    ensures c == d
  {
  }

  lemma HeldLeave(cells: seq<Cell>, c: nat, x: Cell, id: nat)
    requires Leaves(cells, c, x) && RuntimeHolders(cells)
    ensures HeldArena(cells[c := x], id) <==> HeldArena(cells, id) && id !in ArenaIds(c)
  {
  }

  lemma ArenasLeave(cells: seq<Cell>, arenas: seq<Arena>, c: nat, x: Cell, m: nat)
    requires ArenasOk(cells, arenas) && Leaves(cells, c, x) && x.arenas == [] && m < MAX_MODEL_ARENAS <= |arenas| &&
      arenas[m].refs >= 2
    requires RuntimeHolders(cells)
    ensures ArenasOk(cells[c := x], SetArenas(AddArenaRef(arenas, m, -2), ArenaIds(c), Destroyed))
  {
    forall id | 0 <= id < |arenas| ensures HeldArena(cells[c := x], id) <==>
      HeldArena(cells, id) && id !in ArenaIds(c) {
      HeldLeave(cells, c, x, id);
    }
  }

  lemma HoldersLeave(cells: seq<Cell>, c: nat, x: Cell, m: nat)
    requires Leaves(cells, c, x)
    ensures |Holders(cells, m)| == |Holders(cells[c := x], m)| + if x.manifest.model == m then 1 else 0
  {
    assert c !in Holders(cells[c := x], m);
    assert Holders(cells, m) == Holders(cells[c := x], m) + if x.manifest.model == m then {c} else {};
  }

  lemma ModelsLeave(cells: seq<Cell>, models: seq<Model>, arenas: seq<Arena>, c: nat, x: Cell)
    requires |models| == MAX_MODEL_ARENAS && |arenas| == MAX_ARENAS && ModelsOk(cells, models, arenas) &&
      Leaves(cells, c, x)
    requires x.manifest.model < |models|
    ensures var m := x.manifest.model;
      && models[m].refs >= 2 && models[m].registered && arenas[m].refs >= 2
      && ModelsOk(cells[c := x], AddModelRef(models, m, -2),
        SetArenas(AddArenaRef(arenas, m, -2), ArenaIds(c), Destroyed))
  {
    forall m | 0 <= m < |models|
      ensures |Holders(cells, m)| == |Holders(cells[c := x], m)| + if x.manifest.model == m then 1 else 0
    {
      HoldersLeave(cells, c, x, m);
    }
  }

  lemma CellsLeave(cells: seq<Cell>, bound: seq<Option<nat>>, c: nat, x: Cell)
    requires CellsOk(cells) && RuntimeOk(cells, bound) && Leaves(cells, c, x) && c < |bound| && x.state.Stopped?
    ensures CellsOk(cells[c := x]) && RuntimeOk(cells[c := x], bound[c := None])
  {
  }

  lemma StopExclusive(t: Tables, t': Tables, c: nat, at: nat)
    requires Sized(t) && ExclusiveOk(t) && c < |t.cells| && Holds(t.cells[c])
    requires GaveExclusive(t, t', c, at) && t'.cells == t.cells[c := Halted(t.cells, c)]
    ensures ExclusiveOk(t')
  {
    var x := Halted(t.cells, c);
    LeasesLeave(t.cells, t.leases, c, x, at);
    CpusLeave(t.cells, t.cpus, c, x);
    QueuesLeave(t.cells, t.queueOwner, t.net, c, x);
    WorkspacesLeave(t.cells, t.workspaceOwner, c, x);
  }

  lemma StopMemory(t: Tables, t': Tables, c: nat)
    requires Sized(t) && MemoryOk(t) && c < |t.cells| && Holds(t.cells[c])
    requires RuntimeHolders(t.cells)
    requires GaveMemory(t, t', c) && t'.cells == t.cells[c := Halted(t.cells, c)]
    ensures |t'.models| == |t.models| && |t'.arenas| == |t.arenas| && MemoryOk(t')
  {
    var x := Halted(t.cells, c);
    ArenasLeave(t.cells, t.arenas, c, x, x.manifest.model);
    ModelsLeave(t.cells, t.models, t.arenas, c, x);
  }

  /** A stop keeps the invariant. */
  lemma StopKeeps(t: Tables, t': Tables, c: nat, at: nat)
    requires Inv(t) && c < |t.cells| && t.cells[c].state.Running? && StopDone(t, t', c, at)
    ensures Inv(t')
  {
    HoldersInRuntime(t.cells, t.bound);
    CellsLeave(t.cells, t.bound, c, Halted(t.cells, c));
    StopExclusive(t, t', c, at);
    StopMemory(t, t', c);
  }

  lemma RefsUndo(models: seq<Model>, arenas: seq<Arena>, m: nat)
    requires m < |models| && m < |arenas|
    ensures AddModelRef(AddModelRef(models, m, 1), m, -1) == models
    ensures AddArenaRef(AddArenaRef(arenas, m, 1), m, -1) == arenas
  {
  }

  /** A reference given back after arenas were reset leaves the arenas as they were, up to resets. */
  lemma RefGivenBack(models: seq<Model>, arenas: seq<Arena>, m: nat, arenas': seq<Arena>)
    requires Mirrored(models, arenas) && m < MAX_MODEL_ARENAS && models[m].registered
    requires SameArenas(AddArenaRef(arenas, m, 1), arenas')
    ensures Mirrored(AddModelRef(models, m, 1), arenas') && arenas'[m].refs > 0
    ensures SameArenas(arenas, AddArenaRef(arenas', m, -1))
    ensures AddModelRef(AddModelRef(models, m, 1), m, -1) == models
  {
  }

  lemma MemoryMirrors(t: Tables)
    requires Sized(t) && MemoryOk(t)
    ensures Mirrored(t.models, t.arenas)
  {
  }

  /** What a cell that holds nothing can rely on before acquiring. */
  predicate Clean(t: Tables, c: nat)
  {
    && Sized(t) && c < |t.cells| && t.cells[c].arenas == []
    && (forall q :: 0 <= q < |t.queueOwner| ==> t.queueOwner[q] != c + 1) && NetOk(t.queueOwner, t.net)
    && (forall w :: 0 <= w < |t.workspaceOwner| ==> t.workspaceOwner[w] != c + 1)
    && AllCpusOk(t.cpus) && OnlyLease(t.leases, c, |t.leases|) && Mirrored(t.models, t.arenas)
  }

  lemma IdleIsClean(t: Tables, c: nat)
    requires Inv(t) && c < |t.cells| && !Holds(t.cells[c])
    ensures Clean(t, c)
  {
  }

  /** What the release path needs of a holder's exclusive resources; its lease is at `at`. */
  predicate ServingPlace(t: Tables, c: nat, at: nat)
    requires Sized(t) && c < |t.cells|
  {
    var m := t.cells[c].manifest;
    && m.queue < MAX_NIC_QUEUES && t.queueOwner[m.queue] == c + 1 && m.queue in t.net && t.net[m.queue] == c
    && m.workspace <= MAX_WORKSPACES && t.workspaceOwner[m.workspace] == c + 1
    && at < |t.leases| && OnlyLease(t.leases, c, at) && t.leases[at].cores == m.cores
    && (forall k :: k in m.cores ==> 1 <= k && Leased(t.cpus[k], c))
  }

  /** What the release path needs of a holder's memory and binding. */
  predicate ServingMemory(t: Tables, c: nat)
    requires Sized(t) && c < |t.cells|
  {
    var m := t.cells[c].manifest.model;
    && Mirrored(t.models, t.arenas)
    && c < MAX_RUNTIME_CELLS && t.bound[c] == Some(m) && m < MAX_MODEL_ARENAS && t.models[m].refs >= 2
    && t.cells[c].arenas == ArenaIds(c) && (forall id :: id in ArenaIds(c) ==> t.arenas[id] == Arena(Live, 0))
  }

  lemma CoresServe(cells: seq<Cell>, cpus: seq<Cpu>, c: nat, k: nat)
    requires CpusOk(cells, cpus) && HoldsAt(cells, c) && k in cells[c].manifest.cores && k < |cpus|
    ensures Leased(cpus[k], c)
  {
  }

  lemma LeaseServes(cells: seq<Cell>, leases: seq<Lease>, c: nat) returns (at: nat)
    requires LeasesOk(cells, leases) && HoldsAt(cells, c)
    ensures at < |leases| && OnlyLease(leases, c, at) && leases[at].cores == cells[c].manifest.cores
  {
    assert LeasedTo(leases, c);
    at :| 0 <= at < |leases| && leases[at].active && leases[at].owner == c;
  }

  lemma PlaceServes(t: Tables, c: nat) returns (at: nat)
    requires Sized(t) && ExclusiveOk(t) && HoldsAt(t.cells, c) && 0 !in t.cells[c].manifest.cores
    ensures ServingPlace(t, c, at)
  {
    var m := t.cells[c].manifest;
    at := LeaseServes(t.cells, t.leases, c);
    assert m.queue in QueuesHeld(t.cells)[c] && m.workspace in WorkspacesHeld(t.cells)[c];
    forall k | k in m.cores ensures 1 <= k && Leased(t.cpus[k], c) {
      CoresServe(t.cells, t.cpus, c, k);
    }
  }

  lemma MemoryServes(t: Tables, c: nat)
    requires Sized(t) && MemoryOk(t) && CellsOk(t.cells) && RuntimeOk(t.cells, t.bound) && HoldsAt(t.cells, c)
    ensures ServingMemory(t, c)
  {
  }

  lemma RefsTwice(models: seq<Model>, arenas: seq<Arena>, m: nat, d: int)
    requires m < |models| && m < |arenas| && models[m].refs + d >= 0 && models[m].refs + d + d >= 0
    requires arenas[m].refs + d >= 0 && arenas[m].refs + d + d >= 0
    ensures AddModelRef(AddModelRef(models, m, d), m, d) == AddModelRef(models, m, d + d)
    ensures AddArenaRef(AddArenaRef(arenas, m, d), m, d) == AddArenaRef(arenas, m, d + d)
  {
  }

  lemma ArenasUndone(arenas: seq<Arena>, ids: seq<nat>)
    requires forall id :: id in ids ==> id < |arenas| && !arenas[id].state.Live?
    ensures SameArenas(arenas, SetArenas(SetArenas(arenas, ids, Live), ids, Destroyed))
  {
  }

  /** Queue, workspace and arenas belong to the cell. */
  predicate OwnsPlace(t: Tables, c: nat)
    requires Sized(t) && c < |t.cells|
  {
    var m := t.cells[c].manifest;
    && t.cells[c].arenas == ArenaIds(c) &&
      (forall id :: id in ArenaIds(c) ==> id < MAX_ARENAS && t.arenas[id] == Arena(Live, 0))
    && m.queue < MAX_NIC_QUEUES && t.queueOwner[m.queue] == c + 1 && m.queue in t.net && t.net[m.queue] == c
    && m.workspace <= MAX_WORKSPACES && t.workspaceOwner[m.workspace] == c + 1
  }

  lemma TakenMirrors(t: Tables, s: Tables, c: nat)
    requires Clean(t, c) && TookArenas(t, s, c)
    ensures Mirrored(s.models, s.arenas)
  {
  }

  lemma TakenTwice(t: Tables, s: Tables, c: nat)
    requires Clean(t, c) && TookArenas(t, s, c)
    ensures var m := t.cells[c].manifest.model;
      && AddModelRef(s.models, m, 1) == AddModelRef(t.models, m, 2)
      && AddArenaRef(s.arenas, m, 1) == AddArenaRef(SetArenas(t.arenas, ArenaIds(c), Live), m, 2)
  {
  }

  lemma TakenPlace(t: Tables, s: Tables, c: nat)
    requires Clean(t, c) && TookExclusive(t, s, c) && TookArenas(t, s, c) && |s.bound| == MAX_RUNTIME_CELLS
    ensures Sized(s) && OwnsPlace(s, c)
  {
  }

  /** Giving the place back restores the tables from before it was taken. */
  lemma PlaceUndone(t: Tables, s: Tables, c: nat)
    requires Clean(t, c) && TookExclusive(t, s, c) && TookArenas(t, s, c)
    ensures s.cells[c := s.cells[c].(arenas := [])] == t.cells
    ensures var m := t.cells[c].manifest;
      && s.queueOwner[m.queue := 0] == t.queueOwner && s.net - {m.queue} == t.net
      && s.workspaceOwner[m.workspace := 0] == t.workspaceOwner
      && SameArenas(AddArenaRef(t.arenas, m.model, 1), SetArenas(s.arenas, ArenaIds(c), Destroyed))
  {
    var m := t.cells[c].manifest;
    assert s.net - {m.queue} == t.net;
    ArenasUndone(AddArenaRef(t.arenas, m.model, 1), ArenaIds(c));
  }
}
