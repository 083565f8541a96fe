/**
 The AI-cell protocol as a state machine: what each call may do to the tables, what every run
 keeps, and what follows for two cells that hold resources at the same time.
 */
module CellRuns {
  import opened Machine
  import opened CellTables

  datatype Event =
    | EvCreate(c: nat, manifest: Manifest) | EvPrepare(c: nat) | EvStart(c: nat) | EvStop(c: nat)
    | EvRegister(id: nat) | EvUnregister(id: nat)

  predicate CreateDone(t: Tables, t': Tables, c: nat, m: Manifest)
    requires Sized(t)
  {
    && c < MAX_AI_CELLS && t.cells[c].state.Empty? && ManifestOk(m) && m.model < MAX_MODEL_ARENAS &&
      t.models[m.model].registered
    && t' == t.(cells := t.cells[c := t.cells[c].(state := Created, manifest := m)])
  }

  predicate StartDone(t: Tables, t': Tables, c: nat)
    requires Sized(t)
  {
    && c < MAX_AI_CELLS && t.cells[c].state.Ready?
    && t' == t.(cells := t.cells[c := t.cells[c].(state := Running)])
  }

  predicate RegisterDone(t: Tables, t': Tables, id: nat)
    requires Sized(t)
  {
    && id < MAX_MODEL_ARENAS && !t.models[id].registered
    && t' == t.(models := t.models[id := Model(true, 0)], arenas := t.arenas[id := Arena(Live, 0)])
  }

  predicate RegisterFailed(t: Tables, t': Tables) { t' == t.(arenas := t'.arenas) && SameArenas(t.arenas, t'.arenas) }

  predicate UnregisterDone(t: Tables, t': Tables, id: nat)
    requires Sized(t)
  {
    && id < MAX_MODEL_ARENAS && t.models[id] == Model(true, 0)
    && t' == t.(models := t.models[id := Model(false, 0)], arenas := t.arenas[id := Arena(Destroyed, 0)])
  }

  /** Every outcome of one call: refused calls change nothing. */
  ghost predicate CellStep(t: Tables, e: Event, t': Tables)
    requires Sized(t)
  {
    t' == t ||
    match e
    case EvCreate(c, m) => CreateDone(t, t', c, m)
    case EvPrepare(c) => c < MAX_AI_CELLS && t.cells[c].state.Created? &&
      (PrepareDone(t, t', c) || PrepareFailed(t, t', c, false) || PrepareFailed(t, t', c, true))
    case EvStart(c) => StartDone(t, t', c)
    case EvStop(c) => c < MAX_AI_CELLS && t.cells[c].state.Running? &&
      exists at :: 0 <= at < MAX_CORE_LEASES && StopDone(t, t', c, at)
    case EvRegister(id) => RegisterDone(t, t', id) || RegisterFailed(t, t')
    case EvUnregister(id) => UnregisterDone(t, t', id)
  }

  lemma RegistryKeeps(t: Tables, t': Tables, id: nat)
    requires Inv(t) && (RegisterDone(t, t', id) || RegisterFailed(t, t') || UnregisterDone(t, t', id))
    ensures Inv(t')
  {
    assert ExclusiveOk(t');
    assert MemoryOk(t') by { RegistryMemory(t, t', id); }
  }

  lemma RegistryMemory(t: Tables, t': Tables, id: nat)
    requires Sized(t) && MemoryOk(t) && (RegisterDone(t, t', id) || RegisterFailed(t, t') || UnregisterDone(t, t', id))
    ensures |t'.models| == |t.models| && |t'.arenas| == |t.arenas| && MemoryOk(t')
  {
  }

  lemma CreateKeeps(t: Tables, t': Tables, c: nat, m: Manifest)
    requires Inv(t) && CreateDone(t, t', c, m)
    ensures Inv(t')
  {
    InvCarry(t, t', c);
  }

  lemma StartKeeps(t: Tables, t': Tables, c: nat)
    requires Inv(t) && StartDone(t, t', c)
    ensures Inv(t')
  {
    InvCarry(t, t', c);
  }

  /** Every outcome of every call keeps the invariant. */
  lemma StepKeeps(t: Tables, e: Event, t': Tables)
    requires Inv(t) && CellStep(t, e, t')
    ensures Inv(t')
  {
    if t' != t {
      match e
      case EvCreate(c, m) => CreateKeeps(t, t', c, m);
      case EvPrepare(c) => PrepareKeeps(t, t', c);
      case EvStart(c) => StartKeeps(t, t', c);
      case EvStop(c) => var at :| 0 <= at < MAX_CORE_LEASES && StopDone(t, t', c, at); StopKeeps(t, t', c, at);
      case EvRegister(id) => RegistryKeeps(t, t', id);
      case EvUnregister(id) => RegistryKeeps(t, t', id);
    }
  }

  lemma PrepareKeeps(t: Tables, t': Tables, c: nat)
    requires Inv(t) && c < MAX_AI_CELLS && t.cells[c].state.Created?
    requires PrepareDone(t, t', c) || PrepareFailed(t, t', c, false) || PrepareFailed(t, t', c, true)
    ensures Inv(t')
  {
    if PrepareDone(t, t', c) {
      DoneKeeps(t, t', c);
    } else if PrepareFailed(t, t', c, false) {
      FailedKeeps(t, t', c, false);
    } else {
      FailedKeeps(t, t', c, true);
    }
  }

  ghost predicate IsRun(ts: seq<Tables>, es: seq<Event>)
  {
    && |ts| == |es| + 1
    && forall i :: 0 <= i < |es| ==> Sized(ts[i]) && CellStep(ts[i], es[i], ts[i + 1])
  }

  lemma {:induction false} RunKeeps(ts: seq<Tables>, es: seq<Event>)
    requires IsRun(ts, es) && Inv(ts[0])
    ensures forall i :: 0 <= i < |ts| ==> Inv(ts[i])
    decreases |es|
  {
    if es != [] {
      var n := |es| - 1;
      RunKeeps(ts[..n + 1], es[..n]);
      assert ts[..n + 1][n] == ts[n];
      StepKeeps(ts[n], es[n], ts[n + 1]);
      forall i | 0 <= i < |ts| ensures Inv(ts[i]) {
        if i <= n { assert ts[..n + 1][i] == ts[i]; }
      }
    }
  }

  /** Two cells that hold resources share no core, queue, workspace or arena. */
  lemma MutualExclusion(t: Tables, c: nat, d: nat)
    requires Inv(t) && HoldsAt(t.cells, c) && HoldsAt(t.cells, d) && c != d
    ensures var a, b := t.cells[c], t.cells[d];
      && a.manifest.cores !! b.manifest.cores && a.manifest.queue != b.manifest.queue &&
        a.manifest.workspace != b.manifest.workspace
      && (forall id :: id in a.arenas ==> id !in b.arenas)
  {
    PlacesApart(t, c, d);
    HoldersInRuntime(t.cells, t.bound);
    ArenasApart(t, c, d);
  }

  lemma PlacesApart(t: Tables, c: nat, d: nat)
    requires ExclusiveOk(t) && HoldsAt(t.cells, c) && HoldsAt(t.cells, d) && c != d
    ensures var a, b := t.cells[c].manifest, t.cells[d].manifest;
      a.cores !! b.cores && a.queue != b.queue && a.workspace != b.workspace
  {
    Exclusive(LeaseOwners(t.cpus), CoresHeld(t.cells), c, d);
    Exclusive(t.queueOwner, QueuesHeld(t.cells), c, d);
    Exclusive(t.workspaceOwner, WorkspacesHeld(t.cells), c, d);
    assert t.cells[c].manifest.queue in QueuesHeld(t.cells)[c] &&
      t.cells[c].manifest.workspace in WorkspacesHeld(t.cells)[c];
  }

  lemma ArenasApart(t: Tables, c: nat, d: nat)
    requires ArenasOk(t.cells, t.arenas) && RuntimeHolders(t.cells) && HoldsAt(t.cells, c) && HoldsAt(t.cells, d) &&
      c != d
    ensures forall id :: id in t.cells[c].arenas ==> id !in t.cells[d].arenas
  {
  }

  /** At most four cells hold anything, so one of the 4096 lease slots is always idle. */
  lemma SlotIdle(t: Tables)
    requires Sized(t) && LeasesOk(t.cells, t.leases) && RuntimeHolders(t.cells)
    ensures FirstIdle(t.leases, 0) < |t.leases|
  {
    FirstFiveLeases(t);
  }

  lemma FirstFiveLeases(t: Tables)
    requires Sized(t) && LeasesOk(t.cells, t.leases) && RuntimeHolders(t.cells)
    ensures var l := t.leases; !l[0].active || !l[1].active || !l[2].active || !l[3].active || !l[4].active
  {
    var l := t.leases;
    assert forall i :: 0 <= i < |l| && l[i].active ==> l[i].owner < MAX_RUNTIME_CELLS;
  }

  /** A core is hot, and counted as used, exactly while some holder has it in its manifest. */
  lemma HotExact(t: Tables, k: nat)
    requires Sized(t) && ExclusiveOk(t) && k < MASK_CPUS
    ensures t.cpus[k].role.AiHot? <==> exists d: nat :: HoldsAt(t.cells, d) && k in t.cells[d].manifest.cores
    ensures k in UsedCores(t.leases) ==> t.cpus[k].role.AiHot?
  {
    var held := CoresHeld(t.cells);
    assert CpuOk(t.cpus[k]) && LeaseOwners(t.cpus)[k] == t.cpus[k].leaseOwner;
    if t.cpus[k].role.AiHot? {
      var d: nat := t.cpus[k].leaseOwner - 1;
      assert k in held[d];
    }
    if d: nat :| HoldsAt(t.cells, d) && k in t.cells[d].manifest.cores {
      assert k in held[d];
    }
    UsedCoresExact(t.leases, k);
    if k in UsedCores(t.leases) {
      var i :| 0 <= i < |t.leases| && t.leases[i].active && k in t.leases[i].cores;
      assert k in held[t.leases[i].owner];
    }
  }

  /** A mask can be leased if and only if its cores are there for AI cells and no holder has one of them. */
  lemma LeaseExact(t: Tables, mask: CoreMask, c: nat)
    requires Inv(t)
    ensures CanLease(t.cpus, t.leases, mask, c) <==>
      && mask != {} && 0 !in mask
      && (forall k :: k in mask ==> t.cpus[k].online && !t.cpus[k].role.Housekeeping?)
      && (forall d: nat :: HoldsAt(t.cells, d) ==> mask !! t.cells[d].manifest.cores)
  {
    hide LeasesOk, CpusOk, Agree, CellsOk, MemoryOk, RuntimeOk, UsedCores;
    HoldersInRuntime(t.cells, t.bound);
    SlotIdle(t);
    forall k | k in mask
      ensures t.cpus[k].role.AiHot? <==> exists d: nat :: HoldsAt(t.cells, d) && k in t.cells[d].manifest.cores
      ensures k in UsedCores(t.leases) ==> t.cpus[k].role.AiHot?
      ensures t.cpus[k].role.Scheduling? ==> t.cpus[k].leaseOwner == 0
    {
      HotExact(t, k);
      if t.cpus[k].role.Scheduling? { SchedulingIsFree(t, k); }
    }
  }

  lemma SchedulingIsFree(t: Tables, k: nat)
    requires Sized(t) && CpusOk(t.cells, t.cpus) && k < MASK_CPUS && t.cpus[k].role.Scheduling?
    ensures t.cpus[k].leaseOwner == 0
  {
    assert CpuOk(t.cpus[k]);
  }

  /** An entry of an owner table is free if and only if nobody holds it. */
  lemma FreeExact(owner: seq<nat>, held: seq<set<nat>>, r: nat)
    requires Agree(owner, held) && r < |owner|
    ensures owner[r] == 0 <==> forall d :: 0 <= d < |held| ==> r !in held[d]
  {
    if owner[r] != 0 {
      assert r in held[owner[r] - 1];
    }
  }

  /**
   What a created cell needs to become ready, in any reachable state, told by the cells alone: a
   runtime entry by its number, a registered model, cores without CPU 0 that are online and not
   for housekeeping, and cores, queue and workspace that no ready or running cell has in its
   manifest. A lease slot, arenas and the runtime entry are then free as well.
   */
  lemma AdmissionExact(t: Tables, c: nat)
    requires Inv(t) && c < MAX_AI_CELLS && t.cells[c].state.Created?
    ensures var m := t.cells[c].manifest;
      Admits(t, c) <==>
      && c < MAX_RUNTIME_CELLS && m.model < MAX_MODEL_ARENAS && t.models[m.model].registered
      && m.cores != {} && 0 !in m.cores
      && (forall k :: k in m.cores ==> t.cpus[k].online && !t.cpus[k].role.Housekeeping?)
      && (forall d: nat :: HoldsAt(t.cells, d) ==>
            var h := t.cells[d].manifest; m.cores !! h.cores && m.queue != h.queue && m.workspace != h.workspace)
  {
    hide CanLease, Agree;
    var m := t.cells[c].manifest;
    LeaseExact(t, m.cores, c);
    PlaceByCells(t, m);
    AdmissionByTables(t, c);
  }

  lemma PlaceByCells(t: Tables, m: Manifest)
    requires Inv(t) && m.queue < MAX_NIC_QUEUES && m.workspace <= MAX_WORKSPACES
    ensures t.queueOwner[m.queue] == 0 <==>
            forall d: nat :: HoldsAt(t.cells, d) ==> m.queue != t.cells[d].manifest.queue
    ensures t.workspaceOwner[m.workspace] == 0 <==>
            forall d: nat :: HoldsAt(t.cells, d) ==> m.workspace != t.cells[d].manifest.workspace
  {
    hide CpusOk, LeasesOk, CellsOk, MemoryOk, RuntimeOk, Agree;
    FreeExact(t.queueOwner, QueuesHeld(t.cells), m.queue);
    FreeExact(t.workspaceOwner, WorkspacesHeld(t.cells), m.workspace);
  }

  /** The same by the tables: cores that can be leased, queue and workspace without owner. */
  lemma AdmissionByTables(t: Tables, c: nat)
    requires Inv(t) && c < MAX_AI_CELLS && t.cells[c].state.Created?
    ensures var m := t.cells[c].manifest;
      Admits(t, c) <==>
      && c < MAX_RUNTIME_CELLS && m.model < MAX_MODEL_ARENAS && t.models[m.model].registered
      && CanLease(t.cpus, t.leases, m.cores, c) && t.queueOwner[m.queue] == 0 && t.workspaceOwner[m.workspace] == 0
  {
    hide CanLease;
    HoldersInRuntime(t.cells, t.bound);
    if c < MAX_RUNTIME_CELLS {
      forall id | id in ArenaIds(c) ensures id < MAX_ARENAS && !t.arenas[id].state.Live? {
        OwnArenaFree(t, c, id);
      }
    }
  }

  lemma OwnArenaFree(t: Tables, c: nat, id: nat)
    requires Sized(t) && ArenasOk(t.cells, t.arenas) && RuntimeHolders(t.cells) && c < MAX_RUNTIME_CELLS &&
      !Holds(t.cells[c])
    requires id in ArenaIds(c)
    ensures MAX_MODEL_ARENAS <= id < MAX_ARENAS && !t.arenas[id].state.Live?
  {
    if HeldArena(t.cells, id) {
      var d :| HoldsAt(t.cells, d) && id in ArenaIds(d);
      ArenaIdsDisjoint(c, d, id);
    }
  }

  /** When no cell holds anything, nothing is in use: every resource taken on any run came back. */
  lemma NothingLeaked(t: Tables)
    requires Inv(t) && forall c :: !HoldsAt(t.cells, c)
    ensures forall q :: 0 <= q < |t.queueOwner| ==> t.queueOwner[q] == 0 && q !in t.net
    ensures forall w :: 0 <= w < |t.workspaceOwner| ==> t.workspaceOwner[w] == 0
    ensures forall i :: 0 <= i < |t.leases| ==> !t.leases[i].active
    ensures forall k :: 0 <= k < |t.cpus| ==> t.cpus[k].leaseOwner == 0 && !t.cpus[k].role.AiHot?
    ensures forall id :: MAX_MODEL_ARENAS <= id < |t.arenas| ==> !t.arenas[id].state.Live?
    ensures forall m :: 0 <= m < |t.models| ==> t.models[m].refs == 0 && t.arenas[m].refs == 0
  {
    NobodyHolds(t.cells);
    NobodyOwns(t.queueOwner, QueuesHeld(t.cells));
    NobodyOwns(t.workspaceOwner, WorkspacesHeld(t.cells));
    NobodyOwns(LeaseOwners(t.cpus), CoresHeld(t.cells));
    forall k | 0 <= k < |t.cpus| ensures t.cpus[k].leaseOwner == 0 && !t.cpus[k].role.AiHot? {
      assert LeaseOwners(t.cpus)[k] == 0 && CpuOk(t.cpus[k]);
    }
  }

  lemma NobodyHolds(cells: seq<Cell>)
    requires forall c :: !HoldsAt(cells, c)
    ensures forall c :: 0 <= c < |cells| ==>
      QueuesHeld(cells)[c] == WorkspacesHeld(cells)[c] == CoresHeld(cells)[c] == {}
    ensures forall m :: Holders(cells, m) == {}
  {
    assert forall c :: 0 <= c < |cells| ==> !Holds(cells[c]) by {
      forall c | 0 <= c < |cells| ensures !Holds(cells[c]) { assert !HoldsAt(cells, c); }
    }
  }

  lemma NobodyOwns(owner: seq<nat>, held: seq<set<nat>>)
    requires Agree(owner, held) && forall c :: 0 <= c < |held| ==> held[c] == {}
    ensures forall r :: 0 <= r < |owner| ==> owner[r] == 0
  {
  }

  /** Where a cell is in its life; a call never takes one back. */
  function Age(s: CellState): nat
  {
    match s
    case Empty => 0
    case Created => 1
    case Ready => 2
    case Running => 3
    case Stopped => 4
    case Failed => 4
  }

  /** Cell and runtime entry `c` are untouched, or the cell is older; all others are untouched. */
  predicate Older(t: Tables, t': Tables, c: nat)
  {
    && c < |t.cells| == |t'.cells| && |t'.bound| == |t.bound|
    && (forall d :: 0 <= d < |t.cells| && d != c ==> t'.cells[d] == t.cells[d])
    && (forall d :: 0 <= d < |t.bound| && d != c ==> t'.bound[d] == t.bound[d])
    && Age(t'.cells[c].state) > Age(t.cells[c].state)
  }

  lemma HaltAges(t: Tables, t': Tables, c: nat)
    requires Sized(t) && c < |t.cells| && t.cells[c].state.Running? && CellHalted(t, t', c)
    ensures Older(t, t', c)
  {
  }

  lemma DoneAges(t: Tables, t': Tables, c: nat)
    requires Sized(t) && c < MAX_AI_CELLS && t.cells[c].state.Created? && PrepareDone(t, t', c)
    ensures Older(t, t', c)
  {
    hide TookExclusive, TookMemory;
  }

  lemma FailedAges(t: Tables, t': Tables, c: nat, tokenizerFailed: bool)
    requires Sized(t) && c < MAX_AI_CELLS && t.cells[c].state.Created? && PrepareFailed(t, t', c, tokenizerFailed)
    ensures Older(t, t', c)
  {
    hide SameOwnership;
  }

  lemma PrepareAges(t: Tables, t': Tables, c: nat)
    requires Sized(t) && c < MAX_AI_CELLS && t.cells[c].state.Created?
    requires PrepareDone(t, t', c) || PrepareFailed(t, t', c, false) || PrepareFailed(t, t', c, true)
    ensures Older(t, t', c)
  {
    hide PrepareDone, PrepareFailed, Older;
    if PrepareDone(t, t', c) {
      DoneAges(t, t', c);
    } else if PrepareFailed(t, t', c, false) {
      FailedAges(t, t', c, false);
    } else {
      FailedAges(t, t', c, true);
    }
  }

  /** A call leaves every cell and runtime entry alone, or makes one cell older. */
  lemma StepAges(t: Tables, e: Event, t': Tables)
    requires Sized(t) && CellStep(t, e, t')
    ensures (t'.cells == t.cells && t'.bound == t.bound) || exists c :: Older(t, t', c)
  {
    if t' != t {
      match e
      case EvCreate(c, m) => assert Older(t, t', c);
      case EvPrepare(c) => PrepareAges(t, t', c);
      case EvStart(c) => assert Older(t, t', c);
      case EvStop(c) => var at :| 0 <= at < MAX_CORE_LEASES && StopDone(t, t', c, at); HaltAges(t, t', c);
      case EvRegister(id) =>
      case EvUnregister(id) =>
    }
  }

  lemma FinalStep(t: Tables, t': Tables, c: nat)
    requires |t.cells| == MAX_AI_CELLS && |t.bound| == MAX_RUNTIME_CELLS
    requires c < MAX_AI_CELLS && Age(t.cells[c].state) == 4
    requires (t'.cells == t.cells && t'.bound == t.bound) || exists d :: Older(t, t', d)
    ensures |t'.cells| == MAX_AI_CELLS && t'.cells[c] == t.cells[c]
    ensures |t'.bound| == MAX_RUNTIME_CELLS && (c < MAX_RUNTIME_CELLS ==> t'.bound[c] == t.bound[c])
  {
  }

  lemma SizedTables(t: Tables)
    requires Sized(t)
    ensures |t.cells| == MAX_AI_CELLS && |t.bound| == MAX_RUNTIME_CELLS
  {
  }

  /** A failed or stopped cell is final, and so is its runtime entry. */
  lemma {:induction false} FinalForever(ts: seq<Tables>, es: seq<Event>, c: nat)
    requires IsRun(ts, es) && Sized(ts[0]) && c < MAX_AI_CELLS && Age(ts[0].cells[c].state) == 4
    ensures var t := ts[|es|];
      && |t.cells| == MAX_AI_CELLS && t.cells[c] == ts[0].cells[c]
      && |t.bound| == MAX_RUNTIME_CELLS && (c < MAX_RUNTIME_CELLS ==> t.bound[c] == ts[0].bound[c])
    decreases |es|
  {
    hide CellStep, Sized, Older;
    if es != [] {
      var n := |es| - 1;
      var front := ts[..n + 1];
      assert forall i :: 0 <= i <= n ==> front[i] == ts[i];
      FinalForever(front, es[..n], c);
      StepAges(ts[n], es[n], ts[n + 1]);
      FinalStep(ts[n], ts[n + 1], c);
    } else {
      SizedTables(ts[0]);
    }
  }

  /**
   A prepare that fails in the tokenizer, and no other, leaves the runtime entry bound to a
   model the cell no longer references; the entry stays bound on every run from there.
   */
  lemma TokenizerFailureSticks(t: Tables, c: nat, tokenizerFailed: bool, ts: seq<Tables>, es: seq<Event>)
    requires Inv(t) && c < MAX_RUNTIME_CELLS && t.cells[c].state.Created?
    requires IsRun(ts, es) && PrepareFailed(t, ts[0], c, tokenizerFailed)
    ensures |ts[|es|].bound| == MAX_RUNTIME_CELLS && (tokenizerFailed <==> ts[|es|].bound[c] != None)
  {
    FinalForever(ts, es, c);
  }

  /** Five cells can be created but the runtime has four entries: the fifth is never ready, on any run. */
  lemma FifthNeverHolds(ts: seq<Tables>, es: seq<Event>, i: nat)
    requires IsRun(ts, es) && Inv(ts[0]) && i < |ts|
    ensures !HoldsAt(ts[i].cells, MAX_RUNTIME_CELLS)
  {
    RunKeeps(ts, es);
    HoldersInRuntime(ts[i].cells, ts[i].bound);
  }
}
