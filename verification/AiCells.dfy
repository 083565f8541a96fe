/**
 The AI-cell resource protocol: cells acquire a model reference, a set of cores, a NIC queue,
 a workspace, four memory arenas and a runtime binding, unwinding on every failure. The
 kernel's global tables are the fields of one class; each `kassert` of the source is an
 `assert` here, so that none of them can fail is part of what is verified.
 */
module AiCells {
  import opened Machine
  import opened CellTables
  import opened CellRuns

  /** The kernel's global tables. */
  class AiRuntime {
    var cells: seq<Cell>
    var queueOwner: seq<nat>
    var workspaceOwner: seq<nat>
    var leases: seq<Lease>
    var cpus: seq<Cpu>
    var models: seq<Model>
    var arenas: seq<Arena>
    var bound: seq<Option<nat>>
    var net: map<nat, nat>
    const reliable: bool // page supply, mapping, queue slots and model images never fail

    ghost function State(): Tables
      reads this
    {
      Tables(cells, queueOwner, workspaceOwner, leases, cpus, models, arenas, bound, net)
    }

    // ---------- Model references, mirrored into the arena manager ----------

    method AcquireModel(m: nat) returns (ok: bool)
      requires Mirrored(models, arenas)
      modifies `models, `arenas
      ensures ok <==> m < MAX_MODEL_ARENAS && old(models)[m].registered
      ensures !ok ==> models == old(models) && arenas == old(arenas)
      ensures ok ==> models == AddModelRef(old(models), m, 1) && arenas == AddArenaRef(old(arenas), m, 1)
      ensures Mirrored(models, arenas)
    {
      if m >= MAX_MODEL_ARENAS || !models[m].registered {
        return false;
      }
      models := models[m := models[m].(refs := models[m].refs + 1)];
      var acquired := ArenaAcquire(m);
      assert acquired;
      return true;
    }

    method ReleaseModel(m: nat) returns (ok: bool)
      requires Mirrored(models, arenas)
      modifies `models, `arenas
      ensures ok <==> m < MAX_MODEL_ARENAS && old(models)[m].refs > 0
      ensures !ok ==> models == old(models) && arenas == old(arenas)
      ensures ok ==> models == AddModelRef(old(models), m, -1) && arenas == AddArenaRef(old(arenas), m, -1)
      ensures Mirrored(models, arenas)
    {
      if m >= MAX_MODEL_ARENAS || models[m].refs == 0 {
        return false;
      }
      models := models[m := models[m].(refs := models[m].refs - 1)];
      var released := ArenaRelease(m);
      assert released;
      return true;
    }

    method ArenaAcquire(id: nat) returns (ok: bool)
      requires |arenas| == MAX_ARENAS
      modifies `arenas
      ensures ok <==> id < MAX_ARENAS && old(arenas)[id].state.Live?
      ensures arenas == if ok then AddArenaRef(old(arenas), id, 1) else old(arenas)
    {
      if id >= MAX_ARENAS || !arenas[id].state.Live? {
        return false;
      }
      arenas := arenas[id := arenas[id].(refs := arenas[id].refs + 1)];
      return true;
    }

    method ArenaRelease(id: nat) returns (ok: bool)
      requires |arenas| == MAX_ARENAS
      modifies `arenas
      ensures ok <==> id < MAX_ARENAS && old(arenas)[id].state.Live? && old(arenas)[id].refs != 0
      ensures arenas == if ok then AddArenaRef(old(arenas), id, -1) else old(arenas)
    {
      if id >= MAX_ARENAS || !arenas[id].state.Live? || arenas[id].refs == 0 {
        return false;
      }
      arenas := arenas[id := arenas[id].(refs := arenas[id].refs - 1)];
      return true;
    }

    /** Creation fails on a live id; otherwise page supply and mapping decide. */
    method ArenaCreate(id: nat) returns (ok: bool)
      requires |arenas| == MAX_ARENAS
      modifies `arenas
      ensures ok ==> id < MAX_ARENAS && !old(arenas)[id].state.Live? && arenas == old(arenas)[id := Arena(Live, 0)]
      ensures !ok ==> SameArenas(old(arenas), arenas)
      ensures reliable && id < MAX_ARENAS && !old(arenas)[id].state.Live? ==> ok
    {
      if id >= MAX_ARENAS || arenas[id].state.Live? {
        return false;
      }
      var hasPages: bool := *;
      if !hasPages && !reliable {
        var touched: bool := *;
        if touched {
          arenas := arenas[id := Arena(Unused, 0)];
        }
        return false;
      }
      arenas := arenas[id := Arena(Live, 0)];
      return true;
    }

    method ArenaDestroy(id: nat) returns (ok: bool)
      requires |arenas| == MAX_ARENAS
      modifies `arenas
      ensures ok <==> id < MAX_ARENAS && old(arenas)[id].state.Live? && old(arenas)[id].refs == 0
      ensures arenas == if ok then old(arenas)[id := Arena(Destroyed, 0)] else old(arenas)
    {
      if id >= MAX_ARENAS || !arenas[id].state.Live? || arenas[id].refs != 0 {
        return false;
      }
      arenas := arenas[id := arenas[id].(state := Destroyed)];
      return true;
    }

    // ---------- Core leases ----------

    method ValidateCoreMask(mask: CoreMask) returns (ok: bool)
      requires |cpus| == MASK_CPUS
      ensures ok <==> ValidMask(cpus, mask)
      ensures ok <==> mask != {} && 0 !in mask && forall k :: k in mask ==> cpus[k].online && cpus[k].role.Scheduling?
    {
      if mask == {} || 0 in mask {
        return false;
      }
      var cpu := 0;
      while cpu < MASK_CPUS
        invariant 0 <= cpu <= MASK_CPUS
        invariant forall k :: 0 <= k < cpu && k in mask ==> cpus[k].online && cpus[k].role.Scheduling?
      {
        if cpu in mask && (!cpus[cpu].online || !cpus[cpu].role.Scheduling?) {
          return false;
        }
        cpu := cpu + 1;
      }
      return true;
    }

    method UsedMask() returns (mask: set<nat>)
      ensures mask == UsedCores(leases)
    {
      mask := {};
      var i := 0;
      while i < |leases|
        invariant 0 <= i <= |leases| && mask == UsedCores(leases[..i])
      {
        assert leases[..i + 1][..i] == leases[..i];
        if leases[i].active {
          mask := mask + leases[i].cores;
        }
        i := i + 1;
      }
      assert leases[..i] == leases;
    }

    method AcquireCores(owner: nat, mask: CoreMask) returns (ok: bool)
      requires |cpus| == MASK_CPUS && |leases| == MAX_CORE_LEASES
      modifies `cpus, `leases
      ensures ok <==> CanLease(old(cpus), old(leases), mask, owner)
      ensures ok ==> leases == old(leases)[FirstIdle(old(leases), 0) := Lease(true, owner, mask)]
      ensures ok ==> cpus == MarkCpus(old(cpus), mask, owner + 1)
      ensures !ok ==> leases == old(leases) && (AllCpusOk(old(cpus)) ==> cpus == old(cpus))
    {
      var valid := ValidateCoreMask(mask);
      var used := UsedMask();
      if !valid || used * mask != {} {
        return false;
      }
      var i := FindIdleLease();
      if i == MAX_CORE_LEASES {
        return false;
      }
      ok := MarkMask(owner, mask);
      if ok {
        leases := leases[i := Lease(true, owner, mask)];
      }
    }

    method FindIdleLease() returns (i: nat)
      ensures i == FirstIdle(leases, 0)
    {
      i := 0;
      while i < |leases| && leases[i].active
        invariant 0 <= i <= |leases| && FirstIdle(leases, 0) == FirstIdle(leases, i)
      {
        i := i + 1;
      }
    }

    /** Marks the CPUs of a mask one by one, releasing those already marked when one cannot be. */
    method MarkMask(owner: nat, mask: CoreMask) returns (ok: bool)
      requires |cpus| == MASK_CPUS && ValidMask(cpus, mask)
      modifies `cpus
      ensures ok <==> AllLeasable(old(cpus), mask, owner)
      ensures ok ==> cpus == MarkCpus(old(cpus), mask, owner + 1)
      ensures !ok && AllCpusOk(old(cpus)) ==> cpus == old(cpus)
    {
      ghost var was := cpus;
      var marked: set<nat> := {};
      var cpu := 1;
      while cpu < MASK_CPUS
        invariant 1 <= cpu <= MASK_CPUS
        invariant forall k :: k in marked <==> k in mask && k < cpu
        invariant forall k :: k in marked ==> Leasable(was[k], owner)
        invariant cpus == MarkCpus(was, marked, owner + 1)
      {
        if cpu in mask {
          if !Leasable(cpus[cpu], owner) {
            ReleaseMarked(owner, marked);
            if AllCpusOk(was) { UnmarkRestores(was, marked, owner + 1); }
            return false;
          }
          MarkStep(was, marked, owner + 1, cpu);
          cpus := cpus[cpu := cpus[cpu].(role := AiHot, leaseOwner := owner + 1)];
          marked := marked + {cpu};
        }
        cpu := cpu + 1;
      }
      assert marked == mask;
      return true;
    }

    method ReleaseMarked(owner: nat, marked: set<nat>)
      requires |cpus| == MASK_CPUS && forall k :: k in marked ==> 1 <= k < MASK_CPUS && Leased(cpus[k], owner)
      modifies `cpus
      ensures cpus == FreeCpus(old(cpus), marked)
    {
      var cpu := 1;
      ghost var freed: set<nat> := {};
      while cpu < MASK_CPUS
        invariant 1 <= cpu <= MASK_CPUS
        invariant forall k :: k in freed <==> k in marked && k < cpu
        invariant cpus == FreeCpus(old(cpus), freed)
      {
        if cpu in marked {
          assert Leased(cpus[cpu], owner);
          FreeStep(old(cpus), freed, cpu);
          cpus := cpus[cpu := cpus[cpu].(role := Scheduling, leaseOwner := 0)];
          freed := freed + {cpu};
        }
        cpu := cpu + 1;
      }
      assert freed == marked;
    }

    /** Releases the lease of `owner`, which is at index `at`, or nothing when `at` is past the table. */
    method ReleaseCores(owner: nat, ghost at: nat) returns (ok: bool)
      requires |cpus| == MASK_CPUS && OnlyLease(leases, owner, at)
      requires at < |leases| ==> forall k :: k in leases[at].cores ==> 1 <= k && Leased(cpus[k], owner)
      modifies `cpus, `leases
      ensures ok <==> at < |old(leases)|
      ensures ok ==>
        leases == old(leases)[at := Lease(false, owner, {})] && cpus == FreeCpus(old(cpus), old(leases)[at].cores)
      ensures !ok ==> leases == old(leases) && cpus == old(cpus)
    {
      ok := false;
      ghost var was, wasCpus := leases, cpus;
      var i := 0;
      while i < |leases|
        invariant 0 <= i <= |leases| == |was|
        invariant ok <==> at < i
        invariant leases == if ok then was[at := Lease(false, owner, {})] else was
        invariant cpus == if ok then FreeCpus(wasCpus, was[at].cores) else wasCpus
      {
        if leases[i].active && leases[i].owner == owner {
          assert i == at;
          ReleaseMarked(owner, leases[i].cores);
          leases := leases[i := leases[i].(active := false, cores := {})];
          ok := true;
        }
        i := i + 1;
      }
    }

    // ---------- Queue and workspace ----------

    method BindQueue(c: nat, q: nat) returns (ok: bool)
      requires |queueOwner| == MAX_NIC_QUEUES
      modifies `queueOwner, `net
      ensures ok ==> q < MAX_NIC_QUEUES && old(queueOwner)[q] == 0
      ensures ok ==> queueOwner == old(queueOwner)[q := c + 1] && net == old(net)[q := c]
      ensures !ok ==> queueOwner == old(queueOwner) && net == old(net)
      ensures reliable && q < MAX_NIC_QUEUES && old(queueOwner)[q] == 0 && q !in old(net) ==> ok
    {
      if q >= MAX_NIC_QUEUES || queueOwner[q] != 0 {
        return false;
      }
      var hasSlot: bool := *;
      if q in net || (!hasSlot && !reliable) {
        return false;
      }
      net := net[q := c];
      queueOwner := queueOwner[q := c + 1];
      return true;
    }

    method ReleaseQueue(c: nat, q: nat)
      requires |queueOwner| == MAX_NIC_QUEUES
      requires q < MAX_NIC_QUEUES && queueOwner[q] == c + 1 ==> q in net && net[q] == c
      modifies `queueOwner, `net
      ensures if q < MAX_NIC_QUEUES && old(queueOwner)[q] == c + 1
              then queueOwner == old(queueOwner)[q := 0] && net == old(net) - {q}
              else queueOwner == old(queueOwner) && net == old(net)
    {
      if q < MAX_NIC_QUEUES && queueOwner[q] == c + 1 {
        queueOwner := queueOwner[q := 0];
        assert q in net && net[q] == c;
        net := net - {q};
      }
    }

    method BindWorkspace(c: nat, w: nat) returns (ok: bool)
      requires |workspaceOwner| == MAX_WORKSPACES + 1
      modifies `workspaceOwner
      ensures ok <==> 1 <= w <= MAX_WORKSPACES && old(workspaceOwner)[w] == 0
      ensures workspaceOwner == if ok then old(workspaceOwner)[w := c + 1] else old(workspaceOwner)
    {
      if w == 0 || w > MAX_WORKSPACES || workspaceOwner[w] != 0 {
        return false;
      }
      workspaceOwner := workspaceOwner[w := c + 1];
      return true;
    }

    method ReleaseWorkspace(c: nat, w: nat)
      requires |workspaceOwner| == MAX_WORKSPACES + 1
      modifies `workspaceOwner
      ensures workspaceOwner == if w <= MAX_WORKSPACES && old(workspaceOwner)[w] == c + 1
                                then old(workspaceOwner)[w := 0] else old(workspaceOwner)
    {
      if w <= MAX_WORKSPACES && workspaceOwner[w] == c + 1 {
        workspaceOwner := workspaceOwner[w := 0];
      }
    }

    // ---------- Memory arenas of a cell ----------

    /** Destroys the arenas a cell has reserved so far. */
    method DestroyCellArenas(c: nat)
      requires c < |cells| && |arenas| == MAX_ARENAS
      requires cells[c].arenas <= ArenaIds(c)
      requires forall id :: id in cells[c].arenas ==> id < MAX_ARENAS && arenas[id] == Arena(Live, 0)
      modifies `cells, `arenas
      ensures arenas == SetArenas(old(arenas), old(cells)[c].arenas, Destroyed)
      ensures cells == old(cells)[c := old(cells)[c].(arenas := [])]
    {
      ghost var was := arenas;
      var ids := cells[c].arenas;
      var i := 0;
      while i < |ids|
        invariant 0 <= i <= |ids| && arenas == SetArenas(was, ids[..i], Destroyed)
        invariant cells == old(cells)
      {
        assert ids[i] in ids && ids[i] !in ids[..i] by { assert forall j :: 0 <= j < i ==> ids[j] == ArenaIds(c)[j]; }
        var destroyed := ArenaDestroy(ids[i]);
        assert destroyed;
        assert ids[..i + 1] == ids[..i] + [ids[i]];
        i := i + 1;
      }
      assert ids[..i] == ids;
      cells := cells[c := cells[c].(arenas := [])];
    }

    /** Creates the four arenas in order; when one fails, destroys those created. */
    method ReserveArenas(c: nat) returns (ok: bool)
      requires c < |cells| && |arenas| == MAX_ARENAS && cells[c].arenas == []
      modifies `cells, `arenas
      ensures ok ==> forall id :: id in ArenaIds(c) ==> id < MAX_ARENAS && !old(arenas)[id].state.Live?
      ensures ok ==>
        arenas == SetArenas(old(arenas), ArenaIds(c), Live) &&
        cells == old(cells)[c := old(cells)[c].(arenas := ArenaIds(c))]
      ensures !ok ==> SameArenas(old(arenas), arenas) && cells == old(cells)
      ensures reliable && (forall id :: id in ArenaIds(c) ==> id < MAX_ARENAS && !old(arenas)[id].state.Live?) ==> ok
    {
      ghost var was, wasCells := arenas, cells;
      var ids := ArenaIds(c);
      var i := 0;
      while i < 4
        invariant 0 <= i <= 4 && |cells| == |wasCells| && cells == wasCells[c := wasCells[c].(arenas := ids[..i])]
        invariant forall k :: 0 <= k < i ==> ids[k] < MAX_ARENAS && !was[ids[k]].state.Live?
        invariant arenas == SetArenas(was, ids[..i], Live)
      {
        assert ids[i] in ArenaIds(c) && ids[i] !in ids[..i];
        assert ids[i] < MAX_ARENAS ==> arenas[ids[i]] == was[ids[i]];
        var created := ArenaCreate(ids[i]);
        if !created {
          DestroyCellArenas(c);
          return false;
        }
        assert ids[..i + 1] == ids[..i] + [ids[i]];
        cells := cells[c := cells[c].(arenas := cells[c].arenas + [ids[i]])];
        i := i + 1;
      }
      assert ids[..i] == ids;
      return true;
    }

    // ---------- Runtime binding ----------

    /** Model image, KV size and tokenizer decide; only the last failure comes after the entry is marked bound. */
    method BindModel(c: nat, m: nat) returns (ok: bool, tokenizerFailed: bool)
      requires Mirrored(models, arenas) && |bound| == MAX_RUNTIME_CELLS
      modifies `models, `arenas, `bound
      ensures Mirrored(models, arenas)
      ensures ok ==> c < MAX_RUNTIME_CELLS && old(bound)[c] == None && m < MAX_MODEL_ARENAS && old(models)[m].registered
      ensures ok ==> bound == old(bound)[c := Some(m)]
      ensures ok ==> models == AddModelRef(old(models), m, 1) && arenas == AddArenaRef(old(arenas), m, 1)
      ensures !ok ==> models == old(models) && arenas == old(arenas)
      ensures !ok ==> LeftBound(old(bound), bound, c, m, tokenizerFailed)
      ensures reliable && c < MAX_RUNTIME_CELLS && old(bound)[c] == None ==>
        (m < MAX_MODEL_ARENAS && old(models)[m].registered ==> ok)
    {
      tokenizerFailed := false;
      if c >= MAX_RUNTIME_CELLS || bound[c] != None {
        return false, false;
      }
      var acquired := AcquireModel(m);
      if !acquired {
        return false, false;
      }
      var fits: bool := *;
      if !fits && !reliable {
        var released := ReleaseModel(m);
        assert released;
        return false, false;
      }
      bound := bound[c := Some(m)];
      tokenizerFailed := *;
      tokenizerFailed := tokenizerFailed && !reliable;
      if tokenizerFailed {
        var released := ReleaseModel(m);
        assert released;
        return false, true;
      }
      return true, false;
    }

    method UnbindModel(c: nat) returns (ok: bool)
      requires Mirrored(models, arenas) && |bound| == MAX_RUNTIME_CELLS
      requires c < MAX_RUNTIME_CELLS && bound[c].Some? ==>
        bound[c].value < MAX_MODEL_ARENAS && models[bound[c].value].refs > 0
      modifies `models, `arenas, `bound
      ensures Mirrored(models, arenas)
      ensures ok <==> c < MAX_RUNTIME_CELLS && old(bound)[c].Some?
      ensures ok ==> var m := old(bound)[c].value;
        models == AddModelRef(old(models), m, -1) && arenas == AddArenaRef(old(arenas), m, -1)
      ensures ok ==> bound == old(bound)[c := None]
      ensures !ok ==> models == old(models) && arenas == old(arenas) && bound == old(bound)
    {
      if c >= MAX_RUNTIME_CELLS || bound[c] == None {
        return false;
      }
      var released := ReleaseModel(bound[c].value);
      assert released;
      bound := bound[c := None];
      return true;
    }

    // ---------- Model registry ----------

    /** Creates the arena and maps it read-only; a mapping failure destroys it again. */
    method Register(id: nat, wellFormed: bool) returns (status: Status)
      requires Inv(State())
      modifies `models, `arenas
      ensures Inv(State()) && CellStep(old(State()), EvRegister(id), State())
      ensures status.Ok? ==> wellFormed && RegisterDone(old(State()), State(), id)
      ensures !status.Ok? ==> status == ErrInvalid && RegisterFailed(old(State()), State())
      ensures reliable ==> (status.Ok? <==> id < MAX_MODEL_ARENAS && wellFormed && !old(models)[id].registered)
    {
      ghost var t := State();
      if id >= MAX_MODEL_ARENAS || !wellFormed {
        return ErrInvalid;
      }
      MemoryMirrors(t);
      var created := ArenaCreate(id);
      if !created {
        StepKeeps(t, EvRegister(id), State());
        return ErrInvalid;
      }
      var mapped: bool := *;
      if !mapped && !reliable {
        var destroyed := ArenaDestroy(id);
        assert destroyed;
        StepKeeps(t, EvRegister(id), State());
        return ErrInvalid;
      }
      models := models[id := Model(true, 0)];
      StepKeeps(t, EvRegister(id), State());
      return Ok;
    }

    method Unregister(id: nat) returns (status: Status)
      requires Inv(State())
      modifies `models, `arenas
      ensures Inv(State()) && CellStep(old(State()), EvUnregister(id), State())
      ensures status.Ok? <==> id < MAX_MODEL_ARENAS && old(models)[id].registered && Holders(cells, id) == {}
      ensures status.Ok? ==> UnregisterDone(old(State()), State(), id)
      ensures !status.Ok? ==> status == ErrInvalid && State() == old(State())
    {
      ghost var t := State();
      if id >= MAX_MODEL_ARENAS || !models[id].registered || models[id].refs != 0 {
        return ErrInvalid;
      }
      MemoryMirrors(t);
      models := models[id := models[id].(registered := false)];
      var destroyed := ArenaDestroy(id);
      assert destroyed;
      StepKeeps(t, EvUnregister(id), State());
      return Ok;
    }

    // ---------- Lifecycle ----------

    /** The tables after boot: all free, the given CPUs not leased. */
    constructor (initial: seq<Cpu>, reliable: bool)
      requires |initial| == MASK_CPUS &&
        forall k :: 0 <= k < MASK_CPUS ==> !initial[k].role.AiHot? && initial[k].leaseOwner == 0
      ensures Inv(State()) && cpus == initial && this.reliable == reliable
      ensures forall c :: 0 <= c < MAX_AI_CELLS ==> cells[c].state.Empty?
    {
      cells := seq(MAX_AI_CELLS, _ => Cell(Empty, Manifest({}, 0, 0, 0, 0, 0), []));
      queueOwner := seq(MAX_NIC_QUEUES, _ => 0);
      workspaceOwner := seq(MAX_WORKSPACES + 1, _ => 0);
      leases := seq(MAX_CORE_LEASES, _ => Lease(false, 0, {}));
      cpus := initial;
      models := seq(MAX_MODEL_ARENAS, _ => Model(false, 0));
      arenas := seq(MAX_ARENAS, _ => Arena(Unused, 0));
      bound := seq(MAX_RUNTIME_CELLS, _ => None);
      net := map[];
      this.reliable := reliable;
    }

    method ValidateManifest(m: Manifest) returns (ok: bool)
      requires Mirrored(models, arenas)
      modifies `models, `arenas
      ensures ok <==> ManifestOk(m) && m.model < MAX_MODEL_ARENAS && old(models)[m.model].registered
      ensures models == old(models) && arenas == old(arenas)
    {
      if m.cores == {} || m.kvBytes == 0 || m.sourceBytes == 0 {
        return false;
      }
      if m.workspace == 0 || m.workspace > MAX_WORKSPACES || m.queue >= MAX_NIC_QUEUES {
        return false;
      }
      var acquired := AcquireModel(m.model);
      if !acquired {
        return false;
      }
      var released := ReleaseModel(m.model);
      assert released;
      RefsUndo(old(models), old(arenas), m.model);
      return true;
    }

    method Create(c: nat, m: Manifest) returns (status: Status)
      requires Inv(State())
      modifies this
      ensures Inv(State()) && CellStep(old(State()), EvCreate(c, m), State())
      ensures status.Ok? <==>
        && c < MAX_AI_CELLS && old(cells)[c].state.Empty?
        && m.cores != {} && m.kvBytes != 0 && m.sourceBytes != 0 && 1 <= m.workspace <= 2 && m.queue < 4
        && m.model < 4 && old(models)[m.model].registered
      ensures status.Ok? ==>
        State() == old(State()).(cells := old(cells)[c := old(cells)[c].(state := Created, manifest := m)])
      ensures !status.Ok? ==> status == ErrInvalid && State() == old(State())
    {
      hide ExclusiveOk, ArenasOk, ModelsOk;
      ghost var t := State();
      if c >= MAX_AI_CELLS || !cells[c].state.Empty? {
        return ErrInvalid;
      }
      MemoryMirrors(t);
      var valid := ValidateManifest(m);
      if !valid {
        return ErrInvalid;
      }
      cells := cells[c := cells[c].(state := Created, manifest := m)];
      InvCarry(t, State(), c);
      return Ok;
    }

    method Start(c: nat) returns (status: Status)
      requires Inv(State())
      modifies `cells
      ensures Inv(State()) && CellStep(old(State()), EvStart(c), State())
      ensures status.Ok? <==> c < MAX_AI_CELLS && old(cells)[c].state.Ready?
      ensures cells == if status.Ok? then old(cells)[c := old(cells)[c].(state := Running)] else old(cells)
      ensures !status.Ok? ==> status == ErrInvalid
    {
      ghost var t := State();
      if c >= MAX_AI_CELLS || !cells[c].state.Ready? {
        return ErrInvalid;
      }
      cells := cells[c := cells[c].(state := Running)];
      InvCarry(t, State(), c);
      return Ok;
    }

    /** Queue, workspace and arenas; when one fails, what was taken is released. */
    method TakePlace(c: nat) returns (ok: bool)
      requires Sized(State()) && c < MAX_AI_CELLS && cells[c].arenas == []
      requires forall q :: 0 <= q < MAX_NIC_QUEUES ==> queueOwner[q] != c + 1
      requires forall w :: 0 <= w <= MAX_WORKSPACES ==> workspaceOwner[w] != c + 1
      requires NetOk(queueOwner, net)
      modifies `queueOwner, `net, `workspaceOwner, `cells, `arenas
      ensures ok ==> var m := old(cells)[c].manifest;
        && m.queue < MAX_NIC_QUEUES && old(queueOwner)[m.queue] == 0
        && queueOwner == old(queueOwner)[m.queue := c + 1] && net == old(net)[m.queue := c]
        && 1 <= m.workspace <= MAX_WORKSPACES && old(workspaceOwner)[m.workspace] == 0
        && workspaceOwner == old(workspaceOwner)[m.workspace := c + 1]
        && (forall id :: id in ArenaIds(c) ==> id < MAX_ARENAS && !old(arenas)[id].state.Live?)
        && arenas == SetArenas(old(arenas), ArenaIds(c), Live)
        && cells == old(cells)[c := old(cells)[c].(arenas := ArenaIds(c))]
      ensures !ok ==> queueOwner == old(queueOwner) && net == old(net) && workspaceOwner == old(workspaceOwner)
      ensures !ok ==> cells == old(cells) && SameArenas(old(arenas), arenas)
      ensures reliable && PlaceFree(old(State()), c) ==> ok
    {
      var m := cells[c].manifest;
      ok := BindQueue(c, m.queue);
      if ok {
        ok := BindWorkspace(c, m.workspace);
        if ok {
          ok := ReserveArenas(c);
        }
      }
      if !ok {
        ReleaseQueue(c, m.queue);
        ReleaseWorkspace(c, m.workspace);
        assert net == old(net);
      }
    }

    /** Gives cores and the first model reference back: the tables own what `t` did. */
    method Unwind(c: nat, ghost t: Tables)
      requires Clean(t, c) && cells == t.cells
      requires var m := t.cells[c].manifest;
        && CanLease(t.cpus, t.leases, m.cores, c) && cpus == MarkCpus(t.cpus, m.cores, c + 1)
        && leases == t.leases[FirstIdle(t.leases, 0) := Lease(true, c, m.cores)]
        && m.model < MAX_MODEL_ARENAS && t.models[m.model].registered && models == AddModelRef(t.models, m.model, 1)
        && SameArenas(AddArenaRef(t.arenas, m.model, 1), arenas)
      modifies `cpus, `leases, `models, `arenas
      ensures cpus == t.cpus && SameLeases(t.leases, leases) && models == t.models && SameArenas(t.arenas, arenas)
    {
      var m := cells[c].manifest;
      UndoCores(c, m.cores, t.cpus, t.leases, FirstIdle(t.leases, 0));
      RefGivenBack(t.models, t.arenas, m.model, arenas);
      var released := ReleaseModel(m.model);
      assert released;
    }

    /** Releases the lease taken from `was` and `wasLeases`. */
    method UndoCores(c: nat, ghost mask: CoreMask, ghost was: seq<Cpu>, ghost wasLeases: seq<Lease>, ghost at: nat)
      requires |was| == MASK_CPUS && AllCpusOk(was) && OnlyLease(wasLeases, c, |wasLeases|)
      requires ValidMask(was, mask) && cpus == MarkCpus(was, mask, c + 1)
      requires at < |wasLeases| && !wasLeases[at].active && leases == wasLeases[at := Lease(true, c, mask)]
      modifies `cpus, `leases
      ensures cpus == was && SameLeases(wasLeases, leases)
    {
      UnmarkRestores(was, mask, c + 1);
      var freed := ReleaseCores(c, at);
      assert freed;
    }

    method Prepare(c: nat) returns (status: Status, tokenizerFailed: bool)
      requires Inv(State())
      modifies this
      ensures Inv(State()) && CellStep(old(State()), EvPrepare(c), State())
      ensures !(c < MAX_AI_CELLS && old(cells)[c].state.Created?) ==> status == ErrInvalid && State() == old(State())
      ensures c < MAX_AI_CELLS && old(cells)[c].state.Created? ==>
        if status.Ok? then PrepareDone(old(State()), State(), c)
        else status == ErrInvalid && PrepareFailed(old(State()), State(), c, tokenizerFailed)
      ensures reliable && c < MAX_AI_CELLS && old(cells)[c].state.Created? ==>
        var m := old(cells)[c].manifest;
        status.Ok? <==>
        && c < 4 && m.model < 4 && old(models)[m.model].registered
        && m.cores != {} && 0 !in m.cores
        && (forall k :: k in m.cores ==> old(cpus)[k].online && !old(cpus)[k].role.Housekeeping?)
        && (forall d: nat :: HoldsAt(old(cells), d) ==>
              var h := old(cells)[d].manifest; m.cores !! h.cores && m.queue != h.queue && m.workspace != h.workspace)
    {
      hide Admits, ExclusiveOk, MemoryOk, CellsOk, RuntimeOk;
      ghost var t := State();
      tokenizerFailed := false;
      if c >= MAX_AI_CELLS || !cells[c].state.Created? {
        return ErrInvalid, false;
      }
      IdleIsClean(t, c);
      AdmissionExact(t, c);
      status, tokenizerFailed := PrepareCreated(c);
      if status.Ok? {
        DoneKeeps(t, State(), c);
      } else {
        FailedKeeps(t, State(), c, tokenizerFailed);
      }
    }

    method PrepareCreated(c: nat) returns (status: Status, tokenizerFailed: bool)
      requires Clean(State(), c)
      modifies this
      ensures if status.Ok? then PrepareDone(old(State()), State(), c)
              else status == ErrInvalid && PrepareFailed(old(State()), State(), c, tokenizerFailed)
      ensures reliable ==> (status.Ok? <==> Admits(old(State()), c))
    {
      var ok;
      ok, tokenizerFailed := TakeAll(c);
      cells := cells[c := cells[c].(state := if ok then Ready else Failed)];
      status := if ok then Ok else ErrInvalid;
    }

    /** Everything prepare acquires, with every unwinding path. */
    method TakeAll(c: nat) returns (ok: bool, tokenizerFailed: bool)
      requires Clean(State(), c)
      modifies this
      ensures ok ==> TookExclusive(old(State()), State(), c) && TookMemory(old(State()), State(), c)
      ensures ok ==> cells == old(cells)[c := old(cells)[c].(arenas := ArenaIds(c))]
      ensures ok ==>
        c < MAX_RUNTIME_CELLS && old(bound)[c] == None && bound == old(bound)[c := Some(old(cells)[c].manifest.model)]
      ensures !ok ==> cells == old(cells) && SameOwnership(old(State()), State())
      ensures !ok ==> LeftBound(old(bound), bound, c, cells[c].manifest.model, tokenizerFailed)
      ensures reliable ==> (ok <==> Admits(old(State()), c))
    {
      hide CanLease, OnlyLease, Mirrored, MarkCpus;
      ghost var t := State();
      tokenizerFailed := false;
      ok := TakeModelAndCores(c);
      if !ok {
        return;
      }
      ok := TakePlace(c);
      if !ok {
        Unwind(c, t);
        return;
      }
      ok, tokenizerFailed := BindOrRelease(c, t);
    }

    method TakeModelAndCores(c: nat) returns (ok: bool)
      requires Clean(State(), c)
      modifies `models, `arenas, `cpus, `leases
      ensures ok ==> var m := cells[c].manifest;
        && CanLease(old(cpus), old(leases), m.cores, c) && cpus == MarkCpus(old(cpus), m.cores, c + 1)
        && leases == old(leases)[FirstIdle(old(leases), 0) := Lease(true, c, m.cores)]
        && m.model < MAX_MODEL_ARENAS && old(models)[m.model].registered
        && models == AddModelRef(old(models), m.model, 1) && arenas == AddArenaRef(old(arenas), m.model, 1)
      ensures !ok ==> models == old(models) && arenas == old(arenas) && cpus == old(cpus) && leases == old(leases)
      ensures var m := cells[c].manifest;
        m.model < MAX_MODEL_ARENAS && old(models)[m.model].registered ==>
        (CanLease(old(cpus), old(leases), m.cores, c) ==> ok)
    {
      var m := cells[c].manifest;
      ok := AcquireModel(m.model);
      if !ok {
        return;
      }
      ok := AcquireCores(c, m.cores);
      if !ok {
        var released := ReleaseModel(m.model);
        assert released;
        RefsUndo(old(models), old(arenas), m.model);
      }
    }

    /** The last acquisition; on failure also destroys the arenas and releases queue and workspace. */
    method BindOrRelease(c: nat, ghost t: Tables) returns (ok: bool, tokenizerFailed: bool)
      requires Clean(t, c) && TookExclusive(t, State(), c) && TookArenas(t, State(), c) && bound == t.bound
      modifies this
      ensures ok ==> TookExclusive(t, State(), c) && TookMemory(t, State(), c) && cells == old(cells)
      ensures ok ==>
        c < MAX_RUNTIME_CELLS && t.bound[c] == None && bound == t.bound[c := Some(t.cells[c].manifest.model)]
      ensures !ok ==> cells == t.cells && SameOwnership(t, State())
      ensures !ok ==> LeftBound(t.bound, bound, c, t.cells[c].manifest.model, tokenizerFailed)
      ensures reliable && c < MAX_RUNTIME_CELLS && t.bound[c] == None ==> ok
    {
      ghost var s := State();
      TakenMirrors(t, s, c);
      ok, tokenizerFailed := BindModel(c, cells[c].manifest.model);
      if ok {
        TakenTwice(t, s, c);
      } else {
        GiveBackTaken(c, t);
      }
    }

    /** Everything taken before the binding. */
    method GiveBackTaken(c: nat, ghost t: Tables)
      requires Clean(t, c) && TookExclusive(t, State(), c) && TookArenas(t, State(), c) && |bound| == MAX_RUNTIME_CELLS
      modifies `cells, `cpus, `leases, `models, `arenas, `queueOwner, `net, `workspaceOwner
      ensures cells == t.cells && SameOwnership(t, State())
    {
      ghost var s := State();
      TakenPlace(t, s, c);
      GiveBackPlace(c);
      PlaceUndone(t, s, c);
      Unwind(c, t);
    }

    /** Arenas destroyed, then queue and workspace released. */
    method GiveBackPlace(c: nat)
      requires Sized(State()) && c < MAX_AI_CELLS && OwnsPlace(State(), c)
      modifies `cells, `arenas, `queueOwner, `net, `workspaceOwner
      ensures cells == old(cells)[c := old(cells)[c].(arenas := [])]
      ensures arenas == SetArenas(old(arenas), ArenaIds(c), Destroyed)
      ensures var m := old(cells)[c].manifest;
        && queueOwner == old(queueOwner)[m.queue := 0] && net == old(net) - {m.queue}
        && workspaceOwner == old(workspaceOwner)[m.workspace := 0]
    {
      DestroyCellArenas(c);
      ReleaseQueue(c, cells[c].manifest.queue);
      ReleaseWorkspace(c, cells[c].manifest.workspace);
    }

    method Stop(c: nat) returns (status: Status)
      requires Inv(State())
      modifies this
      ensures Inv(State()) && CellStep(old(State()), EvStop(c), State())
      ensures status.Ok? <==> c < MAX_AI_CELLS && old(cells)[c].state.Running?
      ensures status.Ok? ==> exists at :: 0 <= at < MAX_CORE_LEASES && StopDone(old(State()), State(), c, at)
      ensures !status.Ok? ==> status == ErrInvalid && State() == old(State())
    {
      ghost var t := State();
      if c >= MAX_AI_CELLS || !cells[c].state.Running? {
        return ErrInvalid;
      }
      MemoryServes(t, c);
      ghost var at := PlaceServes(t, c);
      StopRunning(c, at);
      StopKeeps(t, State(), c, at);
      return Ok;
    }

    /** Every release of a stop; no assertion on the way can fail. */
    method StopRunning(c: nat, ghost at: nat)
      requires Sized(State()) && c < MAX_AI_CELLS && ServingMemory(State(), c) && ServingPlace(State(), c, at)
      modifies this
      ensures StopDone(old(State()), State(), c, at)
    {
      GiveBackModel(c);
      GiveBackExclusive(c, at);
      DestroyCellArenas(c);
      cells := cells[c := cells[c].(state := Stopped)];
    }

    /** The binding and both model references. */
    method GiveBackModel(c: nat)
      requires Sized(State()) && c < MAX_AI_CELLS && ServingMemory(State(), c)
      modifies `models, `arenas, `bound
      ensures var m := cells[c].manifest.model;
        models == AddModelRef(old(models), m, -2) && arenas == AddArenaRef(old(arenas), m, -2)
      ensures bound == old(bound)[c := None]
    {
      var m := cells[c].manifest.model;
      RefsTwice(models, arenas, m, -1);
      var unbound := UnbindModel(c);
      assert unbound;
      var released := ReleaseModel(m);
      assert released;
    }

    /** Cores, queue and workspace. */
    method GiveBackExclusive(c: nat, ghost at: nat)
      requires Sized(State()) && c < MAX_AI_CELLS && ServingPlace(State(), c, at)
      modifies `cpus, `leases, `queueOwner, `net, `workspaceOwner
      ensures GaveExclusive(old(State()), State(), c, at)
    {
      var m := cells[c].manifest;
      var freed := ReleaseCores(c, at);
      assert freed;
      ReleaseQueue(c, m.queue);
      ReleaseWorkspace(c, m.workspace);
    }
  }
}
