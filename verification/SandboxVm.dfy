/**
 The sandbox build VM: eight 64-bit registers, a cycle budget, and bytes emitted into an arena
 with a size limit. The emission is defined without a limit; the loop is proved to write exactly
 its first bytes.
 */
module SandboxVm {
  import opened Machine

  const MAX_INSTRUCTIONS: nat := 4096
  const TWO63: int := 0x8000_0000_0000_0000

  datatype Insn = Insn(op: byte, dst: byte, src1: byte, src2: byte, imm: nat)

  type Regs = r: seq<int> | |r| == 8 witness [0, 0, 0, 0, 0, 0, 0, 0]

  /** Two's complement in 64 bits. */
  function Wrap64(x: int): (r: int)
    ensures -TWO63 <= r < TWO63
  {
    (x + TWO63) % TWO64 - TWO63
  }

  function Signed32(x: nat): int { if x % TWO32 < 0x8000_0000 then x % TWO32 else x % TWO32 - TWO32 }

  function LowByte(x: int): byte { x % 256 }

  predicate Known(op: byte) { op <= 8 }

  /** Registers behind an instruction. */
  function NextRegs(i: Insn, r: Regs): Regs
  {
    var d, a, b := i.dst % 8, r[i.src1 % 8], r[i.src2 % 8];
    match i.op
    case 1 => r[d := Signed32(i.imm)]
    case 2 => r[d := Wrap64(a + b)]
    case 3 => r[d := Wrap64(a * b)]
    case 5 => r[d := if a == b then 0 else 1]
    case _ => r
  }

  /** Program counter behind an instruction of a program of `n`. */
  function NextPc(i: Insn, r: Regs, pc: nat, n: nat): nat
  {
    match i.op
    case 6 => if r[i.dst % 8] != 0 then i.imm else pc + 1
    case 7 => n
    case _ => pc + 1
  }

  /** Low bytes of registers in sequence. */
  function StrBytes(r: Regs, src: byte, count: nat): (s: seq<byte>)
    ensures |s| == count && forall k :: 0 <= k < count ==> s[k] == RegByte(r, src, k)
  {
    seq(count, (k: nat) => RegByte(r, src, k))
  }

  function RegByte(r: Regs, src: int, k: nat): byte
    requires src >= 0
  {
    LowByte(r[(src + k) % 8])
  }

  /** What an instruction emits when there is room for everything. */
  function Emission(i: Insn, r: Regs): seq<byte>
  {
    match i.op
    case 4 => [LowByte(r[i.dst % 8])]
    case 8 => StrBytes(r, i.src1, i.imm)
    case _ => []
  }

  datatype Outcome = Outcome(output: seq<byte>, status: Status, cycles: nat)

  function Budget(program: seq<Insn>): nat { 64 * |program| }

  /** The run from a machine state, with an arena that never fills. */
  function Unlimited(program: seq<Insn>, r: Regs, pc: nat, cycles: nat): (o: Outcome)
    requires cycles <= Budget(program)
    ensures cycles <= o.cycles <= Budget(program)
    decreases Budget(program) - cycles
  {
    if pc >= |program| || cycles == Budget(program) then Outcome([], Ok, cycles)
    else if !Known(program[pc].op) then Outcome([], ErrInvalid, cycles + 1)
    else
      var i := program[pc];
      var o := Unlimited(program, NextRegs(i, r), NextPc(i, r, pc, |program|), cycles + 1);
      o.(output := Emission(i, r) + o.output)
  }

  function Start(): Regs { [0, 0, 0, 0, 0, 0, 0, 0] }

  /**
   Runs a program with an arena of `limit` bytes: stops within its budget, writes nothing behind
   the limit, and what it writes is the first `limit` bytes of the unlimited emission.
   */
  method Execute(program: seq<Insn>, arena: array<byte>, limit: nat) returns (status: Status, written: nat, cycles: nat)
    requires limit <= arena.Length
    modifies arena
    ensures 0 < |program| <= MAX_INSTRUCTIONS ==>
      var o := Unlimited(program, Start(), 0, 0);
      && status == o.status && cycles == o.cycles <= Budget(program)
      && written == Min(limit, |o.output|) && arena[..written] == o.output[..written]
    ensures !(0 < |program| <= MAX_INSTRUCTIONS) ==> status == ErrInvalid && written == cycles == 0
    ensures forall k :: written <= k < arena.Length ==> arena[k] == old(arena[k])
  {
    hide NextRegs, Emission, NextPc;
    var regs: Regs := [0, 0, 0, 0, 0, 0, 0, 0];
    var pc: nat := 0;
    cycles, written := 0, 0;
    if |program| == 0 || |program| > MAX_INSTRUCTIONS {
      return ErrInvalid, 0, 0;
    }
    ghost var emitted: seq<byte> := [];
    ghost var all := Unlimited(program, regs, pc, cycles);
    assert [] + all.output == all.output;
    while pc < |program| && cycles < Budget(program)
      invariant cycles <= Budget(program) && written == Min(limit, |emitted|)
      invariant all == Behind(emitted, Unlimited(program, regs, pc, cycles))
      invariant arena[..written] == emitted[..written]
      invariant forall k :: written <= k < arena.Length ==> arena[k] == old(arena[k])
      decreases Budget(program) - cycles
    {
      var insn := program[pc];
      if !Known(insn.op) {
        assert emitted + [] == emitted;
        return ErrInvalid, written, cycles + 1;
      }
      written := Emit(insn, regs, arena, limit, written, emitted);
      EmitStep(emitted, Emission(insn, regs),
        Unlimited(program, NextRegs(insn, regs), NextPc(insn, regs, pc, |program|), cycles + 1));
      emitted := emitted + Emission(insn, regs);
      regs, pc := Compute(insn, regs, pc, |program|);
      cycles := cycles + 1;
    }
    assert emitted + [] == emitted;
    status := Ok;
  }

  function Behind(emitted: seq<byte>, o: Outcome): Outcome { o.(output := emitted + o.output) }

  lemma EmitStep(emitted: seq<byte>, e: seq<byte>, o: Outcome)
    ensures Behind(emitted, o.(output := e + o.output)) == Behind(emitted + e, o)
  {
  }

  /** Registers and program counter of one instruction. */
  method Compute(insn: Insn, regs: Regs, pc: nat, n: nat) returns (regs': Regs, pc': nat)
    requires Known(insn.op)
    ensures regs' == NextRegs(insn, regs) && pc' == NextPc(insn, regs, pc, n)
  {
    var dst, s1, s2 := insn.dst % 8, insn.src1 % 8, insn.src2 % 8;
    regs', pc' := regs, pc + 1;
    if insn.op == 1 {
      regs' := regs[dst := Signed32(insn.imm)];
    } else if insn.op == 2 {
      regs' := regs[dst := Wrap64(regs[s1] + regs[s2])];
    } else if insn.op == 3 {
      regs' := regs[dst := Wrap64(regs[s1] * regs[s2])];
    } else if insn.op == 5 {
      regs' := regs[dst := if regs[s1] == regs[s2] then 0 else 1];
    } else if insn.op == 6 {
      pc' := if regs[dst] != 0 then insn.imm else pc + 1;
    } else if insn.op == 7 {
      pc' := n;
    }
  }

  /** The bytes of one instruction, as far as there is room. */
  method Emit(insn: Insn, regs: Regs, arena: array<byte>, limit: nat, pos: nat, ghost emitted: seq<byte>)
    returns (written: nat)
    requires limit <= arena.Length && pos == Min(limit, |emitted|) && arena[..pos] == emitted[..pos]
    modifies arena
    ensures var e := emitted + Emission(insn, regs); written == Min(limit, |e|) && arena[..written] == e[..written]
    ensures forall k :: written <= k < arena.Length ==> arena[k] == old(arena[k])
  {
    written := pos;
    ghost var e := emitted + Emission(insn, regs);
    assert e[..pos] == emitted[..pos];
    if insn.op == 4 {
      if written < limit {
        arena[written] := LowByte(regs[insn.dst % 8]);
        written := written + 1;
      }
    } else if insn.op == 8 {
      written := EmitStr(insn, regs, arena, limit, pos, emitted);
    } else {
      assert e == emitted;
    }
  }

  method EmitStr(insn: Insn, regs: Regs, arena: array<byte>, limit: nat, pos: nat, ghost emitted: seq<byte>)
    returns (written: nat)
    requires limit <= arena.Length && pos == Min(limit, |emitted|) && arena[..pos] == emitted[..pos]
    modifies arena
    ensures var e := emitted + StrBytes(regs, insn.src1, insn.imm);
      written == Min(limit, |e|) && arena[..written] == e[..written]
    ensures forall k :: written <= k < arena.Length ==> arena[k] == old(arena[k])
  {
    hide StrBytes, RegByte;
    written := pos;
    ghost var e := emitted + StrBytes(regs, insn.src1, insn.imm);
    assert e[..pos] == emitted[..pos];
    var i := 0;
    while i < insn.imm && written < limit
      invariant 0 <= i <= insn.imm && pos <= written <= limit
      invariant written == Min(limit, |emitted| + i) && (i > 0 ==> written == |emitted| + i)
      invariant arena[..written] == e[..written]
      invariant forall k :: written <= k < arena.Length ==> arena[k] == old(arena[k])
    {
      assert e[written] == StrBytes(regs, insn.src1, insn.imm)[i];
      arena[written] := RegByte(regs, insn.src1, i);
      assert arena[..written + 1] == arena[..written] + [e[written]];
      written, i := written + 1, i + 1;
    }
  }
}
