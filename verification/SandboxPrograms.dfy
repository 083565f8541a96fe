/**
 Programs of the sandbox build VM, for all their operands: what they write, and after how many
 cycles they stop. Between them they use every instruction.
 */
module SandboxPrograms {
  import opened Machine
  import opened Modular
  import opened SandboxVm

  function Load(dst: byte, imm: nat): Insn { Insn(1, dst, 0, 0, imm) }

  function Add(dst: byte, a: byte, b: byte): Insn { Insn(2, dst, a, b, 0) }

  function Mul(dst: byte, a: byte, b: byte): Insn { Insn(3, dst, a, b, 0) }

  function EmitReg(src: byte): Insn { Insn(4, src, 0, 0, 0) }

  function Compare(dst: byte, a: byte, b: byte): Insn { Insn(5, dst, a, b, 0) }

  function JumpIfSet(cond: byte, target: nat): Insn { Insn(6, cond, 0, 0, target) }

  function Halt(): Insn { Insn(7, 0, 0, 0, 0) }

  function EmitRegs(first: byte, count: nat): Insn { Insn(8, 0, first, 0, count) }

  /** One instruction that emits nothing, then the run behind it. */
  lemma Silent(program: seq<Insn>, r: Regs, pc: nat, cycles: nat)
    requires pc < |program| && cycles < Budget(program) && program[pc].op in {0, 1, 2, 3, 5, 6, 7}
    ensures var i := program[pc];
      Unlimited(program, r, pc, cycles) ==
      Unlimited(program, NextRegs(i, r), NextPc(i, r, pc, |program|), cycles + 1)
  {
    var i := program[pc];
    var o := Unlimited(program, NextRegs(i, r), NextPc(i, r, pc, |program|), cycles + 1);
    assert Emission(i, r) + o.output == o.output;
  }

  /** One instruction that emits, then the run behind it. */
  lemma Emitting(program: seq<Insn>, r: Regs, pc: nat, cycles: nat)
    requires pc < |program| && cycles < Budget(program) && program[pc].op in {4, 8}
    ensures Unlimited(program, r, pc, cycles) ==
            Behind(Emission(program[pc], r), Unlimited(program, r, pc + 1, cycles + 1))
  {
  }

  lemma Ended(program: seq<Insn>, r: Regs, pc: nat, cycles: nat)
    requires cycles <= Budget(program) && (pc >= |program| || cycles == Budget(program))
    ensures Unlimited(program, r, pc, cycles) == Outcome([], Ok, cycles)
  {
  }

  // ---------- Straight code ----------

  /** Loads and emits every byte of a text in turn, before a last instruction. */
  function Spelling(text: seq<byte>, last: Insn): (p: seq<Insn>)
    ensures |p| == 2 * |text| + 1
  {
    if text == [] then [last] else [Load(0, text[0]), EmitReg(0)] + Spelling(text[1..], last)
  }

  lemma {:induction false} SpellingAt(text: seq<byte>, last: Insn, k: nat)
    requires k <= |text|
    ensures var p := Spelling(text, last);
      if k == |text| then p[2 * k] == last else p[2 * k] == Load(0, text[k]) && p[2 * k + 1] == EmitReg(0)
  {
    if k > 0 { SpellingAt(text[1..], last, k - 1); }
  }

  /**
   Any text can be written, two cycles a byte; halting and running off the end are success, an
   unknown operation is not.
   */
  lemma SpellingWrites(text: seq<byte>, last: Insn)
    requires last.op == 0 || last.op == 7 || last.op > 8
    ensures Unlimited(Spelling(text, last), Start(), 0, 0) ==
            Outcome(text, if last.op > 8 then ErrInvalid else Ok, 2 * |text| + 1)
  {
    hide Unlimited, Spelling;
    SpellingFrom(text, last, Start(), 0);
    assert text[0..] == text;
  }

  lemma {:induction false} SpellingFrom(text: seq<byte>, last: Insn, r: Regs, k: nat)
    requires k <= |text| && (last.op == 0 || last.op == 7 || last.op > 8)
    ensures Unlimited(Spelling(text, last), r, 2 * k, 2 * k) ==
            Outcome(text[k..], if last.op > 8 then ErrInvalid else Ok, 2 * |text| + 1)
    decreases |text| - k
  {
    hide Unlimited, Spelling;
    var p := Spelling(text, last);
    SpellingAt(text, last, k);
    if k == |text| {
      LastOne(p, r, 2 * k);
    } else {
      var loaded: Regs := r[0 := text[k]];
      LoadsByte(r, 0, text[k]);
      Silent(p, r, 2 * k, 2 * k);
      Emitting(p, loaded, 2 * k + 1, 2 * k + 1);
      SpellingFrom(text, last, loaded, k + 1);
      assert text[k..] == [text[k]] + text[k + 1..];
    }
  }

  lemma LastOne(program: seq<Insn>, r: Regs, pc: nat)
    requires pc + 1 == |program| && (program[pc].op == 0 || program[pc].op == 7 || program[pc].op > 8)
    ensures Unlimited(program, r, pc, pc) == Outcome([], if program[pc].op > 8 then ErrInvalid else Ok, pc + 1)
  {
    hide NextRegs;
    if program[pc].op <= 8 {
      Ended(program, NextRegs(program[pc], r), pc + 1, pc + 1);
    }
  }

  lemma LoadsByte(r: Regs, d: byte, b: byte)
    requires d < 8
    ensures NextRegs(Load(d, b), r) == r[d := b] && Emission(EmitReg(d), r[d := b]) == [b]
  {
  }

  // ---------- Arithmetic ----------

  /** Loads two numbers, puts them through an instruction and emits the result. */
  function Calculation(x: nat, y: nat, insn: Insn): seq<Insn> { [Load(1, x), Load(2, y), insn, EmitReg(3), Halt()] }

  lemma CalculationRuns(x: nat, y: nat, insn: Insn)
    requires insn.op in {2, 3, 5} && insn.dst == 3 && insn.src1 == 1 && insn.src2 == 2
    ensures var r: Regs := [0, Signed32(x), Signed32(y), 0, 0, 0, 0, 0];
      Unlimited(Calculation(x, y, insn), Start(), 0, 0) == Outcome([LowByte(NextRegs(insn, r)[3])], Ok, 5)
  {
    hide Unlimited, Signed32, LowByte, Wrap64;
    var p := Calculation(x, y, insn);
    var r: Regs := [0, Signed32(x), 0, 0, 0, 0, 0, 0];
    var s: Regs := [0, Signed32(x), Signed32(y), 0, 0, 0, 0, 0];
    var t := NextRegs(insn, s);
    assert NextRegs(p[0], Start()) == r && NextRegs(p[1], r) == s;
    Silent(p, Start(), 0, 0);
    Silent(p, r, 1, 1);
    Silent(p, s, 2, 2);
    Emitting(p, t, 3, 3);
    Silent(p, t, 4, 4);
    Ended(p, t, 5, 5);
  }

  /** Sums, products and comparisons of any 32-bit numbers. */
  lemma CalculationWrites(x: nat, y: nat)
    requires x < TWO32 && y < TWO32
    ensures Unlimited(Calculation(x, y, Add(3, 1, 2)), Start(), 0, 0) == Outcome([(x + y) % 256], Ok, 5)
    ensures Unlimited(Calculation(x, y, Mul(3, 1, 2)), Start(), 0, 0) == Outcome([x * y % 256], Ok, 5)
    ensures Unlimited(Calculation(x, y, Compare(3, 1, 2)), Start(), 0, 0) ==
            Outcome([if x == y then 0 else 1], Ok, 5)
  {
    hide Unlimited, Calculation, NextRegs, LowByte, Wrap64, Signed32;
    CalculationRuns(x, y, Add(3, 1, 2));
    CalculationRuns(x, y, Mul(3, 1, 2));
    CalculationRuns(x, y, Compare(3, 1, 2));
    Results(Signed32(x), Signed32(y));
    LowSum(x, y);
    LowProduct(x, y);
    SameSigned(x, y);
  }

  lemma Results(a: int, b: int)
    ensures var r: Regs := [0, a, b, 0, 0, 0, 0, 0];
      && NextRegs(Add(3, 1, 2), r)[3] == Wrap64(a + b) && NextRegs(Mul(3, 1, 2), r)[3] == Wrap64(a * b)
      && LowByte(NextRegs(Compare(3, 1, 2), r)[3]) == if a == b then 0 else 1
  {
    hide Wrap64;
  }

  lemma SameSigned(x: nat, y: nat)
    requires x < TWO32 && y < TWO32
    ensures Signed32(x) == Signed32(y) <==> x == y
  {
  }

  lemma LowSum(x: nat, y: nat)
    requires x < TWO32 && y < TWO32
    ensures LowByte(Wrap64(Signed32(x) + Signed32(y))) == (x + y) % 256
  {
    hide Wrap64, LowByte;
    LowWrap(Signed32(x) + Signed32(y));
  }

  lemma LowProduct(x: nat, y: nat)
    requires x < TWO32 && y < TWO32
    ensures LowByte(Wrap64(Signed32(x) * Signed32(y))) == x * y % 256
  {
    hide Wrap64, LowByte;
    var a, b := Signed32(x), Signed32(y);
    LowWrap(a * b);
    LowParts(x, y, a < 0, b < 0);
  }

  /** Sign extension does not reach the low byte of a product. */
  lemma LowParts(x: int, y: int, m: bool, n: bool)
    ensures (x - if m then TWO32 else 0) * (y - if n then TWO32 else 0) % 256 == x * y % 256
  {
    var c: int, d: int := if m then 0x100_0000 else 0, if n then 0x100_0000 else 0;
    Distribute(x, y, 256 * c, 256 * d);
    var k := 256 * c * d - c * y - x * d;
    assert (x - 256 * c) * (y - 256 * d) == x * y + k * 256;
    ModShift(x * y, k, 256);
  }

  lemma Distribute(x: int, y: int, c: int, d: int)
    ensures (x - c) * (y - d) == x * y - c * y - x * d + c * d
  {
  }

  lemma LowWrap(v: int)
    ensures LowByte(Wrap64(v)) == v % 256
  {
    var q := (v + TWO63) / TWO64;
    assert Wrap64(v) == v - q * TWO64;
    ModShift(v, -q * 0x100_0000_0000_0000, 256);
  }

  // ---------- A loop ----------

  function Copies(b: byte, n: nat): (s: seq<byte>)
    ensures |s| == n && forall i :: 0 <= i < n ==> s[i] == b
  {
    seq(n, _ => b)
  }

  /** Emits a byte, counts down by one and starts over unless the counter is zero. */
  function Countdown(n: nat, b: byte): (p: seq<Insn>)
    ensures |p| == 7
  {
    [Load(0, n), Load(1, 0xFFFF_FFFF), Load(2, b), EmitReg(2), Add(0, 0, 1), JumpIfSet(0, 3), Halt()]
  }

  /** The loop emits its counter's number of bytes, or as many as the 448 cycles of seven instructions allow. */
  lemma CountdownWrites(n: nat, b: byte)
    requires n < TWO32
    ensures var o := Unlimited(Countdown(n, b), Start(), 0, 0);
      && o.output == Copies(b, if 1 <= n <= 149 then n else 149) && o.status == Ok
      && o.cycles == if 1 <= n <= 148 then 3 * n + 4 else 448
  {
    hide Unlimited;
    var p := Countdown(n, b);
    var r: Regs := [Signed32(n), 0, 0, 0, 0, 0, 0, 0];
    var s: Regs := [Signed32(n), -1, 0, 0, 0, 0, 0, 0];
    var t: Regs := [Signed32(n), -1, b, 0, 0, 0, 0, 0];
    assert NextRegs(p[0], Start()) == r && NextRegs(p[1], r) == s && NextRegs(p[2], s) == t;
    Silent(p, Start(), 0, 0);
    Silent(p, r, 1, 1);
    Silent(p, s, 2, 2);
    CountdownFrom(n, b, Signed32(n), 0);
  }

  lemma {:induction false} CountdownFrom(n: nat, b: byte, v: int, i: nat)
    requires i <= 148 && -TWO32 - TWO32 < v - 148 + i && v < TWO32
    ensures var o := Unlimited(Countdown(n, b), [v, -1, b, 0, 0, 0, 0, 0], 3, 3 + 3 * i);
      && o.output == Copies(b, if 1 <= v <= 149 - i then v else 149 - i) && o.status == Ok
      && o.cycles == if 1 <= v <= 148 - i then 3 * (i + v) + 4 else 448
    decreases 148 - i
  {
    hide Unlimited, Countdown;
    Round(n, b, v, i);
    if i < 148 && v != 1 {
      CountdownFrom(n, b, v - 1, i + 1);
    }
  }

  /** Once around: the byte is out, and the budget, the counter or the next round decides. */
  lemma Round(n: nat, b: byte, v: int, i: nat)
    requires i <= 148 && -TWO32 - TWO32 < v && v < TWO32
    ensures var p := Countdown(n, b);
      Unlimited(p, [v, -1, b, 0, 0, 0, 0, 0], 3, 3 + 3 * i) ==
      Behind([b], if i == 148 then Outcome([], Ok, 448)
                  else if v == 1 then Outcome([], Ok, 3 * i + 7)
                  else Unlimited(p, [v - 1, -1, b, 0, 0, 0, 0, 0], 3, 6 + 3 * i))
  {
    hide Unlimited, NextRegs, Emission;
    var p, c := Countdown(n, b), 3 + 3 * i;
    var r: Regs := [v, -1, b, 0, 0, 0, 0, 0];
    var s: Regs := [v - 1, -1, b, 0, 0, 0, 0, 0];
    RoundRegs(v, b, 0);
    Emitting(p, r, 3, c);
    if i == 148 {
      Ended(p, r, 4, 448);
    } else {
      RoundRegs(v - 1, b, 3);
      Silent(p, r, 4, c + 1);
      Silent(p, s, 5, c + 2);
      if v == 1 {
        Silent(p, s, 6, c + 3);
        Ended(p, s, 7, c + 4);
      }
    }
  }

  lemma RoundRegs(v: int, b: byte, target: nat)
    requires -TWO63 < v < TWO63
    ensures var r: Regs := [v, -1, b, 0, 0, 0, 0, 0];
      && Emission(EmitReg(2), r) == [b] && NextRegs(Add(0, 0, 1), r) == [v - 1, -1, b, 0, 0, 0, 0, 0]
      && NextRegs(JumpIfSet(0, target), r) == r && NextRegs(Halt(), r) == r
  {
    assert Wrap64(v - 1) == v - 1;
  }

  // ---------- Registers in sequence ----------

  /** Fills the registers and emits them round and round. */
  function Rotation(t: seq<byte>, first: byte, count: nat): seq<Insn>
    requires |t| == 8
  {
    [Load(0, t[0]), Load(1, t[1]), Load(2, t[2]), Load(3, t[3]), Load(4, t[4]), Load(5, t[5]), Load(6, t[6]),
     Load(7, t[7]), EmitRegs(first, count), Halt()]
  }

  /** Byte `k` comes from register `first + k`, counted modulo eight. */
  lemma RotationWrites(t: seq<byte>, first: byte, count: nat)
    requires |t| == 8
    ensures var o := Unlimited(Rotation(t, first, count), Start(), 0, 0);
      && |o.output| == count && (forall k :: 0 <= k < count ==> o.output[k] == t[(first + k) % 8])
      && o.status == Ok && o.cycles == 10
  {
    hide Unlimited, Rotation;
    RotationFrom(t, first, count, Start(), 0);
  }

  lemma {:induction false} RotationFrom(t: seq<byte>, first: byte, count: nat, r: Regs, j: nat)
    requires |t| == 8 && j <= 8 && forall i :: 0 <= i < j ==> r[i] == t[i]
    ensures var o := Unlimited(Rotation(t, first, count), r, j, j);
      && |o.output| == count && (forall k :: 0 <= k < count ==> o.output[k] == t[(first + k) % 8])
      && o.status == Ok && o.cycles == 10
    decreases 8 - j
  {
    hide Unlimited;
    var p := Rotation(t, first, count);
    if j < 8 {
      assert p[j] == Load(j, t[j]);
      LoadsByte(r, j, t[j]);
      Silent(p, r, j, j);
      RotationFrom(t, first, count, r[j := t[j]], j + 1);
    } else {
      Emitting(p, r, 8, 8);
      Silent(p, r, 9, 9);
      Ended(p, r, 10, 10);
      forall k | 0 <= k < count ensures RegByte(r, first, k) == t[(first + k) % 8] {}
    }
  }
}
