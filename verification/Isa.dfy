/**
 The reference meaning of the instructions at operand level, after section 3.2 of MIPS32
 Architecture For Programmers, Volume II, and the machine that runs resolved text lines by
 address. Register 0 reads as zero and ignores writes; there are no delay slots; a branch
 offset is a byte distance from the branch itself, and a jump operand is an absolute address,
 as label resolution produces them.
 */
module Isa {
  import opened Words
  import opened Source
  import opened Layout

  datatype Option<+T> = None | Some(value: T)

  type RegFile = r: seq<bv32> | |r| == 32 witness seq(32, i => 0)

  /** The register an operand names. */
  function Ix(a: Argument): (i: nat)
    ensures i < 32
  {
    a.val % 32
  }

  function Read(regs: RegFile, a: Argument): bv32 { if Ix(a) == REG_ZERO then 0 else regs[Ix(a)] }

  function Write(regs: RegFile, a: Argument, v: bv32): RegFile { if Ix(a) == REG_ZERO then regs else regs[Ix(a) := v] }

  /** What instructions read and write besides the program counter. */
  datatype Core = Core(regs: RegFile, hi: bv32, lo: bv32, mem: map<int, bv8>)

  // ---- Arithmetic ----

  /** A register plus a sign-extended immediate: also the address of a load or a store. */
  function Effective(x: bv32, v: bv32): bv32 { Sum(x, SignExt16(v)) }

  function AluReg(op: Op, x: bv32, y: bv32): bv32 {
    match op
    case Add | Addu => Sum(x, y)
    case Sub | Subu => Difference(x, y)
    case And => BitAnd(x, y)
    case Or => BitOr(x, y)
    case Xor => BitXor(x, y)
    case Slt => if SignedLess(x, y) then 1 else 0
    case Sltu => if Less(x, y) then 1 else 0
    case _ => 0
  }

  function ShiftLeft(x: bv32, v: bv32): bv32 { x << ((v & 0x1F) as bv6) }

  function AluImm(op: Op, x: bv32, v: bv32): bv32 {
    match op
    case Addi | Addiu => Effective(x, v)
    case Andi => BitAnd(x, LowHalf(v))
    case Ori => BitOr(x, LowHalf(v))
    case Xori => BitXor(x, LowHalf(v))
    case Sll => ShiftLeft(x, v)
    case Lui => ShiftHalf(LowHalf(v))
    case _ => 0
  }

  /** Division of C++ integers: the quotient is truncated toward zero. */
  function TruncDiv(x: int, y: int): (q: int)
    requires y != 0
  {
    if (x < 0) == (y < 0) then Abs(x) / Abs(y) else -(Abs(x) / Abs(y))
  }

  function TruncRem(x: int, y: int): int
    requires y != 0
  {
    x - TruncDiv(x, y) * y
  }

  function Abs(x: int): nat { if x < 0 then -x else x }

  function ProductOf(op: Op, x: bv32, y: bv32): int { if op.Multu? then Val(x) * Val(y) else Signed(x) * Signed(y) }

  /** HI and LO after a multiplication or a division by a non-zero divisor. */
  function HiLo(op: Op, x: bv32, y: bv32): (bv32, bv32)
    requires (op.Div? || op.Divu?) ==> y != 0
  {
    if op.Div? then NonZero(y); (Word(TruncRem(Signed(x), Signed(y))), Word(TruncDiv(Signed(x), Signed(y))))
    else if op.Divu? then NonZero(y); (Word(Val(x) % Val(y)), Word(Val(x) / Val(y)))
    else (Word(ProductOf(op, x, y) / MODULUS), Word(ProductOf(op, x, y)))
  }

  // Addresses are numbers below 2^32 and wrap.
  function LoadWord(mem: map<int, bv8>, a: int): bv32 {
    Join(LoadByte(mem, Bump(a, 0)), LoadByte(mem, Bump(a, 1)), LoadByte(mem, Bump(a, 2)), LoadByte(mem, Bump(a, 3)))
  }

  function LoadByte(mem: map<int, bv8>, a: int): bv8 { if a in mem then mem[a] else 0 }

  function StoreWord(mem: map<int, bv8>, a: int, w: bv32): map<int, bv8> {
    mem[Bump(a, 0) := Byte3(w)][Bump(a, 1) := Byte2(w)][Bump(a, 2) := Byte1(w)][Bump(a, 3) := Byte0(w)]
  }

  // ---- Instructions without control flow ----

  predicate IsAluReg(op: Op) {
    op.Add? || op.Addu? || op.Sub? || op.Subu? || op.And? || op.Or? || op.Xor? || op.Slt? || op.Sltu?
  }

  predicate IsAluImm(op: Op) {
    op.Addi? || op.Addiu? || op.Andi? || op.Ori? || op.Xori? || op.Sll? || op.Lui?
  }

  predicate IsMulDiv(op: Op) { op.Mult? || op.Multu? || op.Div? || op.Divu? }

  predicate IsPlain(op: Op) {
    IsAluReg(op) || IsAluImm(op) || IsMulDiv(op) ||
    op.Mfhi? || op.Mflo? || op.Mthi? || op.Mtlo? || op.Lw? || op.Sw?
  }

  // Which of its register operands an instruction reads.
  predicate ReadsA0(op: Op) { IsMulDiv(op) || op.Mthi? || op.Mtlo? || op.Sw? }

  predicate ReadsA1(op: Op) { IsAluReg(op) || (IsAluImm(op) && !op.Lui?) || IsMulDiv(op) || op.Lw? || op.Sw? }

  predicate ReadsA2(op: Op) { IsAluReg(op) }

  function Operand(used: bool, regs: RegFile, a: Argument): bv32 { if used then Read(regs, a) else 0 }

  /** What an instruction produces: perhaps a value for its first register, and the rest of the core. */
  datatype Effect = Effect(result: Option<bv32>, hi: bv32, lo: bv32, mem: map<int, bv8>)

  /** The effect of an instruction on its operand values; division by zero has none. */
  function EffectOf(op: Op, x0: bv32, x1: bv32, x2: bv32, v: bv32, hi: bv32, lo: bv32, mem: map<int, bv8>):
    Option<Effect>
  {
    if IsAluReg(op) then Some(Effect(Some(AluReg(op, x1, x2)), hi, lo, mem))
    else if IsAluImm(op) then Some(Effect(Some(AluImm(op, x1, v)), hi, lo, mem))
    else if IsMulDiv(op) then
      if (op.Div? || op.Divu?) && x1 == 0 then None
      else Some(Effect(None, HiLo(op, x0, x1).0, HiLo(op, x0, x1).1, mem))
    else if op.Mfhi? then Some(Effect(Some(hi), hi, lo, mem))
    else if op.Mflo? then Some(Effect(Some(lo), hi, lo, mem))
    else if op.Mthi? then Some(Effect(None, x0, lo, mem))
    else if op.Mtlo? then Some(Effect(None, hi, x0, mem))
    else if op.Lw? then Some(Effect(Some(LoadWord(mem, Val(Effective(x1, v)))), hi, lo, mem))
    else if op.Sw? then Some(Effect(None, hi, lo, StoreWord(mem, Val(Effective(x1, v)), x0)))
    else None
  }

  function Apply(c: Core, a: Argument, e: Effect): Core {
    Core(if e.result.Some? then Write(c.regs, a, e.result.value) else c.regs, e.hi, e.lo, e.mem)
  }

  /** An instruction that only moves to the next one. */
  function Exec(t: TextInfo, c: Core): Option<Core> { ExecOp(t.op, t.a0, t.a1, t.a2, c) }

  function ExecOp(op: Op, a0: Argument, a1: Argument, a2: Argument, c: Core): Option<Core> {
    var e := EffectOf(op, Operand(ReadsA0(op), c.regs, a0), Operand(ReadsA1(op), c.regs, a1),
                      Operand(ReadsA2(op), c.regs, a2), Word(a2.val), c.hi, c.lo, c.mem);
    if e.None? then None else Some(Apply(c, a0, e.value))
  }

  // ---- The machine over text lines ----

  datatype Machine = Machine(core: Core, pc: int)

  /** The instruction at an address: the first line there that has an operation. */
  function Fetch(text: seq<TextInfo>, pc: int): Option<TextInfo> {
    if text == [] then None
    else if text[0].addr == pc && !text[0].op.OpNull? then Some(text[0])
    else Fetch(text[1..], pc)
  }

  /** A 16-bit field read as a signed distance. */
  function Distance16(v: int): int { if v % 0x1_0000 < 0x8000 then v % 0x1_0000 else v % 0x1_0000 - 0x1_0000 }

  const RA := Arg(SymRegister, REG_RETURN)

  function Step(text: seq<TextInfo>, m: Machine): Option<Machine> {
    match Fetch(text, m.pc)
    case None => None
    case Some(t) => StepLine(t, m)
  }

  function StepLine(t: TextInfo, m: Machine): Option<Machine> {
    var next := Bump(m.pc, 4);
    match t.op
    case Beq | Bne =>
      var equal := Read(m.core.regs, t.a0) == Read(m.core.regs, t.a1);
      Some(m.(pc := if equal == (t.op.Beq?) then Bump(m.pc, Distance16(t.a2.val)) else next))
    case J => Some(m.(pc := Bump(t.a0.val, 0)))
    case Jal => Some(Machine(m.core.(regs := Write(m.core.regs, RA, Word(next))), Bump(t.a0.val, 0)))
    case Jr => Some(m.(pc := Val(Read(m.core.regs, t.a0))))
    case _ =>
      match Exec(t, m.core)
      case None => None
      case Some(c) => Some(Machine(c, next))
  }

  function Run(text: seq<TextInfo>, m: Machine, n: nat): Option<Machine>
    decreases n
  {
    if n == 0 then Some(m)
    else
      match Step(text, m)
      case None => None
      case Some(m') => Run(text, m', n - 1)
  }

  lemma {:induction false} RunTwice(text: seq<TextInfo>, m: Machine, n: nat, k: nat)
    ensures Run(text, m, n + k) == match Run(text, m, n) case None => None case Some(m') => Run(text, m', k)
    decreases n
  {
    hide Step;
    if n != 0 && Step(text, m).Some? {
      RunTwice(text, Step(text, m).value, n - 1, k);
    }
  }
}
