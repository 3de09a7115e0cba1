/**
 What instructions mean in numbers: the reference machine first, then one tick of the emulator over the
 word of every operation the assembler encodes, by the operands of its line.
 */
module AssembledLines {
  import opened Words
  import opened Source
  import opened Layout
  import opened Isa
  import opened Encoding
  import opened Cpu
  import opened Agreement
  import opened EndToEnd
  import opened Arithmetic
  import opened Instructions
  import DataCache
  import Emulation
  import HiLo
  import Reassembly

  // ---- The reference machine ----

  /** The result of a register instruction. */
  ghost predicate Means(op: Op, x: bv32, y: bv32, r: bv32) {
    match op
    case Add | Addu => Val(r) == (Val(x) + Val(y)) % MODULUS
    case Sub | Subu => Val(r) == (Val(x) - Val(y)) % MODULUS
    case And => forall i: nat :: Bit(Val(r), i) <==> Bit(Val(x), i) && Bit(Val(y), i)
    case Or => forall i: nat :: Bit(Val(r), i) <==> Bit(Val(x), i) || Bit(Val(y), i)
    case Xor => forall i: nat :: Bit(Val(r), i) <==> Bit(Val(x), i) != Bit(Val(y), i)
    case Slt => Val(r) == if Signed(x) < Signed(y) then 1 else 0
    case Sltu => Val(r) == if Val(x) < Val(y) then 1 else 0
    case _ => true
  }

  lemma ReferenceRegister(op: Op, x: bv32, y: bv32)
    requires IsAluReg(op)
    ensures Means(op, x, y, AluReg(op, x, y))
  {
    hide Val, Signed, Sum, Difference, BitAnd, BitOr, BitXor, SignedLess, Less, Bit;
    SumVal(x, y);
    DifferenceVal(x, y);
    AllBits(x, y);
    SignedOrder(x, y);
    LessOrder(x, y);
    ValTruth(SignedLess(x, y));
    ValTruth(Less(x, y));
  }

  lemma AllBits(x: bv32, y: bv32)
    ensures forall i: nat :: Bit(Val(BitAnd(x, y)), i) <==> Bit(Val(x), i) && Bit(Val(y), i)
    ensures forall i: nat :: Bit(Val(BitOr(x, y)), i) <==> Bit(Val(x), i) || Bit(Val(y), i)
    ensures forall i: nat :: Bit(Val(BitXor(x, y)), i) <==> Bit(Val(x), i) != Bit(Val(y), i)
  {
    hide Val, BitAnd, BitOr, BitXor, Bit;
    forall i: nat
      ensures Bit(Val(BitAnd(x, y)), i) <==> Bit(Val(x), i) && Bit(Val(y), i)
      ensures Bit(Val(BitOr(x, y)), i) <==> Bit(Val(x), i) || Bit(Val(y), i)
      ensures Bit(Val(BitXor(x, y)), i) <==> Bit(Val(x), i) != Bit(Val(y), i)
    {
      LogicBits(x, y, i);
    }
  }

  /** The result of an immediate instruction, with `sum` the number it adds. */
  ghost predicate MeansImmediate(op: Op, x: bv32, v: int, sum: int, r: bv32) {
    match op
    case Addi | Addiu => Val(r) == (Val(x) + sum) % MODULUS
    case Andi => forall i: nat :: Bit(Val(r), i) <==> Bit(Val(x), i) && Bit(v % 0x1_0000, i)
    case Ori => forall i: nat :: Bit(Val(r), i) <==> Bit(Val(x), i) || Bit(v % 0x1_0000, i)
    case Xori => forall i: nat :: Bit(Val(r), i) <==> Bit(Val(x), i) != Bit(v % 0x1_0000, i)
    case Sll => Val(r) == Val(x) * Pow2(v % 32) % MODULUS
    case Lui => Val(r) == 0x1_0000 * (v % 0x1_0000)
    case _ => true
  }

  lemma HalfOfWord(v: int)
    ensures Val(LowHalf(Word(v))) == v % 0x1_0000 && Val(Word(v)) % 32 == v % 32
    ensures Distance16(Val(Word(v))) == Distance16(v)
  {
    hide Val, Word;
    ValOfWord(v);
    LowHalfVal(Word(v));
    Remainders(v);
  }

  lemma Remainders(v: int)
    ensures v % MODULUS % 0x1_0000 == v % 0x1_0000 && v % MODULUS % 32 == v % 32
  {
    var q := v / MODULUS;
    Congruent(v % MODULUS, v, 0x1_0000, -0x1_0000 * q);
    Congruent(v % MODULUS, v, 32, -0x800_0000 * q);
  }

  lemma EffectiveVal(x: bv32, v: int)
    ensures Val(Effective(x, Word(v))) == (Val(x) + Distance16(v)) % MODULUS
  {
    hide Val, Word, Sum, SignExt16, Distance16;
    HalfOfWord(v);
    SignExtVal(Word(v));
    SumVal(x, SignExt16(Word(v)));
    ModAdd(Val(x), Distance16(v));
  }

  lemma ModAdd(a: int, b: int)
    ensures (a + b % MODULUS) % MODULUS == (a + b) % MODULUS
  {}

  /** The instruction set sign-extends the immediate it adds. */
  lemma ReferenceImmediate(op: Op, x: bv32, v: int)
    requires IsAluImm(op)
    ensures MeansImmediate(op, x, v, Distance16(v), AluImm(op, x, Word(v)))
  {
    hide Val, Word, Effective, BitAnd, BitOr, BitXor, ShiftLeft, ShiftHalf, LowHalf, Distance16, Bit, Pow2;
    HalfOfWord(v);
    EffectiveVal(x, v);
    AllBits(x, LowHalf(Word(v)));
    ShiftLeftVal(x, Word(v));
    ShiftHalfVal(LowHalf(Word(v)));
  }

  /** Words are in memory with the most significant byte first, and come back as they were stored. */
  lemma ReferenceMemory(mem: map<int, bv8>, a: int, w: bv32)
    requires 0 <= a < MODULUS
    ensures var m := StoreWord(mem, a, w);
      LoadByte(m, a) == Byte3(w) && LoadByte(m, (a + 1) % MODULUS) == Byte2(w) &&
      LoadByte(m, (a + 2) % MODULUS) == Byte1(w) && LoadByte(m, (a + 3) % MODULUS) == Byte0(w) && LoadWord(m, a) == w
    ensures forall b :: b != a && b != (a + 1) % MODULUS && b != (a + 2) % MODULUS && b != (a + 3) % MODULUS ==>
      LoadByte(StoreWord(mem, a, w), b) == LoadByte(mem, b)
  {
    hide Byte3, Byte2, Byte1, Byte0, Join;
    JoinBytes(w);
  }

  /** A register reads as what was written to it last; $zero reads as zero. */
  lemma ReferenceRegisters(regs: RegFile, a: Argument, v: bv32, b: Argument)
    ensures Read(Write(regs, a, v), b) == if Ix(b) == 0 then 0 else if Ix(a) == Ix(b) then v else Read(regs, b)
  {}

  /** HI and LO of the reference machine: the whole product, or quotient and remainder. */
  predicate Multiplies(op: Op, x: bv32, y: bv32, hi: bv32, lo: bv32) {
    match op
    case Mult => Signed(hi) * MODULUS + Val(lo) == Signed(x) * Signed(y)
    case Multu => Val(hi) * MODULUS + Val(lo) == Val(x) * Val(y)
    case Div =>
      (Signed(x) == -0x8000_0000 && Signed(y) == -1) ||
      (Signed(lo) * Signed(y) + Signed(hi) == Signed(x) && Abs(Signed(hi)) < Abs(Signed(y)) &&
       (Signed(hi) == 0 || (Signed(hi) < 0) == (Signed(x) < 0)))
    case Divu => Val(lo) * Val(y) + Val(hi) == Val(x) && Val(hi) < Val(y)
    case _ => true
  }

  lemma WideMult(x: bv32, y: bv32)
    ensures Multiplies(Mult, x, y, Isa.HiLo(Mult, x, y).0, Isa.HiLo(Mult, x, y).1)
  {
    hide Val, Word, Signed;
    var p := Signed(x) * Signed(y);
    HiLo.ProductBound(Signed(x), Signed(y));
    UpperHalf(p);
    SignedOfWord(p / MODULUS);
    ValOfWord(p);
  }

  lemma UpperHalf(p: int)
    requires -0x4000_0000_0000_0000 <= p <= 0x4000_0000_0000_0000
    ensures -0x8000_0000 <= p / MODULUS < 0x8000_0000 && p / MODULUS * MODULUS + p % MODULUS == p
  {}

  lemma WideMultu(x: bv32, y: bv32)
    ensures Multiplies(Multu, x, y, Isa.HiLo(Multu, x, y).0, Isa.HiLo(Multu, x, y).1)
  {
    hide Val, Word;
    var p := Val(x) * Val(y);
    HiLo.Mono(Val(x), Val(y), MODULUS - 1, MODULUS - 1);
    UpperWord(p);
    ValOfWord(p / MODULUS);
    ValOfWord(p);
  }

  lemma UpperWord(p: nat)
    requires p <= (MODULUS - 1) * (MODULUS - 1)
    ensures 0 <= p / MODULUS < MODULUS && p / MODULUS % MODULUS == p / MODULUS
    ensures p / MODULUS * MODULUS + p % MODULUS == p
  {}

  lemma WideDiv(x: bv32, y: bv32)
    requires y != 0
    ensures Multiplies(Div, x, y, Isa.HiLo(Div, x, y).0, Isa.HiLo(Div, x, y).1)
  {
    hide Val, Word, Signed, TruncDiv, TruncRem;
    NonZero(y);
    var a, b := Signed(x), Signed(y);
    if !(a == -0x8000_0000 && b == -1) {
      HiLo.TruncIdentity(a, b);
      HiLo.RemainderSmall(a, b);
      HiLo.QuotientBound(a, b);
      SignedOfWord(TruncDiv(a, b));
      SignedOfWord(TruncRem(a, b));
    }
  }

  lemma WideDivu(x: bv32, y: bv32)
    requires y != 0
    ensures Multiplies(Divu, x, y, Isa.HiLo(Divu, x, y).0, Isa.HiLo(Divu, x, y).1)
  {
    hide Val, Word;
    NonZero(y);
    DivideParts(Val(x), Val(y));
    ValOfWord(Val(x) / Val(y));
    ValOfWord(Val(x) % Val(y));
  }

  lemma DivideParts(a: nat, b: nat)
    requires 0 < b && a < MODULUS && b < MODULUS
    ensures a / b * b + a % b == a && a % b < b
    ensures 0 <= a / b && a / b % MODULUS == a / b && a % b % MODULUS == a % b
  {
    DivBelow(a, b);
  }

  lemma ReferenceHiLo(op: Op, x: bv32, y: bv32)
    requires IsMulDiv(op) && ((op.Div? || op.Divu?) ==> y != 0)
    ensures Multiplies(op, x, y, Isa.HiLo(op, x, y).0, Isa.HiLo(op, x, y).1)
  {
    hide Val, Word, Signed, Isa.HiLo, Multiplies;
    match op {
      case Mult => WideMult(x, y);
      case Multu => WideMultu(x, y);
      case Div => WideDiv(x, y);
      case Divu => WideDivu(x, y);
      case _ =>
    }
  }

  /** Which operands an instruction reads and writes, and how it changes the rest of the core. */
  ghost predicate Executes(t: TextInfo, c: Core, d: Core) {
    var x0, x1, x2 := Read(c.regs, t.a0), Read(c.regs, t.a1), Read(c.regs, t.a2);
    if IsAluReg(t.op) then exists r :: Means(t.op, x1, x2, r) && d == c.(regs := Write(c.regs, t.a0, r))
    else if IsAluImm(t.op) then
      exists r :: MeansImmediate(t.op, x1, t.a2.val, Distance16(t.a2.val), r) && d == c.(regs := Write(c.regs, t.a0, r))
    else if IsMulDiv(t.op) then Multiplies(t.op, x0, x1, d.hi, d.lo) && d == c.(hi := d.hi, lo := d.lo)
    else
      match t.op
      case Mfhi => d == c.(regs := Write(c.regs, t.a0, c.hi))
      case Mflo => d == c.(regs := Write(c.regs, t.a0, c.lo))
      case Mthi => d == c.(hi := x0)
      case Mtlo => d == c.(lo := x0)
      case Lw =>
        d == c.(regs := Write(c.regs, t.a0, LoadWord(c.mem, (Val(x1) + Distance16(t.a2.val)) % MODULUS)))
      case Sw => d == c.(mem := StoreWord(c.mem, (Val(x1) + Distance16(t.a2.val)) % MODULUS, x0))
      case _ => false
  }

  lemma ExecAlu(t: TextInfo, c: Core)
    requires IsAluReg(t.op) || IsAluImm(t.op)
    ensures var x := if t.op.Lui? then 0 else Read(c.regs, t.a1);
      var r := if IsAluReg(t.op) then AluReg(t.op, x, Read(c.regs, t.a2)) else AluImm(t.op, x, Word(t.a2.val));
      Exec(t, c) == Some(c.(regs := Write(c.regs, t.a0, r)))
  {
    hide AluReg, AluImm, Read, Write, Word;
  }

  lemma LuiIgnoresRegister(x: bv32, y: bv32, v: int, sum: int, r: bv32)
    ensures MeansImmediate(Lui, x, v, sum, r) <==> MeansImmediate(Lui, y, v, sum, r)
  {}

  /** The reference machine executes every instruction without control flow so, divisions by zero excepted. */
  lemma ReferenceExec(t: TextInfo, c: Core)
    requires IsPlain(t.op) && Exec(t, c).Some?
    ensures Executes(t, c, Exec(t, c).value)
  {
    hide Means, MeansImmediate, Multiplies, AluReg, AluImm, Read, Write, Word, Val, Distance16, Isa.HiLo, LoadWord,
      StoreWord, Effective;
    var x1, v := Read(c.regs, t.a1), t.a2.val;
    if IsAluReg(t.op) {
      ExecAlu(t, c);
      ReferenceRegister(t.op, x1, Read(c.regs, t.a2));
    } else if IsAluImm(t.op) {
      ExecAlu(t, c);
      var x := if t.op.Lui? then 0 else x1;
      ReferenceImmediate(t.op, x, v);
      if t.op.Lui? {
        LuiIgnoresRegister(x, x1, v, Distance16(v), AluImm(t.op, x, Word(v)));
      }
    } else if IsMulDiv(t.op) {
      ReferenceHiLo(t.op, Read(c.regs, t.a0), x1);
    } else {
      EffectiveVal(x1, v);
    }
  }

  // ---- The emulator ----

  /** The emulator is about to run the word of a line. */
  predicate AtLine(s: Snapshot, l: TextInfo) { Proper(s) && CanFetch(s) && Current(s) == EncodeLine(l) }

  // Nothing changes but a register, the ALU register and the counter.
  predicate OnlyRegister(s: Snapshot, t: Snapshot, r: nat, v: bv32)
    requires |s.reg| == 32 && r < 32
  {
    t.reg == s.reg[r := v] && t.mem == s.mem && t.hi == s.hi && t.lo == s.lo && t.pc == (s.pc + 4) % MODULUS
  }

  /** The emulator loses the lowest bit of the destination. */
  function Even(r: nat): (e: nat)
    ensures e <= r
  {
    r / 2 * 2
  }

  lemma EvenPart(x: bv32)
    ensures Val(x & 0x1F & 0x1E) == Even(Val(x & 0x1F))
  {
    hide Val, ByteVal;
    Low5Val(x);
    SmallVal(x & 0x1F & 0x1E);
    var b := (x & 0x1F) as bv8;
    ByteIsInt(b);
    ByteIsInt(b & 0x1E);
    EvenBits(b);
    MaskedByte(x);
  }

  lemma EvenBits(b: bv8)
    requires b <= 0x1F
    ensures (b & 0x1E) as int == (b as int) / 2 * 2
  {}

  lemma MaskedByte(x: bv32)
    ensures (x & 0x1F & 0x1E) as bv8 == ((x & 0x1F) as bv8) & 0x1E
    ensures x & 0x1F & 0x1E < 0x100 && (x & 0x1F) as bv8 <= 0x1F
  {}

  lemma RegisterWord(l: TextInfo)
    requires IsAluReg(l.op)
    ensures var w := EncodeLine(l);
      FieldOp(w) == 0 && FieldFunc(w) == CodeNo(l.op) && FieldRs(w) == Ix(l.a1) && FieldRt(w) == Ix(l.a2) &&
      FieldRd(w) == Even(Ix(l.a0))
  {
    hide Val, Word, EncodeAs, CodeOf, FormatOf, OpBits, FuncBits, BitsRs, BitsRt, BitsRd, FieldOp, FieldFunc,
      FieldRs, FieldRt, FieldRd, Ix, CodeNo;
    var x, y, z := Word(l.a0.val), Word(l.a1.val), Word(l.a2.val);
    DecodedR(l);
    StraightFormats(l.op);
    CodesSmall(l.op);
    Encoding.FieldsR(CodeOf(l.op), x, y, z);
    RdAgrees(EncodeLine(l));
    EvenPart(x);
    OperandField(l.a0);
  }

  // The function codes of the switch.
  lemma CodeMeans(op: Op, x: bv32, y: bv32, shamt: bv32, at: int, hi: bv32, lo: bv32, r: bv32)
    requires IsAluReg(op)
    ensures HasResult(CodeNo(op)) && NumbersDefined(CodeNo(op), x, y) && CodeNo(op) != 12 && CodeNo(op) != 8
    ensures CodeNo(op) != 9 && !(16 <= CodeNo(op) <= 27)
    ensures Computes(CodeNo(op), x, y, shamt, at, hi, lo, r) ==> Means(op, x, y, r)
  {
    hide CodeNo, Val, Signed, Bit, Pow2;
    CodeNosReg(op);
  }

  lemma KeepsHiLo(func: nat, x: bv32, y: bv32, hi: bv32, lo: bv32, hi': bv32, lo': bv32)
    requires !(16 <= func <= 27) && SetsHiLo(func, x, y, hi, lo, hi', lo')
    ensures hi' == hi && lo' == lo
  {}

  /** Register instructions: the result the instruction set says, in the even part of the destination. */
  lemma RegisterLine(s: Snapshot, l: TextInfo)
    requires AtLine(s, l) && IsAluReg(l.op)
    ensures TickOf(s).Some? && |TickOf(s).value.reg| == 32
    ensures var t, rd := TickOf(s).value, Even(Ix(l.a0));
      OnlyRegister(s, t, rd, t.reg[rd]) && Means(l.op, s.reg[Ix(l.a1)], s.reg[Ix(l.a2)], t.reg[rd])
  {
    hide EncodeLine, FieldOp, FieldFunc, FieldRs, FieldRt, FieldRd, FieldShamt, DataCache.WordAt, TickOf, Ix, CodeNo,
      Computes, Means, NumbersDefined, SetsHiLo, HasResult, CanFetch;
    var w, rd := Current(s), Even(Ix(l.a0));
    RegisterWord(l);
    CodeMeans(l.op, RsOf(s), RtOf(s), FieldShamt(w), s.pc, s.hi, s.lo, 0);
    RegisterTick(s);
    var t := TickOf(s).value;
    CodeMeans(l.op, RsOf(s), RtOf(s), FieldShamt(w), s.pc, s.hi, s.lo, t.reg[rd]);
    KeepsHiLo(CodeNo(l.op), RsOf(s), RtOf(s), s.hi, s.lo, t.hi, t.lo);
  }

  lemma ShiftWord(l: TextInfo)
    requires l.op.Sll?
    ensures var w := EncodeLine(l);
      FieldOp(w) == 0 && FieldFunc(w) == 0 && FieldRt(w) == Ix(l.a1) && FieldRd(w) == Even(Ix(l.a0)) &&
      Val(FieldShamt(w)) % 32 == l.a2.val % 16
  {
    hide Val, Word, EncodeAs, CodeOf, FormatOf, OpBits, FuncBits, BitsRs, BitsRt, BitsRd, BitsShamt, FieldOp, FieldFunc,
      FieldRs, FieldRt, FieldRd, FieldShamt, Ix;
    var x, y, z := Word(l.a0.val), Word(l.a1.val), Word(l.a2.val);
    DecodedShift(l);
    StraightFormats(l.op);
    Encoding.FieldsShamt(x, y, z);
    RdAgrees(EncodeLine(l));
    EvenPart(x);
    OperandField(l.a0);
    Reassembly.RegisterKept(l.a2.val);
    NibbleVal(z);
    Sixteenth(l.a2.val);
  }

  lemma NibbleVal(z: bv32)
    ensures Val(z & 0x1F & 0xF) == Val(z & 0x1F) % 16
  {
    hide Val, ByteVal;
    Low5Val(z);
    SmallVal(z & 0x1F & 0xF);
    var b := (z & 0x1F) as bv8;
    ByteIsInt(b);
    ByteIsInt(b & 0xF);
    NibbleBits(b);
    NibbleByte(z);
  }

  lemma NibbleBits(b: bv8)
    ensures (b & 0xF) as int == (b as int) % 16
  {}

  lemma NibbleByte(z: bv32)
    ensures (z & 0x1F & 0xF) as bv8 == ((z & 0x1F) as bv8) & 0xF && z & 0x1F & 0xF < 0x100
  {}

  lemma Sixteenth(v: int)
    ensures v % 32 % 16 == v % 16 && v % 16 % 32 == v % 16
  {
    Congruent(v % 32, v, 16, -2 * (v / 32));
  }

  /** sll: multiplication by a power of two, of the amount's low four bits only. */
  lemma ShiftLine(s: Snapshot, l: TextInfo)
    requires AtLine(s, l) && l.op.Sll?
    ensures TickOf(s).Some? && |TickOf(s).value.reg| == 32
    ensures var t, rd := TickOf(s).value, Even(Ix(l.a0));
      OnlyRegister(s, t, rd, t.reg[rd]) &&
      Val(t.reg[rd]) == Val(s.reg[Ix(l.a1)]) * Pow2(l.a2.val % 16) % MODULUS
  {
    hide EncodeLine, FieldOp, FieldFunc, FieldRs, FieldRt, FieldRd, FieldShamt, DataCache.WordAt, TickOf, Ix, Val,
      CanFetch, Pow2;
    ShiftWord(l);
    RegisterTick(s);
  }

  /** The fields of an immediate instruction, a load, a store or a conditional branch. */
  lemma TwoRegisterWord(l: TextInfo)
    requires FormatOf(l.op).FormatI?
    ensures var w := EncodeLine(l);
      FieldOp(w) == Val(CodeOf(l.op)) && FieldRt(w) == Ix(l.a0) && FieldRs(w) == Ix(l.a1) &&
      Val(FieldImm(w)) == l.a2.val % 0x1_0000
  {
    hide Val, Word, EncodeLine, CodeOf, FormatOf, OpBits, BitsRs, BitsRt, BitsImm, FieldOp, FieldRs, FieldRt, FieldImm,
      LowHalf, Ix;
    TwoRegisterBits(l);
    FieldsAgree(EncodeLine(l));
    OperandField(l.a0);
    OperandField(l.a1);
    HalfOfWord(l.a2.val);
  }

  lemma TwoRegisterBits(l: TextInfo)
    requires FormatOf(l.op).FormatI?
    ensures var w := EncodeLine(l);
      OpBits(w) == CodeOf(l.op) && BitsRt(w) == Word(l.a0.val) & 0x1F && BitsRs(w) == Word(l.a1.val) & 0x1F &&
      BitsImm(w) == LowHalf(Word(l.a2.val))
  {
    hide Val, Word, EncodeAs, CodeOf, FormatOf, OpBits, BitsRs, BitsRt, BitsImm;
    CodesSmall(l.op);
    Encoding.FieldsI(CodeOf(l.op), Word(l.a0.val), Word(l.a1.val), Word(l.a2.val));
  }

  lemma ImmediateWord(l: TextInfo)
    requires IsAluImm(l.op) && !l.op.Sll?
    ensures var w := EncodeLine(l);
      FieldOp(w) == CodeNo(l.op) && FieldRt(w) == Ix(l.a0) && Val(FieldImm(w)) == l.a2.val % 0x1_0000 &&
      (!l.op.Lui? ==> FieldRs(w) == Ix(l.a1))
  {
    hide Val, Word, CodeOf, FieldOp, FieldRs, FieldRt, FieldImm, Ix, CodeNo, EncodeLine, LowHalf;
    DecodedI(l);
    HalfOfWord(l.a2.val);
  }

  lemma ImmediateMeans(op: Op, x: bv32, v: int, r: bv32)
    requires IsAluImm(op) && !op.Sll?
    ensures 8 <= CodeNo(op) <= 15
    ensures ComputesImmediate(CodeNo(op), x, v % 0x1_0000, r) ==> MeansImmediate(op, x, v, v % 0x1_0000, r)
  {
    hide CodeNo, Val, Signed, Bit, Pow2;
    CodeNosImm(op);
  }

  /** Immediate instructions: the immediate they add is never negative. */
  lemma ImmediateLine(s: Snapshot, l: TextInfo)
    requires AtLine(s, l) && IsAluImm(l.op) && !l.op.Sll?
    ensures TickOf(s).Some? && |TickOf(s).value.reg| == 32
    ensures var t, rt := TickOf(s).value, Ix(l.a0);
      OnlyRegister(s, t, rt, t.reg[rt]) &&
      MeansImmediate(l.op, s.reg[Ix(l.a1)], l.a2.val, l.a2.val % 0x1_0000, t.reg[rt])
  {
    hide EncodeLine, FieldOp, FieldRs, FieldRt, FieldImm, DataCache.WordAt, TickOf, Ix, Val, CanFetch, CodeNo,
      ComputesImmediate, MeansImmediate;
    ImmediateWord(l);
    ImmediateMeans(l.op, RsOf(s), l.a2.val, 0);
    ImmediateTick(s);
    var t := TickOf(s).value;
    ImmediateMeans(l.op, RsOf(s), l.a2.val, t.reg[Ix(l.a0)]);
    if l.op.Lui? {
      LuiIgnoresRegister(RsOf(s), s.reg[Ix(l.a1)], l.a2.val, l.a2.val % 0x1_0000, t.reg[Ix(l.a0)]);
    }
  }

  lemma AccessCodes()
    ensures FormatOf(Lw).FormatI? && FormatOf(Sw).FormatI? && FormatOf(Beq).FormatI? && FormatOf(Bne).FormatI?
    ensures Val(CodeOf(Lw)) == 35 && Val(CodeOf(Sw)) == 43 && Val(CodeOf(Beq)) == 4 && Val(CodeOf(Bne)) == 5
  {
    hide Val;
    AccessVals();
  }

  lemma AccessVals()
    ensures Val(35) == 35 && Val(43) == 43 && Val(4) == 4 && Val(5) == 5
  {
    hide ByteVal;
    ByteIsInt(35);
    ByteIsInt(43);
    ByteIsInt(4);
    ByteIsInt(5);
    ByteIsInt(0);
  }

  /** The address of an assembled load or store. */
  function LineAddress(s: Snapshot, l: TextInfo): int
    requires |s.reg| == 32
  {
    (Val(s.reg[Ix(l.a1)]) + l.a2.val % 0x1_0000) % MODULUS
  }

  /** lw: its register gets the four bytes at the address, the first the most significant, if they are in memory. */
  lemma LoadLine(s: Snapshot, l: TextInfo)
    requires AtLine(s, l) && l.op.Lw?
    ensures var a := LineAddress(s, l);
      (TickOf(s).Some? <==> a + 4 <= |s.mem|) &&
      (a + 4 <= |s.mem| ==>
        OnlyRegister(s, TickOf(s).value, Ix(l.a0), Join(s.mem[a], s.mem[a + 1], s.mem[a + 2], s.mem[a + 3])))
  {
    hide EncodeLine, FieldOp, FieldRs, FieldRt, FieldImm, DataCache.WordAt, TickOf, Ix, Val, CanFetch, CodeOf,
      FormatOf, Byte3, Byte2, Byte1, Byte0, Join;
    AccessCodes();
    TwoRegisterWord(l);
    LoadTick(s);
    var a := LineAddress(s, l);
    if a + 4 <= |s.mem| {
      JoinBytes(TickOf(s).value.reg[Ix(l.a0)]);
    }
  }

  /** sw: the four bytes of its register at the address, the first the least significant. */
  lemma StoreLine(s: Snapshot, l: TextInfo)
    requires AtLine(s, l) && l.op.Sw?
    ensures var a := LineAddress(s, l);
      (TickOf(s).Some? <==> a + 4 <= |s.mem|) &&
      (a + 4 <= |s.mem| ==>
        var t, w := TickOf(s).value, s.reg[Ix(l.a0)];
        t.mem == s.mem[a := Byte0(w)][a + 1 := Byte1(w)][a + 2 := Byte2(w)][a + 3 := Byte3(w)] && t.reg == s.reg &&
        t.hi == s.hi && t.lo == s.lo && t.pc == (s.pc + 4) % MODULUS)
  {
    hide EncodeLine, FieldOp, FieldRs, FieldRt, FieldImm, DataCache.WordAt, TickOf, Ix, Val, CanFetch, CodeOf,
      FormatOf, Byte3, Byte2, Byte1, Byte0;
    AccessCodes();
    TwoRegisterWord(l);
    StoreTick(s);
  }

  /** The word of a line in memory, out of the way of four bytes at an address. */
  predicate ApartFrom(s: Snapshot, pc: int, a: int) { 0 <= pc && pc + 4 <= |s.mem| && (a + 4 <= pc || pc + 4 <= a) }

  /** Two ticks, a store and the load of the same word: the other register gets the bytes in the opposite order. */
  lemma StoreLoadLines(s: Snapshot, l: TextInfo, k: TextInfo)
    requires AtLine(s, l) && l.op.Sw? && k.op.Lw? && k.a1 == l.a1 && k.a2 == l.a2 && LineAddress(s, l) + 4 <= |s.mem|
    requires s.pc + 8 <= |s.mem| && DataCache.WordAt(s.mem, s.pc + 4) == EncodeLine(k) &&
      ApartFrom(s, s.pc + 4, LineAddress(s, l))
    ensures var r, w := Ticks(s, 2), s.reg[Ix(l.a0)];
      r.Some? && r.value.reg == s.reg[Ix(k.a0) := Emulation.Reversed(w)] &&
      (r.value.reg[Ix(k.a0)] == w <==> Byte0(w) == Byte3(w) && Byte1(w) == Byte2(w))
  {
    hide EncodeLine, TickOf, Ix, Val, Byte3, Byte2, Byte1, Byte0, Join, DataCache.WordAt, LineAddress, ApartFrom,
      Ticks;
    StoredFirst(s, l, k);
    var t, a := TickOf(s).value, LineAddress(s, l);
    LoadLine(t, k);
    TwoTicks(s);
    Emulation.ReversedKeeps(s.reg[Ix(l.a0)]);
  }

  /** After the store, its bytes are at the address and the load is next. */
  lemma StoredFirst(s: Snapshot, l: TextInfo, k: TextInfo)
    requires AtLine(s, l) && l.op.Sw? && k.op.Lw? && k.a1 == l.a1 && k.a2 == l.a2 && LineAddress(s, l) + 4 <= |s.mem|
    requires s.pc + 8 <= |s.mem| && DataCache.WordAt(s.mem, s.pc + 4) == EncodeLine(k) &&
      ApartFrom(s, s.pc + 4, LineAddress(s, l))
    ensures TickOf(s).Some?
    ensures var t, a, w := TickOf(s).value, LineAddress(s, l), s.reg[Ix(l.a0)];
      AtLine(t, k) && t.reg == s.reg && LineAddress(t, k) == a && |t.mem| == |s.mem| && 0 <= a &&
      t.mem[a] == Byte0(w) && t.mem[a + 1] == Byte1(w) && t.mem[a + 2] == Byte2(w) && t.mem[a + 3] == Byte3(w)
  {
    hide EncodeLine, TickOf, Ix, Val, Byte3, Byte2, Byte1, Byte0, DataCache.WordAt;
    StoreLine(s, l);
    TickProper(s);
    SameWord(s.mem, TickOf(s).value.mem, s.pc + 4, LineAddress(s, l));
  }

  lemma SameWord(mem: seq<bv8>, mem': seq<bv8>, pc: int, a: int)
    requires 0 <= pc && pc + 4 <= |mem| == |mem'| && (a + 4 <= pc || pc + 4 <= a)
    requires forall i :: 0 <= i < |mem| && !(a <= i < a + 4) ==> mem'[i] == mem[i]
    ensures DataCache.WordAt(mem', pc) == DataCache.WordAt(mem, pc)
  {}

  lemma TwoTicks(s: Snapshot)
    requires Proper(s) && TickOf(s).Some?
    ensures Proper(TickOf(s).value) && Ticks(s, 2) == TickOf(TickOf(s).value)
  {
    hide TickOf;
    TickProper(s);
    var t := TickOf(s).value;
    if TickOf(t).Some? {
      TickProper(t);
      assert Ticks(TickOf(t).value, 0) == Some(TickOf(t).value);
    }
  }

  /** beq and bne: taken when the numbers are equal, or not; the old ALU value goes to the first operand. */
  lemma BranchLine(s: Snapshot, l: TextInfo)
    requires AtLine(s, l) && (l.op.Beq? || l.op.Bne?)
    ensures TickOf(s).Some?
    ensures var t, taken := TickOf(s).value, (Val(s.reg[Ix(l.a0)]) == Val(s.reg[Ix(l.a1)])) == l.op.Beq?;
      t.pc == (s.pc + if taken then 8 + 4 * (l.a2.val % 0x1_0000) else 4) % MODULUS && t.mem == s.mem &&
      t.reg == s.reg[Ix(l.a0) := s.alu]
  {
    hide EncodeLine, FieldOp, FieldRs, FieldRt, FieldImm, DataCache.WordAt, TickOf, Ix, Val, CanFetch, CodeOf,
      FormatOf, Signed;
    AccessCodes();
    TwoRegisterWord(l);
    BranchTick(s);
  }

  lemma JumpWord(l: TextInfo)
    requires l.op.J? || l.op.Jal?
    ensures var w := EncodeLine(l);
      FieldOp(w) == (if l.op.J? then 2 else 3) && 4 * Val(FieldTarget(w)) == Val(Word(l.a0.val) & 0x0FFF_FFFC)
  {
    hide Val, Word, EncodeAs, FieldOp, FieldTarget, ByFour, OpBits, EncodeLine;
    var x, w := Word(l.a0.val), EncodeLine(l);
    JumpEncoded(l);
    JumpBits(if l.op.J? then 2 else 3, x);
    FieldsAgree(w);
    TargetVal(w);
    JumpCodes();
  }

  lemma JumpEncoded(l: TextInfo)
    requires l.op.J? || l.op.Jal?
    ensures EncodeLine(l) == EncodeAs(FormatJ, if l.op.J? then 2 else 3, Word(l.a0.val), 0, 0)
  {
    hide Word, EncodeAs;
    EncodeUsed(FormatJ, CodeOf(l.op), Word(l.a0.val), Word(l.a1.val), Word(l.a2.val));
  }

  lemma JumpBits(code: bv32, x: bv32)
    requires code < 64
    ensures var w := EncodeAs(FormatJ, code, x, 0, 0);
      OpBits(w) == code && ByFour(FieldTarget(w)) == x & 0x0FFF_FFFC
  {}

  lemma JumpCodes()
    ensures Val(2) == 2 && Val(3) == 3
  {
    hide ByteVal;
    ByteIsInt(2);
    ByteIsInt(3);
    ByteIsInt(0);
  }

  /** j and jal: the operand counts from the next instruction, whose address jal links. */
  lemma JumpLine(s: Snapshot, l: TextInfo)
    requires AtLine(s, l) && (l.op.J? || l.op.Jal?)
    ensures TickOf(s).Some? && |TickOf(s).value.reg| == 32
    ensures var t := TickOf(s).value;
      t.pc == (s.pc + 4 + Val(Word(l.a0.val) & 0x0FFF_FFFC)) % MODULUS && t.mem == s.mem &&
      t.reg == (if l.op.Jal? then s.reg[31 := t.reg[31]] else s.reg) &&
      (l.op.Jal? ==> Val(t.reg[31]) == (s.pc + 4) % MODULUS)
  {
    hide EncodeLine, FieldOp, FieldTarget, DataCache.WordAt, TickOf, Val, Word, CanFetch;
    JumpWord(l);
    JumpTick(s);
    TickProper(s);
  }

  lemma MoveWord(l: TextInfo)
    requires l.op.Mfhi? || l.op.Mflo?
    ensures var w := EncodeLine(l);
      FieldOp(w) == 0 && FieldFunc(w) == (if l.op.Mfhi? then 16 else 18) && FieldRd(w) == Even(Ix(l.a0))
  {
    hide Val, Word, EncodeAs, OpBits, FuncBits, BitsRd, FieldOp, FieldFunc, FieldRd, Ix;
    var x, code := Word(l.a0.val), if l.op.Mfhi? then 0x10 else 0x12;
    EncodeUsed(FormatRd, code, x, Word(l.a1.val), Word(l.a2.val));
    FieldsRd(code, x);
    FieldsAgree(EncodeLine(l));
    RdAgrees(EncodeLine(l));
    EvenPart(x);
    OperandField(l.a0);
    MoveCodes();
  }

  lemma MoveCodes()
    ensures Val(0) == 0 && Val(0x10) == 16 && Val(0x12) == 18 && Val(0x11) == 17 && Val(0x13) == 19
  {
    hide ByteVal;
    ByteIsInt(0);
    ByteIsInt(16);
    ByteIsInt(18);
    ByteIsInt(17);
    ByteIsInt(19);
  }

  /** mfhi and mflo. */
  lemma MoveLine(s: Snapshot, l: TextInfo)
    requires AtLine(s, l) && (l.op.Mfhi? || l.op.Mflo?)
    ensures TickOf(s).Some? && OnlyRegister(s, TickOf(s).value, Even(Ix(l.a0)), if l.op.Mfhi? then s.hi else s.lo)
  {
    hide EncodeLine, FieldOp, FieldFunc, FieldRs, FieldRt, FieldRd, FieldShamt, DataCache.WordAt, TickOf, Ix, Val,
      CanFetch, Pow2;
    MoveWord(l);
    RegisterTick(s);
  }

  lemma SetWord(l: TextInfo)
    requires l.op.Mthi? || l.op.Mtlo?
    ensures var w := EncodeLine(l);
      FieldOp(w) == 0 && FieldFunc(w) == (if l.op.Mthi? then 17 else 19) && FieldRs(w) == Ix(l.a0) && FieldRd(w) == 0
  {
    hide Val, Word, EncodeAs, OpBits, FuncBits, BitsRs, FieldOp, FieldFunc, FieldRs, FieldRd, Ix;
    var x, code := Word(l.a0.val), if l.op.Mthi? then 0x11 else 0x13;
    EncodeUsed(FormatRs, code, x, Word(l.a1.val), Word(l.a2.val));
    FieldsRs(code, x);
    FieldsAgree(EncodeLine(l));
    NoDestination(code, x);
    OperandField(l.a0);
    MoveCodes();
  }

  lemma NoDestination(code: bv32, x: bv32)
    requires code < 64
    ensures FieldRd(EncodeAs(FormatRs, code, x, 0, 0)) == 0
  {}

  /** mthi and mtlo; the old ALU value goes to register 0. */
  lemma SetLine(s: Snapshot, l: TextInfo)
    requires AtLine(s, l) && (l.op.Mthi? || l.op.Mtlo?)
    ensures TickOf(s).Some?
    ensures var t, x := TickOf(s).value, s.reg[Ix(l.a0)];
      t.hi == (if l.op.Mthi? then x else s.hi) && t.lo == (if l.op.Mtlo? then x else s.lo) &&
      t.reg == s.reg[0 := s.alu] && t.mem == s.mem && t.pc == (s.pc + 4) % MODULUS
  {
    hide EncodeLine, FieldOp, FieldFunc, FieldRs, FieldRt, FieldRd, FieldShamt, DataCache.WordAt, TickOf, Ix, Val,
      CanFetch, Pow2, Signed;
    SetWord(l);
    RegisterTick(s);
  }

  /** HI and LO of the emulator, whose product has 32 bits. */
  predicate MultipliesShort(op: Op, x: bv32, y: bv32, hi: bv32, lo: bv32) {
    match op
    case Mult => Val(lo) == Signed(x) * Signed(y) % MODULUS && Signed(hi) == if Signed(lo) < 0 then -1 else 0
    case Multu => Val(lo) == Val(x) * Val(y) % MODULUS && Val(hi) == 0
    case _ => Multiplies(op, x, y, hi, lo)
  }

  lemma DivideCodes(l: TextInfo)
    requires IsMulDiv(l.op)
    ensures FieldFunc(EncodeLine(l)) ==
      if l.op.Mult? then 24 else if l.op.Multu? then 25 else if l.op.Div? then 26 else 27
  {
    hide Val, Word, EncodeAs, OpBits, FuncBits, FieldFunc, FieldOp, BitsRs, BitsRt;
    var x, y, z := Word(l.a0.val), Word(l.a1.val), Word(l.a2.val);
    Emulation.MulDivFormat(l.op);
    EncodeUsed(FormatRsRt, CodeOf(l.op), x, y, z);
    Encoding.FieldsRsRt(CodeOf(l.op), x, y);
    FieldsAgree(EncodeLine(l));
    DivideVals();
  }

  lemma DivideVals()
    ensures Val(0x18) == 24 && Val(0x19) == 25 && Val(0x1A) == 26 && Val(0x1B) == 27
  {
    hide ByteVal;
    ByteIsInt(0);
    ByteIsInt(24);
    ByteIsInt(25);
    ByteIsInt(26);
    ByteIsInt(27);
  }

  /** mult, multu, div and divu; the old ALU value goes to register 0. */
  lemma MulDivLine(s: Snapshot, l: TextInfo)
    requires AtLine(s, l) && IsMulDiv(l.op)
    ensures var x, y := s.reg[Ix(l.a0)], s.reg[Ix(l.a1)];
      (TickOf(s).Some? <==>
        (l.op.Div? || l.op.Divu? ==> Val(y) != 0) && (l.op.Div? ==> !(Signed(x) == -0x8000_0000 && Signed(y) == -1))) &&
      (TickOf(s).Some? ==>
        var t := TickOf(s).value;
        MultipliesShort(l.op, x, y, t.hi, t.lo) && t.reg == s.reg[0 := s.alu] && t.mem == s.mem &&
        t.pc == (s.pc + 4) % MODULUS)
  {
    hide EncodeLine, FieldOp, FieldFunc, FieldRs, FieldRt, FieldRd, FieldShamt, DataCache.WordAt, TickOf, Ix, Val,
      CanFetch, Pow2, Signed;
    Emulation.MulDivFields(l);
    DivideCodes(l);
    RegisterTick(s);
  }
}
