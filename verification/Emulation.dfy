/**
 Where the emulator and the instruction set part: byte order, sign extension, branch and jump
 targets, and the register written by instructions without a result, each with its exact condition.
 */
module Emulation {
  import opened Words
  import opened Source
  import opened Layout
  import opened Isa
  import opened Encoding
  import opened Cpu
  import opened DataCache
  import opened Agreement
  import opened EndToEnd
  import opened RunSafety
  import PseudoOps

  // ---- Memory ----

  /** The word with its bytes in the opposite order. */
  function Reversed(w: bv32): bv32 { Join(Byte0(w), Byte1(w), Byte2(w), Byte3(w)) }

  /** Loading a word just stored gives its bytes reversed: the word itself only when it reads the same both ways. */
  lemma StoreThenLoad(a: nat, w: bv32, mem: seq<bv8>, was: bv32)
    requires a + 4 <= |mem|
    ensures var got := LoadedData(35, a, Stored(43, a, w, mem), was);
      got == Reversed(w) && (got == w <==> Byte0(w) == Byte3(w) && Byte1(w) == Byte2(w))
  {
    hide Byte0, Byte1, Byte2, Byte3, Join;
    ReversedKeeps(w);
  }

  lemma ReversedKeeps(w: bv32)
    ensures Reversed(w) == w <==> Byte0(w) == Byte3(w) && Byte1(w) == Byte2(w)
  {
    hide Byte0, Byte1, Byte2, Byte3, Join;
    JoinBytes(w);
  }

  /** Bytes and half-words come back as one unsigned byte, the lowest of the register. */
  lemma StoreThenLoadByte(a: nat, w: bv32, mem: seq<bv8>, was: bv32)
    requires a + 2 <= |mem|
    ensures LoadedData(32, a, Stored(40, a, w, mem), was) == w & 0xFF
    ensures LoadedData(33, a, Stored(41, a, w, mem), was) == w & 0xFF
    ensures Stored(41, a, w, mem)[a + 1] == Byte0(w)
  {}

  function SignExt8(v: bv32): bv32 { if v & 0x80 != 0 then v | 0xFFFF_FF00 else v & 0xFF }

  /**
   So a byte comes back with its sign exactly when it has none, and a half-word exactly when its
   upper byte and its sign are zero.
   */
  lemma LoadsSign(a: nat, w: bv32, mem: seq<bv8>, was: bv32)
    requires a + 2 <= |mem|
    ensures LoadedData(32, a, Stored(40, a, w, mem), was) == SignExt8(w) <==> w & 0x80 == 0
    ensures LoadedData(33, a, Stored(41, a, w, mem), was) == SignExt16(w) <==> w & 0xFF00 == 0
  {
    hide Stored, LoadedData;
    StoreThenLoadByte(a, w, mem, was);
    SignBits(w);
  }

  lemma SignBits(w: bv32)
    ensures w & 0xFF == SignExt8(w) <==> w & 0x80 == 0
    ensures w & 0xFF == SignExt16(w) <==> w & 0xFF00 == 0
  {}

  // ---- Sign extension ----

  /** slti compares with the immediate unextended: it agrees without a sign, or when the sign does not matter. */
  lemma SetImmediate(x: bv32, v: bv32, alu: bv32)
    ensures AluImmOf(10, x, LowHalf(v), alu) == (if SignedLess(x, SignExt16(v)) then 1 else 0) <==>
      v & 0x8000 == 0 || SignedLess(x, SignExt16(v)) || !SignedLess(x, LowHalf(v))
  {
    hide SignedLess, SignExt16, LowHalf;
    HalfTwice(v);
    if v & 0x8000 == 0 {
      NoSign(v);
    } else {
      SignLowers(x, v);
    }
  }

  lemma HalfTwice(v: bv32)
    ensures LowHalf(LowHalf(v)) == LowHalf(v)
  {}

  lemma NoSign(v: bv32)
    requires v & 0x8000 == 0
    ensures SignExt16(v) == LowHalf(v)
  {}

  lemma SignLowers(x: bv32, v: bv32)
    requires v & 0x8000 != 0
    ensures SignedLess(x, SignExt16(v)) ==> SignedLess(x, LowHalf(v))
    ensures Less(x, LowHalf(v)) ==> Less(x, SignExt16(v))
  {}

  /** The same for sltiu, where the extended immediate is the greater. */
  lemma SetUnsignedImmediate(x: bv32, v: bv32, alu: bv32)
    ensures AluImmOf(11, x, LowHalf(v), alu) == (if Less(x, SignExt16(v)) then 1 else 0) <==>
      v & 0x8000 == 0 || Less(x, LowHalf(v)) || !Less(x, SignExt16(v))
  {
    hide Less, SignExt16, LowHalf;
    HalfTwice(v);
    if v & 0x8000 == 0 {
      NoSign(v);
    } else {
      SignLowers(x, v);
    }
  }

  /** A load or a store goes to its base plus its offset exactly when the low half of the offset has no sign. */
  lemma AddressMisses(f: Fields, x: bv32, offset: int, was: int)
    requires (IsStore(f.opBits) || IsLoad(f.opBits)) && f.imm == Word(offset) & 0xFFFF
    ensures AddressOf(f, x, was) == Bump(Val(x), Distance16(offset)) <==> offset % 0x1_0000 < 0x8000
  {
    hide Word, Val;
    Low16(offset);
    HalfKept(f.imm, Word(offset));
  }

  lemma HalfKept(v: bv32, w: bv32)
    requires v == w & 0xFFFF
    ensures LowHalf(v) == v
  {}

  // ---- Arithmetic ----

  /** srl shifts in the sign: it is a logical shift only for words without one, or by nothing. */
  lemma ShiftIsLogical(x: bv32, v: bv32)
    ensures ShiftRight(x, v) == x >> ((v & 0x1F) as bv6) <==> x & 0x8000_0000 == 0 || v & 0x1F == 0
  {}

  /** nor is the bitwise one only when that is zero. */
  lemma NorIsBitwise(x: bv32, y: bv32)
    ensures NotOr(x, y) == !(x | y) <==> x | y == 0xFFFF_FFFF
  {}

  // ---- Branches and jumps ----

  /** The branches decide as the instruction set says. */
  lemma BranchesDecide(x: bv32, y: bv32)
    ensures TakenI(4, x, y) == PseudoOps.Taken(Beq, x, y)
    ensures TakenI(5, x, y) == PseudoOps.Taken(Bne, x, y)
    ensures TakenI(6, x, y) == (Signed(x) <= 0)
    ensures TakenI(7, x, y) == (Signed(x) > 0)
  {
    hide Signed, Val, SignedLess;
    SignedOrder(0, x);
    SignedZero();
  }

  lemma SignedZero()
    ensures Signed(0) == 0
  {
    hide Val;
    ValZero();
  }

  lemma ByFourBytes(v: bv32)
    requires v <= 0xFFFF
    ensures Byte3(v) == 0 && Byte2(v) == 0
    ensures var w := ByFour(v);
      Byte3(w) == 0 && Byte2(w) == Byte1(v) >> 6 && Byte1(w) == (Byte1(v) << 2) | (Byte0(v) >> 6) &&
        Byte0(w) == Byte0(v) << 2
  {}

  lemma TopBits(c: bv8)
    ensures (c >> 6) as int == (c as int) / 64
  {}

  lemma LowBits(b: bv8)
    ensures (b << 2) as int == 4 * (b as int) % 0x100
  {}

  lemma JoinBits(x: bv8, y: bv8)
    requires x & 3 == 0 && y <= 3
    ensures x | y == x + y
  {}

  lemma {:induction false} AddBits(x: bv8, y: bv8)
    requires x <= 0xFC && y <= 3
    ensures ByteVal(x + y) == ByteVal(x) + ByteVal(y)
  {
    if y != 0 {
      AddBits(x, y - 1);
      assert x + y != 0 && (x + y) - 1 == x + (y - 1);
    }
  }

  lemma TopValue(c: bv8)
    ensures ByteVal(c >> 6) == ByteVal(c) / 64
  {
    hide ByteVal;
    ByteIsInt(c);
    ByteIsInt(c >> 6);
    TopBits(c);
  }

  lemma LowValue(b: bv8)
    ensures ByteVal(b << 2) == 4 * ByteVal(b) % 0x100
  {
    hide ByteVal;
    ByteIsInt(b);
    ByteIsInt(b << 2);
    LowBits(b);
  }

  lemma ShiftedBits(c: bv8, b: bv8)
    ensures (c << 2) & 3 == 0 && c << 2 <= 0xFC && b >> 6 <= 3
  {}

  lemma MiddleValue(c: bv8, b: bv8)
    ensures ByteVal((c << 2) | (b >> 6)) == ByteVal(c << 2) + ByteVal(b >> 6)
  {
    hide ByteVal;
    ShiftedBits(c, b);
    JoinBits(c << 2, b >> 6);
    AddBits(c << 2, b >> 6);
  }

  lemma DigitsByFour(c: nat, b: nat)
    requires c < 0x100 && b < 0x100
    ensures c / 64 * 0x1_0000 + (4 * c % 0x100 + b / 64) * 0x100 + 4 * b % 0x100 == 4 * (c * 0x100 + b)
  {}

  lemma ByFourVal(v: bv32)
    requires v <= 0xFFFF
    ensures Val(ByFour(v)) == 4 * Val(v)
  {
    hide ByteVal, Byte0, Byte1, Byte2, Byte3, ByFour;
    ByFourBytes(v);
    var c, b := Byte1(v), Byte0(v);
    ByteIsInt(0);
    ByteBound(c);
    ByteBound(b);
    TopValue(c);
    TopValue(b);
    LowValue(c);
    LowValue(b);
    MiddleValue(c, b);
    DigitsByFour(ByteVal(c), ByteVal(b));
  }

  /** A taken branch never goes where its offset says, counted from the branch as the assembler does. */
  lemma BranchMisses(f: Fields, x: bv32, y: bv32, pc: int, offset: int)
    requires TakenI(f.opBits, x, y) && f.imm == Word(offset) & 0xFFFF && 0 <= pc < MODULUS
    ensures PcAfterBranch(f, x, y, Bump(pc, 4)) != Bump(pc, Distance16(offset))
  {
    hide TakenI, Word, Val, ByFour;
    Low16(offset);
    ByFourVal(f.imm);
  }

  /** A jump goes to its operand only from the last word of the address space. */
  lemma JumpMisses(s: Snapshot, target: int)
    requires Proper(s) && IsJump(s.f.opBits) && ByFour(s.f.imm) == Word(target) && 0 <= target < MODULUS
    ensures ExecuteOf(s).pc == target <==> s.pc == 0
  {
    hide Word, Val, ByFour, InFile;
    ValOfWord(target);
  }

  // ---- Instructions without a result ----

  /**
   Nothing reaches the ALU register: jr, mthi, mtlo, the multiplications and divisions, the branches,
   and codes the emulator does not know. They are written back all the same.
   */
  predicate NoResult(f: Fields) {
    if f.opBits == 0 then
      !IsShift(f.func) && !IsLogic(f.func) && !(32 <= f.func <= 35) && f.func != 16 && f.func != 18 && f.func != 9 &&
      f.func != 12
    else !IsJump(f.opBits) && !IsStore(f.opBits) && !IsLoad(f.opBits) && !(8 <= f.opBits <= 15)
  }

  lemma NoResultR(d: Snapshot)
    requires Proper(d) && Defined(d) && NoResult(d.f) && d.f.opBits == 0
    ensures var e := ExecuteOf(d); e.alu == d.alu && e.reg == d.reg && e.mem == d.mem && e.f == d.f
  {
    hide HiOf, LoOf, Rs, Rt, InFile, DefinedR, PcOf;
  }

  lemma NoResultI(d: Snapshot)
    requires Proper(d) && Defined(d) && NoResult(d.f) && d.f.opBits != 0
    ensures var e := ExecuteOf(d); e.alu == d.alu && e.reg == d.reg && e.mem == d.mem && e.f == d.f
  {
    hide Rs, Rt, InFile, PcAfterBranch, Sum, SignedLess, Less, BitAnd, BitOr, BitXor, LowHalf, ShiftHalf;
  }

  lemma RetireNoResult(e: Snapshot)
    requires Proper(e) && NoResult(e.f)
    ensures Retire(e).Some?
    ensures var t := Retire(e).value;
      t.reg == e.reg[Destination(e.f) := e.alu] && t.mem == e.mem && t.alu == e.alu && t.pc == e.pc
  {
    hide IsShift, IsLogic;
  }

  lemma LatchedFields(s: Snapshot)
    requires Proper(s) && CanFetch(s)
    ensures var d := Latched(s);
      d.f == FieldsOf(WordAt(s.mem, s.pc), s.f) && d.mem == s.mem && d.reg == s.reg && d.alu == s.alu &&
      d.pc == Bump(s.pc, 4)
  {
    hide FieldsOf, WordAt, InFile;
  }

  /**
   An instruction without a result puts the old ALU value into its destination; registers are kept only if it is
   there already.
   */
  lemma NoResultOverwrites(s: Snapshot)
    requires Proper(s) && TickOf(s).Some? && NoResult(Latched(s).f)
    ensures var t, r := TickOf(s).value, Destination(Latched(s).f);
      r < 32 && t.reg == s.reg[r := s.alu] && t.mem == s.mem && t.alu == s.alu &&
      (t.reg == s.reg <==> s.reg[r] == s.alu)
  {
    hide FieldsOf, WordAt, ExecuteOf, Retire, Latched, DefinedR, Bump, CanFetch, NoResult;
    var d := Latched(s);
    LatchedFields(s);
    if d.f.opBits == 0 {
      NoResultR(d);
    } else {
      NoResultI(d);
    }
    ExecuteProper(d);
    RetireNoResult(ExecuteOf(d));
    assert s.reg[Destination(d.f) := s.alu][Destination(d.f)] == s.alu;
  }

  lemma MulDivFields(l: TextInfo)
    requires IsMulDiv(l.op)
    ensures var w := EncodeLine(l);
      FieldOp(w) == 0 && 24 <= FieldFunc(w) <= 27 && FieldRs(w) == Ix(l.a0) && FieldRt(w) == Ix(l.a1) && FieldRd(w) == 0
  {
    hide Val, Word, EncodeAs, CodeOf, FormatOf, OpBits, FuncBits, BitsRs, BitsRt, BitsRd, FieldOp, FieldFunc,
      FieldRs, FieldRt, FieldRd, Ix;
    var x, y, z := Word(l.a0.val), Word(l.a1.val), Word(l.a2.val);
    MulDivFormat(l.op);
    EncodeUsed(FormatRsRt, CodeOf(l.op), x, y, z);
    FieldsRsRt(CodeOf(l.op), x, y);
    NoRd(CodeOf(l.op), x, y);
    FieldsAgree(EncodeLine(l));
    OperandField(l.a0);
    OperandField(l.a1);
    ValZero();
  }

  lemma MulDivFormat(op: Op)
    requires IsMulDiv(op)
    ensures FormatOf(op).FormatRsRt? && CodeOf(op) < 64 && 24 <= Val(CodeOf(op)) <= 27
  {
    hide ByteVal;
    ByteIsInt(24);
    ByteIsInt(25);
    ByteIsInt(26);
    ByteIsInt(27);
    ByteIsInt(0);
  }

  lemma NoRd(code: bv32, x: bv32, y: bv32)
    requires code < 64
    ensures FieldRd(EncodeAs(FormatRsRt, code, x, y, 0)) == 0
  {}

  /** An assembled multiplication or division leaves the ALU's old value in register 0, which is an ordinary cell. */
  lemma ZeroOverwritten(s: Snapshot, l: TextInfo)
    requires Proper(s) && TickOf(s).Some? && IsMulDiv(l.op) && WordAt(s.mem, s.pc) == EncodeLine(l)
    ensures TickOf(s).value.reg == s.reg[REG_ZERO := s.alu]
  {
    hide FieldsOf, EncodeLine, WordAt, InFile, FieldOp, FieldFunc, FieldRs, FieldRt, FieldRd, ExecuteOf, Retire,
      Latched;
    MulDivFields(l);
    LatchedFields(s);
    RegFields(EncodeLine(l), s.f);
    NoResultOverwrites(s);
  }

  // ---- Register jumps ----

  lemma JrFormat()
    ensures FormatOf(Jr).FormatR? && CodeOf(Jr) < 64 && Val(CodeOf(Jr)) == 8
  {
    hide ByteVal;
    ByteIsInt(8);
    ByteIsInt(0);
  }

  /**
   The assembler puts the register of jr in the rd field; the emulator reads the one in rs, which is the second
   operand.
   */
  lemma JrFields(l: TextInfo)
    requires l.op.Jr?
    ensures var w := EncodeLine(l); FieldOp(w) == 0 && FieldFunc(w) == 8 && FieldRs(w) == Ix(l.a1)
    ensures FieldRd(EncodeLine(l)) == Ix(l.a0) <==> Ix(l.a0) % 2 == 0
  {
    hide Val, Word, EncodeAs, CodeOf, FormatOf, OpBits, FuncBits, BitsRs, BitsRt, BitsRd, FieldOp, FieldFunc,
      FieldRs, FieldRt, FieldRd, Ix;
    var x, y, z := Word(l.a0.val), Word(l.a1.val), Word(l.a2.val);
    JrFormat();
    FieldsR(CodeOf(Jr), x, y, z);
    FieldsAgree(EncodeLine(l));
    RdAgrees(EncodeLine(l));
    OperandField(l.a0);
    OperandField(l.a1);
    EvenField(x);
    ValZero();
  }

  lemma ExecuteJr(d: Snapshot)
    requires Proper(d) && d.f.opBits == 0 && d.f.func == 8
    ensures Defined(d) && ExecuteOf(d).pc == Val(Rs(d))
  {
    hide AluOf, Rs, Rt, InFile, Val;
  }

  /**
   So an assembled jr goes where its second operand points: to its own register only when the two hold the same
   word.
   */
  lemma JrMisses(s: Snapshot, l: TextInfo)
    requires Proper(s) && TickOf(s).Some? && l.op.Jr? && WordAt(s.mem, s.pc) == EncodeLine(l)
    ensures var t := TickOf(s).value;
      t.pc == Val(s.reg[Ix(l.a1)]) && (t.pc == Val(s.reg[Ix(l.a0)]) <==> s.reg[Ix(l.a1)] == s.reg[Ix(l.a0)])
  {
    hide FieldsOf, EncodeLine, WordAt, InFile, FieldOp, FieldFunc, FieldRs, FieldRt, FieldRd, ExecuteOf, Retire,
      Latched, Val, Ix, Bump;
    var d := Latched(s);
    JrFields(l);
    LatchedFields(s);
    RegFields(EncodeLine(l), s.f);
    ExecuteJr(d);
    ExecuteProper(d);
    NoResultR(d);
    RetireNoResult(ExecuteOf(d));
    ValOrder(s.reg[Ix(l.a1)], s.reg[Ix(l.a0)]);
  }

  /** jalr assembles to the zero word, which only moves to the next one. */
  lemma JalrIdles(s: Snapshot, l: TextInfo)
    requires Proper(s) && CanFetch(s) && l.op.Jalr? && WordAt(s.mem, s.pc) == EncodeLine(l)
    ensures TickOf(s).Some? && var t := TickOf(s).value; t.reg == s.reg && t.mem == s.mem && t.pc == Bump(s.pc, 4)
  {
    hide FieldsOf, WordAt, InFile, FieldOp, FieldFunc, FieldRs, FieldRt, FieldRd, FieldShamt, ExecuteOf, Retire,
      Latched, AluOf, Bump, CanFetch, Word, Encode, ShiftLeft;
    NoFormatIsZero(l.op, Word(l.a0.val), Word(l.a1.val), Word(l.a2.val));
    var d := Latched(s);
    ZeroWordFields();
    LatchedFields(s);
    RegFields(0, s.f);
    ExecutePlain(d);
    ExecuteProper(d);
    RetireRegister(ExecuteOf(d));
    AluShift(d.f, Rs(d), Rt(d), d.pc, d.hi, d.lo, d.alu);
    ShiftByZero(Rt(d));
  }

  lemma ZeroWordFields()
    ensures FieldOp(0) == 0 && FieldFunc(0) == 0 && FieldRt(0) == 0 && FieldRd(0) == 0 && FieldShamt(0) == 0
  {}

  lemma ShiftByZero(x: bv32)
    ensures ShiftLeft(x, 0) == x
  {}
}
