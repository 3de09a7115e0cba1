/**
 Straight-line programs end to end: assembled, turned into bytes, loaded and run by the emulator,
 they leave the registers that their lines mean.
 */
module EndToEnd {
  import opened Words
  import opened Source
  import opened Layout
  import opened Isa
  import opened Encoding
  import opened Cpu
  import opened DataCache
  import opened Agreement
  import opened RunSafety
  import Assembler
  import Reassembly
  import Simulation
  import Program

  // ---- The lines and their meaning ----

  /** Lines the emulator decodes exactly: an even destination other than $zero, or a shift by less than 16. */
  predicate Straight(l: TextInfo) {
    Ix(l.a0) != REG_ZERO &&
    (IsAluReg(l.op) || l.op.Sll? ==> Ix(l.a0) % 2 == 0) &&
    (l.op.Sll? ==> l.a2.val % 32 < 16) &&
    (IsAluReg(l.op) || IsAluImm(l.op))
  }

  /** What a line computes from the registers it names. The emulator does not sign-extend immediates. */
  function LineValue(l: TextInfo, regs: RegFile): bv32 {
    if IsAluReg(l.op) then AluReg(l.op, Read(regs, l.a1), Read(regs, l.a2))
    else if l.op.Addi? || l.op.Addiu? then Sum(Read(regs, l.a1), LowHalf(Word(l.a2.val)))
    else AluImm(l.op, Operand(!l.op.Lui?, regs, l.a1), Word(l.a2.val))
  }

  function Meaning(l: TextInfo, regs: RegFile): RegFile { Write(regs, l.a0, LineValue(l, regs)) }

  function Fold(lines: seq<TextInfo>, regs: RegFile): RegFile {
    if lines == [] then regs else Fold(lines[1..], Meaning(lines[0], regs))
  }

  // ---- Decoding an assembled word ----

  /** The function code, or the opcode, of the operations of straight lines. */
  function CodeNo(op: Op): nat { ByteVal(CodeOf(op) as bv8) }

  lemma OperandField(a: Argument)
    ensures Val(Word(a.val) & 0x1F) == Ix(a)
  {
    hide Word, Val;
    Reassembly.RegisterKept(a.val);
  }

  lemma StraightFormats(op: Op)
    ensures IsAluReg(op) ==> FormatOf(op).FormatR?
    ensures op.Sll? ==> FormatOf(op).FormatShamt? && CodeOf(op) == 0
    ensures IsAluImm(op) && !op.Sll? ==> if op.Lui? then FormatOf(op).FormatIRt? else FormatOf(op).FormatI?
  {}

  lemma CodeIs(op: Op)
    ensures Val(CodeOf(op)) == CodeNo(op)
  {
    hide Val, ByteVal;
    CodesSmall(op);
    SmallVal(CodeOf(op));
  }

  // The fields of the three kinds of word, as the emulator reads them.
  lemma DecodedR(l: TextInfo)
    requires IsAluReg(l.op)
    ensures var w := EncodeLine(l);
      FieldOp(w) == 0 && FieldFunc(w) == CodeNo(l.op) && FieldRs(w) == Ix(l.a1) && FieldRt(w) == Ix(l.a2)
    ensures FieldRd(EncodeLine(l)) == Ix(l.a0) <==> Ix(l.a0) % 2 == 0
  {
    hide Val, Word, EncodeAs, CodeOf, FormatOf, OpBits, FuncBits, BitsRs, BitsRt, BitsRd, FieldOp, FieldFunc,
      FieldRs, FieldRt, FieldRd, Ix, CodeNo;
    var x, y, z := Word(l.a0.val), Word(l.a1.val), Word(l.a2.val);
    var w := EncodeLine(l);
    StraightFormats(l.op);
    CodesSmall(l.op);
    FieldsR(CodeOf(l.op), x, y, z);
    FieldsAgree(w);
    RdAgrees(w);
    OperandField(l.a0);
    OperandField(l.a1);
    OperandField(l.a2);
    CodeIs(l.op);
    ValZero();
    EvenField(x);
  }

  lemma EvenField(x: bv32)
    ensures x & 0x1F & 1 == 0 <==> Val(x & 0x1F) % 2 == 0
  {
    hide Val, ByteVal;
    Low5Val(x);
    var b := (x & 0x1F) as bv8;
    ByteIsInt(b);
    EvenByte(b);
    assert b & 1 == 0 <==> x & 0x1F & 1 == 0;
  }

  lemma EvenByte(b: bv8)
    ensures b & 1 == 0 <==> (b as int) % 2 == 0
  {}

  lemma DecodedShift(l: TextInfo)
    requires l.op.Sll?
    ensures var w := EncodeLine(l);
      FieldOp(w) == 0 && FieldFunc(w) == 0 && FieldRt(w) == Ix(l.a1) && FieldShamt(w) == Word(l.a2.val) & 0x1F & 0xF
    ensures FieldRd(EncodeLine(l)) == Ix(l.a0) <==> Ix(l.a0) % 2 == 0
  {
    hide Val, Word, EncodeAs, CodeOf, FormatOf, OpBits, FuncBits, BitsRs, BitsRt, BitsRd, BitsShamt, FieldOp,
      FieldFunc, FieldRs, FieldRt, FieldRd, FieldShamt, Ix;
    var x, y, z := Word(l.a0.val), Word(l.a1.val), Word(l.a2.val);
    var w := EncodeLine(l);
    StraightFormats(l.op);
    FieldsShamt(x, y, z);
    FieldsAgree(w);
    RdAgrees(w);
    ShamtAgrees(w);
    OperandField(l.a0);
    OperandField(l.a1);
    ValZero();
    EvenField(x);
  }

  // The word of an immediate instruction has two formats: lui names one register, the others two.
  lemma DecodedLui(l: TextInfo)
    requires l.op.Lui?
    ensures var w := EncodeLine(l);
      FieldOp(w) == CodeNo(l.op) && FieldRt(w) == Ix(l.a0) && FieldImm(w) == LowHalf(Word(l.a2.val))
  {
    hide Val, Word, EncodeAs, CodeOf, FormatOf, OpBits, FuncBits, BitsRs, BitsRt, BitsImm, FieldOp, FieldFunc,
      FieldRs, FieldRt, FieldImm, Ix, CodeNo;
    var x, y, z := Word(l.a0.val), Word(l.a1.val), Word(l.a2.val);
    StraightFormats(l.op);
    CodesSmall(l.op);
    FieldsIRt(CodeOf(l.op), x, z);
    EncodeUsed(FormatIRt, CodeOf(l.op), x, y, z);
    FieldsAgree(EncodeLine(l));
    OperandField(l.a0);
    CodeIs(l.op);
  }

  lemma DecodedTwo(l: TextInfo)
    requires IsAluImm(l.op) && !l.op.Sll? && !l.op.Lui?
    ensures var w := EncodeLine(l);
      FieldOp(w) == CodeNo(l.op) && FieldRt(w) == Ix(l.a0) && FieldImm(w) == LowHalf(Word(l.a2.val)) &&
      FieldRs(w) == Ix(l.a1)
  {
    hide Val, Word, EncodeAs, CodeOf, FormatOf, OpBits, FuncBits, BitsRs, BitsRt, BitsImm, FieldOp, FieldFunc,
      FieldRs, FieldRt, FieldImm, Ix, CodeNo;
    var x, y, z := Word(l.a0.val), Word(l.a1.val), Word(l.a2.val);
    StraightFormats(l.op);
    CodesSmall(l.op);
    FieldsI(CodeOf(l.op), x, y, z);
    FieldsAgree(EncodeLine(l));
    OperandField(l.a0);
    OperandField(l.a1);
    CodeIs(l.op);
  }

  lemma DecodedI(l: TextInfo)
    requires IsAluImm(l.op) && !l.op.Sll?
    ensures var w := EncodeLine(l);
      FieldOp(w) == CodeNo(l.op) && FieldRt(w) == Ix(l.a0) && FieldImm(w) == LowHalf(Word(l.a2.val)) &&
      (!l.op.Lui? ==> FieldRs(w) == Ix(l.a1))
  {
    hide *;
    if l.op.Lui? {
      DecodedLui(l);
    } else {
      DecodedTwo(l);
    }
  }

  // The numbers the emulator's switches test.
  lemma CodeNosReg(op: Op)
    ensures op.Add? ==> CodeNo(op) == 32
    ensures op.Addu? ==> CodeNo(op) == 33
    ensures op.Sub? ==> CodeNo(op) == 34
    ensures op.Subu? ==> CodeNo(op) == 35
    ensures op.And? ==> CodeNo(op) == 36
    ensures op.Or? ==> CodeNo(op) == 37
    ensures op.Xor? ==> CodeNo(op) == 38
    ensures op.Slt? ==> CodeNo(op) == 42
    ensures op.Sltu? ==> CodeNo(op) == 43
  {
    hide ByteVal;
    ByteIsInt(32);
    ByteIsInt(33);
    ByteIsInt(34);
    ByteIsInt(35);
    ByteIsInt(36);
    ByteIsInt(37);
    ByteIsInt(38);
    ByteIsInt(42);
    ByteIsInt(43);
  }

  lemma CodeNosImm(op: Op)
    ensures op.Addi? ==> CodeNo(op) == 8
    ensures op.Addiu? ==> CodeNo(op) == 9
    ensures op.Andi? ==> CodeNo(op) == 12
    ensures op.Ori? ==> CodeNo(op) == 13
    ensures op.Xori? ==> CodeNo(op) == 14
    ensures op.Lui? ==> CodeNo(op) == 15
  {
    hide ByteVal;
    ByteIsInt(8); ByteIsInt(9); ByteIsInt(12); ByteIsInt(13); ByteIsInt(14); ByteIsInt(15);
  }

  // ---- The stages of one line ----

  // The arithmetic of the emulator on the fields of a line is the meaning of its operation.
  lemma AluIsMeaning(op: Op, f: Fields, x: bv32, y: bv32, pc: int, hi: bv32, lo: bv32, alu: bv32)
    requires IsAluReg(op) && f.func == CodeNo(op)
    ensures AluOf(f, x, y, pc, hi, lo, alu) == AluReg(op, x, y)
  {
    hide CodeNo, Sum, Difference, BitAnd, BitOr, BitXor, SignedLess, Less, Word;
    CodeNosReg(op);
  }

  lemma HalfTwice(v: bv32)
    ensures LowHalf(LowHalf(v)) == LowHalf(v)
  {}

  lemma AluImmIsMeaning(op: Op, x: bv32, v: bv32, alu: bv32)
    requires IsAluImm(op) && !op.Sll?
    ensures AluImmOf(CodeNo(op), x, LowHalf(v), alu) ==
      if op.Addi? || op.Addiu? then Sum(x, LowHalf(v)) else AluImm(op, x, v)
  {
    hide CodeNo, Sum, BitAnd, BitOr, BitXor, SignedLess, Less, ShiftHalf, LowHalf;
    CodeNosImm(op);
    HalfTwice(v);
  }

  lemma ShiftField(l: TextInfo)
    ensures Word(l.a2.val) & 0x1F & 0xF == Word(l.a2.val) & 0x1F <==> l.a2.val % 32 < 16
  {
    hide Word, Val;
    OperandField(l.a2);
    SmallShift(Word(l.a2.val) & 0x1F);
  }

  lemma SmallShift(z: bv32)
    ensures z < 0x20 ==> (z & 0xF == z <==> Val(z) < 16)
  {
    hide Val, ByteVal;
    SmallVal(16);
    ByteIsInt(16);
    ValOrder(z, 16);
  }

  lemma ShiftMasked(x: bv32, z: bv32)
    ensures ShiftLeft(x, z & 0x1F) == ShiftLeft(x, z)
  {}

  lemma SllIs(x: bv32, z: bv32)
    ensures AluImm(Sll, x, z) == ShiftLeft(x, z)
  {}

  /** The state after a line that changes no more than a register. */
  predicate Wrote(d: Snapshot, t: Snapshot, r: nat, v: bv32)
    requires r < |d.reg|
  {
    t.reg == d.reg[r := v] && t.pc == d.pc && t.mem == d.mem && t.hi == d.hi && t.lo == d.lo
  }

  predicate PlainFunc(func: nat) { func == 0 || 32 <= func <= 38 || func == 42 || func == 43 }

  lemma ExecutePlain(d: Snapshot)
    requires Proper(d) && d.f.opBits == 0 && PlainFunc(d.f.func)
    ensures Defined(d) && ExecuteOf(d) == d.(alu := AluOf(d.f, Rs(d), Rt(d), d.pc, d.hi, d.lo, d.alu))
  {
    hide AluOf, Rs, Rt, InFile;
  }

  lemma RetireRegister(e: Snapshot)
    requires Proper(e) && e.f.opBits == 0 && PlainFunc(e.f.func)
    ensures Retire(e).Some? && Wrote(e, Retire(e).value, e.f.rd, e.alu)
  {}

  lemma ExecuteImmediates(d: Snapshot)
    requires Proper(d) && (d.f.opBits == 8 || d.f.opBits == 9 || 12 <= d.f.opBits <= 15)
    ensures Defined(d) && ExecuteOf(d) == d.(alu := AluImmOf(d.f.opBits, Rs(d), d.f.imm, d.alu))
  {
    hide AluImmOf, Rs, Rt, InFile;
  }

  lemma RetireImmediate(e: Snapshot)
    requires Proper(e) && (e.f.opBits == 8 || e.f.opBits == 9 || 12 <= e.f.opBits <= 15)
    ensures Retire(e).Some? && Wrote(e, Retire(e).value, e.f.rt, e.alu)
  {}

  // ---- One tick ----

  /** The emulator is about to run a straight line. */
  predicate Ready(s: Snapshot, l: TextInfo) {
    Proper(s) && s.reg[REG_ZERO] == 0 && Straight(l) && CanFetch(s) && WordAt(s.mem, s.pc) == EncodeLine(l)
  }

  predicate RanLine(s: Snapshot, l: TextInfo, t: Snapshot)
    requires |s.reg| == 32
  {
    t.reg == Meaning(l, s.reg) && t.pc == Bump(s.pc, 4) && t.mem == s.mem && t.hi == s.hi && t.lo == s.lo
  }

  lemma DecodedState(s: Snapshot, l: TextInfo)
    requires Ready(s, l)
    ensures var d := Latched(s);
      d.f == FieldsOf(EncodeLine(l), s.f) && d.pc == Bump(s.pc, 4) && d.mem == s.mem && d.reg == s.reg &&
        d.hi == s.hi && d.lo == s.lo
  {
    hide FieldsOf, EncodeLine, WordAt, Straight, InFile;
  }

  lemma ReadIs(regs: RegFile, a: Argument)
    requires regs[REG_ZERO] == 0
    ensures Read(regs, a) == regs[Ix(a)]
  {}

  lemma TickReg(s: Snapshot, l: TextInfo)
    requires Ready(s, l) && IsAluReg(l.op)
    ensures TickOf(s).Some? && RanLine(s, l, TickOf(s).value)
  {
    hide FieldsOf, EncodeLine, WordAt, InFile, FieldOp, FieldFunc, FieldRs, FieldRt, FieldRd, AluOf, AluReg,
      ExecuteOf, Retire, Latched, Defined, Ix, CodeNo, Bump, Read, CanFetch, IsAluReg;
    var d := Latched(s);
    DecodedState(s, l);
    DecodedR(l);
    RegFields(EncodeLine(l), s.f);
    RegFunc(l.op);
    ExecutePlain(d);
    ExecuteProper(d);
    RetireRegister(ExecuteOf(d));
    AluIsMeaning(l.op, d.f, Rs(d), Rt(d), d.pc, d.hi, d.lo, d.alu);
    ReadIs(s.reg, l.a1);
    ReadIs(s.reg, l.a2);
  }

  lemma RegFields(w: bv32, f: Fields)
    requires FieldOp(w) == 0
    ensures FieldsOf(w, f) == Fields(0, FieldFunc(w), FieldRs(w), FieldRt(w), FieldRd(w), FieldShamt(w), f.imm)
  {}

  lemma RegFunc(op: Op)
    requires IsAluReg(op)
    ensures PlainFunc(CodeNo(op))
  {
    hide CodeNo;
    CodeNosReg(op);
  }

  lemma TickShift(s: Snapshot, l: TextInfo)
    requires Ready(s, l) && l.op.Sll?
    ensures TickOf(s).Some? && RanLine(s, l, TickOf(s).value)
  {
    hide FieldsOf, EncodeLine, WordAt, InFile, FieldOp, FieldFunc, FieldRs, FieldRt, FieldRd, FieldShamt, AluOf,
      AluImm, ExecuteOf, Retire, Latched, Defined, Ix, Bump, Read, CanFetch, Word, ShiftLeft;
    var d := Latched(s);
    DecodedState(s, l);
    DecodedShift(l);
    RegFields(EncodeLine(l), s.f);
    ExecutePlain(d);
    ExecuteProper(d);
    RetireRegister(ExecuteOf(d));
    ShiftField(l);
    AluShift(d.f, Rs(d), Rt(d), d.pc, d.hi, d.lo, d.alu);
    ShiftMasked(Rt(d), Word(l.a2.val));
    SllIs(Rt(d), Word(l.a2.val));
    ReadIs(s.reg, l.a1);
  }

  lemma AluShift(f: Fields, x: bv32, y: bv32, pc: int, hi: bv32, lo: bv32, alu: bv32)
    requires f.func == 0
    ensures AluOf(f, x, y, pc, hi, lo, alu) == ShiftLeft(y, f.shamt)
  {}

  lemma ImmFields(w: bv32, f: Fields)
    requires FieldOp(w) != 0 && !IsJump(FieldOp(w))
    ensures FieldsOf(w, f) == Fields(FieldOp(w), f.func, FieldRs(w), FieldRt(w), f.rd, f.shamt, FieldImm(w))
  {}

  lemma ImmCode(op: Op)
    requires IsAluImm(op) && !op.Sll?
    ensures var n := CodeNo(op); n == 8 || n == 9 || 12 <= n <= 15
    ensures op.Lui? <==> CodeNo(op) == 15
  {
    hide CodeNo;
    CodeNosImm(op);
  }

  // lui ignores the register its word does not name.
  lemma LuiIgnores(x: bv32, x': bv32, imm: bv32, alu: bv32)
    ensures AluImmOf(15, x, imm, alu) == AluImmOf(15, x', imm, alu)
  {}

  lemma TickImm(s: Snapshot, l: TextInfo)
    requires Ready(s, l) && IsAluImm(l.op) && !l.op.Sll?
    ensures TickOf(s).Some? && RanLine(s, l, TickOf(s).value)
  {
    hide FieldsOf, EncodeLine, WordAt, InFile, FieldOp, FieldRs, FieldRt, FieldImm, AluImmOf, AluImm, ExecuteOf,
      Retire, Latched, Defined, Ix, CodeNo, Bump, Read, CanFetch, IsAluReg, IsAluImm, Word, LowHalf, Sum;
    var d, v := Latched(s), Word(l.a2.val);
    DecodedState(s, l);
    DecodedI(l);
    ImmCode(l.op);
    NotReg(l.op);
    ImmFields(EncodeLine(l), s.f);
    ExecuteImmediates(d);
    ExecuteProper(d);
    RetireImmediate(ExecuteOf(d));
    var x := Operand(!l.op.Lui?, s.reg, l.a1);
    LuiIgnores(Rs(d), x, LowHalf(v), d.alu);
    AluImmIsMeaning(l.op, x, v, d.alu);
    ReadIs(s.reg, l.a1);
  }

  lemma NotReg(op: Op)
    requires IsAluImm(op)
    ensures !IsAluReg(op)
  {}

  /** One tick of the emulator runs one line. */
  lemma TickLine(s: Snapshot, l: TextInfo)
    requires Ready(s, l)
    ensures TickOf(s).Some? && RanLine(s, l, TickOf(s).value)
    ensures Proper(TickOf(s).value) && TickOf(s).value.reg[REG_ZERO] == 0
  {
    hide TickOf, EncodeLine, WordAt, Ix, IsAluReg, IsAluImm, LineValue;
    if IsAluReg(l.op) {
      TickReg(s, l);
    } else if l.op.Sll? {
      TickShift(s, l);
    } else {
      TickImm(s, l);
    }
    TickProper(s);
  }

  // ---- Runs ----

  /** The words of the lines, in order, from an address on. */
  ghost predicate Holds(mem: seq<bv8>, pc: int, lines: seq<TextInfo>) {
    0 <= pc && pc + 4 * |lines| <= |mem| &&
    forall i :: 0 <= i < |lines| ==> WordAt(mem, pc + 4 * i) == EncodeLine(lines[i])
  }

  /** k ticks of the emulator over k straight lines fold their meanings over the registers, and change nothing else. */
  lemma {:induction false} RunLines(s: Snapshot, lines: seq<TextInfo>)
    requires Proper(s) && s.reg[REG_ZERO] == 0 && Holds(s.mem, s.pc, lines)
    requires forall i :: 0 <= i < |lines| ==> Straight(lines[i])
    ensures var r := Ticks(s, |lines|);
      r.Some? && r.value.reg == Fold(lines, s.reg) && r.value.pc == s.pc + 4 * |lines| &&
      r.value.mem == s.mem && r.value.hi == s.hi && r.value.lo == s.lo
    decreases |lines|
  {
    hide TickOf, EncodeLine, WordAt, Straight, Meaning, Bump;
    if lines != [] {
      assert WordAt(s.mem, s.pc + 4 * 0) == EncodeLine(lines[0]);
      TickLine(s, lines[0]);
      BumpExact(s.pc, 4);
      var t, rest := TickOf(s).value, lines[1..];
      forall i | 0 <= i < |rest|
        ensures WordAt(t.mem, t.pc + 4 * i) == EncodeLine(rest[i])
      {
        assert WordAt(s.mem, s.pc + 4 * (i + 1)) == EncodeLine(lines[i + 1]);
      }
      RunLines(t, rest);
    }
  }

  /**
   The whole way: any straight-line listing, assembled, turned into bytes, written to memory at any
   offset where it fits, and run for any number of ticks up to its length.
   */
  lemma AssembleLoadRun(lines: seq<TextInfo>, s: Snapshot, mem: seq<bv8>, k: nat)
    requires k <= |lines| && forall i :: 0 <= i < |lines| ==> Straight(lines[i])
    requires Proper(s) && s.reg[REG_ZERO] == 0 && |mem| == SMIPS_MEM_SIZE && s.pc + 4 * |lines| <= SMIPS_MEM_SIZE
    requires s.mem == WriteMemOf(mem, Program.ByteImage(Assembler.AssembledAll(lines)), s.pc)
    ensures var r := Ticks(s, k);
      r.Some? && r.value.reg == Fold(lines[..k], s.reg) && r.value.pc == s.pc + 4 * k &&
      r.value.mem == s.mem && r.value.hi == s.hi && r.value.lo == s.lo
  {
    hide Ticks, EncodeLine, WordAt, Straight, Fold, WriteMemOf, Program.ByteImage;
    var p := Assembler.AssembledAll(lines);
    forall i | 0 <= i < k
      ensures s.pc + 4 * i + 3 < |s.mem| && WordAt(s.mem, s.pc + 4 * i) == EncodeLine(lines[..k][i])
    {
      WordLoaded(mem, p, s.pc, i);
      assert p[i] == Assembler.Assembled(lines[i]);
    }
    RunLines(s, lines[..k]);
  }

  // ---- Against the reference machine ----

  /** The emulator adds an immediate as the instruction set does exactly when bit 15 of it is clear. */
  lemma AddImmediate(x: bv32, v: bv32)
    ensures Sum(x, LowHalf(v)) == Effective(x, v) <==> v & 0x8000 == 0
  {}

  predicate SignFree(l: TextInfo) { l.op.Addi? || l.op.Addiu? ==> Word(l.a2.val) & 0x8000 == 0 }

  /** On lines without a sign to extend the reference machine has the same meaning. */
  lemma MeaningIsExec(l: TextInfo, c: Core)
    requires Straight(l) && SignFree(l)
    ensures Exec(l, c) == Some(c.(regs := Meaning(l, c.regs)))
  {}

  lemma {:induction false} FoldSnoc(lines: seq<TextInfo>, l: TextInfo, regs: RegFile)
    ensures Fold(lines + [l], regs) == Meaning(l, Fold(lines, regs))
    decreases |lines|
  {
    hide Meaning;
    if lines == [] {
      assert (lines + [l])[1..] == [];
    } else {
      assert (lines + [l])[1..] == lines[1..] + [l];
      FoldSnoc(lines[1..], l, Meaning(lines[0], regs));
    }
  }

  /** The lines stand at consecutive addresses. */
  predicate Laid(text: seq<TextInfo>, start: int) { forall i :: 0 <= i < |text| ==> text[i].addr == start + 4 * i }

  /** The reference machine folds the same meanings. */
  lemma {:induction false} ReferenceRun(text: seq<TextInfo>, c: Core, start: int, k: nat)
    requires k <= |text| && 0 <= start && start + 4 * |text| < MODULUS && Laid(text, start)
    requires forall i :: 0 <= i < |text| ==> Straight(text[i]) && SignFree(text[i])
    ensures Run(text, Machine(c, start), k) == Some(Machine(c.(regs := Fold(text[..k], c.regs)), start + 4 * k))
    decreases k
  {
    hide Straight, SignFree, Step, Fetch, Meaning, Bump;
    if k > 0 {
      ReferenceRun(text, c, start, k - 1);
      var l := text[k - 1];
      var m := Machine(c.(regs := Fold(text[..k - 1], c.regs)), start + 4 * (k - 1));
      assert text[..k] == text[..k - 1] + [l];
      FoldSnoc(text[..k - 1], l, c.regs);
      RunTwice(text, Machine(c, start), k - 1, 1);
      Simulation.RunOne(text, m);
      StepLaid(text, start, k - 1, m);
      BumpExact(m.pc, 4);
    }
  }

  lemma StepLaid(text: seq<TextInfo>, start: int, k: nat, m: Machine)
    requires k < |text| && Laid(text, start) && m.pc == start + 4 * k && Straight(text[k]) && SignFree(text[k])
    requires forall i :: 0 <= i < |text| ==> Straight(text[i])
    ensures Step(text, m) == Some(Machine(m.core.(regs := Meaning(text[k], m.core.regs)), Bump(m.pc, 4)))
  {
    hide StepLine, Fetch, SignFree, Meaning, Bump, Exec;
    StraightOp(text[k]);
    Simulation.FetchFirst(text, m.pc, k);
    MeaningIsExec(text[k], m.core);
    Simulation.StepPlain(text[k], m, m.core.(regs := Meaning(text[k], m.core.regs)));
  }

  lemma StraightOp(l: TextInfo)
    requires Straight(l)
    ensures !l.op.OpNull? && IsPlain(l.op)
  {}

  /**
   The emulator keeps step with the reference machine, wherever each of the two has the listing: the
   same registers, and as far from the start, after any number of steps.
   */
  lemma EmulatorIsReference(lines: seq<TextInfo>, s: Snapshot, c: Core, base: int, mem: seq<bv8>, k: nat)
    requires k <= |lines| && forall i :: 0 <= i < |lines| ==> Straight(lines[i]) && SignFree(lines[i])
    requires Proper(s) && s.reg[REG_ZERO] == 0 && |mem| == SMIPS_MEM_SIZE && s.pc + 4 * |lines| <= SMIPS_MEM_SIZE
    requires s.mem == WriteMemOf(mem, Program.ByteImage(Assembler.AssembledAll(lines)), s.pc)
    requires 0 <= base && base + 4 * |lines| < MODULUS && Laid(lines, base) && c.regs == s.reg
    ensures var r, m := Ticks(s, k), Run(lines, Machine(c, base), k);
      r.Some? && m.Some? && r.value.reg == m.value.core.regs && r.value.pc - s.pc == m.value.pc - base
    ensures var m := Run(lines, Machine(c, base), k).value; m.pc == base + 4 * k && m.core == c.(regs := m.core.regs)
  {
    hide Ticks, Run, Straight, SignFree, Fold, WriteMemOf, Program.ByteImage;
    AssembleLoadRun(lines, s, mem, k);
    ReferenceRun(lines, c, base, k);
  }
}
