/**
 Whole programs through the disassembler and back.
 */
module Reassembly {
  import opened Words
  import opened Source
  import opened Encoding
  import opened Assembler
  import opened Disassembler
  import opened Isa
  import opened Layout
  import Simulation
  import Program

  /** One line: assembling, disassembling and assembling again. */
  lemma LineReassembles(l: TextInfo)
    ensures var p := Assembled(l);
      Assembled(DisInstr(p.ins, p.adr)) == Program.Instr(l.addr, Reassembled(l.op, p.ins))
  {
    hide Decode, Encode, Reassembled, Word, DisInstr;
    EncodeDecode(l.op, Word(l.a0.val), Word(l.a1.val), Word(l.a2.val));
    DisInstrDecodes(Assembled(l).ins, l.addr);
  }

  /** The program that comes back: the same addresses, and each word as Reassembled says. */
  function Back(text: seq<TextInfo>): (p: seq<Program.Instr>)
    ensures |p| == |text|
  {
    AssembledAll(DisLines(AssembledAll(text)))
  }

  /**
   For every program the assembler can build, disassembling it and assembling the result gives the
   same addresses and words, but that beq and bne have rs and rt exchanged, j and jal have bit 24 of
   the target cleared, and xor becomes the zero word.
   */
  lemma ProgramReassembles(text: seq<TextInfo>, i: nat)
    requires i < |text|
    ensures Back(text)[i] == Program.Instr(text[i].addr, Reassembled(text[i].op, EncodeLine(text[i])))
    ensures Back(text)[i] == AssembledAll(text)[i] <==>
      var op, w := text[i].op, EncodeLine(text[i]);
      (op.Xor? ==> w == 0) && (op.Beq? || op.Bne? ==> BitsRs(w) == BitsRt(w)) &&
        (op.J? || op.Jal? ==> w & 0x0100_0000 == 0)
  {
    hide Reassembled, EncodeLine, DisInstr, BitsRs, BitsRt;
    LineReassembles(text[i]);
    ReassembledKeeps(text[i].op, EncodeLine(text[i]));
  }

  /** A second round restores the branches, and changes nothing else. */
  lemma ProgramReassemblesTwice(text: seq<TextInfo>, i: nat)
    requires i < |text| && InBothTables(text[i].op)
    ensures var once := DisLines(AssembledAll(text)); var op := text[i].op;
      Back(once)[i] == if op.Beq? || op.Bne? then AssembledAll(text)[i] else Back(text)[i]
  {
    hide Reassembled, EncodeLine, DisInstr, Decode;
    var once, w := DisLines(AssembledAll(text)), EncodeLine(text[i]);
    LineReassembles(text[i]);
    LineReassembles(once[i]);
    ReassembledTwice(text[i].op, w);
    if w == 0 {
      ZeroStays(text[i]);
    } else {
      LineBack(text[i]);
    }
  }

  lemma ZeroStays(l: TextInfo)
    requires EncodeLine(l) == 0
    ensures EncodeLine(DisInstr(0, l.addr)) == 0 && Reassembled(l.op, 0) == 0 && Reassembled(OpNull, 0) == 0
    ensures DisInstr(0, l.addr).op.OpNull?
  {}

  // ---- The meaning of the disassembly ----

  /** The operands an instruction uses, as the fields of its word hold them. */
  function FieldValues(l: TextInfo): (bv32, bv32, bv32) {
    Kept(FormatOf(l.op), Word(l.a0.val), Word(l.a1.val), Word(l.a2.val))
  }

  // A disassembled line has the operation and the field values of the original.
  lemma LineBack(l: TextInfo)
    requires InBothTables(l.op) && EncodeLine(l) != 0
    ensures var t, v := DisInstr(EncodeLine(l), l.addr), FieldValues(l);
      t.op == l.op && t.addr == l.addr && t.a2.val == Val(v.2) &&
      if l.op.Beq? || l.op.Bne? then t.a0.val == Val(v.1) && t.a1.val == Val(v.0)
      else t.a0.val == Val(v.0) && t.a1.val == Val(v.1)
  {
    hide Decode, Encode, Word, Val, DisInstr, FormatOf, Kept, InBothTables;
    DisInstrReads(EncodeLine(l), l.addr);
    DecodeEncode(l.op, Word(l.a0.val), Word(l.a1.val), Word(l.a2.val));
  }

  lemma RegisterKept(x: int)
    ensures Val(Word(x) & 0x1F) == x % 32 && Val(Word(x) & 0x1F) % 32 == x % 32
  {
    hide Word, Val, ByteVal;
    Low5(x);
    Low5Val(Word(x));
  }

  // Which operand fields the formats keep.
  lemma FormatsRead(op: Op)
    requires InBothTables(op)
    ensures var f := FormatOf(op);
      (f.FormatJ? <==> op.J? || op.Jal?) && !f.NoFormat? &&
      (ReadsA2(op) ==> f.FormatR?) &&
      (op.Sll? ==> f.FormatShamt?) &&
      (op.Beq? || op.Bne? || op.Lw? || op.Sw? ==> f.FormatI?) &&
      (IsAluImm(op) && !op.Sll? ==> f.FormatI? || f.FormatIRt?) &&
      (ReadsA1(op) ==> f.FormatR? || f.FormatShamt? || f.FormatI? || f.FormatRsRt?)
  {}

  lemma KeptRegisters(op: Op, x: bv32, y: bv32, z: bv32)
    requires InBothTables(op)
    ensures var f := FormatOf(op); var v := Kept(f, x, y, z);
      (!f.FormatJ? ==> v.0 == x & 0x1F) &&
      (f.FormatJ? ==> v.0 == x & 0x0BFF_FFFC) &&
      (ReadsA1(op) || op.Beq? || op.Bne? ==> v.1 == y & 0x1F) &&
      (ReadsA2(op) || op.Sll? ==> v.2 == z & 0x1F) &&
      ((IsAluImm(op) && !op.Sll?) || op.Lw? || op.Sw? || op.Beq? || op.Bne? ==> v.2 == z & 0xFFFF) &&
      (f.FormatJ? <==> op.J? || op.Jal?)
  {
    hide FormatOf, InBothTables, ReadsA1, ReadsA2, IsAluImm;
    FormatsRead(op);
  }

  lemma EffectiveKept(x: bv32, z: bv32)
    ensures Effective(x, z & 0xFFFF) == Effective(x, z)
  {}

  lemma AluImmKept(op: Op, x: bv32, z: bv32)
    requires IsAluImm(op)
    ensures op.Sll? ==> AluImm(op, x, z & 0x1F) == AluImm(op, x, z)
    ensures !op.Sll? ==> AluImm(op, x, z & 0xFFFF) == AluImm(op, x, z)
  {}

  /** Two lines with one operation that name the same registers and have the same immediate field. */
  predicate SameFields(t: TextInfo, l: TextInfo) {
    t.op == l.op && Ix(t.a0) == Ix(l.a0) &&
    (ReadsA1(l.op) ==> Ix(t.a1) == Ix(l.a1)) &&
    (ReadsA2(l.op) ==> Ix(t.a2) == Ix(l.a2)) &&
    (l.op.Sll? ==> Word(t.a2.val) == Word(l.a2.val) & 0x1F) &&
    ((IsAluImm(l.op) && !l.op.Sll?) || l.op.Lw? || l.op.Sw? ==> Word(t.a2.val) == Word(l.a2.val) & 0xFFFF)
  }

  lemma EffectAluImm(op: Op, x0: bv32, x1: bv32, x2: bv32, v: bv32, v': bv32, c: Core)
    requires IsAluImm(op) && AluImm(op, x1, v) == AluImm(op, x1, v')
    ensures EffectOf(op, x0, x1, x2, v, c.hi, c.lo, c.mem) == EffectOf(op, x0, x1, x2, v', c.hi, c.lo, c.mem)
  {}

  lemma EffectMemory(op: Op, x0: bv32, x1: bv32, x2: bv32, v: bv32, v': bv32, c: Core)
    requires (op.Lw? || op.Sw?) && Effective(x1, v) == Effective(x1, v')
    ensures EffectOf(op, x0, x1, x2, v, c.hi, c.lo, c.mem) == EffectOf(op, x0, x1, x2, v', c.hi, c.lo, c.mem)
  {}

  lemma EffectOther(op: Op, x0: bv32, x1: bv32, x2: bv32, v: bv32, v': bv32, c: Core)
    requires !IsAluImm(op) && !op.Lw? && !op.Sw?
    ensures EffectOf(op, x0, x1, x2, v, c.hi, c.lo, c.mem) == EffectOf(op, x0, x1, x2, v', c.hi, c.lo, c.mem)
  {}

  /** The immediate operand matters to an effect only through its field. */
  lemma EffectKept(op: Op, x0: bv32, x1: bv32, x2: bv32, v: bv32, v': bv32, c: Core)
    requires op.Sll? ==> v == v' & 0x1F
    requires (IsAluImm(op) && !op.Sll?) || op.Lw? || op.Sw? ==> v == v' & 0xFFFF
    ensures EffectOf(op, x0, x1, x2, v, c.hi, c.lo, c.mem) == EffectOf(op, x0, x1, x2, v', c.hi, c.lo, c.mem)
  {
    hide EffectOf, AluImm, Effective, IsAluImm;
    if IsAluImm(op) {
      AluImmKept(op, x1, v');
      assert AluImm(op, x1, v) == AluImm(op, x1, v');
      EffectAluImm(op, x0, x1, x2, v, v', c);
    } else if op.Lw? || op.Sw? {
      EffectiveKept(x1, v');
      assert Effective(x1, v) == Effective(x1, v');
      EffectMemory(op, x0, x1, x2, v, v', c);
    } else {
      EffectOther(op, x0, x1, x2, v, v', c);
    }
  }

  lemma SameEffect(t: TextInfo, l: TextInfo, x0: bv32, x1: bv32, x2: bv32, c: Core)
    requires SameFields(t, l)
    ensures EffectOf(t.op, x0, x1, x2, Word(t.a2.val), c.hi, c.lo, c.mem) ==
      EffectOf(l.op, x0, x1, x2, Word(l.a2.val), c.hi, c.lo, c.mem)
  {
    hide EffectOf, Word, Ix, IsAluImm, ReadsA1, ReadsA2;
    EffectKept(l.op, x0, x1, x2, Word(t.a2.val), Word(l.a2.val), c);
  }

  lemma SameExec(t: TextInfo, l: TextInfo, c: Core)
    requires SameFields(t, l)
    ensures Exec(t, c) == Exec(l, c)
  {
    hide EffectOf, Word;
    SameEffect(t, l, Operand(ReadsA0(t.op), c.regs, t.a0), Operand(ReadsA1(t.op), c.regs, t.a1),
      Operand(ReadsA2(t.op), c.regs, t.a2), c);
  }

  lemma BackSameFields(l: TextInfo)
    requires InBothTables(l.op) && EncodeLine(l) != 0 && !l.op.Beq? && !l.op.Bne? && !l.op.J? && !l.op.Jal?
    ensures SameFields(DisInstr(EncodeLine(l), l.addr), l)
  {
    hide EncodeLine, DisInstr, Word, Val, FormatOf, Kept, InBothTables, ReadsA1, ReadsA2, IsAluImm;
    LineBack(l);
    var x, y, z := Word(l.a0.val), Word(l.a1.val), Word(l.a2.val);
    KeptRegisters(l.op, x, y, z);
    RegisterKept(l.a0.val);
    RegisterKept(l.a1.val);
    RegisterKept(l.a2.val);
    WordOfVal(FieldValues(l).2);
  }

  /** A jump operand whose word comes back as the same address. */
  predicate TargetKept(l: TextInfo) {
    l.op.J? || l.op.Jal? ==> Word(l.a0.val) & 0xF400_0003 == 0
  }

  lemma SameRead(regs: RegFile, a: Argument, b: Argument)
    requires a.val % 32 == b.val % 32
    ensures Read(regs, a) == Read(regs, b)
  {}

  lemma SameDistance(v: int, v': int)
    requires v == v' % 0x1_0000
    ensures Distance16(v) == Distance16(v')
  {}

  lemma BackBranch(l: TextInfo, m: Machine)
    requires (l.op.Beq? || l.op.Bne?) && EncodeLine(l) != 0
    ensures StepLine(DisInstr(EncodeLine(l), l.addr), m) == StepLine(l, m)
  {
    hide EncodeLine, DisInstr, Word, Val, Kept, InBothTables, ReadsA1, ReadsA2, IsAluImm, FormatOf, Bump, StepLine,
      Read, Distance16;
    BranchKnown(l.op);
    LineBack(l);
    Simulation.StepBranch(l, m);
    Simulation.StepBranch(DisInstr(EncodeLine(l), l.addr), m);
    KeptRegisters(l.op, Word(l.a0.val), Word(l.a1.val), Word(l.a2.val));
    RegisterKept(l.a0.val);
    RegisterKept(l.a1.val);
    Low16(l.a2.val);
    var t := DisInstr(EncodeLine(l), l.addr);
    SameRead(m.core.regs, t.a0, l.a1);
    SameRead(m.core.regs, t.a1, l.a0);
    SameDistance(t.a2.val, l.a2.val);
  }

  lemma BranchKnown(op: Op)
    ensures op.Beq? || op.Bne? || op.J? || op.Jal? ==> InBothTables(op)
  {}

  lemma JumpMask(x: bv32)
    requires x & 0xF400_0003 == 0
    ensures x & 0x0BFF_FFFC == x
  {}

  lemma BackJump(l: TextInfo, m: Machine)
    requires (l.op.J? || l.op.Jal?) && EncodeLine(l) != 0 && TargetKept(l)
    ensures StepLine(DisInstr(EncodeLine(l), l.addr), m) == StepLine(l, m)
  {
    hide EncodeLine, DisInstr, Word, Val, InBothTables, ReadsA1, ReadsA2, IsAluImm, FormatOf, Write, Kept, StepLine;
    BranchKnown(l.op);
    LineBack(l);
    Simulation.StepJump(l, m);
    Simulation.StepJump(DisInstr(EncodeLine(l), l.addr), m);
    KeptRegisters(l.op, Word(l.a0.val), Word(l.a1.val), Word(l.a2.val));
    JumpMask(Word(l.a0.val));
    ValOfWord(l.a0.val);
  }

  lemma StepPlain(t: TextInfo, l: TextInfo, m: Machine)
    requires SameFields(t, l) && !l.op.Beq? && !l.op.Bne? && !l.op.J? && !l.op.Jal?
    ensures StepLine(t, m) == StepLine(l, m)
  {
    hide Exec, Word, ReadsA1, ReadsA2, IsAluImm, Bump;
    SameExec(t, l, m.core);
  }

  /** Lines whose words keep their meaning: known to both tables, not the zero word, and with a jump target in range. */
  predicate Faithful(l: TextInfo) {
    l.op.OpNull? || (InBothTables(l.op) && EncodeLine(l) != 0 && TargetKept(l))
  }

  /** Running the disassembly of a line is running the line, from every machine state. */
  lemma BackSteps(l: TextInfo, m: Machine)
    requires Faithful(l) && !l.op.OpNull?
    ensures StepLine(DisInstr(EncodeLine(l), l.addr), m) == StepLine(l, m)
  {
    hide EncodeLine, DisInstr, SameFields, StepLine, InBothTables, Word;
    if l.op.Beq? || l.op.Bne? {
      BackBranch(l, m);
    } else if l.op.J? || l.op.Jal? {
      BackJump(l, m);
    } else {
      BackSameFields(l);
      StepPlain(DisInstr(EncodeLine(l), l.addr), l, m);
    }
  }

  /** The listing a program is disassembled to. */
  function Listed(text: seq<TextInfo>): (r: seq<TextInfo>)
    ensures |r| == |text|
  {
    DisLines(AssembledAll(text))
  }

  lemma NullBack(l: TextInfo)
    requires l.op.OpNull?
    ensures DisInstr(EncodeLine(l), l.addr).op.OpNull?
  {
    hide Word, Encode;
    NoFormatIsZero(l.op, Word(l.a0.val), Word(l.a1.val), Word(l.a2.val));
  }

  lemma LineAddr(l: TextInfo)
    requires Faithful(l)
    ensures DisInstr(EncodeLine(l), l.addr).addr == l.addr
    ensures DisInstr(EncodeLine(l), l.addr).op.OpNull? <==> l.op.OpNull?
  {
    hide EncodeLine, DisInstr, InBothTables, Word;
    DisInstrReads(EncodeLine(l), l.addr);
    if l.op.OpNull? {
      NullBack(l);
    } else {
      LineBack(l);
    }
  }

  lemma {:induction false} FetchBack(text: seq<TextInfo>, pc: int)
    requires forall i :: 0 <= i < |text| ==> Faithful(text[i])
    ensures Fetch(Listed(text), pc) ==
      match Fetch(text, pc) case None => None case Some(t) => Some(DisInstr(EncodeLine(t), t.addr))
    ensures Fetch(text, pc).Some? ==> Faithful(Fetch(text, pc).value) && !Fetch(text, pc).value.op.OpNull?
  {
    hide EncodeLine, DisInstr, Faithful;
    if text != [] {
      LineAddr(text[0]);
      assert Listed(text)[1..] == Listed(text[1..]);
      FetchBack(text[1..], pc);
    }
  }

  /**
   A program and its disassembly run alike: any number of steps, from any machine state, over every
   listing whose lines both tables know.
   */
  lemma {:induction false} DisassemblyRuns(text: seq<TextInfo>, m: Machine, n: nat)
    requires forall i :: 0 <= i < |text| ==> Faithful(text[i])
    ensures Run(Listed(text), m, n) == Run(text, m, n)
    decreases n
  {
    hide EncodeLine, DisInstr, Faithful, StepLine, Fetch, Listed;
    if n > 0 {
      FetchBack(text, m.pc);
      if Fetch(text, m.pc).Some? {
        BackSteps(Fetch(text, m.pc).value, m);
      }
      if Step(text, m).Some? {
        DisassemblyRuns(text, Step(text, m).value, n - 1);
      }
    }
  }

  /** The kinds of the operands of a disassembled line are those of its format. */
  lemma DisassembledKinds(l: TextInfo)
    requires InBothTables(l.op) && EncodeLine(l) != 0
    ensures var t := DisInstr(EncodeLine(l), l.addr);
      match FormatOf(l.op)
      case FormatR => t.a0.ty.SymRegister? && t.a1.ty.SymRegister? && t.a2.ty.SymRegister?
      case FormatShamt => t.a0.ty.SymRegister? && t.a1.ty.SymRegister? && t.a2.ty.SymLiteral?
      case FormatRsRt => t.a0.ty.SymRegister? && t.a1.ty.SymRegister? && t.a2.ty.SymNone?
      case FormatRd | FormatRs => t.a0.ty.SymRegister? && t.a1.ty.SymNone? && t.a2.ty.SymNone?
      case FormatI | FormatIRt => t.a0.ty.SymRegister? && t.a1.ty.SymRegister? && t.a2.ty.SymLiteral? && t.isImm
      case FormatJ => t.a0.ty.SymLiteral? && t.a1.ty.SymNone? && t.a2.ty.SymNone? && t.isImm
      case NoFormat => true
  {
    hide Val, Word, DecodeImm, DecodeReg, DecodeJump, OpBits, FuncBits, EncodeLine, FormatOf, InBothTables, CodeOf;
    FormatBits(l);
  }

  // The opcode and the function code of each format, which are all the disassembler switches on.
  lemma FormatBits(l: TextInfo)
    requires InBothTables(l.op)
    ensures var w, f := EncodeLine(l), FormatOf(l.op); var o, n := OpBits(w), FuncBits(w);
      (f.FormatR? ==> o == 0 && n != 0 && n != 2 && !(16 <= n <= 19) && !(24 <= n <= 27)) &&
      (f.FormatShamt? ==> o == 0 && n == 0) &&
      (f.FormatRsRt? ==> o == 0 && 24 <= n <= 27) &&
      (f.FormatRd? || f.FormatRs? ==> o == 0 && 16 <= n <= 19) &&
      (f.FormatI? || f.FormatIRt? ==> o != 0 && o != 2 && o != 3) &&
      (f.FormatJ? ==> o == 2 || o == 3) && !f.NoFormat?
  {
    hide Word, EncodeAs, OpBits, FuncBits, BitsRd, BitsRs, BitsRt, BitsShamt, BitsImm, BitsTarget, CodeOf, FormatOf,
      OpOfFunc, OpOfImm, InBothTables;
    var x, y, z := Word(l.a0.val), Word(l.a1.val), Word(l.a2.val);
    var c, f := CodeOf(l.op), FormatOf(l.op);
    CodesSmall(l.op);
    CodesPlain(l.op);
    CodesShort(l.op);
    CodesI(l.op);
    FormatsRead(l.op);
    EncodeUsed(f, c, x, y, z);
    match f {
      case FormatR => FieldsR(c, x, y, z);
      case FormatShamt => FieldsShamt(x, y, z);
      case FormatRsRt => FieldsRsRt(c, x, y);
      case FormatRd => FieldsRd(c, x);
      case FormatRs => FieldsRs(c, x);
      case FormatI => FieldsI(c, x, y, z);
      case FormatIRt => FieldsIRt(c, x, z);
      case FormatJ => FieldsJ(c, x);
      case NoFormat =>
    }
  }
}
