/**
 The instruction words: the assembler's encoder, the disassembler's decoder, and the round trips
 between them, over all operations and all operand values.
 */
module Encoding {
  import opened Words
  import opened Source

  // ---- The assembler's tables ----

  /** The function or opcode bits of an operation; operations without an entry read as zero. */
  function CodeOf(op: Op): bv32 {
    match op
    case Add => 0x20
    case Addu => 0x21
    case And => 0x24
    case Jr => 0x08
    case Jalr => 0x09
    case Mult => 0x18
    case Multu => 0x19
    case Or => 0x25
    case Sll => 0x00
    case Slt => 0x2A
    case Sltu => 0x2B
    case Sub => 0x22
    case Subu => 0x23
    case Div => 0x1A
    case Divu => 0x1B
    case Mfhi => 0x10
    case Mthi => 0x11
    case Mflo => 0x12
    case Mtlo => 0x13
    case Xor => 0x26
    case Addi => 0x08
    case Addiu => 0x09
    case Beq => 0x04
    case Bne => 0x05
    case Lw => 0x23
    case Lui => 0x0F
    case Ori => 0x0D
    case Sw => 0x2B
    case Andi => 0x0C
    case Xori => 0x0E
    case J => 0x02
    case Jal => 0x03
    case _ => 0x00
  }

  /** The instruction formats. Operations with none assemble to a zero word. */
  datatype Format = FormatR | FormatShamt | FormatRsRt | FormatRd | FormatRs | FormatI | FormatIRt | FormatJ | NoFormat

  function FormatOf(op: Op): Format {
    match op
    case Add | Addu | And | Jr | Or | Slt | Sltu | Sub | Subu | Xor => FormatR
    case Sll | Srl => FormatShamt
    case Div | Divu | Mult | Multu => FormatRsRt
    case Mfhi | Mflo => FormatRd
    case Mthi | Mtlo => FormatRs
    case Addi | Addiu | Andi | Beq | Bne | Lw | Ori | Xori | Sw => FormatI
    case Lui => FormatIRt
    case J | Jal => FormatJ
    case _ => NoFormat
  }

  // ---- Encoding ----

  function EncodeAs(f: Format, code: bv32, x: bv32, y: bv32, z: bv32): bv32 {
    match f
    case FormatR => code | ((x & 0x1F) << 11) | ((y & 0x1F) << 21) | ((z & 0x1F) << 16)
    case FormatShamt => code | ((x & 0x1F) << 11) | ((y & 0x1F) << 16) | ((z & 0x1F) << 6) | code
    case FormatRsRt => code | ((x & 0x1F) << 21) | ((y & 0x1F) << 16)
    case FormatRd => code | ((x & 0x1F) << 11)
    case FormatRs => code | ((x & 0x1F) << 21)
    case FormatI => (code << 26) | ((x & 0x1F) << 16) | ((y & 0x1F) << 21) | (z & 0xFFFF)
    case FormatIRt => (code << 26) | ((x & 0x1F) << 16) | (z & 0xFFFF)
    case FormatJ => (code << 26) | ((x & 0x0FFF_FFFC) >> 2)
    case NoFormat => 0
  }

  function Encode(op: Op, x: bv32, y: bv32, z: bv32): bv32 { EncodeAs(FormatOf(op), CodeOf(op), x, y, z) }

  /** The word of a text line. */
  function EncodeLine(l: TextInfo): bv32 { Encode(l.op, Word(l.a0.val), Word(l.a1.val), Word(l.a2.val)) }

  // ---- Decoding ----

  function OpBits(w: bv32): bv32 { (w & 0xFC00_0000) >> 26 }

  function FuncBits(w: bv32): bv32 { w & 0x3F }

  function BitsRs(w: bv32): bv32 { (w & 0x03E0_0000) >> 21 }

  function BitsRt(w: bv32): bv32 { (w & 0x001F_0000) >> 16 }

  function BitsRd(w: bv32): bv32 { (w & 0x0000_F800) >> 11 }

  function BitsShamt(w: bv32): bv32 { (w & 0x0000_07C0) >> 6 }

  function BitsImm(w: bv32): bv32 { w & 0xFFFF }

  // The mask leaves out bit 24.
  function BitsTarget(w: bv32): bv32 { (w & 0x02FF_FFFF) << 2 }

  /** What the disassembler reads from a word: an operation and up to three operand values. */
  datatype Decoded = Decoded(op: Op, x: bv32, y: bv32, z: bv32)

  function OpOfImm(opBits: bv32): Op {
    if opBits == 4 then Beq
    else if opBits == 5 then Bne
    else if opBits == 8 then Addi
    else if opBits == 9 then Addiu
    else if opBits == 12 then Andi
    else if opBits == 13 then Ori
    else if opBits == 10 then Slti
    else if opBits == 11 then Sltiu
    else if opBits == 15 then Lui
    else if opBits == 35 then Lw
    else if opBits == 43 then Sw
    else if opBits == 14 then Xori
    else OpNull
  }

  // There is no case for xor.
  function OpOfFunc(func: bv32): Op {
    if func == 32 then Add
    else if func == 33 then Addu
    else if func == 34 then Sub
    else if func == 35 then Subu
    else if func == 36 then And
    else if func == 37 then Or
    else if func == 39 then Nor
    else if func == 42 then Slt
    else if func == 43 then Sltu
    else if func == 0 then Sll
    else if func == 2 then Srl
    else if func == 8 then Jr
    else if func == 24 then Mult
    else if func == 25 then Multu
    else if func == 26 then Div
    else if func == 27 then Divu
    else if func == 16 then Mfhi
    else if func == 17 then Mthi
    else if func == 18 then Mflo
    else if func == 19 then Mtlo
    else OpNull
  }

  function DecodeImm(w: bv32): Decoded {
    var op := OpOfImm(OpBits(w));
    if op.Beq? || op.Bne? then Decoded(op, BitsRs(w), BitsRt(w), BitsImm(w))
    else Decoded(op, BitsRt(w), BitsRs(w), BitsImm(w))
  }

  function DecodeReg(w: bv32): Decoded {
    var func := FuncBits(w);
    var op := OpOfFunc(func);
    if func == 0 || func == 2 then Decoded(op, BitsRd(w), BitsRt(w), BitsShamt(w))
    else if 24 <= func <= 27 then Decoded(op, BitsRs(w), BitsRt(w), 0)
    else if func == 16 || func == 18 then Decoded(op, BitsRd(w), 0, 0)
    else if func == 17 || func == 19 then Decoded(op, BitsRs(w), 0, 0)
    else Decoded(op, BitsRd(w), BitsRs(w), BitsRt(w))
  }

  function DecodeJump(w: bv32): Decoded {
    if OpBits(w) == 2 then Decoded(J, BitsTarget(w), 0, 0) else Decoded(Jal, BitsTarget(w), 0, 0)
  }

  function Decode(w: bv32): Decoded {
    if w == 0 then Decoded(OpNull, 0, 0, 0)
    else if OpBits(w) == 2 || OpBits(w) == 3 then DecodeJump(w)
    else if OpBits(w) == 0 then DecodeReg(w)
    else DecodeImm(w)
  }

  // ---- The fields of an encoded word ----

  lemma FieldsR(code: bv32, x: bv32, y: bv32, z: bv32)
    requires code < 64
    ensures var w := EncodeAs(FormatR, code, x, y, z);
      OpBits(w) == 0 && FuncBits(w) == code && BitsRd(w) == x & 0x1F && BitsRs(w) == y & 0x1F && BitsRt(w) == z & 0x1F
  {}

  lemma FieldsShamt(x: bv32, y: bv32, z: bv32)
    ensures var w := EncodeAs(FormatShamt, 0, x, y, z);
      OpBits(w) == 0 && FuncBits(w) == 0 && BitsRd(w) == x & 0x1F && BitsRt(w) == y & 0x1F && BitsShamt(w) == z & 0x1F
  {}

  lemma FieldsRsRt(code: bv32, x: bv32, y: bv32)
    requires code < 64
    ensures var w := EncodeAs(FormatRsRt, code, x, y, 0);
      OpBits(w) == 0 && FuncBits(w) == code && BitsRs(w) == x & 0x1F && BitsRt(w) == y & 0x1F
  {}

  lemma FieldsRd(code: bv32, x: bv32)
    requires code < 64
    ensures var w := EncodeAs(FormatRd, code, x, 0, 0); OpBits(w) == 0 && FuncBits(w) == code && BitsRd(w) == x & 0x1F
  {}

  lemma FieldsRs(code: bv32, x: bv32)
    requires code < 64
    ensures var w := EncodeAs(FormatRs, code, x, 0, 0); OpBits(w) == 0 && FuncBits(w) == code && BitsRs(w) == x & 0x1F
  {}

  lemma FieldsI(code: bv32, x: bv32, y: bv32, z: bv32)
    requires code < 64
    ensures var w := EncodeAs(FormatI, code, x, y, z);
      OpBits(w) == code && BitsRt(w) == x & 0x1F && BitsRs(w) == y & 0x1F && BitsImm(w) == z & 0xFFFF
  {}

  lemma FieldsIRt(code: bv32, x: bv32, z: bv32)
    requires code < 64
    ensures var w := EncodeAs(FormatIRt, code, x, 0, z);
      OpBits(w) == code && BitsRt(w) == x & 0x1F && BitsRs(w) == 0 && BitsImm(w) == z & 0xFFFF
  {}

  lemma FieldsJ(code: bv32, x: bv32)
    requires code < 64
    ensures var w := EncodeAs(FormatJ, code, x, 0, 0); OpBits(w) == code && BitsTarget(w) == x & 0x0BFF_FFFC
  {}

  // Unused operands leave no trace.
  lemma EncodeUsed(f: Format, code: bv32, x: bv32, y: bv32, z: bv32)
    ensures f.FormatRsRt? ==> EncodeAs(f, code, x, y, z) == EncodeAs(f, code, x, y, 0)
    ensures f.FormatRd? || f.FormatRs? || f.FormatJ? ==> EncodeAs(f, code, x, y, z) == EncodeAs(f, code, x, 0, 0)
    ensures f.FormatIRt? ==> EncodeAs(f, code, x, y, z) == EncodeAs(f, code, x, 0, z)
  {}

  // ---- Decode after encode ----

  /** The operand values as the fields of a word hold them. */
  function Kept(f: Format, x: bv32, y: bv32, z: bv32): (bv32, bv32, bv32) {
    match f
    case FormatR | FormatShamt => (x & 0x1F, y & 0x1F, z & 0x1F)
    case FormatRsRt => (x & 0x1F, y & 0x1F, 0)
    case FormatRd | FormatRs => (x & 0x1F, 0, 0)
    case FormatI => (x & 0x1F, y & 0x1F, z & 0xFFFF)
    case FormatIRt => (x & 0x1F, 0, z & 0xFFFF)
    case FormatJ => (x & 0x0BFF_FFFC, 0, 0)
    case NoFormat => (0, 0, 0)
  }

  /** Operations that both the encoder and the decoder know. */
  predicate InBothTables(op: Op) { !FormatOf(op).NoFormat? && !op.Xor? && !op.Srl? }

  /** The operands come back in place, but for the two registers of a conditional branch. */
  function Swapped(op: Op, v: (bv32, bv32, bv32)): Decoded {
    if op.Beq? || op.Bne? then Decoded(op, v.1, v.0, v.2) else Decoded(op, v.0, v.1, v.2)
  }

  // The operations coded by a function number.
  predicate FuncCoded(op: Op) {
    match op
    case Add | Addu | And | Jr | Jalr | Mult | Multu | Or | Sll | Slt | Sltu | Sub | Subu | Div | Divu => true
    case Mfhi | Mthi | Mflo | Mtlo | Xor => true
    case _ => false
  }

  lemma FuncSmall(op: Op)
    requires FuncCoded(op)
    ensures CodeOf(op) < 64
  {}

  lemma OpcodeSmall(op: Op)
    requires !FuncCoded(op)
    ensures CodeOf(op) < 64
  {}

  lemma CodesSmall(op: Op)
    ensures CodeOf(op) < 64
  {
    hide *;
    if FuncCoded(op) {
      FuncSmall(op);
    } else {
      OpcodeSmall(op);
    }
  }

  lemma CodesPlain(op: Op)
    requires InBothTables(op)
    ensures var f, c := FormatOf(op), CodeOf(op);
      f.FormatR? ==> OpOfFunc(c) == op && c != 0 && c != 2 && !(24 <= c <= 27) && !(16 <= c <= 19)
  {}

  lemma CodesShort(op: Op)
    requires InBothTables(op)
    ensures var f, c := FormatOf(op), CodeOf(op);
      (f.FormatShamt? ==> op.Sll? && OpOfFunc(c) == op && c == 0) &&
      (f.FormatRsRt? ==> OpOfFunc(c) == op && 24 <= c <= 27) &&
      (f.FormatRd? ==> OpOfFunc(c) == op && (c == 16 || c == 18)) &&
      (f.FormatRs? ==> OpOfFunc(c) == op && (c == 17 || c == 19))
  {}

  lemma CodesI(op: Op)
    requires InBothTables(op)
    ensures var f, c := FormatOf(op), CodeOf(op);
      (f.FormatI? ==> OpOfImm(c) == op && c != 0 && c != 2 && c != 3 && !op.Lui?) &&
      (f.FormatIRt? ==> op.Lui? && OpOfImm(c) == op && c == 15) &&
      (f.FormatJ? ==> (op.J? && c == 2) || (op.Jal? && c == 3)) &&
      (op.Beq? || op.Bne? ==> f.FormatI?) && (op.J? || op.Jal? ==> f.FormatJ?)
  {}

  // One format at a time.
  lemma DecodeR(op: Op, x: bv32, y: bv32, z: bv32)
    requires InBothTables(op) && FormatOf(op).FormatR?
    ensures var w := EncodeAs(FormatR, CodeOf(op), x, y, z); w != 0 ==> Decode(w) == Swapped(op, Kept(FormatR, x, y, z))
  {
    hide OpBits, FuncBits, BitsRs, BitsRt, BitsRd, BitsShamt, BitsImm, BitsTarget, OpOfFunc, OpOfImm, CodeOf,
      EncodeAs, FormatOf, InBothTables;
    CodesSmall(op);
    CodesI(op);
    CodesPlain(op);
    EncodeUsed(FormatR, CodeOf(op), x, y, z);
    FieldsR(CodeOf(op), x, y, z);
  }

  lemma DecodeShamt(op: Op, x: bv32, y: bv32, z: bv32)
    requires InBothTables(op) && FormatOf(op).FormatShamt?
    ensures var w := EncodeAs(FormatShamt, CodeOf(op), x, y, z);
      w != 0 ==> Decode(w) == Swapped(op, Kept(FormatShamt, x, y, z))
  {
    hide OpBits, FuncBits, BitsRs, BitsRt, BitsRd, BitsShamt, BitsImm, BitsTarget, OpOfFunc, OpOfImm, CodeOf,
      EncodeAs, FormatOf, InBothTables;
    CodesSmall(op);
    CodesI(op);
    CodesShort(op);
    EncodeUsed(FormatShamt, CodeOf(op), x, y, z);
    FieldsShamt(x, y, z);
  }

  lemma DecodeRsRt(op: Op, x: bv32, y: bv32, z: bv32)
    requires InBothTables(op) && FormatOf(op).FormatRsRt?
    ensures var w := EncodeAs(FormatRsRt, CodeOf(op), x, y, z);
      w != 0 ==> Decode(w) == Swapped(op, Kept(FormatRsRt, x, y, z))
  {
    hide OpBits, FuncBits, BitsRs, BitsRt, BitsRd, BitsShamt, BitsImm, BitsTarget, OpOfFunc, OpOfImm, CodeOf,
      EncodeAs, FormatOf, InBothTables;
    CodesSmall(op);
    CodesI(op);
    CodesShort(op);
    EncodeUsed(FormatRsRt, CodeOf(op), x, y, z);
    FieldsRsRt(CodeOf(op), x, y);
  }

  lemma DecodeRd(op: Op, x: bv32, y: bv32, z: bv32)
    requires InBothTables(op) && FormatOf(op).FormatRd?
    ensures var w := EncodeAs(FormatRd, CodeOf(op), x, y, z);
      w != 0 ==> Decode(w) == Swapped(op, Kept(FormatRd, x, y, z))
  {
    hide OpBits, FuncBits, BitsRs, BitsRt, BitsRd, BitsShamt, BitsImm, BitsTarget, OpOfFunc, OpOfImm, CodeOf,
      EncodeAs, FormatOf, InBothTables;
    CodesSmall(op);
    CodesI(op);
    CodesShort(op);
    EncodeUsed(FormatRd, CodeOf(op), x, y, z);
    FieldsRd(CodeOf(op), x);
  }

  lemma DecodeRs(op: Op, x: bv32, y: bv32, z: bv32)
    requires InBothTables(op) && FormatOf(op).FormatRs?
    ensures var w := EncodeAs(FormatRs, CodeOf(op), x, y, z);
      w != 0 ==> Decode(w) == Swapped(op, Kept(FormatRs, x, y, z))
  {
    hide OpBits, FuncBits, BitsRs, BitsRt, BitsRd, BitsShamt, BitsImm, BitsTarget, OpOfFunc, OpOfImm, CodeOf,
      EncodeAs, FormatOf, InBothTables;
    CodesSmall(op);
    CodesI(op);
    CodesShort(op);
    EncodeUsed(FormatRs, CodeOf(op), x, y, z);
    FieldsRs(CodeOf(op), x);
  }

  lemma DecodeI(op: Op, x: bv32, y: bv32, z: bv32)
    requires InBothTables(op) && FormatOf(op).FormatI?
    ensures var w := EncodeAs(FormatI, CodeOf(op), x, y, z); w != 0 ==> Decode(w) == Swapped(op, Kept(FormatI, x, y, z))
  {
    hide OpBits, FuncBits, BitsRs, BitsRt, BitsRd, BitsShamt, BitsImm, BitsTarget, OpOfFunc, OpOfImm, CodeOf,
      EncodeAs, FormatOf, InBothTables;
    CodesSmall(op);
    CodesI(op);
    EncodeUsed(FormatI, CodeOf(op), x, y, z);
    FieldsI(CodeOf(op), x, y, z);
  }

  lemma DecodeIRt(op: Op, x: bv32, y: bv32, z: bv32)
    requires InBothTables(op) && FormatOf(op).FormatIRt?
    ensures var w := EncodeAs(FormatIRt, CodeOf(op), x, y, z);
      w != 0 ==> Decode(w) == Swapped(op, Kept(FormatIRt, x, y, z))
  {}

  lemma DecodeJ(op: Op, x: bv32, y: bv32, z: bv32)
    requires InBothTables(op) && FormatOf(op).FormatJ?
    ensures var w := EncodeAs(FormatJ, CodeOf(op), x, y, z); w != 0 ==> Decode(w) == Swapped(op, Kept(FormatJ, x, y, z))
  {
    hide OpBits, FuncBits, BitsRs, BitsRt, BitsRd, BitsShamt, BitsImm, BitsTarget, OpOfFunc, OpOfImm, CodeOf,
      EncodeAs, FormatOf, InBothTables;
    CodesSmall(op);
    CodesI(op);
    EncodeUsed(FormatJ, CodeOf(op), x, y, z);
    FieldsJ(CodeOf(op), x);
  }

  lemma DecodeZero()
    ensures Decode(0) == Decoded(OpNull, 0, 0, 0)
  {}

  /**
   Decoding an assembled word gives back the operation and the field values of its operands, for
   every operation both tables have and all operands; the zero word, which sll can assemble to,
   is the no-op instead.
   */
  lemma DecodeEncode(op: Op, x: bv32, y: bv32, z: bv32)
    requires InBothTables(op)
    ensures var w := Encode(op, x, y, z);
      Decode(w) == (if w == 0 then Decoded(OpNull, 0, 0, 0) else Swapped(op, Kept(FormatOf(op), x, y, z)))
  {
    hide Decode, CodeOf, FormatOf, EncodeAs, InBothTables, Kept, Swapped;
    DecodeZero();
    NotInBoth(op);
    match FormatOf(op) {
      case FormatR => DecodeR(op, x, y, z);
      case FormatShamt => DecodeShamt(op, x, y, z);
      case FormatRsRt => DecodeRsRt(op, x, y, z);
      case FormatRd => DecodeRd(op, x, y, z);
      case FormatRs => DecodeRs(op, x, y, z);
      case FormatI => DecodeI(op, x, y, z);
      case FormatIRt => DecodeIRt(op, x, y, z);
      case FormatJ => DecodeJ(op, x, y, z);
      case NoFormat =>
    }
  }

  // ---- Encode after decode ----

  /** The word with its rs and rt fields exchanged. */
  function SwapRsRt(w: bv32): bv32 {
    (w & 0xFC00_FFFF) | (BitsRs(w) << 16) | (BitsRt(w) << 21)
  }

  /** What becomes of an assembled word when it is disassembled and assembled again. */
  function Reassembled(op: Op, w: bv32): bv32 {
    if op.Xor? then 0
    else if op.Beq? || op.Bne? then SwapRsRt(w)
    else if op.J? || op.Jal? then w & 0xFEFF_FFFF
    else w
  }

  // Masking operands first changes nothing, one format at a time.
  lemma KeptR(code: bv32, x: bv32, y: bv32, z: bv32)
    ensures EncodeAs(FormatR, code, x & 0x1F, y & 0x1F, z & 0x1F) == EncodeAs(FormatR, code, x, y, z)
    ensures EncodeAs(FormatShamt, code, x & 0x1F, y & 0x1F, z & 0x1F) == EncodeAs(FormatShamt, code, x, y, z)
  {}

  lemma KeptRsRt(code: bv32, x: bv32, y: bv32, z: bv32)
    ensures EncodeAs(FormatRsRt, code, x & 0x1F, y & 0x1F, 0) == EncodeAs(FormatRsRt, code, x, y, z)
  {}

  lemma KeptRd(code: bv32, x: bv32, y: bv32, z: bv32)
    ensures EncodeAs(FormatRd, code, x & 0x1F, 0, 0) == EncodeAs(FormatRd, code, x, y, z)
  {}

  lemma KeptRs(code: bv32, x: bv32, y: bv32, z: bv32)
    ensures EncodeAs(FormatRs, code, x & 0x1F, 0, 0) == EncodeAs(FormatRs, code, x, y, z)
  {}

  lemma KeptI(code: bv32, x: bv32, y: bv32, z: bv32)
    ensures EncodeAs(FormatI, code, x & 0x1F, y & 0x1F, z & 0xFFFF) == EncodeAs(FormatI, code, x, y, z)
    ensures EncodeAs(FormatIRt, code, x & 0x1F, 0, z & 0xFFFF) == EncodeAs(FormatIRt, code, x, y, z)
    ensures EncodeAs(NoFormat, code, 0, 0, 0) == EncodeAs(NoFormat, code, x, y, z)
  {}

  lemma EncodeKept(f: Format, code: bv32, x: bv32, y: bv32, z: bv32)
    requires !f.FormatJ?
    ensures var v := Kept(f, x, y, z); EncodeAs(f, code, v.0, v.1, v.2) == EncodeAs(f, code, x, y, z)
  {
    hide EncodeAs;
    match f {
      case FormatR => KeptR(code, x, y, z);
      case FormatShamt => KeptR(code, x, y, z);
      case FormatRsRt => KeptRsRt(code, x, y, z);
      case FormatRd => KeptRd(code, x, y, z);
      case FormatRs => KeptRs(code, x, y, z);
      case _ => KeptI(code, x, y, z);
    }
  }

  lemma ZeroEncodes(x: bv32, y: bv32, z: bv32)
    ensures Encode(OpNull, x, y, z) == 0
  {}

  lemma XorDecodes(x: bv32, y: bv32, z: bv32)
    ensures var w := Encode(Xor, x, y, z); w != 0 && Decode(w).op.OpNull?
  {
    hide OpBits, BitsRs, BitsRt, BitsRd, BitsShamt, BitsImm, BitsTarget, EncodeAs;
    FieldsR(0x26, x, y, z);
    assert FuncBits(0) == 0;
  }

  lemma ReassembledIs(op: Op, w: bv32)
    requires InBothTables(op)
    ensures op.Beq? || op.Bne? ==> Reassembled(op, w) == SwapRsRt(w)
    ensures op.J? || op.Jal? ==> Reassembled(op, w) == w & 0xFEFF_FFFF
    ensures !op.Beq? && !op.Bne? && !op.J? && !op.Jal? ==> Reassembled(op, w) == w
  {}

  // Assembling what the decoder gives, in the three cases.
  lemma EncodeSame(op: Op, x: bv32, y: bv32, z: bv32)
    requires !FormatOf(op).FormatJ?
    ensures var v := Kept(FormatOf(op), x, y, z); Encode(op, v.0, v.1, v.2) == Encode(op, x, y, z)
  {
    hide EncodeAs, Kept, FormatOf, CodeOf;
    EncodeKept(FormatOf(op), CodeOf(op), x, y, z);
  }

  lemma EncodeBranchBack(op: Op, x: bv32, y: bv32, z: bv32)
    requires FormatOf(op).FormatI?
    ensures var v := Kept(FormatOf(op), x, y, z); Encode(op, v.1, v.0, v.2) == SwapRsRt(Encode(op, x, y, z))
  {}

  lemma EncodeJumpBack(op: Op, x: bv32, y: bv32, z: bv32)
    requires FormatOf(op).FormatJ?
    ensures var v := Kept(FormatOf(op), x, y, z); Encode(op, v.0, v.1, v.2) == Encode(op, x, y, z) & 0xFEFF_FFFF
  {}

  /** Reassembly of a word both tables know. */
  lemma EncodeDecodeKnown(op: Op, x: bv32, y: bv32, z: bv32)
    requires InBothTables(op) && Encode(op, x, y, z) != 0
    ensures var w := Encode(op, x, y, z); var d := Decode(w);
      Encode(d.op, d.x, d.y, d.z) == Reassembled(op, w)
  {
    hide Decode, Encode, SwapRsRt, FormatOf, InBothTables, Kept, Reassembled;
    DecodeEncode(op, x, y, z);
    CodesI(op);
    ReassembledIs(op, Encode(op, x, y, z));
    if op.Beq? || op.Bne? {
      EncodeBranchBack(op, x, y, z);
    } else if op.J? || op.Jal? {
      EncodeJumpBack(op, x, y, z);
    } else {
      EncodeSame(op, x, y, z);
    }
  }

  /**
   Reassembly, for every operation and all operands: disassembling an assembled word and assembling
   the result gives the word Reassembled says. An operation with no format has the zero word and
   keeps it; srl, which has no code, has the word of sll and keeps it.
   */
  lemma EncodeDecode(op: Op, x: bv32, y: bv32, z: bv32)
    ensures var w := Encode(op, x, y, z); var d := Decode(w);
      Encode(d.op, d.x, d.y, d.z) == Reassembled(op, w)
  {
    hide Decode, Encode, SwapRsRt, FormatOf, Reassembled;
    var w := Encode(op, x, y, z);
    if w == 0 {
      ZeroWord(op, x, y, z);
    } else if op.Xor? {
      XorDecodes(x, y, z);
      ZeroEncodes(Decode(w).x, Decode(w).y, Decode(w).z);
      XorReassembled(w);
    } else if FormatOf(op).NoFormat? {
      NoFormatIsZero(op, x, y, z);
    } else if op.Srl? {
      SrlIsSll(x, y, z);
      SllKnown();
      EncodeDecodeKnown(Sll, x, y, z);
      XorReassembled(w);
    } else {
      EncodeDecodeKnown(op, x, y, z);
    }
  }

  lemma SllKnown()
    ensures InBothTables(Sll)
  {}

  lemma XorReassembled(w: bv32)
    ensures Reassembled(Xor, w) == 0 && Reassembled(Sll, w) == Reassembled(Srl, w)
  {
    hide SwapRsRt;
  }

  lemma NoFormatIsZero(op: Op, x: bv32, y: bv32, z: bv32)
    requires FormatOf(op).NoFormat?
    ensures Encode(op, x, y, z) == 0
  {}

  lemma SrlIsSll(x: bv32, y: bv32, z: bv32)
    ensures Encode(Srl, x, y, z) == Encode(Sll, x, y, z)
  {}

  // The zero word stays zero; among the operations that Reassembled changes only a word with no fields can be zero.
  lemma ZeroWord(op: Op, x: bv32, y: bv32, z: bv32)
    requires Encode(op, x, y, z) == 0
    ensures Decode(0) == Decoded(OpNull, 0, 0, 0) && Encode(OpNull, 0, 0, 0) == 0 && Reassembled(op, 0) == 0
  {}

  lemma SwapKeeps(w: bv32)
    ensures SwapRsRt(w) == w <==> BitsRs(w) == BitsRt(w)
  {
    hide SwapRsRt, BitsRs, BitsRt;
    SwapFields(w);
    if BitsRs(w) == BitsRt(w) { FieldsDetermine(w, SwapRsRt(w)); }
  }

  lemma SwapTwice(w: bv32)
    ensures SwapRsRt(SwapRsRt(w)) == w
  {}

  lemma SwapFields(w: bv32)
    ensures var s := SwapRsRt(w);
      BitsRs(s) == BitsRt(w) && BitsRt(s) == BitsRs(w) && s & 0xFC00_FFFF == w & 0xFC00_FFFF
  {}

  lemma FieldsDetermine(v: bv32, w: bv32)
    requires BitsRs(v) == BitsRs(w) && BitsRt(v) == BitsRt(w) && v & 0xFC00_FFFF == w & 0xFC00_FFFF
    ensures v == w
  {}

  lemma ClearKeeps(w: bv32)
    ensures w & 0xFEFF_FFFF == w <==> w & 0x0100_0000 == 0
    ensures w & 0xFEFF_FFFF & 0xFEFF_FFFF == w & 0xFEFF_FFFF
  {}

  /** When reassembly keeps the word. */
  lemma ReassembledKeeps(op: Op, w: bv32)
    ensures Reassembled(op, w) == w <==>
      (op.Xor? ==> w == 0) &&
      (op.Beq? || op.Bne? ==> BitsRs(w) == BitsRt(w)) &&
      (op.J? || op.Jal? ==> w & 0x0100_0000 == 0)
  {
    hide SwapRsRt, BitsRs, BitsRt;
    SwapKeeps(w);
    ClearKeeps(w);
  }

  /** Reassembling twice: the branch registers are back in place, and nothing else changes again. */
  lemma ReassembledTwice(op: Op, w: bv32)
    ensures Reassembled(op, Reassembled(op, w)) == if op.Beq? || op.Bne? then w else Reassembled(op, w)
  {
    hide SwapRsRt;
    if op.Beq? || op.Bne? {
      SwapTwice(w);
    } else if op.J? || op.Jal? {
      ClearKeeps(w);
    }
  }

  // ---- Operands ----

  /** Operand values that their fields hold exactly; those a format does not use are zero. */
  predicate InRange(f: Format, x: bv32, y: bv32, z: bv32) { Kept(f, x, y, z) == (x, y, z) && !f.NoFormat? }

  /** A jump operand comes back exactly when it is word-aligned, below 2^28, and has bit 26 clear. */
  lemma JumpInRange(x: bv32)
    ensures InRange(FormatJ, x, 0, 0) <==> x & 0xF400_0003 == 0
  {}

  /** Only sll of $zero by nothing into $zero is the zero word. */
  lemma ZeroIsSll(op: Op, x: bv32, y: bv32, z: bv32)
    requires InBothTables(op) && Encode(op, x, y, z) == 0
    ensures op.Sll? && Kept(FormatOf(op), x, y, z) == (0, 0, 0)
  {
    hide OpBits, FuncBits, BitsRs, BitsRt, BitsRd, BitsShamt, BitsImm, BitsTarget, OpOfFunc, OpOfImm, CodeOf,
      FormatOf, EncodeAs, InBothTables;
    var f, c := FormatOf(op), CodeOf(op);
    ZeroFields();
    CodesSmall(op);
    CodesPlain(op);
    CodesShort(op);
    CodesI(op);
    EncodeUsed(f, c, x, y, z);
    match f {
      case FormatR => FieldsR(c, x, y, z);
      case FormatShamt => FieldsShamt(x, y, z);
      case FormatRsRt => FieldsRsRt(c, x, y);
      case FormatRd => FieldsRd(c, x);
      case FormatRs => FieldsRs(c, x);
      case FormatI => FieldsI(c, x, y, z);
      case FormatIRt => FieldsIRt(c, x, z);
      case FormatJ => FieldsJ(c, x);
      case NoFormat => NotInBoth(op);
    }
  }

  lemma ZeroFields()
    ensures OpBits(0) == 0 && FuncBits(0) == 0 && BitsRd(0) == 0 && BitsRt(0) == 0 && BitsShamt(0) == 0
  {}

  lemma NotInBoth(op: Op)
    ensures FormatOf(op).NoFormat? ==> !InBothTables(op)
  {}

  /** The disassembler recovers the operation and every operand in range, up to the swap of branch registers. */
  lemma OperandsRecovered(op: Op, x: bv32, y: bv32, z: bv32)
    requires InBothTables(op) && InRange(FormatOf(op), x, y, z) && !(op.Sll? && x == y == z == 0)
    ensures Decode(Encode(op, x, y, z)) == Swapped(op, (x, y, z))
  {
    hide Decode, Encode, FormatOf, Kept;
    DecodeEncode(op, x, y, z);
    if Encode(op, x, y, z) == 0 {
      ZeroIsSll(op, x, y, z);
    }
  }

  /** Two different lines never share a word. */
  lemma WordsDistinct(op: Op, x: bv32, y: bv32, z: bv32, op': Op, x': bv32, y': bv32, z': bv32)
    requires InBothTables(op) && InRange(FormatOf(op), x, y, z)
    requires InBothTables(op') && InRange(FormatOf(op'), x', y', z')
    requires Encode(op, x, y, z) == Encode(op', x', y', z')
    ensures op == op' && x == x' && y == y' && z == z'
  {
    hide Decode, Encode, FormatOf, Kept, InBothTables, Swapped;
    if Encode(op, x, y, z) == 0 {
      ZeroIsSll(op, x, y, z);
      ZeroIsSll(op', x', y', z');
    } else {
      DecodeEncode(op, x, y, z);
      DecodeEncode(op', x', y', z');
      SwappedInjective(op, (x, y, z), op', (x', y', z'));
    }
  }

  lemma SwappedInjective(op: Op, v: (bv32, bv32, bv32), op': Op, v': (bv32, bv32, bv32))
    requires Swapped(op, v) == Swapped(op', v')
    ensures op == op' && v == v'
  {}
}
