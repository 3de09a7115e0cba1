/**
 The disassembler: one word to one text line, and a program to a source info.
 */
module Disassembler {
  import opened Words
  import opened Source
  import opened Encoding
  import Program

  function Literal(bits: bv32): Argument { Arg(SymLiteral, Val(bits)) }

  function Register(bits: bv32): Argument { Arg(SymRegister, Val(bits)) }

  function DisImm(w: bv32, addr: int): TextInfo {
    var d := DecodeImm(w);
    BLANK_TEXT.(addr := addr, isImm := true, op := d.op, a0 := Register(d.x), a1 := Register(d.y), a2 := Literal(d.z))
  }

  function DisReg(w: bv32, addr: int): TextInfo {
    var d, func := DecodeReg(w), FuncBits(w);
    var ti := BLANK_TEXT.(addr := addr, op := d.op, a0 := Register(d.x));
    if func == 0 || func == 2 then ti.(a1 := Register(d.y), a2 := Literal(d.z))
    else if 24 <= func <= 27 then ti.(a1 := Register(d.y))
    else if 16 <= func <= 19 then ti
    else ti.(a1 := Register(d.y), a2 := Register(d.z))
  }

  function DisJump(w: bv32, addr: int): TextInfo {
    var d := DecodeJump(w);
    BLANK_TEXT.(addr := addr, op := d.op, a0 := Literal(d.x), isImm := true)
  }

  /** The text line of a word; the zero word is the no-op. */
  function DisInstr(w: bv32, addr: int): TextInfo {
    if w == 0 then BLANK_TEXT.(addr := addr)
    else if OpBits(w) == 2 || OpBits(w) == 3 then DisJump(w, addr)
    else if OpBits(w) == 0 then DisReg(w, addr)
    else DisImm(w, addr)
  }

  function DisLines(p: seq<Program.Instr>): (text: seq<TextInfo>)
    ensures |text| == |p| && forall i :: 0 <= i < |p| ==> text[i] == DisInstr(p[i].ins, p[i].adr)
  {
    seq(|p|, i requires 0 <= i < |p| => DisInstr(p[i].ins, p[i].adr))
  }

  // One format at a time.
  lemma DisImmDecodes(w: bv32, addr: int)
    ensures var t, d := DisImm(w, addr), DecodeImm(w);
      t.addr == addr && t.op == d.op && t.a0.val == Val(d.x) && t.a1.val == Val(d.y) && t.a2.val == Val(d.z)
  {}

  lemma DisJumpDecodes(w: bv32, addr: int)
    ensures var t, d := DisJump(w, addr), DecodeJump(w);
      t.addr == addr && t.op == d.op && t.a0.val == Val(d.x) && t.a1.val == 0 && t.a2.val == 0 && d.y == 0 && d.z == 0
  {}

  lemma DecodeRegUnused(w: bv32)
    ensures var d, func := DecodeReg(w), FuncBits(w);
      (24 <= func <= 27 ==> d.z == 0) && (16 <= func <= 19 ==> d.y == 0 && d.z == 0)
  {}

  lemma DisRegDecodes(w: bv32, addr: int)
    ensures var t, d := DisReg(w, addr), DecodeReg(w);
      t.addr == addr && t.op == d.op && t.a0.val == Val(d.x) && t.a1.val == Val(d.y) && t.a2.val == Val(d.z)
  {
    hide Val, DecodeReg, FuncBits;
    DecodeRegUnused(w);
    ValZero();
  }

  lemma DisInstrReads(w: bv32, addr: int)
    ensures var t, d := DisInstr(w, addr), Decode(w);
      t.addr == addr && t.op == d.op && t.a0.val == Val(d.x) && t.a1.val == Val(d.y) && t.a2.val == Val(d.z)
  {
    hide Val, DecodeImm, DecodeReg, DecodeJump, OpBits, DisImm, DisReg, DisJump;
    ValZero();
    DisImmDecodes(w, addr);
    DisRegDecodes(w, addr);
    DisJumpDecodes(w, addr);
  }

  /** The operands of a disassembled line are those the decoder reads, as numbers. */
  lemma DisInstrDecodes(w: bv32, addr: int)
    ensures var t, d := DisInstr(w, addr), Decode(w);
      t.addr == addr && t.op == d.op &&
      Word(t.a0.val) == d.x && Word(t.a1.val) == d.y && Word(t.a2.val) == d.z
  {
    hide Val, Word, Decode, DisInstr;
    DisInstrReads(w, addr);
    WordOfVal(Decode(w).x);
    WordOfVal(Decode(w).y);
    WordOfVal(Decode(w).z);
  }

  method DisProgram(program: Program.Program) returns (source: SourceInfo)
    ensures fresh(source) && source.text == DisLines(program.instructions) && source.data == []
  {
    hide DisInstr;
    source := new SourceInfo();
    var idx := 0;
    while idx < |program.instructions|
      invariant idx <= |program.instructions| && fresh(source) && source.data == []
      invariant source.text == DisLines(program.instructions[..idx])
    {
      var curInstr := program.GetInstr(idx);
      var curLine := DisInstr(curInstr.ins, curInstr.adr);
      source.AddText(curLine);
      idx := idx + 1;
    }
    assert program.instructions[..idx] == program.instructions;
  }
}
