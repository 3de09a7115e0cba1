/**
 The assembler object: it ORs the fields of each text line into a word, lays out the data
 segments, and appends both to its program.
 */
module Assembler {
  import opened Words
  import opened Source
  import opened Encoding
  import Program

  // ---- What the methods compute ----

  function Assembled(l: TextInfo): Program.Instr { Program.Instr(l.addr, EncodeLine(l)) }

  function AssembledAll(text: seq<TextInfo>): (p: seq<Program.Instr>)
    ensures |p| == |text| && forall i :: 0 <= i < |text| ==> p[i] == Assembled(text[i])
  {
    seq(|text|, i requires 0 <= i < |text| => Assembled(text[i]))
  }

  /** The segment of a data line: its bytes, then its reserved space as zeros. */
  function SegmentOf(d: DataInfo): Program.DataSeg {
    match d.directive
    case DirNone | DirHalf => Program.DataSeg(0, [])
    case DirSpace => Program.DataSeg(d.addr, Zeros(d.space))
    case _ => Program.DataSeg(d.addr, d.data + Zeros(d.space))
  }

  function Zeros(n: nat): (z: seq<bv8>)
    ensures |z| == n && forall i :: 0 <= i < n ==> z[i] == 0
  {
    if n == 0 then [] else Zeros(n - 1) + [0]
  }

  function Segments(data: seq<DataInfo>): (s: seq<Program.DataSeg>)
    ensures |s| == |data| && forall i :: 0 <= i < |data| ==> s[i] == SegmentOf(data[i])
  {
    seq(|data|, i requires 0 <= i < |data| => SegmentOf(data[i]))
  }

  // The bit positions of the three arguments, in argument order.
  function RegOffset(i: nat): bv6
    requires i < 3
    ensures RegOffset(i) <= 32
  {
    if i == 0 then 11 else if i == 1 then 21 else 16
  }

  function ImmOffset(i: nat): bv6
    requires i < 3
    ensures ImmOffset(i) <= 32
  {
    if i == 0 then 16 else if i == 1 then 21 else 0
  }

  /** A word with the low five bits of an operand ORed in at a bit position. */
  function Field(w: bv32, v: bv32, at: bv6): bv32
    requires at <= 32
  {
    w | ((v & 0x1F) << at)
  }

  /** The same for a sixteen-bit immediate, at the bottom of the word. */
  function ImmField(w: bv32, v: bv32): bv32 { w | (v & 0xFFFF) }

  /** The same for a jump target, without its two low bits. */
  function TargetField(w: bv32, v: bv32): bv32 { w | ((v & 0x0FFF_FFFC) >> 2) }

  // The word after the first `n` arguments of the loops over operand fields.
  function RegPartial(l: TextInfo, n: nat, shift: nat): bv32
    requires n + shift <= 3
  {
    if n == 0 then CodeOf(l.op)
    else Field(RegPartial(l, n - 1, shift), Word(l.ArgAt(n - 1).val), RegOffset(n - 1 + shift))
  }

  function ImmPartial(l: TextInfo, n: nat): bv32
    requires n <= 3
  {
    if n == 0 then CodeOf(l.op) << 26
    else if n == 3 then ImmField(ImmPartial(l, 2), Word(l.a2.val))
    else Field(ImmPartial(l, n - 1), Word(l.ArgAt(n - 1).val), ImmOffset(n - 1))
  }

  // Fields at fixed positions, over plain words.
  lemma FieldsAreR(code: bv32, x: bv32, y: bv32, z: bv32)
    ensures Field(Field(Field(code, x, 11), y, 21), z, 16) == EncodeAs(FormatR, code, x, y, z)
  {}

  lemma FieldsAreRsRt(code: bv32, x: bv32, y: bv32, z: bv32)
    ensures Field(Field(code, x, 21), y, 16) == EncodeAs(FormatRsRt, code, x, y, z)
  {}

  lemma FieldsAreShamt(code: bv32, x: bv32, y: bv32, z: bv32)
    ensures Field(Field(Field(code, x, 11), y, 16), z, 6) | code == EncodeAs(FormatShamt, code, x, y, z)
  {}

  lemma FieldIsRd(code: bv32, x: bv32, y: bv32, z: bv32)
    ensures Field(code, x, 11) == EncodeAs(FormatRd, code, x, y, z)
  {}

  lemma FieldIsRs(code: bv32, x: bv32, y: bv32, z: bv32)
    ensures Field(code, x, 21) == EncodeAs(FormatRs, code, x, y, z)
  {}

  lemma FieldsAreI(code: bv32, x: bv32, y: bv32, z: bv32)
    ensures Field(Field(code << 26, x, 16), y, 21) | (z & 0xFFFF) == EncodeAs(FormatI, code, x, y, z)
  {}

  lemma FieldsAreIRt(code: bv32, x: bv32, y: bv32, z: bv32)
    ensures ImmField(Field(code << 26, x, 16), z) == EncodeAs(FormatIRt, code, x, y, z)
  {}

  lemma TargetIsJ(code: bv32, x: bv32, y: bv32, z: bv32)
    ensures TargetField(code << 26, x) == EncodeAs(FormatJ, code, x, y, z)
  {}

  lemma RegWhole(l: TextInfo)
    ensures RegPartial(l, 3, 0) ==
      Field(Field(Field(CodeOf(l.op), Word(l.a0.val), 11), Word(l.a1.val), 21), Word(l.a2.val), 16)
    ensures RegPartial(l, 2, 1) == Field(Field(CodeOf(l.op), Word(l.a0.val), 21), Word(l.a1.val), 16)
  {
    hide CodeOf, Word, Field, ImmField;
    assert RegPartial(l, 1, 0) == Field(CodeOf(l.op), Word(l.a0.val), 11);
    assert RegPartial(l, 2, 0) == Field(RegPartial(l, 1, 0), Word(l.a1.val), 21);
    assert RegPartial(l, 1, 1) == Field(CodeOf(l.op), Word(l.a0.val), 21);
  }

  lemma ImmWhole(l: TextInfo)
    ensures ImmPartial(l, 2) == Field(Field(CodeOf(l.op) << 26, Word(l.a0.val), 16), Word(l.a1.val), 21)
  {
    hide CodeOf, Word, Field, ImmField;
    assert ImmPartial(l, 1) == Field(ImmPartial(l, 0), Word(l.a0.val), 16);
  }

  lemma ImmIsI(l: TextInfo)
    ensures ImmPartial(l, 3) == EncodeAs(FormatI, CodeOf(l.op), Word(l.a0.val), Word(l.a1.val), Word(l.a2.val))
  {
    hide CodeOf, Word, Field, EncodeAs;
    ImmWhole(l);
    FieldsAreI(CodeOf(l.op), Word(l.a0.val), Word(l.a1.val), Word(l.a2.val));
  }

  /** The word of a text line, by its format. */
  lemma WordIs(l: TextInfo)
    ensures EncodeLine(l) == EncodeAs(FormatOf(l.op), CodeOf(l.op), Word(l.a0.val), Word(l.a1.val), Word(l.a2.val))
  {}

  lemma NoFormatWord(l: TextInfo)
    requires FormatOf(l.op).NoFormat?
    ensures EncodeLine(l) == 0
  {}

  class Assembler {
    const source: SourceInfo
    const program: Program.Program

    constructor (s: SourceInfo)
      ensures source == s && fresh(program)
      ensures program.instructions == [] && program.dataSegments == []
    {
      source := s;
      program := new Program.Program();
    }

    // ---- One format at a time ----

    method AsmR(l: TextInfo, n: nat) returns (instr: Program.Instr)
      requires n <= 3
      ensures instr == Program.Instr(0, RegPartial(l, n, 0))
    {
      hide CodeOf, Word, Field, ImmField;
      var ins := CodeOf(l.op);
      for i := 0 to n
        invariant ins == RegPartial(l, i, 0)
      {
        ins := Field(ins, Word(l.ArgAt(i).val), RegOffset(i));
      }
      instr := Program.Instr(0, ins);
    }

    method AsmRsRt(l: TextInfo) returns (instr: Program.Instr)
      ensures instr == Program.Instr(0, RegPartial(l, 2, 1))
    {
      hide CodeOf, Word, Field, ImmField;
      var ins := CodeOf(l.op);
      for i := 0 to 2
        invariant ins == RegPartial(l, i, 1)
      {
        ins := Field(ins, Word(l.ArgAt(i).val), RegOffset(i + 1));
      }
      instr := Program.Instr(0, ins);
    }

    method AsmRd(l: TextInfo) returns (instr: Program.Instr)
      ensures instr == Program.Instr(0, Field(CodeOf(l.op), Word(l.a0.val), 11))
    {
      hide CodeOf, Word, Field, ImmField;
      var ins := CodeOf(l.op);
      ins := Field(ins, Word(l.a0.val), RegOffset(0));
      instr := Program.Instr(0, ins);
    }

    method AsmRs(l: TextInfo) returns (instr: Program.Instr)
      ensures instr == Program.Instr(0, Field(CodeOf(l.op), Word(l.a0.val), 21))
    {
      hide CodeOf, Word, Field, ImmField;
      var ins := CodeOf(l.op);
      ins := Field(ins, Word(l.a0.val), RegOffset(1));
      instr := Program.Instr(0, ins);
    }

    // The code is ORed in twice.
    method AsmShamt(l: TextInfo) returns (instr: Program.Instr)
      ensures instr ==
        Program.Instr(0, EncodeAs(FormatShamt, CodeOf(l.op), Word(l.a0.val), Word(l.a1.val), Word(l.a2.val)))
    {
      hide CodeOf, Word, Field, ImmField, TargetField, EncodeAs;
      var ins := CodeOf(l.op);
      ins := Field(ins, Word(l.a0.val), RegOffset(0));
      ins := Field(ins, Word(l.a1.val), RegOffset(2));
      ins := Field(ins, Word(l.a2.val), 6);
      ins := ins | CodeOf(l.op);
      FieldsAreShamt(CodeOf(l.op), Word(l.a0.val), Word(l.a1.val), Word(l.a2.val));
      instr := Program.Instr(0, ins);
    }

    method AsmI(l: TextInfo, n: nat) returns (instr: Program.Instr)
      requires n <= 3
      ensures instr == Program.Instr(0, ImmPartial(l, n))
    {
      hide CodeOf, Word, Field, ImmField;
      var ins := CodeOf(l.op) << 26;
      for i := 0 to n
        invariant ins == ImmPartial(l, i)
      {
        if i == 2 {
          ins := ImmField(ins, Word(l.ArgAt(i).val));
        } else {
          ins := Field(ins, Word(l.ArgAt(i).val), ImmOffset(i));
        }
      }
      instr := Program.Instr(0, ins);
    }

    method AsmIRt(l: TextInfo) returns (instr: Program.Instr)
      ensures instr ==
        Program.Instr(0, EncodeAs(FormatIRt, CodeOf(l.op), Word(l.a0.val), Word(l.a1.val), Word(l.a2.val)))
    {
      hide CodeOf, Word, Field, ImmField, TargetField, EncodeAs;
      var ins := CodeOf(l.op) << 26;
      ins := Field(ins, Word(l.a0.val), ImmOffset(0));
      ins := ImmField(ins, Word(l.a2.val));
      FieldsAreIRt(CodeOf(l.op), Word(l.a0.val), Word(l.a1.val), Word(l.a2.val));
      instr := Program.Instr(0, ins);
    }

    method AsmJ(l: TextInfo) returns (instr: Program.Instr)
      ensures instr == Program.Instr(0, EncodeAs(FormatJ, CodeOf(l.op), Word(l.a0.val), Word(l.a1.val), Word(l.a2.val)))
    {
      hide CodeOf, Word, TargetField, EncodeAs;
      var ins := CodeOf(l.op) << 26;
      ins := TargetField(ins, Word(l.a0.val));
      TargetIsJ(CodeOf(l.op), Word(l.a0.val), Word(l.a1.val), Word(l.a2.val));
      instr := Program.Instr(0, ins);
    }

    /** The word of one text line, at the address of the line. */
    method AssembleText(line: TextInfo) returns (instr: Program.Instr)
      ensures instr == Assembled(line)
    {
      hide CodeOf, Word, RegPartial, ImmPartial, Field, EncodeAs, FormatOf, EncodeLine;
      WordIs(line);
      ghost var c, x, y, z := CodeOf(line.op), Word(line.a0.val), Word(line.a1.val), Word(line.a2.val);
      match FormatOf(line.op) {
        case FormatR =>
          instr := AsmR(line, 3);
          RegWhole(line);
          FieldsAreR(c, x, y, z);
        case FormatShamt =>
          instr := AsmShamt(line);
        case FormatRsRt =>
          instr := AsmRsRt(line);
          RegWhole(line);
          FieldsAreRsRt(c, x, y, z);
        case FormatRd =>
          instr := AsmRd(line);
          FieldIsRd(c, x, y, z);
        case FormatRs =>
          instr := AsmRs(line);
          FieldIsRs(c, x, y, z);
        case FormatI =>
          instr := AsmI(line, 3);
          ImmIsI(line);
        case FormatIRt =>
          instr := AsmIRt(line);
        case FormatJ =>
          instr := AsmJ(line);
        case NoFormat =>
          NoFormatWord(line);
          return Program.Instr(line.addr, 0);
      }
      instr := instr.(adr := line.addr);
    }

    // ---- Data ----

    method AssembleData(d: DataInfo) returns (seg: Program.DataSeg)
      ensures seg == SegmentOf(d)
    {
      seg := Program.DataSeg(0, []);
      if d.directive.DirNone? || d.directive.DirHalf? {
        return;
      }
      if !d.directive.DirSpace? {
        seg := Program.DataSeg(d.addr, d.data);
      }
      seg := seg.(adr := d.addr);
      var i := 0;
      ghost var bytes := seg.data;
      assert bytes + Zeros(0) == bytes;
      while i < d.space
        invariant i <= d.space && seg == Program.DataSeg(d.addr, bytes + Zeros(i))
      {
        assert bytes + Zeros(i) + [0] == bytes + Zeros(i + 1);
        seg := seg.(data := seg.data + [0]);
        i := i + 1;
      }
      assert d.directive.DirSpace? ==> [] + Zeros(d.space) == Zeros(d.space);
    }

    // ---- The whole source ----

    /** A source without text lines leaves the program as it was, data and all. */
    method Assemble()
      modifies program
      ensures if source.text == [] then unchanged(program)
        else program.instructions == AssembledAll(source.text) && program.dataSegments == Segments(source.data)
    {
      hide Assembled, SegmentOf;
      if |source.text| == 0 {
        return;
      }
      program.Init();
      var i := 0;
      while i < |source.data|
        invariant i <= |source.data| && program.instructions == []
        invariant program.dataSegments == Segments(source.data[..i])
      {
        var curData := source.GetData(i);
        var curSeg := AssembleData(curData);
        program.AddData(curSeg);
        i := i + 1;
      }
      assert source.data[..i] == source.data;
      i := 0;
      while i < |source.text|
        invariant i <= |source.text| && program.dataSegments == Segments(source.data)
        invariant program.instructions == AssembledAll(source.text[..i])
      {
        var curLine := source.GetText(i);
        var curInstr := AssembleText(curLine);
        program.Add(curInstr);
        i := i + 1;
      }
      assert source.text[..i] == source.text;
    }
  }
}
