/**
 The parts put together: source text to program, and what becomes of the meaning of a source on
 the way to machine words and back to a listing.
 */
module Toolchain {
  import opened Words
  import opened Source
  import opened Layout
  import opened Isa
  import opened Scanner
  import opened Addresses
  import opened Encoding
  import opened Simulation
  import Assembler
  import HiLo
  import Lexer
  import Program
  import Reassembly

  /** The lines of a text, when nothing stops the lexer. */
  function LinesOf(src: string): Result<seq<SourceLine>> { LexLines(src, Cursor(0, 1), TextSegment) }

  /** What the assembler program makes of a source: nothing after a fault or an error, otherwise a program. */
  datatype Compiled = Stopped(fault: Fault) | InError | Assembled(program: Program.Program)

  /** Some line of the text is in error. */
  predicate AnyError(text: seq<TextInfo>) { exists i :: 0 <= i < |text| && text[i].error }

  method HasError(source: SourceInfo) returns (found: bool)
    ensures found <==> AnyError(source.text)
  {
    found := false;
    var idx := 0;
    while idx < |source.text|
      invariant idx <= |source.text| && forall i :: 0 <= i < idx ==> !source.text[i].error
    {
      if source.text[idx].error {
        return true;
      }
      idx := idx + 1;
    }
  }

  /** Lexes a source with a fresh lexer, stops if a line is in error, and assembles it otherwise. */
  method Compile(src: string) returns (c: Compiled)
    ensures match LinesOf(src)
      case Failure(f) => c == Stopped(f)
      case Success(lines) =>
        var text := Text(lines);
        (AnyError(text) ==> c.InError?) &&
        (!AnyError(text) ==>
          c.Assembled? && c.program.instructions == Assembler.AssembledAll(text) &&
          c.program.dataSegments == if text == [] then [] else Assembler.Segments(Image(lines).data))
  {
    hide LexLines, PlaceAll, Resolve, Assembler.SegmentOf, Assembler.Assembled, AnyError;
    var lexer := new Lexer.Lexer();
    lexer.LoadSource(src);
    ghost var g := FRESH.(syms := lexer.symTable.syms, mode := lexer.curMode);
    assert g == FRESH;
    var o := lexer.Lex();
    if o.Fail? {
      return Stopped(o.fault);
    }
    var error := HasError(lexer.source);
    if error {
      return InError;
    }
    var assembler := new Assembler.Assembler(lexer.source);
    assembler.Assemble();
    c := Assembled(assembler.program);
  }

  // ---- Which sources have words the disassembler knows ----

  // The operations of an expansion.
  lemma ExpandOps(t: TextInfo, j: nat)
    requires j < |Expand(t)|
    ensures var op := Expand(t)[j].op;
      op.Mult? || op.Mflo? || op.Slt? || op.Sltu? || op.Beq? || op.Bne? || op.Lui? || op.Ori?
  {
    hide Bump, Upper, Lower16;
  }

  lemma ExpansionKnown(op: Op)
    requires op.Mult? || op.Mflo? || op.Slt? || op.Sltu? || op.Beq? || op.Bne? || op.Lui? || op.Ori?
    ensures InBothTables(op)
  {}

  lemma SupportedKnown(op: Op)
    requires IsPlain(op) || op.Beq? || op.Bne? || op.J? || op.Jal? || op.Jr?
    ensures InBothTables(op) <==> !op.Xor?
  {}

  lemma SupportedOps(lines: seq<SourceLine>, k: nat)
    requires WellFormed(lines) && k < |lines| && lines[k].body.InstrBody?
    ensures var t := lines[k].body.ti;
      Supported(lines, k, t) && t.pseudo == IsPseudo(t.op) &&
      (!IsPseudo(t.op) ==> IsPlain(t.op) || t.op.Beq? || t.op.Bne? || t.op.J? || t.op.Jal? || t.op.Jr?)
  {}

  /** Every entry of the text was emitted for a line. */
  lemma {:induction false} EntryOfLine(lines: seq<SourceLine>, n: nat, i: nat) returns (k: nat)
    requires Regular(lines) && n <= |lines| && i < |Prefix(lines, n).text|
    ensures k < n && EmittedFor(lines, k, Prefix(lines, n).text[i])
    decreases n
  {
    hide Place, EmitCount, Bump, EmittedFor, Regular;
    assert n > 0;
    if i < |Prefix(lines, n - 1).text| {
      PrefixGrows(lines, n - 1, n);
      k := EntryOfLine(lines, n - 1, i);
    } else {
      k := n - 1;
      LastEntry(lines, k, i);
    }
  }

  predicate EmittedFor(lines: seq<SourceLine>, k: nat, l: TextInfo)
    requires k < |lines|
  {
    if lines[k].body.InstrBody? then l in Emit(lines[k].body.ti, AddrAt(lines, k))
    else lines[k].body.BareBody? && l.op.OpNull?
  }

  lemma LastEntry(lines: seq<SourceLine>, k: nat, i: nat)
    requires Regular(lines) && k < |lines| && |Prefix(lines, k).text| <= i < |Prefix(lines, k + 1).text|
    ensures EmittedFor(lines, k, Prefix(lines, k + 1).text[i])
  {
    hide Place, Emit, EmitCount, Bump, Prefix;
    PrefixStep(lines, k);
    PlaceText(Prefix(lines, k), lines[k]);
    assert RegularBody(lines[k].body);
  }

  /**
   No xor, which the disassembler does not know; no sll whose word is the no-op; and code below the reach of the
   jump fields.
   */
  predicate Encodable(lines: seq<SourceLine>) {
    TEXT_START_ADDR + 4 * InstrCount(lines) < 0x0400_0000 &&
    forall k :: 0 <= k < |lines| && lines[k].body.InstrBody? ==> EncodableLine(lines[k].body.ti)
  }

  predicate EncodableLine(t: TextInfo) { !t.op.Xor? && (t.op.Sll? ==> EncodeLine(t) != 0) }

  lemma NotZero(l: TextInfo)
    requires InBothTables(l.op) && !l.op.Sll?
    ensures EncodeLine(l) != 0
  {
    hide Word, Encode, InBothTables;
    if EncodeLine(l) == 0 {
      ZeroIsSll(l.op, Word(l.a0.val), Word(l.a1.val), Word(l.a2.val));
    }
  }

  lemma AddressFree(l: TextInfo, a: int)
    ensures EncodeLine(l.(addr := a)) == EncodeLine(l)
  {}

  // Code addresses fit the fields of a jump.
  lemma TargetFits(a: int)
    requires 0 <= a < 0x0400_0000 && a % 4 == 0
    ensures Word(ToInt(a)) & 0xF400_0003 == 0
  {
    hide Word;
    HiLo.WordsEqual(ToInt(a), a);
    SmallByte(a / 0x100 / 0x100 / 0x100);
    AlignedByte(a % 0x100);
    EndBytes(a);
    BytesClear(Word(a));
  }

  lemma EndBytes(a: int)
    ensures Byte3(Word(a)) == ByteOf(a / 0x100 / 0x100 / 0x100 % 0x100) && Byte0(Word(a)) == ByteOf(a % 0x100)
  {
    hide ByteOf, Byte3, Byte0;
  }

  lemma SmallByte(n: nat)
    requires n < 4
    ensures ByteOf(n % 0x100) & 0xF4 == 0
  {
    hide ByteVal, ByteOf;
    ByteRoundTrip(n);
    ByteIsInt(4);
    ByteOrder(ByteOf(n), 4);
  }

  lemma AlignedByte(n: nat)
    requires n < 0x100 && n % 4 == 0
    ensures ByteOf(n) & 3 == 0
  {
    hide ByteVal, ByteOf;
    ByteRoundTrip(n);
    ByteIsInt(ByteOf(n));
    Aligned(ByteOf(n));
  }

  lemma Aligned(b: bv8)
    ensures (b as int) % 4 == 0 ==> b & 3 == 0
  {}

  lemma BytesClear(w: bv32)
    requires Byte3(w) & 0xF4 == 0 && Byte0(w) & 3 == 0
    ensures w & 0xF400_0003 == 0
  {}

  lemma JumpKept(lines: seq<SourceLine>, t: TextInfo, l: TextInfo)
    requires FitsMemory(lines) && Encodable(lines) && TextTarget(lines, t) && (l.op.J? || l.op.Jal?) &&
      l.isSymbol && l.symbolName == t.symbolName
    ensures Reassembly.TargetKept(Resolve(l, Image(lines).syms))
  {
    hide AddrOfSymbol, AddrAt, Image, Word, ToInt, InstrCount;
    TargetAddr(lines, t);
    var k := Target(lines, t);
    ExactAddr(lines, k);
    InstrCountGrows(lines, k);
    TargetFits(AddrAt(lines, k));
    assert Resolve(l, Image(lines).syms) == Patch(l, AddrAt(lines, k));
  }

  lemma EntryFaithful(lines: seq<SourceLine>, k: nat, l: TextInfo)
    requires WellFormed(lines) && Encodable(lines) && k < |lines| && EmittedFor(lines, k, l)
    ensures Reassembly.Faithful(Resolve(l, Image(lines).syms))
  {
    hide WellFormed, AddrAt, Image, Resolve, Expand, InBothTables, EncodeLine, IsPseudo, IsPlain, InstrCount;
    var syms := Image(lines).syms;
    var r := Resolve(l, syms);
    ResolveKeeps(l, syms);
    if lines[k].body.InstrBody? {
      var t, a := lines[k].body.ti, AddrAt(lines, k);
      SupportedOps(lines, k);
      if t.pseudo {
        var j :| 0 <= j < |Expand(t.(addr := a))| && Expand(t.(addr := a))[j] == l;
        ExpandOps(t.(addr := a), j);
        ExpansionKnown(l.op);
        NotZero(r);
      } else {
        assert EncodableLine(t);
        SupportedKnown(t.op);
        LineFaithful(lines, k);
      }
    }
  }

  lemma LineFaithful(lines: seq<SourceLine>, k: nat)
    requires WellFormed(lines) && Encodable(lines) && k < |lines| && lines[k].body.InstrBody? &&
      InBothTables(lines[k].body.ti.op)
    requires Supported(lines, k, lines[k].body.ti)
    ensures var t := lines[k].body.ti; Reassembly.Faithful(Resolve(t.(addr := AddrAt(lines, k)), Image(lines).syms))
  {
    hide AddrAt, Image, Resolve, InBothTables, EncodeLine, AvoidsAt, Near, TextTarget, FitsMemory;
    var t, syms := lines[k].body.ti, Image(lines).syms;
    var l := t.(addr := AddrAt(lines, k));
    assert EncodableLine(t);
    ResolveKeeps(l, syms);
    if t.op.Sll? {
      Unresolved(l, syms);
      AddressFree(t, AddrAt(lines, k));
    } else {
      NotZero(Resolve(l, syms));
      if t.op.J? || t.op.Jal? {
        IsSymbolTarget(lines, t);
        JumpKept(lines, t, l);
      }
    }
  }

  lemma TextFaithful(lines: seq<SourceLine>, i: nat)
    requires WellFormed(lines) && Encodable(lines) && i < |Text(lines)|
    ensures Reassembly.Faithful(Text(lines)[i])
  {
    hide Encodable, EmittedFor, Resolve, PlaceAll;
    assert lines[..|lines|] == lines;
    var k := EntryOfLine(lines, |lines|, i);
    EntryFaithful(lines, k, Image(lines).text[i]);
  }

  /**
   From source to words and back: every run of a well-formed source is matched by the run of the
   listing disassembled from the words it is assembled to.
   */
  lemma CompiledRuns(lines: seq<SourceLine>, core: Core, n: nat)
    requires WellFormed(lines) && Encodable(lines) && SourceRun(lines, SourceState(core, 0), n).Some?
    ensures var s := SourceState(core, 0);
      var r := Run(Reassembly.Listed(Text(lines)), Machine(core, TEXT_START_ADDR), Cost(lines, s, n));
      r.Some? && Related(lines, SourceRun(lines, s, n).value, r.value)
  {
    hide WellFormed, Encodable, SourceRun, Run, Cost, Text, Related, Reassembly.Faithful, Reassembly.Listed;
    SimulationFromStart(lines, core, n);
    forall i | 0 <= i < |Text(lines)|
      ensures Reassembly.Faithful(Text(lines)[i])
    {
      TextFaithful(lines, i);
    }
    Reassembly.DisassemblyRuns(Text(lines), Machine(core, TEXT_START_ADDR), Cost(lines, SourceState(core, 0), n));
  }
}
