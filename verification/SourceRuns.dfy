/**
 Source programs on the emulator: straight-line sources, expanded, resolved, assembled, turned into
 bytes, loaded and run, leave the registers that running their lines does.
 */
module SourceRuns {
  import opened Words
  import opened Source
  import opened Layout
  import opened Isa
  import opened Addresses
  import opened Simulation
  import opened Cpu
  import opened EndToEnd
  import Assembler
  import Program
  import Toolchain

  // ---- The sources ----

  /** la or li into any register but $zero, or an instruction the emulator runs as the instruction set does. */
  predicate StraightInstr(t: TextInfo) {
    if t.op.La? || t.op.Li? then Ix(t.a0) != REG_ZERO else Straight(t) && SignFree(t)
  }

  /** Labels stand on lines with something else, as a standalone one adds an entry to the text. */
  predicate StraightBody(body: Body) { !body.BareBody? && (body.InstrBody? ==> StraightInstr(body.ti)) }

  predicate StraightSource(lines: seq<SourceLine>) { forall k :: 0 <= k < |lines| ==> StraightBody(lines[k].body) }

  // ---- Their text ----

  lemma HalvesStraight(t: TextInfo, j: nat)
    requires (t.op.La? || t.op.Li?) && Ix(t.a0) != REG_ZERO && j < |Expand(t)|
    ensures var l := Expand(t)[j]; Straight(l) && SignFree(l) && (l.op.Lui? || l.op.Ori?)
  {
    hide Ix, Upper, Lower16, Bump;
  }

  lemma ResolvedStraight(l: TextInfo, syms: seq<Symbol>)
    requires Straight(l) && SignFree(l) && (l.op.Lui? || l.op.Ori? || !l.isSymbol)
    ensures Straight(Resolve(l, syms)) && SignFree(Resolve(l, syms))
  {
    hide Ix, Upper, Lower16, Bump, AddrOfSymbol, Word;
  }

  lemma PlainStraight(t: TextInfo)
    requires StraightInstr(t) && !t.op.La? && !t.op.Li?
    ensures IsPlain(t.op) && !IsPseudo(t.op)
  {}

  lemma EmittedStraight(lines: seq<SourceLine>, k: nat, l: TextInfo)
    requires WellFormed(lines) && StraightSource(lines) && k < |lines| && Toolchain.EmittedFor(lines, k, l)
    requires lines[k].body.InstrBody?
    ensures var r := Resolve(l, Image(lines).syms); Straight(r) && SignFree(r)
  {
    hide WellFormed, AddrAt, Image, Resolve, Expand, IsPseudo, IsPlain, Straight, SignFree, Ix;
    var t, a := lines[k].body.ti, AddrAt(lines, k);
    assert StraightBody(lines[k].body);
    Toolchain.SupportedOps(lines, k);
    if t.op.La? || t.op.Li? {
      PseudoLoads(t.op);
      var j :| 0 <= j < |Expand(t.(addr := a))| && Expand(t.(addr := a))[j] == l;
      HalvesStraight(t.(addr := a), j);
    } else {
      PlainStraight(t);
      PlainSupported(lines, k);
      Readdressed(t, a);
    }
    ResolvedStraight(l, Image(lines).syms);
  }

  lemma PseudoLoads(op: Op)
    requires op.La? || op.Li?
    ensures IsPseudo(op)
  {}

  lemma Readdressed(t: TextInfo, a: int)
    ensures Straight(t.(addr := a)) == Straight(t) && SignFree(t.(addr := a)) == SignFree(t)
  {}

  /** The text of the first `k` lines: instructions only, one after the other from the text base on. */
  lemma {:induction false} TextLaid(lines: seq<SourceLine>, k: nat)
    requires Regular(lines) && FitsMemory(lines) && StraightSource(lines) && k <= |lines|
    ensures var text := Prefix(lines, k).text;
      |text| == InstrCount(lines[..k]) && Laid(text, TEXT_START_ADDR) &&
      forall i :: 0 <= i < |text| ==> !text[i].op.OpNull?
    decreases k
  {
    hide Prefix, InstrCount, Regular, FitsMemory, StraightSource, Laid;
    if k > 0 {
      TextLaid(lines, k - 1);
      LineAdded(lines, k - 1);
    } else {
      NoText(lines);
    }
  }

  lemma NoText(lines: seq<SourceLine>)
    ensures Prefix(lines, 0).text == [] && InstrCount(lines[..0]) == 0 && Laid([], TEXT_START_ADDR)
  {
    assert lines[..0] == [];
  }

  lemma LineAdded(lines: seq<SourceLine>, k: nat)
    requires Regular(lines) && FitsMemory(lines) && StraightSource(lines) && k < |lines|
    requires var text := Prefix(lines, k).text;
      |text| == InstrCount(lines[..k]) && Laid(text, TEXT_START_ADDR) &&
      forall i :: 0 <= i < |text| ==> !text[i].op.OpNull?
    ensures var text := Prefix(lines, k + 1).text;
      |text| == InstrCount(lines[..k + 1]) && Laid(text, TEXT_START_ADDR) &&
      forall i :: 0 <= i < |text| ==> !text[i].op.OpNull?
  {
    hide Prefix, Place, Emit, EmitCount, InstrCount, FitsMemory, Regular, StraightInstr, Bump, Laid;
    var g, line := Prefix(lines, k), lines[k];
    PrefixStep(lines, k);
    PlaceText(g, line);
    assert StraightBody(line.body);
    if line.body.InstrBody? {
      LineLaid(lines, k);
      LaidAppend(g.text, Emit(line.body.ti, g.textAddr));
    } else {
      NothingEmitted(line.body);
      assert Prefix(lines, k + 1).text == g.text;
    }
  }

  lemma NothingEmitted(body: Body)
    requires !body.InstrBody?
    ensures EmitCount(body) == 0
  {}

  lemma LineLaid(lines: seq<SourceLine>, k: nat)
    requires Regular(lines) && FitsMemory(lines) && k < |lines| && lines[k].body.InstrBody?
    ensures var es := Emit(lines[k].body.ti, AddrAt(lines, k));
      |es| == EmitCount(lines[k].body) && Laid(es, TEXT_START_ADDR + 4 * InstrCount(lines[..k])) &&
      forall j :: 0 <= j < |es| ==> !es[j].op.OpNull?
  {
    hide Emit, EmitCount, InstrCount, FitsMemory, Bump, AddrAt;
    var t, a := lines[k].body.ti, AddrAt(lines, k);
    assert RegularBody(lines[k].body);
    ExactAddr(lines, k);
    NextAddr(lines, k);
    EmitLength(t, a);
    EmitOps(t, a);
    forall j | 0 <= j < |Emit(t, a)|
      ensures Emit(t, a)[j].addr == a + 4 * j
    {
      EmitAddrs(t, a, j);
      BumpExact(a, 4 * j);
    }
  }

  lemma LaidAppend(text: seq<TextInfo>, es: seq<TextInfo>)
    requires Laid(text, TEXT_START_ADDR) && Laid(es, TEXT_START_ADDR + 4 * |text|)
    ensures Laid(text + es, TEXT_START_ADDR)
  {}

  lemma TextStraight(lines: seq<SourceLine>, i: nat)
    requires WellFormed(lines) && StraightSource(lines) && i < |Text(lines)|
    ensures Straight(Text(lines)[i]) && SignFree(Text(lines)[i])
  {
    hide StraightInstr, Resolve, PlaceAll, Straight, SignFree, InstrCount;
    assert lines[..|lines|] == lines;
    TextLaid(lines, |lines|);
    var k := Toolchain.EntryOfLine(lines, |lines|, i);
    EmittedStraight(lines, k, Image(lines).text[i]);
  }

  /** Resolution keeps every address. */
  lemma ResolvedLaid(lines: seq<SourceLine>)
    requires Regular(lines) && FitsMemory(lines) && StraightSource(lines)
    ensures Laid(Text(lines), TEXT_START_ADDR) && |Text(lines)| == InstrCount(lines)
  {
    hide Resolve, PlaceAll, InstrCount, Regular, FitsMemory, StraightSource;
    assert lines[..|lines|] == lines;
    TextLaid(lines, |lines|);
    forall i | 0 <= i < |Text(lines)|
      ensures Text(lines)[i].addr == TEXT_START_ADDR + 4 * i
    {
      ResolveKeeps(Image(lines).text[i], Image(lines).syms);
    }
  }

  // ---- Their runs ----

  lemma StraightStep(lines: seq<SourceLine>, s: SourceState)
    requires StraightSource(lines) && s.at < |lines|
    ensures SourceStep(lines, s).Some? && SourceStep(lines, s).value.at == s.at + 1
    ensures SourceStep(lines, s).value.core == s.core.(regs := SourceStep(lines, s).value.core.regs)
  {
    hide SourceInstr, StraightInstr;
    assert StraightBody(lines[s.at].body);
    if lines[s.at].body.InstrBody? {
      InstrSteps(lines, lines[s.at].body.ti, s);
    }
  }

  lemma InstrSteps(lines: seq<SourceLine>, t: TextInfo, s: SourceState)
    requires StraightInstr(t) && s.at < |lines|
    ensures var r := SourceInstr(lines, t, s);
      r.Some? && r.value.at == s.at + 1 && r.value.core == s.core.(regs := r.value.core.regs)
  {
    hide SourceInstr, Exec, Straight, SignFree, IsPlain, Meaning, Ix;
    if t.op.La? || t.op.Li? {
      LoadSteps(lines, t, s);
    } else {
      PlainStraight(t);
      PlainSteps(lines, t, s);
      MeaningIsExec(t, s.core);
    }
  }

  lemma LoadSteps(lines: seq<SourceLine>, t: TextInfo, s: SourceState)
    requires (t.op.La? || t.op.Li?) && s.at < |lines|
    ensures var r := SourceInstr(lines, t, s);
      r.Some? && r.value.at == s.at + 1 && r.value.core == s.core.(regs := r.value.core.regs)
  {
    hide Exec, Read, Write, Word, Val, AddrAt, LaValue, LineOf, Target, Isa.HiLo;
  }

  /** A straight-line source goes through its lines in turn, and takes one instruction for each they emit. */
  lemma {:induction false} StraightRun(lines: seq<SourceLine>, s: SourceState, n: nat)
    requires StraightSource(lines) && s.at + n <= |lines|
    ensures var r := SourceRun(lines, s, n);
      r.Some? && r.value.at == s.at + n && r.value.core == s.core.(regs := r.value.core.regs) &&
      Cost(lines, s, n) == InstrCount(lines[..s.at + n]) - InstrCount(lines[..s.at])
    decreases n
  {
    hide SourceStep, EmitCount, InstrCount, StraightSource;
    if n > 0 {
      StraightStep(lines, s);
      StraightRun(lines, SourceStep(lines, s).value, n - 1);
      PrefixStep(lines, s.at);
    }
  }

  /**
   From source to registers: the emulator, running the bytes of a straight-line source from wherever
   they are loaded, has after the instructions of the first `n` lines the registers of the source
   after those lines, but for $at, and stands where they end; memory, HI and LO are as they were.
   */
  lemma SourceOnEmulator(lines: seq<SourceLine>, s: Snapshot, c: Core, mem: seq<bv8>, n: nat)
    requires WellFormed(lines) && StraightSource(lines) && n <= |lines|
    requires Proper(s) && s.reg[REG_ZERO] == 0 && c.regs == s.reg
    requires |mem| == SMIPS_MEM_SIZE && s.pc + 4 * |Text(lines)| <= SMIPS_MEM_SIZE
    requires s.mem == WriteMemOf(mem, Program.ByteImage(Assembler.AssembledAll(Text(lines))), s.pc)
    ensures var e, r := SourceRun(lines, SourceState(c, 0), n), Ticks(s, InstrCount(lines[..n]));
      e.Some? && r.Some? && e.value.at == n &&
      (forall i :: 0 <= i < 32 && i != REG_AT ==> r.value.reg[i] == e.value.core.regs[i]) &&
      r.value.pc - s.pc == AddrAt(lines, n) - TEXT_START_ADDR &&
      r.value.mem == s.mem && r.value.hi == s.hi && r.value.lo == s.lo
  {
    hide WellFormed, StraightSource, SourceRun, Ticks, Run, Text, InstrCount, AddrAt, Straight, SignFree, Laid, Related,
      WriteMemOf, Program.ByteImage, Fold, Assembler.AssembledAll;
    var k := InstrCount(lines[..n]);
    SourceReference(lines, c, n);
    StraightText(lines);
    InstrCountGrows(lines, n);
    AssembleLoadRun(Text(lines), s, mem, k);
    EmulatorIsReference(Text(lines), s, c, TEXT_START_ADDR, mem, k);
    var m := Run(Text(lines), Machine(c, TEXT_START_ADDR), k).value;
    ReferenceRegisters(lines, SourceRun(lines, SourceState(c, 0), n).value, m);
  }

  lemma ReferenceRegisters(lines: seq<SourceLine>, s: SourceState, m: Machine)
    requires Related(lines, s, m)
    ensures s.at <= |lines| && m.pc == AddrAt(lines, s.at)
    ensures forall i :: 0 <= i < 32 && i != REG_AT ==> m.core.regs[i] == s.core.regs[i]
  {}

  /** The reference machine after the instructions of the first `n` lines. */
  lemma SourceReference(lines: seq<SourceLine>, c: Core, n: nat)
    requires WellFormed(lines) && StraightSource(lines) && n <= |lines|
    ensures var e := SourceRun(lines, SourceState(c, 0), n);
      var m := Run(Text(lines), Machine(c, TEXT_START_ADDR), InstrCount(lines[..n]));
      e.Some? && m.Some? && e.value.at == n && Related(lines, e.value, m.value)
  {
    hide WellFormed, StraightSource, SourceRun, Run, Cost, Text, InstrCount, Related;
    StraightRun(lines, SourceState(c, 0), n);
    assert lines[..0] == [];
    EmptyCount();
    SimulationFromStart(lines, c, n);
  }

  /** The text is straight and laid out from the text base. */
  lemma StraightText(lines: seq<SourceLine>)
    requires WellFormed(lines) && StraightSource(lines)
    ensures Laid(Text(lines), TEXT_START_ADDR) && |Text(lines)| == InstrCount(lines)
    ensures TEXT_START_ADDR + 4 * |Text(lines)| < MODULUS
    ensures forall i :: 0 <= i < |Text(lines)| ==> Straight(Text(lines)[i]) && SignFree(Text(lines)[i])
  {
    hide WellFormed, StraightSource, Text, InstrCount, Straight, SignFree, Laid, Regular, FitsMemory;
    WellFormedParts(lines);
    ResolvedLaid(lines);
    forall i | 0 <= i < |Text(lines)|
      ensures Straight(Text(lines)[i]) && SignFree(Text(lines)[i])
    {
      TextStraight(lines, i);
    }
  }

  lemma EmptyCount()
    ensures InstrCount([]) == 0
  {}

  lemma WellFormedParts(lines: seq<SourceLine>)
    requires WellFormed(lines)
    ensures Regular(lines) && FitsMemory(lines) && TEXT_START_ADDR + 4 * InstrCount(lines) < MODULUS
  {
    hide InstrCount;
  }

  /**
   From a reset: the program loaded at address 0 of a reset processor runs from its first instruction
   on, with every register zero before it.
   */
  lemma ResetRun(lines: seq<TextInfo>, s: Snapshot, mem: seq<bv8>, k: nat)
    requires k <= |lines| && forall i :: 0 <= i < |lines| ==> Straight(lines[i])
    requires |mem| == SMIPS_MEM_SIZE && 4 * |lines| <= SMIPS_MEM_SIZE
    ensures var t := CleanOf(s).(mem := WriteMemOf(mem, Program.ByteImage(Assembler.AssembledAll(lines)), 0));
      Proper(t) && Ticks(t, k).Some? && Ticks(t, k).value.pc == 4 * k && Ticks(t, k).value.hi == 0 &&
      Ticks(t, k).value.lo == 0 && Ticks(t, k).value.reg == Fold(lines[..k], seq(32, i => 0))
  {
    hide Ticks, Straight, Fold, WriteMemOf, Program.ByteImage, Assembler.AssembledAll;
    var image := Program.ByteImage(Assembler.AssembledAll(lines));
    var t := CleanOf(s).(mem := WriteMemOf(mem, image, 0));
    SameSize(mem, image);
    AssembleLoadRun(lines, t, mem, k);
    assert ZeroRegs() == seq(32, i => 0);
  }

  lemma SameSize(mem: seq<bv8>, image: seq<bv8>)
    requires |mem| == SMIPS_MEM_SIZE
    ensures |WriteMemOf(mem, image, 0)| == |mem|
  {}
}
