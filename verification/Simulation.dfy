/**
 Expansion and label resolution preserve meaning: every run of the source lines, with pseudo-ops
 atomic and labels naming lines, is matched by a run of the expanded, resolved text by address.
 */
module Simulation {
  import opened Words
  import opened Source
  import opened Layout
  import opened Isa
  import opened Addresses
  import opened PseudoOps
  import opened Resolution

  /** What the lexer makes of the lines. */
  function Image(lines: seq<SourceLine>): Listing { PlaceAll(FRESH, lines) }

  function Text(lines: seq<SourceLine>): seq<TextInfo> { ResolveAll(Image(lines).text, Image(lines).syms) }

  function AddrAt(lines: seq<SourceLine>, k: nat): int
    requires k <= |lines|
  {
    Prefix(lines, k).textAddr
  }

  // ---- The source machine ----

  /** A source state counts lines: `at` is the line to run next. */
  datatype SourceState = SourceState(core: Core, at: nat)

  /** The first line laid out at an address; the number after the last line when there is none. */
  function LineOf(lines: seq<SourceLine>, a: int, k: nat): (r: nat)
    requires k <= |lines| + 1
    ensures k <= r <= |lines| + 1 && (r <= |lines| ==> AddrAt(lines, r) == a)
    decreases |lines| + 1 - k
  {
    if k > |lines| || AddrAt(lines, k) == a then k else LineOf(lines, a, k + 1)
  }

  function Target(lines: seq<SourceLine>, t: TextInfo): nat { FindLabel(lines, t.symbolName, 0) }

  /** The constant la loads. */
  function LaValue(lines: seq<SourceLine>, t: TextInfo): int {
    if t.isSymbol then AddrOfSymbol(Image(lines).syms, t.symbolName) else t.a2.val
  }

  /** One source line, atomically. Code addresses appear only where the program can see them: in jal and jr. */
  function SourceStep(lines: seq<SourceLine>, s: SourceState): Option<SourceState> {
    if s.at >= |lines| then None
    else if !lines[s.at].body.InstrBody? then Some(s.(at := s.at + 1))
    else SourceInstr(lines, lines[s.at].body.ti, s)
  }

  function SourceInstr(lines: seq<SourceLine>, t: TextInfo, s: SourceState): Option<SourceState>
    requires s.at < |lines|
  {
    var regs := s.core.regs;
    if IsBranch(t.op) then
      Some(s.(at := if Taken(t.op, Read(regs, t.a0), Read(regs, t.a1)) then Target(lines, t) else s.at + 1))
    else if t.op.J? then Some(s.(at := Target(lines, t)))
    else if t.op.Jal? then
      Some(SourceState(s.core.(regs := Write(regs, RA, Word(AddrAt(lines, s.at + 1)))), Target(lines, t)))
    else if t.op.Jr? then
      var k := LineOf(lines, Val(Read(regs, t.a0)), 0);
      if k <= |lines| then Some(s.(at := k)) else None
    else
      match SourceExec(lines, t, s.core)
      case None => None
      case Some(c) => Some(SourceState(c, s.at + 1))
  }

  function SourceExec(lines: seq<SourceLine>, t: TextInfo, c: Core): Option<Core> {
    if t.op.Mul? then
      var p := HiLo(Mult, Read(c.regs, t.a1), Read(c.regs, t.a2));
      Some(c.(regs := Write(c.regs, t.a0, p.1), hi := p.0, lo := p.1))
    else if t.op.La? then Some(c.(regs := Write(c.regs, t.a0, Word(LaValue(lines, t)))))
    else if t.op.Li? then Some(c.(regs := Write(c.regs, t.a0, Word(t.a2.val))))
    else Exec(t, c)
  }

  function SourceRun(lines: seq<SourceLine>, s: SourceState, n: nat): Option<SourceState>
    decreases n
  {
    if n == 0 then Some(s)
    else
      match SourceStep(lines, s)
      case None => None
      case Some(s') => SourceRun(lines, s', n - 1)
  }

  // ---- The programs the theorem is about ----

  /** No register the operation uses is $at. */
  predicate AvoidsAt(t: TextInfo) {
    (UsesA0(t.op) ==> Ix(t.a0) != REG_AT) && (UsesA1(t.op) ==> Ix(t.a1) != REG_AT) &&
      (UsesA2(t.op) ==> Ix(t.a2) != REG_AT)
  }

  predicate UsesA0(op: Op) { !op.J? && !op.Jal? }

  predicate UsesA1(op: Op) {
    IsAluReg(op) || IsAluImm(op) || IsMulDiv(op) || op.Lw? || op.Sw? || op.Mul? || IsBranch(op)
  }

  predicate UsesA2(op: Op) { IsAluReg(op) || op.Mul? }

  /** The operand names a label that is defined first in the text segment. */
  predicate TextTarget(lines: seq<SourceLine>, t: TextInfo) {
    t.isSymbol && Target(lines, t) < |lines| && Prefix(lines, Target(lines, t)).mode == TextSegment
  }

  /** The branch instruction line `k` emits is within a signed 16-bit byte distance of its target. */
  predicate Near(lines: seq<SourceLine>, k: nat, t: TextInfo)
    requires k < |lines| && Target(lines, t) <= |lines|
  {
    -0x8000 <= AddrAt(lines, Target(lines, t)) - (AddrAt(lines, k) + (if IsPairBranch(t.op) then 4 else 0)) < 0x8000
  }

  predicate Supported(lines: seq<SourceLine>, k: nat, t: TextInfo)
    requires k < |lines|
  {
    AvoidsAt(t) &&
    if IsBranch(t.op) then TextTarget(lines, t) && Near(lines, k, t)
    else if t.op.J? || t.op.Jal? then TextTarget(lines, t)
    else if t.op.La? then t.isSymbol ==> LaValue(lines, t) > 0
    else if t.op.Li? then 0 <= t.a2.val < 0x8000_0000
    else if t.op.Mul? || t.op.Jr? then true
    else IsPlain(t.op) && !t.isSymbol
  }

  predicate FitsMemory(lines: seq<SourceLine>) { TEXT_START_ADDR + 4 * InstrCount(lines) < MODULUS }

  ghost predicate WellFormed(lines: seq<SourceLine>) {
    Regular(lines) && FitsMemory(lines) &&
    forall k :: 0 <= k < |lines| && lines[k].body.InstrBody? ==> Supported(lines, k, lines[k].body.ti)
  }

  // ---- The relation ----

  /** Equal but for $at. */
  ghost predicate Agree(c: Core, d: Core) {
    c.hi == d.hi && c.lo == d.lo && c.mem == d.mem && forall i :: 0 <= i < 32 && i != REG_AT ==> c.regs[i] == d.regs[i]
  }

  ghost predicate Related(lines: seq<SourceLine>, s: SourceState, m: Machine) {
    s.at <= |lines| && m.pc == AddrAt(lines, s.at) && Agree(s.core, m.core)
  }

  // ---- Where instructions are ----

  lemma {:induction false} InstrCountGrows(lines: seq<SourceLine>, k: nat)
    requires k <= |lines|
    ensures InstrCount(lines[..k]) <= InstrCount(lines)
    decreases |lines| - k
  {
    if k < |lines| {
      hide EmitCount;
      InstrCountGrows(lines, k + 1);
      PrefixStep(lines, k);
    } else {
      assert lines[..k] == lines;
    }
  }

  lemma ExactAddr(lines: seq<SourceLine>, k: nat)
    requires FitsMemory(lines) && k <= |lines|
    ensures AddrAt(lines, k) == TEXT_START_ADDR + 4 * InstrCount(lines[..k]) < MODULUS
  {
    hide InstrCount, Prefix;
    TextAddrCounts(lines, k);
    InstrCountGrows(lines, k);
  }

  lemma NextAddr(lines: seq<SourceLine>, k: nat)
    requires FitsMemory(lines) && k < |lines|
    ensures AddrAt(lines, k + 1) == AddrAt(lines, k) + 4 * EmitCount(lines[k].body) < MODULUS
  {
    hide InstrCount, EmitCount, Prefix;
    ExactAddr(lines, k);
    ExactAddr(lines, k + 1);
    PrefixStep(lines, k);
  }

  // Instructions a line adds lie between its address and the next line's.
  lemma AddedAddrs(lines: seq<SourceLine>, k: nat, i: nat)
    requires Regular(lines) && FitsMemory(lines) && k < |lines|
    requires |Prefix(lines, k).text| <= i < |Prefix(lines, k + 1).text| && !Prefix(lines, k + 1).text[i].op.OpNull?
    ensures Prefix(lines, k + 1).text[i].addr < AddrAt(lines, k + 1)
  {
    hide PlaceAll, Place, Emit, InstrCount, EmitCount, Bump, Prefix;
    var g, line := Prefix(lines, k), lines[k];
    PrefixStep(lines, k);
    PlaceText(g, line);
    assert RegularBody(line.body);
    if line.body.InstrBody? {
      ExactAddr(lines, k);
      NextAddr(lines, k);
      EmitLength(line.body.ti, g.textAddr);
      EmitAddrs(line.body.ti, g.textAddr, i - |g.text|);
      BumpExact(g.textAddr, 4 * (i - |g.text|));
    }
  }

  /** Instructions placed before line `k` have smaller addresses. */
  lemma {:induction false} EarlierAddrs(lines: seq<SourceLine>, k: nat, i: nat)
    requires Regular(lines) && FitsMemory(lines) && k <= |lines|
    requires i < |Prefix(lines, k).text| && !Prefix(lines, k).text[i].op.OpNull?
    ensures Prefix(lines, k).text[i].addr < AddrAt(lines, k)
    decreases k
  {
    if k > 0 {
      hide Regular, FitsMemory, Prefix, EmitCount;
      if i < |Prefix(lines, k - 1).text| {
        PrefixGrows(lines, k - 1, k);
        EarlierAddrs(lines, k - 1, i);
        NextAddr(lines, k - 1);
      } else {
        AddedAddrs(lines, k - 1, i);
      }
    }
  }

  lemma {:induction false} FetchFirst(text: seq<TextInfo>, pc: int, i: nat)
    requires i < |text| && text[i].addr == pc && !text[i].op.OpNull?
    requires forall j :: 0 <= j < i ==> text[j].op.OpNull? || text[j].addr != pc
    ensures Fetch(text, pc) == Some(text[i])
  {
    if i > 0 {
      assert text[0].op.OpNull? || text[0].addr != pc;
      FetchFirst(text[1..], pc, i - 1);
    }
  }

  lemma ResolveKeeps(l: TextInfo, syms: seq<Symbol>)
    ensures Resolve(l, syms).addr == l.addr && Resolve(l, syms).op == l.op
  {}

  /** The `j`-th instruction of line `k` in the finished text. */
  lemma EmittedExact(lines: seq<SourceLine>, k: nat, j: nat)
    requires FitsMemory(lines) && k < |lines| && lines[k].body.InstrBody? && j < EmitCount(lines[k].body)
    ensures var a, i := AddrAt(lines, k), |Prefix(lines, k).text| + j; var es := Emit(lines[k].body.ti, a);
      |es| == EmitCount(lines[k].body) && i < |Image(lines).text| &&
      Image(lines).text[i] == es[j] && es[j].addr == a + 4 * j
  {
    hide PlaceAll, Place, Emit, InstrCount, EmitCount, Bump;
    var a := AddrAt(lines, k);
    assert lines[..|lines|] == lines;
    NextAddr(lines, k);
    ExactAddr(lines, k);
    EmittedAt(lines, k, j);
    EmitAddrs(lines[k].body.ti, a, j);
    BumpExact(a, 4 * j);
  }

  /** No instruction before the `j`-th of line `k` has its address. */
  lemma EarlierDiffer(lines: seq<SourceLine>, k: nat, j: nat, p: nat)
    requires Regular(lines) && FitsMemory(lines)
    requires k < |lines| && lines[k].body.InstrBody? && j < EmitCount(lines[k].body)
    requires p < |Prefix(lines, k).text| + j
    ensures p < |Image(lines).text|
    ensures Image(lines).text[p].op.OpNull? || Image(lines).text[p].addr != AddrAt(lines, k) + 4 * j
  {
    hide PlaceAll, Place, Emit, InstrCount, EmitCount, Bump;
    var before := Prefix(lines, k).text;
    if p < |before| {
      assert lines[..|lines|] == lines;
      PrefixGrows(lines, k, |lines|);
      if !before[p].op.OpNull? {
        EarlierAddrs(lines, k, p);
      }
    } else {
      EmittedExact(lines, k, p - |before|);
    }
  }

  /** Fetching at the address of the `j`-th instruction of line `k` finds that instruction, resolved. */
  lemma FetchEmitted(lines: seq<SourceLine>, k: nat, j: nat)
    requires Regular(lines) && FitsMemory(lines)
    requires k < |lines| && lines[k].body.InstrBody? && j < EmitCount(lines[k].body)
    ensures var a := AddrAt(lines, k); var es := Emit(lines[k].body.ti, a);
      |es| == EmitCount(lines[k].body) && Fetch(Text(lines), a + 4 * j) == Some(Resolve(es[j], Image(lines).syms))
  {
    hide PlaceAll, Place, Emit, InstrCount, EmitCount, Bump, Resolve, Fetch;
    var a, t := AddrAt(lines, k), lines[k].body.ti;
    var syms, i := Image(lines).syms, |Prefix(lines, k).text| + j;
    EmittedExact(lines, k, j);
    assert RegularBody(lines[k].body);
    EmitOps(t, a);
    forall p | 0 <= p < i
      ensures Text(lines)[p].op.OpNull? || Text(lines)[p].addr != a + 4 * j
    {
      EarlierDiffer(lines, k, j, p);
      ResolveKeeps(Image(lines).text[p], syms);
    }
    ResolveKeeps(Image(lines).text[i], syms);
    FetchFirst(Text(lines), a + 4 * j, i);
  }

  // ---- One source step ----

  /** The target run for the line at `s.at` ends in a state related to the source's. */
  ghost predicate Matched(lines: seq<SourceLine>, s: SourceState, m: Machine)
    requires s.at < |lines|
  {
    var r := Run(Text(lines), m, EmitCount(lines[s.at].body));
    SourceStep(lines, s).Some? && r.Some? && Related(lines, SourceStep(lines, s).value, r.value)
  }

  /** The machine runs the `j`-th instruction of line `k` when it is at its address. */
  lemma StepEmitted(lines: seq<SourceLine>, k: nat, j: nat, core: Core)
    requires Regular(lines) && FitsMemory(lines)
    requires k < |lines| && lines[k].body.InstrBody? && j < EmitCount(lines[k].body)
    ensures var a := AddrAt(lines, k); var es := Emit(lines[k].body.ti, a); var m := Machine(core, a + 4 * j);
      |es| == EmitCount(lines[k].body) && Step(Text(lines), m) == StepLine(Resolve(es[j], Image(lines).syms), m)
  {
    hide Fetch, StepLine, Emit, EmitCount, Resolve, AddrAt, Text, Image;
    FetchEmitted(lines, k, j);
  }

  lemma RunOne(text: seq<TextInfo>, m: Machine)
    ensures Run(text, m, 1) == Step(text, m)
  {}

  lemma RunTwo(text: seq<TextInfo>, m: Machine, m1: Machine)
    requires Step(text, m) == Some(m1)
    ensures Run(text, m, 2) == Step(text, m1)
  {}

  lemma StepPlain(l: TextInfo, m: Machine, c: Core)
    requires IsPlain(l.op) && Exec(l, m.core) == Some(c)
    ensures StepLine(l, m) == Some(Machine(c, Bump(m.pc, 4)))
  {}

  lemma ReadAgrees(c: RegFile, d: RegFile, a: Argument)
    requires (forall i :: 0 <= i < 32 && i != REG_AT ==> c[i] == d[i]) && Ix(a) != REG_AT
    ensures Read(c, a) == Read(d, a)
  {}

  lemma ApplyAgrees(c: Core, d: Core, a: Argument, e: Effect)
    requires Agree(c, d)
    ensures Agree(Apply(c, a, e), Apply(d, a, e))
  {}

  /** An instruction that does not use $at keeps two cores that differ only there that way. */
  lemma ExecAgrees(t: TextInfo, c: Core, d: Core)
    requires Agree(c, d) && AvoidsAt(t)
    ensures Exec(t, c).Some? <==> Exec(t, d).Some?
    ensures Exec(t, c).Some? ==> Agree(Exec(t, c).value, Exec(t, d).value)
  {
    hide EffectOf, Apply, Read, Write, Ix, Word;
    if ReadsA0(t.op) { ReadAgrees(c.regs, d.regs, t.a0); }
    if ReadsA1(t.op) { ReadAgrees(c.regs, d.regs, t.a1); }
    if ReadsA2(t.op) { ReadAgrees(c.regs, d.regs, t.a2); }
    var e := EffectOf(t.op, Operand(ReadsA0(t.op), c.regs, t.a0), Operand(ReadsA1(t.op), c.regs, t.a1),
                      Operand(ReadsA2(t.op), c.regs, t.a2), Word(t.a2.val), c.hi, c.lo, c.mem);
    if e.Some? {
      ApplyAgrees(c, d, t.a0, e.value);
    }
  }

  lemma SimulatePlain(lines: seq<SourceLine>, s: SourceState, m: Machine)
    requires WellFormed(lines) && Related(lines, s, m) && s.at < |lines| && SourceStep(lines, s).Some?
    requires lines[s.at].body.InstrBody? && IsPlain(lines[s.at].body.ti.op)
    ensures Matched(lines, s, m)
  {
    hide ExecOp, Step, StepLine, Bump, AddrAt, Text, Image, AvoidsAt, Regular, FitsMemory;
    var k := s.at;
    var t, a := lines[k].body.ti, AddrAt(lines, k);
    PlainIsPlain(lines, s);
    var l := t.(addr := a);
    StepEmitted(lines, k, 0, m.core);
    assert Exec(l, m.core) == Exec(t, m.core);
    ExecAgrees(t, s.core, m.core);
    StepPlain(l, m, Exec(t, m.core).value);
    RunOne(Text(lines), m);
    NextAddr(lines, k);
    ExactAddr(lines, k);
    BumpExact(a, 4);
  }

  lemma PlainEmits(t: TextInfo, a: int)
    requires RegularBody(InstrBody(t)) && IsPlain(t.op)
    ensures Emit(t, a) == [t.(addr := a)] && EmitCount(InstrBody(t)) == 1
  {}

  lemma PlainSteps(lines: seq<SourceLine>, t: TextInfo, s: SourceState)
    requires IsPlain(t.op) && s.at < |lines|
    ensures SourceInstr(lines, t, s) ==
      (match Exec(t, s.core) case None => None case Some(c) => Some(SourceState(c, s.at + 1)))
  {
    hide Exec, AddrAt, Image, Taken, Target, LineOf, HiLo, Write, Read, Word, Val, LaValue, IsPlain, IsBranch;
    PlainOp(t.op);
  }

  lemma PlainOp(op: Op)
    requires IsPlain(op)
    ensures !IsBranch(op) && !op.J? && !op.Jal? && !op.Jr? && !op.Mul? && !op.La? && !op.Li?
  {}

  lemma PlainSupported(lines: seq<SourceLine>, k: nat)
    requires WellFormed(lines) && k < |lines| && lines[k].body.InstrBody? && IsPlain(lines[k].body.ti.op)
    ensures RegularBody(lines[k].body) && AvoidsAt(lines[k].body.ti) && !lines[k].body.ti.isSymbol
  {
    hide AvoidsAt, AddrAt, TextTarget, Near;
    assert RegularBody(lines[k].body);
    assert Supported(lines, k, lines[k].body.ti);
  }

  /** A supported plain line is itself its only instruction, runs as itself, and resolution leaves it alone. */
  lemma PlainIsPlain(lines: seq<SourceLine>, s: SourceState)
    requires WellFormed(lines) && s.at < |lines| && lines[s.at].body.InstrBody? && IsPlain(lines[s.at].body.ti.op)
    ensures var t, a := lines[s.at].body.ti, AddrAt(lines, s.at);
      Emit(t, a) == [t.(addr := a)] && EmitCount(lines[s.at].body) == 1 &&
      Resolve(t.(addr := a), Image(lines).syms) == t.(addr := a) && AvoidsAt(t) &&
      SourceStep(lines, s) == (match Exec(t, s.core) case None => None case Some(c) => Some(SourceState(c, s.at + 1)))
  {
    hide Exec, AddrAt, Image, AvoidsAt, Emit, EmitCount, WellFormed, IsPlain, SourceInstr, Resolve;
    var t, a := lines[s.at].body.ti, AddrAt(lines, s.at);
    PlainSupported(lines, s.at);
    PlainEmits(t, a);
    PlainSteps(lines, t, s);
    Unresolved(t.(addr := a), Image(lines).syms);
  }

  /** One plain instruction at line `k`. */
  lemma RunSingle(lines: seq<SourceLine>, k: nat, core: Core, c: Core)
    requires Regular(lines) && FitsMemory(lines) && k < |lines| && lines[k].body.InstrBody? &&
      EmitCount(lines[k].body) == 1
    requires |Emit(lines[k].body.ti, AddrAt(lines, k))| == 1
    requires var l := Resolve(Emit(lines[k].body.ti, AddrAt(lines, k))[0], Image(lines).syms);
      IsPlain(l.op) && Exec(l, core) == Some(c)
    ensures Run(Text(lines), Machine(core, AddrAt(lines, k)), 1) == Some(Machine(c, AddrAt(lines, k + 1)))
  {
    hide Exec, Step, StepLine, Bump, AddrAt, Text, Image, Emit, EmitCount, Regular, FitsMemory, Resolve, IsPlain;
    var a := AddrAt(lines, k);
    var m := Machine(core, a);
    StepEmitted(lines, k, 0, core);
    StepPlain(Resolve(Emit(lines[k].body.ti, a)[0], Image(lines).syms), m, c);
    RunOne(Text(lines), m);
    NextAddr(lines, k);
    ExactAddr(lines, k);
    BumpExact(a, 4);
  }

  /** Two plain instructions at line `k`, run in turn. */
  lemma RunPair(lines: seq<SourceLine>, k: nat, core: Core, c: Core, d: Core)
    requires Regular(lines) && FitsMemory(lines) && k < |lines| && lines[k].body.InstrBody? &&
      EmitCount(lines[k].body) == 2
    requires |Emit(lines[k].body.ti, AddrAt(lines, k))| == 2
    requires var es, syms := Emit(lines[k].body.ti, AddrAt(lines, k)), Image(lines).syms;
      IsPlain(Resolve(es[0], syms).op) && Exec(Resolve(es[0], syms), core) == Some(c) &&
      IsPlain(Resolve(es[1], syms).op) && Exec(Resolve(es[1], syms), c) == Some(d)
    ensures Run(Text(lines), Machine(core, AddrAt(lines, k)), 2) == Some(Machine(d, AddrAt(lines, k + 1)))
  {
    hide Exec, Step, StepLine, Bump, AddrAt, Text, Image, Emit, EmitCount, Regular, FitsMemory, Resolve, IsPlain;
    var a := AddrAt(lines, k);
    var es, syms, m := Emit(lines[k].body.ti, a), Image(lines).syms, Machine(core, a);
    NextAddr(lines, k);
    ExactAddr(lines, k);
    StepEmitted(lines, k, 0, core);
    StepPlain(Resolve(es[0], syms), m, c);
    BumpExact(a, 4);
    StepEmitted(lines, k, 1, c);
    StepPlain(Resolve(es[1], syms), Machine(c, a + 4), d);
    BumpExact(a + 4, 4);
    RunTwo(Text(lines), m, Machine(c, a + 4));
  }

  lemma Unresolved(l: TextInfo, syms: seq<Symbol>)
    requires !l.isSymbol
    ensures Resolve(l, syms) == l
  {}

  lemma WriteAgrees(c: Core, d: Core, a: Argument, v: bv32)
    requires Agree(c, d)
    ensures Agree(c.(regs := Write(c.regs, a, v)), d.(regs := Write(d.regs, a, v)))
  {}

  lemma SourcePseudo(lines: seq<SourceLine>, s: SourceState)
    requires s.at < |lines| && lines[s.at].body.InstrBody?
    requires var op := lines[s.at].body.ti.op; op.Mul? || op.La? || op.Li?
    ensures SourceExec(lines, lines[s.at].body.ti, s.core).Some?
    ensures SourceStep(lines, s) == Some(SourceState(SourceExec(lines, lines[s.at].body.ti, s.core).value, s.at + 1))
  {
    hide Exec, HiLo, Word, Write, Read, LaValue, AddrAt;
  }

  lemma SimulateMul(lines: seq<SourceLine>, s: SourceState, m: Machine)
    requires WellFormed(lines) && Related(lines, s, m) && s.at < |lines|
    requires lines[s.at].body.InstrBody? && lines[s.at].body.ti.op.Mul?
    ensures Matched(lines, s, m)
  {
    hide Exec, Bump, AddrAt, Text, Image, Write, HiLo, Run, Read, Regular, FitsMemory, Expand, Resolve, Emit,
      EmitCount, SourceStep, Ix;
    var k := s.at;
    var t := lines[k].body.ti.(addr := AddrAt(lines, k));
    MulLine(lines, k);
    var es := Expand(t);
    MulMultiplies(t, m.core);
    Unresolved(es[0], Image(lines).syms);
    Unresolved(es[1], Image(lines).syms);
    ReadAgrees(s.core.regs, m.core.regs, t.a1);
    ReadAgrees(s.core.regs, m.core.regs, t.a2);
    var p := HiLo(Mult, Read(m.core.regs, t.a1), Read(m.core.regs, t.a2));
    RunPair(lines, k, m.core, Exec(es[0], m.core).value,
      m.core.(regs := Write(m.core.regs, t.a0, p.1), hi := p.0, lo := p.1));
    WriteAgrees(s.core, m.core, t.a0, p.1);
    SourcePseudo(lines, s);
  }

  lemma MulLine(lines: seq<SourceLine>, k: nat)
    requires WellFormed(lines) && k < |lines| && lines[k].body.InstrBody? && lines[k].body.ti.op.Mul?
    ensures var t, a := lines[k].body.ti, AddrAt(lines, k); var es := Expand(t.(addr := a));
      Emit(t, a) == es && |es| == 2 == EmitCount(lines[k].body) && es[0].op.Mult? && es[1].op.Mflo? &&
      !es[0].isSymbol && !es[1].isSymbol && Ix(t.a1) != REG_AT && Ix(t.a2) != REG_AT
  {}

  lemma SimulateLa(lines: seq<SourceLine>, s: SourceState, m: Machine)
    requires WellFormed(lines) && Related(lines, s, m) && s.at < |lines|
    requires lines[s.at].body.InstrBody? && lines[s.at].body.ti.op.La?
    ensures Matched(lines, s, m)
  {
    hide Exec, Bump, AddrAt, Text, Image, Write, Run, Regular, FitsMemory, Expand, Resolve, Emit, EmitCount,
      SourceStep, Word, AddrOfSymbol;
    var k, syms := s.at, Image(lines).syms;
    var t := lines[k].body.ti.(addr := AddrAt(lines, k));
    LaLine(lines, k);
    var es := Expand(t);
    LaLoads(t, syms, m.core);
    var v := Word(LaValue(lines, t));
    RunPair(lines, k, m.core, Exec(Resolve(es[0], syms), m.core).value, m.core.(regs := Write(m.core.regs, t.a0, v)));
    WriteAgrees(s.core, m.core, t.a0, v);
    SourcePseudo(lines, s);
  }

  lemma LaLine(lines: seq<SourceLine>, k: nat)
    requires WellFormed(lines) && k < |lines| && lines[k].body.InstrBody? && lines[k].body.ti.op.La?
    ensures var t, a, syms := lines[k].body.ti, AddrAt(lines, k), Image(lines).syms; var es := Expand(t.(addr := a));
      Emit(t, a) == es && |es| == 2 == EmitCount(lines[k].body) &&
      IsPlain(Resolve(es[0], syms).op) && IsPlain(Resolve(es[1], syms).op) &&
      (t.isSymbol ==> LaValue(lines, t) > 0)
  {
    hide AddrAt, Bump, Near, TextTarget, AddrOfSymbol, Image, Resolve, HalvesPair, LaValue;
    assert RegularBody(lines[k].body);
    assert Supported(lines, k, lines[k].body.ti);
    var t := lines[k].body.ti.(addr := AddrAt(lines, k));
    var es := HalvesPair(t, t.isSymbol, t.symbolName);
    HalvesParts(t, t.isSymbol, t.symbolName);
    ResolveKeeps(es[0], Image(lines).syms);
    ResolveKeeps(es[1], Image(lines).syms);
  }

  lemma SimulateLi(lines: seq<SourceLine>, s: SourceState, m: Machine)
    requires WellFormed(lines) && Related(lines, s, m) && s.at < |lines|
    requires lines[s.at].body.InstrBody? && lines[s.at].body.ti.op.Li?
    ensures Matched(lines, s, m)
  {
    hide Exec, Bump, AddrAt, Text, Image, Write, Run, Regular, FitsMemory, Expand, Resolve, Emit, EmitCount,
      SourceStep, Word, IsPlain;
    var k, syms := s.at, Image(lines).syms;
    var t := lines[k].body.ti.(addr := AddrAt(lines, k));
    LiLine(lines, k);
    var es := Expand(t);
    LiLoads(t, m.core);
    var v := Word(t.a2.val);
    var d := m.core.(regs := Write(m.core.regs, t.a0, v));
    Unresolved(es[0], syms);
    if t.a2.val > 0xFFFF {
      Unresolved(es[1], syms);
      RunPair(lines, k, m.core, Exec(es[0], m.core).value, d);
    } else {
      RunSingle(lines, k, m.core, d);
    }
    WriteAgrees(s.core, m.core, t.a0, v);
    SourcePseudo(lines, s);
  }

  lemma LiLine(lines: seq<SourceLine>, k: nat)
    requires WellFormed(lines) && k < |lines| && lines[k].body.InstrBody? && lines[k].body.ti.op.Li?
    ensures var t, a := lines[k].body.ti, AddrAt(lines, k); var es := Expand(t.(addr := a));
      Emit(t, a) == es && 0 <= t.a2.val < 0x8000_0000 &&
      |es| == (if t.a2.val > 0xFFFF then 2 else 1) == EmitCount(lines[k].body) &&
      !es[0].isSymbol && IsPlain(es[0].op) && (|es| == 2 ==> !es[1].isSymbol && IsPlain(es[1].op))
  {
    hide AddrAt, Bump, Near, TextTarget, Lower16, HalvesPair;
    assert RegularBody(lines[k].body);
    assert Supported(lines, k, lines[k].body.ti);
    HalvesParts(lines[k].body.ti.(addr := AddrAt(lines, k)), false, "");
  }

  // ---- Branches and jumps ----

  /** A label in the text segment resolves to the address of its line. */
  lemma TargetAddr(lines: seq<SourceLine>, t: TextInfo)
    requires FitsMemory(lines) && TextTarget(lines, t)
    ensures AddrOfSymbol(Image(lines).syms, t.symbolName) == AddrAt(lines, Target(lines, t))
    ensures TEXT_START_ADDR <= AddrAt(lines, Target(lines, t)) < MODULUS
  {
    hide AddrOfSymbol, PlaceAll;
    SymbolTableIsFirst(lines, t.symbolName);
    ExactAddr(lines, Target(lines, t));
  }

  /** What resolution makes of a branch to a near label leads to the line of the label. */
  lemma BranchResolved(lines: seq<SourceLine>, t: TextInfo, l: TextInfo)
    requires FitsMemory(lines) && TextTarget(lines, t) && 0 <= l.addr < MODULUS
    requires (l.op.Beq? || l.op.Bne?) && l.isSymbol && l.symbolName == t.symbolName
    requires -0x8000 <= AddrAt(lines, Target(lines, t)) - l.addr < 0x8000
    ensures var r := Resolve(l, Image(lines).syms);
      r.op == l.op && r.a0 == l.a0 && r.a1 == l.a1 &&
      Bump(l.addr, Distance16(r.a2.val)) == AddrAt(lines, Target(lines, t))
  {
    hide AddrOfSymbol, AddrAt, Image, Distance16, Lower16, Bump;
    TargetAddr(lines, t);
    var a := AddrAt(lines, Target(lines, t));
    OffsetReaches(a, l.addr);
    NearDistance(a, l.addr);
    assert Resolve(l, Image(lines).syms) == Patch(l, a);
  }

  lemma NearDistance(target: int, addr: int)
    requires -0x8000 <= target - addr < 0x8000
    ensures Fits16(DistanceTo(target, addr))
  {}

  lemma StepBranch(l: TextInfo, m: Machine)
    requires l.op.Beq? || l.op.Bne?
    ensures var taken := (Read(m.core.regs, l.a0) == Read(m.core.regs, l.a1)) == l.op.Beq?;
      StepLine(l, m) == Some(m.(pc := if taken then Bump(m.pc, Distance16(l.a2.val)) else Bump(m.pc, 4)))
  {
    hide Exec, Read, Distance16, Bump;
  }

  lemma SourceBranch(lines: seq<SourceLine>, s: SourceState)
    requires s.at < |lines| && lines[s.at].body.InstrBody? && IsBranch(lines[s.at].body.ti.op)
    ensures var t := lines[s.at].body.ti;
      SourceStep(lines, s) == Some(s.(at :=
        if Taken(t.op, Read(s.core.regs, t.a0), Read(s.core.regs, t.a1)) then Target(lines, t) else s.at + 1))
  {
    hide Taken, Read, Target;
  }

  lemma BranchLine(lines: seq<SourceLine>, k: nat)
    requires WellFormed(lines) && k < |lines| && lines[k].body.InstrBody? && IsBranch(lines[k].body.ti.op)
    ensures var t := lines[k].body.ti;
      TextTarget(lines, t) && Near(lines, k, t) && Ix(t.a0) != REG_AT && Ix(t.a1) != REG_AT &&
      EmitCount(lines[k].body) == if IsPairBranch(t.op) then 2 else 1
  {
    hide AddrAt, Near, TextTarget, IsBranch, IsPairBranch, RegularBody, EmitCount, FitsMemory, Ix;
    var t := lines[k].body.ti;
    assert RegularBody(lines[k].body);
    assert Supported(lines, k, t);
    BranchCount(t);
  }

  lemma BranchCount(t: TextInfo)
    requires IsBranch(t.op) && RegularBody(InstrBody(t))
    ensures EmitCount(InstrBody(t)) == if IsPairBranch(t.op) then 2 else 1
    ensures UsesA0(t.op) && UsesA1(t.op)
  {
    hide CompareLine, DecisionLine;
  }

  // The one branch instruction of a beq, bne or beqz line.
  function SingleBranch(t: TextInfo): TextInfo {
    if t.op.Beqz? then
      FirstOf(t, Beq).(a0 := t.a0, a1 := Reg(REG_ZERO), a2 := t.a2, labelName := t.labelName, isLabel := t.isLabel,
                       symbolName := t.symbolName, isSymbol := t.isSymbol, isImm := true)
    else t
  }

  lemma SingleEmits(t: TextInfo, a: int)
    requires RegularBody(InstrBody(t)) && IsBranch(t.op) && !IsPairBranch(t.op) && t.isSymbol
    ensures var l := SingleBranch(t.(addr := a));
      Emit(t, a) == [l] && l.addr == a && l.isSymbol && l.symbolName == t.symbolName && (l.op.Beq? || l.op.Bne?)
  {}

  lemma SingleDecides(t: TextInfo, core: Core)
    requires IsBranch(t.op) && !IsPairBranch(t.op)
    ensures var l := SingleBranch(t);
      ((Read(core.regs, l.a0) == Read(core.regs, l.a1)) == l.op.Beq?) ==
      Taken(t.op, Read(core.regs, t.a0), Read(core.regs, t.a1))
  {
    hide Read, Val, Signed;
    if t.op.Beqz? {
      BeqzDecides(t, core);
    }
  }

  lemma SingleBranchLine(lines: seq<SourceLine>, k: nat, core: Core)
    requires WellFormed(lines) && k < |lines| && lines[k].body.InstrBody?
    requires IsBranch(lines[k].body.ti.op) && !IsPairBranch(lines[k].body.ti.op)
    ensures var t, a := lines[k].body.ti, AddrAt(lines, k); var l := SingleBranch(t.(addr := a));
      Emit(t, a) == [l] && l.addr == a && l.isSymbol && l.symbolName == t.symbolName && (l.op.Beq? || l.op.Bne?) &&
      ((Read(core.regs, l.a0) == Read(core.regs, l.a1)) == l.op.Beq?) ==
      Taken(t.op, Read(core.regs, t.a0), Read(core.regs, t.a1))
  {
    hide AddrAt, Near, SingleBranch, Emit, Taken, Read, TextTarget, IsPairBranch, IsBranch, FitsMemory, AvoidsAt;
    assert RegularBody(lines[k].body);
    assert Supported(lines, k, lines[k].body.ti);
    IsSymbolTarget(lines, lines[k].body.ti);
    SingleEmits(lines[k].body.ti, AddrAt(lines, k));
    SingleDecides(lines[k].body.ti.(addr := AddrAt(lines, k)), core);
  }

  lemma SimulateSingleBranch(lines: seq<SourceLine>, s: SourceState, m: Machine)
    requires WellFormed(lines) && Related(lines, s, m) && s.at < |lines| && lines[s.at].body.InstrBody?
    requires IsBranch(lines[s.at].body.ti.op) && !IsPairBranch(lines[s.at].body.ti.op)
    ensures Matched(lines, s, m)
  {
    hide Step, StepLine, Bump, AddrAt, Text, Image, Run, Regular, FitsMemory, Emit, EmitCount, SourceStep, Taken,
      Read, Resolve, Distance16, TextTarget, Ix, SingleBranch;
    var k := s.at;
    var t, a := lines[k].body.ti, AddrAt(lines, k);
    var l := SingleBranch(t.(addr := a));
    BranchLine(lines, k);
    SingleBranchLine(lines, k, m.core);
    ExactAddr(lines, k);
    BranchResolved(lines, t, l);
    StepEmitted(lines, k, 0, m.core);
    StepBranch(Resolve(l, Image(lines).syms), m);
    RunOne(Text(lines), m);
    NextAddr(lines, k);
    BumpExact(a, 4);
    ReadAgrees(s.core.regs, m.core.regs, t.a0);
    ReadAgrees(s.core.regs, m.core.regs, t.a1);
    SourceBranch(lines, s);
  }

  lemma IsSymbolTarget(lines: seq<SourceLine>, t: TextInfo)
    requires TextTarget(lines, t)
    ensures t.isSymbol
  {}

  lemma PairBranchLine(lines: seq<SourceLine>, k: nat)
    requires WellFormed(lines) && k < |lines| && lines[k].body.InstrBody? && IsPairBranch(lines[k].body.ti.op)
    ensures var t, a := lines[k].body.ti, AddrAt(lines, k); var t' := t.(addr := a);
      Emit(t, a) == [CompareLine(t'), DecisionLine(t')] &&
      IsPlain(CompareLine(t').op) && !CompareLine(t').isSymbol &&
      var l := DecisionLine(t');
      l.addr == Bump(a, 4) && l.isSymbol && l.symbolName == t.symbolName && (l.op.Beq? || l.op.Bne?)
  {
    hide AddrAt, Near, Bump, CompareLine, DecisionLine, TextTarget;
    var t' := lines[k].body.ti.(addr := AddrAt(lines, k));
    CompareIsPlain(t');
    DecisionParts(t');
    BranchLine(lines, k);
    assert t'.isSymbol by { assert TextTarget(lines, lines[k].body.ti); IsSymbolTarget(lines, lines[k].body.ti); }
    assert RegularBody(lines[k].body);
    assert Supported(lines, k, lines[k].body.ti);
  }

  lemma SimulatePairBranch(lines: seq<SourceLine>, s: SourceState, m: Machine)
    requires WellFormed(lines) && Related(lines, s, m) && s.at < |lines| && lines[s.at].body.InstrBody?
    requires IsPairBranch(lines[s.at].body.ti.op)
    ensures Matched(lines, s, m)
  {
    hide Exec, Step, StepLine, Bump, AddrAt, Text, Image, Run, Regular, FitsMemory, Emit, EmitCount, SourceStep,
      Taken, Read, Resolve, Distance16, TextTarget, Ix, CompareLine, DecisionLine, IsPlain;
    var k, syms := s.at, Image(lines).syms;
    var t, a := lines[k].body.ti, AddrAt(lines, k);
    var t' := t.(addr := a);
    var l := DecisionLine(t');
    BranchLine(lines, k);
    PairBranchLine(lines, k);
    BranchPairDecides(t', m.core);
    var d := Exec(CompareLine(t'), m.core).value;
    ExactAddr(lines, k);
    NextAddr(lines, k);
    BumpExact(a, 4);
    BumpExact(a + 4, 4);
    Unresolved(CompareLine(t'), syms);
    StepEmitted(lines, k, 0, m.core);
    StepPlain(CompareLine(t'), m, d);
    BranchResolved(lines, t, l);
    StepEmitted(lines, k, 1, d);
    StepBranch(Resolve(l, syms), Machine(d, a + 4));
    RunTwo(Text(lines), m, Machine(d, a + 4));
    ReadAgrees(s.core.regs, m.core.regs, t.a0);
    ReadAgrees(s.core.regs, m.core.regs, t.a1);
    SourceBranch(lines, s);
  }

  lemma JumpLine(lines: seq<SourceLine>, k: nat)
    requires WellFormed(lines) && k < |lines| && lines[k].body.InstrBody?
    requires var op := lines[k].body.ti.op; op.J? || op.Jal? || op.Jr?
    ensures var t, a := lines[k].body.ti, AddrAt(lines, k);
      Emit(t, a) == [t.(addr := a)] && EmitCount(lines[k].body) == 1 &&
      (t.op.Jr? ==> Ix(t.a0) != REG_AT) && (!t.op.Jr? ==> TextTarget(lines, t))
  {
    hide AddrAt, Near, TextTarget, Ix;
    assert RegularBody(lines[k].body);
    assert Supported(lines, k, lines[k].body.ti);
  }

  lemma JumpResolved(lines: seq<SourceLine>, t: TextInfo, l: TextInfo)
    requires FitsMemory(lines) && TextTarget(lines, t) && (l.op.J? || l.op.Jal?) && l.isSymbol &&
      l.symbolName == t.symbolName
    ensures var r := Resolve(l, Image(lines).syms);
      r.op == l.op && Bump(r.a0.val, 0) == AddrAt(lines, Target(lines, t))
  {
    hide AddrOfSymbol, AddrAt, Image, Bump, ToInt;
    TargetAddr(lines, t);
    var a := AddrAt(lines, Target(lines, t));
    assert Resolve(l, Image(lines).syms) == Patch(l, a);
    BumpToInt(a);
  }

  lemma BumpToInt(a: int)
    requires 0 <= a < MODULUS
    ensures Bump(ToInt(a), 0) == a
  {}

  lemma StepJump(l: TextInfo, m: Machine)
    requires l.op.J? || l.op.Jal? || l.op.Jr?
    ensures StepLine(l, m) == Some(
      if l.op.J? then m.(pc := Bump(l.a0.val, 0))
      else if l.op.Jal? then Machine(m.core.(regs := Write(m.core.regs, RA, Word(Bump(m.pc, 4)))), Bump(l.a0.val, 0))
      else m.(pc := Val(Read(m.core.regs, l.a0))))
  {
    hide Exec, Read, Write, Word, Val, Bump;
  }

  lemma SourceJump(lines: seq<SourceLine>, s: SourceState)
    requires s.at < |lines| && lines[s.at].body.InstrBody?
    requires var op := lines[s.at].body.ti.op; op.J? || op.Jal? || op.Jr?
    ensures var t := lines[s.at].body.ti; var k := LineOf(lines, Val(Read(s.core.regs, t.a0)), 0);
      SourceStep(lines, s) ==
        if t.op.J? then Some(s.(at := Target(lines, t)))
        else if t.op.Jal? then
          Some(SourceState(s.core.(regs := Write(s.core.regs, RA, Word(AddrAt(lines, s.at + 1)))), Target(lines, t)))
        else if k <= |lines| then Some(s.(at := k)) else None
  {
    hide Read, Write, Word, Val, Target, AddrAt, LineOf;
  }

  lemma SimulateJump(lines: seq<SourceLine>, s: SourceState, m: Machine)
    requires WellFormed(lines) && Related(lines, s, m) && s.at < |lines| && lines[s.at].body.InstrBody?
    requires var op := lines[s.at].body.ti.op; op.J? || op.Jal? || op.Jr?
    requires SourceStep(lines, s).Some?
    ensures Matched(lines, s, m)
  {
    hide Step, StepLine, Bump, AddrAt, Text, Image, Run, Regular, FitsMemory, Emit, EmitCount, SourceStep, Read,
      Write, Word, Val, Resolve, TextTarget, Ix;
    var k := s.at;
    var t, a := lines[k].body.ti, AddrAt(lines, k);
    var l := t.(addr := a);
    JumpLine(lines, k);
    StepEmitted(lines, k, 0, m.core);
    ResolveKeeps(l, Image(lines).syms);
    StepJump(Resolve(l, Image(lines).syms), m);
    RunOne(Text(lines), m);
    NextAddr(lines, k);
    ExactAddr(lines, k);
    BumpExact(a, 4);
    SourceJump(lines, s);
    if t.op.Jr? {
      ResolveJr(l, Image(lines).syms);
      ReadAgrees(s.core.regs, m.core.regs, t.a0);
    } else {
      assert t.isSymbol by { IsSymbolTarget(lines, t); }
      JumpResolved(lines, t, l);
      WriteAgrees(s.core, m.core, RA, Word(AddrAt(lines, k + 1)));
    }
  }

  // Resolution never touches the register of jr.
  lemma ResolveJr(l: TextInfo, syms: seq<Symbol>)
    requires l.op.Jr?
    ensures Resolve(l, syms).op.Jr? && Resolve(l, syms).a0 == l.a0
  {}

  // ---- The theorem ----

  /** Lines that emit nothing take no time. */
  lemma SimulateSkip(lines: seq<SourceLine>, s: SourceState, m: Machine)
    requires WellFormed(lines) && Related(lines, s, m) && s.at < |lines| && !lines[s.at].body.InstrBody?
    ensures Matched(lines, s, m)
  {
    hide Step, AddrAt, Text, Image, Regular;
    NextAddr(lines, s.at);
  }

  lemma {:induction false} SimulateStep(lines: seq<SourceLine>, s: SourceState, m: Machine)
    requires WellFormed(lines) && Related(lines, s, m) && SourceStep(lines, s).Some?
    ensures s.at < |lines| && Matched(lines, s, m)
  {
    hide Related, Matched, SourceInstr, Regular, FitsMemory, Taken, AvoidsAt, TextTarget, Near;
    if !lines[s.at].body.InstrBody? {
      SimulateSkip(lines, s, m);
    } else {
      var t := lines[s.at].body.ti;
      assert Supported(lines, s.at, t);
      if IsPairBranch(t.op) {
        SimulatePairBranch(lines, s, m);
      } else if IsBranch(t.op) {
        SimulateSingleBranch(lines, s, m);
      } else if t.op.J? || t.op.Jal? || t.op.Jr? {
        SimulateJump(lines, s, m);
      } else if t.op.La? {
        SimulateLa(lines, s, m);
      } else if t.op.Li? {
        SimulateLi(lines, s, m);
      } else if t.op.Mul? {
        SimulateMul(lines, s, m);
      } else {
        SimulatePlain(lines, s, m);
      }
    }
  }

  /** How many target instructions `n` source steps take. */
  function Cost(lines: seq<SourceLine>, s: SourceState, n: nat): nat
    decreases n
  {
    if n == 0 || s.at >= |lines| || SourceStep(lines, s).None? then 0
    else EmitCount(lines[s.at].body) + Cost(lines, SourceStep(lines, s).value, n - 1)
  }

  /**
   Whole-program simulation: every source run of `n` steps is matched by the run of the expanded,
   resolved text from the corresponding address. At the end the target is at the address of the
   line the source has reached, and agrees on every register but $at, on HI and LO and on memory.
   */
  lemma {:induction false} Simulation(lines: seq<SourceLine>, s: SourceState, m: Machine, n: nat)
    requires WellFormed(lines) && Related(lines, s, m)
    requires SourceRun(lines, s, n).Some?
    ensures var r := Run(Text(lines), m, Cost(lines, s, n));
      r.Some? && Related(lines, SourceRun(lines, s, n).value, r.value)
    decreases n
  {
    hide Related, SourceStep, EmitCount, Step, Text, WellFormed;
    if n != 0 {
      assert SourceStep(lines, s).Some?;
      SimulateStep(lines, s, m);
      var s' := SourceStep(lines, s).value;
      var k := EmitCount(lines[s.at].body);
      var m' := Run(Text(lines), m, k).value;
      Simulation(lines, s', m', n - 1);
      RunTwice(Text(lines), m, k, Cost(lines, s', n - 1));
    }
  }

  /** The run from the start: both machines begin with the same core, at the first line. */
  lemma SimulationFromStart(lines: seq<SourceLine>, core: Core, n: nat)
    requires WellFormed(lines)
    requires SourceRun(lines, SourceState(core, 0), n).Some?
    ensures var s := SourceState(core, 0);
      var r := Run(Text(lines), Machine(core, TEXT_START_ADDR), Cost(lines, s, n));
      r.Some? && Related(lines, SourceRun(lines, s, n).value, r.value)
  {
    hide SourceRun, Run, Cost, Text, WellFormed;
    assert lines[..0] == [];
    Simulation(lines, SourceState(core, 0), Machine(core, TEXT_START_ADDR), n);
  }
}
