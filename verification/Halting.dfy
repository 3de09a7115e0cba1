/**
 Programs and their expansions stop together: a source line without a next state other than a
 jr emits instructions without one, and past the last line there is nothing to fetch.
 */
module Halting {
  import opened Words
  import opened Source
  import opened Layout
  import opened Isa
  import opened Addresses
  import opened PseudoOps
  import opened Simulation

  // ---- Past the end ----

  lemma {:induction false} FetchNothing(text: seq<TextInfo>, pc: int)
    requires forall i :: 0 <= i < |text| ==> text[i].op.OpNull? || text[i].addr != pc
    ensures Fetch(text, pc) == None
  {
    if text != [] {
      FetchNothing(text[1..], pc);
    }
  }

  /** No instruction has the address after the last line. */
  lemma EndStuck(lines: seq<SourceLine>, core: Core)
    requires Regular(lines) && FitsMemory(lines)
    ensures Step(Text(lines), Machine(core, AddrAt(lines, |lines|))) == None
  {
    hide PlaceAll, Place, InstrCount, Bump, Resolve, Fetch, Regular, FitsMemory, AddrAt;
    assert lines[..|lines|] == lines;
    forall i | 0 <= i < |Text(lines)|
      ensures Text(lines)[i].op.OpNull? || Text(lines)[i].addr != AddrAt(lines, |lines|)
    {
      ResolveKeeps(Image(lines).text[i], Image(lines).syms);
      if !Image(lines).text[i].op.OpNull? {
        EarlierAddrs(lines, |lines|, i);
      }
    }
    FetchNothing(Text(lines), AddrAt(lines, |lines|));
  }

  // ---- Division by zero ----

  /** The operation divides by a register that holds zero. */
  predicate DividesByZero(t: TextInfo, regs: RegFile) { (t.op.Div? || t.op.Divu?) && Read(regs, t.a1) == 0 }

  lemma ExecStuck(t: TextInfo, c: Core)
    requires IsPlain(t.op)
    ensures Exec(t, c).None? <==> DividesByZero(t, c.regs)
  {
    hide Read, Apply, Word, AluReg, AluImm, HiLo, LoadWord, StoreWord, Effective;
  }

  predicate Stuck(lines: seq<SourceLine>, s: SourceState) {
    s.at >= |lines| || (lines[s.at].body.InstrBody? && DividesByZero(lines[s.at].body.ti, s.core.regs))
  }

  predicate AtJr(lines: seq<SourceLine>, s: SourceState) {
    s.at < |lines| && lines[s.at].body.InstrBody? && lines[s.at].body.ti.op.Jr?
  }

  lemma NotPlainSteps(lines: seq<SourceLine>, s: SourceState)
    requires WellFormed(lines) && s.at < |lines| && lines[s.at].body.InstrBody? && !AtJr(lines, s)
    requires !IsPlain(lines[s.at].body.ti.op)
    ensures SourceStep(lines, s).Some? && !lines[s.at].body.ti.op.Div? && !lines[s.at].body.ti.op.Divu?
  {
    hide AvoidsAt, TextTarget, Near, Regular, FitsMemory, Exec, Read, Write, Word, Val, Taken, LineOf, LaValue, HiLo,
      AddrAt, Target;
    assert Supported(lines, s.at, lines[s.at].body.ti);
  }

  /**
   At a line other than a jr, the source has no next state exactly when it divides by zero or has run past its
   last line.
   */
  lemma SourceStuck(lines: seq<SourceLine>, s: SourceState)
    requires WellFormed(lines) && !AtJr(lines, s)
    ensures SourceStep(lines, s).None? <==> Stuck(lines, s)
  {
    hide Exec, WellFormed, SourceInstr, IsPlain, Read;
    if s.at < |lines| && lines[s.at].body.InstrBody? {
      var t := lines[s.at].body.ti;
      if IsPlain(t.op) {
        PlainIsPlain(lines, s);
        ExecStuck(t, s.core);
      } else {
        NotPlainSteps(lines, s);
      }
    }
  }

  // ---- The expansion stops with the source ----

  lemma PlainStuck(lines: seq<SourceLine>, s: SourceState, m: Machine)
    requires WellFormed(lines) && Related(lines, s, m) && s.at < |lines| && lines[s.at].body.InstrBody?
    requires IsPlain(lines[s.at].body.ti.op) && SourceStep(lines, s).None?
    ensures Step(Text(lines), m) == None
  {
    hide ExecOp, Step, StepLine, Bump, AddrAt, Text, Image, AvoidsAt, Regular, FitsMemory;
    var k := s.at;
    var t, a := lines[k].body.ti, AddrAt(lines, k);
    PlainIsPlain(lines, s);
    var l := t.(addr := a);
    StepEmitted(lines, k, 0, m.core);
    assert Exec(l, m.core) == Exec(t, m.core);
    ExecAgrees(t, s.core, m.core);
    StepStuck(l, m);
  }

  lemma StepStuck(l: TextInfo, m: Machine)
    requires IsPlain(l.op) && Exec(l, m.core) == None
    ensures StepLine(l, m) == None
  {}

  /** A source without a next state is matched by a machine without one. */
  lemma StuckTogether(lines: seq<SourceLine>, s: SourceState, m: Machine)
    requires WellFormed(lines) && Related(lines, s, m) && !AtJr(lines, s) && SourceStep(lines, s).None?
    ensures Step(Text(lines), m) == None
  {
    hide Step, SourceInstr, AddrAt, Text, Agree;
    if s.at >= |lines| {
      EndStuck(lines, m.core);
    } else {
      SourceStuck(lines, s);
      assert IsPlain(lines[s.at].body.ti.op);
      PlainStuck(lines, s, m);
    }
  }

  /** A jr always goes on, whether or not the address it goes to is a line's. */
  lemma JrGoesOn(lines: seq<SourceLine>, s: SourceState, m: Machine)
    requires WellFormed(lines) && Related(lines, s, m) && AtJr(lines, s)
    ensures Run(Text(lines), m, EmitCount(lines[s.at].body)) ==
      Some(m.(pc := Val(Read(s.core.regs, lines[s.at].body.ti.a0))))
  {
    hide Step, StepLine, AddrAt, Text, Image, Run, Regular, FitsMemory, Emit, EmitCount, Read, Val, Resolve, Ix;
    var t, a := lines[s.at].body.ti, AddrAt(lines, s.at);
    JumpLine(lines, s.at);
    StepEmitted(lines, s.at, 0, m.core);
    ResolveJr(t.(addr := a), Image(lines).syms);
    StepJump(Resolve(t.(addr := a), Image(lines).syms), m);
    RunOne(Text(lines), m);
    ReadAgrees(s.core.regs, m.core.regs, t.a0);
  }

  lemma StuckEmits(lines: seq<SourceLine>, s: SourceState)
    requires WellFormed(lines) && s.at < |lines| && !AtJr(lines, s) && SourceStep(lines, s).None?
    ensures EmitCount(lines[s.at].body) == 1
  {
    hide WellFormed, SourceInstr;
    SourceStuck(lines, s);
    PlainIsPlain(lines, s);
  }

  /** One step: the instructions of a line have a run exactly when the line has a next state or is a jr. */
  lemma StepExact(lines: seq<SourceLine>, s: SourceState, m: Machine)
    requires WellFormed(lines) && Related(lines, s, m) && s.at < |lines|
    ensures Run(Text(lines), m, EmitCount(lines[s.at].body)).Some? <==> SourceStep(lines, s).Some? || AtJr(lines, s)
  {
    hide Step, SourceInstr, Text, Related, WellFormed, AtJr, EmitCount;
    if AtJr(lines, s) {
      JrGoesOn(lines, s, m);
    } else if SourceStep(lines, s).Some? {
      SimulateStep(lines, s, m);
    } else {
      StuckTogether(lines, s, m);
      StuckEmits(lines, s);
    }
  }

  // ---- Whole runs ----

  predicate NoJr(lines: seq<SourceLine>) {
    forall k :: 0 <= k < |lines| && lines[k].body.InstrBody? ==> !lines[k].body.ti.op.Jr?
  }

  /**
   A source without jr that cannot run `n` steps stops where its expansion stops: after the
   instructions of the steps it did take, the machine has no next state.
   */
  lemma {:induction false} StopTogether(lines: seq<SourceLine>, s: SourceState, m: Machine, n: nat)
    requires WellFormed(lines) && NoJr(lines) && Related(lines, s, m)
    ensures var r := Run(Text(lines), m, Cost(lines, s, n));
      r.Some? && (SourceRun(lines, s, n).None? ==> Step(Text(lines), r.value) == None)
    decreases n
  {
    hide Related, SourceStep, EmitCount, Step, Text, WellFormed;
    if n != 0 {
      if SourceStep(lines, s).None? {
        StuckTogether(lines, s, m);
      } else {
        SimulateStep(lines, s, m);
        var s' := SourceStep(lines, s).value;
        var k := EmitCount(lines[s.at].body);
        var m' := Run(Text(lines), m, k).value;
        StopTogether(lines, s', m', n - 1);
        RunTwice(Text(lines), m, k, Cost(lines, s', n - 1));
      }
    }
  }
}
