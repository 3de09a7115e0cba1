/**
 The address invariant of the lexer over every listing a run can build: where lines land, what
 addresses they carry, and what addresses labels are given.
 */
module Addresses {
  import opened Words
  import opened Source
  import opened Layout

  /** How many instruction lines a body emits; the count does not depend on the address. */
  function EmitCount(body: Body): nat {
    match body
    case InstrBody(t) => |Emit(t, 0)|
    case _ => 0
  }

  function InstrCount(lines: seq<SourceLine>): nat {
    if lines == [] then 0 else InstrCount(lines[..|lines| - 1]) + EmitCount(lines[|lines| - 1].body)
  }

  /** The listing after the first `k` lines. */
  function Prefix(lines: seq<SourceLine>, k: nat): Listing
    requires k <= |lines|
  {
    PlaceAll(FRESH, lines[..k])
  }

  lemma EmitLength(t: TextInfo, a: int)
    ensures |Emit(t, a)| == EmitCount(InstrBody(t))
  {}

  lemma PrefixStep(lines: seq<SourceLine>, k: nat)
    requires k < |lines|
    ensures Prefix(lines, k + 1) == Place(Prefix(lines, k), lines[k])
    ensures InstrCount(lines[..k + 1]) == InstrCount(lines[..k]) + EmitCount(lines[k].body)
  {
    hide Place;
    assert lines[..k + 1][..k] == lines[..k];
  }

  lemma PlaceText(g: Listing, line: SourceLine)
    ensures var h := Place(g, line);
      h.textAddr == (if line.body.InstrBody? then Bump(g.textAddr, 4 * EmitCount(line.body)) else g.textAddr) &&
      h.text == g.text + (match line.body
        case InstrBody(t) => Emit(t, g.textAddr)
        case BareBody(t) => [t.(addr := g.textAddr)]
        case _ => [])
  {
    hide Emit, Bump, PlaceData, DataEnd;
    if line.body.InstrBody? {
      EmitLength(line.body.ti, g.textAddr);
    }
    assert g.text + [] == g.text;
  }

  /** The text address is the start plus four bytes for every instruction line emitted. */
  lemma {:induction false} TextAddrCounts(lines: seq<SourceLine>, k: nat)
    requires k <= |lines|
    ensures Prefix(lines, k).textAddr == Bump(TEXT_START_ADDR, 4 * InstrCount(lines[..k]))
  {
    if k == 0 {
    } else {
      hide Place, EmitCount;
      TextAddrCounts(lines, k - 1);
      PrefixStep(lines, k - 1);
      PlaceText(Prefix(lines, k - 1), lines[k - 1]);
      BumpBump(TEXT_START_ADDR, 4 * InstrCount(lines[..k - 1]), 4 * EmitCount(lines[k - 1].body));
    }
  }

  /** Every line of an emission carries the text address at its own emission, four bytes after the last. */
  lemma EmitAddrs(t: TextInfo, a: int, j: nat)
    requires j < |Emit(t, a)| && 0 <= a < MODULUS
    ensures Emit(t, a)[j].addr == Bump(a, 4 * j)
  {}

  /** The text only grows, so what a line emitted stays where it was put. */
  lemma {:induction false} PrefixGrows(lines: seq<SourceLine>, k: nat, n: nat)
    requires k <= n <= |lines|
    ensures Prefix(lines, k).text <= Prefix(lines, n).text
    ensures Prefix(lines, k).syms <= Prefix(lines, n).syms
    decreases n
  {
    if k < n {
      hide Prefix, Place;
      PrefixGrows(lines, k, n - 1);
      PrefixStep(lines, n - 1);
      PlaceGrows(Prefix(lines, n - 1), lines[n - 1]);
    }
  }

  lemma PlaceGrows(g: Listing, line: SourceLine)
    ensures g.text <= Place(g, line).text && g.syms <= Place(g, line).syms
  {}

  /** The lines an instruction emitted, found in the finished text. */
  lemma EmittedAt(lines: seq<SourceLine>, k: nat, j: nat)
    requires k < |lines| && lines[k].body.InstrBody? && j < EmitCount(lines[k].body)
    ensures var g, i := Prefix(lines, k), |Prefix(lines, k).text| + j;
      i < |Prefix(lines, |lines|).text| &&
      |Emit(lines[k].body.ti, g.textAddr)| == EmitCount(lines[k].body) &&
      Prefix(lines, |lines|).text[i] == Emit(lines[k].body.ti, g.textAddr)[j] &&
      Prefix(lines, |lines|).text[i].addr == Bump(TEXT_START_ADDR, 4 * (InstrCount(lines[..k]) + j))
  {
    hide PlaceAll, Place, Emit, InstrCount, Bump;
    var g := Prefix(lines, k);
    EmitLength(lines[k].body.ti, g.textAddr);
    PrefixStep(lines, k);
    PlaceText(g, lines[k]);
    PrefixGrows(lines, k + 1, |lines|);
    TextAddrCounts(lines, k);
    EmitAddrs(lines[k].body.ti, g.textAddr, j);
    BumpBump(TEXT_START_ADDR, 4 * InstrCount(lines[..k]), 4 * j);
  }

  // ---- Labels ----

  /** A line as the parser makes it: operations where they belong, pseudo-ops marked. */
  predicate RegularBody(body: Body) {
    match body
    case InstrBody(t) => !t.op.OpNull? && t.pseudo == IsPseudo(t.op)
    case BareBody(t) => t.op.OpNull?
    case _ => true
  }

  predicate Regular(lines: seq<SourceLine>) { forall i :: 0 <= i < |lines| ==> RegularBody(lines[i].body) }

  /** The address of the next instruction at or after index `i`, and `final` when none follows. */
  function NextInstrAddr(text: seq<TextInfo>, i: nat, final: int): int
    requires i <= |text|
    decreases |text| - i
  {
    if i == |text| then final
    else if !text[i].op.OpNull? then text[i].addr
    else NextInstrAddr(text, i + 1, final)
  }

  lemma {:induction false} NextInstrAppend(text: seq<TextInfo>, more: seq<TextInfo>, i: nat, final: int)
    requires i <= |text|
    ensures NextInstrAddr(text + more, i, final) == NextInstrAddr(text, i, NextInstrAddr(more, 0, final))
    decreases |text| - i
  {
    if i == |text| {
      NextInstrShift(text, more, 0, final);
    } else {
      NextInstrAppend(text, more, i + 1, final);
    }
  }

  lemma {:induction false} NextInstrShift(text: seq<TextInfo>, more: seq<TextInfo>, i: nat, final: int)
    requires i <= |more|
    ensures NextInstrAddr(text + more, |text| + i, final) == NextInstrAddr(more, i, final)
    decreases |more| - i
  {
    if i < |more| {
      NextInstrShift(text, more, i + 1, final);
    }
  }

  lemma EmitOps(t: TextInfo, a: int)
    requires !t.op.OpNull? && t.pseudo == IsPseudo(t.op)
    ensures |Emit(t, a)| > 0 && forall j :: 0 <= j < |Emit(t, a)| ==> !Emit(t, a)[j].op.OpNull?
  {}

  /**
   A label recorded in text mode before line `k` has the address of the next instruction the
   finished text holds, and the final text address when no instruction follows.
   */
  lemma {:induction false} LabelPointsToNext(lines: seq<SourceLine>, k: nat, n: nat)
    requires k <= n <= |lines| && Regular(lines)
    ensures |Prefix(lines, k).text| <= |Prefix(lines, n).text|
    ensures Prefix(lines, k).textAddr ==
      NextInstrAddr(Prefix(lines, n).text, |Prefix(lines, k).text|, Prefix(lines, n).textAddr)
    decreases n
  {
    hide PlaceAll, Place, Emit, Bump;
    PrefixGrows(lines, k, n);
    if k < n {
      var i, g, h, line := |Prefix(lines, k).text|, Prefix(lines, n - 1), Prefix(lines, n), lines[n - 1];
      LabelPointsToNext(lines, k, n - 1);
      PrefixGrows(lines, k, n - 1);
      PrefixStep(lines, n - 1);
      PlaceText(g, line);
      assert RegularBody(line.body);
      match line.body {
        case InstrBody(t) =>
          TextAddrCounts(lines, n - 1);
          EmitOps(t, g.textAddr);
          EmitAddrs(t, g.textAddr, 0);
          BumpZero(g.textAddr);
          NextInstrAppend(g.text, Emit(t, g.textAddr), i, h.textAddr);
        case BareBody(t) =>
          NextInstrAppend(g.text, [t.(addr := g.textAddr)], i, h.textAddr);
        case _ =>
          assert g.text + [] == g.text;
      }
    }
  }

  // ---- Symbols ----

  /** The first line that defines a label, searching from line `k`; |lines| when none does. */
  function FindLabel(lines: seq<SourceLine>, name: string, k: nat): (r: nat)
    requires k <= |lines|
    ensures k <= r <= |lines|
    ensures r < |lines| ==> lines[r].labelled && lines[r].name == name
    ensures forall i :: k <= i < r ==> !(lines[i].labelled && lines[i].name == name)
    decreases |lines| - k
  {
    if k == |lines| || (lines[k].labelled && lines[k].name == name) then k else FindLabel(lines, name, k + 1)
  }

  /** The address a label defined at line `k` is given. */
  function LabelAddr(lines: seq<SourceLine>, k: nat): int
    requires k <= |lines|
  {
    var g := Prefix(lines, k);
    if g.mode == TextSegment then g.textAddr else g.dataAddr
  }

  ghost predicate Defines(syms: seq<Symbol>, name: string) { exists i :: 0 <= i < |syms| && syms[i].name == name }

  lemma {:induction false} SymbolsOf(lines: seq<SourceLine>, k: nat, name: string)
    requires k <= |lines|
    ensures Defines(Prefix(lines, k).syms, name) <==> FindLabel(lines, name, 0) < k
    ensures Defines(Prefix(lines, k).syms, name) ==>
      AddrOfSymbol(Prefix(lines, k).syms, name) == LabelAddr(lines, FindLabel(lines, name, 0))
  {
    hide Emit, Bump, PlaceData, DataEnd, AddrOfSymbol;
    if k > 0 {
      SymbolsOf(lines, k - 1, name);
      PrefixStep(lines, k - 1);
      var g, line := Prefix(lines, k - 1), lines[k - 1];
      if line.labelled {
        var s := DefineLabel(g, line.name).syms[|g.syms|];
        AddrOfSymbolAppend(g.syms, s, name);
        DefinesAppend(g.syms, s, name);
      }
    }
  }

  lemma DefinesAppend(syms: seq<Symbol>, s: Symbol, name: string)
    ensures Defines(syms + [s], name) <==> Defines(syms, name) || s.name == name
  {
    if Defines(syms, name) {
      var i :| 0 <= i < |syms| && syms[i].name == name;
      assert (syms + [s])[i].name == name;
    }
    assert (syms + [s])[|syms|] == s;
  }

  /** The symbol table gives every label the address of its first definition, and 0 to the others. */
  lemma SymbolTableIsFirst(lines: seq<SourceLine>, name: string)
    ensures var k := FindLabel(lines, name, 0);
      AddrOfSymbol(PlaceAll(FRESH, lines).syms, name) == if k < |lines| then LabelAddr(lines, k) else 0
  {
    hide AddrOfSymbol, PlaceAll;
    assert lines[..|lines|] == lines;
    SymbolsOf(lines, |lines|, name);
    if !Defines(Prefix(lines, |lines|).syms, name) {
      NoSymbol(Prefix(lines, |lines|).syms, name);
    }
  }

  lemma NoSymbol(syms: seq<Symbol>, name: string)
    requires !Defines(syms, name)
    ensures AddrOfSymbol(syms, name) == 0
  {}

  /** A labelled line records its label once, with the address and the segment of the mode before the line. */
  lemma LabelRecorded(lines: seq<SourceLine>, k: nat)
    requires k < |lines|
    ensures var g, h := Prefix(lines, k), Prefix(lines, k + 1);
      h.syms == if lines[k].labelled then g.syms + [Symbol(lines[k].name, LabelAddr(lines, k), g.mode)] else g.syms
  {
    hide Prefix, PlaceData, DataEnd, Emit, Bump;
    PrefixStep(lines, k);
  }

  /**
   Every line of an expansion keeps the number of its source line. The label stays on the first line of
   a branch and is on no line of the others.
   */
  lemma ExpansionKeeps(t: TextInfo, j: nat)
    requires j < |Expand(t)|
    ensures var l := Expand(t)[j];
      l.lineNum == t.lineNum && !l.pseudo && !l.error &&
      (l.isLabel <==> t.isLabel && j == 0 && !t.op.Mul? && !t.op.La? && !t.op.Li?) &&
      (l.isLabel ==> l.labelName == t.labelName)
  {
    hide Bump, Upper, Lower16;
  }

  /** What each pseudo-op becomes. */
  lemma ExpansionOps(t: TextInfo)
    ensures var es := Expand(t); var n := |es|;
      match t.op
      case Mul => n == 2 && es[0].op.Mult? && es[1].op.Mflo?
      case Bgt | Blt => n == 2 && es[0].op.Slt? && es[1].op.Bne?
      case Bge | Ble => n == 2 && es[0].op.Slt? && es[1].op.Beq?
      case Bgtu => n == 2 && es[0].op.Sltu? && es[1].op.Bne?
      case Beqz => n == 1 && es[0].op.Beq?
      case La => n == 2 && es[0].op.Lui? && es[1].op.Ori?
      case Li => if t.a2.val > 65535 then n == 2 && es[0].op.Lui? && es[1].op.Ori? else n == 1 && es[0].op.Ori?
      case _ => n == 0
  {
    hide Bump, Upper, Lower16;
  }
}
