/**
 What the lexer does with a parsed line: pseudo-op expansion, address assignment, the symbol
 table, and label resolution, as functions on the whole listing. The methods of the class
 Lexer are proved against these functions; the lemmas about them are in the modules Addresses,
 DataSegments and Simulation.
 */
module Layout {
  import opened Words
  import opened Source

  const TEXT_START_ADDR := 0x0040_0000
  const DATA_START_ADDR := 0x1000_0000

  /** What follows the optional label of a source line. */
  datatype Body =
    | InstrBody(ti: TextInfo)
    | DataBody(di: DataInfo, toData: bool)
    | SegmentBody(mode: LexMode)
    | BareBody(ti: TextInfo)

  datatype SourceLine = SourceLine(labelled: bool, name: string, body: Body)

  // Arithmetic on unsigned int, and the conversion from it to int.
  function Bump(a: int, n: int): (r: int)
    ensures 0 <= r < MODULUS
  {
    (a + n) % MODULUS
  }

  lemma BumpBump(a: int, m: int, n: int)
    ensures Bump(Bump(a, m), n) == Bump(a, m + n)
  {}

  lemma BumpZero(a: int)
    requires 0 <= a < MODULUS
    ensures Bump(a, 0) == a
  {}

  lemma BumpExact(a: int, n: int)
    requires 0 <= a + n < MODULUS
    ensures Bump(a, n) == a + n
  {}

  function ToInt(a: int): int { (a + 0x8000_0000) % MODULUS - 0x8000_0000 }

  function Upper(v: int): int { v % MODULUS / 0x1_0000 }

  function Lower16(v: int): int { v % 0x1_0000 }

  // ---- Pseudo-op expansion ----

  predicate IsPseudo(op: Op) {
    op.Mul? || op.Bgt? || op.Blt? || op.Bge? || op.Ble? || op.Bgtu? || op.Beqz? || op.La? || op.Li?
  }

  function Reg(r: int): Argument { Arg(SymRegister, r) }

  function FirstOf(t: TextInfo, op: Op): TextInfo { BLANK_TEXT.(op := op, addr := t.addr, lineNum := t.lineNum) }

  function SecondOf(t: TextInfo, op: Op): TextInfo { FirstOf(t, op).(addr := Bump(t.addr, 4)) }

  // slt or sltu into $at
  function CompareLine(t: TextInfo): TextInfo {
    var slt := FirstOf(t, if t.op.Bgtu? then Sltu else Slt).(
      a0 := Reg(REG_AT), labelName := t.labelName, isLabel := t.isLabel);
    if t.op.Blt? || t.op.Bge? then slt.(a1 := t.a0, a2 := t.a1) else slt.(a1 := t.a1, a2 := t.a0)
  }

  // bne or beq on $at
  function DecisionLine(t: TextInfo): TextInfo {
    SecondOf(t, if t.op.Bge? || t.op.Ble? then Beq else Bne).(
      a0 := Reg(REG_AT), a1 := Reg(REG_ZERO), a2 := t.a2, isImm := true, symbolName := t.symbolName,
      isSymbol := t.isSymbol)
  }

  // lui of the upper half, then ori of the lower half; resolution replaces both when they name a symbol.
  function HalvesPair(t: TextInfo, isSymbol: bool, symbolName: string): (r: seq<TextInfo>)
    ensures |r| == 2
  {
    [FirstOf(t, Lui).(a0 := t.a0, a2 := Arg(t.a2.ty, Upper(t.a2.val)), isImm := true, upper := true,
                      isSymbol := isSymbol, symbolName := symbolName),
     SecondOf(t, Ori).(a0 := t.a0, a1 := t.a0, a2 := Arg(t.a2.ty, Lower16(t.a2.val)), isImm := true, lower := true,
                       isSymbol := isSymbol, symbolName := symbolName)]
  }

  /** The real instructions that replace a pseudo-op; none for an operation that is not one. */
  function Expand(t: TextInfo): seq<TextInfo> {
    match t.op
    case Mul =>
      [FirstOf(t, Mult).(a0 := t.a1, a1 := t.a2),
       SecondOf(t, Mflo).(a0 := t.a0)]
    case Bgt | Blt | Bge | Ble | Bgtu => [CompareLine(t), DecisionLine(t)]
    case Beqz =>
      [FirstOf(t, Beq).(a0 := t.a0, a1 := Reg(REG_ZERO), a2 := t.a2, labelName := t.labelName, isLabel := t.isLabel,
                        symbolName := t.symbolName, isSymbol := t.isSymbol, isImm := true)]
    case La => HalvesPair(t, t.isSymbol, t.symbolName)
    case Li =>
      if t.a2.val > 0xFFFF then HalvesPair(t, false, "")
      else [FirstOf(t, Ori).(a0 := t.a0, a1 := Reg(REG_ZERO), a2 := Arg(SymLiteral, Lower16(t.a2.val)), isImm := true)]
    case _ => []
  }

  /** The lines an instruction emits at an address. */
  function Emit(t: TextInfo, addr: int): seq<TextInfo> {
    if t.pseudo then Expand(t.(addr := addr)) else [t.(addr := addr)]
  }

  // ---- Placing lines ----

  /** The lexer's output so far and its address counters. */
  datatype Listing = Listing(
    text: seq<TextInfo>, data: seq<DataInfo>, syms: seq<Symbol>,
    textAddr: int, dataAddr: int, mode: LexMode)

  function ModeAfter(mode: LexMode, body: Body): LexMode {
    match body
    case InstrBody(_) => TextSegment
    case DataBody(_, toData) => if toData then DataSegment else mode
    case SegmentBody(m) => m
    case BareBody(_) => mode
  }

  function DefineLabel(g: Listing, name: string): Listing {
    g.(syms := g.syms + [Symbol(name, if g.mode == TextSegment then g.textAddr else g.dataAddr, g.mode)])
  }

  // .word, .asciiz and .space record their address before they read their operands.
  predicate AddressedFirst(d: DirectiveType) { d == DirWord || d == DirAsciiz || d == DirSpace }

  function DataEnd(di: DataInfo, dataAddr: int): int { Bump(dataAddr, |di.data| + di.space) }

  function PlaceData(di: DataInfo, dataAddr: int): DataInfo {
    var start := if AddressedFirst(di.directive) then dataAddr else 0;
    di.(addr := if start == 0 then DataEnd(di, dataAddr) else start)
  }

  function PlaceBody(g: Listing, body: Body): Listing {
    var h := g.(mode := ModeAfter(g.mode, body));
    match body
    case InstrBody(t) =>
      var es := Emit(t, g.textAddr);
      h.(text := g.text + es, textAddr := Bump(g.textAddr, 4 * |es|))
    case DataBody(di, _) =>
      h.(data := g.data + [PlaceData(di, g.dataAddr)], dataAddr := DataEnd(di, g.dataAddr))
    case SegmentBody(_) => h
    case BareBody(t) => h.(text := g.text + [t.(addr := g.textAddr)])
  }

  function Place(g: Listing, line: SourceLine): Listing {
    PlaceBody(if line.labelled then DefineLabel(g, line.name) else g, line.body)
  }

  function PlaceAll(g: Listing, lines: seq<SourceLine>): Listing {
    if lines == [] then g else Place(PlaceAll(g, lines[..|lines| - 1]), lines[|lines| - 1])
  }

  /** The listing a fresh lexer starts from. */
  const FRESH := Listing([], [], [], TEXT_START_ADDR, DATA_START_ADDR, TextSegment)

  // ---- Label resolution ----

  // The arguments of a line that names a symbol, with the address of that symbol put in.
  function PatchA0(l: TextInfo, a: int): Argument {
    if l.op.J? || l.op.Jal? then l.a0.(ty := SymLiteral, val := ToInt(a)) else l.a0
  }

  function PatchA1(l: TextInfo): Argument { if l.op.Lui? then NO_ARG else l.a1 }

  function PatchA2(l: TextInfo, a: int): Argument {
    if l.op.J? || l.op.Jal? then l.a2
    else if l.op.Lui? then Arg(SymLiteral, if l.upper then Upper(a) else Lower16(a))
    else if l.op.Ori? then l.a2.(ty := SymLiteral, val := if l.lower then Lower16(a) else Upper(a))
    else if l.op.Bne? || l.op.Beq? then l.a2.(ty := SymLiteral, val := Lower16(Bump(a, -l.addr)))
    else l.a2.(ty := SymLiteral, val := ToInt(a))
  }

  function Patch(l: TextInfo, a: int): TextInfo { l.(a0 := PatchA0(l, a), a1 := PatchA1(l), a2 := PatchA2(l, a)) }

  function Resolve(l: TextInfo, syms: seq<Symbol>): TextInfo {
    var a := AddrOfSymbol(syms, l.symbolName);
    if !l.isSymbol || a <= 0 then l else Patch(l, a)
  }

  function ResolveAll(text: seq<TextInfo>, syms: seq<Symbol>): (r: seq<TextInfo>)
    ensures |r| == |text| && forall i :: 0 <= i < |text| ==> r[i] == Resolve(text[i], syms)
  {
    seq(|text|, i requires 0 <= i < |text| => Resolve(text[i], syms))
  }
}
