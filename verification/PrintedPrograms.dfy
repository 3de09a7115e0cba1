/**
 Printed listings through the whole tool: which of them are in error, and that all others compile.
 */
module PrintedPrograms {
  import opened Source
  import opened Layout
  import opened Scanner
  import opened Addresses
  import opened PrintedLines
  import opened Listings
  import opened DataImage
  import Assembler
  import Mnemonics
  import Simulation
  import Toolchain

  /** An instruction the lexer knows by name but cannot parse. */
  predicate InError(l: PrintedLine) { l.keyword.Mnemonic? && MarkedError(l.keyword.op) }

  /** The operation and the two marks that matter. */
  predicate SameMarks(t: TextInfo, u: TextInfo) { t.op == u.op && t.pseudo == u.pseudo && t.error == u.error }

  lemma NamedKeeps(t: TextInfo, o: Operand)
    ensures SameMarks(Named(t, o), t)
  {
    hide Lower;
  }

  lemma RegistersKeep(ti: TextInfo, shape: Shape, args: seq<Operand>)
    requires Matches(shape, args) && (shape == NoOperands || shape == ShapeR || shape == ShapeRRR)
    ensures SameMarks(Filled(ti, shape, args), ti)
  {
    hide Named, ArgOf, OffsetOf, IsImmediate;
  }

  lemma PairKeeps(ti: TextInfo, args: seq<Operand>)
    requires Matches(ShapeRR, args)
    ensures SameMarks(Filled(ti, ShapeRR, args), ti)
  {
    hide Named, ArgOf, OffsetOf, IsImmediate;
    var t := ti.(a0 := ArgOf(args[0]), a1 := ArgOf(args[1]));
    assert SameMarks(t, ti);
  }

  lemma OffsetKeeps(ti: TextInfo, args: seq<Operand>)
    requires Matches(ShapeRRO, args)
    ensures SameMarks(Filled(ti, ShapeRRO, args), ti)
  {
    hide Named, ArgOf, OffsetOf, IsImmediate;
  }

  lemma ImmediateKeeps(ti: TextInfo, shape: Shape, args: seq<Operand>)
    requires Matches(shape, args) && (shape == ShapeI || shape == ShapeRI)
    ensures SameMarks(Filled(ti, shape, args), ti)
  {
    hide Named, ArgOf, OffsetOf, IsImmediate;
    if shape == ShapeI {
      NamedKeeps(ti.(a0 := ArgOf(args[0]), isSymbol := false), args[0]);
    } else {
      NamedKeeps(ti.(a0 := ArgOf(args[0]), a1 := NO_ARG, a2 := ArgOf(args[1])), args[1]);
    }
  }

  lemma ThirdKeeps(ti: TextInfo, args: seq<Operand>)
    requires Matches(ShapeRRI, args)
    ensures SameMarks(Filled(ti, ShapeRRI, args), ti)
  {
    hide Named, ArgOf, OffsetOf, IsImmediate;
    if |args| == 3 {
      NamedKeeps(ti.(a0 := ArgOf(args[0]), a1 := ArgOf(args[1])).(a2 := ArgOf(args[2])), args[2]);
    }
  }

  lemma FilledKeeps(ti: TextInfo, shape: Shape, args: seq<Operand>)
    requires Matches(shape, args)
    ensures SameMarks(Filled(ti, shape, args), ti)
  {
    hide Filled, SameMarks;
    match shape {
      case ShapeI => ImmediateKeeps(ti, shape, args);
      case ShapeRI => ImmediateKeeps(ti, shape, args);
      case ShapeRRI => ThirdKeeps(ti, args);
      case ShapeRR => PairKeeps(ti, args);
      case ShapeRRO => OffsetKeeps(ti, args);
      case _ => RegistersKeep(ti, shape, args);
    }
  }

  /** A printed instruction has its operation and its marks, and is in error only if it cannot be parsed. */
  lemma PrintedBody(m: LexMode, l: PrintedLine, n: nat)
    requires WellPrinted(l)
    ensures var b := BodyOf(m, l, n);
      !b.BareBody? && (b.InstrBody? <==> l.keyword.Mnemonic?) &&
      (b.InstrBody? ==> b.ti.op == l.keyword.op && b.ti.pseudo == MarkedPseudo(b.ti.op) && (b.ti.error <==> InError(l)))
  {
    hide Matches, Filled, AllReadable, LabelName, Ends, DataOf, MarkedPseudo, MarkedError, PatternOf, MarkedImmediate,
      KnownKeyword, Lower;
    if l.keyword.Mnemonic? {
      FilledKeeps(MarksOf(TextBase(m, l), l.keyword.op), PatternOf(l.keyword.op), l.args);
    }
  }

  lemma PrintedRegular(ls: seq<PrintedLine>, n: nat)
    requires AllWellPrinted(ls)
    ensures Regular(LinesFrom(ls, n, TextSegment)) && |LinesFrom(ls, n, TextSegment)| == |ls|
  {
    hide WellPrinted, LinesFrom, RegularBody, LineOf, ModeFrom;
    LinesCount(ls, n, TextSegment);
    var lines := LinesFrom(ls, n, TextSegment);
    forall k | 0 <= k < |lines|
      ensures RegularBody(lines[k].body)
    {
      var num := LineInMode(ls, n, TextSegment, k);
      RegularLine(ModeFrom(ls, TextSegment, k), ls[k], num);
    }
  }

  lemma RegularLine(m: LexMode, l: PrintedLine, n: nat)
    requires WellPrinted(l)
    ensures RegularBody(LineOf(m, l, n).body)
  {
    hide BodyOf, Matches, AllReadable, LabelName, Ends, MarkedPseudo, IsPseudo, DirectivePrinted, Mnemonics.HasMnemonic;
    PrintedBody(m, l, n);
    if l.keyword.Mnemonic? {
      PseudoMarks(l.keyword.op);
      NullHasNone();
    }
  }

  lemma EmittedError(t: TextInfo, a: int, l: TextInfo)
    requires l in Emit(t, a) && !t.error
    ensures !l.error
  {
    hide Expand;
    if t.pseudo {
      var j :| 0 <= j < |Expand(t.(addr := a))| && Expand(t.(addr := a))[j] == l;
      ExpansionKeeps(t.(addr := a), j);
    }
  }

  lemma ResolveKeepsError(l: TextInfo, syms: seq<Symbol>)
    ensures Resolve(l, syms).error == l.error
  {}

  lemma ErrorIsPlain(op: Op)
    requires MarkedError(op)
    ensures !MarkedPseudo(op)
  {}

  /** No entry of the text of a listing without such instructions is in error. */
  lemma NoErrors(ls: seq<PrintedLine>, n: nat, i: nat)
    requires AllWellPrinted(ls) && (forall k :: 0 <= k < |ls| ==> !InError(ls[k]))
    requires i < |Simulation.Text(LinesFrom(ls, n, TextSegment))|
    ensures !Simulation.Text(LinesFrom(ls, n, TextSegment))[i].error
  {
    hide WellPrinted, LinesFrom, Regular, BodyOf, ModeFrom, Resolve, PlaceAll, Emit, InError;
    PrintedRegular(ls, n);
    var lines := LinesFrom(ls, n, TextSegment);
    assert lines[..|lines|] == lines;
    var k := Toolchain.EntryOfLine(lines, |lines|, i);
    var num := LineInMode(ls, n, TextSegment, k);
    var l := Simulation.Image(lines).text[i];
    PrintedBody(ModeFrom(ls, TextSegment, k), ls[k], num);
    EmittedError(lines[k].body.ti, Simulation.AddrAt(lines, k), l);
    ResolveKeepsError(l, Simulation.Image(lines).syms);
  }

  /** Where such an instruction stands in the text. */
  lemma ErrorFound(ls: seq<PrintedLine>, n: nat, k: nat)
    requires AllWellPrinted(ls) && k < |ls| && InError(ls[k])
    ensures Toolchain.AnyError(Simulation.Text(LinesFrom(ls, n, TextSegment)))
  {
    hide WellPrinted, LinesFrom, Regular, BodyOf, ModeFrom, Resolve, PlaceAll, MarkedError, MarkedPseudo;
    PrintedRegular(ls, n);
    var lines := LinesFrom(ls, n, TextSegment);
    assert lines[..|lines|] == lines;
    var num := LineInMode(ls, n, TextSegment, k);
    PrintedBody(ModeFrom(ls, TextSegment, k), ls[k], num);
    ErrorIsPlain(ls[k].keyword.op);
    var t, i := lines[k].body.ti, |Prefix(lines, k).text|;
    EmittedAt(lines, k, 0);
    ResolveKeepsError(Simulation.Image(lines).text[i], Simulation.Image(lines).syms);
    assert Simulation.Text(lines)[i].error;
  }

  /**
   The text of a printed listing lexes, and the tool assembles it exactly when it has no instruction
   that the lexer cannot parse.
   */
  lemma PrintedCompiles(lead: string, ls: seq<PrintedLine>)
    requires AllWellPrinted(ls) && Filler(lead, false)
    ensures var r := Toolchain.LinesOf(lead + ListingText(ls));
      r.Success? && |r.value| == |ls| &&
      (Toolchain.AnyError(Simulation.Text(r.value)) <==> exists k :: 0 <= k < |ls| && InError(ls[k]))
  {
    hide WellPrinted, LinesFrom, Simulation.Text, LexLines, ListingText, Filler, InError, FirstLine;
    var n := FirstLine(lead);
    ListingRoundTrip(lead, ls, TextSegment);
    LinesCount(ls, n, TextSegment);
    if k :| 0 <= k < |ls| && InError(ls[k]) {
      ErrorFound(ls, n, k);
    } else {
      forall i | 0 <= i < |Simulation.Text(LinesFrom(ls, n, TextSegment))|
        ensures !Simulation.Text(LinesFrom(ls, n, TextSegment))[i].error
      {
        NoErrors(ls, n, i);
      }
    }
  }
}
