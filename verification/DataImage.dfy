/**
 From the text of a data segment to the bytes of the program: which segment each line of a printed
 listing is read in, the addresses its labels get, and the bytes its directives assemble to.
 */
module DataImage {
  import opened Words
  import opened Source
  import opened Layout
  import opened Scanner
  import opened PrintedLines
  import opened Addresses
  import opened Assembler
  import opened DataSegments
  import opened DataLines
  import opened Mnemonics
  import opened Listings
  import Simulation
  import Toolchain

  // ---- Assembled segments ----

  /** The bytes of .word, .asciiz and .byte are assembled, then its reserved zeros; those of .half are not. */
  lemma SegmentBytes(d: DataInfo)
    ensures var s, kept := SegmentOf(d), d.directive.DirWord? || d.directive.DirAsciiz? || d.directive.DirByte?;
      if kept || d.directive.DirSpace? then
        var n := if kept then |d.data| else 0;
        s.adr == d.addr && |s.data| == n + d.space && (forall j :: 0 <= j < n ==> s.data[j] == d.data[j]) &&
        forall j :: n <= j < n + d.space ==> s.data[j] == 0
      else s.adr == 0 && s.data == []
  {}

  /** The lines of .byte and .half, and of unknown directives, get the address after their bytes. */
  lemma LateAddress(d: DataInfo, a: int)
    requires d.directive.DirByte? || d.directive.DirHalf? || d.directive.DirNone?
    ensures PlaceData(d, a).addr == (a + |d.data| + d.space) % MODULUS
  {}

  lemma LowByte(n: int)
    ensures ByteVal(Byte0(Word(n))) == n % 0x100
  {
    hide ByteVal, ByteOf;
    ByteRoundTrip(n % 0x100);
  }

  lemma {:induction false} WordByteIs(args: seq<Operand>, j: nat)
    requires AllLiteral(args) && j < |args|
    ensures ByteVal(WordBytes(args)[j]) == args[j].n % 0x100
    decreases j
  {
    hide ByteVal, Word, Byte0;
    if j == 0 {
      LowByte(args[0].n);
    } else {
      WordByteIs(args[1..], j - 1);
    }
  }

  lemma QuotedByteIs(s: string, j: nat)
    requires j < |s|
    ensures ByteVal(QuotedBytes(s)[j]) == s[j] as int % 0x100
  {
    hide ByteVal, Word, Byte0;
    LowByte(s[j] as int);
  }

  // ---- Modes ----

  /** The line selects the data segment: by .data, by a directive that stores data, or by an unknown name. */
  predicate ToData(l: PrintedLine) {
    l.keyword.Command? &&
    var name := Lower(l.keyword.spelling);
    name == ".data" || name == ".word" || name == ".half" || name == ".byte" || name == ".asciiz" || name == ".space" ||
    name == ".align" || UnknownName(name)
  }

  /** The line selects the text segment: by .text, or by being an instruction. */
  predicate ToText(l: PrintedLine) { l.keyword.Mnemonic? || Lower(l.keyword.spelling) == ".text" }

  function StepMode(m: LexMode, l: PrintedLine): LexMode {
    if ToData(l) then DataSegment else if ToText(l) then TextSegment else m
  }

  lemma SpellingIs(d: Directive, spelling: string, e: Directive)
    requires KnownKeyword(Command(d, spelling))
    ensures Lower(spelling) == DirectiveText(e) ==> d == e
    ensures d == e ==> Lower(spelling) == DirectiveText(e) || (e.DAlign? && UnknownName(Lower(spelling)))
    ensures UnknownName(Lower(spelling)) ==> d.DAlign?
  {
    hide DirectiveText, Lower;
    if Lower(spelling) == DirectiveText(e) && Lower(spelling) == DirectiveText(d) {
      SameDirective(d, e);
    }
  }

  lemma DataNames(d: Directive, spelling: string)
    requires KnownKeyword(Command(d, spelling))
    ensures ToData(PrintedLine(Isa.None, Command(d, spelling), [], "")) <==> d.DData? || EntersData(d)
    ensures ToText(PrintedLine(Isa.None, Command(d, spelling), [], "")) <==> d.DText?
  {
    hide Lower, KnownKeyword, UnknownName;
    SpellingIs(d, spelling, DData);
    SpellingIs(d, spelling, DWord);
    SpellingIs(d, spelling, DHalf);
    SpellingIs(d, spelling, DByte);
    SpellingIs(d, spelling, DAsciiz);
    SpellingIs(d, spelling, DSpace);
    SpellingIs(d, spelling, DAlign);
    SpellingIs(d, spelling, DText);
  }

  lemma BodyMode(m: LexMode, l: PrintedLine, n: nat)
    requires WellPrinted(l)
    ensures ModeAfter(m, BodyOf(m, l, n)) == StepMode(m, l)
  {
    hide DataOf, InstrOf, Matches, AllReadable, LabelName, Ends, DirectivePrinted, KnownKeyword, Lower;
    if l.keyword.Command? {
      DataNames(l.keyword.d, l.keyword.spelling);
    }
  }

  lemma {:induction false} LinesCount(ls: seq<PrintedLine>, n: nat, m: LexMode)
    requires AllWellPrinted(ls)
    ensures |LinesFrom(ls, n, m)| == |ls|
  {
    hide WellPrinted, LineOf, Newlines;
    if ls != [] {
      LinesCount(ls[1..], n + Newlines(ls[0].after), ModeAfter(m, LineOf(m, ls[0], n).body));
    }
  }

  /** The segment selected before a line, from a first one on. */
  function ModeFrom(ls: seq<PrintedLine>, m: LexMode, k: nat): LexMode
    requires k <= |ls|
  {
    if k == 0 then m else StepMode(ModeFrom(ls, m, k - 1), ls[k - 1])
  }

  lemma {:induction false} ModeTail(ls: seq<PrintedLine>, m: LexMode, k: nat)
    requires 0 < k <= |ls|
    ensures ModeFrom(ls, m, k) == ModeFrom(ls[1..], StepMode(m, ls[0]), k - 1)
    decreases k
  {
    hide StepMode;
    if k > 1 {
      ModeTail(ls, m, k - 1);
      assert ls[1..][k - 2] == ls[k - 1];
    } else {
      assert ModeFrom(ls, m, 0) == m;
    }
  }

  /** Each line is read in the mode the lines before it leave. */
  lemma {:induction false} LineInMode(ls: seq<PrintedLine>, n: nat, m: LexMode, k: nat) returns (num: nat)
    requires AllWellPrinted(ls) && k < |ls|
    ensures |LinesFrom(ls, n, m)| == |ls| && LinesFrom(ls, n, m)[k] == LineOf(ModeFrom(ls, m, k), ls[k], num)
    decreases |ls|
  {
    hide WellPrinted, LineOf, Newlines, StepMode;
    LinesCount(ls, n, m);
    if k == 0 {
      num := n;
    } else {
      ModeOfLine(m, ls[0], n);
      var rest, after := ls[1..], StepMode(m, ls[0]);
      num := LineInMode(rest, n + Newlines(ls[0].after), after, k - 1);
      ModeTail(ls, m, k);
    }
  }

  lemma ModeOfLine(m: LexMode, l: PrintedLine, n: nat)
    requires WellPrinted(l)
    ensures ModeAfter(m, LineOf(m, l, n).body) == StepMode(m, l)
  {
    hide WellPrinted, BodyOf, StepMode;
    BodyMode(m, l, n);
  }

  lemma PlaceMode(g: Listing, line: SourceLine)
    ensures Place(g, line).mode == ModeAfter(g.mode, line.body)
  {
    hide Bump, PlaceData, DataEnd, Emit;
  }

  /** The lexer's mode before a line of a printed listing. */
  lemma {:induction false} PrefixMode(ls: seq<PrintedLine>, n: nat, k: nat)
    requires AllWellPrinted(ls) && k <= |ls|
    ensures |LinesFrom(ls, n, TextSegment)| == |ls|
    ensures Prefix(LinesFrom(ls, n, TextSegment), k).mode == ModeFrom(ls, TextSegment, k)
    decreases k
  {
    hide WellPrinted, LineOf, StepMode, Place, LinesFrom, PlaceAll;
    LinesCount(ls, n, TextSegment);
    var lines := LinesFrom(ls, n, TextSegment);
    if k > 0 {
      PrefixMode(ls, n, k - 1);
      var num := LineInMode(ls, n, TextSegment, k - 1);
      PrefixStep(lines, k - 1);
      PlaceMode(Prefix(lines, k - 1), lines[k - 1]);
      ModeOfLine(ModeFrom(ls, TextSegment, k - 1), ls[k - 1], num);
    } else {
      StartsInText(lines);
    }
  }

  lemma StartsInText(lines: seq<SourceLine>)
    ensures Prefix(lines, 0).mode == TextSegment
  {
    assert lines[..0] == [];
  }

  /** Some line before the `k`-th selects the data segment, and none between selects the text segment. */
  predicate LastSelectsData(ls: seq<PrintedLine>, k: nat)
    requires k <= |ls|
  {
    exists j :: 0 <= j < k && ToData(ls[j]) && forall i :: j < i < k ==> !ToText(ls[i])
  }

  lemma NotBoth(l: PrintedLine)
    requires WellPrinted(l)
    ensures !(ToData(l) && ToText(l))
  {
    hide Lower, DirectivePrinted, Matches, LabelName, Ends, AllReadable, KnownKeyword;
    if l.keyword.Command? {
      DataNames(l.keyword.d, l.keyword.spelling);
    }
  }

  lemma {:induction false} ModeIsLast(ls: seq<PrintedLine>, k: nat)
    requires AllWellPrinted(ls) && k <= |ls|
    ensures ModeFrom(ls, TextSegment, k) == DataSegment <==> LastSelectsData(ls, k)
    decreases k
  {
    hide WellPrinted, ToData, ToText;
    if k > 0 {
      ModeIsLast(ls, k - 1);
      NotBoth(ls[k - 1]);
      if ToData(ls[k - 1]) {
        assert LastSelectsData(ls, k);
      } else if LastSelectsData(ls, k - 1) && !ToText(ls[k - 1]) {
        var j :| 0 <= j < k - 1 && ToData(ls[j]) && forall i :: j < i < k - 1 ==> !ToText(ls[i]);
        assert forall i :: j < i < k ==> !ToText(ls[i]);
      }
    }
  }

  /** A line is read in data mode exactly when the last line before it that selects a segment selects data. */
  lemma ModeLaw(ls: seq<PrintedLine>, n: nat, k: nat)
    requires AllWellPrinted(ls) && k <= |ls|
    ensures |LinesFrom(ls, n, TextSegment)| == |ls|
    ensures Prefix(LinesFrom(ls, n, TextSegment), k).mode == DataSegment <==> LastSelectsData(ls, k)
  {
    hide WellPrinted, LinesFrom, LastSelectsData, Prefix, ModeFrom;
    PrefixMode(ls, n, k);
    ModeIsLast(ls, k);
  }

  /** A label gets a data address after .data, and a text address otherwise. */
  lemma PrintedLabel(ls: seq<PrintedLine>, n: nat, k: nat)
    requires AllWellPrinted(ls) && k < |ls| && |LinesFrom(ls, n, TextSegment)| == |ls|
    requires FitsData(LinesFrom(ls, n, TextSegment)) && Simulation.FitsMemory(LinesFrom(ls, n, TextSegment))
    ensures var lines := LinesFrom(ls, n, TextSegment);
      LabelAddr(lines, k) ==
        if LastSelectsData(ls, k) then 0x1000_0000 + DataCount(lines[..k]) else 0x0040_0000 + 4 * InstrCount(lines[..k])
  {
    hide WellPrinted, LinesFrom, LastSelectsData, Prefix, InstrCount, DataCount;
    var lines := LinesFrom(ls, n, TextSegment);
    ModeLaw(ls, n, k);
    DataAddrCounts(lines, k);
    Simulation.ExactAddr(lines, k);
  }

  // ---- Bytes ----

  /** What a data line of a listing asks for. */
  predicate Holds(data: seq<bv8>, l: PrintedLine)
    requires WellPrinted(l) && l.keyword.Command?
  {
    match l.keyword.d
    case DWord => |data| == |l.args| && forall j :: 0 <= j < |l.args| ==> ByteVal(data[j]) == l.args[j].n % 0x100
    case DAsciiz =>
      |data| == |l.args[0].s| && forall j :: 0 <= j < |data| ==> ByteVal(data[j]) == l.args[0].s[j] as int % 0x100
    case DSpace => |data| == l.args[0].n && forall j :: 0 <= j < |data| ==> data[j] == 0
    case _ => true
  }

  predicate Stores(d: Directive) { d.DWord? || d.DAsciiz? || d.DSpace? }

  /** The data line of a printed directive. */
  predicate Asks(di: DataInfo, l: PrintedLine)
    requires WellPrinted(l) && l.keyword.Command?
  {
    match l.keyword.d
    case DWord => di.directive.DirWord? && di.data == WordBytes(l.args) && di.space == 0
    case DAsciiz => di.directive.DirAsciiz? && di.data == QuotedBytes(l.args[0].s) && di.space == 0
    case DSpace => di.directive.DirSpace? && di.space == l.args[0].n
    case _ => true
  }

  lemma BodyAsks(m: LexMode, l: PrintedLine, n: nat)
    requires WellPrinted(l) && l.keyword.Command? && Stores(l.keyword.d)
    ensures var b := LineOf(m, l, n).body; b.DataBody? && Asks(b.di, l)
  {
    hide WordBytes, QuotedBytes, KnownKeyword, LabelName, Ends, AllReadable, Lower;
    if l.keyword.d.DWord? {
      assert [] + WordBytes(l.args) == WordBytes(l.args);
    } else if l.keyword.d.DAsciiz? {
      assert [] + QuotedBytes(l.args[0].s) == QuotedBytes(l.args[0].s);
    }
  }

  lemma AsksHolds(di: DataInfo, l: PrintedLine, a: int)
    requires WellPrinted(l) && l.keyword.Command? && Stores(l.keyword.d) && Asks(di, l) && 0 < a < MODULUS
    ensures SegmentOf(PlaceData(di, a)).adr == a && Holds(SegmentOf(PlaceData(di, a)).data, l)
  {
    hide WordBytes, QuotedBytes, KnownKeyword, LabelName, Ends, AllReadable, DataEnd, ByteVal, Zeros, Lower, SegmentOf;
    SegmentBytes(PlaceData(di, a));
    match l.keyword.d {
      case DWord => AllWordBytes(l.args);
      case DAsciiz => AllQuotedBytes(l.args[0].s);
      case _ =>
    }
  }

  lemma BodyHolds(m: LexMode, l: PrintedLine, n: nat, a: int)
    requires WellPrinted(l) && l.keyword.Command? && Stores(l.keyword.d) && 0 < a < MODULUS
    ensures var b := LineOf(m, l, n).body;
      b.DataBody? && SegmentOf(PlaceData(b.di, a)).adr == a && Holds(SegmentOf(PlaceData(b.di, a)).data, l)
  {
    hide WellPrinted, LineOf, Asks, Holds, SegmentOf, PlaceData;
    BodyAsks(m, l, n);
    AsksHolds(LineOf(m, l, n).body.di, l, a);
  }

  lemma AllWordBytes(args: seq<Operand>)
    requires AllLiteral(args)
    ensures |WordBytes(args)| == |args|
    ensures forall j :: 0 <= j < |args| ==> ByteVal(WordBytes(args)[j]) == args[j].n % 0x100
  {
    hide ByteVal;
    forall j | 0 <= j < |args|
      ensures ByteVal(WordBytes(args)[j]) == args[j].n % 0x100
    {
      WordByteIs(args, j);
    }
  }

  lemma AllQuotedBytes(s: string)
    ensures |QuotedBytes(s)| == |s| && forall j :: 0 <= j < |s| ==> ByteVal(QuotedBytes(s)[j]) == s[j] as int % 0x100
  {
    hide ByteVal, Word, Byte0;
    forall j | 0 <= j < |s|
      ensures ByteVal(QuotedBytes(s)[j]) == s[j] as int % 0x100
    {
      QuotedByteIs(s, j);
    }
  }

  /**
   The segment assembled for a .word, .asciiz or .space line of a printed listing stands at the data
   address of the line, which a label on it gets in data mode, and holds what the line says.
   */
  lemma PrintedSegment(ls: seq<PrintedLine>, n: nat, k: nat)
    requires AllWellPrinted(ls) && k < |ls| && ls[k].keyword.Command? && Stores(ls[k].keyword.d)
    requires |LinesFrom(ls, n, TextSegment)| == |ls| && FitsData(LinesFrom(ls, n, TextSegment))
    ensures var lines := LinesFrom(ls, n, TextSegment);
      var segs, i := Segments(Simulation.Image(lines).data), |Prefix(lines, k).data|;
      i < |segs| && segs[i].adr == 0x1000_0000 + DataCount(lines[..k]) && Holds(segs[i].data, ls[k]) &&
      (LastSelectsData(ls, k) ==> LabelAddr(lines, k) == segs[i].adr)
  {
    hide WellPrinted, LinesFrom, LastSelectsData, Prefix, DataCount, Holds, LineOf, PlaceData, Place, SegmentOf,
      PlaceAll;
    var lines := LinesFrom(ls, n, TextSegment);
    var num := LineInMode(ls, n, TextSegment, k);
    var a := Prefix(lines, k).dataAddr;
    DataAddrCounts(lines, k);
    BodyHolds(ModeFrom(ls, TextSegment, k), ls[k], num, a);
    PrefixStep(lines, k);
    PlaceDataLine(Prefix(lines, k), lines[k]);
    DataGrows(lines, k + 1, |lines|);
    Whole(lines);
    ModeLaw(ls, n, k);
  }

  lemma Whole(lines: seq<SourceLine>)
    ensures Prefix(lines, |lines|) == Simulation.Image(lines)
  {
    assert lines[..|lines|] == lines;
  }

  /** From the text: the program compiled from a printed listing holds those segments. */
  lemma TextToSegment(lead: string, ls: seq<PrintedLine>, k: nat)
    requires AllWellPrinted(ls) && Filler(lead, false) && k < |ls| && ls[k].keyword.Command? && Stores(ls[k].keyword.d)
    requires FitsData(LinesFrom(ls, FirstLine(lead), TextSegment))
    ensures var r := Toolchain.LinesOf(lead + ListingText(ls));
      r.Success? && |r.value| == |ls| &&
      var segs, i := Segments(Simulation.Image(r.value).data), |Prefix(r.value, k).data|;
      i < |segs| && segs[i].adr == 0x1000_0000 + DataCount(r.value[..k]) && Holds(segs[i].data, ls[k])
  {
    hide WellPrinted, LinesFrom, LastSelectsData, Prefix, DataCount, Holds, Simulation.Image, LexLines, ListingText,
      Filler,
      Segments, FitsData, FirstLine;
    LinesCount(ls, FirstLine(lead), TextSegment);
    ListingRoundTrip(lead, ls, TextSegment);
    PrintedSegment(ls, FirstLine(lead), k);
  }
}
