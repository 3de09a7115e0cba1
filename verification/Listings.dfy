/**
 Lexing a printed listing gives the listing back: labelled or unlabelled instructions and
 directives with their operands, with blanks, comments and empty lines between them, over every
 line and number of lines.
 */
module Listings {
  import opened Words
  import opened Source
  import opened Layout
  import opened Isa
  import opened Scanner
  import opened PrintedLines
  import opened DataLines
  import opened Mnemonics
  import Termination

  // ---- The printer ----

  /** Blanks, newlines and comments, each comment up to its newline. */
  predicate Filler(f: string, inComment: bool) {
    if f == "" then !inComment
    else if inComment then Filler(f[1..], f[0] != '\n')
    else (IsSpace(f[0]) && Filler(f[1..], false)) || (IsComment(f[0]) && Filler(f[1..], true))
  }

  function Newlines(f: string): nat { if f == "" then 0 else (if f[0] == '\n' then 1 else 0) + Newlines(f[1..]) }

  /** An operation, or a directive as it is spelled, in upper or lower case. */
  datatype Keyword = Mnemonic(op: Op) | Command(d: Directive, spelling: string)

  function KeywordText(k: Keyword): string {
    match k
    case Mnemonic(op) => MnemonicText(op)
    case Command(_, spelling) => spelling
  }

  /** A line is an optional label, a keyword, operands, and what stands before the next line. */
  datatype PrintedLine = PrintedLine(name: Option<string>, keyword: Keyword, args: seq<Operand>, after: string)

  /** What may stand after a line: the last token ends at a space, a newline or a comment. */
  predicate Ends(f: string) { f != "" && (f[0] == ' ' || f[0] == '\n' || IsComment(f[0])) && Filler(f, false) }

  /** The next thing that is not white space is a comment of the kind the scanner skips. */
  predicate CommentNext(f: string) { f != "" && if IsSpace(f[0]) then CommentNext(f[1..]) else f[0] == '#' }

  /** What may stand after a list of literals: nothing else is kept from being read into the list. */
  predicate EndsList(f: string) { f != "" && (f[0] == '\n' || f[0] == '#' || (f[0] == ' ' && CommentNext(f[1..]))) }

  /** The operands of a directive; .byte has none that can be read without an error. */
  predicate MatchesDirective(d: Directive, args: seq<Operand>) {
    match d
    case DWord | DHalf => args != [] && AllLiteral(args)
    case DSpace => |args| == 1 && args[0].Literal?
    case DAsciiz => |args| == 1 && args[0].Quoted?
    case DByte => false
    case _ => args == []
  }

  /** An operation with a mnemonic, or a directive by its name; any other dotted name is taken for .align. */
  predicate KnownKeyword(k: Keyword) {
    match k
    case Mnemonic(op) => HasMnemonic(op)
    case Command(d, spelling) =>
      OrdinaryText(spelling) && spelling[0] == '.' &&
      (Lower(spelling) == DirectiveText(d) || (d.DAlign? && UnknownName(Lower(spelling))))
  }

  /** The operands an operation is written with. */
  function PatternOf(op: Op): Shape {
    match op
    case Jr | Jalr | Mfhi | Mflo | Mthi | Mtlo => ShapeR
    case J | Jal => ShapeI
    case Mult | Multu | Div | Divu => ShapeRR
    case Lui | Li | La | Beqz | Bgtz | Blez => ShapeRI
    case Lw | Sw => ShapeRRO
    case Addi | Addiu | Andi | Ori | Xori | Slti | Sltiu | Sll => ShapeRRI
    case Beq | Bne | Bgt | Blt | Bge | Ble | Bgtu => ShapeRRI
    case Add | And | Or | Nor | Xor | Slt | Sltu | Mul | Sub | Subu => ShapeRRR
    case Addu | Sllv | Srl | Srv | Lb | Lbu | Lh | Lhu | Sb | Sh | Syscall | OpNull => NoOperands
  }

  predicate TakesList(d: Directive) { d.DWord? || d.DHalf? }

  predicate WellPrinted(l: PrintedLine) {
    (l.name.Some? ==> LabelName(l.name.value)) && KnownKeyword(l.keyword) && AllReadable(l.args) && Ends(l.after) &&
      match l.keyword
      case Mnemonic(op) => Matches(PatternOf(op), l.args)
      case Command(d, _) => DirectivePrinted(d, l.args, l.after)
  }

  predicate DirectivePrinted(d: Directive, args: seq<Operand>, after: string) {
    MatchesDirective(d, args) && (TakesList(d) ==> EndsList(after))
  }

  function LabelText(name: Option<string>): string { if name.Some? then name.value + ": " else "" }

  function Spelled(l: PrintedLine): string { KeywordText(l.keyword) }

  function LineText(l: PrintedLine): string
    requires WellPrinted(l)
  {
    LabelText(l.name) + (Spelled(l) + ArgsText(l.args))
  }

  // ---- What a line means ----

  function LabelOf(l: PrintedLine): string { if l.name.Some? then Lower(l.name.value) else "" }

  /** The label stands on the text line or on the data line, as the mode is before the line. */
  function TextBase(mode: LexMode, l: PrintedLine): TextInfo {
    if mode == TextSegment then BLANK_TEXT.(isLabel := l.name.Some?, labelName := LabelOf(l)) else BLANK_TEXT
  }

  function DataBase(mode: LexMode, l: PrintedLine): DataInfo {
    if mode == DataSegment then BLANK_DATA.(isLabel := l.name.Some?, labelName := LabelOf(l)) else BLANK_DATA
  }

  /** A labelled line without operands gets the number of the next, unless something stands between. */
  function NumberOf(l: PrintedLine, lineNum: nat): nat
    requires l.after != ""
  {
    if l.name.Some? && l.args == [] && (l.after[0] == '\n' || l.after[0] == '#') then lineNum + 1 else lineNum
  }

  /** The directive's line; a comment away from a list marks a .word line and saves the last literal of a .half line. */
  function DataOf(di: DataInfo, d: Directive, args: seq<Operand>, after: string): DataInfo
    requires DirectivePrinted(d, args, after)
  {
    match d
    case DWord =>
      di.(directive := DirWord, data := di.data + WordBytes(args), error := di.error || after[0] == ' ')
    case DHalf =>
      di.(directive := DirHalf, data := di.data + HalfBytes(if after[0] == ' ' then args else args[..|args| - 1]))
    case DSpace => di.(directive := DirSpace, space := args[0].n)
    case DAsciiz => di.(directive := DirAsciiz, data := di.data + QuotedBytes(args[0].s))
    case _ => di
  }

  /** The directives that select the data segment besides .data; .align and unknown names among them. */
  predicate EntersData(d: Directive) {
    match d
    case DWord | DHalf | DByte | DAsciiz | DSpace | DAlign => true
    case _ => false
  }

  function DirectiveBody(di: DataInfo, d: Directive, args: seq<Operand>, after: string, lineNum: nat): Body
    requires DirectivePrinted(d, args, after)
  {
    if d.DData? then SegmentBody(DataSegment)
    else if d.DText? then SegmentBody(TextSegment)
    else DataBody(DataOf(di, d, args, after).(lineNum := lineNum), EntersData(d))
  }

  // The operations whose lines are marked: an immediate, a pseudo-op, or an error.
  predicate MarkedImmediate(op: Op) {
    match op
    case J | Jal | Addi | Addiu | Andi | Ori | Xori | Slti | Sltiu | Sll | Lui | La | Li => true
    case Beq | Bne | Bgt | Blt | Bge | Ble | Bgtu => true
    case _ => false
  }

  predicate MarkedPseudo(op: Op) {
    match op
    case Mul | La | Li | Bgt | Blt | Bge | Ble | Bgtu | Beqz => true
    case _ => false
  }

  predicate MarkedError(op: Op) {
    match op
    case Addu | Sllv | Srl | Srv | Lb | Lbu | Lh | Lhu | Sb | Sh => true
    case _ => false
  }

  function MarksOf(ti: TextInfo, op: Op): TextInfo {
    ti.(op := op, isImm := ti.isImm || MarkedImmediate(op), upper := ti.upper || op.Lui?,
        pseudo := ti.pseudo || MarkedPseudo(op), error := ti.error || MarkedError(op))
  }

  lemma ImmediateMarks(op: Op)
    ensures MarkedImmediate(op) == TakesImmediate(op)
  {}

  lemma PseudoMarks(op: Op)
    ensures MarkedPseudo(op) == IsPseudo(op)
  {}

  lemma ErrorMarks(op: Op)
    ensures MarkedError(op) == Unparsed(op)
  {}

  lemma MarksAre(ti: TextInfo, op: Op)
    ensures MarksOf(ti, op) == Flagged(ti, op)
  {
    hide MarkedImmediate, MarkedPseudo, MarkedError, TakesImmediate, IsPseudo, Unparsed;
    ImmediateMarks(op);
    PseudoMarks(op);
    ErrorMarks(op);
  }

  lemma PatternIs(op: Op)
    ensures PatternOf(op) == ShapeOf(op)
  {}

  lemma EntersIs(d: Directive)
    ensures EntersData(d) == DefinesData(d)
  {}

  function InstrOf(ti: TextInfo, op: Op, args: seq<Operand>, lineNum: nat): TextInfo
    requires Matches(PatternOf(op), args)
  {
    Filled(MarksOf(ti, op), PatternOf(op), args).(lineNum := lineNum)
  }

  function BodyOf(mode: LexMode, l: PrintedLine, lineNum: nat): Body
    requires WellPrinted(l)
  {
    var n := NumberOf(l, lineNum);
    match l.keyword
    case Mnemonic(op) => InstrBody(InstrOf(TextBase(mode, l), op, l.args, n))
    case Command(d, _) => DirectiveBody(DataBase(mode, l), d, l.args, l.after, n)
  }

  function LineOf(mode: LexMode, l: PrintedLine, lineNum: nat): SourceLine
    requires WellPrinted(l)
  {
    SourceLine(l.name.Some?, LabelOf(l), BodyOf(mode, l, lineNum))
  }

  // ---- Between lines ----

  lemma SpaceStep(src: string, c: Cursor, mode: LexMode)
    requires IsSpace(CharAt(src, c.pos))
    ensures LexLines(src, c, mode) == LexLines(src, Next(src, c), mode)
  {
    hide ParseLine, HasNewline, SkipComment;
  }

  lemma CommentLexed(src: string, c: Cursor, mode: LexMode)
    requires IsComment(CharAt(src, c.pos)) && HasNewline(src, c.pos)
    ensures LexLines(src, c, mode) == LexLines(src, SkipComment(src, c), mode)
  {
    hide ParseLine, HasNewline, SkipComment;
  }

  lemma {:induction false} CommentSkipped(src: string, pos: nat, line: nat, f: string, mode: LexMode)
    requires Filler(f, true) && At(src, pos, f) && CharAt(src, pos + |f|) != '\n'
    ensures HasNewline(src, pos)
    ensures LexLines(src, SkipComment(src, Cursor(pos, LineAfter(src, pos, line))), mode) ==
      LexLines(src, Cursor(pos + |f|, line + Newlines(f)), mode)
    decreases |f|, 2
  {
    hide ParseLine, LexLines;
    AtChar(src, pos, f, 0);
    if f[0] == '\n' {
      FillerSkipped(src, pos, line, f, mode);
    } else {
      AtPart(src, pos, f, 1, |f|);
      CommentSkipped(src, pos + 1, line, f[1..], mode);
    }
  }

  /** The lexer passes over what stands between lines, and counts its newlines. */
  lemma {:induction false} FillerSkipped(src: string, pos: nat, line: nat, f: string, mode: LexMode)
    requires Filler(f, false) && At(src, pos, f) && CharAt(src, pos + |f|) != '\n'
    ensures LexLines(src, Cursor(pos, LineAfter(src, pos, line)), mode) ==
      LexLines(src, Cursor(pos + |f|, line + Newlines(f)), mode)
    decreases |f|, 1
  {
    hide LexLines, HasNewline, SkipComment;
    if f != "" {
      AtChar(src, pos, f, 0);
      AtPart(src, pos, f, 1, |f|);
      if IsSpace(f[0]) {
        SpaceStep(src, Cursor(pos, LineAfter(src, pos, line)), mode);
        FillerSkipped(src, pos + 1, if f[0] == '\n' then line + 1 else line, f[1..], mode);
      } else {
        CommentSkipped(src, pos + 1, line, f[1..], mode);
        CommentStep(src, Cursor(pos, line));
        CommentLexed(src, Cursor(pos, line), mode);
      }
    }
  }

  lemma CommentStep(src: string, c: Cursor)
    requires c.pos < |src| && src[c.pos] != '\n' && HasNewline(src, c.pos + 1)
    ensures HasNewline(src, c.pos) && SkipComment(src, c) == SkipComment(src, Next(src, c))
  {}

  // ---- Keywords ----

  function KeywordToken(k: Keyword): Token {
    match k
    case Mnemonic(op) => Token(SymInstr, MnemonicText(op), "")
    case Command(_, spelling) => Token(SymDirective, Lower(spelling), "")
  }

  lemma MnemonicPlain(op: Op)
    requires HasMnemonic(op)
    ensures OrdinaryText(MnemonicText(op)) && Lower(MnemonicText(op)) == MnemonicText(op)
    ensures var c := MnemonicText(op)[0]; 'a' <= c <= 'z'
  {
    hide MnemonicText;
    MnemonicLetters(op);
    var m := MnemonicText(op);
    assert Lower(m) == m;
  }

  lemma NullHasNone()
    ensures !HasMnemonic(OpNull)
  {}

  lemma KeywordOrdinary(k: Keyword)
    requires KnownKeyword(k)
    ensures OrdinaryText(KeywordText(k))
  {
    hide MnemonicText, HasMnemonic, DirectiveText, UnknownName;
    if k.Mnemonic? {
      MnemonicPlain(k.op);
    }
  }

  lemma KeywordClassified(k: Keyword)
    requires KnownKeyword(k)
    ensures Classify(KeywordText(k)) == Success((KeywordToken(k), false))
  {
    hide OpOf, ExtractReg, MnemonicText, DirectiveText, UnknownName;
    if k.Mnemonic? {
      MnemonicPlain(k.op);
      MnemonicFound(k.op);
      NullHasNone();
    }
  }

  /** The directive the lexer takes a spelling for. */
  lemma CommandFound(d: Directive, spelling: string)
    requires KnownKeyword(Command(d, spelling))
    ensures DirectiveOf(Lower(spelling)) == d
  {
    hide DirectiveOf, DirectiveText, UnknownName, Lower;
    if Lower(spelling) == DirectiveText(d) {
      DirectiveFound(d);
    } else {
      UnknownDirective(Lower(spelling));
    }
  }

  // A text in two parts.
  lemma Halves(src: string, pos: nat, t: string, tail: string)
    requires At(src, pos, t + tail)
    ensures At(src, pos, t) && At(src, pos + |t|, tail)
  {
    var s := t + tail;
    AtPart(src, pos, s, 0, |t|);
    AtPart(src, pos, s, |t|, |s|);
    assert s[0..|t|] == t && s[|t|..|s|] == tail;
  }

  /** A token at the cursor or one space on. */
  lemma TokenRead(src: string, p: Parse, gap: nat, s: string, tok: Token)
    requires gap <= 1 && OrdinaryText(s) && At(src, p.cur.pos + gap, s) && (gap == 1 ==> CharAt(src, p.cur.pos) == ' ')
    requires Classify(s) == Success((tok, false)) && Stops(src, p.cur.pos + gap + |s|)
    ensures NextToken(src, p) ==
      Success(Parse(CursorAfter(src, p.cur.pos + gap + |s|, p.cur.line), tok, p.ti, p.di))
  {
    hide ScanToken, Classify, At, Stops, CursorAfter;
    TokenScanned(src, p.cur.pos, p.cur.line, gap, s);
    assert p.ti.(error := p.ti.error || false) == p.ti;
  }

  // ---- The end of a line ----

  /** What stands after a line, and not before another newline. */
  predicate EndAt(src: string, e: nat, after: string) { At(src, e, after) && CharAt(src, e + |after|) != '\n' }

  lemma EndStops(src: string, e: nat, after: string)
    requires Ends(after) && EndAt(src, e, after)
    ensures CharAt(src, e) == after[0] && Stops(src, e)
  {
    hide HasNewline;
    AtChar(src, e, after, 0);
    if after[0] == '#' {
      AtPart(src, e, after, 1, |after|);
      CommentSkipped(src, e + 1, 0, after[1..], TextSegment);
      CommentStep(src, Cursor(e, 0));
    }
  }

  lemma {:induction false} CommentFound(src: string, c: Cursor, f: string)
    requires CommentNext(f) && Filler(f, false) && EndAt(src, c.pos, f)
    ensures var d := SkipSpace(src, c); CharAt(src, d.pos) == '#' && HasNewline(src, d.pos)
    decreases |f|
  {
    hide HasNewline;
    AtChar(src, c.pos, f, 0);
    AtPart(src, c.pos, f, 1, |f|);
    if IsSpace(f[0]) {
      CommentFound(src, Next(src, c), f[1..]);
    } else {
      CommentSkipped(src, c.pos + 1, 0, f[1..], TextSegment);
      CommentStep(src, c);
    }
  }

  /** Where the cursor is after a line: a list that goes on after its last literal takes the comment there. */
  function LineEnd(src: string, e: nat, line: nat, list: bool): Cursor {
    if list && CharAt(src, e) == ' ' then SkipComment(src, SkipSpace(src, Cursor(e, line)))
    else CursorAfter(src, e, line)
  }

  lemma {:induction false} SpaceLexed(src: string, c: Cursor, mode: LexMode)
    ensures LexLines(src, c, mode) == LexLines(src, SkipSpace(src, c), mode)
    decreases |src| - c.pos
  {
    hide ParseLine;
    if IsSpace(CharAt(src, c.pos)) {
      SpaceLexed(src, Next(src, c), mode);
    }
  }

  /** From there the lexer goes on as from the end of the last operand. */
  lemma EndSkipped(src: string, e: nat, line: nat, list: bool, after: string, mode: LexMode)
    requires Ends(after) && (list ==> EndsList(after)) && EndAt(src, e, after)
    ensures LexLines(src, LineEnd(src, e, line, list), mode) == LexLines(src, Cursor(e, LineAfter(src, e, line)), mode)
  {
    hide LexLines, HasNewline, SkipComment, SkipSpace, At;
    EndStops(src, e, after);
    var c := Cursor(e, line);
    if list && after[0] == ' ' {
      SpaceLexed(src, c, mode);
      CommentFound(src, c, after);
      CommentLexed(src, SkipSpace(src, c), mode);
    } else if after[0] == '#' {
      CommentLexed(src, c, mode);
    }
  }

  // ---- The parse after a keyword ----

  predicate BodyAt(src: string, pos: nat, l: PrintedLine)
    requires AllReadable(l.args)
  {
    At(src, pos, Spelled(l) + ArgsText(l.args)) && EndAt(src, pos + |Spelled(l)| + |ArgsText(l.args)|, l.after)
  }

  function BodyEnd(pos: nat, l: PrintedLine): nat
    requires AllReadable(l.args)
  {
    pos + |Spelled(l)| + |ArgsText(l.args)|
  }

  /** The keyword of a line at a position has been read. */
  predicate KeywordAt(src: string, p: Parse, pos: nat, line: nat, l: PrintedLine)
    requires WellPrinted(l)
  {
    p.cur == CursorAfter(src, pos + |Spelled(l)|, line) && p.tok == KeywordToken(l.keyword) && BodyAt(src, pos, l)
  }

  lemma ArgsFollow(src: string, pos: nat, l: PrintedLine)
    requires AllReadable(l.args) && Ends(l.after) && BodyAt(src, pos, l)
    ensures At(src, pos, Spelled(l)) && ArgsAt(src, pos + |Spelled(l)|, l.args) && Stops(src, pos + |Spelled(l)|)
    ensures CharAt(src, pos + |Spelled(l)|) == if l.args == [] then l.after[0] else ' '
  {
    hide ArgsText, At, Readable, Stops;
    Halves(src, pos, Spelled(l), ArgsText(l.args));
    EndStops(src, BodyEnd(pos, l), l.after);
    if l.args != [] {
      AtChar(src, pos + |Spelled(l)|, ArgsText(l.args), 0);
      SpaceStops(src, pos + |Spelled(l)|);
    } else {
      NoText();
    }
  }

  lemma SpaceStops(src: string, e: nat)
    requires CharAt(src, e) == ' '
    ensures Stops(src, e)
  {}

  lemma NoText()
    ensures ArgsText([]) == ""
  {}

  lemma KeywordRead(src: string, p: Parse, gap: nat, l: PrintedLine)
    requires WellPrinted(l) && BodyAt(src, p.cur.pos + gap, l)
    requires gap <= 1 && (gap == 1 ==> CharAt(src, p.cur.pos) == ' ')
    ensures var c := CursorAfter(src, p.cur.pos + gap + |Spelled(l)|, p.cur.line);
      var q := Parse(c, KeywordToken(l.keyword), p.ti, p.di);
      NextToken(src, p) == Success(q) && KeywordAt(src, q, p.cur.pos + gap, p.cur.line, l)
  {
    hide NextToken, Classify, OpOf, ArgsText, KnownKeyword, KeywordToken, At, Readable, DirectivePrinted, Matches,
      BodyAt, Stops, CursorAfter;
    ArgsFollow(src, p.cur.pos + gap, l);
    KeywordOrdinary(l.keyword);
    KeywordClassified(l.keyword);
    TokenRead(src, p, gap, Spelled(l), KeywordToken(l.keyword));
  }

  /** The line of the keyword when it has operands, otherwise that of the end of the line. */
  lemma KeywordCursor(src: string, pos: nat, line: nat, l: PrintedLine)
    requires WellPrinted(l) && BodyAt(src, pos, l)
    ensures var e := pos + |Spelled(l)|; var c := CursorAfter(src, e, line);
      (l.args != [] ==> c == Cursor(e, line)) && (l.args == [] ==> e == BodyEnd(pos, l)) &&
      (l.name.Some? ==> c.line == NumberOf(l, line))
  {
    hide OpOf, ArgsText, KnownKeyword, At, Readable, DirectivePrinted, Matches, BodyAt, LabelName, HasNewline,
      SkipComment, Filler;
    ArgsFollow(src, pos, l);
    var e := pos + |Spelled(l)|;
    if l.args == [] {
      NoText();
      LineCounted(src, e, line);
    } else {
      SpaceStays(src, e, line);
    }
  }

  // ---- Instructions ----

  lemma InstrRead(src: string, p: Parse, pos: nat, line: nat, l: PrintedLine, lineNum: nat)
    requires WellPrinted(l) && l.keyword.Mnemonic? && KeywordAt(src, p, pos, line, l)
    ensures var r := ParseInstr(src, p, lineNum);
      r.Success? && r.value.ti == InstrOf(p.ti, l.keyword.op, l.args, lineNum) &&
      r.value.cur == CursorAfter(src, BodyEnd(pos, l), line)
  {
    hide OpOf, ShapeOf, PatternOf, ArgsText, Readable, Matches, Filled, Flagged, MarksOf, LabelName, CursorAfter,
      BodyAt, BodyEnd, Ends, ParseShape, MnemonicText, HasMnemonic;
    var op := l.keyword.op;
    MnemonicFound(op);
    PatternIs(op);
    MarksAre(p.ti, op);
    OperandsRead(src, p.(ti := Flagged(p.ti, op)), pos, line, l, ShapeOf(op));
  }

  lemma OperandsRead(src: string, p: Parse, pos: nat, line: nat, l: PrintedLine, shape: Shape)
    requires WellPrinted(l) && BodyAt(src, pos, l) && p.cur == CursorAfter(src, pos + |Spelled(l)|, line)
    requires Matches(shape, l.args)
    ensures var r := ParseShape(src, p, shape);
      r.Success? && r.value.ti == Filled(p.ti, shape, l.args) && r.value.cur == CursorAfter(src, BodyEnd(pos, l), line)
  {
    hide OpOf, ShapeOf, ArgsText, At, Readable, Matches, Filled, LabelName, KnownKeyword, CursorAfter, BodyAt, Ends,
      ParseShape, OperandToken, Stops, DirectivePrinted;
    KeywordCursor(src, pos, line, l);
    ArgsFollow(src, pos, l);
    if l.args == [] {
      NoArgs(src, p, shape);
    } else {
      ArgsRead(src, p, shape, l.args);
    }
  }

  lemma NoArgs(src: string, p: Parse, shape: Shape)
    requires Matches(shape, [])
    ensures shape == NoOperands && ParseShape(src, p, shape) == Success(p) && Filled(p.ti, shape, []) == p.ti
  {}

  // ---- Directives ----

  /** The list of a .word or .half directive. */
  lemma ListRead(src: string, p: Parse, args: seq<Operand>, after: string)
    requires args != [] && AllLiteral(args) && AllReadable(args) && ArgsAt(src, p.cur.pos, args) &&
      p.cur.line == p.di.lineNum
    requires Ends(after) && EndsList(after) && EndAt(src, p.cur.pos + |ArgsText(args)|, after)
    ensures var w, h, e := ParseWords(src, p), ParseHalves(src, p), p.cur.pos + |ArgsText(args)|;
      w.Success? && w.value.cur == LineEnd(src, e, p.cur.line, true) && w.value.ti == p.ti &&
      w.value.di == p.di.(data := p.di.data + WordBytes(args), error := p.di.error || after[0] == ' ') &&
      h.Success? && h.value.cur == LineEnd(src, e, p.cur.line, true) && h.value.ti == p.ti &&
      h.value.di == p.di.(data := p.di.data + HalfBytes(if after[0] == ' ' then args else args[..|args| - 1]))
  {
    hide ParseWords, ParseHalves, ArgsText, At, Readable, Stops, SkipSpace, SkipComment, HasNewline, CursorAfter,
      WordBytes, HalfBytes, OperandToken, AllReadable, AllLiteral, Filler, CommentNext;
    var e := p.cur.pos + |ArgsText(args)|;
    EndStops(src, e, after);
    if after[0] == ' ' {
      var c := Cursor(e, p.cur.line);
      ListComment(after);
      CommentFound(src, c, after);
      ListThenComment(src, p, args, SkipSpace(src, c));
    } else {
      ListEnds(src, p, args);
    }
  }

  lemma ListComment(after: string)
    requires EndsList(after) && after[0] == ' '
    ensures CommentNext(after)
  {}

  lemma SpaceRead(src: string, p: Parse, args: seq<Operand>)
    requires |args| == 1 && args[0].Literal? && AllReadable(args) && ArgsAt(src, p.cur.pos, args)
    ensures var r := ParseSpace(src, p);
      r.Success? && r.value.cur == CursorAfter(src, p.cur.pos + |ArgsText(args)|, p.cur.line) &&
      r.value.di == p.di.(directive := DirSpace, space := args[0].n, lineNum := p.cur.line)
  {
    hide NextToken, StoI, ArgsText, At, Stops, CursorAfter, OperandAt, AfterOperand, OperandToken, OperandText;
    assert Readable(args[0]);
    LastOperand(src, p.cur.pos, p.cur.line, args);
    LiteralRead(src, StartData(p, DirSpace), args[0].n);
  }

  lemma AsciizRead(src: string, p: Parse, args: seq<Operand>)
    requires |args| == 1 && args[0].Quoted? && AllReadable(args) && ArgsAt(src, p.cur.pos, args)
    ensures var r := ParseAsciiz(src, p);
      r.Success? && r.value.cur == CursorAfter(src, p.cur.pos + |ArgsText(args)|, p.cur.line) &&
      r.value.di == p.di.(directive := DirAsciiz, data := p.di.data + QuotedBytes(args[0].s), lineNum := p.cur.line)
  {
    hide NextToken, ArgsText, At, Stops, CursorAfter, OperandAt, AfterOperand, OperandText, Word, Byte0, StringBytes,
      QuotedBytes;
    assert Readable(args[0]);
    LastOperand(src, p.cur.pos, p.cur.line, args);
    OperandRead(src, StartData(p, DirAsciiz), args[0]);
    WholeBytes(args[0].s);
  }

  lemma DataRead(src: string, p: Parse, pos: nat, line: nat, l: PrintedLine, d: Directive)
    requires WellPrinted(l) && KeywordAt(src, p, pos, line, l) && DirectivePrinted(d, l.args, l.after)
    ensures var r := ParseData(src, p, d);
      r.Success? && r.value.cur == LineEnd(src, BodyEnd(pos, l), line, TakesList(d)) &&
      r.value.di == DataOf(p.di, d, l.args, l.after).(lineNum := r.value.di.lineNum)
  {
    hide LabelName, KnownKeyword, Matches, Lower, KeywordToken, ParseWords, ParseHalves, ParseSpace, ParseAsciiz,
      ArgsText, At, Readable, WordBytes, HalfBytes, QuotedBytes, CursorAfter, Stops, SkipSpace, SkipComment, Filler,
      EndsList, PatternOf;
    KeywordCursor(src, pos, line, l);
    ArgsFollow(src, pos, l);
    if l.args == [] {
      NoDataRead(src, p, d, l.after);
    } else {
      ArgsDataRead(src, p, d, l.args, l.after);
    }
  }

  lemma NoDataRead(src: string, p: Parse, d: Directive, after: string)
    requires DirectivePrinted(d, [], after)
    ensures ParseData(src, p, d) == Success(p) && DataOf(p.di, d, [], after) == p.di && !TakesList(d)
  {}

  lemma ArgsDataRead(src: string, p: Parse, d: Directive, args: seq<Operand>, after: string)
    requires args != [] && AllReadable(args) && DirectivePrinted(d, args, after) && ArgsAt(src, p.cur.pos, args)
    requires Ends(after) && EndAt(src, p.cur.pos + |ArgsText(args)|, after)
    ensures var r := ParseData(src, p, d);
      r.Success? && r.value.cur == LineEnd(src, p.cur.pos + |ArgsText(args)|, p.cur.line, TakesList(d)) &&
      r.value.di == DataOf(p.di, d, args, after).(lineNum := r.value.di.lineNum)
  {
    hide ParseWords, ParseHalves, ParseSpace, ParseAsciiz, ArgsText, At, Readable, WordBytes, HalfBytes, QuotedBytes,
      CursorAfter, Stops, SkipSpace, SkipComment, Filler, EndsList;
    match d {
      case DWord => ListRead(src, StartData(p, DirWord), args, after);
      case DHalf => ListRead(src, StartData(p, DirHalf), args, after);
      case DSpace => SpaceRead(src, p, args);
      case DAsciiz => AsciizRead(src, p, args);
      case _ =>
    }
  }

  predicate ListLine(l: PrintedLine) { l.keyword.Command? && TakesList(l.keyword.d) }

  lemma DirectiveRead(src: string, p: Parse, pos: nat, line: nat, l: PrintedLine, lineNum: nat)
    requires WellPrinted(l) && l.keyword.Command? && KeywordAt(src, p, pos, line, l)
    ensures var r := ParseDirective(src, p, lineNum);
      r.Success? && r.value.0 == DirectiveBody(p.di, l.keyword.d, l.args, l.after, lineNum) &&
      r.value.1.cur == LineEnd(src, BodyEnd(pos, l), line, ListLine(l))
  {
    hide DirectiveOf, ParseData, DataOf, ArgsText, At, Readable, LabelName, KnownKeyword, Lower, CursorAfter, SkipSpace,
      SkipComment, Ends, EndsList, BodyAt, EntersData, DefinesData;
    var d := l.keyword.d;
    CommandFound(d, l.keyword.spelling);
    EntersIs(d);
    if d.DData? || d.DText? {
      KeywordCursor(src, pos, line, l);
    } else {
      DataRead(src, p, pos, line, l, d);
    }
  }

  lemma BodyRead(src: string, p: Parse, pos: nat, line: nat, l: PrintedLine, lineNum: nat)
    requires WellPrinted(l) && KeywordAt(src, p, pos, line, l)
    ensures var r := ParseBody(src, p, lineNum);
      r.Success? && r.value.1.cur == LineEnd(src, BodyEnd(pos, l), line, ListLine(l)) &&
      r.value.0 ==
        if l.keyword.Command? then DirectiveBody(p.di, l.keyword.d, l.args, l.after, lineNum)
        else InstrBody(InstrOf(p.ti, l.keyword.op, l.args, lineNum))
  {
    hide DirectiveBody, InstrOf, OpOf, DirectiveOf, ParseInstr, ParseDirective, ArgsText, At, Readable, LabelName,
      KnownKeyword, Lower, CursorAfter, SkipSpace, SkipComment, Ends, EndsList, BodyAt, BodyEnd;
    if l.keyword.Command? {
      DirectiveRead(src, p, pos, line, l, lineNum);
    } else {
      InstrRead(src, p, pos, line, l, lineNum);
    }
  }

  // ---- Lines ----

  /** A line and what stands after it. */
  predicate LineAt(src: string, pos: nat, l: PrintedLine)
    requires WellPrinted(l)
  {
    At(src, pos, LineText(l)) && EndAt(src, pos + |LineText(l)|, l.after)
  }

  lemma BodyFollows(src: string, pos: nat, l: PrintedLine)
    requires WellPrinted(l) && LineAt(src, pos, l)
    ensures At(src, pos, LabelText(l.name)) && BodyAt(src, pos + |LabelText(l.name)|, l)
    ensures BodyEnd(pos + |LabelText(l.name)|, l) == pos + |LineText(l)|
  {
    hide LabelName, KnownKeyword, Matches, DirectivePrinted, ArgsText, At, Readable, OpOf, Ends;
    Halves(src, pos, LabelText(l.name), Spelled(l) + ArgsText(l.args));
  }

  /** The label of a line is the next token, with the colon and a space after it. */
  lemma LabelRead(src: string, p: Parse, l: PrintedLine)
    requires WellPrinted(l) && l.name.Some? && At(src, p.cur.pos, LabelText(l.name))
    ensures var n := l.name.value; var e := p.cur.pos + |n|;
      NextToken(src, p) == Success(Parse(Cursor(e, p.cur.line), Token(SymLabel, LabelOf(l), ""), p.ti, p.di)) &&
      CharAt(src, e + 1) == ' '
  {
    hide NextToken, Classify, At, KnownKeyword, OpOf, Lower, Matches, DirectivePrinted, Ends;
    var n := l.name.value;
    Halves(src, p.cur.pos, n, ": ");
    AtChar(src, p.cur.pos + |n|, ": ", 0);
    AtChar(src, p.cur.pos + |n|, ": ", 1);
    LabelClassified(n);
    TokenRead(src, p, 0, n, Token(SymLabel, Lower(n), ""));
  }

  lemma UnlabelledRead(src: string, cur: Cursor, mode: LexMode, l: PrintedLine)
    requires WellPrinted(l) && l.name.None? && LineAt(src, cur.pos, l)
    ensures var r := ParseLine(src, cur, mode);
      r.Success? && r.value.0 == LineOf(mode, l, cur.line) &&
      r.value.1.cur == LineEnd(src, cur.pos + |LineText(l)|, cur.line, ListLine(l))
  {
    hide NextToken, ParseBody, DirectiveBody, InstrOf, OpOf, DirectiveOf, ArgsText, At, Readable, KnownKeyword, Lower,
      Matches, DirectivePrinted, Ends, BodyAt, BodyEnd, LineEnd, ListLine, LineText, CursorAfter;
    BodyFollows(src, cur.pos, l);
    var start := Parse(cur, NO_TOKEN, BLANK_TEXT, BLANK_DATA);
    KeywordRead(src, start, 0, l);
    BodyRead(src, NextToken(src, start).value, cur.pos, cur.line, l, cur.line);
  }

  lemma LabelledRead(src: string, cur: Cursor, mode: LexMode, l: PrintedLine)
    requires WellPrinted(l) && l.name.Some? && LineAt(src, cur.pos, l)
    ensures var r := ParseLine(src, cur, mode);
      r.Success? && r.value.0 == LineOf(mode, l, cur.line) &&
      r.value.1.cur == LineEnd(src, cur.pos + |LineText(l)|, cur.line, ListLine(l))
  {
    hide NextToken, ParseBody, DirectiveBody, InstrOf, OpOf, DirectiveOf, ArgsText, At, Readable, KnownKeyword, Lower,
      Matches, DirectivePrinted, LabelName, Ends, BodyAt, BodyEnd, LineEnd, ListLine, LineText, CursorAfter, NumberOf;
    BodyFollows(src, cur.pos, l);
    var start := Parse(cur, NO_TOKEN, BLANK_TEXT, BLANK_DATA);
    LabelRead(src, start, l);
    var p := NextToken(src, start).value;
    var at := Next(src, p.cur);
    var q := MarkLabel(p, mode, LabelOf(l)).(cur := at);
    KeywordRead(src, q, 1, l);
    KeywordCursor(src, at.pos + 1, at.line, l);
    var k := NextToken(src, q).value;
    BodyRead(src, k, at.pos + 1, at.line, l, k.cur.line);
  }

  /** A printed line is parsed as the line it prints, and the cursor is at its end. */
  lemma LineRead(src: string, cur: Cursor, mode: LexMode, l: PrintedLine)
    requires WellPrinted(l) && LineAt(src, cur.pos, l)
    ensures var r := ParseLine(src, cur, mode);
      r.Success? && r.value.0 == LineOf(mode, l, cur.line) &&
      r.value.1.cur == LineEnd(src, cur.pos + |LineText(l)|, cur.line, ListLine(l))
  {
    hide *;
    if l.name.Some? {
      LabelledRead(src, cur, mode, l);
    } else {
      UnlabelledRead(src, cur, mode, l);
    }
  }

  // ---- Listings ----

  predicate AllWellPrinted(ls: seq<PrintedLine>) { forall i :: 0 <= i < |ls| ==> WellPrinted(ls[i]) }

  function ListingText(ls: seq<PrintedLine>): string
    requires AllWellPrinted(ls)
  {
    if ls == [] then "" else LineText(ls[0]) + (ls[0].after + ListingText(ls[1..]))
  }

  /** The lines of a listing, numbered from `lineNum` on; each is read in the mode the lines before leave. */
  function LinesFrom(ls: seq<PrintedLine>, lineNum: nat, mode: LexMode): seq<SourceLine>
    requires AllWellPrinted(ls)
  {
    if ls == [] then []
    else
      var line := LineOf(mode, ls[0], lineNum);
      [line] + LinesFrom(ls[1..], lineNum + Newlines(ls[0].after), ModeAfter(mode, line.body))
  }

  lemma LineStarts(l: PrintedLine)
    requires WellPrinted(l)
    ensures LineText(l) != "" && Ordinary(LineText(l)[0])
  {
    hide OpOf, ArgsText, Matches, DirectivePrinted, Readable, KnownKeyword, Ordinary, Kept, Ends;
    KeywordOrdinary(l.keyword);
  }

  lemma ListingStarts(src: string, pos: nat, ls: seq<PrintedLine>)
    requires AllWellPrinted(ls) && At(src, pos, ListingText(ls)) && pos + |ListingText(ls)| == |src|
    ensures CharAt(src, pos) != '\n' && (ls != [] ==> Ordinary(CharAt(src, pos)))
  {
    hide WellPrinted, LineText;
    if ls != [] {
      LineStarts(ls[0]);
      AtChar(src, pos, ListingText(ls), 0);
    }
  }

  /** A line, what stands after it, and the rest. */
  lemma RestAt(src: string, pos: nat, ls: seq<PrintedLine>)
    requires ls != [] && AllWellPrinted(ls) && At(src, pos, ListingText(ls)) && pos + |ListingText(ls)| == |src|
    ensures LineAt(src, pos, ls[0])
    ensures var e := pos + |LineText(ls[0])| + |ls[0].after|;
      At(src, e, ListingText(ls[1..])) && e + |ListingText(ls[1..])| == |src|
  {
    hide WellPrinted, LineText, At;
    var t, f, rest := LineText(ls[0]), ls[0].after, ListingText(ls[1..]);
    Halves(src, pos, t, f + rest);
    Halves(src, pos + |t|, f, rest);
    ListingStarts(src, pos + |t| + |f|, ls[1..]);
  }

  /** Lexing the text of a listing gives the lines of the listing, however many. */
  lemma {:induction false} ListingLexed(src: string, pos: nat, line: nat, mode: LexMode, ls: seq<PrintedLine>)
    requires AllWellPrinted(ls) && At(src, pos, ListingText(ls)) && pos + |ListingText(ls)| == |src|
    ensures LexLines(src, Cursor(pos, line), mode) == Success(LinesFrom(ls, line, mode))
    decreases |ls|
  {
    hide ParseLine, WellPrinted, LineText, At, LineOf, ListingText, LineEnd, ListLine, Filler, Ends;
    if ls != [] {
      var l, c := ls[0], Cursor(pos, line);
      ListingStarts(src, pos, ls);
      RestAt(src, pos, ls);
      LineRead(src, c, mode, l);
      var after := ModeAfter(mode, LineOf(mode, l, line).body);
      var e := pos + |LineText(l)|;
      LineSkipped(src, e, line, l, after);
      ListingLexed(src, e + |l.after|, line + Newlines(l.after), after, ls[1..]);
    } else {
      NoListing();
    }
  }

  lemma NoListing()
    ensures ListingText([]) == ""
  {}

  lemma LineSkipped(src: string, e: nat, line: nat, l: PrintedLine, mode: LexMode)
    requires WellPrinted(l) && EndAt(src, e, l.after)
    ensures LexLines(src, LineEnd(src, e, line, ListLine(l)), mode) ==
      LexLines(src, Cursor(e + |l.after|, line + Newlines(l.after)), mode)
  {
    hide LexLines, LineEnd, LabelName, KnownKeyword, Matches, At, Readable, OpOf, EndsList, Newlines, LineAfter;
    EndSkipped(src, e, line, ListLine(l), l.after, mode);
    FillerSkipped(src, e, line, l.after, mode);
  }

  /** The number of the line after some blanks and comments: a newline at the very start of the text is not counted. */
  function FirstLine(lead: string): nat { Newlines(lead) + if lead != "" && lead[0] == '\n' then 0 else 1 }

  /** The whole text, which may start with blanks, comments and empty lines. */
  lemma ListingRoundTrip(lead: string, ls: seq<PrintedLine>, mode: LexMode)
    requires AllWellPrinted(ls) && Filler(lead, false)
    ensures LexLines(lead + ListingText(ls), Cursor(0, 1), mode) == Success(LinesFrom(ls, FirstLine(lead), mode))
  {
    hide WellPrinted, LineText, LexLines, LinesFrom, ListingText, Newlines, Filler, At;
    var src := lead + ListingText(ls);
    WholeText(src);
    Halves(src, 0, lead, ListingText(ls));
    ListingStarts(src, |lead|, ls);
    if lead != "" {
      AtChar(src, 0, lead, 0);
    } else {
      NoNewlines();
    }
    FillerSkipped(src, 0, if lead != "" && lead[0] == '\n' then 0 else 1, lead, mode);
    ListingLexed(src, |lead|, FirstLine(lead), mode, ls);
  }

  lemma WholeText(src: string)
    ensures At(src, 0, src)
  {}

  lemma NoNewlines()
    ensures Newlines("") == 0
  {}

  // ---- Comments are closed ----

  /** Every comment character has a newline after it. */
  predicate Closed(s: string) { forall i :: 0 <= i < |s| && IsComment(s[i]) ==> NewlineFrom(s, i) }

  predicate NewlineFrom(s: string, i: nat) { exists j :: i <= j < |s| && s[j] == '\n' }

  lemma ClosedJoin(a: string, b: string)
    requires Closed(a) && Closed(b)
    ensures Closed(a + b)
  {
    var s := a + b;
    forall i | 0 <= i < |s| && IsComment(s[i])
      ensures NewlineFrom(s, i)
    {
      if i < |a| {
        assert NewlineFrom(a, i);
        var j :| i <= j < |a| && a[j] == '\n';
        assert s[j] == '\n';
      } else {
        assert IsComment(b[i - |a|]) && NewlineFrom(b, i - |a|);
        var j :| i - |a| <= j < |b| && b[j] == '\n';
        assert s[j + |a|] == '\n';
      }
    }
  }

  lemma {:induction false} FillerClosed(f: string, inComment: bool)
    requires Filler(f, inComment)
    ensures Closed(f) && (inComment ==> NewlineFrom(f, 0))
  {
    if f != "" {
      var c := f[0] != '\n' && (inComment || IsComment(f[0]));
      var head, tail := f[..1], f[1..];
      FillerClosed(tail, c);
      assert f == head + tail;
      if c {
        var j :| 0 <= j < |tail| && tail[j] == '\n';
        assert f[j + 1] == '\n';
        forall i | 0 <= i < |f| && IsComment(f[i])
          ensures NewlineFrom(f, i)
        {
          if i > 0 {
            assert IsComment(tail[i - 1]) && NewlineFrom(tail, i - 1);
            var k :| i - 1 <= k < |tail| && tail[k] == '\n';
            assert f[k + 1] == '\n';
          }
        }
      } else {
        assert Closed(head);
        ClosedJoin(head, tail);
      }
    }
  }

  lemma {:induction false} ArgsNoComment(args: seq<Operand>)
    requires AllReadable(args)
    ensures forall i :: 0 <= i < |ArgsText(args)| ==> !IsComment(ArgsText(args)[i])
  {
    hide OperandText, Readable;
    if args != [] {
      OperandOrdinary(args[0]);
      ArgsNoComment(args[1..]);
    }
  }

  lemma LineNoComment(l: PrintedLine)
    requires WellPrinted(l)
    ensures forall i :: 0 <= i < |LineText(l)| ==> !IsComment(LineText(l)[i])
  {
    hide OpOf, ArgsText, KnownKeyword, Matches, DirectivePrinted, Readable, Ends;
    KeywordOrdinary(l.keyword);
    ArgsNoComment(l.args);
  }

  lemma {:induction false} ListingTextClosed(ls: seq<PrintedLine>)
    requires AllWellPrinted(ls)
    ensures Closed(ListingText(ls))
  {
    hide LineText, LabelName, KnownKeyword, Matches, DirectivePrinted, Readable, Filler, Closed;
    if ls != [] {
      assert WellPrinted(ls[0]);
      LineNoComment(ls[0]);
      NoneClosed(LineText(ls[0]));
      FillerClosed(ls[0].after, false);
      ListingTextClosed(ls[1..]);
      ClosedJoin(ls[0].after, ListingText(ls[1..]));
      ClosedJoin(LineText(ls[0]), ls[0].after + ListingText(ls[1..]));
    } else {
      NoneClosed("");
    }
  }

  lemma NoneClosed(s: string)
    requires forall i :: 0 <= i < |s| ==> !IsComment(s[i])
    ensures Closed(s)
  {}

  /** No listing has an open comment. */
  lemma ListingClosed(lead: string, ls: seq<PrintedLine>)
    requires AllWellPrinted(ls) && Filler(lead, false)
    ensures CommentsClosed(lead + ListingText(ls))
  {
    hide WellPrinted, ListingText, HasNewline, Filler;
    var s := lead + ListingText(ls);
    FillerClosed(lead, false);
    ListingTextClosed(ls);
    ClosedJoin(lead, ListingText(ls));
    forall i: nat | IsComment(CharAt(s, i))
      ensures HasNewline(s, i)
    {
      assert NewlineFrom(s, i);
      var j :| i <= j < |s| && s[j] == '\n';
      Termination.NewlineAhead(s, i, j);
    }
  }
}
