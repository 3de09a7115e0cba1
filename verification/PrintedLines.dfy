/**
 Reading printed operands back: tokens, and operand lists of registers with their offsets and
 parentheses, literals, labels and quoted strings, in every pattern of the instruction set.
 */
module PrintedLines {
  import opened Source
  import opened Isa
  import opened Scanner
  import opened Mnemonics
  import Operands

  // ---- The printer ----

  /** A register carries an offset and the parentheses of `Operands.Printed`. */
  datatype Operand =
    | Register(a: nat, offset: Option<nat>, b: nat, r: nat, c: nat)
    | Literal(n: nat)
    | LabelRef(name: string)
    | Quoted(s: string)

  function OperandText(o: Operand): string
    requires Readable(o)
  {
    match o
    case Register(a, offset, b, r, c) => Operands.Printed(a, offset, b, r, c)
    case Literal(n) => Decimal(n)
    case LabelRef(name) => name
    case Quoted(s) => "\"" + s + "\""
  }

  predicate NotMnemonic(s: string) { forall op: Op :: MnemonicText(op) != s }

  /** What the lexer takes for a label and not for a mnemonic, directive, number, register or quotation. */
  predicate LabelName(s: string) {
    OrdinaryText(s) && !IsDigit(s[0]) && s[0] != '.' && s[0] != '$' && s[0] != '(' && s[0] != '\'' && s[0] != '"' &&
      NotMnemonic(Lower(s))
  }

  /**
   A register operand that the lexer does not take for a literal, that is not closed unopened, and whose offset
   is an int.
   */
  predicate ReadableRegister(a: nat, offset: Option<nat>, b: nat, r: nat, c: nat) {
    r < NUM_REGS && !Operands.LooksLiteral(a, offset, b) && (c == 0 || a + b > 0) &&
      (offset.Some? ==> offset.value < 0x8000_0000) && |Operands.Printed(a, offset, b, r, c)| < 500
  }

  predicate Readable(o: Operand) {
    match o
    case Register(a, offset, b, r, c) => ReadableRegister(a, offset, b, r, c)
    case Literal(n) => n < 0x8000_0000
    case LabelRef(name) => LabelName(name)
    case Quoted(s) => |s| < TOKEN_BUF_SIZE - 3 && forall i :: 0 <= i < |s| ==> Kept(s[i])
  }

  // ---- One token ----

  /** A character inside a token: it neither ends the token nor the string in the buffer. */
  predicate Kept(ch: char) { ch != ' ' && ch != '\n' && !IsSeparator(ch) && ch != '#' && ch != '\0' }

  predicate Ordinary(ch: char) { Kept(ch) && ch != '\t' }

  /** A token as the scanner copies it whole: white space before it would be skipped. */
  predicate OrdinaryText(s: string) {
    0 < |s| < TOKEN_BUF_SIZE - 1 && Ordinary(s[0]) && forall i :: 0 <= i < |s| ==> Kept(s[i])
  }

  predicate At(src: string, pos: nat, text: string) { pos + |text| <= |src| && src[pos..pos + |text|] == text }

  lemma AtChar(src: string, pos: nat, text: string, i: nat)
    requires At(src, pos, text) && i < |text|
    ensures CharAt(src, pos + i) == text[i]
  {
    assert src[pos..pos + |text|][i] == src[pos + i];
  }

  lemma AtPart(src: string, pos: nat, text: string, i: nat, j: nat)
    requires At(src, pos, text) && i <= j <= |text|
    ensures At(src, pos + i, text[i..j])
  {
    forall k | 0 <= k < j - i
      ensures src[pos + i..pos + j][k] == text[i..j][k]
    {
      assert src[pos..pos + |text|][i + k] == src[pos + i + k];
    }
  }

  /** The line number after the text ends: one more when a newline ends it. */
  function LineAfter(src: string, pos: nat, line: nat): nat { if CharAt(src, pos) == '\n' then line + 1 else line }

  /** What ends a token: white space, a separator, or a comment that a newline ends. */
  predicate Stops(src: string, e: nat) {
    var stop := CharAt(src, e);
    stop == ' ' || stop == '\n' || IsSeparator(stop) || (stop == '#' && HasNewline(src, e))
  }

  /** Where the characters of a token end: on what ended it, or on the newline that ends the comment there. */
  function CharsEnd(src: string, e: nat, line: nat): Cursor {
    if CharAt(src, e) == '#' then SkipComment(src, Cursor(e, line)) else Cursor(e, LineAfter(src, e, line))
  }

  lemma {:induction false} CharsScanned(src: string, pos: nat, line: nat, s: string, idx: nat)
    requires s != "" && At(src, pos, s) && (forall i :: 0 <= i < |s| ==> Kept(s[i])) &&
      idx + |s| < TOKEN_BUF_SIZE - 1 && Stops(src, pos + |s|)
    ensures ScanChars(src, Cursor(pos, line), idx) == Success((s, CharsEnd(src, pos + |s|, line)))
    decreases |s|
  {
    hide SkipComment, HasNewline;
    AtChar(src, pos, s, 0);
    assert s == [s[0]] + s[1..];
    var next := Next(src, Cursor(pos, line));
    if |s| == 1 {
      EmptyScan(src, pos + 1, line, idx + 1);
    } else {
      AtPart(src, pos, s, 1, |s|);
      AtChar(src, pos, s, 1);
      CharsScanned(src, pos + 1, line, s[1..], idx + 1);
    }
  }

  lemma EmptyScan(src: string, e: nat, line: nat, idx: nat)
    requires idx < TOKEN_BUF_SIZE - 1 && Stops(src, e)
    ensures ScanChars(src, Cursor(e, LineAfter(src, e, line)), idx) == Success(("", CharsEnd(src, e, line)))
  {
    hide SkipComment, HasNewline;
  }

  lemma {:induction false} NoNul(s: string)
    requires forall i :: 0 <= i < |s| ==> Kept(s[i])
    ensures CString(s) == s
  {
    if s != "" {
      NoNul(s[1..]);
      assert s == [s[0]] + s[1..];
    }
  }

  /** Where the cursor is after a token: past a comma, or where its characters end. */
  function CursorAfter(src: string, e: nat, line: nat): Cursor {
    if CharAt(src, e) == ',' then Cursor(e + 1, LineAfter(src, e + 1, line)) else CharsEnd(src, e, line)
  }

  lemma CommaSkipped(src: string, e: nat, line: nat)
    requires Stops(src, e)
    ensures var d := CharsEnd(src, e, line);
      CursorAfter(src, e, line) == if CharAt(src, d.pos) == ',' then Next(src, d) else d
  {}

  /** A token of ordinary characters after white space is scanned whole. */
  lemma TokenAfterSpace(src: string, c: Cursor, d: Cursor, s: string)
    requires SkipSpace(src, c) == d && OrdinaryText(s) && At(src, d.pos, s) && Stops(src, d.pos + |s|)
    ensures ScanToken(src, c) == Success((s, CursorAfter(src, d.pos + |s|, d.line)))
  {
    hide ScanChars, CString, SkipSpace, Stops, CursorAfter, CharsEnd;
    AtChar(src, d.pos, s, 0);
    assert SkipSeparators(src, d) == d;
    CharsScanned(src, d.pos, d.line, s, 0);
    NoNul(s);
    CommaSkipped(src, d.pos + |s|, d.line);
  }

  /** The same with at most one space before it. */
  lemma TokenScanned(src: string, pos: nat, line: nat, gap: nat, s: string)
    requires gap <= 1 && OrdinaryText(s) && At(src, pos + gap, s) && (gap == 1 ==> CharAt(src, pos) == ' ') &&
      Stops(src, pos + gap + |s|)
    ensures ScanToken(src, Cursor(pos, line)) == Success((s, CursorAfter(src, pos + gap + |s|, line)))
  {
    hide ScanChars, CString, Stops, CursorAfter;
    AtChar(src, pos + gap, s, 0);
    assert SkipSpace(src, Cursor(pos + gap, line)) == Cursor(pos + gap, line);
    assert SkipSpace(src, Cursor(pos, line)) == Cursor(pos + gap, line);
    TokenAfterSpace(src, Cursor(pos, line), Cursor(pos + gap, line), s);
  }

  // ---- What the tokens mean ----

  lemma RegisterChars(r: nat)
    requires r < NUM_REGS
    ensures 0 < |RegName(r)| < 10 && forall i :: 0 <= i < |RegName(r)| ==> Ordinary(RegName(r)[i])
  {}

  function Power(d: nat): nat { if d == 0 then 1 else 10 * Power(d - 1) }

  lemma {:induction false} DigitsBound(n: nat, d: nat)
    requires d >= 1 && n < Power(d)
    ensures |Decimal(n)| <= d
    decreases d
  {
    if n >= 10 {
      DigitsBound(n / 10, d - 1);
    }
  }

  lemma TenDigits()
    ensures Power(10) == 10_000_000_000
  {
    assert Power(5) == 100_000;
  }

  lemma DecimalOrdinary(n: nat)
    requires n < 0x8000_0000
    ensures OrdinaryText(Decimal(n))
  {
    hide Decimal;
    TenDigits();
    DigitsBound(n, 10);
    forall i | 0 <= i < |Decimal(n)|
      ensures Ordinary(Decimal(n)[i])
    {
      assert IsDigit(Decimal(n)[i]);
    }
  }

  lemma RegisterOrdinary(a: nat, offset: Option<nat>, b: nat, r: nat, c: nat)
    requires ReadableRegister(a, offset, b, r, c)
    ensures OrdinaryText(Operands.Printed(a, offset, b, r, c))
  {
    hide RegName, Decimal, Operands.Printed;
    var t, d, n := Operands.Printed(a, offset, b, r, c), |Operands.OffsetText(offset)|, |RegName(r)|;
    Operands.PrintedParts(a, offset, b, r, c);
    RegisterChars(r);
    forall k | 0 <= k < |t|
      ensures Ordinary(t[k])
    {
      if a <= k < a + d {
        assert t[k] == t[a..a + d][k - a];
        assert IsDigit(t[k]);
      } else if a + d + b <= k < a + d + b + n {
        assert t[k] == t[a + d + b..a + d + b + n][k - (a + d + b)];
      }
    }
  }

  lemma OperandOrdinary(o: Operand)
    requires Readable(o)
    ensures OrdinaryText(OperandText(o))
  {
    hide RegName, Decimal, Operands.Printed;
    match o {
      case Register(a, offset, b, r, c) => RegisterOrdinary(a, offset, b, r, c);
      case Literal(n) => DecimalOrdinary(n);
      case LabelRef(_) =>
      case Quoted(_) =>
    }
  }

  function OperandToken(o: Operand): Token {
    match o
    case Register(_, offset, _, r, _) => Token(SymRegister, Decimal(r), Operands.OffsetField(offset))
    case Literal(n) => Token(SymLiteral, Decimal(n), "")
    case LabelRef(name) => Token(SymLabel, Lower(name), "")
    case Quoted(s) => Token(SymString, "\"" + s + "\"", "")
  }

  /** A label is read in lower case. */
  lemma LabelClassified(name: string)
    requires LabelName(name)
    ensures Classify(name) == Success((Token(SymLabel, Lower(name), ""), false))
  {
    hide OpOf, ExtractReg, MnemonicText;
    OtherNotFound(Lower(name));
  }

  lemma LiteralClassified(n: nat)
    ensures Classify(Decimal(n)) == Success((Token(SymLiteral, Decimal(n), ""), false))
  {
    hide Decimal;
    var t := Decimal(n);
    forall i | 0 <= i < |t|
      ensures ToLower(t[i]) == t[i] && IsDigit(t[i])
    {
      assert IsDigit(t[i]);
    }
    assert Lower(t) == t;
    Operands.DigitsEndAt(t, 0, |t|);
    assert IsDigit(t[0]);
    assert |t| > 1 ==> IsDigit(t[1]);
    assert t[..|t|] == t;
  }

  /** The text of an operand is classified as that operand, without an error. */
  lemma OperandClassified(o: Operand)
    requires Readable(o)
    ensures Classify(OperandText(o)) == Success((OperandToken(o), false))
  {
    hide ClassifyLower, RegName, Decimal, Operands.Printed, LabelName, Operands.LooksLiteral;
    match o {
      case Register(a, offset, b, r, c) => Operands.ClassifyPrinted(a, offset, b, r, c);
      case Literal(n) => LiteralClassified(n);
      case LabelRef(name) => LabelClassified(name);
      case Quoted(_) =>
    }
  }

  // ---- Reading operands ----

  function OffsetOf(offset: Option<nat>): int { if offset.Some? then offset.value else -1 }

  function ArgOf(o: Operand): Argument {
    match o
    case Register(_, offset, _, r, _) => Argument(SymRegister, r, OffsetOf(offset))
    case Literal(n) => Arg(SymLiteral, n)
    case LabelRef(_) => Arg(SymLabel, 0)
    case Quoted(_) => NO_ARG
  }

  /** The text of an operand after one space, with a comma and a space or a newline after it. */
  predicate OperandAt(src: string, pos: nat, o: Operand)
    requires Readable(o)
  {
    CharAt(src, pos) == ' ' && At(src, pos + 1, OperandText(o)) && Stops(src, pos + 1 + |OperandText(o)|)
  }

  function AfterOperand(src: string, c: Cursor, o: Operand): Cursor
    requires Readable(o)
  {
    CursorAfter(src, c.pos + 1 + |OperandText(o)|, c.line)
  }

  function ReadOperand(src: string, p: Parse, o: Operand): Parse
    requires Readable(o)
  {
    Parse(AfterOperand(src, p.cur, o), OperandToken(o), p.ti, p.di)
  }

  lemma OperandRead(src: string, p: Parse, o: Operand)
    requires Readable(o) && OperandAt(src, p.cur.pos, o)
    ensures NextToken(src, p) == Success(ReadOperand(src, p, o))
  {
    hide ScanToken, Classify, OperandText, OperandToken, Readable, At, Stops, OrdinaryText;
    OperandOrdinary(o);
    TokenScanned(src, p.cur.pos, p.cur.line, 1, OperandText(o));
    OperandClassified(o);
    assert p.ti.(error := p.ti.error || false) == p.ti;
  }

  lemma RegisterRead(src: string, p: Parse, o: Operand)
    requires Readable(o) && o.Register? && OperandAt(src, p.cur.pos, o)
    ensures ParseRegister(src, p) == Success((ArgOf(o), ReadOperand(src, p, o)))
  {
    hide NextToken, StoI, Decimal, OperandText, OperandAt, AfterOperand;
    OperandRead(src, p, o);
    Operands.PrintedNumbers(o.offset, o.r);
  }

  predicate IsImmediate(o: Operand) { o.Literal? || o.LabelRef? }

  lemma ImmediateRead(src: string, p: Parse, o: Operand)
    requires Readable(o) && IsImmediate(o) && OperandAt(src, p.cur.pos, o)
    ensures ParseImmediate(src, p) == Success((ArgOf(o), ReadOperand(src, p, o)))
  {
    hide NextToken, StoI, Decimal, OperandText, OperandAt, AfterOperand, Lower;
    OperandRead(src, p, o);
    if o.Literal? {
      StoIOfDecimal(o.n);
    }
  }

  // ---- Operand lists ----

  predicate AllReadable(args: seq<Operand>) { forall i :: 0 <= i < |args| ==> Readable(args[i]) }

  /** Operands with commas between them. */
  function ArgsText(args: seq<Operand>): (s: string)
    requires AllReadable(args)
    ensures args != [] ==> s != "" && s[0] == ' '
  {
    if args == [] then ""
    else " " + OperandText(args[0]) + if |args| == 1 then "" else "," + ArgsText(args[1..])
  }

  // A text in three parts.
  lemma Pieces(src: string, pos: nat, t: string, tail: string)
    requires At(src, pos, " " + t + tail)
    ensures CharAt(src, pos) == ' ' && At(src, pos + 1, t) && At(src, pos + 1 + |t|, tail)
  {
    var s := " " + t + tail;
    AtChar(src, pos, s, 0);
    AtPart(src, pos, s, 1, 1 + |t|);
    assert s[1..1 + |t|] == t;
    AtPart(src, pos, s, 1 + |t|, |s|);
    assert s[1 + |t|..|s|] == tail;
  }

  lemma CommaTail(src: string, pos: nat, rest: string)
    requires At(src, pos, "," + rest) && rest != ""
    ensures CharAt(src, pos) == ',' && CharAt(src, pos + 1) == rest[0] && At(src, pos + 1, rest)
  {
    var s := "," + rest;
    AtChar(src, pos, s, 0);
    AtChar(src, pos, s, 1);
    AtPart(src, pos, s, 1, |s|);
    assert s[1..|s|] == rest;
  }

  /** The last operand is there to be read. */
  lemma LastOperand(src: string, pos: nat, line: nat, args: seq<Operand>)
    requires |args| == 1 && AllReadable(args) && At(src, pos, ArgsText(args)) && Stops(src, pos + |ArgsText(args)|)
    ensures OperandAt(src, pos, args[0])
    ensures AfterOperand(src, Cursor(pos, line), args[0]) == CursorAfter(src, pos + |ArgsText(args)|, line)
  {
    hide OperandText, At, Readable, Stops, CursorAfter;
    var t := OperandText(args[0]);
    assert " " + t + "" == " " + t;
    Pieces(src, pos, t, "");
  }

  lemma ArgsParts(args: seq<Operand>)
    requires |args| > 1 && AllReadable(args)
    ensures ArgsText(args) == " " + OperandText(args[0]) + ("," + ArgsText(args[1..]))
    ensures |ArgsText(args)| == |OperandText(args[0])| + |ArgsText(args[1..])| + 2
  {
    hide OperandText, Readable;
  }

  /** Any other is there too, and the rest follow it. */
  lemma FirstOperand(src: string, pos: nat, line: nat, args: seq<Operand>)
    requires |args| > 1 && AllReadable(args) && At(src, pos, ArgsText(args))
    ensures OperandAt(src, pos, args[0])
    ensures var c := AfterOperand(src, Cursor(pos, line), args[0]);
      c.line == line && At(src, c.pos, ArgsText(args[1..])) && c.pos + |ArgsText(args[1..])| == pos + |ArgsText(args)|
  {
    hide OperandText, At, Readable, ArgsText;
    var t, rest := OperandText(args[0]), ArgsText(args[1..]);
    ArgsParts(args);
    Pieces(src, pos, t, "," + rest);
    CommaTail(src, pos + 1 + |t|, rest);
  }

  // ---- Instructions ----

  predicate Matches(shape: Shape, args: seq<Operand>) {
    match shape
    case NoOperands => args == []
    case ShapeR => |args| == 1 && args[0].Register?
    case ShapeI => |args| == 1 && IsImmediate(args[0])
    case ShapeRR | ShapeRRO => |args| == 2 && args[0].Register? && args[1].Register?
    case ShapeRI => |args| == 2 && args[0].Register? && IsImmediate(args[1])
    case ShapeRRI =>
      |args| >= 2 && args[0].Register? && args[1].Register? &&
      if args[1].offset.Some? then |args| == 2 else |args| == 3 && IsImmediate(args[2])
    case ShapeRRR => |args| == 3 && args[0].Register? && args[1].Register? && args[2].Register?
  }

  // A label leaves its name on the line.
  function Named(ti: TextInfo, o: Operand): TextInfo {
    if o.LabelRef? then ti.(isSymbol := true, symbolName := Lower(o.name)) else ti
  }

  /** The line with its operands in their places; where a pattern has room, the offset of the second is the third. */
  function Filled(ti: TextInfo, shape: Shape, args: seq<Operand>): TextInfo
    requires Matches(shape, args)
  {
    match shape
    case NoOperands => ti
    case ShapeR => ti.(a0 := ArgOf(args[0]))
    case ShapeI => Named(ti.(a0 := ArgOf(args[0]), isSymbol := false), args[0])
    case ShapeRR =>
      var t := ti.(a0 := ArgOf(args[0]), a1 := ArgOf(args[1]));
      if OffsetOf(args[1].offset) > 0 then t.(a2 := Arg(SymLiteral, OffsetOf(args[1].offset))) else t
    case ShapeRRO =>
      ti.(a0 := ArgOf(args[0]), a1 := ArgOf(args[1]),
          a2 := Arg(SymLiteral, if args[1].offset.Some? then args[1].offset.value else 0))
    case ShapeRI => Named(ti.(a0 := ArgOf(args[0]), a1 := NO_ARG, a2 := ArgOf(args[1])), args[1])
    case ShapeRRI =>
      var t := ti.(a0 := ArgOf(args[0]), a1 := ArgOf(args[1]));
      if |args| == 2 then t.(a2 := Arg(SymLiteral, args[1].offset.value)) else Named(t.(a2 := ArgOf(args[2])), args[2])
    case ShapeRRR => ti.(a0 := ArgOf(args[0]), a1 := ArgOf(args[1]), a2 := ArgOf(args[2]))
  }

  /** The parse after an operand list. */
  function AfterArgs(src: string, p: Parse, args: seq<Operand>, ti: TextInfo): Parse
    requires args != [] && AllReadable(args)
  {
    Parse(CursorAfter(src, p.cur.pos + |ArgsText(args)|, p.cur.line), OperandToken(args[|args| - 1]), ti, p.di)
  }

  /** The operands, with something that ends the last of them. */
  predicate ArgsAt(src: string, pos: nat, args: seq<Operand>)
    requires AllReadable(args)
  {
    At(src, pos, ArgsText(args)) && Stops(src, pos + |ArgsText(args)|)
  }

  lemma ReadOne(src: string, p: Parse, shape: Shape, args: seq<Operand>)
    requires (shape == ShapeR || shape == ShapeI) && Matches(shape, args) && AllReadable(args) &&
      ArgsAt(src, p.cur.pos, args)
    ensures ParseShape(src, p, shape) == Success(AfterArgs(src, p, args, Filled(p.ti, shape, args)))
  {
    hide ParseRegister, ParseImmediate, ArgsText, OperandText, OperandAt, AfterOperand, Readable, Lower,
      Decimal, At, Stops, CursorAfter;
    LastOperand(src, p.cur.pos, p.cur.line, args);
    if shape == ShapeR {
      RegisterRead(src, p, args[0]);
    } else {
      ImmediateRead(src, p, args[0]);
    }
  }

  lemma ReadFirst(src: string, p: Parse, args: seq<Operand>)
    requires |args| > 1 && AllReadable(args) && args[0].Register? && ArgsAt(src, p.cur.pos, args)
    ensures var q := SetA0(ReadOperand(src, p, args[0]), ArgOf(args[0]));
      ParseR(src, p) == Success(q) && q.cur.line == p.cur.line && ArgsAt(src, q.cur.pos, args[1..]) &&
      q.cur.pos + |ArgsText(args[1..])| == p.cur.pos + |ArgsText(args)|
  {
    hide ParseRegister, ArgsText, OperandText, OperandAt, AfterOperand, OperandToken, Readable, At, Stops, CursorAfter;
    FirstOperand(src, p.cur.pos, p.cur.line, args);
    RegisterRead(src, p, args[0]);
  }

  lemma ReadTwo(src: string, p: Parse, shape: Shape, args: seq<Operand>)
    requires (shape == ShapeRR || shape == ShapeRRO || shape == ShapeRRI) && |args| == 2 && Matches(shape, args) &&
      AllReadable(args) && ArgsAt(src, p.cur.pos, args)
    ensures ParseShape(src, p, shape) == Success(AfterArgs(src, p, args, Filled(p.ti, shape, args)))
  {
    hide ParseR, ParseRegister, ArgsText, OperandText, OperandAt, OperandToken, AfterOperand, Readable,
      At, Stops, CursorAfter;
    ReadFirst(src, p, args);
    var q := SetA0(ReadOperand(src, p, args[0]), ArgOf(args[0]));
    LastOperand(src, q.cur.pos, q.cur.line, args[1..]);
    RegisterRead(src, q, args[1]);
  }

  lemma ReadImmediate(src: string, p: Parse, args: seq<Operand>)
    requires Matches(ShapeRI, args) && AllReadable(args) && ArgsAt(src, p.cur.pos, args)
    ensures ParseRI(src, p) == Success(AfterArgs(src, p, args, Filled(p.ti, ShapeRI, args)))
  {
    hide ParseR, ParseImmediate, ArgsText, OperandText, OperandAt, AfterOperand, Readable, Lower,
      Decimal, At, Stops, CursorAfter;
    ReadFirst(src, p, args);
    var q := SetA0(ReadOperand(src, p, args[0]), ArgOf(args[0]));
    LastOperand(src, q.cur.pos, q.cur.line, args[1..]);
    ImmediateRead(src, SetA1(q, NO_ARG), args[1]);
  }

  lemma ReadThree(src: string, p: Parse, shape: Shape, args: seq<Operand>)
    requires (shape == ShapeRRI || shape == ShapeRRR) && |args| == 3 && Matches(shape, args) && AllReadable(args) &&
      ArgsAt(src, p.cur.pos, args)
    ensures ParseShape(src, p, shape) == Success(AfterArgs(src, p, args, Filled(p.ti, shape, args)))
  {
    hide ParseR, ParseRegister, ParseImmediate, ArgsText, OperandText, OperandAt, AfterOperand, Readable, Lower,
      Decimal, At, Stops, CursorAfter;
    ReadFirst(src, p, args);
    var q := SetA0(ReadOperand(src, p, args[0]), ArgOf(args[0]));
    FirstOperand(src, q.cur.pos, q.cur.line, args[1..]);
    RegisterRead(src, q, args[1]);
    var s := SetA1(ReadOperand(src, q, args[1]), ArgOf(args[1]));
    assert args[1..][1..] == args[2..];
    LastOperand(src, s.cur.pos, s.cur.line, args[2..]);
    if shape == ShapeRRR {
      RegisterRead(src, s, args[2]);
    } else {
      ImmediateRead(src, s, args[2]);
    }
  }

  /** The operands of any pattern are read back as they were printed. */
  lemma ArgsRead(src: string, p: Parse, shape: Shape, args: seq<Operand>)
    requires args != [] && Matches(shape, args) && AllReadable(args) && ArgsAt(src, p.cur.pos, args)
    ensures ParseShape(src, p, shape) == Success(AfterArgs(src, p, args, Filled(p.ti, shape, args)))
  {
    hide ParseRI, ArgsText, ArgsAt, AfterArgs, Filled, Readable;
    if |args| == 1 {
      ReadOne(src, p, shape, args);
    } else if shape == ShapeRI {
      ReadImmediate(src, p, args);
    } else if |args| == 2 {
      ReadTwo(src, p, shape, args);
    } else {
      ReadThree(src, p, shape, args);
    }
  }

  // ---- Operands of the wrong kind ----

  /** What stands for a register: nothing, without an error, when the operand is of another kind. */
  function RegisterOrNone(o: Operand): Argument { if o.Register? then ArgOf(o) else NO_ARG }

  function ImmediateOrNone(o: Operand): Argument { if IsImmediate(o) then ArgOf(o) else NO_ARG }

  lemma AnyRegisterRead(src: string, p: Parse, o: Operand)
    requires Readable(o) && OperandAt(src, p.cur.pos, o)
    ensures ParseRegister(src, p) == Success((RegisterOrNone(o), ReadOperand(src, p, o)))
  {
    hide NextToken, StoI, Decimal, OperandText, OperandAt, AfterOperand, Lower, ParseRegister, Readable;
    if o.Register? {
      RegisterRead(src, p, o);
    } else {
      OtherRead(src, p, o);
    }
  }

  lemma OtherRead(src: string, p: Parse, o: Operand)
    requires Readable(o) && OperandAt(src, p.cur.pos, o)
    ensures !o.Register? ==> ParseRegister(src, p) == Success((NO_ARG, ReadOperand(src, p, o)))
    ensures !IsImmediate(o) ==> ParseImmediate(src, p) == Success((NO_ARG, ReadOperand(src, p, o)))
  {
    hide NextToken, StoI, Decimal, OperandText, OperandAt, AfterOperand, Lower, Readable;
    OperandRead(src, p, o);
  }

  lemma AnyImmediateRead(src: string, p: Parse, o: Operand)
    requires Readable(o) && OperandAt(src, p.cur.pos, o)
    ensures ParseImmediate(src, p) == Success((ImmediateOrNone(o), ReadOperand(src, p, o)))
  {
    hide NextToken, StoI, Decimal, OperandText, OperandAt, AfterOperand, Lower, ParseImmediate, Readable;
    if IsImmediate(o) {
      ImmediateRead(src, p, o);
    } else {
      OtherRead(src, p, o);
    }
  }

  lemma AnyFirst(src: string, p: Parse, args: seq<Operand>)
    requires |args| > 1 && AllReadable(args) && ArgsAt(src, p.cur.pos, args)
    ensures Readable(args[0])
    ensures var q := SetA0(ReadOperand(src, p, args[0]), RegisterOrNone(args[0]));
      ParseR(src, p) == Success(q) && q.cur.line == p.cur.line && ArgsAt(src, q.cur.pos, args[1..]) &&
      q.cur.pos + |ArgsText(args[1..])| == p.cur.pos + |ArgsText(args)|
  {
    hide ParseRegister, ArgsText, OperandText, OperandAt, AfterOperand, OperandToken, Readable, At, Stops;
    FirstOperand(src, p.cur.pos, p.cur.line, args);
    AnyRegisterRead(src, p, args[0]);
  }

  /** An instruction of three registers takes any operands: one that is not a register is dropped without an error. */
  lemma RegistersUnchecked(src: string, p: Parse, args: seq<Operand>)
    requires |args| == 3 && AllReadable(args) && ArgsAt(src, p.cur.pos, args)
    ensures ParseRRR(src, p) == Success(AfterArgs(src, p, args,
      p.ti.(a0 := RegisterOrNone(args[0]), a1 := RegisterOrNone(args[1]), a2 := RegisterOrNone(args[2]))))
  {
    hide ParseR, ParseRegister, ArgsText, OperandText, OperandAt, AfterOperand, Readable, Lower, Decimal, At, Stops,
      CursorAfter, RegisterOrNone, OperandToken;
    AnyFirst(src, p, args);
    var q := SetA0(ReadOperand(src, p, args[0]), RegisterOrNone(args[0]));
    FirstOperand(src, q.cur.pos, q.cur.line, args[1..]);
    AnyRegisterRead(src, q, args[1]);
    var s := SetA1(ReadOperand(src, q, args[1]), RegisterOrNone(args[1]));
    assert args[1..][1..] == args[2..];
    LastOperand(src, s.cur.pos, s.cur.line, args[2..]);
    AnyRegisterRead(src, s, args[2]);
  }

  lemma CheckMarks(ti: TextInfo, o: Operand, name: string)
    ensures var t := CheckA2(ti.(a2 := ImmediateOrNone(o)), name);
      t.a0 == ti.a0 && t.a1 == ti.a1 && t.a2 == ImmediateOrNone(o) && t.error == (ti.error || !IsImmediate(o))
  {
    hide Lower, Decimal;
  }

  /** A register and an immediate: the line is in error exactly when the immediate is no literal and no label. */
  lemma ImmediateChecked(src: string, p: Parse, args: seq<Operand>)
    requires |args| == 2 && AllReadable(args) && ArgsAt(src, p.cur.pos, args)
    ensures var r, o := ParseRI(src, p), args[1];
      r.Success? && r.value.ti.a0 == RegisterOrNone(args[0]) && r.value.ti.a2 == ImmediateOrNone(o) &&
      r.value.ti.error == (p.ti.error || !IsImmediate(o))
  {
    hide ParseR, ParseImmediate, ArgsText, OperandText, OperandAt, AfterOperand, Readable, Lower, Decimal, At, Stops,
      CursorAfter, RegisterOrNone, ImmediateOrNone, IsImmediate, OperandToken, CheckA2;
    AnyFirst(src, p, args);
    var q := SetA0(ReadOperand(src, p, args[0]), RegisterOrNone(args[0]));
    LastOperand(src, q.cur.pos, q.cur.line, args[1..]);
    var s := SetA1(q, NO_ARG);
    AnyImmediateRead(src, s, args[1]);
    CheckMarks(s.ti, args[1], OperandToken(args[1]).val);
  }

  lemma ThirdRead(src: string, p: Parse, o: Operand)
    requires Readable(o) && OperandAt(src, p.cur.pos, o) && p.ti.a1.offset == -1
    ensures var r := ParseThird(src, p);
      r.Success? && r.value.ti.a0 == p.ti.a0 && r.value.ti.a1 == p.ti.a1 && r.value.ti.a2 == ImmediateOrNone(o) &&
      r.value.ti.error == (p.ti.error || !IsImmediate(o))
  {
    hide ParseImmediate, OperandText, OperandAt, AfterOperand, Readable, Lower, Decimal, CursorAfter, ImmediateOrNone,
      IsImmediate, OperandToken, CheckA2;
    AnyImmediateRead(src, p, o);
    CheckMarks(p.ti, o, OperandToken(o).val);
  }

  /** Two registers and an immediate, the second without an offset: the same. */
  lemma ThirdChecked(src: string, p: Parse, args: seq<Operand>)
    requires |args| == 3 && AllReadable(args) && ArgsAt(src, p.cur.pos, args)
    requires args[1].Register? ==> args[1].offset.None?
    ensures var r, o := ParseRRI(src, p), args[2];
      r.Success? && r.value.ti.a0 == RegisterOrNone(args[0]) && r.value.ti.a1 == RegisterOrNone(args[1]) &&
      r.value.ti.a2 == ImmediateOrNone(o) && r.value.ti.error == (p.ti.error || !IsImmediate(o))
  {
    hide ParseR, ParseRegister, ParseThird, ArgsText, OperandText, OperandAt, AfterOperand, Readable, Lower, Decimal,
      At, Stops, CursorAfter, OperandToken, RegisterOrNone, ImmediateOrNone, IsImmediate;
    AnyFirst(src, p, args);
    var q := SetA0(ReadOperand(src, p, args[0]), RegisterOrNone(args[0]));
    FirstOperand(src, q.cur.pos, q.cur.line, args[1..]);
    AnyRegisterRead(src, q, args[1]);
    var s := SetA1(ReadOperand(src, q, args[1]), RegisterOrNone(args[1]));
    assert args[1..][1..] == args[2..];
    LastOperand(src, s.cur.pos, s.cur.line, args[2..]);
    NoOffset(args[1]);
    ThirdRead(src, s, args[2]);
  }

  lemma NoOffset(o: Operand)
    requires o.Register? ==> o.offset.None?
    ensures RegisterOrNone(o).offset == -1
  {}
}
