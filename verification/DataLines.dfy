/**
 The operands of the data directives: lists of literals, which read on until the line has ended, and
 quoted strings, which end at the first blank or separator.
 */
module DataLines {
  import opened Words
  import opened Source
  import opened Scanner
  import opened PrintedLines
  import opened Mnemonics
  import Operands

  // ---- Lists of literals ----

  predicate AllLiteral(args: seq<Operand>) { forall i :: 0 <= i < |args| ==> args[i].Literal? }

  /** One byte a literal. */
  function WordBytes(args: seq<Operand>): (r: seq<bv8>)
    requires AllLiteral(args)
    ensures |r| == |args|
  {
    if args == [] then [] else [Byte0(Word(args[0].n))] + WordBytes(args[1..])
  }

  function Clipped(n: nat): nat { if n > 0xFFFF then 0xFFFF else n }

  /** One byte a literal of 16 bits. */
  function HalfBytes(args: seq<Operand>): (r: seq<bv8>)
    requires AllLiteral(args)
    ensures |r| == |args|
  {
    if args == [] then [] else [Byte0(Word(Clipped(args[0].n)))] + HalfBytes(args[1..])
  }

  lemma LiteralRead(src: string, p: Parse, n: nat)
    requires n < 0x8000_0000 && OperandAt(src, p.cur.pos, Literal(n))
    ensures var r := NextToken(src, p);
      r == Success(ReadOperand(src, p, Literal(n))) &&
      r.value.tok.ty == SymLiteral && StoI(r.value.tok.val) == Success(n)
  {
    hide NextToken, StoI, Decimal, OperandText, OperandAt, AfterOperand;
    OperandRead(src, p, Literal(n));
    StoIOfDecimal(n);
  }

  lemma LiteralTail(args: seq<Operand>)
    requires args != [] && AllLiteral(args) && AllReadable(args)
    ensures args[0].Literal? && Readable(args[0]) && AllLiteral(args[1..]) && AllReadable(args[1..])
    ensures args[0].n < 0x8000_0000
  {
    hide OperandText;
  }

  /** The parse after a list, with `data` stored. */
  function AfterList(src: string, p: Parse, args: seq<Operand>, data: seq<bv8>): Parse
    requires args != [] && AllReadable(args)
  {
    AfterArgs(src, p, args, p.ti).(di := p.di.(data := data))
  }

  // One literal of a .word directive.
  lemma WordRead(src: string, p: Parse, n: nat)
    requires n < 0x8000_0000 && OperandAt(src, p.cur.pos, Literal(n)) && p.cur.line <= p.di.lineNum
    ensures var q := ReadOperand(src, p, Literal(n));
      ParseWords(src, p) == ParseWords(src, q.(di := p.di.(data := p.di.data + [Byte0(Word(n))])))
  {
    hide NextToken, StoI, OperandAt, AfterOperand, Word, Byte0, OperandText;
    LiteralRead(src, p, n);
  }

  lemma WordBytesStep(data: seq<bv8>, args: seq<Operand>)
    requires args != [] && AllLiteral(args)
    ensures data + WordBytes(args) == data + [Byte0(Word(args[0].n))] + WordBytes(args[1..])
  {
    hide Word, Byte0, AllLiteral;
  }

  lemma WordBytesOne(data: seq<bv8>, args: seq<Operand>)
    requires |args| == 1 && AllLiteral(args)
    ensures data + WordBytes(args) == data + [Byte0(Word(args[0].n))]
  {
    hide Word, Byte0;
    assert args[1..] == [];
  }

  /** A .word directive stores the byte of every literal of its list, and goes on after it. */
  lemma {:induction false} WordsRun(src: string, p: Parse, args: seq<Operand>)
    requires args != [] && AllLiteral(args) && AllReadable(args) && ArgsAt(src, p.cur.pos, args) &&
      p.cur.line <= p.di.lineNum
    ensures ParseWords(src, p) == ParseWords(src, AfterList(src, p, args, p.di.data + WordBytes(args)))
    decreases |args|
  {
    hide NextToken, StoI, ArgsText, At, Stops, OperandAt, AfterOperand, OperandToken, Word, Byte0, OperandText,
      ParseWords, WordBytes, Readable, AllReadable, AllLiteral, CursorAfter;
    LiteralTail(args);
    WordBytesStep(p.di.data, args);
    var n := args[0].n;
    var q := ReadOperand(src, p, args[0]).(di := p.di.(data := p.di.data + [Byte0(Word(n))]));
    if |args| > 1 {
      FirstOperand(src, p.cur.pos, p.cur.line, args);
      WordRead(src, p, n);
      WordsRun(src, q, args[1..]);
    } else {
      LastOperand(src, p.cur.pos, p.cur.line, args);
      WordRead(src, p, n);
      WordBytesOne(p.di.data, args);
    }
  }

  // One literal of a .half directive; when the line ends with it, it is not stored.
  lemma HalfRead(src: string, p: Parse, n: nat)
    requires n < 0x8000_0000 && OperandAt(src, p.cur.pos, Literal(n)) && p.cur.line <= p.di.lineNum
    ensures var q := ReadOperand(src, p, Literal(n));
      ParseHalves(src, p) == if q.cur.line > p.di.lineNum then Success(q)
        else ParseHalves(src, q.(di := p.di.(data := p.di.data + [Byte0(Word(Clipped(n)))])))
  {
    hide NextToken, StoI, OperandAt, AfterOperand, Word, Byte0, OperandText;
    LiteralRead(src, p, n);
  }

  lemma HalfBytesStep(data: seq<bv8>, args: seq<Operand>)
    requires args != [] && AllLiteral(args)
    ensures data + HalfBytes(args) == data + [Byte0(Word(Clipped(args[0].n)))] + HalfBytes(args[1..])
  {
    hide Word, Byte0, Clipped, AllLiteral;
  }

  lemma HalfBytesOne(data: seq<bv8>, args: seq<Operand>)
    requires |args| == 1 && AllLiteral(args)
    ensures data + HalfBytes(args) == data + [Byte0(Word(Clipped(args[0].n)))]
  {
    hide Word, Byte0, Clipped;
    assert args[1..] == [];
  }

  lemma HalfBytesNone(data: seq<bv8>, args: seq<Operand>)
    requires |args| == 1 && AllLiteral(args)
    ensures data + HalfBytes(args[..0]) == data
  {}

  lemma HalfBytesInit(data: seq<bv8>, args: seq<Operand>)
    requires |args| > 1 && AllLiteral(args)
    ensures data + HalfBytes(args[..|args| - 1]) ==
      data + [Byte0(Word(Clipped(args[0].n)))] + HalfBytes(args[1..][..|args| - 2])
  {
    hide Word, Byte0, Clipped, HalfBytes;
    var init := args[..|args| - 1];
    assert init[1..] == args[1..][..|args| - 2];
    HalfBytesStep(data, init);
  }

  /** A .half directive stores the byte of every literal but the last, which it stores if the line goes on after it. */
  lemma {:induction false} HalvesRun(src: string, p: Parse, args: seq<Operand>)
    requires args != [] && AllLiteral(args) && AllReadable(args) && ArgsAt(src, p.cur.pos, args) &&
      p.cur.line <= p.di.lineNum
    ensures var q := AfterList(src, p, args, p.di.data + HalfBytes(args[..|args| - 1]));
      ParseHalves(src, p) == if q.cur.line > p.di.lineNum then Success(q)
        else ParseHalves(src, AfterList(src, p, args, p.di.data + HalfBytes(args)))
    decreases |args|
  {
    hide NextToken, StoI, ArgsText, At, Stops, OperandAt, AfterOperand, OperandToken, Word, Byte0, OperandText,
      ParseHalves, HalfBytes, Readable, AllReadable, AllLiteral, CursorAfter, Clipped;
    LiteralTail(args);
    HalfBytesStep(p.di.data, args);
    var n := args[0].n;
    var q := ReadOperand(src, p, args[0]).(di := p.di.(data := p.di.data + [Byte0(Word(Clipped(n)))]));
    if |args| > 1 {
      FirstOperand(src, p.cur.pos, p.cur.line, args);
      HalfRead(src, p, n);
      HalfBytesInit(p.di.data, args);
      HalvesRun(src, q, args[1..]);
    } else {
      HalfBytesNone(p.di.data, args);
      HalfBytesOne(p.di.data, args);
      LastOperand(src, p.cur.pos, p.cur.line, args);
      HalfRead(src, p, n);
    }
  }

  // ---- What follows a list ----

  lemma {:induction false} CommentLine(src: string, c: Cursor)
    requires HasNewline(src, c.pos) && CharAt(src, c.pos) != '\n'
    ensures SkipComment(src, c).line == c.line + 1 && CharAt(src, SkipComment(src, c).pos) == '\n'
    decreases |src| - c.pos
  {
    if CharAt(src, c.pos + 1) != '\n' {
      CommentLine(src, Next(src, c));
    }
  }

  /** The line ends with a token that a newline or a comment ends. */
  lemma LineCounted(src: string, e: nat, line: nat)
    requires Stops(src, e)
    ensures CursorAfter(src, e, line).line >= line
    ensures CharAt(src, e) == '\n' || CharAt(src, e) == '#' ==> CursorAfter(src, e, line).line == line + 1
  {
    hide SkipComment, HasNewline;
    if CharAt(src, e) == '#' {
      CommentLine(src, Cursor(e, line));
    }
  }

  /** A list that a newline or a comment ends at once: the last literal of a .half directive is lost. */
  lemma ListEnds(src: string, p: Parse, args: seq<Operand>)
    requires args != [] && AllLiteral(args) && AllReadable(args) && ArgsAt(src, p.cur.pos, args) &&
      p.cur.line == p.di.lineNum
    requires var stop := CharAt(src, p.cur.pos + |ArgsText(args)|); stop == '\n' || stop == '#'
    ensures ParseWords(src, p) == Success(AfterList(src, p, args, p.di.data + WordBytes(args)))
    ensures ParseHalves(src, p) == Success(AfterList(src, p, args, p.di.data + HalfBytes(args[..|args| - 1])))
  {
    hide NextToken, StoI, ArgsText, At, OperandToken, WordBytes, HalfBytes, Readable, AllReadable, AllLiteral,
      CursorAfter, ParseHalves, ParseWords, Stops;
    LineCounted(src, p.cur.pos + |ArgsText(args)|, p.cur.line);
    WordsRun(src, p, args);
    HalvesRun(src, p, args);
    WordsEnd(src, AfterList(src, p, args, p.di.data + WordBytes(args)));
  }

  lemma WordsEnd(src: string, p: Parse)
    requires p.cur.line > p.di.lineNum
    ensures ParseWords(src, p) == Success(p)
  {}

  /** The token a comment after white space gives is empty, and counts as a label. */
  lemma CommentToken(src: string, p: Parse, d: Cursor)
    requires SkipSpace(src, p.cur) == d && CharAt(src, d.pos) == '#' && HasNewline(src, d.pos)
    ensures NextToken(src, p) == Success(Parse(SkipComment(src, d), Token(SymLabel, "", ""), p.ti, p.di))
  {
    hide SkipSpace, SkipComment, HasNewline, OpOf;
    CommentLine(src, d);
    NotEmpty();
    assert SkipSeparators(src, d) == d;
    assert p.ti.(error := p.ti.error || false) == p.ti;
  }

  lemma NotEmpty()
    ensures OpOf("").OpNull?
  {
    NotEmptyFrom(0);
  }

  lemma {:induction false} NotEmptyFrom(k: nat)
    requires k <= NUM_INSTRS
    ensures OpFrom("", k).OpNull?
    decreases NUM_INSTRS - k
  {
    hide InstrEntry;
    if k < NUM_INSTRS {
      Entry(k);
      NotEmptyFrom(k + 1);
    }
  }

  lemma Entry(k: nat)
    requires k < NUM_INSTRS
    ensures InstrEntry(k).0 != ""
  {}

  lemma SpaceStays(src: string, e: nat, line: nat)
    requires CharAt(src, e) == ' '
    ensures CursorAfter(src, e, line) == Cursor(e, line)
  {}

  // What one more token makes of a list.
  lemma WordsStop(src: string, p: Parse, q: Parse)
    requires p.cur.line <= p.di.lineNum && NextToken(src, p) == Success(q) && q.tok.ty != SymLiteral
    ensures ParseWords(src, p) == Success(q.(di := q.di.(error := true)))
  {
    hide NextToken;
  }

  lemma WordsLast(src: string, p: Parse, q: Parse)
    requires p.cur.line <= p.di.lineNum < q.cur.line && NextToken(src, p) == Success(q) && q.tok.ty == SymLiteral &&
      StoI(q.tok.val).Success?
    ensures ParseWords(src, p) == Success(q.(di := q.di.(data := q.di.data + [Byte0(Word(StoI(q.tok.val).value))])))
  {
    hide NextToken, StoI, Word, Byte0;
  }

  lemma HalvesStop(src: string, p: Parse, q: Parse)
    requires p.cur.line <= p.di.lineNum < q.cur.line && NextToken(src, p) == Success(q)
    ensures ParseHalves(src, p) == Success(q)
  {
    hide NextToken;
  }

  /** The list stands before a space. */
  predicate ListBeforeSpace(src: string, p: Parse, args: seq<Operand>) {
    args != [] && AllLiteral(args) && AllReadable(args) && ArgsAt(src, p.cur.pos, args) &&
    p.cur.line == p.di.lineNum && CharAt(src, p.cur.pos + |ArgsText(args)|) == ' '
  }

  /** With a comment some way after it, every literal is stored, but the .word line is in error. */
  lemma ListThenComment(src: string, p: Parse, args: seq<Operand>, d: Cursor)
    requires ListBeforeSpace(src, p, args) && SkipSpace(src, Cursor(p.cur.pos + |ArgsText(args)|, p.cur.line)) == d
    requires CharAt(src, d.pos) == '#' && HasNewline(src, d.pos)
    ensures var end := Parse(SkipComment(src, d), Token(SymLabel, "", ""), p.ti, p.di);
      ParseWords(src, p) == Success(end.(di := p.di.(data := p.di.data + WordBytes(args), error := true))) &&
      ParseHalves(src, p) == Success(end.(di := p.di.(data := p.di.data + HalfBytes(args))))
  {
    hide NextToken, ParseWords, ParseHalves, ArgsText, At, Stops, CursorAfter, OperandToken, WordBytes, HalfBytes,
      Readable, AllReadable, AllLiteral, SkipSpace, SkipComment, HasNewline;
    WordsRun(src, p, args);
    HalvesRun(src, p, args);
    var e := p.cur.pos + |ArgsText(args)|;
    SpaceStays(src, e, p.cur.line);
    var w := AfterList(src, p, args, p.di.data + WordBytes(args));
    var h := AfterList(src, p, args, p.di.data + HalfBytes(args));
    CommentToken(src, w, d);
    CommentToken(src, h, d);
    CommentLine(src, d);
    SpaceLine(src, Cursor(e, p.cur.line));
    WordsStop(src, w, NextToken(src, w).value);
    HalvesStop(src, h, NextToken(src, h).value);
  }

  lemma {:induction false} SpaceLine(src: string, c: Cursor)
    ensures SkipSpace(src, c).line >= c.line
    decreases |src| - c.pos
  {
    if IsSpace(CharAt(src, c.pos)) {
      SpaceLine(src, Next(src, c));
    }
  }

  /**
   With only white space after it up to the next line, the first token there is taken: .half loses
   it without a mark, and .word marks its line or takes a literal for one of its own.
   */
  lemma ListTakesToken(src: string, p: Parse, args: seq<Operand>, d: Cursor, s: string, tok: Token, bad: bool)
    requires ListBeforeSpace(src, p, args) && SkipSpace(src, Cursor(p.cur.pos + |ArgsText(args)|, p.cur.line)) == d
    requires d.line > p.cur.line && OrdinaryText(s) && At(src, d.pos, s) && Stops(src, d.pos + |s|)
    requires Classify(s) == Success((tok, bad))
    ensures var words, halves := p.di.data + WordBytes(args), p.di.data + HalfBytes(args);
      var end := Parse(CursorAfter(src, d.pos + |s|, d.line), tok, p.ti.(error := p.ti.error || bad), p.di);
      ParseHalves(src, p) == Success(end.(di := p.di.(data := halves))) &&
      (tok.ty != SymLiteral ==> ParseWords(src, p) == Success(end.(di := p.di.(data := words, error := true)))) &&
      (tok.ty == SymLiteral && StoI(tok.val).Success? ==>
        ParseWords(src, p) == Success(end.(di := p.di.(data := words + [Byte0(Word(StoI(tok.val).value))]))))
  {
    hide NextToken, ParseWords, ParseHalves, ArgsText, At, Stops, CursorAfter, OperandToken, WordBytes, HalfBytes,
      Readable, AllReadable, AllLiteral, SkipSpace, Classify, OrdinaryText, StoI, Word, Byte0;
    WordsRun(src, p, args);
    HalvesRun(src, p, args);
    SpaceStays(src, p.cur.pos + |ArgsText(args)|, p.cur.line);
    var w := AfterList(src, p, args, p.di.data + WordBytes(args));
    var h := AfterList(src, p, args, p.di.data + HalfBytes(args));
    TokenTaken(src, w, d, s, tok, bad);
    TokenTaken(src, h, d, s, tok, bad);
    LineCounted(src, d.pos + |s|, d.line);
    HalvesStop(src, h, NextToken(src, h).value);
    if tok.ty != SymLiteral {
      WordsStop(src, w, NextToken(src, w).value);
    } else if StoI(tok.val).Success? {
      WordsLast(src, w, NextToken(src, w).value);
    }
  }

  lemma TokenTaken(src: string, p: Parse, d: Cursor, s: string, tok: Token, bad: bool)
    requires SkipSpace(src, p.cur) == d && OrdinaryText(s) && At(src, d.pos, s) && Stops(src, d.pos + |s|)
    requires Classify(s) == Success((tok, bad))
    ensures NextToken(src, p) ==
      Success(Parse(CursorAfter(src, d.pos + |s|, d.line), tok, p.ti.(error := p.ti.error || bad), p.di))
  {
    hide ScanToken, Classify, At, Stops, OrdinaryText, SkipSpace, CursorAfter;
    TokenAfterSpace(src, p.cur, d, s);
  }

  // ---- Strings ----

  function QuotedBytes(s: string): seq<bv8> { seq(|s|, i requires 0 <= i < |s| => Byte0(Word(s[i] as int))) }

  // How many characters of a string fit the token buffer after its quote.
  const MAX_QUOTED := 510

  /** Every character is copied into the token, and the closing quote too. */
  predicate AllKept(s: string) { |s| < MAX_QUOTED && forall i :: 0 <= i < |s| ==> Kept(s[i]) }

  /** Where the token of a quoted string ends: at a blank, separator, comment or NUL, or where the buffer is full. */
  function QuoteCut(s: string, i: nat): (j: nat)
    requires i <= |s| && i <= MAX_QUOTED && forall k :: 0 <= k < i ==> Kept(s[k])
    ensures i <= j <= |s| && j <= MAX_QUOTED && (forall k :: 0 <= k < j ==> Kept(s[k]))
    ensures j == MAX_QUOTED || j == |s| || !Kept(s[j])
    decreases |s| - i
  {
    if i == |s| || i == MAX_QUOTED || !Kept(s[i]) then i else QuoteCut(s, i + 1)
  }

  /** The part of a string that is stored: all of it, or what comes before the cut without its last character. */
  function StoredPart(s: string): string {
    if AllKept(s) then s
    else
      var j := QuoteCut(s, 0);
      s[..if j == 0 then 0 else j - 1]
  }

  // What scanning copies of some characters that are kept, up to where the buffer is full or one is not.
  lemma {:induction false} ScanCut(src: string, c: Cursor, w: string, idx: nat)
    requires At(src, c.pos, w) && (forall i :: 0 <= i < |w| ==> Kept(w[i])) && idx + |w| <= TOKEN_BUF_SIZE - 1
    requires idx + |w| == TOKEN_BUF_SIZE - 1 || !Kept(CharAt(src, c.pos + |w|))
    ensures var r := ScanChars(src, c, idx); r.Success? ==> CString(r.value.0) == w
    decreases |w|
  {
    hide LeaveComment, HasNewline;
    if w != "" {
      AtChar(src, c.pos, w, 0);
      AtPart(src, c.pos, w, 1, |w|);
      ScanCut(src, Next(src, c), w[1..], idx + 1);
      assert w == [w[0]] + w[1..];
    }
  }

  /** Scanning ends when a newline is ahead. */
  lemma {:induction false} ScanEnds(src: string, c: Cursor, idx: nat)
    requires idx <= TOKEN_BUF_SIZE - 1 && HasNewline(src, c.pos)
    ensures ScanChars(src, c, idx).Success?
    decreases TOKEN_BUF_SIZE - 1 - idx
  {
    var ch := CharAt(src, c.pos);
    if idx < TOKEN_BUF_SIZE - 1 && ch != ' ' && ch != '\n' && !IsSeparator(ch) && ch != '#' {
      ScanEnds(src, Next(src, c), idx + 1);
    }
  }

  /** A quoted string at the cursor, one space on; when it is copied whole, something ends the token after it. */
  predicate QuotedAt(src: string, pos: nat, s: string) {
    CharAt(src, pos) == ' ' && At(src, pos + 1, "\"" + s + "\"") && (AllKept(s) ==> !Kept(CharAt(src, pos + 3 + |s|)))
  }

  function TokenOf(s: string): string { "\"" + if AllKept(s) then s + "\"" else s[..QuoteCut(s, 0)] }

  // The token is what the text has up to where it is cut.
  lemma TokenStands(src: string, pos: nat, s: string)
    requires QuotedAt(src, pos, s)
    ensures var w := TokenOf(s);
      At(src, pos + 1, w) && 0 < |w| <= TOKEN_BUF_SIZE - 1 && w[0] == '"' && forall i :: 0 <= i < |w| ==> Kept(w[i])
    ensures var w := TokenOf(s); |w| == TOKEN_BUF_SIZE - 1 || !Kept(CharAt(src, pos + 1 + |w|))
  {
    hide QuoteCut, Kept, At;
    var t, w := "\"" + s + "\"", TokenOf(s);
    QuoteKept();
    AtPart(src, pos + 1, t, 0, |w|);
    assert t[0..|w|] == w;
    if |w| < |t| {
      AtChar(src, pos + 1, t, |w|);
    }
  }

  lemma QuotedToken(src: string, c: Cursor, s: string)
    requires QuotedAt(src, c.pos, s)
    ensures var r := ScanToken(src, c); r.Success? ==> r.value.0 == TokenOf(s)
    ensures HasNewline(src, c.pos) ==> ScanToken(src, c).Success?
  {
    hide ScanChars, CString, HasNewline, TokenOf, Kept, At;
    var d, w := Cursor(c.pos + 1, c.line), TokenOf(s);
    TokenStands(src, c.pos, s);
    AtChar(src, c.pos + 1, w, 0);
    assert SkipSpace(src, c) == d && SkipSeparators(src, d) == d;
    ScanCut(src, d, w, 0);
    if HasNewline(src, c.pos) {
      NewlineOn(src, c.pos);
      ScanEnds(src, d, 0);
    }
  }

  lemma QuoteKept()
    ensures Kept('"') && !IsSpace('"') && !IsSeparator('"')
  {}

  lemma NewlineOn(src: string, pos: nat)
    requires HasNewline(src, pos) && CharAt(src, pos) != '\n'
    ensures HasNewline(src, pos + 1)
  {}

  lemma QuoteBytes(s: string)
    ensures StringBytes(TokenOf(s)) == QuotedBytes(StoredPart(s))
  {
    hide Word, Byte0, AllKept, QuoteCut;
    if AllKept(s) {
      assert "\"" + (s + "\"") == "\"" + s + "\"";
      WholeBytes(s);
    } else {
      var j := QuoteCut(s, 0);
      CutBytes(s[..j]);
      if j > 0 {
        assert s[..j][..j - 1] == s[..j - 1];
      }
    }
  }

  lemma WholeBytes(s: string)
    ensures StringBytes("\"" + s + "\"") == QuotedBytes(s)
  {
    hide Word, Byte0;
  }

  lemma CutBytes(t: string)
    ensures StringBytes("\"" + t) == QuotedBytes(if t == "" then "" else t[..|t| - 1])
  {
    hide Word, Byte0;
  }

  /** Less than the whole string is stored unless all its characters are kept. */
  lemma PartIsLess(s: string)
    ensures if AllKept(s) then StoredPart(s) == s else |QuotedBytes(StoredPart(s))| < |QuotedBytes(s)|
  {
    hide Word, Byte0, Kept;
  }

  /**
   An .asciiz directive stores its string whole exactly when no character of it ends a token and it fits
   the buffer. Otherwise it stores what comes before the first that does, without the last character,
   which it takes for the quote; there is no error mark either way.
   */
  lemma AsciizStores(src: string, p: Parse, s: string)
    requires QuotedAt(src, p.cur.pos, s)
    ensures var r := ParseAsciiz(src, p);
      (HasNewline(src, p.cur.pos) ==> r.Success?) &&
      (r.Success? ==>
        r.value.di ==
          p.di.(directive := DirAsciiz, lineNum := p.cur.line, data := p.di.data + QuotedBytes(StoredPart(s))) &&
        r.value.ti == p.ti && (r.value.di.data == p.di.data + QuotedBytes(s) <==> AllKept(s)))
  {
    hide ScanToken, HasNewline, StoredPart, QuotedBytes, QuoteCut, AllKept, StringBytes, ClassifyLower, TokenOf;
    QuotedToken(src, p.cur, s);
    TokenStands(src, p.cur.pos, s);
    QuoteBytes(s);
    PartIsLess(s);
    var r := NextToken(src, StartData(p, DirAsciiz));
    if r.Success? {
      assert p.ti.(error := p.ti.error || false) == p.ti;
    }
  }

  /** The string of the repository's example program. */
  lemma HelloWorld()
    ensures StoredPart("Hello World\\n") == "Hell"
  {
    var s := "Hello World\\n";
    assert s[5] == ' ' && forall i :: 0 <= i < 5 ==> Kept(s[i]);
    CutAt(s, 0, 5);
    assert !AllKept(s);
    assert s[..4] == "Hell";
  }

  lemma {:induction false} CutAt(s: string, i: nat, j: nat)
    requires i <= j < |s| && j < MAX_QUOTED && !Kept(s[j]) && forall k :: 0 <= k < j ==> Kept(s[k])
    ensures QuoteCut(s, i) == j
    decreases j - i
  {
    if i < j {
      CutAt(s, i + 1, j);
    }
  }

  /** The lexer goes on with the rest of the string: after a comma, at any other blank or separator that cut it. */
  lemma AsciizRest(src: string, p: Parse, s: string)
    requires QuotedAt(src, p.cur.pos, s)
    requires var j := QuoteCut(s, 0);
      j < |s| && j < MAX_QUOTED - 1 && (s[j] == ' ' || IsSeparator(s[j]))
    ensures var r, e := ParseAsciiz(src, p), p.cur.pos + 2 + QuoteCut(s, 0);
      r.Success? && r.value.cur.pos == if CharAt(src, e) == ',' then e + 1 else e
  {
    hide ScanToken, QuotedBytes, QuoteCut, StringBytes, ClassifyLower, Kept, CursorAfter, At, TokenOf;
    var j := QuoteCut(s, 0);
    var w := TokenOf(s);
    CutToken(s);
    TokenStands(src, p.cur.pos, s);
    AtChar(src, p.cur.pos + 1, "\"" + s + "\"", j + 1);
    QuoteOrdinary(w);
    TokenScanned(src, p.cur.pos, p.cur.line, 1, w);
    EndsThere(src, p.cur.pos + 1 + |w|, p.cur.line);
  }

  lemma CutToken(s: string)
    requires QuoteCut(s, 0) < |s| && QuoteCut(s, 0) < MAX_QUOTED
    ensures TokenOf(s) == "\"" + s[..QuoteCut(s, 0)]
  {
    hide Kept;
  }

  lemma QuoteOrdinary(w: string)
    requires 0 < |w| < TOKEN_BUF_SIZE - 1 && w[0] == '"' && forall i :: 0 <= i < |w| ==> Kept(w[i])
    ensures OrdinaryText(w)
  {}

  lemma EndsThere(src: string, e: nat, line: nat)
    requires CharAt(src, e) == ' ' || IsSeparator(CharAt(src, e))
    ensures CursorAfter(src, e, line).pos == if CharAt(src, e) == ',' then e + 1 else e
  {}

  // ---- Characters ----

  lemma QuoteIsNoMnemonic(s: string)
    requires s != "" && s[0] == '\''
    ensures OpOf(s).OpNull?
  {
    hide MnemonicText, OpOf;
    forall op: Op | MnemonicText(op) == s
      ensures !HasMnemonic(op)
    {
      if HasMnemonic(op) {
        MnemonicLetters(op);
      }
    }
    OtherNotFound(s);
  }

  lemma CharacterClassified(raw: string)
    requires |raw| >= 2 && raw[0] == '\''
    ensures Classify(raw) == Success(
      if |raw| > 2 && raw[2] == '\'' then (Token(SymLabel, Lower(raw), ""), false)
      else (Token(SymChar, [raw[1]], ""), true))
  {
    hide OpOf, ExtractReg;
    QuoteIsNoMnemonic(Lower(raw));
  }

  lemma OneDigit(c: char)
    ensures StoI([c]) == if IsDigit(c) then Success(c as int - '0' as int) else Failure(NotANumber)
  {
    var s := [c];
    if IsDigit(c) {
      Operands.DigitsEndAt(s, 0, 1);
      assert s[0..1] == s && s[..0] == "";
      assert DecimalValue(s) == c as int - '0' as int;
    }
  }

  /**
   A .byte directive takes the digit after a quote, and the line is then in error; a character between
   two quotes is a label to the lexer, and puts the data line in error instead.
   */
  lemma ByteRead(src: string, p: Parse, raw: string)
    requires CharAt(src, p.cur.pos) == ' ' && At(src, p.cur.pos + 1, raw) && Stops(src, p.cur.pos + 1 + |raw|)
    requires OrdinaryText(raw) && |raw| >= 2 && raw[0] == '\''
    ensures var r, d := ParseByte(src, p), raw[1] as int - '0' as int;
      if |raw| > 2 && raw[2] == '\'' then
        r.Success? && r.value.di == p.di.(directive := DirByte, error := true) && r.value.ti == p.ti
      else if IsDigit(raw[1]) then
        r.Success? && r.value.ti.error &&
        r.value.di == p.di.(directive := DirByte, data := p.di.data + [Byte0(Word(d))])
      else r == Failure(NotANumber)
  {
    hide NextToken, At, Stops, OrdinaryText, StoI, Word, Byte0, Lower;
    CharacterToken(src, p.(di := p.di.(directive := DirByte)), raw);
    OneDigit(raw[1]);
  }

  lemma CharacterToken(src: string, p: Parse, raw: string)
    requires CharAt(src, p.cur.pos) == ' ' && At(src, p.cur.pos + 1, raw) && Stops(src, p.cur.pos + 1 + |raw|)
    requires OrdinaryText(raw) && |raw| >= 2 && raw[0] == '\''
    ensures var r := NextToken(src, p);
      r.Success? && r.value.di == p.di &&
      if |raw| > 2 && raw[2] == '\'' then r.value.tok.ty == SymLabel && r.value.ti == p.ti
      else r.value.tok == Token(SymChar, [raw[1]], "") && r.value.ti == p.ti.(error := true)
  {
    hide ScanToken, Classify, At, Stops, OrdinaryText, CursorAfter, Lower;
    TokenScanned(src, p.cur.pos, p.cur.line, 1, raw);
    CharacterClassified(raw);
    assert p.ti.(error := p.ti.error || false) == p.ti && p.ti.(error := p.ti.error || true) == p.ti.(error := true);
  }
}
