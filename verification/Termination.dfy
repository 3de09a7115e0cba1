/**
 When lexing ends: the only loop that may not is the one that skips a comment, and every comment
 of a text read from a file is ended by a newline.
 */
module Termination {
  import opened Source
  import opened Layout
  import opened Scanner
  import opened PrintedLines
  import Words

  /** The outcome is not a comment that never ends. */
  predicate Ends<T>(r: Result<T>) { r.Failure? ==> !r.fault.OpenComment? }

  lemma StoIEnds(s: string)
    ensures Ends(StoI(s))
  {
    hide DigitsEnd, DecimalValue;
  }

  lemma {:induction false} DollarEnds(token: string, i: nat, depth: nat, offset: string)
    requires i <= |token|
    ensures Ends(ScanToDollar(token, i, depth, offset))
    decreases |token| - i
  {
    if i < |token| && token[i] != '$' {
      if token[i] == '(' {
        DollarEnds(token, i + 1, depth + 1, offset);
      } else if token[i] == ')' {
        if depth > 0 {
          DollarEnds(token, i + 1, depth - 1, offset);
        }
      } else if IsDigit(token[i]) {
        var e := DigitsEnd(token, i);
        DollarEnds(token, e, depth, token[i..e]);
      } else {
        DollarEnds(token, i + 1, depth, offset);
      }
    }
  }

  lemma ClassifyEnds(raw: string)
    ensures Ends(Classify(raw))
  {
    hide ScanToDollar, OpOf, CloseParen, RegIdx, Decimal, Lower;
    DollarEnds(Lower(raw), 0, 0, "-1");
  }

  // ---- Where comments are entered ----

  lemma {:induction false} CharsEnd(src: string, c: Cursor, idx: nat)
    requires CommentsClosed(src) && idx <= TOKEN_BUF_SIZE - 1
    ensures Ends(ScanChars(src, c, idx))
    decreases TOKEN_BUF_SIZE - 1 - idx
  {
    hide HasNewline;
    var ch := CharAt(src, c.pos);
    if !(idx == TOKEN_BUF_SIZE - 1 || ch == ' ' || ch == '\n' || IsSeparator(ch) || ch == '#') {
      CharsEnd(src, Next(src, c), idx + 1);
    }
  }

  lemma TokenEnds(src: string, p: Parse)
    requires CommentsClosed(src)
    ensures Ends(NextToken(src, p))
  {
    hide ScanChars, Classify, CommentsClosed;
    CharsEnd(src, SkipSeparators(src, SkipSpace(src, p.cur)), 0);
    if ScanToken(src, p.cur).Success? {
      ClassifyEnds(ScanToken(src, p.cur).value.0);
    }
  }

  lemma RegisterEnds(src: string, p: Parse)
    requires CommentsClosed(src)
    ensures Ends(ParseRegister(src, p))
  {
    hide NextToken, StoI, CommentsClosed;
    TokenEnds(src, p);
    if NextToken(src, p).Success? {
      StoIEnds(NextToken(src, p).value.tok.val);
      StoIEnds(NextToken(src, p).value.tok.offset);
    }
  }

  lemma ImmediateEnds(src: string, p: Parse)
    requires CommentsClosed(src)
    ensures Ends(ParseImmediate(src, p))
  {
    hide NextToken, StoI, CommentsClosed;
    TokenEnds(src, p);
    if NextToken(src, p).Success? {
      StoIEnds(NextToken(src, p).value.tok.val);
    }
  }

  lemma REnds(src: string, p: Parse)
    requires CommentsClosed(src)
    ensures Ends(ParseR(src, p))
  {
    hide ParseRegister, CommentsClosed;
    RegisterEnds(src, p);
  }

  lemma TwoEnd(src: string, p: Parse)
    requires CommentsClosed(src)
    ensures Ends(ParseRR(src, p)) && Ends(ParseRRO(src, p)) && Ends(ParseRI(src, p))
  {
    hide ParseR, ParseRegister, ParseImmediate, CommentsClosed;
    REnds(src, p);
    if ParseR(src, p).Success? {
      var q := ParseR(src, p).value;
      RegisterEnds(src, q);
      ImmediateEnds(src, SetA1(q, NO_ARG));
    }
  }

  lemma ThirdEnds(src: string, p: Parse)
    requires CommentsClosed(src)
    ensures Ends(ParseThird(src, p))
  {
    hide ParseImmediate, CommentsClosed;
    ImmediateEnds(src, p);
  }

  lemma ThreeEnd(src: string, p: Parse)
    requires CommentsClosed(src)
    ensures Ends(ParseRRI(src, p)) && Ends(ParseRRR(src, p))
  {
    hide ParseR, ParseRegister, ParseThird, CommentsClosed;
    REnds(src, p);
    if ParseR(src, p).Success? {
      var q := ParseR(src, p).value;
      RegisterEnds(src, q);
      if ParseRegister(src, q).Success? {
        var s := SetA1(ParseRegister(src, q).value.1, ParseRegister(src, q).value.0);
        ThirdEnds(src, s);
        RegisterEnds(src, s);
      }
    }
  }

  lemma InstrEnds(src: string, p: Parse, lineNum: nat)
    requires CommentsClosed(src)
    ensures Ends(ParseInstr(src, p, lineNum))
  {
    hide ParseR, ParseImmediate, ParseRR, ParseRI, ParseRRO, ParseRRI, ParseRRR, OpOf, ShapeOf, Flagged, CommentsClosed;
    var q := p.(ti := Flagged(p.ti, OpOf(p.tok.val)));
    REnds(src, q);
    ImmediateEnds(src, q);
    TwoEnd(src, q);
    ThreeEnd(src, q);
  }

  // ---- Directives ----

  lemma {:induction false} WordsEnd(src: string, p: Parse)
    requires CommentsClosed(src)
    ensures Ends(ParseWords(src, p))
    decreases |src| - p.cur.pos
  {
    hide NextToken, StoI, CommentsClosed, Words.Byte0, Words.Word;
    if p.cur.line <= p.di.lineNum {
      TokenEnds(src, p);
      if NextToken(src, p).Success? && NextToken(src, p).value.tok.ty == SymLiteral {
        var q := NextToken(src, p).value;
        StoIEnds(q.tok.val);
        if StoI(q.tok.val).Success? {
          WordsEnd(src, q.(di := q.di.(data := q.di.data + [Words.Byte0(Words.Word(StoI(q.tok.val).value))])));
        }
      }
    }
  }

  lemma {:induction false} HalvesEnd(src: string, p: Parse)
    requires CommentsClosed(src)
    ensures Ends(ParseHalves(src, p))
    decreases |src| - p.cur.pos
  {
    hide NextToken, StoI, CommentsClosed, Words.Byte0, Words.Word;
    if p.cur.line <= p.di.lineNum {
      TokenEnds(src, p);
      if NextToken(src, p).Success? && NextToken(src, p).value.tok.ty == SymLiteral {
        var q := NextToken(src, p).value;
        StoIEnds(q.tok.val);
        if StoI(q.tok.val).Success? {
          var v := StoI(q.tok.val).value;
          var half := if v > 0xFFFF then 0xFFFF else v;
          HalvesEnd(src, q.(di := q.di.(data := q.di.data + [Words.Byte0(Words.Word(half))])));
        }
      }
    }
  }

  lemma OneTokenEnds(src: string, p: Parse)
    requires CommentsClosed(src)
    ensures Ends(ParseAsciiz(src, p)) && Ends(ParseByte(src, p)) && Ends(ParseSpace(src, p))
  {
    hide NextToken, StoI, CommentsClosed, StringBytes, Words.Byte0, Words.Word;
    var a, b, s := StartData(p, DirAsciiz), p.(di := p.di.(directive := DirByte)), StartData(p, DirSpace);
    TokenEnds(src, a);
    TokenEnds(src, b);
    TokenEnds(src, s);
    if NextToken(src, b).Success? {
      StoIEnds(NextToken(src, b).value.tok.val);
    }
    if NextToken(src, s).Success? {
      StoIEnds(NextToken(src, s).value.tok.val);
    }
  }

  lemma DirectiveEnds(src: string, p: Parse, lineNum: nat)
    requires CommentsClosed(src)
    ensures Ends(ParseDirective(src, p, lineNum))
  {
    hide ParseAsciiz, ParseByte, ParseSpace, ParseWords, ParseHalves, StartData, DirectiveOf, CommentsClosed;
    OneTokenEnds(src, p);
    WordsEnd(src, StartData(p, DirWord));
    HalvesEnd(src, StartData(p, DirHalf));
  }

  // ---- Lines ----

  lemma BodyEnds(src: string, p: Parse, lineNum: nat)
    requires CommentsClosed(src)
    ensures Ends(ParseBody(src, p, lineNum))
  {
    hide ParseDirective, ParseInstr, CommentsClosed;
    DirectiveEnds(src, p, lineNum);
    InstrEnds(src, p, lineNum);
  }

  lemma LineEnds(src: string, cur: Cursor, mode: LexMode)
    requires CommentsClosed(src)
    ensures Ends(ParseLine(src, cur, mode))
  {
    hide NextToken, ParseBody, MarkLabel, CommentsClosed;
    var start := Parse(cur, NO_TOKEN, BLANK_TEXT, BLANK_DATA);
    TokenEnds(src, start);
    if NextToken(src, start).Success? {
      var p := NextToken(src, start).value;
      BodyEnds(src, p, cur.line);
      var m := MarkLabel(p, mode, p.tok.val).(cur := Next(src, p.cur));
      TokenEnds(src, m);
      if NextToken(src, m).Success? {
        BodyEnds(src, NextToken(src, m).value, NextToken(src, m).value.cur.line);
      }
    }
  }

  /** Lexing ends on every text in which each comment character has a newline after it. */
  lemma {:induction false} LexingEnds(src: string, c: Cursor, mode: LexMode)
    requires CommentsClosed(src)
    ensures Ends(LexLines(src, c, mode))
    decreases |src| - c.pos
  {
    hide ParseLine, HasNewline;
    var ch := CharAt(src, c.pos);
    if ch == '\0' {
    } else if IsSpace(ch) {
      LexingEnds(src, Next(src, c), mode);
    } else if IsComment(ch) {
      assert HasNewline(src, c.pos);
      LexingEnds(src, LeaveComment(src, c).value, mode);
    } else {
      LineEnds(src, c, mode);
      var r := ParseLine(src, c, mode);
      if r.Success? {
        LexingEnds(src, r.value.1.cur, ModeAfter(mode, r.value.0.body));
      }
    }
  }

  // ---- Texts from files ----

  /** The text a file is read into: every line with a newline after it, and a NUL at the end. */
  function FileText(lines: seq<string>): string {
    if lines == [] then "\0" else lines[0] + "\n" + FileText(lines[1..])
  }

  lemma {:induction false} NewlineAhead(src: string, i: nat, j: nat)
    requires i <= j < |src| && src[j] == '\n'
    ensures HasNewline(src, i)
    decreases j - i
  {
    if i < j {
      NewlineAhead(src, i + 1, j);
    }
  }

  lemma {:induction false} CommentInFile(lines: seq<string>, i: nat) returns (j: nat)
    requires IsComment(CharAt(FileText(lines), i))
    ensures i <= j < |FileText(lines)| && FileText(lines)[j] == '\n'
  {
    assert lines != [];
    var line, rest := lines[0], FileText(lines[1..]);
    if i <= |line| {
      j := |line|;
    } else {
      assert CharAt(rest, i - |line| - 1) == CharAt(FileText(lines), i);
      var k := CommentInFile(lines[1..], i - |line| - 1);
      j := k + |line| + 1;
    }
  }

  /** Every comment of a file's text is ended by a newline. */
  lemma FileClosed(lines: seq<string>)
    ensures CommentsClosed(FileText(lines))
  {
    hide FileText, HasNewline;
    forall i: nat | IsComment(CharAt(FileText(lines), i))
      ensures HasNewline(FileText(lines), i)
    {
      var j := CommentInFile(lines, i);
      NewlineAhead(FileText(lines), i, j);
    }
  }

  /** So lexing a file always ends. */
  lemma FileLexingEnds(lines: seq<string>, mode: LexMode)
    ensures Ends(LexLines(FileText(lines), Cursor(0, 1), mode))
  {
    hide FileText, LexLines, CommentsClosed;
    FileClosed(lines);
    LexingEnds(FileText(lines), Cursor(0, 1), mode);
  }

  // ---- Other texts ----

  /** What one pass of the main loop does. */
  datatype Pass = Done | Stopped(fault: Fault) | Onward(cur: Cursor, mode: LexMode)

  function OnePass(src: string, c: Cursor, mode: LexMode): Pass {
    var ch := CharAt(src, c.pos);
    if ch == '\0' then Done
    else if IsSpace(ch) then Onward(Next(src, c), mode)
    else if IsComment(ch) then
      match LeaveComment(src, c)
      case Success(d) => Onward(d, mode)
      case Failure(f) => Stopped(f)
    else
      match ParseLine(src, c, mode)
      case Success((line, p)) => Onward(p.cur, ModeAfter(mode, line.body))
      case Failure(f) => Stopped(f)
  }

  /** Where the main loop is after `n` passes, if it makes as many. */
  function Reaches(src: string, c: Cursor, mode: LexMode, n: nat): Pass
    decreases n
  {
    if n == 0 then Onward(c, mode)
    else
      match OnePass(src, c, mode)
      case Onward(d, m) => Reaches(src, d, m, n - 1)
      case Done => Done
      case Stopped(f) => Stopped(f)
  }

  predicate StopsAfter(src: string, c: Cursor, mode: LexMode, n: nat, f: Fault) {
    Reaches(src, c, mode, n) == Stopped(f)
  }

  lemma PassLexes(src: string, c: Cursor, mode: LexMode, f: Fault)
    ensures LexLines(src, c, mode) == Failure(f) <==>
      match OnePass(src, c, mode)
      case Done => false
      case Stopped(g) => g == f
      case Onward(d, m) => LexLines(src, d, m) == Failure(f)
  {
    hide ParseLine, HasNewline, SkipComment;
  }

  lemma {:induction false} StopFails(src: string, c: Cursor, mode: LexMode, n: nat, f: Fault)
    requires StopsAfter(src, c, mode, n, f)
    ensures LexLines(src, c, mode) == Failure(f)
    decreases n
  {
    hide OnePass, LexLines;
    PassLexes(src, c, mode, f);
    var r := OnePass(src, c, mode);
    if r.Onward? {
      StopFails(src, r.cur, r.mode, n - 1, f);
    }
  }

  lemma PassMoves(src: string, c: Cursor, mode: LexMode)
    ensures var r := OnePass(src, c, mode); r.Onward? ==> c.pos < |src| && c.pos < r.cur.pos
  {
    hide ParseLine, HasNewline, SkipComment;
  }

  lemma {:induction false} FailStops(src: string, c: Cursor, mode: LexMode, f: Fault) returns (n: nat)
    requires LexLines(src, c, mode) == Failure(f)
    ensures StopsAfter(src, c, mode, n, f)
    decreases |src| - c.pos
  {
    hide OnePass, LexLines;
    PassLexes(src, c, mode, f);
    PassMoves(src, c, mode);
    var r := OnePass(src, c, mode);
    n := 1;
    if r.Onward? {
      var k := FailStops(src, r.cur, r.mode, f);
      n := k + 1;
    }
  }

  /** The lexer fails exactly when some pass of its main loop does, with that pass's fault. */
  lemma LexingFails(src: string, c: Cursor, mode: LexMode, f: Fault)
    ensures LexLines(src, c, mode) == Failure(f) <==> exists n: nat :: StopsAfter(src, c, mode, n, f)
  {
    hide LexLines, StopsAfter;
    if LexLines(src, c, mode) == Failure(f) {
      var n := FailStops(src, c, mode, f);
    }
    if n: nat :| StopsAfter(src, c, mode, n, f) {
      StopFails(src, c, mode, n, f);
    }
  }

  lemma {:induction false} OneMore(src: string, c: Cursor, mode: LexMode, n: nat)
    ensures Reaches(src, c, mode, n + 1) ==
      match Reaches(src, c, mode, n)
      case Onward(d, m) => OnePass(src, d, m)
      case Done => Done
      case Stopped(f) => Stopped(f)
    decreases n
  {
    hide OnePass;
    var r := OnePass(src, c, mode);
    if n == 0 {
      assert r.Onward? ==> Reaches(src, r.cur, r.mode, 0) == r;
    } else if r.Onward? {
      OneMore(src, r.cur, r.mode, n - 1);
    }
  }

  /** Whatever was read before, a comment the lexer comes to that no newline ends is not left. */
  lemma OpenNeverEnds(src: string, c: Cursor, mode: LexMode, n: nat)
    requires var r := Reaches(src, c, mode, n);
      r.Onward? && IsComment(CharAt(src, r.cur.pos)) && !HasNewline(src, r.cur.pos)
    ensures LexLines(src, c, mode) == Failure(OpenComment)
  {
    hide ParseLine, HasNewline, Reaches, LexLines;
    OneMore(src, c, mode, n);
    StopFails(src, c, mode, n + 1, OpenComment);
  }

  /** A token that runs into an open comment. */
  predicate OpenAt(src: string, pos: nat, e: nat, idx: nat) {
    pos <= e && idx + e - pos < TOKEN_BUF_SIZE - 1 && CharAt(src, e) == '#' && !HasNewline(src, e) &&
    forall k :: pos <= k < e ==> InToken(CharAt(src, k))
  }

  ghost predicate RunsIntoComment(src: string, pos: nat, idx: nat) { exists e :: OpenAt(src, pos, e, idx) }

  predicate InToken(ch: char) { ch != ' ' && ch != '\n' && !IsSeparator(ch) && ch != '#' }

  lemma {:induction false} OpenScan(src: string, c: Cursor, idx: nat)
    requires idx <= TOKEN_BUF_SIZE - 1
    ensures ScanChars(src, c, idx) == Failure(OpenComment) <==> RunsIntoComment(src, c.pos, idx)
    decreases TOKEN_BUF_SIZE - 1 - idx
  {
    hide HasNewline;
    var ch := CharAt(src, c.pos);
    if idx == TOKEN_BUF_SIZE - 1 || ch == ' ' || ch == '\n' || IsSeparator(ch) {
    } else if ch == '#' {
      if !HasNewline(src, c.pos) {
        assert OpenAt(src, c.pos, c.pos, idx);
      }
    } else {
      var next, j := Next(src, c), idx + 1;
      OpenScan(src, next, j);
      if e: nat :| OpenAt(src, c.pos, e, idx) {
        assert OpenAt(src, next.pos, e, j);
      }
      if e: nat :| OpenAt(src, next.pos, e, j) {
        assert OpenAt(src, c.pos, e, idx);
      }
    }
  }

  /** Scanning a token comes to an open comment exactly when its characters run into one. */
  lemma TokenOpens(src: string, c: Cursor)
    ensures var d := SkipSeparators(src, SkipSpace(src, c));
      ScanToken(src, c) == Failure(OpenComment) <==> RunsIntoComment(src, d.pos, 0)
  {
    hide ScanChars, SkipSpace, SkipSeparators, CString, RunsIntoComment;
    var d := SkipSeparators(src, SkipSpace(src, c));
    OpenScan(src, d, 0);
  }

  /** The character the C++ loop sees after `k` steps: its 32-bit position wraps, and past the end there is NUL. */
  predicate NewlineAfter(src: string, pos: nat, k: nat) { CharAt(src, (pos + k) % Words.MODULUS) == '\n' }

  lemma {:induction false} NewlineSomewhere(src: string, i: nat) returns (j: nat)
    requires HasNewline(src, i)
    ensures i <= j < |src| && src[j] == '\n'
    decreases |src| - i
  {
    if src[i] == '\n' {
      j := i;
    } else {
      j := NewlineSomewhere(src, i + 1);
    }
  }

  /** With the position wrapping, the loop that skips a comment is left exactly when the text has a newline anywhere. */
  lemma WrappedLoopEnds(src: string, pos: nat)
    requires |src| <= Words.MODULUS && pos < Words.MODULUS
    ensures (exists k: nat :: NewlineAfter(src, pos, k)) <==> HasNewline(src, 0)
  {
    hide HasNewline;
    if HasNewline(src, 0) {
      var j := NewlineSomewhere(src, 0);
      var k := if j >= pos then j - pos else j + Words.MODULUS - pos;
      WrapTo(pos, j);
      assert NewlineAfter(src, pos, k);
    }
    if k: nat :| NewlineAfter(src, pos, k) {
      NewlineAhead(src, 0, (pos + k) % Words.MODULUS);
    }
  }

  lemma WrapTo(pos: nat, j: nat)
    requires pos < Words.MODULUS && j < Words.MODULUS
    ensures (pos + if j >= pos then j - pos else j + Words.MODULUS - pos) % Words.MODULUS == j
  {}

  /** Separators before a token are skipped, semicolons too: the comment that seems to start there is a token. */
  lemma SeparatorEatsComment(src: string, c: Cursor, s: string)
    requires var e := SkipSeparators(src, SkipSpace(src, c));
      OrdinaryText(s) && At(src, e.pos, s) && Stops(src, e.pos + |s|)
    ensures var e := SkipSeparators(src, SkipSpace(src, c));
      ScanToken(src, c) == Success((s, CursorAfter(src, e.pos + |s|, e.line)))
  {
    hide SkipSpace, SkipSeparators, ScanChars, CString, PrintedLines.CharsEnd, CursorAfter, Stops;
    var e := SkipSeparators(src, SkipSpace(src, c));
    CharsScanned(src, e.pos, e.line, s, 0);
    NoNul(s);
    CommaSkipped(src, e.pos + |s|, e.line);
  }

  lemma EntryName(k: nat)
    requires k < NUM_INSTRS
    ensures var m := InstrEntry(k).0; |m| >= 2 || m == "j"
  {}

  lemma {:induction false} ShortUnknown(m: string, k: nat)
    requires |m| == 1 && m != "j" && k <= NUM_INSTRS
    ensures OpFrom(m, k).OpNull?
    decreases NUM_INSTRS - k
  {
    hide InstrEntry;
    if k < NUM_INSTRS {
      EntryName(k);
      ShortUnknown(m, k + 1);
    }
  }

  lemma LetterClassified(m: string)
    requires |m| == 1 && 'k' <= m[0] <= 'z'
    ensures Classify(m) == Success((Token(SymLabel, m, ""), false))
  {
    hide OpFrom, ExtractReg;
    ShortUnknown(m, 0);
    assert Lower(m) == m;
  }

  lemma {:induction false} PastEnd(src: string, c: Cursor, idx: nat)
    requires c.pos >= |src| && idx <= TOKEN_BUF_SIZE - 1
    ensures ScanChars(src, c, idx).Success?
    decreases TOKEN_BUF_SIZE - 1 - idx
  {
    if idx < TOKEN_BUF_SIZE - 1 {
      PastEnd(src, Next(src, c), idx + 1);
    }
  }

  const EXAMPLE := "x ;y"

  lemma FirstToken()
    ensures ScanToken(EXAMPLE, Cursor(0, 1)) == Success(("x", Cursor(1, 1)))
  {
    assert ScanChars(EXAMPLE, Cursor(1, 1), 1) == Success(("", Cursor(1, 1)));
    assert ['x'] + "" == "x";
  }

  lemma SecondToken()
    ensures var r := ScanToken(EXAMPLE, Cursor(2, 1)); r.Success? && r.value.0 == "y" && r.value.1.pos >= 4
  {
    PastEnd(EXAMPLE, Cursor(4, 1), 1);
    var r := ScanChars(EXAMPLE, Cursor(4, 1), 1).value;
    assert SkipSeparators(EXAMPLE, Cursor(2, 1)) == Cursor(3, 1);
    assert ScanChars(EXAMPLE, Cursor(3, 1), 0) == Success((['y'] + r.0, r.1));
    assert (['y'] + r.0)[1..] == r.0;
    assert CString(r.0) == "";
    assert ['y'] + "" == "y";
  }

  /** So this text ends, with no newline in it. */
  lemma SeparatorExample(mode: LexMode)
    ensures LexLines(EXAMPLE, Cursor(0, 1), mode).Success? && !CommentsClosed(EXAMPLE)
  {
    hide OpFrom, Classify, ScanToken, HasNewline, ParseDirective, ParseInstr;
    assert CharAt(EXAMPLE, 2) == ';' && !HasNewline(EXAMPLE, 2) by { NoNewline(); }
    FirstToken();
    SecondToken();
    LetterClassified("x");
    LetterClassified("y");
    var e := ScanToken(EXAMPLE, Cursor(2, 1)).value.1;
    assert forall m: LexMode :: LexLines(EXAMPLE, e, m) == Success([]);
  }

  lemma NoNewline()
    ensures !HasNewline(EXAMPLE, 2)
  {
    assert !HasNewline(EXAMPLE, 4);
    assert !HasNewline(EXAMPLE, 3);
  }
}
