/**
 The lexer object: it walks the source text, fills the token buffer, builds one line at a time
 in place, appends expanded lines to the source info, and resolves labels at the end.
 Every method is proved against a function of the modules Scanner and Layout.
 */
module Lexer {
  import opened Words
  import opened Source
  import opened Layout
  import opened Scanner

  datatype Outcome = Pass | Fail(fault: Fault) {
    predicate IsFailure() { Fail? }

    function PropagateFailure(): Outcome
      requires Fail?
    {
      this
    }
  }

  /** A method's outcome and value are those of a result: the same value, or the same fault. */
  predicate Yields<T(==)>(o: Outcome, v: T, r: Result<T>) {
    match r
    case Success(x) => o == Pass && v == x
    case Failure(f) => o == Fail(f)
  }

  /** A classified token with its error mark moved to the line. */
  function MarkError(r: Result<(Token, bool)>, ti: TextInfo): Result<(Token, TextInfo)> {
    match r
    case Success((t, bad)) => Success((t, ti.(error := ti.error || bad)))
    case Failure(f) => Failure(f)
  }

  class Lexer {
    var sourceText: string
    var curChar: char
    var curLine: nat
    var curPos: nat
    var textAddr: int
    var dataAddr: int
    var curMode: LexMode
    var textInfo: TextInfo
    var dataInfo: DataInfo
    var curToken: Token
    const tokenBuf: array<char>
    const source: SourceInfo
    const symTable: SymbolTable

    constructor ()
      ensures Valid() && sourceText == ""
      ensures fresh(tokenBuf) && fresh(source) && fresh(symTable)
      ensures symTable.syms == [] && curMode == TextSegment
    {
      sourceText, curChar, curLine, curPos := "", '\0', 0, 0;
      textAddr, dataAddr, curMode := 0, 0, TextSegment;
      textInfo, dataInfo, curToken := BLANK_TEXT, BLANK_DATA, NO_TOKEN;
      tokenBuf := new char[TOKEN_BUF_SIZE];
      source := new SourceInfo();
      symTable := new SymbolTable();
    }

    ghost predicate Valid()
      reads this
    {
      tokenBuf.Length == TOKEN_BUF_SIZE && curChar == CharAt(sourceText, curPos) &&
      0 <= textAddr < MODULUS && 0 <= dataAddr < MODULUS
    }

    ghost function Cur(): Cursor
      reads this
    {
      Cursor(curPos, curLine)
    }

    ghost function State(): Parse
      reads this
    {
      Parse(Cur(), curToken, textInfo, dataInfo)
    }

    ghost function Output(): Listing
      reads this, source, symTable
    {
      Listing(source.text, source.data, symTable.syms, textAddr, dataAddr, curMode)
    }

    method LoadSource(src: string)
      modifies this`sourceText
      ensures sourceText == src
    {
      sourceText := src;
    }

    // ---- Motion through the source ----

    method Advance()
      requires Valid()
      modifies this`curPos, this`curChar, this`curLine
      ensures Valid() && Cur() == Next(sourceText, old(Cur()))
    {
      curPos := curPos + 1;
      if curPos >= |sourceText| {
        curChar := '\0';
      } else {
        curChar := sourceText[curPos];
      }
      if curChar == '\n' {
        curLine := curLine + 1;
      }
    }

    predicate Exhausted()
      reads this
    {
      curChar == '\0' || curPos >= |sourceText|
    }

    method SkipWhitespace()
      requires Valid()
      modifies this`curPos, this`curChar, this`curLine
      ensures Valid() && Cur() == SkipSpace(sourceText, old(Cur()))
    {
      while !Exhausted()
        invariant Valid() && SkipSpace(sourceText, Cur()) == SkipSpace(sourceText, old(Cur()))
        decreases |sourceText| - curPos
      {
        if curChar == ' ' || curChar == '\n' || curChar == '\t' {
          Advance();
        } else {
          break;
        }
      }
    }

    /** Skips a comment to the newline that ends it; past the end of the text there is none to come. */
    method SkipCommentChars() returns (o: Outcome)
      requires Valid()
      modifies this`curPos, this`curChar, this`curLine
      ensures Yields(o, Cur(), LeaveComment(sourceText, old(Cur()))) && (o.Pass? ==> Valid())
    {
      while curChar != '\n'
        invariant Valid() && HasNewline(sourceText, curPos) == HasNewline(sourceText, old(curPos))
        invariant SkipComment(sourceText, Cur()) == SkipComment(sourceText, old(Cur()))
        decreases |sourceText| - curPos
      {
        if curPos >= |sourceText| {
          return Fail(OpenComment);
        }
        Advance();
      }
      o := Pass;
    }

    method SkipSeparatorChars()
      requires Valid()
      modifies this`curPos, this`curChar, this`curLine
      ensures Valid() && Cur() == SkipSeparators(sourceText, old(Cur()))
    {
      while !Exhausted()
        invariant Valid() && SkipSeparators(sourceText, Cur()) == SkipSeparators(sourceText, old(Cur()))
        decreases |sourceText| - curPos
      {
        if curChar == ',' || curChar == ':' || curChar == ';' {
          Advance();
        } else {
          break;
        }
      }
    }

    // ---- Tokens ----

    /** Moves the current character into the buffer. */
    method StoreChar(idx: nat)
      requires Valid() && idx < TOKEN_BUF_SIZE
      modifies this`curPos, this`curChar, this`curLine, tokenBuf
      ensures Valid() && Cur() == Next(sourceText, old(Cur()))
      ensures tokenBuf[..idx + 1] == old(tokenBuf[..idx]) + [old(curChar)]
    {
      tokenBuf[idx] := curChar;
      Advance();
    }

    /** The copying loop: every index stays inside the buffer, with room for the closing NUL. */
    method CopyChars() returns (idx: nat, o: Outcome)
      requires Valid()
      modifies this`curPos, this`curChar, this`curLine, tokenBuf
      ensures idx < TOKEN_BUF_SIZE && (o.Pass? ==> Valid())
      ensures tokenBuf.Length == TOKEN_BUF_SIZE
      ensures Yields(o, (tokenBuf[..idx], Cur()), ScanChars(sourceText, old(Cur()), 0))
    {
      hide LeaveComment, HasNewline;
      idx := 0;
      ghost var copied := "";
      PrependNothing(copied, ScanChars(sourceText, Cur(), 0));
      while idx < TOKEN_BUF_SIZE - 1
        invariant Valid() && idx <= TOKEN_BUF_SIZE - 1
        invariant copied == tokenBuf[..idx]
        invariant Prepend(copied, ScanChars(sourceText, Cur(), idx)) == ScanChars(sourceText, old(Cur()), 0)
      {
        if curChar == ' ' || curChar == '\n' || curChar == ';' || curChar == ',' || curChar == ':' {
          break;
        }
        if curChar == '#' {
          o := SkipCommentChars();
          PrependNothing(copied, Success(("", Cur())));
          return;
        }
        PrependStep(copied, sourceText, Cur(), idx);
        copied := copied + [curChar];
        StoreChar(idx);
        idx := idx + 1;
      }
      PrependNothing(copied, Success(("", Cur())));
      o := Pass;
    }

    /** Scans one token into the token buffer. */
    method ScanIntoBuffer() returns (o: Outcome)
      requires Valid()
      modifies this`curPos, this`curChar, this`curLine, tokenBuf
      ensures Yields(o, (CString(tokenBuf[..]), Cur()), ScanToken(sourceText, old(Cur()))) && (o.Pass? ==> Valid())
    {
      hide ScanChars;
      SkipWhitespace();
      SkipSeparatorChars();
      var idx;
      idx, o := CopyChars();
      if o.Fail? {
        return;
      }
      ghost var s := tokenBuf[..idx];
      tokenBuf[idx] := '\0';
      assert tokenBuf[..][..idx] == s;
      CStringOfBuffer(tokenBuf[..], idx);
      if curChar == ',' {
        Advance();
      }
    }

    /** Reads the digits at `start`; with no digit there, the value is empty. */
    method ExtractLiteral(token: string, start: nat) returns (t: Token, end: nat)
      requires start <= |token|
      ensures end == DigitsEnd(token, start)
      ensures t == Token(SymLiteral, token[start..end], "")
    {
      var ptr := start;
      while IsDigit(CharAt(token, ptr))
        invariant start <= ptr <= |token| && DigitsEnd(token, ptr) == DigitsEnd(token, start)
        decreases |token| - ptr
      {
        ptr := ptr + 1;
      }
      t := Token(SymLiteral, "", "");
      if ptr != start {
        t := t.(val := if ptr >= |token| then token[start..] else token[start..ptr]);
      }
      end := ptr;
    }

    method FindClose(token: string, start: nat) returns (end: nat)
      requires start <= |token|
      ensures end == CloseParen(token, start)
    {
      end := start;
      while end < |token|
        invariant start <= end <= |token| && CloseParen(token, end) == CloseParen(token, start)
      {
        if token[end] == ')' {
          break;
        }
        end := end + 1;
      }
    }

    method ExtractRegister(token: string) returns (t: Token, o: Outcome)
      ensures Yields(o, t, ExtractReg(token))
    {
      hide RegIdx, Decimal;
      var ptr, parenStack: seq<nat> := 0, [];
      t := Token(SymNone, "", "-1");
      while ptr < |token|
        invariant ptr <= |token|
        invariant ScanToDollar(token, ptr, |parenStack|, t.offset) == ScanToDollar(token, 0, 0, "-1")
        decreases |token| - ptr
      {
        if token[ptr] == '(' {
          parenStack := parenStack + [ptr];
        }
        if token[ptr] == ')' {
          if parenStack == [] {
            return t, Fail(EmptyStack);
          }
          parenStack := parenStack[..|parenStack| - 1];
        }
        if token[ptr] == '$' {
          break;
        }
        if IsDigit(token[ptr]) {
          var end;
          t, end := ExtractLiteral(token, ptr);
          t := t.(offset := t.val);
          ptr := end - 1;
        }
        ptr := ptr + 1;
      }
      var end := |token|;
      if parenStack != [] {
        end := FindClose(token, ptr);
      }
      var idx := RegIdx(token[ptr..end]);
      if idx >= 0 {
        t := t.(ty := SymRegister, val := Decimal(idx));
      } else {
        t := t.(ty := SymNone, val := "");
      }
      o := Pass;
    }

    /** Sets `curToken`, and the error mark of the line, from a scanned string. */
    method SetToken(raw: string) returns (o: Outcome)
      modifies this`curToken, this`textInfo
      ensures textInfo == old(textInfo) || textInfo == old(textInfo).(error := true)
      ensures Yields(o, (curToken, textInfo), MarkError(Classify(raw), old(textInfo)))
    {
      curToken := NO_TOKEN;
      if CharAt(raw, 0) == '\'' {
        curToken := Token(SymChar, [CharAt(raw, 1)], "");
        if CharAt(raw, 2) != '\'' {
          textInfo := textInfo.(error := true);
          return Pass;
        }
      }
      if CharAt(raw, 0) == '"' {
        curToken := Token(SymString, raw, "");
        return Pass;
      }
      o := SetLowerToken(raw, Lower(raw));
    }

    /** The part of the token analysis that works in lower case. */
    method SetLowerToken(raw: string, str: string) returns (o: Outcome)
      modifies this`curToken, this`textInfo
      ensures textInfo == old(textInfo) || textInfo == old(textInfo).(error := true)
      ensures Yields(o, (curToken, textInfo), MarkError(ClassifyLower(raw, str), old(textInfo)))
    {
      if CharAt(str, 0) == '.' {
        curToken := Token(SymDirective, str, "");
        return Pass;
      }
      if IsDigit(CharAt(str, 0)) && CharAt(str, 1) != '(' {
        var t, end := ExtractLiteral(str, 0);
        curToken := t;
        return Pass;
      }
      if CharAt(str, 0) == '$' || CharAt(str, 0) == '(' || (IsDigit(CharAt(str, 0)) && CharAt(str, 1) == '(') {
        var t, r := ExtractRegister(str);
        if r.Fail? {
          return r;
        }
        curToken := NO_TOKEN;
        if t.ty == SymNone {
          textInfo := textInfo.(error := true);
        } else {
          curToken := t;
        }
        return Pass;
      }
      if !OpOf(str).OpNull? {
        curToken := Token(SymInstr, raw, "");
      } else {
        curToken := Token(SymLabel, str, "");
      }
      o := Pass;
    }

    /** Reads the next token into `curToken`. */
    method GetToken() returns (o: Outcome)
      requires Valid()
      modifies this`curPos, this`curChar, this`curLine, this`curToken, this`textInfo, tokenBuf
      ensures Yields(o, State(), NextToken(sourceText, old(State()))) && (o.Pass? ==> Valid())
    {
      hide ScanToken, Classify;
      o := ScanIntoBuffer();
      if o.Pass? {
        o := SetToken(CString(tokenBuf[..]));
      }
    }

    // ---- Operands ----

    method ReadRegister() returns (a: Argument, o: Outcome)
      requires Valid()
      modifies this`curPos, this`curChar, this`curLine, this`curToken, this`textInfo, tokenBuf
      ensures Yields(o, (a, State()), ParseRegister(sourceText, old(State()))) && (o.Pass? ==> Valid())
    {
      a := NO_ARG;
      o := GetToken();
      if o.Fail? || curToken.ty != SymRegister {
        return;
      }
      var v := StoI(curToken.val);
      if v.Failure? {
        return a, Fail(v.fault);
      }
      a := Arg(curToken.ty, v.value);
      if curToken.offset != "" {
        var w := StoI(curToken.offset);
        if w.Failure? {
          return a, Fail(w.fault);
        }
        a := a.(offset := w.value);
      }
    }

    method ReadImmediate() returns (a: Argument, o: Outcome)
      requires Valid()
      modifies this`curPos, this`curChar, this`curLine, this`curToken, this`textInfo, tokenBuf
      ensures Yields(o, (a, State()), ParseImmediate(sourceText, old(State()))) && (o.Pass? ==> Valid())
    {
      a := NO_ARG;
      o := GetToken();
      if o.Fail? {
        return;
      }
      if curToken.ty == SymLiteral {
        var v := StoI(curToken.val);
        if v.Failure? {
          return a, Fail(v.fault);
        }
        return Arg(SymLiteral, v.value), Pass;
      }
      if curToken.ty == SymLabel {
        return Arg(SymLabel, 0), Pass;
      }
    }

    // ---- Operand patterns ----

    method ReadR() returns (o: Outcome)
      requires Valid()
      modifies this`curPos, this`curChar, this`curLine, this`curToken, this`textInfo, tokenBuf
      ensures Yields(o, State(), ParseR(sourceText, old(State()))) && (o.Pass? ==> Valid())
    {
      var a;
      a, o := ReadRegister();
      if o.Pass? {
        textInfo := textInfo.(a0 := a);
      }
    }

    method ReadI() returns (o: Outcome)
      requires Valid()
      modifies this`curPos, this`curChar, this`curLine, this`curToken, this`textInfo, tokenBuf
      ensures Yields(o, State(), ParseI(sourceText, old(State()))) && (o.Pass? ==> Valid())
    {
      var a;
      a, o := ReadImmediate();
      if o.Fail? {
        return;
      }
      textInfo := textInfo.(a0 := a);
      if textInfo.a0.ty == SymLabel {
        textInfo := textInfo.(isSymbol := true, symbolName := curToken.val);
      } else {
        textInfo := textInfo.(isSymbol := false);
      }
    }

    method ReadRR() returns (o: Outcome)
      requires Valid()
      modifies this`curPos, this`curChar, this`curLine, this`curToken, this`textInfo, tokenBuf
      ensures Yields(o, State(), ParseRR(sourceText, old(State()))) && (o.Pass? ==> Valid())
    {
      o := ReadR();
      if o.Fail? {
        return;
      }
      var b;
      b, o := ReadRegister();
      if o.Fail? {
        return;
      }
      textInfo := textInfo.(a1 := b);
      if textInfo.a1.offset > 0 {
        textInfo := textInfo.(a2 := Arg(SymLiteral, textInfo.a1.offset));
      }
    }

    // A third argument is a symbol, a literal, or an error.
    method CheckThird()
      modifies this`textInfo
      ensures textInfo == CheckA2(old(textInfo), curToken.val)
    {
      if textInfo.a2.ty == SymLabel {
        textInfo := textInfo.(isSymbol := true, symbolName := curToken.val);
      } else if textInfo.a2.ty != SymLiteral {
        textInfo := textInfo.(error := true);
      }
    }

    method ReadRI() returns (o: Outcome)
      requires Valid()
      modifies this`curPos, this`curChar, this`curLine, this`curToken, this`textInfo, tokenBuf
      ensures Yields(o, State(), ParseRI(sourceText, old(State()))) && (o.Pass? ==> Valid())
    {
      o := ReadR();
      if o.Fail? {
        return;
      }
      textInfo := textInfo.(a1 := NO_ARG);
      var b;
      b, o := ReadImmediate();
      if o.Fail? {
        return;
      }
      textInfo := textInfo.(a2 := b);
      CheckThird();
    }

    method ReadRRO() returns (o: Outcome)
      requires Valid()
      modifies this`curPos, this`curChar, this`curLine, this`curToken, this`textInfo, tokenBuf
      ensures Yields(o, State(), ParseRRO(sourceText, old(State()))) && (o.Pass? ==> Valid())
    {
      o := ReadR();
      if o.Fail? {
        return;
      }
      var b;
      b, o := ReadRegister();
      if o.Fail? {
        return;
      }
      textInfo := textInfo.(a1 := b);
      if textInfo.a1.offset > -1 {
        textInfo := textInfo.(a2 := Arg(SymLiteral, textInfo.a1.offset));
      } else {
        textInfo := textInfo.(a2 := Arg(SymLiteral, 0));
      }
    }

    method ReadThird() returns (o: Outcome)
      requires Valid()
      modifies this`curPos, this`curChar, this`curLine, this`curToken, this`textInfo, tokenBuf
      ensures Yields(o, State(), ParseThird(sourceText, old(State()))) && (o.Pass? ==> Valid())
    {
      o := Pass;
      if textInfo.a1.offset > -1 {
        textInfo := textInfo.(a2 := Arg(SymLiteral, textInfo.a1.offset));
      } else {
        var c;
        c, o := ReadImmediate();
        if o.Fail? {
          return;
        }
        textInfo := textInfo.(a2 := c);
      }
      CheckThird();
    }

    method ReadRRI() returns (o: Outcome)
      requires Valid()
      modifies this`curPos, this`curChar, this`curLine, this`curToken, this`textInfo, tokenBuf
      ensures Yields(o, State(), ParseRRI(sourceText, old(State()))) && (o.Pass? ==> Valid())
    {
      o := ReadR();
      if o.Fail? {
        return;
      }
      var b;
      b, o := ReadRegister();
      if o.Fail? {
        return;
      }
      textInfo := textInfo.(a1 := b);
      o := ReadThird();
    }

    method ReadRRR() returns (o: Outcome)
      requires Valid()
      modifies this`curPos, this`curChar, this`curLine, this`curToken, this`textInfo, tokenBuf
      ensures Yields(o, State(), ParseRRR(sourceText, old(State()))) && (o.Pass? ==> Valid())
    {
      o := ReadR();
      if o.Fail? {
        return;
      }
      var b;
      b, o := ReadRegister();
      if o.Fail? {
        return;
      }
      textInfo := textInfo.(a1 := b);
      var c;
      c, o := ReadRegister();
      if o.Fail? {
        return;
      }
      textInfo := textInfo.(a2 := c);
    }

    method ReadShape(shape: Shape) returns (o: Outcome)
      requires Valid()
      modifies this`curPos, this`curChar, this`curLine, this`curToken, this`textInfo, tokenBuf
      ensures Yields(o, State(), ParseShape(sourceText, old(State()), shape)) && (o.Pass? ==> Valid())
    {
      match shape
      case NoOperands => o := Pass;
      case ShapeR => o := ReadR();
      case ShapeI => o := ReadI();
      case ShapeRR => o := ReadRR();
      case ShapeRI => o := ReadRI();
      case ShapeRRO => o := ReadRRO();
      case ShapeRRI => o := ReadRRI();
      case ShapeRRR => o := ReadRRR();
    }

    /** Reads the operands of the instruction whose mnemonic is the current token. */
    method ReadInstr(lineNum: nat) returns (o: Outcome)
      requires Valid()
      modifies this`curPos, this`curChar, this`curLine, this`curToken, this`textInfo, tokenBuf
      ensures Yields(o, State(), ParseInstr(sourceText, old(State()), lineNum)) && (o.Pass? ==> Valid())
    {
      var op := OpOf(curToken.val);
      textInfo := Flagged(textInfo, op);
      o := ReadShape(ShapeOf(op));
      textInfo := textInfo.(lineNum := lineNum);
    }

    // ---- Directives ----

    method IncrDataAddr()
      modifies this`dataAddr
      ensures dataAddr == Bump(old(dataAddr), 1) && 0 <= dataAddr < MODULUS
    {
      dataAddr := Bump(dataAddr, 1);
    }

    /** Appends a byte to a data line begun as `was` at `start`. */
    method AddByte(b: bv8, ghost was: DataInfo, ghost start: int)
      requires Valid() && DataPlaced(dataInfo, was, dataAddr, start)
      modifies this`dataInfo, this`dataAddr
      ensures Valid() && DataPlaced(dataInfo, was, dataAddr, start)
      ensures dataInfo == old(dataInfo).(data := old(dataInfo).data + [b])
    {
      MoreData(dataInfo, was, dataAddr, start, b);
      dataInfo := dataInfo.(data := dataInfo.data + [b]);
      IncrDataAddr();
    }

    method AddString(val: string)
      requires Valid()
      modifies this`dataInfo, this`dataAddr
      ensures Valid() && dataInfo == old(dataInfo).(data := old(dataInfo).data + StringBytes(val))
      ensures dataAddr == Bump(old(dataAddr), |StringBytes(val)|)
    {
      hide Byte0, Word, Bump;
      ghost var was, bytes := dataInfo, StringBytes(val);
      BumpZero(dataAddr);
      var c := 1;
      while c < |val| - 1
        invariant 1 <= c <= |bytes| + 1
        invariant Valid() && dataInfo == was.(data := was.data + bytes[..c - 1])
        invariant dataAddr == Bump(old(dataAddr), c - 1)
      {
        assert bytes[..c - 1] + [bytes[c - 1]] == bytes[..c];
        dataInfo := dataInfo.(data := dataInfo.data + [Byte0(Word(val[c] as int))]);
        IncrDataAddr();
        BumpBump(old(dataAddr), c - 1, 1);
        c := c + 1;
      }
      assert bytes[..c - 1] == bytes;
    }

    method ReadAsciiz() returns (o: Outcome)
      requires Valid() && dataInfo.addr == 0 && dataInfo.space == 0
      modifies this`curPos, this`curChar, this`curLine, this`curToken, this`textInfo, tokenBuf, this`dataInfo,
        this`dataAddr
      ensures Yields(o, WithAddr(State(), 0), ParseAsciiz(sourceText, old(State()))) && (o.Pass? ==> Valid())
      ensures o.Pass? ==> DataPlaced(dataInfo, old(dataInfo), dataAddr, old(dataAddr))
    {
      hide NextToken, StringBytes, Bump;
      dataInfo := dataInfo.(directive := DirAsciiz);
      dataInfo := dataInfo.(lineNum := curLine);
      dataInfo := dataInfo.(addr := dataAddr);
      NextTokenData(sourceText, State(), WithAddr(State(), 0).di);
      BumpZero(dataAddr);
      :- GetToken();
      o := Pass;
      AddQuoted();
    }

    // The bytes of a quoted token; any other token is an error.
    method AddQuoted()
      requires Valid()
      modifies this`dataInfo, this`dataAddr
      ensures Valid()
      ensures dataInfo ==
        if curToken.ty == SymString then old(dataInfo).(data := old(dataInfo).data + StringBytes(curToken.val))
        else old(dataInfo).(error := true)
      ensures dataAddr ==
        if curToken.ty == SymString then Bump(old(dataAddr), |StringBytes(curToken.val)|) else old(dataAddr)
    {
      hide Bump, StringBytes;
      if curToken.ty == SymString {
        AddString(curToken.val);
      } else {
        dataInfo := dataInfo.(error := true);
      }
    }

    method ReadWords() returns (o: Outcome)
      requires Valid() && dataInfo.addr == 0 && dataInfo.space == 0
      modifies this`curPos, this`curChar, this`curLine, this`curToken, this`textInfo, tokenBuf, this`dataInfo,
        this`dataAddr
      ensures Yields(o, WithAddr(State(), 0), ParseWords(sourceText, StartData(old(State()), DirWord))) &&
        (o.Pass? ==> Valid())
      ensures o.Pass? ==> DataPlaced(dataInfo, old(dataInfo), dataAddr, old(dataAddr))
    {
      hide ParseWords, Bump;
      dataInfo := dataInfo.(directive := DirWord);
      dataInfo := dataInfo.(lineNum := curLine);
      dataInfo := dataInfo.(addr := dataAddr);
      BumpZero(dataAddr);
      o := ReadWordLiterals(old(dataInfo), dataAddr);
    }

    // The loop of .word: literals to the end of the line; the token that ends it is consumed.
    method ReadWordLiterals(ghost was: DataInfo, ghost start: int) returns (o: Outcome)
      requires Valid() && DataPlaced(dataInfo, was, dataAddr, start)
      modifies this`curPos, this`curChar, this`curLine, this`curToken, this`textInfo, tokenBuf, this`dataInfo,
        this`dataAddr
      ensures Yields(o, WithAddr(State(), 0), ParseWords(sourceText, WithAddr(old(State()), 0))) &&
        (o.Pass? ==> Valid())
      ensures o.Pass? ==> DataPlaced(dataInfo, was, dataAddr, start)
    {
      hide NextToken, StoI, Byte0, Word, Bump, DataPlaced;
      o := Pass;
      while curLine <= dataInfo.lineNum
        invariant Valid() && o == Pass && DataPlaced(dataInfo, was, dataAddr, start)
        invariant ParseWords(sourceText, WithAddr(State(), 0)) == ParseWords(sourceText, WithAddr(old(State()), 0))
        decreases |sourceText| - curPos
      {
        NextTokenData(sourceText, State(), WithAddr(State(), 0).di);
        o := GetToken();
        if o.Fail? {
          return;
        }
        if curToken.ty != SymLiteral {
          FlagData(was, start);
          break;
        }
        var word := StoI(curToken.val);
        if word.Failure? {
          return Fail(word.fault);
        }
        AddByte(Byte0(Word(word.value)), was, start);
      }
    }

    method FlagData(ghost was: DataInfo, ghost start: int)
      requires DataPlaced(dataInfo, was, dataAddr, start)
      modifies this`dataInfo
      ensures DataPlaced(dataInfo, was, dataAddr, start) && dataInfo == old(dataInfo).(error := true)
    {
      dataInfo := dataInfo.(error := true);
    }

    method ReadHalves() returns (o: Outcome)
      requires Valid() && dataInfo.addr == 0 && dataInfo.space == 0
      modifies this`curPos, this`curChar, this`curLine, this`curToken, this`textInfo, tokenBuf, this`dataInfo,
        this`dataAddr
      ensures Yields(o, State(), ParseHalves(sourceText, StartData(old(State()), DirHalf))) && (o.Pass? ==> Valid())
      ensures o.Pass? ==> DataPlaced(dataInfo, old(dataInfo), dataAddr, old(dataAddr))
    {
      hide ParseHalves, Bump;
      dataInfo := dataInfo.(directive := DirHalf);
      dataInfo := dataInfo.(lineNum := curLine);
      BumpZero(dataAddr);
      o := ReadHalfLiterals(old(dataInfo), dataAddr);
    }

    method ReadHalfLiterals(ghost was: DataInfo, ghost start: int) returns (o: Outcome)
      requires Valid() && DataPlaced(dataInfo, was, dataAddr, start)
      modifies this`curPos, this`curChar, this`curLine, this`curToken, this`textInfo, tokenBuf, this`dataInfo,
        this`dataAddr
      ensures Yields(o, State(), ParseHalves(sourceText, old(State()))) && (o.Pass? ==> Valid())
      ensures o.Pass? ==> DataPlaced(dataInfo, was, dataAddr, start)
    {
      hide NextToken, StoI, Byte0, Word, Bump, DataPlaced;
      o := Pass;
      while curLine <= dataInfo.lineNum
        invariant Valid() && o == Pass && DataPlaced(dataInfo, was, dataAddr, start)
        invariant ParseHalves(sourceText, State()) == ParseHalves(sourceText, old(State()))
        decreases |sourceText| - curPos
      {
        o := GetToken();
        if o.Fail? {
          return;
        }
        if curLine > dataInfo.lineNum {
          break;
        }
        if curToken.ty != SymLiteral {
          FlagData(was, start);
          break;
        }
        var word := StoI(curToken.val);
        if word.Failure? {
          return Fail(word.fault);
        }
        var half := if word.value > 0xFFFF then 0xFFFF else word.value;
        AddByte(Byte0(Word(half)), was, start);
      }
    }

    method ReadByte() returns (o: Outcome)
      requires Valid() && dataInfo.addr == 0 && dataInfo.space == 0
      modifies this`curPos, this`curChar, this`curLine, this`curToken, this`textInfo, tokenBuf, this`dataInfo,
        this`dataAddr
      ensures Yields(o, WithAddr(State(), 0), ParseByte(sourceText, old(State()))) && (o.Pass? ==> Valid())
      ensures o.Pass? ==> DataPlaced(dataInfo, old(dataInfo), dataAddr, old(dataAddr))
    {
      hide NextToken, StoI, Byte0, Word, Bump;
      dataInfo := dataInfo.(directive := DirByte);
      BumpZero(dataAddr);
      :- GetToken();
      o := Pass;
      if curToken.ty != SymChar {
        dataInfo := dataInfo.(error := true);
      } else {
        var v := StoI(curToken.val);
        if v.Failure? {
          return Fail(v.fault);
        }
        var byte := v.value;
        if byte > 255 {
          byte := 255;
        }
        AddByte(Byte0(Word(byte)), old(dataInfo), old(dataAddr));
      }
    }

    method ReadSpace() returns (o: Outcome)
      requires Valid() && dataInfo.addr == 0 && dataInfo.space == 0
      modifies this`curPos, this`curChar, this`curLine, this`curToken, this`textInfo, tokenBuf, this`dataInfo,
        this`dataAddr
      ensures Yields(o, WithAddr(State(), 0), ParseSpace(sourceText, old(State()))) && (o.Pass? ==> Valid())
      ensures o.Pass? ==> DataPlaced(dataInfo, old(dataInfo), dataAddr, old(dataAddr))
    {
      hide NextToken, StoI, Byte0, Word, Bump;
      dataInfo := dataInfo.(directive := DirSpace);
      dataInfo := dataInfo.(lineNum := curLine);
      dataInfo := dataInfo.(addr := dataAddr);
      NextTokenData(sourceText, State(), WithAddr(State(), 0).di);
      BumpZero(dataAddr);
      :- GetToken();
      o := Pass;
      if curToken.ty != SymLiteral {
        dataInfo := dataInfo.(error := true);
        return;
      }
      var v := StoI(curToken.val);
      if v.Failure? {
        return Fail(v.fault);
      }
      dataInfo := dataInfo.(space := v.value % MODULUS);
      dataAddr := Bump(dataAddr, dataInfo.space);
    }

    method ReadData(d: Directive) returns (o: Outcome)
      requires Valid() && dataInfo.addr == 0 && dataInfo.space == 0 &&
        dataInfo.directive == DirNone
      modifies this`curPos, this`curChar, this`curLine, this`curToken, this`textInfo, tokenBuf, this`dataInfo,
        this`dataAddr
      ensures Yields(o, WithAddr(State(), 0), ParseData(sourceText, old(State()), d)) && (o.Pass? ==> Valid())
      ensures o.Pass? ==> DataPlaced(dataInfo, old(dataInfo), dataAddr, old(dataAddr))
    {
      hide ParseAsciiz, ParseByte, ParseHalves, ParseWords, ParseSpace, NextToken, Bump;
      BumpZero(dataAddr);
      if d == DAsciiz {
        o := ReadAsciiz();
      } else if d == DByte {
        o := ReadByte();
      } else if d == DHalf {
        o := ReadHalves();
      } else if d == DSpace {
        o := ReadSpace();
      } else if d == DWord {
        o := ReadWords();
      } else {
        o := Pass;
      }
    }

    /** The directive line whose name is the current token. */
    method ReadDirective(lineNum: nat) returns (o: Outcome)
      requires Valid() && dataInfo.addr == 0 && dataInfo.space == 0
      requires dataInfo.directive == DirNone && dataInfo.data == []
      modifies this`curPos, this`curChar, this`curLine, this`curToken, this`textInfo, tokenBuf, this`dataInfo,
        this`dataAddr, this`curMode, source`data
      ensures BodyPlaced(o, Cur(), Output(), old(Output()), ParseDirective(sourceText, old(State()), lineNum))
      ensures o.Pass? ==> Valid()
    {
      hide ParseData, NextToken, DirectiveOf, Bump, DataPlaced, PlaceData, DataEnd;
      var d := DirectiveOf(curToken.val);
      if d == DData {
        curMode := DataSegment;
        return Pass;
      }
      if d == DText {
        curMode := TextSegment;
        return Pass;
      }
      if DefinesData(d) {
        curMode := DataSegment;
      }
      o := ReadData(d);
      if o.Fail? {
        return;
      }
      FinishData(dataInfo, old(dataInfo), dataAddr, old(dataAddr), lineNum);
      dataInfo := dataInfo.(lineNum := lineNum);
      if dataInfo.addr == 0 {
        dataInfo := dataInfo.(addr := dataAddr);
      }
      source.AddData(dataInfo);
    }

    // ---- Instructions ----

    method IncrTextAddr()
      modifies this`textAddr
      ensures textAddr == Bump(old(textAddr), 4)
    {
      textAddr := Bump(textAddr, 4);
    }

    method EmitText(l: TextInfo)
      modifies this`textAddr, source`text
      ensures source.text == old(source.text) + [l] && textAddr == Bump(old(textAddr), 4)
    {
      source.AddText(l);
      IncrTextAddr();
    }

    /** Emits the real instructions for the pseudo-op in `textInfo`. */
    method ExpandPseudo()
      requires 0 <= textAddr < MODULUS
      modifies this`textAddr, this`textInfo, source`text
      ensures source.text == old(source.text) + Expand(old(textInfo))
      ensures textAddr == Bump(old(textAddr), 4 * |Expand(old(textInfo))|)
    {
      hide Bump, CompareLine, DecisionLine, HalvesPair, Lower16;
      var t := textInfo;
      BumpZero(textAddr);
      BumpBump(textAddr, 4, 4);
      var op := t.op;
      if op.Mul? {
        var ti := BLANK_TEXT.(op := Mult, addr := t.addr, lineNum := t.lineNum);
        ti := ti.(a0 := t.a1);
        ti := ti.(a1 := t.a2);
        EmitText(ti);
        ti := BLANK_TEXT.(op := Mflo, addr := Bump(t.addr, 4), lineNum := t.lineNum);
        ti := ti.(a0 := t.a0);
        EmitText(ti);
      } else if op.Bgt? || op.Blt? || op.Bge? || op.Ble? || op.Bgtu? {
        EmitCompare();
        EmitDecision();
      } else if op.Beqz? {
        var ti := BLANK_TEXT.(op := Beq, addr := t.addr, lineNum := t.lineNum);
        ti := ti.(a0 := t.a0, a1 := Arg(SymRegister, REG_ZERO), a2 := t.a2);
        ti := ti.(labelName := t.labelName, isLabel := t.isLabel);
        ti := ti.(symbolName := t.symbolName, isSymbol := t.isSymbol, isImm := true);
        EmitText(ti);
      } else if op.La? {
        ExpandPair(t.isSymbol, t.symbolName);
      } else if op.Li? {
        if t.a2.val > 0xFFFF {
          ExpandPair(false, "");
        } else {
          var ti := BLANK_TEXT.(op := Ori, addr := t.addr, lineNum := t.lineNum);
          ti := ti.(a0 := t.a0, a1 := Arg(SymRegister, REG_ZERO), a2 := Arg(SymLiteral, Lower16(t.a2.val)));
          ti := ti.(isImm := true);
          EmitText(ti);
        }
      } else {
        textInfo := textInfo.(error := true);
      }
    }

    // slt or sltu into $at
    method EmitCompare()
      modifies this`textAddr, source`text
      ensures source.text == old(source.text) + [CompareLine(textInfo)] && textAddr == Bump(old(textAddr), 4)
    {
      hide Bump;
      var t := textInfo;
      var ti := BLANK_TEXT.(op := if t.op.Bgtu? then Sltu else Slt, addr := t.addr, lineNum := t.lineNum);
      ti := ti.(a0 := Arg(SymRegister, REG_AT));
      if t.op.Blt? || t.op.Bge? {
        ti := ti.(a1 := t.a0, a2 := t.a1);
      } else {
        ti := ti.(a1 := t.a1, a2 := t.a0);
      }
      ti := ti.(labelName := t.labelName, isLabel := t.isLabel);
      EmitText(ti);
    }

    // bne or beq on $at
    method EmitDecision()
      modifies this`textAddr, source`text
      ensures source.text == old(source.text) + [DecisionLine(textInfo)] && textAddr == Bump(old(textAddr), 4)
    {
      hide Bump;
      var t := textInfo;
      var ti := BLANK_TEXT;
      if t.op.Bge? || t.op.Ble? {
        ti := ti.(op := Beq);
      } else {
        ti := ti.(op := Bne);
      }
      ti := ti.(addr := Bump(t.addr, 4), lineNum := t.lineNum);
      ti := ti.(a0 := Arg(SymRegister, REG_AT), a1 := Arg(SymRegister, REG_ZERO), a2 := t.a2);
      ti := ti.(isImm := true, symbolName := t.symbolName, isSymbol := t.isSymbol);
      EmitText(ti);
    }

    // lui of the upper half, then ori of the lower half; resolution replaces both when they name a symbol.
    method ExpandPair(isSymbol: bool, symbolName: string)
      modifies this`textAddr, source`text
      ensures source.text == old(source.text) + HalvesPair(textInfo, isSymbol, symbolName)
      ensures textAddr == Bump(Bump(old(textAddr), 4), 4)
    {
      hide Bump, Upper, Lower16;
      var t := textInfo;
      var ti := BLANK_TEXT.(op := Lui, addr := t.addr, lineNum := t.lineNum);
      ti := ti.(a0 := t.a0, a1 := Arg(SymNone, 0), a2 := Arg(t.a2.ty, Upper(t.a2.val)));
      ti := ti.(isImm := true, upper := true, isSymbol := isSymbol, symbolName := symbolName);
      EmitText(ti);
      ti := BLANK_TEXT.(op := Ori, addr := Bump(t.addr, 4), lineNum := t.lineNum);
      ti := ti.(a0 := t.a0, a1 := t.a0, a2 := Arg(t.a2.ty, Lower16(t.a2.val)));
      ti := ti.(isImm := true, lower := true, isSymbol := isSymbol, symbolName := symbolName);
      EmitText(ti);
    }

    /** Gives the parsed instruction its address and emits it, expanded if it is a pseudo-op. */
    method PlaceInstr()
      requires 0 <= textAddr < MODULUS
      modifies this`textAddr, this`textInfo, this`curMode, source`text
      ensures Output() == PlaceBody(old(Output()), InstrBody(old(textInfo)))
    {
      hide Bump, Expand;
      curMode := TextSegment;
      textInfo := textInfo.(addr := textAddr);
      if textInfo.pseudo {
        ExpandPseudo();
      } else {
        EmitText(textInfo);
      }
    }

    // ---- Lines ----

    /** What follows the label of a line. */
    method ReadBody(lineNum: nat) returns (o: Outcome)
      requires Valid() && dataInfo.addr == 0 && dataInfo.space == 0
      requires dataInfo.directive == DirNone && dataInfo.data == []
      modifies this`curPos, this`curChar, this`curLine, this`curToken, this`textInfo, tokenBuf, this`dataInfo,
        this`dataAddr, this`textAddr, this`curMode, source
      ensures BodyPlaced(o, Cur(), Output(), old(Output()), ParseBody(sourceText, old(State()), lineNum))
      ensures o.Pass? ==> Valid()
    {
      hide ParseDirective, ParseInstr, Bump, Emit;
      if curToken.ty == SymDirective {
        o := ReadDirective(lineNum);
      } else if curToken.ty == SymInstr {
        o := ReadInstr(lineNum);
        if o.Pass? {
          PlaceInstr();
        }
      } else {
        textInfo := textInfo.(lineNum := lineNum);
        textInfo := textInfo.(addr := textAddr);
        source.AddText(textInfo);
        o := Pass;
      }
    }

    method RecordLabel(name: string)
      modifies this`textInfo, this`dataInfo, symTable
      ensures symTable.syms ==
        old(symTable.syms) + [Symbol(name, if curMode == TextSegment then textAddr else dataAddr, curMode)]
      ensures State() == MarkLabel(old(State()), curMode, name)
    {
      symTable.Add(Symbol(name, if curMode == TextSegment then textAddr else dataAddr, curMode));
      if curMode == TextSegment {
        textInfo := textInfo.(isLabel := true, labelName := name);
      } else {
        dataInfo := dataInfo.(isLabel := true, labelName := name);
      }
    }

    /** One line of the source: it is parsed as ParseLine says and placed as Place says. */
    method ReadLine() returns (o: Outcome)
      requires Valid()
      modifies this`curPos, this`curChar, this`curLine, this`curToken, this`textInfo, tokenBuf, this`dataInfo,
        this`dataAddr, this`textAddr, this`curMode, source, symTable
      ensures LinePlaced(o, Cur(), Output(), old(Output()), ParseLine(sourceText, old(Cur()), old(curMode)))
      ensures o.Pass? ==> Valid()
    {
      hide NextToken, ParseBody, PlaceBody;
      var lineNum := curLine;
      textInfo := BLANK_TEXT;
      dataInfo := BLANK_DATA;
      NextTokenFresh(sourceText, State(), NO_TOKEN);
      :- GetToken();
      if curToken.ty == SymLabel {
        var name := curToken.val;
        RecordLabel(name);
        Advance();
        :- GetToken();
        lineNum := curLine;
      }
      o := ReadBody(lineNum);
    }

    // ---- Label resolution ----

    method ResolveLabels()
      modifies source`text
      ensures source.text == ResolveAll(old(source.text), symTable.syms)
    {
      hide Patch, AddrOfSymbol;
      var idx := 0;
      ghost var was := source.text;
      while idx < |source.text|
        invariant idx <= |source.text| == |was|
        invariant forall i :: 0 <= i < idx ==> source.text[i] == Resolve(was[i], symTable.syms)
        invariant forall i :: idx <= i < |was| ==> source.text[i] == was[i]
      {
        var line := source.GetText(idx);
        if line.isSymbol {
          var labelAddr := symTable.GetAddr(line.symbolName);
          if labelAddr > 0 {
            line := PatchLine(line, labelAddr);
            source.Update(idx, line);
          }
        }
        idx := idx + 1;
      }
    }

    // The body of the resolution switch.
    method PatchLine(l: TextInfo, labelAddr: int) returns (line: TextInfo)
      ensures line == Patch(l, labelAddr)
    {
      hide Bump, ToInt, Upper, Lower16;
      line := l;
      if line.op.Lui? {
        line := line.(a1 := NO_ARG);
        if line.upper {
          line := line.(a2 := Arg(SymLiteral, Upper(labelAddr)));
        } else {
          line := line.(a2 := Arg(SymLiteral, Lower16(labelAddr)));
        }
      } else if line.op.Ori? {
        line := line.(a2 := line.a2.(ty := SymLiteral));
        if line.lower {
          line := line.(a2 := line.a2.(val := Lower16(labelAddr)));
        } else {
          line := line.(a2 := line.a2.(val := Upper(labelAddr)));
        }
      } else if line.op.Bne? || line.op.Beq? {
        var offset := Bump(labelAddr, -line.addr);
        line := line.(a2 := line.a2.(ty := SymLiteral, val := Lower16(offset)));
      } else if line.op.J? || line.op.Jal? {
        line := line.(a0 := line.a0.(ty := SymLiteral, val := ToInt(labelAddr)));
      } else {
        line := line.(a2 := line.a2.(ty := SymLiteral, val := ToInt(labelAddr)));
      }
    }

    // ---- The whole source ----

    /**
     Lexes the source text. The output is the listing of the lines the text holds, in order,
     with every label resolved against all of them, forward references included.
     */
    method Lex() returns (o: Outcome)
      requires tokenBuf.Length == TOKEN_BUF_SIZE
      modifies this, tokenBuf, source, symTable
      ensures sourceText == old(sourceText)
      ensures match LexLines(sourceText, Cursor(0, 1), old(curMode))
        case Failure(f) => o == Fail(f)
        case Success(lines) =>
          var g := PlaceAll(FRESH.(syms := old(symTable.syms), mode := old(curMode)), lines);
          o.Pass? && Output() == g.(text := ResolveAll(g.text, g.syms))
    {
      hide PlaceAll, ParseLine, Place, LexLines, HasNewline;
      curLine, curPos := 1, 0;
      textAddr, dataAddr := TEXT_START_ADDR, DATA_START_ADDR;
      curChar := if sourceText == "" then '\0' else sourceText[0];
      textInfo, dataInfo := BLANK_TEXT, BLANK_DATA;
      source.Init();
      ghost var start := Output();
      ghost var lines: seq<SourceLine> := [];
      ghost var all := LexLines(sourceText, Cur(), curMode);
      PlaceNone(start, all);
      while !Exhausted()
        invariant Valid() && sourceText == old(sourceText)
        invariant all == PrependLines(lines, LexLines(sourceText, Cur(), curMode))
        invariant Output() == PlaceAll(start, lines)
        decreases |sourceText| - curPos
      {
        LexLinesSkip(sourceText, Cur(), curMode);
        if curChar == ' ' || curChar == '\t' || curChar == '\n' {
          Advance();
          continue;
        }
        if curChar == ';' || curChar == '#' {
          :- SkipCommentChars();
          continue;
        }
        ghost var line := ParseLine(sourceText, Cur(), curMode);
        ghost var cur, mode, g := Cur(), curMode, Output();
        LexLinesStep(sourceText, cur, mode, lines);
        :- ReadLine();
        PlaceMore(start, lines, line.value.0);
        PlaceMode(g, line.value.0);
        lines := lines + [line.value.0];
      }
      LexLinesSkip(sourceText, Cur(), curMode);
      assert lines + [] == lines;
      ResolveLabels();
      o := Pass;
    }
  }

  predicate BodyPlaced(o: Outcome, cur: Cursor, out: Listing, before: Listing, r: Result<(Body, Parse)>) {
    match r
    case Success((body, p)) => o.Pass? && cur == p.cur && out == PlaceBody(before, body)
    case Failure(f) => o == Fail(f)
  }

  predicate LinePlaced(o: Outcome, cur: Cursor, out: Listing, before: Listing, r: Result<(SourceLine, Parse)>) {
    match r
    case Success((line, p)) => o.Pass? && cur == p.cur && out == Place(before, line)
    case Failure(f) => o == Fail(f)
  }

  function PrependLines(lines: seq<SourceLine>, r: Result<seq<SourceLine>>): Result<seq<SourceLine>> {
    match r
    case Success(rest) => Success(lines + rest)
    case Failure(f) => Failure(f)
  }

  lemma LexLinesStep(src: string, c: Cursor, mode: LexMode, lines: seq<SourceLine>)
    requires CharAt(src, c.pos) != '\0' && !IsSpace(CharAt(src, c.pos)) && !IsComment(CharAt(src, c.pos))
    ensures ParseLine(src, c, mode).Failure? ==>
      PrependLines(lines, LexLines(src, c, mode)) == Failure(ParseLine(src, c, mode).fault)
    ensures ParseLine(src, c, mode).Success? ==>
      var r := ParseLine(src, c, mode).value;
      PrependLines(lines, LexLines(src, c, mode)) ==
      PrependLines(lines + [r.0], LexLines(src, r.1.cur, ModeAfter(mode, r.0.body)))
  {
    hide ParseLine;
    if ParseLine(src, c, mode).Success? {
      var r := ParseLine(src, c, mode).value;
      var rest := LexLines(src, r.1.cur, ModeAfter(mode, r.0.body));
      if rest.Success? {
        assert lines + ([r.0] + rest.value) == lines + [r.0] + rest.value;
      }
    }
  }

  lemma LexLinesSkip(src: string, c: Cursor, mode: LexMode)
    ensures CharAt(src, c.pos) == '\0' ==> LexLines(src, c, mode) == Success([])
    ensures IsSpace(CharAt(src, c.pos)) ==> LexLines(src, c, mode) == LexLines(src, Next(src, c), mode)
    ensures IsComment(CharAt(src, c.pos)) ==>
      var r := LeaveComment(src, c);
      LexLines(src, c, mode) == if r.Success? then LexLines(src, r.value, mode) else Failure(r.fault)
  {
    hide ParseLine;
  }

  lemma PlaceNone(g: Listing, r: Result<seq<SourceLine>>)
    ensures PlaceAll(g, []) == g
    ensures PrependLines([], r) == r
  {
    if r.Success? {
      assert [] + r.value == r.value;
    }
  }

  lemma PlaceMore(g: Listing, lines: seq<SourceLine>, line: SourceLine)
    ensures PlaceAll(g, lines + [line]) == Place(PlaceAll(g, lines), line)
  {}

  lemma PlaceMode(g: Listing, line: SourceLine)
    ensures Place(g, line).mode == ModeAfter(g.mode, line.body)
  {}

  /** The address of the data line, set apart. */
  ghost function WithAddr(p: Parse, a: int): Parse { p.(di := p.di.(addr := a)) }

  /**
   What reading a data line does to addresses: the start is recorded first where it is, and the counter moves by
   the bytes.
   */
  ghost predicate DataPlaced(di: DataInfo, was: DataInfo, dataAddr: int, oldAddr: int) {
    |was.data| <= |di.data| &&
    di.addr == (if AddressedFirst(di.directive) then oldAddr else 0) &&
    dataAddr == Bump(oldAddr, |di.data| - |was.data| + di.space)
  }

  lemma MoreData(di: DataInfo, was: DataInfo, dataAddr: int, oldAddr: int, b: bv8)
    requires DataPlaced(di, was, dataAddr, oldAddr)
    ensures DataPlaced(di.(data := di.data + [b]), was, Bump(dataAddr, 1), oldAddr)
  {}

  lemma FinishData(di: DataInfo, was: DataInfo, dataAddr: int, oldAddr: int, lineNum: nat)
    requires DataPlaced(di, was, dataAddr, oldAddr) && was.data == []
    ensures var f := di.(addr := 0, lineNum := lineNum);
      DataEnd(f, oldAddr) == dataAddr &&
      PlaceData(f, oldAddr) == f.(addr := if di.addr == 0 then dataAddr else di.addr)
  {}

  ghost function Prepend(s: string, r: Result<(string, Cursor)>): Result<(string, Cursor)> {
    match r
    case Success((t, c)) => Success((s + t, c))
    case Failure(f) => Failure(f)
  }

  lemma PrependNothing(s: string, r: Result<(string, Cursor)>)
    ensures Prepend("", r) == r
    ensures r.Success? && r.value.0 == "" ==> Prepend(s, r) == Success((s, r.value.1))
  {
    if r.Success? {
      assert "" + r.value.0 == r.value.0;
      assert s + "" == s;
    }
  }

  lemma PrependStep(s: string, src: string, c: Cursor, idx: nat)
    requires idx < TOKEN_BUF_SIZE - 1
    requires var ch := CharAt(src, c.pos); ch != ' ' && ch != '\n' && ch != '#' && !IsSeparator(ch)
    ensures Prepend(s, ScanChars(src, c, idx)) ==
      Prepend(s + [CharAt(src, c.pos)], ScanChars(src, Next(src, c), idx + 1))
  {
    var r := ScanChars(src, Next(src, c), idx + 1);
    if r.Success? {
      assert s + ([CharAt(src, c.pos)] + r.value.0) == s + [CharAt(src, c.pos)] + r.value.0;
    }
  }

  lemma {:induction false} CStringOfBuffer(buf: string, idx: nat)
    requires idx < |buf| && buf[idx] == '\0'
    ensures CString(buf) == CString(buf[..idx])
  {
    if idx > 0 && buf[0] != '\0' {
      CStringOfBuffer(buf[1..], idx - 1);
      assert buf[1..][..idx - 1] == buf[..idx][1..];
    }
  }
}
