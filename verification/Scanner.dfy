/**
 What the lexer reads from the source text, as functions of the text and a cursor:
 characters, tokens, operands and whole lines. The methods of the class Lexer are proved
 against these functions.
 */
module Scanner {
  import opened Words
  import opened Source
  import opened Layout

  // What stops the lexer: an exception of std::stoi, a pop of an empty std::stack, or a comment that no
  // newline ends, whose loop runs on past the end of the text.
  datatype Fault = OutOfRange | NotANumber | EmptyStack | OpenComment

  datatype Result<+T> = Success(value: T) | Failure(fault: Fault) {
    predicate IsFailure() { Failure? }

    function PropagateFailure<U>(): Result<U>
      requires Failure?
    {
      Failure(fault)
    }

    function Extract(): T
      requires Success?
    {
      value
    }
  }

  /** `offset` is the token's register offset, and "" when the token has none. */
  datatype Token = Token(ty: TokenType, val: string, offset: string)

  const NO_TOKEN := Token(SymNone, "", "")

  // ---- Tables ----

  // The tables are functions of an index, searched from 0 on, so that a proof sees only the entries it looks at.

  const NUM_REGS := 32

  function RegName(k: nat): string
    requires k < NUM_REGS
  {
    if k == 0 then "$zero" else if k == 1 then "$at" else if k == 2 then "$v0" else if k == 3 then "$v1" else
    if k == 4 then "$a0" else if k == 5 then "$a1" else if k == 6 then "$a2" else if k == 7 then "$a3" else
    if k == 8 then "$t0" else if k == 9 then "$t1" else if k == 10 then "$t2" else if k == 11 then "$t3" else
    if k == 12 then "$t4" else if k == 13 then "$t5" else if k == 14 then "$t6" else if k == 15 then "$t7" else
    if k == 16 then "$s0" else if k == 17 then "$s1" else if k == 18 then "$s2" else if k == 19 then "$s3" else
    if k == 20 then "$s4" else if k == 21 then "$s5" else if k == 22 then "$s6" else if k == 23 then "$s7" else
    if k == 24 then "$t8" else if k == 25 then "$t9" else if k == 26 then "$k0" else if k == 27 then "$k1" else
    if k == 28 then "$gp" else if k == 29 then "$sp" else if k == 30 then "$fp" else "$ra"
  }

  const NUM_INSTRS := 53

  // The mnemonics the lexer knows: there is none for sub, subu and sb.
  function InstrEntry(k: nat): (string, Op)
    requires k < NUM_INSTRS
  {
    if k == 0 then ("add", Add) else if k == 1 then ("addu", Addu) else if k == 2 then ("addi", Addi) else
    if k == 3 then ("addiu", Addiu) else if k == 4 then ("and", And) else if k == 5 then ("andi", Andi) else
    if k == 6 then ("div", Div) else if k == 7 then ("divu", Divu) else if k == 8 then ("mul", Mul) else
    if k == 9 then ("mult", Mult) else if k == 10 then ("multu", Multu) else if k == 11 then ("nor", Nor) else
    if k == 12 then ("or", Or) else if k == 13 then ("ori", Ori) else if k == 14 then ("sll", Sll) else
    if k == 15 then ("sllv", Sllv) else if k == 16 then ("srl", Srl) else if k == 17 then ("srv", Srv) else
    if k == 18 then ("xor", Xor) else if k == 19 then ("xori", Xori) else if k == 20 then ("mfhi", Mfhi) else
    if k == 21 then ("mthi", Mthi) else if k == 22 then ("mflo", Mflo) else if k == 23 then ("mtlo", Mtlo) else
    if k == 24 then ("slt", Slt) else if k == 25 then ("sltu", Sltu) else if k == 26 then ("slti", Slti) else
    if k == 27 then ("sltiu", Sltiu) else if k == 28 then ("lb", Lb) else if k == 29 then ("lbu", Lbu) else
    if k == 30 then ("lh", Lh) else if k == 31 then ("lhu", Lhu) else if k == 32 then ("lw", Lw) else
    if k == 33 then ("li", Li) else if k == 34 then ("la", La) else if k == 35 then ("lui", Lui) else
    if k == 36 then ("sh", Sh) else if k == 37 then ("sw", Sw) else if k == 38 then ("j", J) else
    if k == 39 then ("jal", Jal) else if k == 40 then ("jalr", Jalr) else if k == 41 then ("jr", Jr) else
    if k == 42 then ("beq", Beq) else if k == 43 then ("blt", Blt) else if k == 44 then ("bgt", Bgt) else
    if k == 45 then ("bge", Bge) else if k == 46 then ("ble", Ble) else if k == 47 then ("bgtu", Bgtu) else
    if k == 48 then ("beqz", Beqz) else if k == 49 then ("bne", Bne) else if k == 50 then ("bgtz", Bgtz) else
    if k == 51 then ("blez", Blez) else ("syscall", Syscall)
  }

  datatype Directive =
    | DAlign | DAsciiz | DByte | DData | DDouble | DEndMacro | DFloat
    | DGlobal | DHalf | DInclude | DMacro | DSpace | DText | DWord

  const NUM_DIRECTIVES := 14

  function DirectiveEntry(k: nat): (string, Directive)
    requires k < NUM_DIRECTIVES
  {
    if k == 0 then (".align", DAlign) else if k == 1 then (".asciiz", DAsciiz) else
    if k == 2 then (".byte", DByte) else if k == 3 then (".data", DData) else
    if k == 4 then (".double", DDouble) else if k == 5 then (".end_macro", DEndMacro) else
    if k == 6 then (".float", DFloat) else if k == 7 then (".global", DGlobal) else
    if k == 8 then (".half", DHalf) else if k == 9 then (".include", DInclude) else
    if k == 10 then (".macro", DMacro) else if k == 11 then (".space", DSpace) else
    if k == 12 then (".text", DText) else (".word", DWord)
  }

  function OpOf(mnemonic: string): Op { OpFrom(mnemonic, 0) }

  function OpFrom(mnemonic: string, k: nat): Op
    requires k <= NUM_INSTRS
    decreases NUM_INSTRS - k
  {
    if k == NUM_INSTRS then OpNull
    else if InstrEntry(k).0 == mnemonic then InstrEntry(k).1
    else OpFrom(mnemonic, k + 1)
  }

  // An unknown directive has code 0, which is the code of .align.
  function DirectiveOf(name: string): Directive { DirectiveFrom(name, 0) }

  function DirectiveFrom(name: string, k: nat): Directive
    requires k <= NUM_DIRECTIVES
    decreases NUM_DIRECTIVES - k
  {
    if k == NUM_DIRECTIVES then DAlign
    else if DirectiveEntry(k).0 == name then DirectiveEntry(k).1
    else DirectiveFrom(name, k + 1)
  }

  /** The index of a register name, and -1 for anything else. */
  function RegIdx(name: string): (i: int)
    ensures i == -1 || (0 <= i < NUM_REGS && RegName(i) == name)
  {
    RegFrom(name, 0)
  }

  function RegFrom(name: string, k: nat): (i: int)
    requires k <= NUM_REGS
    ensures i == -1 || (k <= i < NUM_REGS && RegName(i) == name)
    decreases NUM_REGS - k
  {
    if k == NUM_REGS then -1 else if RegName(k) == name then k else RegFrom(name, k + 1)
  }

  // ---- Characters ----

  /** The source character at a position; past the end it is NUL. */
  function CharAt(s: string, i: nat): char { if i < |s| then s[i] else '\0' }

  predicate IsDigit(c: char) { '0' <= c <= '9' }

  predicate IsSpace(c: char) { c == ' ' || c == '\t' || c == '\n' }

  predicate IsComment(c: char) { c == ';' || c == '#' }

  predicate IsSeparator(c: char) { c == ',' || c == ':' || c == ';' }

  function ToLower(c: char): char { if 'A' <= c <= 'Z' then ((c as int) + 32) as char else c }

  function Lower(s: string): (r: string)
    ensures |r| == |s|
    ensures forall i :: 0 <= i < |s| ==> r[i] == ToLower(s[i])
  {
    seq(|s|, i requires 0 <= i < |s| => ToLower(s[i]))
  }

  /** The string a NUL-terminated buffer holds. */
  function CString(s: string): string {
    if s == "" || s[0] == '\0' then "" else [s[0]] + CString(s[1..])
  }

  // ---- Numbers ----

  function DigitsEnd(s: string, i: nat): (e: nat)
    requires i <= |s|
    ensures i <= e <= |s| && (forall k :: i <= k < e ==> IsDigit(s[k])) && (e < |s| ==> !IsDigit(s[e]))
    decreases |s| - i
  {
    if i < |s| && IsDigit(s[i]) then DigitsEnd(s, i + 1) else i
  }

  function DecimalValue(s: string): (n: nat)
    requires forall k :: 0 <= k < |s| ==> IsDigit(s[k])
  {
    if s == "" then 0
    else
      assert IsDigit(s[|s| - 1]);
      10 * DecimalValue(s[..|s| - 1]) + (s[|s| - 1] as int - '0' as int)
  }

  /** std::stoi on a 32-bit int, in base 10. */
  function StoI(s: string): (r: Result<int>)
    ensures r.Success? ==> -0x8000_0000 <= r.value < 0x8000_0000
  {
    var start := if s != "" && (s[0] == '-' || s[0] == '+') then 1 else 0;
    var end := DigitsEnd(s, start);
    if end == start then Failure(NotANumber)
    else
      assert forall k :: 0 <= k < end - start ==> s[start..end][k] == s[start + k];
      var m: int := DecimalValue(s[start..end]);
      var v: int := if s[0] == '-' then -m else m;
      if -0x8000_0000 <= v < 0x8000_0000 then Success(v) else Failure(OutOfRange)
  }

  function Digit(d: nat): char
    requires d < 10
  {
    (d + '0' as int) as char
  }

  /** std::to_string on a natural number. */
  function Decimal(n: nat): (s: string)
    ensures |s| > 0 && forall k :: 0 <= k < |s| ==> IsDigit(s[k])
  {
    if n < 10 then [Digit(n)] else Decimal(n / 10) + [Digit(n % 10)]
  }

  lemma {:induction false} DecimalValueOfDecimal(n: nat)
    ensures DecimalValue(Decimal(n)) == n
  {
    var s := Decimal(n);
    if n < 10 {
      assert s[..|s| - 1] == "";
    } else {
      DecimalValueOfDecimal(n / 10);
      assert s[..|s| - 1] == Decimal(n / 10);
    }
  }

  /** Printing a number and reading it back is the identity on the ints std::stoi can return. */
  lemma StoIOfDecimal(n: nat)
    ensures StoI(Decimal(n)) == if n < 0x8000_0000 then Success(n) else Failure(OutOfRange)
  {
    DecimalValueOfDecimal(n);
    var s := Decimal(n);
    assert IsDigit(s[0]);
    assert DigitsEnd(s, 0) == |s|;
    assert s[0..|s|] == s;
  }

  // ---- Cursor ----

  /** A position in the text and the number of its line. */
  datatype Cursor = Cursor(pos: nat, line: nat)

  function Next(src: string, c: Cursor): Cursor {
    Cursor(c.pos + 1, if CharAt(src, c.pos + 1) == '\n' then c.line + 1 else c.line)
  }

  predicate HasNewline(src: string, pos: nat)
    decreases |src| - pos
  {
    pos < |src| && (src[pos] == '\n' || HasNewline(src, pos + 1))
  }

  /** Every comment character has a newline after it. */
  ghost predicate CommentsClosed(src: string) {
    forall i: nat {:trigger CharAt(src, i)} :: IsComment(CharAt(src, i)) ==> HasNewline(src, i)
  }

  function SkipSpace(src: string, c: Cursor): (d: Cursor)
    ensures c.pos <= d.pos && !IsSpace(CharAt(src, d.pos))
    ensures !IsSpace(CharAt(src, c.pos)) ==> d == c
    decreases |src| - c.pos
  {
    if IsSpace(CharAt(src, c.pos)) then SkipSpace(src, Next(src, c)) else c
  }

  function SkipSeparators(src: string, c: Cursor): (d: Cursor)
    ensures c.pos <= d.pos && !IsSeparator(CharAt(src, d.pos))
    ensures IsSeparator(CharAt(src, c.pos)) ==> c.pos < d.pos
    ensures !IsSeparator(CharAt(src, c.pos)) ==> d == c
    decreases |src| - c.pos
  {
    if IsSeparator(CharAt(src, c.pos)) then SkipSeparators(src, Next(src, c)) else c
  }

  function SkipComment(src: string, c: Cursor): (d: Cursor)
    ensures c.pos <= d.pos
    ensures HasNewline(src, c.pos) ==> CharAt(src, d.pos) == '\n'
    ensures CharAt(src, c.pos) != '\n' && c.pos < |src| ==> c.pos < d.pos
    decreases |src| - c.pos
  {
    if c.pos >= |src| || src[c.pos] == '\n' then c else SkipComment(src, Next(src, c))
  }

  const TOKEN_BUF_SIZE := 512

  /** Skipping a comment, when a newline ends it. */
  function LeaveComment(src: string, c: Cursor): (r: Result<Cursor>)
    ensures r.Success? ==> c.pos <= r.value.pos && CharAt(src, r.value.pos) == '\n'
    ensures r.Success? && CharAt(src, c.pos) != '\n' ==> c.pos < r.value.pos
    ensures r.Success? <==> HasNewline(src, c.pos)
  {
    if HasNewline(src, c.pos) then Success(SkipComment(src, c)) else Failure(OpenComment)
  }

  /** The characters copied into the token buffer from index `idx` on, and the cursor after them. */
  function ScanChars(src: string, c: Cursor, idx: nat): (r: Result<(string, Cursor)>)
    requires idx <= TOKEN_BUF_SIZE - 1
    ensures r.Success? ==> |r.value.0| + idx <= TOKEN_BUF_SIZE - 1 && c.pos <= r.value.1.pos
    ensures r.Success? && r.value.0 != "" ==> c.pos < r.value.1.pos && r.value.0[0] == CharAt(src, c.pos)
    decreases TOKEN_BUF_SIZE - 1 - idx
  {
    var ch := CharAt(src, c.pos);
    if idx == TOKEN_BUF_SIZE - 1 || ch == ' ' || ch == '\n' || IsSeparator(ch) then Success(("", c))
    else if ch == '#' then
      var d :- LeaveComment(src, c);
      Success(("", d))
    else
      var (s, d) :- ScanChars(src, Next(src, c), idx + 1);
      Success(([ch] + s, d))
  }

  /** The token as the buffer holds it, and the cursor after it. */
  function ScanToken(src: string, c: Cursor): (r: Result<(string, Cursor)>)
    ensures r.Success? ==> c.pos <= r.value.1.pos
    ensures r.Success? && r.value.0 != "" ==> c.pos < r.value.1.pos && c.pos < |src|
    ensures r.Success? && !IsSpace(CharAt(src, c.pos)) && !IsComment(CharAt(src, c.pos)) ==> c.pos < r.value.1.pos
  {
    var (s, d) :- ScanChars(src, SkipSeparators(src, SkipSpace(src, c)), 0);
    Success((CString(s), if CharAt(src, d.pos) == ',' then Next(src, d) else d))
  }

  // ---- Operands ----

  /** Where the scan for a register name stopped, how many parentheses are open, and the offset read. */
  datatype RegScan = RegScan(at: nat, depth: nat, offset: string)

  function ScanToDollar(token: string, i: nat, depth: nat, offset: string): (r: Result<RegScan>)
    requires i <= |token|
    ensures r.Success? ==> i <= r.value.at <= |token|
    decreases |token| - i
  {
    if i == |token| || token[i] == '$' then Success(RegScan(i, depth, offset))
    else if token[i] == '(' then ScanToDollar(token, i + 1, depth + 1, offset)
    else if token[i] == ')' then
      if depth == 0 then Failure(EmptyStack) else ScanToDollar(token, i + 1, depth - 1, offset)
    else if IsDigit(token[i]) then
      var e := DigitsEnd(token, i);
      assert e > i;
      ScanToDollar(token, e, depth, token[i..e])
    else ScanToDollar(token, i + 1, depth, offset)
  }

  function CloseParen(token: string, i: nat): (e: nat)
    requires i <= |token|
    ensures i <= e <= |token| && (forall k :: i <= k < e ==> token[k] != ')') && (e < |token| ==> token[e] == ')')
    decreases |token| - i
  {
    if i < |token| && token[i] != ')' then CloseParen(token, i + 1) else i
  }

  /** A register operand, or a token of type SymNone when the name is not a register's. */
  function ExtractReg(token: string): Result<Token> {
    var s :- ScanToDollar(token, 0, 0, "-1");
    var end := if s.depth == 0 then |token| else CloseParen(token, s.at);
    var idx := RegIdx(token[s.at..end]);
    Success(if idx >= 0 then Token(SymRegister, Decimal(idx), s.offset) else Token(SymNone, "", s.offset))
  }

  /** What a scanned string means, and whether it is in error. */
  function Classify(raw: string): (r: Result<(Token, bool)>)
    ensures r.Success? && r.value.0.ty == SymLiteral ==> raw != ""
  {
    if CharAt(raw, 0) == '\'' && CharAt(raw, 2) != '\'' then
      Success((Token(SymChar, [CharAt(raw, 1)], ""), true))
    else if CharAt(raw, 0) == '"' then
      Success((Token(SymString, raw, ""), false))
    else ClassifyLower(raw, Lower(raw))
  }

  /** The case of a string that is neither a character nor a quoted string; `str` is it in lower case. */
  function ClassifyLower(raw: string, str: string): (r: Result<(Token, bool)>)
    ensures r.Success? && r.value.0.ty == SymLiteral ==> str != ""
  {
    var first := CharAt(str, 0);
    if first == '.' then
      Success((Token(SymDirective, str, ""), false))
    else if IsDigit(first) && CharAt(str, 1) != '(' then
      Success((Token(SymLiteral, str[..DigitsEnd(str, 0)], ""), false))
    else if first == '$' || first == '(' || IsDigit(first) then
      var t :- ExtractReg(str);
      Success(if t.ty == SymNone then (NO_TOKEN, true) else (t, false))
    else if !OpOf(str).OpNull? then
      Success((Token(SymInstr, raw, ""), false))
    else
      Success((Token(SymLabel, str, ""), false))
  }

  // ---- Lines ----

  /** The part of the lexer's state that parsing a line reads and writes. */
  datatype Parse = Parse(cur: Cursor, tok: Token, ti: TextInfo, di: DataInfo)

  function NextToken(src: string, p: Parse): (r: Result<Parse>)
    ensures r.Success? ==> p.cur.pos <= r.value.cur.pos
    ensures r.Success? && r.value.tok.ty == SymLiteral ==> p.cur.pos < |src| && p.cur.pos < r.value.cur.pos
    ensures r.Success? && !IsSpace(CharAt(src, p.cur.pos)) && !IsComment(CharAt(src, p.cur.pos)) ==>
      p.cur.pos < r.value.cur.pos
    ensures r.Success? ==> r.value.di == p.di
  {
    var (raw, cur) :- ScanToken(src, p.cur);
    var (tok, bad) :- Classify(raw);
    Success(Parse(cur, tok, p.ti.(error := p.ti.error || bad), p.di))
  }

  /** The data line passes through a token unread. */
  lemma NextTokenData(src: string, p: Parse, di: DataInfo)
    ensures NextToken(src, p.(di := di)) ==
      match NextToken(src, p)
      case Success(q) => Success(q.(di := di))
      case Failure(f) => Failure(f)
  {}

  /** The previous token plays no part. */
  lemma NextTokenFresh(src: string, p: Parse, t: Token)
    ensures NextToken(src, p.(tok := t)) == NextToken(src, p)
  {}

  function ParseRegister(src: string, p: Parse): (r: Result<(Argument, Parse)>)
    ensures r.Success? ==> p.cur.pos <= r.value.1.cur.pos && r.value.1.di == p.di
  {
    var q :- NextToken(src, p);
    if q.tok.ty != SymRegister then Success((NO_ARG, q))
    else
      var v :- StoI(q.tok.val);
      if q.tok.offset == "" then Success((Arg(SymRegister, v), q))
      else
        var o :- StoI(q.tok.offset);
        Success((Argument(SymRegister, v, o), q))
  }

  function ParseImmediate(src: string, p: Parse): (r: Result<(Argument, Parse)>)
    ensures r.Success? ==> p.cur.pos <= r.value.1.cur.pos && r.value.1.di == p.di
  {
    var q :- NextToken(src, p);
    if q.tok.ty == SymLiteral then
      var v :- StoI(q.tok.val);
      Success((Arg(SymLiteral, v), q))
    else if q.tok.ty == SymLabel then Success((Arg(SymLabel, 0), q))
    else Success((NO_ARG, q))
  }

  function SetA0(p: Parse, a: Argument): Parse { p.(ti := p.ti.(a0 := a)) }
  function SetA1(p: Parse, a: Argument): Parse { p.(ti := p.ti.(a1 := a)) }
  function SetA2(p: Parse, a: Argument): Parse { p.(ti := p.ti.(a2 := a)) }

  // A third argument is a symbol, a literal, or an error.
  function CheckA2(ti: TextInfo, name: string): TextInfo {
    if ti.a2.ty == SymLabel then ti.(isSymbol := true, symbolName := name)
    else if ti.a2.ty != SymLiteral then ti.(error := true)
    else ti
  }

  function ParseR(src: string, p: Parse): (r: Result<Parse>)
    ensures r.Success? ==> p.cur.pos <= r.value.cur.pos && r.value.di == p.di
  {
    var (a, q) :- ParseRegister(src, p);
    Success(SetA0(q, a))
  }

  function ParseI(src: string, p: Parse): (r: Result<Parse>)
    ensures r.Success? ==> p.cur.pos <= r.value.cur.pos && r.value.di == p.di
  {
    var (a, q) :- ParseImmediate(src, p);
    var q' := SetA0(q, a);
    Success(if a.ty == SymLabel then q'.(ti := q'.ti.(isSymbol := true, symbolName := q'.tok.val))
            else q'.(ti := q'.ti.(isSymbol := false)))
  }

  function ParseRR(src: string, p: Parse): (r: Result<Parse>)
    ensures r.Success? ==> p.cur.pos <= r.value.cur.pos && r.value.di == p.di
  {
    var q :- ParseR(src, p);
    var (b, s) :- ParseRegister(src, q);
    var s' := SetA1(s, b);
    Success(if b.offset > 0 then SetA2(s', Arg(SymLiteral, b.offset)) else s')
  }

  function ParseRI(src: string, p: Parse): (r: Result<Parse>)
    ensures r.Success? ==> p.cur.pos <= r.value.cur.pos && r.value.di == p.di
  {
    var q :- ParseR(src, p);
    var (b, s) :- ParseImmediate(src, SetA1(q, NO_ARG));
    Success(s.(ti := CheckA2(s.ti.(a2 := b), s.tok.val)))
  }

  function ParseRRO(src: string, p: Parse): (r: Result<Parse>)
    ensures r.Success? ==> p.cur.pos <= r.value.cur.pos && r.value.di == p.di
  {
    var q :- ParseR(src, p);
    var (b, s) :- ParseRegister(src, q);
    Success(SetA2(SetA1(s, b), Arg(SymLiteral, if b.offset > -1 then b.offset else 0)))
  }

  // The immediate after two registers is the offset of the second, if it has one.
  function ParseThird(src: string, p: Parse): (r: Result<Parse>)
    ensures r.Success? ==> p.cur.pos <= r.value.cur.pos && r.value.di == p.di
  {
    if p.ti.a1.offset > -1 then
      Success(p.(ti := CheckA2(p.ti.(a2 := Arg(SymLiteral, p.ti.a1.offset)), p.tok.val)))
    else
      var (c, q) :- ParseImmediate(src, p);
      Success(q.(ti := CheckA2(q.ti.(a2 := c), q.tok.val)))
  }

  function ParseRRI(src: string, p: Parse): (r: Result<Parse>)
    ensures r.Success? ==> p.cur.pos <= r.value.cur.pos && r.value.di == p.di
  {
    var q :- ParseR(src, p);
    var (b, s) :- ParseRegister(src, q);
    ParseThird(src, SetA1(s, b))
  }

  function ParseRRR(src: string, p: Parse): (r: Result<Parse>)
    ensures r.Success? ==> p.cur.pos <= r.value.cur.pos && r.value.di == p.di
  {
    var q :- ParseR(src, p);
    var (b, s) :- ParseRegister(src, q);
    var (c, u) :- ParseRegister(src, SetA1(s, b));
    Success(SetA2(u, c))
  }

  /** The operand patterns. */
  datatype Shape = NoOperands | ShapeR | ShapeI | ShapeRR | ShapeRI | ShapeRRO | ShapeRRI | ShapeRRR

  function ShapeOf(op: Op): Shape {
    match op
    case Jr | Jalr | Mfhi | Mthi | Mflo | Mtlo => ShapeR
    case J | Jal => ShapeI
    case Div | Divu | Mult | Multu => ShapeRR
    case Lui | Beqz | Bgtz | Blez | La | Li => ShapeRI
    case Lw | Sw => ShapeRRO
    case Addi | Addiu | Andi | Ori | Xori | Slti | Sltiu | Sll | Beq | Bne | Bgt | Blt | Bge | Ble | Bgtu => ShapeRRI
    case Add | And | Nor | Or | Slt | Sltu | Sub | Subu | Xor | Mul => ShapeRRR
    case _ => NoOperands
  }

  predicate TakesImmediate(op: Op) {
    op.J? || op.Jal? || op.Lui? || op.La? || op.Li? || (ShapeOf(op) == ShapeRRI)
  }

  // Operations the lexer's table knows but its parser does not.
  predicate Unparsed(op: Op) { ShapeOf(op) == NoOperands && !op.Syscall? && !op.OpNull? }

  /** The operation and the marks that depend on it alone. */
  function Flagged(ti: TextInfo, op: Op): TextInfo {
    ti.(op := op, isImm := ti.isImm || TakesImmediate(op), upper := ti.upper || op.Lui?,
        pseudo := ti.pseudo || IsPseudo(op), error := ti.error || Unparsed(op))
  }

  function ParseShape(src: string, p: Parse, shape: Shape): (r: Result<Parse>)
    ensures r.Success? ==> p.cur.pos <= r.value.cur.pos && r.value.di == p.di
  {
    match shape
    case NoOperands => Success(p)
    case ShapeR => ParseR(src, p)
    case ShapeI => ParseI(src, p)
    case ShapeRR => ParseRR(src, p)
    case ShapeRI => ParseRI(src, p)
    case ShapeRRO => ParseRRO(src, p)
    case ShapeRRI => ParseRRI(src, p)
    case ShapeRRR => ParseRRR(src, p)
  }

  /** The instruction line whose mnemonic is the current token. */
  function ParseInstr(src: string, p: Parse, lineNum: nat): (r: Result<Parse>)
    ensures r.Success? ==> p.cur.pos <= r.value.cur.pos && r.value.di == p.di
  {
    var op := OpOf(p.tok.val);
    var q :- ParseShape(src, p.(ti := Flagged(p.ti, op)), ShapeOf(op));
    Success(q.(ti := q.ti.(lineNum := lineNum)))
  }

  /** The literals of a .word directive, read until the line ends or a token is not a literal. */
  function ParseWords(src: string, p: Parse): (r: Result<Parse>)
    ensures r.Success? ==> p.cur.pos <= r.value.cur.pos
    ensures r.Success? ==> |p.di.data| <= |r.value.di.data|
    ensures r.Success? ==> r.value.di == p.di.(data := r.value.di.data, error := r.value.di.error)
    decreases |src| - p.cur.pos
  {
    if p.cur.line > p.di.lineNum then Success(p)
    else
      var q :- NextToken(src, p);
      if q.tok.ty != SymLiteral then Success(q.(di := q.di.(error := true)))
      else
        var v :- StoI(q.tok.val);
        ParseWords(src, q.(di := q.di.(data := q.di.data + [Byte0(Word(v))])))
  }

  /** The literals of a .half directive; each is clipped to 16 bits and stored as one byte. */
  function ParseHalves(src: string, p: Parse): (r: Result<Parse>)
    ensures r.Success? ==> p.cur.pos <= r.value.cur.pos
    ensures r.Success? ==> |p.di.data| <= |r.value.di.data|
    ensures r.Success? ==> r.value.di == p.di.(data := r.value.di.data, error := r.value.di.error)
    decreases |src| - p.cur.pos
  {
    if p.cur.line > p.di.lineNum then Success(p)
    else
      var q :- NextToken(src, p);
      if q.cur.line > p.di.lineNum then Success(q)
      else if q.tok.ty != SymLiteral then Success(q.(di := q.di.(error := true)))
      else
        var v :- StoI(q.tok.val);
        var half := if v > 0xFFFF then 0xFFFF else v;
        ParseHalves(src, q.(di := q.di.(data := q.di.data + [Byte0(Word(half))])))
  }

  // The characters between the quotes; a token that is one quote has none.
  function StringBytes(val: string): seq<bv8> {
    if |val| < 2 then [] else seq(|val| - 2, i requires 0 <= i < |val| - 2 => Byte0(Word(val[i + 1] as int)))
  }

  function StartData(p: Parse, d: DirectiveType): Parse { p.(di := p.di.(directive := d, lineNum := p.cur.line)) }

  function ParseAsciiz(src: string, p: Parse): (r: Result<Parse>)
    ensures r.Success? ==> p.cur.pos <= r.value.cur.pos
  {
    var q :- NextToken(src, StartData(p, DirAsciiz));
    Success(q.(di :=
      if q.tok.ty == SymString then q.di.(data := q.di.data + StringBytes(q.tok.val)) else q.di.(error := true)))
  }

  function ParseByte(src: string, p: Parse): (r: Result<Parse>)
    ensures r.Success? ==> p.cur.pos <= r.value.cur.pos
  {
    var q :- NextToken(src, p.(di := p.di.(directive := DirByte)));
    if q.tok.ty != SymChar then Success(q.(di := q.di.(error := true)))
    else
      var v :- StoI(q.tok.val);
      Success(q.(di := q.di.(data := q.di.data + [Byte0(Word(if v > 255 then 255 else v))])))
  }

  function ParseSpace(src: string, p: Parse): (r: Result<Parse>)
    ensures r.Success? ==> p.cur.pos <= r.value.cur.pos
  {
    var q :- NextToken(src, StartData(p, DirSpace));
    if q.tok.ty != SymLiteral then Success(q.(di := q.di.(error := true)))
    else
      var v :- StoI(q.tok.val);
      Success(q.(di := q.di.(space := v % MODULUS)))
  }

  predicate DefinesData(d: Directive) {
    d == DAlign || d == DAsciiz || d == DByte || d == DHalf || d == DSpace || d == DWord
  }

  function ParseData(src: string, p: Parse, d: Directive): (r: Result<Parse>)
    ensures r.Success? ==> p.cur.pos <= r.value.cur.pos
  {
    match d
    case DAsciiz => ParseAsciiz(src, p)
    case DByte => ParseByte(src, p)
    case DHalf => ParseHalves(src, StartData(p, DirHalf))
    case DSpace => ParseSpace(src, p)
    case DWord => ParseWords(src, StartData(p, DirWord))
    case _ => Success(p)
  }

  /** The directive line whose name is the current token. */
  function ParseDirective(src: string, p: Parse, lineNum: nat): (r: Result<(Body, Parse)>)
    ensures r.Success? ==> p.cur.pos <= r.value.1.cur.pos
  {
    var d := DirectiveOf(p.tok.val);
    if d == DData then Success((SegmentBody(DataSegment), p))
    else if d == DText then Success((SegmentBody(TextSegment), p))
    else
      var q :- ParseData(src, p, d);
      Success((DataBody(q.di.(lineNum := lineNum), DefinesData(d)), q))
  }

  /** One line: an optional label, then a directive, an instruction, or nothing. */
  function ParseLine(src: string, cur: Cursor, mode: LexMode): (r: Result<(SourceLine, Parse)>)
    ensures r.Success? && !IsSpace(CharAt(src, cur.pos)) && !IsComment(CharAt(src, cur.pos)) ==>
      cur.pos < r.value.1.cur.pos
  {
    var p :- NextToken(src, Parse(cur, NO_TOKEN, BLANK_TEXT, BLANK_DATA));
    if p.tok.ty == SymLabel then
      var name := p.tok.val;
      var q :- NextToken(src, MarkLabel(p, mode, name).(cur := Next(src, p.cur)));
      var (body, end) :- ParseBody(src, q, q.cur.line);
      Success((SourceLine(true, name, body), end))
    else
      var (body, end) :- ParseBody(src, p, cur.line);
      Success((SourceLine(false, "", body), end))
  }

  function MarkLabel(p: Parse, mode: LexMode, name: string): Parse {
    if mode == TextSegment then p.(ti := p.ti.(isLabel := true, labelName := name))
    else p.(di := p.di.(isLabel := true, labelName := name))
  }

  function ParseBody(src: string, p: Parse, lineNum: nat): (r: Result<(Body, Parse)>)
    ensures r.Success? ==> p.cur.pos <= r.value.1.cur.pos
  {
    if p.tok.ty == SymDirective then ParseDirective(src, p, lineNum)
    else if p.tok.ty == SymInstr then
      var q :- ParseInstr(src, p, lineNum);
      Success((InstrBody(q.ti), q))
    else Success((BareBody(p.ti.(lineNum := lineNum)), p))
  }

  /** All the lines from a cursor to the end of the text. */
  function LexLines(src: string, c: Cursor, mode: LexMode): Result<seq<SourceLine>>
    decreases |src| - c.pos
  {
    var ch := CharAt(src, c.pos);
    if ch == '\0' then Success([])
    else if IsSpace(ch) then LexLines(src, Next(src, c), mode)
    else if IsComment(ch) then
      var d :- LeaveComment(src, c);
      LexLines(src, d, mode)
    else
      var (line, p) :- ParseLine(src, c, mode);
      var rest :- LexLines(src, p.cur, ModeAfter(mode, line.body));
      Success([line] + rest)
  }
}
