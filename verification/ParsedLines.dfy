/**
 What the parser guarantees of the lines it makes, over every source text.
 */
module ParsedLines {
  import opened Words
  import opened Source
  import opened Layout
  import opened Scanner
  import opened Addresses
  import DataSegments

  /** The marks of a parsed line agree with its operation or its directive. */
  predicate Marked(body: Body) {
    match body
    case InstrBody(t) => t.pseudo == IsPseudo(t.op)
    case BareBody(t) => t.op.OpNull?
    case DataBody(di, _) => di.directive == DirSpace ==> di.data == []
    case SegmentBody(_) => true
  }

  /** The operation and its pseudo-op mark are untouched. */
  predicate SameOp(p: Parse, q: Parse) { q.ti.op == p.ti.op && q.ti.pseudo == p.ti.pseudo }

  lemma TokenKeeps(src: string, p: Parse)
    ensures var r := NextToken(src, p); r.Success? ==> SameOp(p, r.value) && r.value.di == p.di
  {}

  lemma RegisterKeeps(src: string, p: Parse)
    ensures var r := ParseRegister(src, p); r.Success? ==> SameOp(p, r.value.1)
  {
    hide NextToken, StoI;
    TokenKeeps(src, p);
  }

  lemma ImmediateKeeps(src: string, p: Parse)
    ensures var r := ParseImmediate(src, p); r.Success? ==> SameOp(p, r.value.1)
  {}

  lemma RKeeps(src: string, p: Parse)
    ensures var r := ParseR(src, p); r.Success? ==> SameOp(p, r.value)
  {
    hide ParseRegister;
    RegisterKeeps(src, p);
  }

  lemma IKeeps(src: string, p: Parse)
    ensures var r := ParseI(src, p); r.Success? ==> SameOp(p, r.value)
  {
    hide ParseImmediate;
    ImmediateKeeps(src, p);
  }

  lemma RRKeeps(src: string, p: Parse)
    ensures var r := ParseRR(src, p); r.Success? ==> SameOp(p, r.value)
  {
    hide ParseR, ParseRegister, SetA1, SetA2, SameOp;
    RKeeps(src, p);
    if ParseR(src, p).Success? {
      var q := ParseR(src, p).value;
      RegisterKeeps(src, q);
      if ParseRegister(src, q).Success? {
        var (b, s) := ParseRegister(src, q).value;
        SetKeeps(p, q, s, b);
      }
    }
  }

  lemma SetKeeps(p: Parse, q: Parse, s: Parse, b: Argument)
    requires SameOp(p, q) && SameOp(q, s)
    ensures SameOp(p, SetA1(s, b)) && SameOp(p, SetA2(SetA1(s, b), Arg(SymLiteral, b.offset)))
  {}

  lemma RIKeeps(src: string, p: Parse)
    ensures var r := ParseRI(src, p); r.Success? ==> SameOp(p, r.value)
  {
    hide ParseR, ParseImmediate;
    RKeeps(src, p);
    if ParseR(src, p).Success? { ImmediateKeeps(src, SetA1(ParseR(src, p).value, NO_ARG)); }
  }

  lemma RROKeeps(src: string, p: Parse)
    ensures var r := ParseRRO(src, p); r.Success? ==> SameOp(p, r.value)
  {
    hide ParseR, ParseRegister;
    RKeeps(src, p);
    if ParseR(src, p).Success? { RegisterKeeps(src, ParseR(src, p).value); }
  }

  lemma ThirdKeeps(src: string, p: Parse)
    ensures var r := ParseThird(src, p); r.Success? ==> SameOp(p, r.value)
  {
    hide ParseImmediate;
    ImmediateKeeps(src, p);
  }

  lemma RRIKeeps(src: string, p: Parse)
    ensures var r := ParseRRI(src, p); r.Success? ==> SameOp(p, r.value)
  {
    hide ParseR, ParseRegister, ParseThird;
    RKeeps(src, p);
    if ParseR(src, p).Success? {
      var q := ParseR(src, p).value;
      RegisterKeeps(src, q);
      var r := ParseRegister(src, q);
      if r.Success? { ThirdKeeps(src, SetA1(r.value.1, r.value.0)); }
    }
  }

  lemma RRRKeeps(src: string, p: Parse)
    ensures var r := ParseRRR(src, p); r.Success? ==> SameOp(p, r.value)
  {
    hide ParseR, ParseRegister;
    RKeeps(src, p);
    if ParseR(src, p).Success? {
      var q := ParseR(src, p).value;
      RegisterKeeps(src, q);
      var r := ParseRegister(src, q);
      if r.Success? { RegisterKeeps(src, SetA1(r.value.1, r.value.0)); }
    }
  }

  lemma ShapeKeeps(src: string, p: Parse, shape: Shape)
    ensures var r := ParseShape(src, p, shape); r.Success? ==> SameOp(p, r.value)
  {
    hide ParseR, ParseI, ParseRR, ParseRI, ParseRRO, ParseRRI, ParseRRR;
    RKeeps(src, p);
    IKeeps(src, p);
    RRKeeps(src, p);
    RIKeeps(src, p);
    RROKeeps(src, p);
    RRIKeeps(src, p);
    RRRKeeps(src, p);
  }

  /** An instruction line has the operation of its mnemonic, and is marked as a pseudo-op exactly when that is one. */
  lemma InstrMarked(src: string, p: Parse, lineNum: nat)
    requires !p.ti.pseudo
    ensures var r := ParseInstr(src, p, lineNum);
      r.Success? ==> r.value.ti.op == OpOf(p.tok.val) && r.value.ti.pseudo == IsPseudo(OpOf(p.tok.val))
  {
    hide ParseShape, ShapeOf, OpOf, IsPseudo, TakesImmediate, Unparsed;
    var op := OpOf(p.tok.val);
    ShapeKeeps(src, p.(ti := Flagged(p.ti, op)), ShapeOf(op));
  }

  lemma SpaceHasNoBytes(src: string, p: Parse, d: Directive)
    requires p.di.data == [] && p.di.directive == DirNone
    ensures var r := ParseData(src, p, d); r.Success? && r.value.di.directive == DirSpace ==> r.value.di.data == []
  {
    hide NextToken, StoI, Byte0, Word, ParseWords, ParseHalves, StringBytes;
  }

  lemma DirectiveMarked(src: string, p: Parse, lineNum: nat)
    requires p.di.data == [] && p.di.directive == DirNone
    ensures var r := ParseDirective(src, p, lineNum); r.Success? ==> Marked(r.value.0)
  {
    hide ParseData, DirectiveOf, DefinesData;
    SpaceHasNoBytes(src, p, DirectiveOf(p.tok.val));
  }

  lemma BodyMarked(src: string, p: Parse, lineNum: nat)
    requires p.di.data == [] && p.di.directive == DirNone && !p.ti.pseudo && p.ti.op.OpNull?
    ensures var r := ParseBody(src, p, lineNum);
      r.Success? ==>
        Marked(r.value.0) && (r.value.0.InstrBody? ==> p.tok.ty == SymInstr && r.value.0.ti.op == OpOf(p.tok.val))
  {
    hide ParseInstr, ParseDirective, OpOf, IsPseudo;
    DirectiveMarked(src, p, lineNum);
    InstrMarked(src, p, lineNum);
    NoInstr(src, p, lineNum);
  }

  lemma NoInstr(src: string, p: Parse, lineNum: nat)
    ensures var r := ParseDirective(src, p, lineNum); r.Success? ==> !r.value.0.InstrBody?
  {}

  // ---- Lower-case sources ----

  predicate LowerCase(src: string) { forall i :: 0 <= i < |src| ==> ToLower(src[i]) == src[i] }

  lemma {:induction false} CharsLower(src: string, c: Cursor, idx: nat)
    requires LowerCase(src) && idx <= TOKEN_BUF_SIZE - 1
    ensures var r := ScanChars(src, c, idx); r.Success? ==> LowerCase(r.value.0)
    decreases TOKEN_BUF_SIZE - 1 - idx
  {
    var ch := CharAt(src, c.pos);
    if !(idx == TOKEN_BUF_SIZE - 1 || ch == ' ' || ch == '\n' || IsSeparator(ch) || ch == '#') {
      CharsLower(src, Next(src, c), idx + 1);
    }
  }

  lemma {:induction false} CStringLower(s: string)
    requires LowerCase(s)
    ensures LowerCase(CString(s))
  {
    if s != "" {
      CStringLower(s[1..]);
    }
  }

  lemma TokenLower(src: string, c: Cursor)
    requires LowerCase(src)
    ensures var r := ScanToken(src, c); r.Success? ==> Lower(r.value.0) == r.value.0
  {
    hide ScanChars, CString;
    var start := SkipSeparators(src, SkipSpace(src, c));
    CharsLower(src, start, 0);
    if ScanChars(src, start, 0).Success? {
      CStringLower(ScanChars(src, start, 0).value.0);
    }
  }

  /** A mnemonic token of a lower-case text names an operation. */
  lemma MnemonicKnown(raw: string)
    requires Lower(raw) == raw
    ensures var r := Classify(raw); r.Success? && r.value.0.ty == SymInstr ==> !OpOf(r.value.0.val).OpNull?
  {}

  lemma TokenKnown(src: string, p: Parse)
    requires LowerCase(src)
    ensures var r := NextToken(src, p); r.Success? && r.value.tok.ty == SymInstr ==> !OpOf(r.value.tok.val).OpNull?
  {
    hide OpOf, ScanToken, Classify;
    TokenLower(src, p.cur);
    if ScanToken(src, p.cur).Success? {
      MnemonicKnown(ScanToken(src, p.cur).value.0);
    }
  }

  // ---- Whole sources ----

  lemma LineMarked(src: string, cur: Cursor, mode: LexMode)
    ensures var r := ParseLine(src, cur, mode);
      r.Success? ==> Marked(r.value.0.body) && (LowerCase(src) ==> RegularBody(r.value.0.body))
  {
    hide NextToken, ParseBody, OpOf, LowerCase, IsPseudo;
    var start := Parse(cur, NO_TOKEN, BLANK_TEXT, BLANK_DATA);
    TokenKeeps(src, start);
    if LowerCase(src) { TokenKnown(src, start); }
    var r := NextToken(src, start);
    if r.Success? && r.value.tok.ty == SymLabel {
      var p := r.value;
      var m := MarkLabel(p, mode, p.tok.val).(cur := Next(src, p.cur));
      TokenKeeps(src, m);
      if LowerCase(src) { TokenKnown(src, m); }
      if NextToken(src, m).Success? {
        var q := NextToken(src, m).value;
        BodyMarked(src, q, q.cur.line);
      }
    } else if r.Success? {
      BodyMarked(src, r.value, cur.line);
    }
  }

  predicate AllMarked(lines: seq<SourceLine>) { forall i :: 0 <= i < |lines| ==> Marked(lines[i].body) }

  lemma MarkedCons(line: SourceLine, rest: seq<SourceLine>)
    ensures Marked(line.body) && AllMarked(rest) ==> AllMarked([line] + rest)
    ensures RegularBody(line.body) && Regular(rest) ==> Regular([line] + rest)
  {}

  /** Every line the parser makes is marked right; from a lower-case text, every line is regular. */
  lemma {:induction false} LinesMarked(src: string, c: Cursor, mode: LexMode)
    ensures var r := LexLines(src, c, mode);
      r.Success? ==> AllMarked(r.value) && (LowerCase(src) ==> Regular(r.value))
    decreases |src| - c.pos
  {
    hide ParseLine, Marked, RegularBody, HasNewline, AllMarked, Regular, LowerCase;
    NoneMarked();
    var ch := CharAt(src, c.pos);
    if ch == '\0' {
    } else if IsSpace(ch) {
      LinesMarked(src, Next(src, c), mode);
    } else if IsComment(ch) {
      if LeaveComment(src, c).Success? {
        LinesMarked(src, LeaveComment(src, c).value, mode);
      }
    } else {
      LineMarked(src, c, mode);
      var r := ParseLine(src, c, mode);
      if r.Success? {
        var mode' := ModeAfter(mode, r.value.0.body);
        LinesMarked(src, r.value.1.cur, mode');
        if LexLines(src, r.value.1.cur, mode').Success? {
          MarkedCons(r.value.0, LexLines(src, r.value.1.cur, mode').value);
        }
      }
    }
  }

  lemma NoneMarked()
    ensures AllMarked([]) && Regular([])
  {}

  /** Lines are regular exactly when every instruction line has an operation. */
  lemma RegularParsed(src: string, c: Cursor, mode: LexMode)
    requires LexLines(src, c, mode).Success?
    ensures var lines := LexLines(src, c, mode).value;
      Regular(lines) <==> forall i :: 0 <= i < |lines| && lines[i].body.InstrBody? ==> !lines[i].body.ti.op.OpNull?
  {
    hide LexLines;
    LinesMarked(src, c, mode);
    var lines := LexLines(src, c, mode).value;
    forall i | 0 <= i < |lines|
      ensures RegularBody(lines[i].body) <==> (lines[i].body.InstrBody? ==> !lines[i].body.ti.op.OpNull?)
    {
      assert Marked(lines[i].body);
    }
  }

  /** Data lines tile exactly when they come from .word, .asciiz and .space. */
  lemma TilingParsed(src: string, c: Cursor, mode: LexMode)
    requires LexLines(src, c, mode).Success?
    ensures var lines := LexLines(src, c, mode).value;
      DataSegments.Tiling(lines) <==>
        forall i :: 0 <= i < |lines| && lines[i].body.DataBody? ==> AddressedFirst(lines[i].body.di.directive)
  {
    hide LexLines, AddressedFirst;
    LinesMarked(src, c, mode);
    var lines := LexLines(src, c, mode).value;
    forall i | 0 <= i < |lines|
      ensures DataSegments.TilingBody(lines[i].body) <==>
        (lines[i].body.DataBody? ==> AddressedFirst(lines[i].body.di.directive))
    {
      assert Marked(lines[i].body);
    }
  }

  // ---- Mnemonics without a table entry, and without a parser ----

  lemma EntryOps(k: nat)
    requires k < NUM_INSTRS
    ensures var op := InstrEntry(k).1; !op.Sub? && !op.Subu? && !op.Sb?
  {}

  lemma {:induction false} MissingFrom(m: string, k: nat)
    requires k <= NUM_INSTRS
    ensures var op := OpFrom(m, k); !op.Sub? && !op.Subu? && !op.Sb?
    decreases NUM_INSTRS - k
  {
    hide InstrEntry;
    if k < NUM_INSTRS {
      EntryOps(k);
      MissingFrom(m, k + 1);
    }
  }

  /** No text names sub, subu or sb. */
  lemma MissingMnemonics(m: string)
    ensures var op := OpOf(m); !op.Sub? && !op.Subu? && !op.Sb?
  {
    MissingFrom(m, 0);
  }

  /** The operations the parser has no case for. */
  lemma UnparsedOps(op: Op)
    ensures Unparsed(op) <==>
      op.Addu? || op.Sllv? || op.Srl? || op.Srv? || op.Lb? || op.Lbu? || op.Lh? || op.Lhu? || op.Sb? || op.Sh?
  {}

  predicate NoArgs(ti: TextInfo) { ti.a0 == NO_ARG && ti.a1 == NO_ARG && ti.a2 == NO_ARG }

  lemma TokenArgs(src: string, p: Parse)
    ensures var r := NextToken(src, p); r.Success? ==> (NoArgs(p.ti) ==> NoArgs(r.value.ti))
  {
    hide ScanToken, Classify;
  }

  lemma UnparsedInstr(src: string, p: Parse, lineNum: nat)
    requires NoArgs(p.ti) && Unparsed(OpOf(p.tok.val))
    ensures var r := ParseInstr(src, p, lineNum); r.Success? && r.value.ti.error && NoArgs(r.value.ti)
  {
    hide OpOf, IsPseudo, TakesImmediate;
  }

  lemma UnparsedBody(src: string, p: Parse, lineNum: nat)
    requires NoArgs(p.ti) && p.di.data == [] && p.di.directive == DirNone && !p.ti.pseudo && p.ti.op.OpNull?
    ensures var r := ParseBody(src, p, lineNum);
      r.Success? && r.value.0.InstrBody? && Unparsed(r.value.0.ti.op) ==> r.value.0.ti.error && NoArgs(r.value.0.ti)
  {
    hide ParseInstr, ParseDirective, OpOf, Unparsed, NoArgs;
    BodyMarked(src, p, lineNum);
    if Unparsed(OpOf(p.tok.val)) {
      UnparsedInstr(src, p, lineNum);
    }
  }

  /** A line with such an operation has the error mark and none of its operands. */
  lemma UnparsedLine(src: string, cur: Cursor, mode: LexMode)
    ensures var r := ParseLine(src, cur, mode);
      r.Success? && r.value.0.body.InstrBody? && Unparsed(r.value.0.body.ti.op) ==>
        r.value.0.body.ti.error && NoArgs(r.value.0.body.ti)
  {
    hide NextToken, ParseBody, Unparsed;
    var start := Parse(cur, NO_TOKEN, BLANK_TEXT, BLANK_DATA);
    TokenKeeps(src, start);
    TokenArgs(src, start);
    var r := NextToken(src, start);
    if r.Success? && r.value.tok.ty == SymLabel {
      var p := r.value;
      var m := MarkLabel(p, mode, p.tok.val).(cur := Next(src, p.cur));
      TokenKeeps(src, m);
      TokenArgs(src, m);
      if NextToken(src, m).Success? {
        UnparsedBody(src, NextToken(src, m).value, NextToken(src, m).value.cur.line);
      }
    } else if r.Success? {
      UnparsedBody(src, r.value, cur.line);
    }
  }
}
