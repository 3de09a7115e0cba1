/**
 The intermediate representation between lexer and assembler: operation codes, tokens,
 arguments, text and data lines, and the two tables the lexer fills in place.
 */
module Source {

  // One constructor per lexer instruction code.
  datatype Op =
    | OpNull
    | Add | Addu | Addi | Addiu
    | And | Andi | Div | Divu | Mul
    | Mult | Multu | Nor | Or
    | Ori | Sub | Subu | Xor | Xori
    | Sll | Sllv | Srl | Srv
    | Mfhi | Mthi | Mflo | Mtlo
    | Slt | Sltu | Slti | Sltiu
    | Lb | Lbu | Lh | Lhu
    | Lw | Li | La | Lui
    | Sb | Sh | Sw
    | J | Jal | Jalr | Jr
    | Beq | Blez | Bne | Bgtz
    | Bgt | Blt | Bge | Ble
    | Bgtu | Beqz
    | Syscall

  datatype TokenType =
    SymNone | SymLabel | SymInstr | SymLiteral | SymDirective | SymChar | SymString | SymRegister

  datatype DirectiveType =
    DirNone | DirAsciiz | DirByte | DirHalf | DirSpace | DirWord

  datatype LexMode = DataSegment | TextSegment

  const REG_ZERO := 0
  const REG_AT := 1
  const REG_RETURN := 31

  /** `val` and `offset` are the C++ `int` fields; `offset` is -1 when there is none. */
  datatype Argument = Argument(ty: TokenType, val: int, offset: int)

  const NO_ARG := Argument(SymNone, 0, -1)

  function Arg(ty: TokenType, val: int): Argument { Argument(ty, val, -1) }

  /** One line of the text section. The three elements of `args` are the fields a0, a1, a2. */
  datatype TextInfo = TextInfo(
    op: Op,
    a0: Argument, a1: Argument, a2: Argument,
    addr: int,
    lineNum: nat,
    labelName: string, symbolName: string,
    error: bool, isLabel: bool, isImm: bool, isSymbol: bool,
    upper: bool, lower: bool, pseudo: bool)
  {
    function ArgAt(i: nat): Argument
      requires i < 3
    {
      if i == 0 then a0 else if i == 1 then a1 else a2
    }
  }

  const BLANK_TEXT := TextInfo(OpNull, NO_ARG, NO_ARG, NO_ARG, 0, 0, "", "",
                               false, false, false, false, false, false, false)

  datatype DataInfo = DataInfo(
    directive: DirectiveType,
    labelName: string,
    data: seq<bv8>,
    lineNum: nat,
    addr: int,
    space: nat,
    isLabel: bool,
    error: bool)

  const BLANK_DATA := DataInfo(DirNone, "", [], 0, 0, 0, false, false)

  datatype Symbol = Symbol(name: string, addr: int, section: LexMode)

  /** The address of the first symbol with the given label, and 0 when there is none. */
  function AddrOfSymbol(syms: seq<Symbol>, name: string): (a: int)
    ensures (forall i :: 0 <= i < |syms| ==> syms[i].name != name) ==> a == 0
  {
    if syms == [] then 0
    else if syms[0].name == name then syms[0].addr
    else AddrOfSymbol(syms[1..], name)
  }

  /** A symbol added at the end is found only if its label was absent before. */
  lemma {:induction false} AddrOfSymbolAppend(syms: seq<Symbol>, s: Symbol, name: string)
    ensures AddrOfSymbol(syms + [s], name) ==
      if exists i :: 0 <= i < |syms| && syms[i].name == name then AddrOfSymbol(syms, name)
      else if s.name == name then s.addr else 0
  {
    if syms == [] {
      assert (syms + [s])[1..] == [];
    } else {
      assert (syms + [s])[1..] == syms[1..] + [s];
      AddrOfSymbolAppend(syms[1..], s, name);
      if exists i :: 0 <= i < |syms| && syms[i].name == name {
        var i :| 0 <= i < |syms| && syms[i].name == name;
        assert i == 0 || syms[1..][i - 1].name == name;
      } else {
        assert forall i :: 0 <= i < |syms[1..]| ==> syms[1..][i] == syms[i + 1];
      }
    }
  }

  class SymbolTable {
    var syms: seq<Symbol>

    constructor ()
      ensures syms == []
    {
      syms := [];
    }

    method Add(s: Symbol)
      modifies this
      ensures syms == old(syms) + [s]
    {
      syms := syms + [s];
    }

    method GetAddr(name: string) returns (a: int)
      ensures a == AddrOfSymbol(syms, name)
      ensures forall i | 0 <= i < |syms| && syms[i].name == name && (forall j :: 0 <= j < i ==> syms[j].name != name) ::
                a == syms[i].addr
    {
      var idx := 0;
      while idx < |syms|
        invariant idx <= |syms|
        invariant forall j :: 0 <= j < idx ==> syms[j].name != name
        invariant AddrOfSymbol(syms, name) == AddrOfSymbol(syms[idx..], name)
      {
        if name == syms[idx].name {
          return syms[idx].addr;
        }
        assert syms[idx..][1..] == syms[idx + 1..];
        idx := idx + 1;
      }
      a := 0;
    }
  }

  class SourceInfo {
    var text: seq<TextInfo>
    var data: seq<DataInfo>

    constructor ()
      ensures text == [] && data == []
    {
      text, data := [], [];
    }

    method Init()
      modifies this
      ensures text == [] && data == []
    {
      text, data := [], [];
    }

    method AddText(l: TextInfo)
      modifies this`text
      ensures text == old(text) + [l]
    {
      text := text + [l];
    }

    method AddData(d: DataInfo)
      modifies this`data
      ensures data == old(data) + [d]
    {
      data := data + [d];
    }

    /** Out-of-range indices leave the lines alone. */
    method Update(idx: nat, l: TextInfo)
      modifies this`text
      ensures text == if idx < |old(text)| then old(text)[idx := l] else old(text)
    {
      if idx < |text| {
        text := text[idx := l];
      }
    }

    /** Out-of-range indices give the null line. */
    method GetText(idx: nat) returns (l: TextInfo)
      ensures l == if idx < |text| then text[idx] else BLANK_TEXT
    {
      l := if idx < |text| then text[idx] else BLANK_TEXT;
    }

    method GetData(idx: nat) returns (d: DataInfo)
      ensures d == if idx < |data| then data[idx] else BLANK_DATA
    {
      d := if idx < |data| then data[idx] else BLANK_DATA;
    }
  }
}
