/**
 The names of the operations and directives as an assembly programmer writes them, and the proof that
 the lexer's tables mean the same by them.
 */
module Mnemonics {
  import opened Source
  import opened Scanner

  /** The mnemonic of an operation; none for sub, subu and sb, which the lexer does not know. */
  function MnemonicText(op: Op): string {
    match op
    case Add => "add"
    case Addu => "addu"
    case Addi => "addi"
    case Addiu => "addiu"
    case And => "and"
    case Andi => "andi"
    case Div => "div"
    case Divu => "divu"
    case Mul => "mul"
    case Mult => "mult"
    case Multu => "multu"
    case Nor => "nor"
    case Or => "or"
    case Ori => "ori"
    case Sll => "sll"
    case Sllv => "sllv"
    case Srl => "srl"
    case Srv => "srv"
    case Xor => "xor"
    case Xori => "xori"
    case Mfhi => "mfhi"
    case Mthi => "mthi"
    case Mflo => "mflo"
    case Mtlo => "mtlo"
    case Slt => "slt"
    case Sltu => "sltu"
    case Slti => "slti"
    case Sltiu => "sltiu"
    case Lb => "lb"
    case Lbu => "lbu"
    case Lh => "lh"
    case Lhu => "lhu"
    case Lw => "lw"
    case Li => "li"
    case La => "la"
    case Lui => "lui"
    case Sh => "sh"
    case Sw => "sw"
    case J => "j"
    case Jal => "jal"
    case Jalr => "jalr"
    case Jr => "jr"
    case Beq => "beq"
    case Blt => "blt"
    case Bgt => "bgt"
    case Bge => "bge"
    case Ble => "ble"
    case Bgtu => "bgtu"
    case Beqz => "beqz"
    case Bne => "bne"
    case Bgtz => "bgtz"
    case Blez => "blez"
    case Syscall => "syscall"
    case _ => ""
  }

  function DirectiveText(d: Directive): string {
    match d
    case DAlign => ".align"
    case DAsciiz => ".asciiz"
    case DByte => ".byte"
    case DData => ".data"
    case DDouble => ".double"
    case DEndMacro => ".end_macro"
    case DFloat => ".float"
    case DGlobal => ".global"
    case DHalf => ".half"
    case DInclude => ".include"
    case DMacro => ".macro"
    case DSpace => ".space"
    case DText => ".text"
    case DWord => ".word"
  }

  predicate HasMnemonic(op: Op) { MnemonicText(op) != "" }

  // ---- No two operations share a mnemonic ----

  /** A number that tells the mnemonics apart, from a few of their characters. */
  function Fingerprint(m: string): int {
    if m == "" then 0
    else
      11 * (m[0] as int) + 2 * (if |m| > 1 then m[1] as int else 0) + 2 * (m[|m| - 1] as int) + 11 * |m|
  }

  function OpAt(n: int): Op {
    if n == 1500 then Add else if n == 1545 then Addu else if n == 1521 then Addi else
    if n == 1556 then Addiu else if n == 1520 then And else if n == 1541 then Andi else
    if n == 1579 then Div else if n == 1588 then Divu else if n == 1682 then Mul else
    if n == 1709 then Mult else if n == 1722 then Multu else if n == 1693 then Nor else
    if n == 1699 then Or else if n == 1692 then Ori else if n == 1730 then Sll else if n == 1761 then Sllv else
    if n == 1742 then Srl else if n == 1762 then Srv else if n == 1803 then Xor else
    if n == 1796 then Xori else if n == 1657 then Mfhi else if n == 1685 then Mthi else
    if n == 1669 then Mflo else if n == 1697 then Mtlo else if n == 1746 then Slt else
    if n == 1759 then Sltu else if n == 1735 then Slti else if n == 1770 then Sltiu else
    if n == 1602 then Lb else if n == 1651 then Lbu else if n == 1626 then Lh else if n == 1663 then Lhu else
    if n == 1686 then Lw else if n == 1630 then Li else if n == 1598 then La else if n == 1665 then Lui else
    if n == 1703 then Sh else if n == 1763 then Sw else if n == 1389 then J else if n == 1609 then Jal else
    if n == 1632 then Jalr else if n == 1644 then Jr else if n == 1539 then Beq else if n == 1559 then Blt else
    if n == 1549 then Bgt else if n == 1519 then Bge else if n == 1529 then Ble else
    if n == 1562 then Bgtu else if n == 1568 then Beqz else if n == 1533 then Bne else
    if n == 1572 then Bgtz else if n == 1582 then Blez else if n == 1800 then Syscall else OpNull
  }

  lemma Tells0(op: Op)
    requires op.Add? || op.Addu? || op.Addi? || op.Addiu? || op.And? || op.Andi? || op.Div? || op.Divu? ||
      op.Mul?
    ensures OpAt(Fingerprint(MnemonicText(op))) == op
  {}

  lemma Tells1(op: Op)
    requires op.Mult? || op.Multu? || op.Nor? || op.Or? || op.Ori? || op.Sll? || op.Sllv? || op.Srl?
    ensures OpAt(Fingerprint(MnemonicText(op))) == op
  {}

  lemma Tells2(op: Op)
    requires op.Srv? || op.Xor? || op.Xori? || op.Mfhi? || op.Mthi? || op.Mflo? || op.Mtlo?
    ensures OpAt(Fingerprint(MnemonicText(op))) == op
  {}

  lemma Tells3(op: Op)
    requires op.Slt? || op.Sltu? || op.Slti? || op.Sltiu? || op.Lb? || op.Lbu?
    ensures OpAt(Fingerprint(MnemonicText(op))) == op
  {}

  lemma Tells4(op: Op)
    requires op.Lh? || op.Lhu? || op.Lw? || op.Li? || op.La?
    ensures OpAt(Fingerprint(MnemonicText(op))) == op
  {}

  lemma Tells5(op: Op)
    requires op.Lui? || op.Sh? || op.Sw? || op.J?
    ensures OpAt(Fingerprint(MnemonicText(op))) == op
  {}

  lemma Tells6(op: Op)
    requires op.Jal? || op.Jalr? || op.Jr? || op.Beq?
    ensures OpAt(Fingerprint(MnemonicText(op))) == op
  {}

  lemma Tells7(op: Op)
    requires op.Blt? || op.Bgt? || op.Bge? || op.Ble?
    ensures OpAt(Fingerprint(MnemonicText(op))) == op
  {}

  lemma Tells8(op: Op)
    requires op.Bgtu? || op.Beqz? || op.Bne?
    ensures OpAt(Fingerprint(MnemonicText(op))) == op
  {}

  lemma Tells9(op: Op)
    requires op.Bgtz? || op.Blez? || op.Syscall?
    ensures OpAt(Fingerprint(MnemonicText(op))) == op
  {}

  /** The fingerprint of its mnemonic tells an operation. */
  lemma FingerprintTells(op: Op)
    requires HasMnemonic(op)
    ensures OpAt(Fingerprint(MnemonicText(op))) == op
  {
    hide OpAt, Fingerprint;
    match op {
      case Add | Addu | Addi | Addiu | And | Andi | Div | Divu | Mul => Tells0(op);
      case Mult | Multu | Nor | Or | Ori | Sll | Sllv | Srl => Tells1(op);
      case Srv | Xor | Xori | Mfhi | Mthi | Mflo | Mtlo => Tells2(op);
      case Slt | Sltu | Slti | Sltiu | Lb | Lbu => Tells3(op);
      case Lh | Lhu | Lw | Li | La => Tells4(op);
      case Lui | Sh | Sw | J => Tells5(op);
      case Jal | Jalr | Jr | Beq => Tells6(op);
      case Blt | Bgt | Bge | Ble => Tells7(op);
      case Bgtu | Beqz | Bne => Tells8(op);
      case Bgtz | Blez | Syscall => Tells9(op);
      case _ =>
    }
  }

  /** A mnemonic is a few small letters. */
  predicate SmallLetters(s: string) { 0 < |s| < 10 && forall i :: 0 <= i < |s| ==> 'a' <= s[i] <= 'z' }

  lemma Letters0(op: Op)
    requires op.Add? || op.Addu? || op.Addi? || op.Addiu? || op.And? || op.Andi? || op.Div? || op.Divu? ||
      op.Mul?
    ensures SmallLetters(MnemonicText(op))
  {}

  lemma Letters1(op: Op)
    requires op.Mult? || op.Multu? || op.Nor? || op.Or? || op.Ori? || op.Sll? || op.Sllv? || op.Srl?
    ensures SmallLetters(MnemonicText(op))
  {}

  lemma Letters2(op: Op)
    requires op.Srv? || op.Xor? || op.Xori? || op.Mfhi? || op.Mthi? || op.Mflo? || op.Mtlo?
    ensures SmallLetters(MnemonicText(op))
  {}

  lemma Letters3(op: Op)
    requires op.Slt? || op.Sltu? || op.Slti? || op.Sltiu? || op.Lb? || op.Lbu?
    ensures SmallLetters(MnemonicText(op))
  {}

  lemma Letters4(op: Op)
    requires op.Lh? || op.Lhu? || op.Lw? || op.Li? || op.La?
    ensures SmallLetters(MnemonicText(op))
  {}

  lemma Letters5(op: Op)
    requires op.Lui? || op.Sh? || op.Sw? || op.J?
    ensures SmallLetters(MnemonicText(op))
  {}

  lemma Letters6(op: Op)
    requires op.Jal? || op.Jalr? || op.Jr? || op.Beq?
    ensures SmallLetters(MnemonicText(op))
  {}

  lemma Letters7(op: Op)
    requires op.Blt? || op.Bgt? || op.Bge? || op.Ble?
    ensures SmallLetters(MnemonicText(op))
  {}

  lemma Letters8(op: Op)
    requires op.Bgtu? || op.Beqz? || op.Bne?
    ensures SmallLetters(MnemonicText(op))
  {}

  lemma Letters9(op: Op)
    requires op.Bgtz? || op.Blez? || op.Syscall?
    ensures SmallLetters(MnemonicText(op))
  {}

  lemma MnemonicLetters(op: Op)
    requires HasMnemonic(op)
    ensures SmallLetters(MnemonicText(op))
  {
    hide SmallLetters;
    match op {
      case Add | Addu | Addi | Addiu | And | Andi | Div | Divu | Mul => Letters0(op);
      case Mult | Multu | Nor | Or | Ori | Sll | Sllv | Srl => Letters1(op);
      case Srv | Xor | Xori | Mfhi | Mthi | Mflo | Mtlo => Letters2(op);
      case Slt | Sltu | Slti | Sltiu | Lb | Lbu => Letters3(op);
      case Lh | Lhu | Lw | Li | La => Letters4(op);
      case Lui | Sh | Sw | J => Letters5(op);
      case Jal | Jalr | Jr | Beq => Letters6(op);
      case Blt | Bgt | Bge | Ble => Letters7(op);
      case Bgtu | Beqz | Bne => Letters8(op);
      case Bgtz | Blez | Syscall => Letters9(op);
      case _ =>
    }
  }

  // ---- The lexer's table ----

  // Its entries, by index, are the mnemonics of their operations.
  lemma Entries0(k: nat)
    requires 0 <= k < 9
    ensures InstrEntry(k).0 == MnemonicText(InstrEntry(k).1) && InstrEntry(k).0 != ""
  {}

  lemma Entries1(k: nat)
    requires 9 <= k < 17
    ensures InstrEntry(k).0 == MnemonicText(InstrEntry(k).1) && InstrEntry(k).0 != ""
  {}

  lemma Entries2(k: nat)
    requires 17 <= k < 24
    ensures InstrEntry(k).0 == MnemonicText(InstrEntry(k).1) && InstrEntry(k).0 != ""
  {}

  lemma Entries3(k: nat)
    requires 24 <= k < 30
    ensures InstrEntry(k).0 == MnemonicText(InstrEntry(k).1) && InstrEntry(k).0 != ""
  {}

  lemma Entries4(k: nat)
    requires 30 <= k < 35
    ensures InstrEntry(k).0 == MnemonicText(InstrEntry(k).1) && InstrEntry(k).0 != ""
  {}

  lemma Entries5(k: nat)
    requires 35 <= k < 39
    ensures InstrEntry(k).0 == MnemonicText(InstrEntry(k).1) && InstrEntry(k).0 != ""
  {}

  lemma Entries6(k: nat)
    requires 39 <= k < 43
    ensures InstrEntry(k).0 == MnemonicText(InstrEntry(k).1) && InstrEntry(k).0 != ""
  {}

  lemma Entries7(k: nat)
    requires 43 <= k < 47
    ensures InstrEntry(k).0 == MnemonicText(InstrEntry(k).1) && InstrEntry(k).0 != ""
  {}

  lemma Entries8(k: nat)
    requires 47 <= k < 50
    ensures InstrEntry(k).0 == MnemonicText(InstrEntry(k).1) && InstrEntry(k).0 != ""
  {}

  lemma Entries9(k: nat)
    requires 50 <= k < 53
    ensures InstrEntry(k).0 == MnemonicText(InstrEntry(k).1) && InstrEntry(k).0 != ""
  {}

  lemma EntryText(k: nat)
    requires k < NUM_INSTRS
    ensures InstrEntry(k).0 == MnemonicText(InstrEntry(k).1) && InstrEntry(k).0 != ""
  {
    hide InstrEntry, MnemonicText;
    if k < 9 {
      Entries0(k);
    } else if k < 17 {
      Entries1(k);
    } else if k < 24 {
      Entries2(k);
    } else if k < 30 {
      Entries3(k);
    } else if k < 35 {
      Entries4(k);
    } else if k < 39 {
      Entries5(k);
    } else if k < 43 {
      Entries6(k);
    } else if k < 47 {
      Entries7(k);
    } else if k < 50 {
      Entries8(k);
    } else {
      Entries9(k);
    }
  }

  /** Where an operation stands in the table. */
  function IndexOf(op: Op): nat {
    match op
    case Add => 0
    case Addu => 1
    case Addi => 2
    case Addiu => 3
    case And => 4
    case Andi => 5
    case Div => 6
    case Divu => 7
    case Mul => 8
    case Mult => 9
    case Multu => 10
    case Nor => 11
    case Or => 12
    case Ori => 13
    case Sll => 14
    case Sllv => 15
    case Srl => 16
    case Srv => 17
    case Xor => 18
    case Xori => 19
    case Mfhi => 20
    case Mthi => 21
    case Mflo => 22
    case Mtlo => 23
    case Slt => 24
    case Sltu => 25
    case Slti => 26
    case Sltiu => 27
    case Lb => 28
    case Lbu => 29
    case Lh => 30
    case Lhu => 31
    case Lw => 32
    case Li => 33
    case La => 34
    case Lui => 35
    case Sh => 36
    case Sw => 37
    case J => 38
    case Jal => 39
    case Jalr => 40
    case Jr => 41
    case Beq => 42
    case Blt => 43
    case Bgt => 44
    case Bge => 45
    case Ble => 46
    case Bgtu => 47
    case Beqz => 48
    case Bne => 49
    case Bgtz => 50
    case Blez => 51
    case Syscall => 52
    case _ => NUM_INSTRS
  }

  lemma Stands0(op: Op)
    requires op.Add? || op.Addu? || op.Addi? || op.Addiu? || op.And? || op.Andi? || op.Div? || op.Divu? ||
      op.Mul?
    ensures IndexOf(op) < NUM_INSTRS && InstrEntry(IndexOf(op)).1 == op
  {}

  lemma Stands1(op: Op)
    requires op.Mult? || op.Multu? || op.Nor? || op.Or? || op.Ori? || op.Sll? || op.Sllv? || op.Srl?
    ensures IndexOf(op) < NUM_INSTRS && InstrEntry(IndexOf(op)).1 == op
  {}

  lemma Stands2(op: Op)
    requires op.Srv? || op.Xor? || op.Xori? || op.Mfhi? || op.Mthi? || op.Mflo? || op.Mtlo?
    ensures IndexOf(op) < NUM_INSTRS && InstrEntry(IndexOf(op)).1 == op
  {}

  lemma Stands3(op: Op)
    requires op.Slt? || op.Sltu? || op.Slti? || op.Sltiu? || op.Lb? || op.Lbu?
    ensures IndexOf(op) < NUM_INSTRS && InstrEntry(IndexOf(op)).1 == op
  {}

  lemma Stands4(op: Op)
    requires op.Lh? || op.Lhu? || op.Lw? || op.Li? || op.La?
    ensures IndexOf(op) < NUM_INSTRS && InstrEntry(IndexOf(op)).1 == op
  {}

  lemma Stands5(op: Op)
    requires op.Lui? || op.Sh? || op.Sw? || op.J?
    ensures IndexOf(op) < NUM_INSTRS && InstrEntry(IndexOf(op)).1 == op
  {}

  lemma Stands6(op: Op)
    requires op.Jal? || op.Jalr? || op.Jr? || op.Beq?
    ensures IndexOf(op) < NUM_INSTRS && InstrEntry(IndexOf(op)).1 == op
  {}

  lemma Stands7(op: Op)
    requires op.Blt? || op.Bgt? || op.Bge? || op.Ble?
    ensures IndexOf(op) < NUM_INSTRS && InstrEntry(IndexOf(op)).1 == op
  {}

  lemma Stands8(op: Op)
    requires op.Bgtu? || op.Beqz? || op.Bne?
    ensures IndexOf(op) < NUM_INSTRS && InstrEntry(IndexOf(op)).1 == op
  {}

  lemma Stands9(op: Op)
    requires op.Bgtz? || op.Blez? || op.Syscall?
    ensures IndexOf(op) < NUM_INSTRS && InstrEntry(IndexOf(op)).1 == op
  {}

  lemma StandsAt(op: Op)
    requires HasMnemonic(op)
    ensures IndexOf(op) < NUM_INSTRS && InstrEntry(IndexOf(op)).1 == op
  {
    hide InstrEntry, IndexOf;
    match op {
      case Add | Addu | Addi | Addiu | And | Andi | Div | Divu | Mul => Stands0(op);
      case Mult | Multu | Nor | Or | Ori | Sll | Sllv | Srl => Stands1(op);
      case Srv | Xor | Xori | Mfhi | Mthi | Mflo | Mtlo => Stands2(op);
      case Slt | Sltu | Slti | Sltiu | Lb | Lbu => Stands3(op);
      case Lh | Lhu | Lw | Li | La => Stands4(op);
      case Lui | Sh | Sw | J => Stands5(op);
      case Jal | Jalr | Jr | Beq => Stands6(op);
      case Blt | Bgt | Bge | Ble => Stands7(op);
      case Bgtu | Beqz | Bne => Stands8(op);
      case Bgtz | Blez | Syscall => Stands9(op);
      case _ =>
    }
  }

  lemma SameText(op: Op, other: Op)
    requires HasMnemonic(op) && MnemonicText(op) == MnemonicText(other)
    ensures op == other
  {
    hide OpAt, Fingerprint, MnemonicText;
    FingerprintTells(op);
    FingerprintTells(other);
  }

  lemma {:induction false} FoundFrom(op: Op, k: nat)
    requires HasMnemonic(op) && k <= IndexOf(op) < NUM_INSTRS && InstrEntry(IndexOf(op)).1 == op
    ensures OpFrom(MnemonicText(op), k) == op
    decreases IndexOf(op) - k
  {
    hide InstrEntry, IndexOf, MnemonicText;
    EntryText(k);
    EntryText(IndexOf(op));
    if InstrEntry(k).0 == MnemonicText(op) {
      SameText(op, InstrEntry(k).1);
    } else {
      FoundFrom(op, k + 1);
    }
  }

  /** The lexer looks every mnemonic up as its operation. */
  lemma MnemonicFound(op: Op)
    requires HasMnemonic(op)
    ensures OpOf(MnemonicText(op)) == op
  {
    hide InstrEntry, IndexOf, MnemonicText;
    StandsAt(op);
    FoundFrom(op, 0);
  }

  lemma {:induction false} NotFoundFrom(m: string, k: nat)
    requires k <= NUM_INSTRS && forall op :: MnemonicText(op) == m ==> !HasMnemonic(op)
    ensures OpFrom(m, k).OpNull?
    decreases NUM_INSTRS - k
  {
    hide InstrEntry, MnemonicText;
    if k < NUM_INSTRS {
      EntryText(k);
      NotFoundFrom(m, k + 1);
    }
  }

  /** And nothing else. */
  lemma OtherNotFound(m: string)
    requires forall op :: MnemonicText(op) == m ==> !HasMnemonic(op)
    ensures OpOf(m).OpNull?
  {
    hide InstrEntry, MnemonicText;
    NotFoundFrom(m, 0);
  }

  // ---- Directives ----

  function DirectivePrint(m: string): int {
    if m == "" then 0 else (m[|m| - 1] as int) + 11 * |m|
  }

  lemma DirectivePrints(d: Directive)
    ensures DirectivePrint(DirectiveText(d)) ==
      match d
      case DAlign => 176
      case DAsciiz => 199
      case DByte => 156
      case DData => 152
      case DDouble => 178
      case DEndMacro => 221
      case DFloat => 182
      case DGlobal => 185
      case DHalf => 157
      case DInclude => 189
      case DMacro => 177
      case DSpace => 167
      case DText => 171
      case DWord => 155
  {}

  lemma SameDirective(d: Directive, e: Directive)
    requires DirectiveText(d) == DirectiveText(e)
    ensures d == e
  {
    hide DirectivePrint, DirectiveText;
    DirectivePrints(d);
    DirectivePrints(e);
  }

  lemma DirectiveEntryText(k: nat)
    requires k < NUM_DIRECTIVES
    ensures DirectiveEntry(k).0 == DirectiveText(DirectiveEntry(k).1)
  {}

  function DirectiveIndex(d: Directive): (k: nat)
    ensures k < NUM_DIRECTIVES && DirectiveEntry(k).1 == d
  {
    match d
    case DAlign => 0
    case DAsciiz => 1
    case DByte => 2
    case DData => 3
    case DDouble => 4
    case DEndMacro => 5
    case DFloat => 6
    case DGlobal => 7
    case DHalf => 8
    case DInclude => 9
    case DMacro => 10
    case DSpace => 11
    case DText => 12
    case DWord => 13
  }

  lemma {:induction false} DirectiveFrom0(d: Directive, k: nat)
    requires k <= DirectiveIndex(d)
    ensures DirectiveFrom(DirectiveText(d), k) == d
    decreases DirectiveIndex(d) - k
  {
    hide DirectiveEntry, DirectiveIndex, DirectiveText;
    DirectiveEntryText(k);
    if DirectiveEntry(k).0 == DirectiveText(d) {
      SameDirective(d, DirectiveEntry(k).1);
    } else {
      DirectiveEntryText(DirectiveIndex(d));
      DirectiveFrom0(d, k + 1);
    }
  }

  /** The lexer looks every directive up as itself. */
  lemma DirectiveFound(d: Directive)
    ensures DirectiveOf(DirectiveText(d)) == d
  {
    hide DirectiveEntry, DirectiveText;
    DirectiveFrom0(d, 0);
  }

  /** No directive has the name. */
  predicate UnknownName(name: string) { forall d: Directive :: DirectiveText(d) != name }

  lemma {:induction false} UnknownFrom(name: string, k: nat)
    requires k <= NUM_DIRECTIVES && UnknownName(name)
    ensures DirectiveFrom(name, k) == DAlign
    decreases NUM_DIRECTIVES - k
  {
    hide DirectiveEntry, DirectiveText;
    if k < NUM_DIRECTIVES {
      DirectiveEntryText(k);
      UnknownFrom(name, k + 1);
    }
  }

  /** An unknown name is taken for .align. */
  lemma UnknownDirective(name: string)
    requires UnknownName(name)
    ensures DirectiveOf(name) == DAlign
  {
    hide DirectiveEntry, DirectiveText;
    UnknownFrom(name, 0);
  }
}
