/**
 What each pseudo-op's expansion computes, for all register contents.
 */
module PseudoOps {
  import opened Words
  import opened Source
  import opened Layout
  import opened Isa

  predicate IsPairBranch(op: Op) { op.Bgt? || op.Blt? || op.Bge? || op.Ble? || op.Bgtu? }

  predicate IsBranch(op: Op) { op.Beq? || op.Bne? || op.Beqz? || IsPairBranch(op) }

  /** When a branch is taken, in terms of the numbers its two registers hold. */
  function Taken(op: Op, x: bv32, y: bv32): bool {
    match op
    case Beq => x == y
    case Bne => x != y
    case Beqz => Val(x) == 0
    case Bgt => Signed(x) > Signed(y)
    case Blt => Signed(x) < Signed(y)
    case Bge => Signed(x) >= Signed(y)
    case Ble => Signed(x) <= Signed(y)
    case Bgtu => Val(x) > Val(y)
    case _ => false
  }

  // Exec, one class of instructions at a time.
  lemma ExecAluReg(t: TextInfo, c: Core)
    requires IsAluReg(t.op)
    ensures Exec(t, c) == Some(c.(regs := Write(c.regs, t.a0, AluReg(t.op, Read(c.regs, t.a1), Read(c.regs, t.a2)))))
  {}

  lemma ExecAluImm(t: TextInfo, c: Core)
    requires IsAluImm(t.op)
    ensures Exec(t, c) ==
      Some(c.(regs := Write(c.regs, t.a0, AluImm(t.op, Operand(!t.op.Lui?, c.regs, t.a1), Word(t.a2.val)))))
  {
    hide AluImm, Word, Write, Read;
  }

  lemma ExecMult(t: TextInfo, c: Core)
    requires t.op.Mult?
    ensures var p := HiLo(Mult, Read(c.regs, t.a0), Read(c.regs, t.a1)); Exec(t, c) == Some(c.(hi := p.0, lo := p.1))
  {
    hide HiLo, Word, Write, Read;
  }

  lemma ExecMflo(t: TextInfo, c: Core)
    requires t.op.Mflo?
    ensures Exec(t, c) == Some(c.(regs := Write(c.regs, t.a0, c.lo)))
  {
    hide Word, Write, Read;
  }

  lemma WriteRead(regs: RegFile, a: Argument, u: bv32, v: bv32)
    ensures Write(Write(regs, a, u), a, v) == Write(regs, a, v)
    ensures Ix(a) != REG_ZERO ==> Read(Write(regs, a, v), a) == v
  {}

  // The bit the comparison of a branch pair computes.
  function CompareBit(op: Op, x: bv32, y: bv32): bv32 {
    var slt := if op.Bgtu? then Sltu else Slt;
    if op.Blt? || op.Bge? then AluReg(slt, x, y) else AluReg(slt, y, x)
  }

  lemma SignedBitDecides(op: Op, x: bv32, y: bv32)
    requires op.Bgt? || op.Blt? || op.Bge? || op.Ble?
    ensures ((CompareBit(op, x, y) == 0) == (op.Bge? || op.Ble?)) == Taken(op, x, y)
  {
    hide Signed, Val, SignedLess, Less;
    SignedOrder(x, y);
    SignedOrder(y, x);
  }

  lemma UnsignedBitDecides(x: bv32, y: bv32)
    ensures (CompareBit(Bgtu, x, y) == 0) != Taken(Bgtu, x, y)
  {
    hide Signed, Val, SignedLess;
    ValOrder(y, x);
  }

  lemma CompareBitDecides(op: Op, x: bv32, y: bv32)
    requires IsPairBranch(op)
    ensures ((CompareBit(op, x, y) == 0) == (op.Bge? || op.Ble?)) == Taken(op, x, y)
  {
    hide CompareBit, Taken;
    if op.Bgtu? {
      UnsignedBitDecides(x, y);
    } else {
      SignedBitDecides(op, x, y);
    }
  }

  lemma IxOfReg()
    ensures Ix(Reg(REG_AT)) == REG_AT && Ix(Reg(REG_ZERO)) == REG_ZERO
  {}

  lemma CompareParts(t: TextInfo)
    ensures var l := CompareLine(t);
      l.op == (if t.op.Bgtu? then Sltu else Slt) && l.a0 == Reg(REG_AT) &&
      (if t.op.Blt? || t.op.Bge? then l.a1 == t.a0 && l.a2 == t.a1 else l.a1 == t.a1 && l.a2 == t.a0)
  {}

  lemma HalvesParts(t: TextInfo, isSymbol: bool, name: string)
    ensures var es := HalvesPair(t, isSymbol, name);
      es[0].op.Lui? && es[1].op.Ori? && es[0].isSymbol == es[1].isSymbol == isSymbol
  {}

  lemma CompareIsPlain(t: TextInfo)
    ensures IsPlain(CompareLine(t).op) && !CompareLine(t).isSymbol
  {}

  lemma DecisionParts(t: TextInfo)
    ensures var l := DecisionLine(t);
      l.addr == Bump(t.addr, 4) && l.isSymbol == t.isSymbol && l.symbolName == t.symbolName && (l.op.Beq? || l.op.Bne?)
  {}

  lemma CompareSets(t: TextInfo, c: Core)
    requires IsPairBranch(t.op)
    ensures Exec(CompareLine(t), c) ==
      Some(c.(regs := c.regs[REG_AT := CompareBit(t.op, Read(c.regs, t.a0), Read(c.regs, t.a1))]))
  {
    hide AluReg, Exec, Read, Ix, CompareLine;
    IxOfReg();
    CompareParts(t);
    ExecAluReg(CompareLine(t), c);
  }

  /**
   The comparison changes $at alone, and the branch after it is taken exactly when the numbers in
   the two named registers compare as the pseudo-op says. The registers are those before the
   comparison, so this holds even when one of them is $at.
   */
  lemma BranchPairDecides(t: TextInfo, c: Core)
    requires IsPairBranch(t.op)
    ensures Exec(CompareLine(t), c).Some?
    ensures var d := Exec(CompareLine(t), c).value;
      d == c.(regs := d.regs) && (forall i :: 0 <= i < 32 && i != REG_AT ==> d.regs[i] == c.regs[i]) &&
      var branch := DecisionLine(t);
      ((Read(d.regs, branch.a0) == Read(d.regs, branch.a1)) == (branch.op.Beq?)) ==
      Taken(t.op, Read(c.regs, t.a0), Read(c.regs, t.a1))
  {
    hide AluReg, Bump, Exec, Taken, CompareBit, Ix, CompareLine;
    IxOfReg();
    var x, y := Read(c.regs, t.a0), Read(c.regs, t.a1);
    CompareBitDecides(t.op, x, y);
    CompareSets(t, c);
  }

  lemma AluImmHalves(x: bv32, v: bv32)
    ensures AluImm(Ori, x, v) == x | (v & 0xFFFF)
    ensures AluImm(Lui, x, v) == (v & 0xFFFF) << 16
  {}

  lemma HalvesValue(x: bv32, v: int)
    ensures AluImm(Ori, AluImm(Lui, x, Word(Upper(v))), Word(Lower16(v))) == Word(v)
  {
    hide Word, Upper, Lower16, AluImm;
    AluImmHalves(x, Word(Upper(v)));
    AluImmHalves(AluImm(Lui, x, Word(Upper(v))), Word(Lower16(v)));
    UpperLowerWord(v);
  }

  /** Loading the halves of `v` in turn leaves exactly `v`, unless the destination is $zero. */
  lemma HalvesLoad(hi: TextInfo, lo: TextInfo, v: int, c: Core)
    requires hi.op.Lui? && lo.op.Ori? && lo.a0 == lo.a1 == hi.a0
    requires hi.a2.val == Upper(v) && lo.a2.val == Lower16(v)
    ensures Exec(hi, c).Some? && Exec(lo, Exec(hi, c).value) == Some(c.(regs := Write(c.regs, hi.a0, Word(v))))
  {
    hide Word, Exec, Upper, Lower16, AluImm;
    ExecAluImm(hi, c);
    var x, d := Operand(false, c.regs, hi.a1), Exec(hi, c).value;
    ExecAluImm(lo, d);
    var u := AluImm(Lui, x, Word(Upper(v)));
    HalvesValue(x, v);
    WriteRead(c.regs, hi.a0, u, Word(v));
    WriteRead(c.regs, hi.a0, u, u);
  }

  lemma WordMod(v: int)
    ensures Word(v % MODULUS) == Word(v)
  {
    hide Word, Val;
    ValOfWord(v);
    ValOfWord(v % MODULUS);
    ValInjective(Word(v % MODULUS), Word(v));
  }

  lemma UpperLowerWord(v: int)
    ensures ((Word(Upper(v)) & 0xFFFF) << 16) | (Word(Lower16(v)) & 0xFFFF) == Word(v)
  {
    WordMod(v);
    Halves(v % MODULUS);
    LowerOfMod(v);
  }

  lemma LowerOfMod(v: int)
    ensures v % MODULUS % 0x1_0000 == v % 0x1_0000
  {}

  /** A literal of at most 16 bits needs the one ori from $zero. */
  lemma SmallLoad(l: TextInfo, v: int, c: Core)
    requires l.op.Ori? && l.a1 == Reg(REG_ZERO) && 0 <= v <= 0xFFFF && l.a2.val == Lower16(v)
    ensures Exec(l, c) == Some(c.(regs := Write(c.regs, l.a0, Word(v))))
  {
    hide Exec, Word;
    ExecAluImm(l, c);
    Low16(v);
    OrZero(Word(v));
  }

  lemma OrZero(w: bv32)
    ensures 0 | w == w
  {}

  /** li leaves exactly its literal, on both sides of the 16-bit split. */
  lemma LiLoads(t: TextInfo, c: Core)
    requires t.op.Li? && 0 <= t.a2.val < 0x8000_0000
    ensures var es := Expand(t); var want := Some(c.(regs := Write(c.regs, t.a0, Word(t.a2.val))));
      if t.a2.val > 0xFFFF then
        |es| == 2 && Exec(es[0], c).Some? && Exec(es[1], Exec(es[0], c).value) == want
      else |es| == 1 && Exec(es[0], c) == want
  {
    hide Exec, Upper, Lower16, Bump;
    if t.a2.val > 0xFFFF {
      var es := HalvesPair(t, false, "");
      HalvesLoad(es[0], es[1], t.a2.val, c);
    } else {
      SmallLoad(Expand(t)[0], t.a2.val, c);
    }
  }

  /** la leaves exactly the address of its label, or its literal operand. */
  lemma LaLoads(t: TextInfo, syms: seq<Symbol>, c: Core)
    requires t.op.La? && (t.isSymbol ==> AddrOfSymbol(syms, t.symbolName) > 0)
    ensures var es := Expand(t); var v := if t.isSymbol then AddrOfSymbol(syms, t.symbolName) else t.a2.val;
      |es| == 2 && Exec(Resolve(es[0], syms), c).Some? &&
      Exec(Resolve(es[1], syms), Exec(Resolve(es[0], syms), c).value) == Some(c.(regs := Write(c.regs, t.a0, Word(v))))
  {
    hide Exec, Upper, Lower16, Bump, AddrOfSymbol, CompareLine, DecisionLine, Write, Word, ToInt;
    var es := HalvesPair(t, t.isSymbol, t.symbolName);
    var v := if t.isSymbol then AddrOfSymbol(syms, t.symbolName) else t.a2.val;
    HalvesLoad(Resolve(es[0], syms), Resolve(es[1], syms), v, c);
  }

  /** mul leaves the low word of the product in its destination and the whole product in HI and LO. */
  lemma MulMultiplies(t: TextInfo, c: Core)
    requires t.op.Mul?
    ensures var es := Expand(t); var p := HiLo(Mult, Read(c.regs, t.a1), Read(c.regs, t.a2));
      |es| == 2 && Exec(es[0], c).Some? &&
      Exec(es[1], Exec(es[0], c).value) == Some(c.(regs := Write(c.regs, t.a0, p.1), hi := p.0, lo := p.1))
  {
    hide HiLo, Bump, Exec, CompareLine, DecisionLine, HalvesPair, Write;
    var es := Expand(t);
    ExecMult(es[0], c);
    ExecMflo(es[1], Exec(es[0], c).value);
  }

  /** beqz is the one beq against $zero. */
  lemma BeqzDecides(t: TextInfo, c: Core)
    requires t.op.Beqz?
    ensures var l := Expand(t)[0];
      |Expand(t)| == 1 && l.op.Beq? &&
      (Read(c.regs, l.a0) == Read(c.regs, l.a1)) == Taken(Beqz, Read(c.regs, t.a0), Read(c.regs, t.a1))
  {
    hide Val, Bump;
    ValZero();
    ValOrder(Read(c.regs, t.a0), 0);
  }
}
