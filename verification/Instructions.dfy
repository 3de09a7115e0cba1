/**
 What the emulator does with every word it fetches, in terms of the numbers in registers: results,
 destinations, memory, HI, LO and the program counter, for all codes, and where a tick is undefined.
 */
module Instructions {
  import opened Words
  import opened Source
  import opened Layout
  import opened Isa
  import opened Cpu
  import opened DataCache
  import opened Arithmetic
  import Emulation
  import HiLo

  // ---- Fetched words ----

  /** The word at the program counter. */
  function Current(s: Snapshot): bv32
    requires CanFetch(s)
  {
    WordAt(s.mem, s.pc)
  }

  function RsOf(s: Snapshot): bv32
    requires Proper(s) && CanFetch(s)
  {
    FieldsInFile(Current(s));
    s.reg[FieldRs(Current(s))]
  }

  function RtOf(s: Snapshot): bv32
    requires Proper(s) && CanFetch(s)
  {
    FieldsInFile(Current(s));
    s.reg[FieldRt(Current(s))]
  }

  lemma LatchedState(s: Snapshot)
    requires Proper(s) && CanFetch(s)
    ensures var d := Latched(s);
      d.f == FieldsOf(Current(s), s.f) && d == s.(instr := d.instr, pc := Bump(s.pc, 4), f := d.f)
  {
    hide FieldsOf, WordAt, InFile;
  }

  // ---- R-instructions ----

  /** The function codes that have a result. */
  predicate HasResult(func: nat) {
    func == 0 || func == 2 || func == 3 || func == 4 || func == 6 || func == 7 || func == 9 || func == 16 ||
    func == 18 || 32 <= func <= 39 || func == 42 || func == 43
  }

  /** The result of an R-instruction at an address, from the numbers in its registers. */
  ghost predicate Computes(func: nat, x: bv32, y: bv32, shamt: bv32, at: int, hi: bv32, lo: bv32, r: bv32) {
    match func
    case 0 => Val(r) == Val(y) * Pow2(Val(shamt) % 32) % MODULUS
    case 2 | 3 => Signed(r) == Signed(y) / Pow2(Val(shamt) % 32)
    case 4 => Val(r) == Val(y) * Pow2(Val(x)) % MODULUS
    case 6 | 7 => Signed(r) == Signed(y) / Pow2(Val(x))
    case 9 => Val(r) == (at + 12) % MODULUS
    case 16 => r == hi
    case 18 => r == lo
    case 32 | 33 => Val(r) == (Val(x) + Val(y)) % MODULUS
    case 34 | 35 => Val(r) == (Val(x) - Val(y)) % MODULUS
    case 36 => forall i: nat :: Bit(Val(r), i) <==> Bit(Val(x), i) && Bit(Val(y), i)
    case 37 => forall i: nat :: Bit(Val(r), i) <==> Bit(Val(x), i) || Bit(Val(y), i)
    case 38 => forall i: nat :: Bit(Val(r), i) <==> Bit(Val(x), i) != Bit(Val(y), i)
    case 39 => Val(r) == if Val(x) == 0 && Val(y) == 0 then 1 else 0
    case 42 => Val(r) == if Signed(x) < Signed(y) then 1 else 0
    case 43 => Val(r) == if Val(x) < Val(y) then 1 else 0
    case _ => true
  }

  /** Shift amounts are within the word, and quotients exist and fit an int. */
  predicate NumbersDefined(func: nat, x: bv32, y: bv32) {
    (func == 4 || func == 6 || func == 7 ==> Val(x) < 32) &&
    (func == 26 || func == 27 ==> Val(y) != 0) &&
    (func == 26 ==> !(Signed(x) == -0x8000_0000 && Signed(y) == -1))
  }

  lemma DefinedIs(func: nat, x: bv32, y: bv32)
    ensures DefinedR(func, x, y) <==> NumbersDefined(func, x, y)
  {
    hide Val, Signed;
    Thirty();
    ValOrder(x, 32);
    ValZero();
    ValOrder(y, 0);
    HiLo.MinusOne(x);
    HiLo.MinusOne(y);
  }

  lemma Thirty()
    ensures Val(32) == 32
  {
    hide ByteVal;
    ByteIsInt(32);
    ByteIsInt(0);
  }

  lemma ShiftNumbers(func: nat, x: bv32, y: bv32, shamt: bv32, at: int, hi: bv32, lo: bv32)
    requires IsShift(func) && DefinedR(func, x, y)
    ensures Computes(func, x, y, shamt, at, hi, lo, ShiftOf(func, x, y, shamt))
  {
    hide Val, Signed, ShiftLeft, ShiftRight, Bit, Pow2;
    DefinedIs(func, x, y);
    ShiftLeftVal(y, shamt);
    ShiftLeftVal(y, x);
    ShiftRightVal(y, shamt);
    ShiftRightVal(y, x);
  }

  lemma ValTruth(b: bool)
    ensures Val(if b then 1 else 0) == if b then 1 else 0
  {
    hide Val;
    ValZero();
    ValOne();
  }

  lemma LogicNumbers(func: nat, x: bv32, y: bv32, shamt: bv32, at: int, hi: bv32, lo: bv32)
    requires IsLogic(func)
    ensures Computes(func, x, y, shamt, at, hi, lo, LogicOf(func, x, y))
  {
    hide Val, Signed, BitAnd, BitOr, BitXor, SignedLess, Less, NotOr, Bit, Pow2;
    forall i: nat
      ensures Bit(Val(BitAnd(x, y)), i) <==> Bit(Val(x), i) && Bit(Val(y), i)
      ensures Bit(Val(BitOr(x, y)), i) <==> Bit(Val(x), i) || Bit(Val(y), i)
      ensures Bit(Val(BitXor(x, y)), i) <==> Bit(Val(x), i) != Bit(Val(y), i)
    {
      LogicBits(x, y, i);
    }
    SignedOrder(x, y);
    LessOrder(x, y);
    ValTruth(SignedLess(x, y));
    ValTruth(Less(x, y));
    NorNumber(x, y);
  }

  lemma LessOrder(x: bv32, y: bv32)
    ensures Less(x, y) <==> Val(x) < Val(y)
  {
    hide Val;
    ValOrder(x, y);
  }

  lemma NorNumber(x: bv32, y: bv32)
    ensures Val(NotOr(x, y)) == if Val(x) == 0 && Val(y) == 0 then 1 else 0
  {
    hide Val;
    ValZero();
    ValOne();
    ValOrder(x, 0);
    ValOrder(y, 0);
    EitherZero(x, y);
  }

  lemma EitherZero(x: bv32, y: bv32)
    ensures x | y == 0 <==> x == 0 && y == 0
  {}

  lemma ReturnNumber(at: int)
    ensures Val(Word(Bump(at, 4) + 8)) == (at + 12) % MODULUS
  {
    hide Val, Word;
    ValOfWord(Bump(at, 4) + 8);
  }

  lemma AluNumbers(f: Fields, x: bv32, y: bv32, at: int, hi: bv32, lo: bv32, alu: bv32)
    requires HasResult(f.func) && DefinedR(f.func, x, y)
    ensures Computes(f.func, x, y, f.shamt, at, hi, lo, AluOf(f, x, y, Bump(at, 4), hi, lo, alu))
  {
    hide Val, Signed, Word, ShiftOf, LogicOf, Sum, Difference, DefinedR, Bit, Pow2, Bump;
    if IsShift(f.func) {
      ShiftNumbers(f.func, x, y, f.shamt, at, hi, lo);
    } else if IsLogic(f.func) {
      LogicNumbers(f.func, x, y, f.shamt, at, hi, lo);
    } else {
      SumVal(x, y);
      DifferenceVal(x, y);
      ReturnNumber(at);
    }
  }

  lemma NoResultAlu(f: Fields, x: bv32, y: bv32, pc: int, hi: bv32, lo: bv32, alu: bv32)
    requires !HasResult(f.func)
    ensures AluOf(f, x, y, pc, hi, lo, alu) == alu
  {}

  lemma SyscallHasNone()
    ensures !HasResult(12)
  {}

  /** HI and LO after an R-instruction, from the numbers in its registers. */
  predicate SetsHiLo(func: nat, x: bv32, y: bv32, hi: bv32, lo: bv32, hi': bv32, lo': bv32) {
    match func
    case 17 => hi' == x && lo' == lo
    case 19 => hi' == hi && lo' == x
    case 24 => Val(lo') == Signed(x) * Signed(y) % MODULUS && Signed(hi') == if Signed(lo') < 0 then -1 else 0
    case 25 => Val(lo') == Val(x) * Val(y) % MODULUS && Val(hi') == 0
    case 26 =>
      Signed(lo') * Signed(y) + Signed(hi') == Signed(x) && Abs(Signed(hi')) < Abs(Signed(y)) &&
      (Signed(hi') == 0 || (Signed(hi') < 0) == (Signed(x) < 0))
    case 27 => Val(lo') * Val(y) + Val(hi') == Val(x) && Val(hi') < Val(y)
    case _ => hi' == hi && lo' == lo
  }

  lemma MultNumbers(x: bv32, y: bv32, hi: bv32, lo: bv32)
    ensures SetsHiLo(24, x, y, hi, lo, HiOf(24, x, y, hi), LoOf(24, x, y, lo))
  {
    hide Word, Val, Signed;
    var p := Signed(x) * Signed(y);
    var t := Signed(Word(p));
    HiLo.SignExtended(t);
    ValOfWord(p);
    ValOfWord(t);
    HiLo.SignedCongruent(p);
    SignedOfWord(t);
  }

  lemma MultuNumbers(x: bv32, y: bv32, hi: bv32, lo: bv32)
    ensures SetsHiLo(25, x, y, hi, lo, HiOf(25, x, y, hi), LoOf(25, x, y, lo))
  {
    hide Word, Val, Signed;
    var p := Val(x) * Val(y) % MODULUS;
    ValOfWord(p);
    ValOfWord(p / MODULUS);
  }

  lemma HiLoNumbers(d: Snapshot)
    requires Proper(d) && d.f.opBits == 0 && Defined(d)
    ensures SetsHiLo(d.f.func, Rs(d), Rt(d), d.hi, d.lo, ExecuteOf(d).hi, ExecuteOf(d).lo)
  {
    hide Word, Val, Signed, Rs, Rt, InFile, ExecuteOf, DefinedR, HiOf, LoOf, SetsHiLo;
    HiLo.ExecuteHiLo(d);
    var f, x, y := d.f.func, Rs(d), Rt(d);
    if f == 24 {
      MultNumbers(x, y, d.hi, d.lo);
    } else if f == 25 {
      MultuNumbers(x, y, d.hi, d.lo);
    } else if f == 26 || f == 27 {
      DivNumbers(d);
    } else {
      KeptNumbers(f, x, y, d.hi, d.lo);
    }
  }

  lemma DivNumbers(d: Snapshot)
    requires Proper(d) && d.f.opBits == 0 && Defined(d) && (d.f.func == 26 || d.f.func == 27)
    ensures SetsHiLo(d.f.func, Rs(d), Rt(d), d.hi, d.lo, ExecuteOf(d).hi, ExecuteOf(d).lo)
  {
    hide Word, Val, Signed, Rs, Rt, InFile, ExecuteOf, DefinedR;
    if d.f.func == 26 {
      HiLo.DivTruncates(d);
    } else {
      HiLo.DivuTruncates(d);
    }
  }

  lemma KeptNumbers(func: nat, x: bv32, y: bv32, hi: bv32, lo: bv32)
    requires DefinedR(func, x, y) && !(24 <= func <= 27)
    ensures SetsHiLo(func, x, y, hi, lo, HiOf(func, x, y, hi), LoOf(func, x, y, lo))
  {
    hide Word, Val, Signed;
  }

  lemma ExecuteStep(d: Snapshot)
    requires Proper(d) && d.f.opBits == 0 && Defined(d)
    ensures var e := ExecuteOf(d);
      e.alu == AluOf(d.f, Rs(d), Rt(d), d.pc, d.hi, d.lo, d.alu) && e.pc == PcOf(d.f.func, Rs(d), d.pc) &&
      e.reg == d.reg && e.mem == d.mem && e.f == d.f
  {
    hide AluOf, HiOf, LoOf, PcOf, Rs, Rt, InFile, DefinedR;
  }

  lemma RetireR(e: Snapshot)
    requires Proper(e) && e.f.opBits == 0
    ensures Retire(e).Some? && var t := Retire(e).value;
      t.reg == (if e.f.func == 12 then e.reg else e.reg[e.f.rd := e.alu]) &&
      t.mem == e.mem && t.pc == e.pc && t.hi == e.hi && t.lo == e.lo && t.alu == e.alu
  {}

  lemma FieldsR(w: bv32, f: Fields)
    requires FieldOp(w) == 0
    ensures FieldsOf(w, f) == Fields(0, FieldFunc(w), FieldRs(w), FieldRt(w), FieldRd(w), FieldShamt(w), f.imm)
  {}

  /**
   A fetched R-instruction: it has a successor exactly when its numbers allow one; its result, or the
   old ALU register when it has none, goes to rd; HI, LO and the counter are as the numbers say.
   */
  lemma RegisterTick(s: Snapshot)
    requires Proper(s) && CanFetch(s) && FieldOp(Current(s)) == 0
    ensures TickOf(s).Some? <==> NumbersDefined(FieldFunc(Current(s)), RsOf(s), RtOf(s))
    ensures TickOf(s).Some? ==>
      var t, w := TickOf(s).value, Current(s);
      var n, rd := FieldFunc(w), FieldRd(w);
      rd < 32 && |t.reg| == 32 && t.mem == s.mem &&
      t.reg == (if n == 12 then s.reg else if HasResult(n) then s.reg[rd := t.reg[rd]] else s.reg[rd := s.alu]) &&
      (HasResult(n) ==> Computes(n, RsOf(s), RtOf(s), FieldShamt(w), s.pc, s.hi, s.lo, t.reg[rd])) &&
      SetsHiLo(n, RsOf(s), RtOf(s), s.hi, s.lo, t.hi, t.lo) && t.alu == (if HasResult(n) then t.reg[rd] else s.alu) &&
      t.pc == if n == 8 || n == 9 then Val(RsOf(s)) else (s.pc + 4) % MODULUS
  {
    hide FieldsOf, FieldRs, FieldRt, FieldRd, FieldFunc, FieldOp, FieldShamt, WordAt, ExecuteOf, Retire, Latched, AluOf,
      DefinedR, NumbersDefined, Computes, SetsHiLo, CanFetch, InFile, HasResult, Val;
    var d, w := Latched(s), Current(s);
    FieldsInFile(w);
    LatchedState(s);
    FieldsR(w, s.f);
    DefinedIs(FieldFunc(w), RsOf(s), RtOf(s));
    SyscallHasNone();
    if Defined(d) {
      ExecuteStep(d);
      ExecuteProper(d);
      HiLoNumbers(d);
      RetireR(ExecuteOf(d));
      if HasResult(d.f.func) {
        AluNumbers(d.f, Rs(d), Rt(d), s.pc, d.hi, d.lo, d.alu);
      } else {
        NoResultAlu(d.f, Rs(d), Rt(d), d.pc, d.hi, d.lo, d.alu);
      }
    }
  }

  // ---- Jumps ----

  lemma FieldsJump(w: bv32, f: Fields)
    requires IsJump(FieldOp(w))
    ensures FieldsOf(w, f) == f.(opBits := FieldOp(w), imm := FieldTarget(w))
  {}

  lemma JumpStages(d: Snapshot)
    requires Proper(d) && IsJump(d.f.opBits)
    ensures Defined(d) && Retire(ExecuteOf(d)).Some? && var t := Retire(ExecuteOf(d)).value;
      t.reg == (if d.f.opBits == 3 then d.reg[31 := Word(d.pc)] else d.reg) && t.mem == d.mem && t.hi == d.hi &&
      t.lo == d.lo && t.alu == d.alu && t.pc == Bump(d.pc, Val(ByFour(d.f.imm)))
  {
    hide Word, Val, ByFour, InFile, Bump, Proper, Retire;
    ExecuteProper(d);
    JumpRetires(ExecuteOf(d));
  }

  lemma JumpRetires(e: Snapshot)
    requires Proper(e) && IsJump(e.f.opBits)
    ensures Retire(e).Some? && Retire(e).value == e
  {}

  // The target, scaled, loses no bit.
  lemma TargetVal(w: bv32)
    ensures Val(ByFour(FieldTarget(w))) == 4 * Val(FieldTarget(w))
  {
    hide Val, Left;
    var t := FieldTarget(w);
    TargetSmall(w);
    TwiceLeft(t);
    DoubleVal(t);
    DoubleVal(Left(t, 1));
    ValOrder(t, 0x0400_0000);
    TargetBound();
  }

  lemma TargetSmall(w: bv32)
    ensures FieldTarget(w) < 0x0400_0000
  {}

  lemma TwiceLeft(t: bv32)
    ensures ByFour(t) == Left(Left(t, 1), 1)
  {}

  lemma TargetBound()
    ensures Val(0x0400_0000) == 0x0400_0000
  {
    hide ByteVal;
    ByteIsInt(4);
    ByteIsInt(0);
  }

  /** A fetched jump goes four times its target on from the next instruction; jal links the address of that. */
  lemma JumpTick(s: Snapshot)
    requires Proper(s) && CanFetch(s) && IsJump(FieldOp(Current(s)))
    ensures TickOf(s).Some?
    ensures var t, w := TickOf(s).value, Current(s);
      t.pc == (s.pc + 4 + 4 * Val(FieldTarget(w))) % MODULUS && t.mem == s.mem && t.hi == s.hi && t.lo == s.lo &&
      t.alu == s.alu &&
      t.reg == (if FieldOp(w) == 3 then s.reg[31 := t.reg[31]] else s.reg) &&
      (FieldOp(w) == 3 ==> Val(t.reg[31]) == (s.pc + 4) % MODULUS)
  {
    hide FieldsOf, FieldOp, FieldTarget, WordAt, ExecuteOf, Retire, Latched, CanFetch, InFile, Val, Word, ByFour,
      Defined;
    var d, w := Latched(s), Current(s);
    LatchedState(s);
    FieldsJump(w, s.f);
    JumpStages(d);
    ExecuteProper(d);
    TargetVal(w);
    BumpBump(s.pc, 4, 4 * Val(FieldTarget(w)));
    ValOfWord(d.pc);
  }

  // ---- I-instructions ----

  lemma FieldsImmediate(w: bv32, f: Fields)
    requires FieldOp(w) != 0 && !IsJump(FieldOp(w))
    ensures FieldsOf(w, f) == Fields(FieldOp(w), f.func, FieldRs(w), FieldRt(w), f.rd, f.shamt, FieldImm(w))
  {}

  /** The result of an immediate instruction; the immediate is a number below 65536, never a signed one. */
  ghost predicate ComputesImmediate(op: nat, x: bv32, v: nat, r: bv32) {
    match op
    case 8 | 9 => Val(r) == (Val(x) + v) % MODULUS
    case 10 => Val(r) == if Signed(x) < v then 1 else 0
    case 11 => Val(r) == if Val(x) < v then 1 else 0
    case 12 => forall i: nat :: Bit(Val(r), i) <==> Bit(Val(x), i) && Bit(v, i)
    case 13 => forall i: nat :: Bit(Val(r), i) <==> Bit(Val(x), i) || Bit(v, i)
    case 14 => forall i: nat :: Bit(Val(r), i) <==> Bit(Val(x), i) != Bit(v, i)
    case 15 => Val(r) == 0x1_0000 * v
    case _ => true
  }

  lemma ImmediateVal(w: bv32)
    ensures LowHalf(FieldImm(w)) == FieldImm(w)
    ensures Val(FieldImm(w)) < 0x1_0000 && Signed(FieldImm(w)) == Val(FieldImm(w))
  {
    hide Val;
    HalfKept(w);
    LowHalfVal(w);
  }

  lemma HalfKept(w: bv32)
    ensures FieldImm(w) == LowHalf(w) && LowHalf(LowHalf(w)) == LowHalf(w)
  {}

  lemma ImmediateNumbers(op: nat, x: bv32, w: bv32, alu: bv32)
    requires 8 <= op <= 15
    ensures ComputesImmediate(op, x, Val(FieldImm(w)), AluImmOf(op, x, FieldImm(w), alu))
  {
    hide Val, Signed, FieldImm, Sum, BitAnd, BitOr, BitXor, SignedLess, Less, LowHalf, ShiftHalf, Bit;
    var v := FieldImm(w);
    ImmediateVal(w);
    SumVal(x, v);
    SignedOrder(x, v);
    LessOrder(x, v);
    ValTruth(SignedLess(x, v));
    ValTruth(Less(x, v));
    forall i: nat
      ensures Bit(Val(BitAnd(x, v)), i) <==> Bit(Val(x), i) && Bit(Val(v), i)
      ensures Bit(Val(BitOr(x, v)), i) <==> Bit(Val(x), i) || Bit(Val(v), i)
      ensures Bit(Val(BitXor(x, v)), i) <==> Bit(Val(x), i) != Bit(Val(v), i)
    {
      LogicBits(x, v, i);
    }
    ShiftHalfVal(v);
  }

  lemma ImmediateStages(d: Snapshot)
    requires Proper(d) && 8 <= d.f.opBits <= 15
    ensures Defined(d) && Retire(ExecuteOf(d)).Some?
    ensures var t, r := Retire(ExecuteOf(d)).value, AluImmOf(d.f.opBits, Rs(d), d.f.imm, d.alu);
      t.reg == d.reg[d.f.rt := r] && t.alu == r && t.mem == d.mem && t.hi == d.hi && t.lo == d.lo && t.pc == d.pc
  {
    hide AluImmOf, Rs, InFile, Rt;
  }

  /** A fetched immediate instruction puts its result in rt. */
  lemma ImmediateTick(s: Snapshot)
    requires Proper(s) && CanFetch(s) && 8 <= FieldOp(Current(s)) <= 15
    ensures TickOf(s).Some?
    ensures var t, w := TickOf(s).value, Current(s);
      var rt := FieldRt(w);
      rt < 32 && |t.reg| == 32 && t.reg == s.reg[rt := t.reg[rt]] &&
      ComputesImmediate(FieldOp(w), RsOf(s), Val(FieldImm(w)), t.reg[rt]) &&
      t.mem == s.mem && t.hi == s.hi && t.lo == s.lo && t.alu == t.reg[rt] && t.pc == (s.pc + 4) % MODULUS
  {
    hide FieldsOf, FieldOp, FieldRs, FieldRt, FieldImm, WordAt, ExecuteOf, Retire, Latched, CanFetch, InFile, Val,
      AluImmOf,
      ComputesImmediate, Defined;
    var d, w := Latched(s), Current(s);
    FieldsInFile(w);
    LatchedState(s);
    FieldsImmediate(w, s.f);
    ImmediateStages(d);
    ImmediateNumbers(FieldOp(w), Rs(d), w, d.alu);
    ExecuteProper(d);
  }

  // ---- Branches ----

  /** The condition of a branch, on the numbers in its registers. */
  predicate BranchTaken(op: nat, x: bv32, y: bv32) {
    (op == 4 && Val(x) == Val(y)) || (op == 5 && Val(x) != Val(y)) || (op == 6 && Signed(x) <= 0) ||
    (op == 7 && Signed(x) > 0)
  }

  lemma TakenIs(op: nat, x: bv32, y: bv32)
    ensures TakenI(op, x, y) <==> BranchTaken(op, x, y)
  {
    hide Val, Signed, SignedLess;
    ValOrder(x, y);
    SignedOrder(0, x);
    Emulation.SignedZero();
  }

  lemma BranchStages(d: Snapshot)
    requires Proper(d) && 4 <= d.f.opBits <= 7
    ensures Defined(d) && Retire(ExecuteOf(d)).Some? && var t := Retire(ExecuteOf(d)).value;
      t.reg == d.reg[d.f.rt := d.alu] && t.mem == d.mem && t.hi == d.hi && t.lo == d.lo && t.alu == d.alu &&
      t.pc == PcAfterBranch(d.f, Rs(d), Rt(d), d.pc)
  {
    hide Rs, Rt, InFile, PcAfterBranch;
  }

  lemma SmallHalf(w: bv32)
    ensures FieldImm(w) <= 0xFFFF
  {}

  /** A fetched branch is taken on the numbers, and goes four times its offset on from the second next instruction. */
  lemma BranchTick(s: Snapshot)
    requires Proper(s) && CanFetch(s) && 4 <= FieldOp(Current(s)) <= 7
    ensures TickOf(s).Some?
    ensures var t, w := TickOf(s).value, Current(s);
      FieldRt(w) < 32 && t.reg == s.reg[FieldRt(w) := s.alu] && t.mem == s.mem && t.hi == s.hi && t.lo == s.lo &&
      t.alu == s.alu &&
      t.pc == (s.pc + if BranchTaken(FieldOp(w), RsOf(s), RtOf(s)) then 8 + 4 * Val(FieldImm(w)) else 4) % MODULUS
  {
    hide FieldsOf, FieldOp, FieldRs, FieldRt, FieldImm, WordAt, ExecuteOf, Retire, Latched, CanFetch, InFile, Val,
      TakenI,
      BranchTaken, ByFour, Defined;
    var d, w := Latched(s), Current(s);
    FieldsInFile(w);
    LatchedState(s);
    FieldsImmediate(w, s.f);
    BranchStages(d);
    ExecuteProper(d);
    TakenIs(FieldOp(w), RsOf(s), RtOf(s));
    SmallHalf(w);
    Emulation.ByFourVal(FieldImm(w));
    BumpBump(s.pc, 4, 4 * Val(FieldImm(w)) + 4);
  }

  // ---- Loads and stores ----

  /** The address a fetched load or store reaches: its base plus its offset, which is never negative. */
  function Reached(s: Snapshot): int
    requires Proper(s) && CanFetch(s)
  {
    (Val(RsOf(s)) + Val(FieldImm(Current(s)))) % MODULUS
  }

  lemma AccessStages(d: Snapshot)
    requires Proper(d) && (IsLoad(d.f.opBits) || IsStore(d.f.opBits))
    ensures Defined(d) && ExecuteOf(d) == d.(memAddr := AddressOf(d.f, Rs(d), d.memAddr))
  {
    hide Rs, Rt, InFile, AddressOf, AluImmOf, PcAfterBranch;
    NotAlu(d.f, Rs(d), Rt(d), d.pc, d.alu);
  }

  lemma NotAlu(f: Fields, x: bv32, y: bv32, pc: int, alu: bv32)
    requires IsLoad(f.opBits) || IsStore(f.opBits)
    ensures AluImmOf(f.opBits, x, f.imm, alu) == alu && PcAfterBranch(f, x, y, pc) == pc
  {}

  lemma Latches(s: Snapshot)
    requires Proper(s) && CanFetch(s) && (IsLoad(FieldOp(Current(s))) || IsStore(FieldOp(Current(s))))
    ensures var d := Latched(s);
      Defined(d) && ExecuteOf(d) == d.(memAddr := Reached(s)) && d.f.opBits == FieldOp(Current(s)) &&
      d.f.rt == FieldRt(Current(s)) && d == s.(instr := d.instr, pc := Bump(s.pc, 4), f := d.f)
  {
    hide FieldsOf, FieldOp, FieldRs, FieldRt, FieldImm, WordAt, ExecuteOf, Latched, CanFetch, InFile, Val, Defined,
      LowHalf;
    var d, w := Latched(s), Current(s);
    FieldsInFile(w);
    LatchedState(s);
    FieldsImmediate(w, s.f);
    AccessStages(d);
    ImmediateVal(w);
  }

  /** What a load puts in its register: the word whose bytes stand most significant first, or a single byte. */
  predicate LoadsFrom(op: nat, mem: seq<bv8>, a: int, r: bv32)
    requires 0 <= a && a + (if op == 35 then 4 else 1) <= |mem|
  {
    if op == 35 then
      Byte3(r) == mem[a] && Byte2(r) == mem[a + 1] && Byte1(r) == mem[a + 2] && Byte0(r) == mem[a + 3]
    else Val(r) == ByteVal(mem[a])
  }

  lemma ByteWord(b: bv8)
    ensures Val(b as bv32) == ByteVal(b)
  {
    hide ByteVal;
    ByteIsInt(0);
    ByteParts(b);
  }

  lemma ByteParts(b: bv8)
    ensures Byte3(b as bv32) == 0 && Byte2(b as bv32) == 0 && Byte1(b as bv32) == 0 && Byte0(b as bv32) == b
  {}

  lemma LoadedIs(op: nat, mem: seq<bv8>, a: int, was: bv32)
    requires IsLoad(op) && InBounds(op, a, |mem|)
    ensures LoadsFrom(op, mem, a, LoadedData(op, a, mem, was))
  {
    hide Byte3, Byte2, Byte1, Byte0, Join, Val;
    if op != 35 {
      ByteWord(mem[a]);
    }
  }

  lemma LoadRetired(e: Snapshot)
    requires Proper(e) && IsLoad(e.f.opBits)
    ensures Retire(e).Some? <==> InBounds(e.f.opBits, e.memAddr, |e.mem|)
    ensures Retire(e).Some? ==>
      var t := Retire(e).value;
      t.reg == e.reg[e.f.rt := LoadedData(e.f.opBits, e.memAddr, e.mem, e.memData)] && t.mem == e.mem && t.pc == e.pc &&
      t.hi == e.hi && t.lo == e.lo && t.alu == e.alu
  {}

  /**
   A fetched load: it has a successor exactly when its bytes are in memory; rt then has what they hold,
   and nothing else changes.
   */
  lemma LoadTick(s: Snapshot)
    requires Proper(s) && CanFetch(s) && IsLoad(FieldOp(Current(s)))
    ensures var op := FieldOp(Current(s)); TickOf(s).Some? <==> Reached(s) + (if op == 35 then 4 else 1) <= |s.mem|
    ensures TickOf(s).Some? ==>
      var t, w := TickOf(s).value, Current(s);
      var rt := FieldRt(w);
      rt < 32 && |t.reg| == 32 && t.reg == s.reg[rt := t.reg[rt]] &&
      LoadsFrom(FieldOp(w), s.mem, Reached(s), t.reg[rt]) &&
      t.mem == s.mem && t.hi == s.hi && t.lo == s.lo && t.alu == s.alu && t.pc == (s.pc + 4) % MODULUS
  {
    hide FieldsOf, FieldOp, FieldRs, FieldRt, FieldImm, WordAt, ExecuteOf, Retire, Latched, CanFetch, InFile, Val,
      Defined,
      LoadsFrom, LoadedData;
    var d, w := Latched(s), Current(s);
    FieldsInFile(w);
    Latches(s);
    ExecuteProper(d);
    var e := ExecuteOf(d);
    LoadRetired(e);
    if Retire(e).Some? {
      LoadedIs(FieldOp(w), s.mem, Reached(s), s.memData);
    }
  }

  /** What a store leaves at its address: the bytes of the register, the lowest first; sh repeats that one. */
  predicate StoresTo(op: nat, mem: seq<bv8>, a: int, w: bv32, mem': seq<bv8>) {
    var n := if op == 40 then 1 else if op == 41 then 2 else 4;
    |mem'| == |mem| && 0 <= a && a + n <= |mem| &&
    (forall i :: 0 <= i < |mem| && !(a <= i < a + n) ==> mem'[i] == mem[i]) &&
    mem'[a] == Byte0(w) && (n == 2 ==> mem'[a + 1] == Byte0(w)) &&
    (n == 4 ==> mem'[a + 1] == Byte1(w) && mem'[a + 2] == Byte2(w) && mem'[a + 3] == Byte3(w))
  }

  lemma StoredIs(op: nat, mem: seq<bv8>, a: int, w: bv32)
    requires IsStore(op) && InBounds(op, a, |mem|)
    ensures StoresTo(op, mem, a, w, Stored(op, a, w, mem))
  {
    hide Byte3, Byte2, Byte1, Byte0;
  }

  lemma StoreRetired(e: Snapshot)
    requires Proper(e) && IsStore(e.f.opBits)
    ensures Retire(e).Some? <==> InBounds(e.f.opBits, e.memAddr, |e.mem|)
    ensures Retire(e).Some? ==>
      var t := Retire(e).value;
      t.mem == Stored(e.f.opBits, e.memAddr, Rt(e), e.mem) && t.reg == e.reg && t.pc == e.pc &&
      t.hi == e.hi && t.lo == e.lo && t.alu == e.alu
  {
    hide Stored;
  }

  /** A fetched store: it has a successor exactly when its bytes are in memory, which then hold the register's. */
  lemma StoreTick(s: Snapshot)
    requires Proper(s) && CanFetch(s) && IsStore(FieldOp(Current(s)))
    ensures var op := FieldOp(Current(s));
      TickOf(s).Some? <==> Reached(s) + (if op == 40 then 1 else if op == 41 then 2 else 4) <= |s.mem|
    ensures TickOf(s).Some? ==>
      var t := TickOf(s).value;
      StoresTo(FieldOp(Current(s)), s.mem, Reached(s), RtOf(s), t.mem) && t.reg == s.reg && t.hi == s.hi &&
      t.lo == s.lo && t.alu == s.alu && t.pc == (s.pc + 4) % MODULUS
  {
    hide FieldsOf, FieldOp, FieldRs, FieldRt, FieldImm, WordAt, ExecuteOf, Retire, Latched, CanFetch, InFile, Val,
      Defined,
      StoresTo, Stored;
    var d, w := Latched(s), Current(s);
    FieldsInFile(w);
    Latches(s);
    ExecuteProper(d);
    var e := ExecuteOf(d);
    StoreRetired(e);
    if Retire(e).Some? {
      StoredIs(FieldOp(w), s.mem, Reached(s), RtOf(s));
    }
  }

  // ---- Other codes ----

  /** The opcodes of no instruction the emulator knows. */
  predicate Unknown(op: nat) { op != 0 && !IsJump(op) && !(4 <= op <= 15) && !IsLoad(op) && !IsStore(op) }

  lemma UnknownStages(d: Snapshot)
    requires Proper(d) && Unknown(d.f.opBits)
    ensures Defined(d) && Retire(ExecuteOf(d)).Some? && var t := Retire(ExecuteOf(d)).value;
      t.reg == d.reg[d.f.rt := d.alu] && t.mem == d.mem && t.hi == d.hi && t.lo == d.lo && t.alu == d.alu &&
      t.pc == d.pc
  {
    hide Rs, Rt, InFile;
  }

  /** Any other word only puts the old ALU register in rt. */
  lemma UnknownTick(s: Snapshot)
    requires Proper(s) && CanFetch(s) && Unknown(FieldOp(Current(s)))
    ensures TickOf(s).Some?
    ensures var t, rt := TickOf(s).value, FieldRt(Current(s));
      rt < 32 && t.reg == s.reg[rt := s.alu] && t.mem == s.mem && t.hi == s.hi && t.lo == s.lo && t.alu == s.alu &&
      t.pc == (s.pc + 4) % MODULUS
  {
    hide FieldsOf, FieldOp, FieldRs, FieldRt, FieldImm, WordAt, ExecuteOf, Retire, Latched, CanFetch, InFile, Defined;
    var d, w := Latched(s), Current(s);
    FieldsInFile(w);
    LatchedState(s);
    FieldsImmediate(w, s.f);
    UnknownStages(d);
    ExecuteProper(d);
  }
}
