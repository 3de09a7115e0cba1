/**
 The emulator's processor state and its five stages. The functions give the state each stage
 leads to; the methods of the class State work in place and are proved against them.
 Where the C++ has no defined behaviour (division by zero, shifts past the word, accesses
 outside memory) a stage has no successor. Signed arithmetic wraps to 32 bits.
 */
module Cpu {
  import opened Words
  import opened Source
  import opened Layout
  import opened Isa
  import opened DataCache

  const SMIPS_MEM_SIZE := 0x10_0000

  /** What decoding splits an instruction into. */
  datatype Fields = Fields(opBits: nat, func: nat, rs: nat, rt: nat, rd: nat, shamt: bv32, imm: bv32)

  /** The value of a whole processor state. */
  datatype Snapshot = Snapshot(
    pc: int, instr: bv32, f: Fields,
    tmp: bv32, hi: bv32, lo: bv32, alu: bv32,
    memData: bv32, memAddr: int,
    reg: seq<bv32>, mem: seq<bv8>)

  predicate InFile(f: Fields) { f.rs < 32 && f.rt < 32 && f.rd < 32 }

  /** The register fields name registers, and unsigned int fields hold unsigned ints. */
  predicate Proper(s: Snapshot) {
    |s.reg| == 32 && |s.mem| < 0x8000_0000 && InFile(s.f) &&
    0 <= s.pc < MODULUS && 0 <= s.memAddr < MODULUS
  }

  function Rs(s: Snapshot): bv32
    requires Proper(s)
  {
    s.reg[s.f.rs]
  }

  function Rt(s: Snapshot): bv32
    requires Proper(s)
  {
    s.reg[s.f.rt]
  }

  /** The register file of a new state. */
  function ZeroRegs(): (r: seq<bv32>)
    ensures |r| == 32
  {
    seq(32, i => 0)
  }

  /** A state with every register but the ALU's at zero. */
  function CleanOf(s: Snapshot): Snapshot {
    Snapshot(0, 0, Fields(0, 0, 0, 0, 0, 0, 0), 0, 0, 0, s.alu, 0, 0, ZeroRegs(), s.mem)
  }

  // ---- Fetch ----

  predicate CanFetch(s: Snapshot) { 0 <= s.pc && s.pc + 3 < |s.mem| }

  function FetchOf(s: Snapshot): Snapshot
    requires CanFetch(s)
  {
    s.(instr := WordAt(s.mem, s.pc), pc := Bump(s.pc, 4))
  }

  // ---- Decode ----

  // The masks are those of the source: rd loses its lowest bit, and shamt its highest.
  function FieldRs(w: bv32): nat { ByteVal(((w & 0x03E0_0000) >> 21) as bv8) }

  function FieldRt(w: bv32): nat { ByteVal(((w & 0x001F_0000) >> 16) as bv8) }

  function FieldRd(w: bv32): nat { ByteVal(((w & 0x0000_F700) >> 11) as bv8) }

  function FieldShamt(w: bv32): bv32 { (w & 0x0000_03E0) >> 6 }

  function FieldFunc(w: bv32): nat { ByteVal((w & 0x0000_003F) as bv8) }

  function FieldTarget(w: bv32): bv32 { w & 0x03FF_FFFF }

  function FieldImm(w: bv32): bv32 { LowHalf(w) }

  function FieldOp(w: bv32): nat { ByteVal(((w & 0xFC00_0000) >> 26) as bv8) }

  predicate IsJump(opBits: nat) { opBits == 2 || opBits == 3 }

  /** Fields a format does not have keep what they held. */
  function FieldsOf(w: bv32, f: Fields): Fields {
    var op := FieldOp(w);
    if op == 0 then Fields(op, FieldFunc(w), FieldRs(w), FieldRt(w), FieldRd(w), FieldShamt(w), f.imm)
    else if IsJump(op) then f.(opBits := op, imm := FieldTarget(w))
    else Fields(op, f.func, FieldRs(w), FieldRt(w), f.rd, f.shamt, FieldImm(w))
  }

  function DecodeOf(s: Snapshot): Snapshot { s.(f := FieldsOf(s.instr, s.f)) }

  lemma FieldsInFile(w: bv32)
    ensures FieldRs(w) < 32 && FieldRt(w) < 32 && FieldRd(w) < 32
  {
    ByteIsInt(32);
    ByteOrder(((w & 0x03E0_0000) >> 21) as bv8, 32);
    ByteOrder(((w & 0x001F_0000) >> 16) as bv8, 32);
    ByteOrder(((w & 0x0000_F700) >> 11) as bv8, 32);
  }

  lemma FieldsOfInFile(w: bv32, f: Fields)
    requires InFile(f)
    ensures InFile(FieldsOf(w, f))
  {
    hide FieldRs, FieldRt, FieldRd, FieldShamt, FieldFunc, FieldTarget, FieldImm, FieldOp;
    FieldsInFile(w);
  }

  // ---- Execute ----

  function ByFour(imm: bv32): bv32 { imm << 2 }

  /** The arithmetic right shift of int32_t. */
  function ShiftRight(x: bv32, v: bv32): bv32 {
    var k := (v & 0x1F) as bv6;
    if x & 0x8000_0000 == 0 then x >> k else !((!x) >> k)
  }

  /** The 64-bit value that is split into HI and LO: an int product, or an unsigned int product. */
  function Product(func: nat, x: bv32, y: bv32): int {
    if func == 24 then Signed(Word(Signed(x) * Signed(y))) else Val(x) * Val(y) % MODULUS
  }

  /** Shift amounts are within the word, and quotients exist and fit. */
  predicate DefinedR(func: nat, x: bv32, y: bv32) {
    (func == 4 || func == 6 || func == 7 ==> x < 32) &&
    (func == 26 || func == 27 ==> y != 0) &&
    (func == 26 ==> !(x == 0x8000_0000 && y == 0xFFFF_FFFF))
  }

  predicate Defined(s: Snapshot)
    requires Proper(s)
  {
    s.f.opBits == 0 ==> DefinedR(s.f.func, Rs(s), Rt(s))
  }

  // The comparison and logic operations of the ALU.
  function LogicOf(func: nat, x: bv32, y: bv32): bv32 {
    if func == 36 then BitAnd(x, y)
    else if func == 37 then BitOr(x, y)
    else if func == 38 then BitXor(x, y)
    else if func == 39 then NotOr(x, y)
    else if func == 42 then if SignedLess(x, y) then 1 else 0
    else if Less(x, y) then 1 else 0
  }

  /** The source writes the logical not of C++, which gives 1 or 0. */
  function NotOr(x: bv32, y: bv32): bv32 { if x | y == 0 then 1 else 0 }

  function ShiftOf(func: nat, x: bv32, y: bv32, shamt: bv32): bv32 {
    if func == 0 then ShiftLeft(y, shamt)
    else if func == 2 || func == 3 then ShiftRight(y, shamt)
    else if func == 4 then ShiftLeft(y, x)
    else ShiftRight(y, x)
  }

  predicate IsShift(func: nat) { func == 0 || func == 2 || func == 3 || func == 4 || func == 6 || func == 7 }

  predicate IsLogic(func: nat) { 36 <= func <= 39 || func == 42 || func == 43 }

  /** The ALU register after an R-instruction; instructions without a result leave the old one there. */
  function AluOf(f: Fields, x: bv32, y: bv32, pc: int, hi: bv32, lo: bv32, alu: bv32): bv32 {
    if IsShift(f.func) then ShiftOf(f.func, x, y, f.shamt)
    else if IsLogic(f.func) then LogicOf(f.func, x, y)
    else if f.func == 32 || f.func == 33 then Sum(x, y)
    else if f.func == 34 || f.func == 35 then Difference(x, y)
    else if f.func == 16 then hi
    else if f.func == 18 then lo
    else if f.func == 9 then Word(pc + 8)
    else alu
  }

  function HiOf(func: nat, x: bv32, y: bv32, hi: bv32): bv32
    requires DefinedR(func, x, y)
  {
    if func == 17 then x
    else if func == 24 || func == 25 then Word(Product(func, x, y) / MODULUS)
    else if func == 26 then NonZero(y); Word(TruncRem(Signed(x), Signed(y)))
    else if func == 27 then NonZero(y); Word(Val(x) % Val(y))
    else hi
  }

  function LoOf(func: nat, x: bv32, y: bv32, lo: bv32): bv32
    requires DefinedR(func, x, y)
  {
    if func == 19 then x
    else if func == 24 || func == 25 then Word(Product(func, x, y))
    else if func == 26 then NonZero(y); Word(TruncDiv(Signed(x), Signed(y)))
    else if func == 27 then NonZero(y); Word(Val(x) / Val(y))
    else lo
  }

  /** The program counter after jr and jalr. */
  function PcOf(func: nat, x: bv32, pc: int): int { if func == 8 || func == 9 then Val(x) else pc }

  function ExecuteR(s: Snapshot): Snapshot
    requires Proper(s) && s.f.opBits == 0 && Defined(s)
  {
    var x, y := Rs(s), Rt(s);
    s.(alu := AluOf(s.f, x, y, s.pc, s.hi, s.lo, s.alu),
       hi := HiOf(s.f.func, x, y, s.hi),
       lo := LoOf(s.f.func, x, y, s.lo),
       pc := PcOf(s.f.func, x, s.pc),
       tmp := if s.f.func == 9 then x else s.tmp)
  }

  lemma ExecuteRIs(s: Snapshot, x: bv32, y: bv32)
    requires Proper(s) && s.f.opBits == 0 && x == Rs(s) && y == Rt(s) && DefinedR(s.f.func, x, y)
    ensures ExecuteR(s) ==
      s.(alu := AluOf(s.f, x, y, s.pc, s.hi, s.lo, s.alu), hi := HiOf(s.f.func, x, y, s.hi),
         lo := LoOf(s.f.func, x, y, s.lo), pc := PcOf(s.f.func, x, s.pc), tmp := if s.f.func == 9 then x else s.tmp)
  {
    hide AluOf, HiOf, LoOf, PcOf, DefinedR;
  }

  function ExecuteJ(s: Snapshot): Snapshot
    requires Proper(s)
  {
    s.(reg := if s.f.opBits == 3 then s.reg[REG_RETURN := Word(s.pc)] else s.reg,
       pc := Bump(s.pc, Val(ByFour(s.f.imm))))
  }

  predicate TakenI(opBits: nat, x: bv32, y: bv32) {
    (opBits == 4 && x == y) || (opBits == 5 && x != y) ||
    (opBits == 6 && !SignedLess(0, x)) || (opBits == 7 && SignedLess(0, x))
  }

  // Immediates are never sign-extended.
  function AluImmOf(opBits: nat, x: bv32, imm: bv32, alu: bv32): bv32 {
    if opBits == 8 || opBits == 9 then Sum(x, imm)
    else if opBits == 10 then if SignedLess(x, LowHalf(imm)) then 1 else 0
    else if opBits == 11 then if Less(x, LowHalf(imm)) then 1 else 0
    else if opBits == 12 then BitAnd(x, imm)
    else if opBits == 13 then BitOr(x, imm)
    else if opBits == 14 then BitXor(x, LowHalf(imm))
    else if opBits == 15 then ShiftHalf(imm)
    else alu
  }

  predicate IsStore(opBits: nat) { opBits == 40 || opBits == 41 || opBits == 43 }

  predicate IsLoad(opBits: nat) { opBits == 32 || opBits == 33 || opBits == 35 }

  function PcAfterBranch(f: Fields, x: bv32, y: bv32, pc: int): int {
    if TakenI(f.opBits, x, y) then Bump(pc, Val(ByFour(f.imm)) + 4) else pc
  }

  function AddressOf(f: Fields, x: bv32, memAddr: int): int {
    if IsStore(f.opBits) || IsLoad(f.opBits) then Bump(Val(x), Val(LowHalf(f.imm))) else memAddr
  }

  function ExecuteI(s: Snapshot): Snapshot
    requires Proper(s)
  {
    s.(pc := PcAfterBranch(s.f, Rs(s), Rt(s), s.pc),
       alu := AluImmOf(s.f.opBits, Rs(s), s.f.imm, s.alu),
       memAddr := AddressOf(s.f, Rs(s), s.memAddr))
  }

  function ExecuteOf(s: Snapshot): Snapshot
    requires Proper(s) && Defined(s)
  {
    if s.f.opBits == 0 then ExecuteR(s)
    else if IsJump(s.f.opBits) then ExecuteJ(s)
    else ExecuteI(s)
  }

  // ---- Memory ----

  /** How many bytes from the address on an operation touches. */
  function Width(opBits: nat): nat {
    if opBits == 40 || opBits == 32 || opBits == 33 then 1
    else if opBits == 41 then 2
    else if opBits == 43 || opBits == 35 then 4
    else 0
  }

  predicate InBounds(opBits: nat, a: int, size: nat) { Width(opBits) > 0 ==> 0 <= a && a + Width(opBits) <= size }

  // Stores put the least significant byte first, and sh puts it in both places.
  function Stored(opBits: nat, a: int, w: bv32, mem: seq<bv8>): (m: seq<bv8>)
    requires InBounds(opBits, a, |mem|)
    ensures |m| == |mem|
  {
    if opBits == 40 then mem[a := Byte0(w)]
    else if opBits == 41 then mem[a := Byte0(w)][a + 1 := Byte0(w)]
    else if opBits == 43 then mem[a := Byte0(w)][a + 1 := Byte1(w)][a + 2 := Byte2(w)][a + 3 := Byte3(w)]
    else mem
  }

  // Loads put it last, and lh reads one byte.
  function LoadedData(opBits: nat, a: int, mem: seq<bv8>, memData: bv32): bv32
    requires InBounds(opBits, a, |mem|)
  {
    if opBits == 32 || opBits == 33 then mem[a] as bv32
    else if opBits == 35 then WordAt(mem, a)
    else memData
  }

  function MemoryOf(s: Snapshot): Snapshot
    requires Proper(s) && InBounds(s.f.opBits, s.memAddr, |s.mem|)
  {
    s.(mem := Stored(s.f.opBits, s.memAddr, Rt(s), s.mem),
       memData := LoadedData(s.f.opBits, s.memAddr, s.mem, s.memData))
  }

  // ---- Write back ----

  /** Every instruction but jumps, stores and syscall writes a register, whether or not it has a result. */
  function WrittenBack(f: Fields, alu: bv32, memData: bv32, reg: seq<bv32>): (r: seq<bv32>)
    requires InFile(f) && |reg| == 32
    ensures |r| == 32
  {
    if f.opBits == 0 then if f.func == 12 then reg else reg[f.rd := alu]
    else if IsJump(f.opBits) || IsStore(f.opBits) then reg
    else if IsLoad(f.opBits) then reg[f.rt := memData]
    else reg[f.rt := alu]
  }

  function WriteBackOf(s: Snapshot): Snapshot
    requires Proper(s)
  {
    s.(reg := WrittenBack(s.f, s.alu, s.memData, s.reg))
  }

  // ---- One cycle ----

  lemma FetchProper(s: Snapshot)
    requires Proper(s) && CanFetch(s)
    ensures Proper(FetchOf(s)) && FetchOf(s).mem == s.mem && FetchOf(s).reg == s.reg
  {}

  lemma DecodeProper(s: Snapshot)
    requires Proper(s)
    ensures Proper(DecodeOf(s)) && DecodeOf(s).mem == s.mem && DecodeOf(s).reg == s.reg && DecodeOf(s).pc == s.pc
  {
    hide FieldsOf, InFile;
    FieldsOfInFile(s.instr, s.f);
  }

  lemma ExecuteRProper(s: Snapshot)
    requires Proper(s) && s.f.opBits == 0 && Defined(s)
    ensures Proper(ExecuteR(s)) && ExecuteR(s).mem == s.mem && ExecuteR(s).f == s.f
  {}

  lemma ExecuteJProper(s: Snapshot)
    requires Proper(s)
    ensures Proper(ExecuteJ(s)) && ExecuteJ(s).mem == s.mem && ExecuteJ(s).f == s.f
  {}

  lemma ExecuteIProper(s: Snapshot)
    requires Proper(s)
    ensures Proper(ExecuteI(s)) && ExecuteI(s).mem == s.mem && ExecuteI(s).f == s.f
  {}

  lemma ExecuteProper(s: Snapshot)
    requires Proper(s) && Defined(s)
    ensures Proper(ExecuteOf(s)) && ExecuteOf(s).mem == s.mem && ExecuteOf(s).f == s.f
  {
    hide ExecuteR, ExecuteJ, ExecuteI, Proper, Defined;
    if s.f.opBits == 0 {
      ExecuteRProper(s);
    } else if IsJump(s.f.opBits) {
      ExecuteJProper(s);
    } else {
      ExecuteIProper(s);
    }
  }

  function Latched(s: Snapshot): (d: Snapshot)
    requires Proper(s) && CanFetch(s)
    ensures Proper(d) && d.mem == s.mem && d.reg == s.reg
  {
    FetchProper(s);
    DecodeProper(FetchOf(s));
    DecodeOf(FetchOf(s))
  }

  /** The last two stages. */
  function Retire(e: Snapshot): Option<Snapshot>
    requires Proper(e)
  {
    if !InBounds(e.f.opBits, e.memAddr, |e.mem|) then None else Some(WriteBackOf(MemoryOf(e)))
  }

  lemma RetireProper(e: Snapshot)
    requires Proper(e) && Retire(e).Some?
    ensures Proper(Retire(e).value) && |Retire(e).value.mem| == |e.mem|
  {}

  /** A cycle, when every stage is defined. */
  function TickOf(s: Snapshot): Option<Snapshot>
    requires Proper(s)
  {
    if !CanFetch(s) || !Defined(Latched(s)) then None
    else
      ExecuteProper(Latched(s));
      Retire(ExecuteOf(Latched(s)))
  }

  lemma TickProper(s: Snapshot)
    requires Proper(s) && TickOf(s).Some?
    ensures Proper(TickOf(s).value) && |TickOf(s).value.mem| == |s.mem|
  {
    hide Latched, ExecuteOf, Retire, Defined, Proper, CanFetch;
    ExecuteProper(Latched(s));
    RetireProper(ExecuteOf(Latched(s)));
  }

  function Ticks(s: Snapshot, n: nat): (r: Option<Snapshot>)
    requires Proper(s)
    ensures r.Some? ==> Proper(r.value) && |r.value.mem| == |s.mem|
    decreases n
  {
    if n == 0 then Some(s)
    else if TickOf(s).None? then None
    else
      TickProper(s);
      Ticks(TickOf(s).value, n - 1)
  }

  // ---- Loading ----

  /** Bytes written over a part of memory. */
  function Overwrite(mem: seq<bv8>, data: seq<bv8>, offset: nat): (m: seq<bv8>)
    requires offset + |data| <= |mem|
    ensures |m| == |mem|
    ensures forall i :: 0 <= i < |mem| ==> m[i] == if offset <= i < offset + |data| then data[i - offset] else mem[i]
  {
    mem[..offset] + data + mem[offset + |data|..]
  }

  /** An image that does not fit is not written at all. */
  function WriteMemOf(mem: seq<bv8>, data: seq<bv8>, offset: nat): (m: seq<bv8>)
    requires |mem| == SMIPS_MEM_SIZE
    ensures |m| == |mem|
  {
    if offset + |data| > SMIPS_MEM_SIZE then mem else Overwrite(mem, data, offset)
  }
}
