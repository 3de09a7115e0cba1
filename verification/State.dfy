/**
 The emulator object. Each stage works in place on the fields, the register array and the memory
 bytes, and is proved against the functions of the module Cpu.
 */
module State {
  import opened Words
  import opened Source
  import opened Layout
  import opened Isa
  import opened Cpu
  import DataCache

  class State {
    const mem: DataCache.DataCache
    const reg: array<bv32>
    var pc: int
    var instr: bv32
    var opBits: nat
    var func: nat
    var rs: nat
    var rt: nat
    var rd: nat
    var shamt: bv32
    var imm: bv32
    var tmp: bv32
    var hi: bv32
    var lo: bv32
    var alu: bv32
    var memData: bv32
    var memAddr: int

    ghost function Latches(): Fields
      reads this
    {
      Fields(opBits, func, rs, rt, rd, shamt, imm)
    }

    ghost function Value(): Snapshot
      reads this, reg, mem.mem
    {
      Snapshot(pc, instr, Latches(), tmp, hi, lo, alu, memData, memAddr, reg[..], mem.mem[..])
    }

    ghost predicate Valid()
      reads this
    {
      reg.Length == 32 && mem.mem.Length == SMIPS_MEM_SIZE && InFile(Latches()) &&
      0 <= pc < MODULUS && 0 <= memAddr < MODULUS
    }

    /** All registers start at zero, but for the ALU register and memory, which start as they are. */
    constructor ()
      ensures Valid() && fresh(reg) && fresh(mem) && fresh(mem.mem)
      ensures Value() == CleanOf(Value())
    {
      mem := new DataCache.DataCache(SMIPS_MEM_SIZE);
      reg := new bv32[32];
      new;
      InitReg();
    }

    method InitReg()
      requires reg.Length == 32
      modifies this, reg
      ensures pc == 0 && instr == 0 && Latches() == Fields(0, 0, 0, 0, 0, 0, 0) && reg[..] == ZeroRegs()
      ensures tmp == 0 && hi == 0 && lo == 0 && memData == 0 && memAddr == 0 && alu == old(alu)
    {
      ClearLatches();
      ClearResults();
      ClearRegisters();
    }

    method ClearLatches()
      modifies this`opBits, this`func, this`rs, this`rt, this`rd, this`shamt, this`imm
      ensures Latches() == Fields(0, 0, 0, 0, 0, 0, 0)
    {
      opBits, func, rs, rt, rd, shamt, imm := 0, 0, 0, 0, 0, 0, 0;
    }

    // The ALU register is not among them.
    method ClearResults()
      modifies this`pc, this`instr, this`tmp, this`hi, this`lo, this`memData, this`memAddr
      ensures pc == 0 && instr == 0 && tmp == 0 && hi == 0 && lo == 0 && memData == 0 && memAddr == 0
    {
      pc, instr, tmp, hi, lo, memData, memAddr := 0, 0, 0, 0, 0, 0, 0;
    }

    method ClearRegisters()
      requires reg.Length == 32
      modifies reg
      ensures reg[..] == ZeroRegs()
    {
      for i := 0 to 32
        invariant forall j :: 0 <= j < i ==> reg[j] == 0
      {
        reg[i] := 0;
      }
    }

    // ---- The pipeline ----

    method Fetch()
      requires Valid() && CanFetch(Value())
      modifies this`instr, this`pc
      ensures Valid() && Proper(old(Value())) && Value() == FetchOf(old(Value()))
    {
      hide Bump, InFile;
      instr := FetchWord();
      pc := Bump(pc, 4);
    }

    method FetchWord() returns (w: bv32)
      requires Valid() && CanFetch(Value())
      ensures w == DataCache.WordAt(mem.mem[..], pc)
    {
      var b := mem.mem;
      w := 0;
      w := w | ((b[pc + 0] as bv32) << 24);
      w := w | ((b[pc + 1] as bv32) << 16);
      w := w | ((b[pc + 2] as bv32) << 8);
      w := w | (b[pc + 3] as bv32);
    }

    method Decode()
      requires Valid()
      modifies this`opBits, this`rs, this`rt, this`rd, this`shamt, this`func, this`imm
      ensures Valid() && Proper(old(Value())) && Value() == DecodeOf(old(Value()))
    {
      hide FieldsOf, InFile;
      DecodeWord(instr);
    }

    method DecodeWord(w: bv32)
      requires Valid()
      modifies this`opBits, this`rs, this`rt, this`rd, this`shamt, this`func, this`imm
      ensures Valid() && Latches() == FieldsOf(w, old(Latches()))
    {
      hide FieldRs, FieldRt, FieldRd, FieldShamt, FieldFunc, FieldTarget, FieldImm, FieldOp;
      FieldsInFile(w);
      opBits := FieldOp(w);
      if opBits == 0 {
        rs := FieldRs(w);
        rt := FieldRt(w);
        rd := FieldRd(w);
        shamt := FieldShamt(w);
        func := FieldFunc(w);
      } else if opBits == 2 || opBits == 3 {
        imm := FieldTarget(w);
      } else {
        rs := FieldRs(w);
        rt := FieldRt(w);
        imm := FieldImm(w);
      }
    }

    method Execute()
      requires Valid() && (opBits == 0 ==> DefinedR(func, reg[rs], reg[rt]))
      modifies this`alu, this`hi, this`lo, this`pc, this`tmp, this`memAddr, reg
      ensures Valid() && Proper(old(Value())) && Value() == ExecuteOf(old(Value()))
    {
      hide DefinedR, ExecuteR, ExecuteJ, ExecuteI;
      if opBits == 0 {
        ExecuteRegister();
      } else if opBits == 2 || opBits == 3 {
        ExecuteJump();
      } else {
        ExecuteImmediate();
      }
    }

    method ExecuteRegister()
      requires Valid() && opBits == 0 && DefinedR(func, reg[rs], reg[rt])
      modifies this`alu, this`hi, this`lo, this`pc, this`tmp
      ensures Valid() && Proper(old(Value())) && Value() == ExecuteR(old(Value()))
    {
      hide AluOf, HiOf, LoOf, PcOf, DefinedR, ExecuteR;
      ghost var s := Value();
      var x, y := reg[rs], reg[rt];
      var a, h, l, p, t := RegisterResults(x, y, alu, hi, lo, pc, tmp, shamt, Latches());
      PcInRange(func, x, pc);
      ExecuteRIs(s, x, y);
      Commit(a, h, l, p, t);
    }

    method Commit(a: bv32, h: bv32, l: bv32, p: int, t: bv32)
      requires Valid() && 0 <= p < MODULUS
      modifies this`alu, this`hi, this`lo, this`pc, this`tmp
      ensures Valid() && Value() == old(Value()).(alu := a, hi := h, lo := l, pc := p, tmp := t)
    {
      alu, hi, lo, pc, tmp := a, h, l, p, t;
    }

    // The switch over R-instructions, on the registers it reads and writes.
    method RegisterResults(x: bv32, y: bv32, alu: bv32, hi: bv32, lo: bv32, pc: int, tmp: bv32, sh: bv32,
                           ghost f: Fields)
      returns (alu': bv32, hi': bv32, lo': bv32, pc': int, tmp': bv32)
      requires DefinedR(func, x, y) && f.func == func && f.shamt == sh
      ensures alu' == AluOf(f, x, y, pc, hi, lo, alu)
      ensures hi' == HiOf(func, x, y, hi) && lo' == LoOf(func, x, y, lo)
      ensures pc' == PcOf(func, x, pc) && tmp' == if func == 9 then x else tmp
    {
      hide Val, Word, AluOf, HiOf, LoOf, DefinedR;
      Unaffected(f, x, y, pc, hi, lo, alu);
      alu', hi', lo', pc', tmp' := alu, hi, lo, pc, tmp;
      if func == 8 {
        pc' := Val(x);
      } else if func == 9 {
        tmp' := x;
        alu' := Word(pc + 8);
        pc' := Val(tmp');
      } else if func == 17 {
        hi' := x;
      } else if func == 19 {
        lo' := x;
      } else if func == 24 || func == 25 || func == 26 || func == 27 {
        hi', lo' := MultiplyDivide(x, y, hi, lo);
      } else {
        alu' := ExecuteAlu(x, y, alu, hi, lo, pc, sh, f);
      }
    }

    method MultiplyDivide(x: bv32, y: bv32, ghost hi: bv32, ghost lo: bv32) returns (h: bv32, l: bv32)
      requires DefinedR(func, x, y) && 24 <= func <= 27
      ensures h == HiOf(func, x, y, hi) && l == LoOf(func, x, y, lo)
    {
      hide TruncDiv, TruncRem, Val, Word, Signed, Product;
      if func == 24 || func == 25 {
        var t := Product(func, x, y);
        h := Word(t / MODULUS);
        l := Word(t);
      } else if func == 26 {
        NonZero(y);
        l := Word(TruncDiv(Signed(x), Signed(y)));
        h := Word(TruncRem(Signed(x), Signed(y)));
      } else {
        NonZero(y);
        l := Word(Val(x) / Val(y));
        h := Word(Val(x) % Val(y));
      }
    }

    method ExecuteAlu(x: bv32, y: bv32, alu: bv32, hi: bv32, lo: bv32, ghost pc: int, sh: bv32,
                      ghost f: Fields) returns (r: bv32)
      requires func != 9 && f.func == func && f.shamt == sh
      ensures r == AluOf(f, x, y, pc, hi, lo, alu)
    {
      hide ShiftOf, LogicOf, Sum, Difference;
      r := alu;
      if func == 16 {
        r := hi;
      } else if func == 18 {
        r := lo;
      } else if func == 32 || func == 33 {
        r := Sum(x, y);
      } else if func == 34 || func == 35 {
        r := Difference(x, y);
      } else if func == 0 || func == 2 || func == 3 || func == 4 || func == 6 || func == 7 {
        r := ExecuteShift(x, y, sh);
      } else if func == 36 || func == 37 || func == 38 || func == 39 || func == 42 || func == 43 {
        r := ExecuteLogic(x, y);
      }
    }

    method ExecuteShift(x: bv32, y: bv32, sh: bv32) returns (r: bv32)
      requires IsShift(func)
      ensures r == ShiftOf(func, x, y, sh)
    {
      hide ShiftLeft, ShiftRight;
      if func == 0 {
        r := ShiftLeft(y, sh);
      } else if func == 2 {
        r := ShiftRight(y, sh);
      } else if func == 3 {
        r := ShiftRight(y, sh);
      } else if func == 4 {
        r := ShiftLeft(y, x);
      } else {
        r := ShiftRight(y, x);
      }
    }

    method ExecuteLogic(x: bv32, y: bv32) returns (r: bv32)
      requires IsLogic(func)
      ensures r == LogicOf(func, x, y)
    {
      hide SignedLess, BitAnd, BitOr, BitXor, NotOr, Less;
      if func == 36 {
        r := BitAnd(x, y);
      } else if func == 37 {
        r := BitOr(x, y);
      } else if func == 38 {
        r := BitXor(x, y);
      } else if func == 39 {
        r := NotOr(x, y);
      } else if func == 42 {
        r := if SignedLess(x, y) then 1 else 0;
      } else {
        r := if Less(x, y) then 1 else 0;
      }
    }

    method ExecuteJump()
      requires Valid()
      modifies this`pc, reg
      ensures Valid() && Proper(old(Value())) && Value() == ExecuteJ(old(Value()))
    {
      hide Val, Word, ByFour, InFile;
      if opBits == 3 {
        reg[REG_RETURN] := Word(pc);
      }
      pc := Bump(pc, Val(ByFour(imm)));
    }

    method ExecuteImmediate()
      requires Valid()
      modifies this`pc, this`alu, this`memAddr
      ensures Valid() && Proper(old(Value())) && Value() == ExecuteI(old(Value()))
    {
      hide AluImmOf, AddressOf, PcAfterBranch;
      pc, alu, memAddr := ImmediateResults(reg[rs], reg[rt], pc, alu, memAddr, imm, Latches());
    }

    // The switch over I-instructions.
    method ImmediateResults(x: bv32, y: bv32, pc: int, alu: bv32, memAddr: int, v: bv32, ghost f: Fields)
      returns (pc': int, alu': bv32, memAddr': int)
      requires f.opBits == opBits && f.imm == v && 0 <= pc < MODULUS && 0 <= memAddr < MODULUS
      ensures pc' == PcAfterBranch(f, x, y, pc) && alu' == AluImmOf(opBits, x, v, alu) &&
        memAddr' == AddressOf(f, x, memAddr)
      ensures 0 <= pc' < MODULUS && 0 <= memAddr' < MODULUS
    {
      hide Val, AluImmOf, SignedLess, ByFour, LowHalf;
      pc', alu', memAddr' := pc, alu, memAddr;
      if opBits == 4 || opBits == 5 || opBits == 6 || opBits == 7 {
        if TakenI(opBits, x, y) {
          pc' := Bump(pc, Val(ByFour(v)) + 4);
        }
        NoImmediate(opBits, x, v, alu);
      } else if opBits == 40 || opBits == 41 || opBits == 43 || opBits == 32 || opBits == 33 || opBits == 35 {
        memAddr' := Bump(Val(x), Val(LowHalf(v)));
        NoImmediate(opBits, x, v, alu);
      } else {
        alu' := ExecuteAluImmediate(x, v, alu);
      }
    }

    method ExecuteAluImmediate(x: bv32, v: bv32, was: bv32) returns (r: bv32)
      ensures r == AluImmOf(opBits, x, v, was)
    {
      hide Sum, SignedLess, Less, BitAnd, BitOr, BitXor, LowHalf, ShiftHalf;
      r := was;
      if opBits == 8 || opBits == 9 {
        r := Sum(x, v);
      } else if opBits == 10 {
        r := if SignedLess(x, LowHalf(v)) then 1 else 0;
      } else if opBits == 11 {
        r := if Less(x, LowHalf(v)) then 1 else 0;
      } else if opBits == 12 {
        r := BitAnd(x, v);
      } else if opBits == 13 {
        r := BitOr(x, v);
      } else if opBits == 14 {
        r := BitXor(x, LowHalf(v));
      } else if opBits == 15 {
        r := ShiftHalf(v);
      }
    }

    method Memory()
      requires Valid() && InBounds(opBits, memAddr, mem.mem.Length)
      modifies this`memData, mem.mem
      ensures Valid() && Proper(old(Value())) && Value() == MemoryOf(old(Value()))
    {
      hide Stored, LoadedData, InBounds;
      LoadBytes();
      StoreBytes(reg[rt]);
    }

    // The stores of the switch.
    method StoreBytes(w: bv32)
      requires Valid() && InBounds(opBits, memAddr, mem.mem.Length)
      modifies mem.mem
      ensures mem.mem[..] == Stored(opBits, memAddr, w, old(mem.mem[..]))
    {
      hide Byte0, Byte1, Byte2, Byte3;
      var b := mem.mem;
      var a := memAddr;
      ghost var m := b[..];
      assert InBounds(opBits, a, |m|);
      if opBits == 40 {
        b[a] := Byte0(w);
        assert b[..] == m[a := Byte0(w)];
      } else if opBits == 41 {
        b[a] := Byte0(w);
        b[a + 1] := Byte0(w);
        assert b[..] == m[a := Byte0(w)][a + 1 := Byte0(w)];
      } else if opBits == 43 {
        b[a + 0] := Byte0(w);
        b[a + 1] := Byte1(w);
        b[a + 2] := Byte2(w);
        b[a + 3] := Byte3(w);
        assert b[..] == m[a := Byte0(w)][a + 1 := Byte1(w)][a + 2 := Byte2(w)][a + 3 := Byte3(w)];
      }
      assert b[..] == Stored(opBits, a, w, m);
    }

    // The loads.
    method LoadBytes()
      requires Valid() && InBounds(opBits, memAddr, mem.mem.Length)
      modifies this`memData
      ensures memData == LoadedData(opBits, memAddr, mem.mem[..], old(memData))
    {
      var b := mem.mem;
      if opBits == 32 || opBits == 33 {
        memData := b[memAddr] as bv32;
      } else if opBits == 35 {
        memData := mem.ReadWord(memAddr);
      }
    }

    method WriteBack()
      requires Valid()
      modifies reg
      ensures Valid() && Proper(old(Value())) && Value() == WriteBackOf(old(Value()))
    {
      hide WrittenBack, InFile;
      WriteRegister();
    }

    method WriteRegister()
      requires Valid()
      modifies reg
      ensures reg[..] == WrittenBack(Latches(), alu, memData, old(reg[..]))
    {
      ghost var r := reg[..];
      if opBits == 0 {
        if func != 12 {
          reg[rd] := alu;
          assert reg[..] == r[rd := alu];
        }
      } else if opBits == 2 || opBits == 3 {
        return;
      } else if opBits == 40 || opBits == 41 || opBits == 43 {
        return;
      } else if opBits == 32 || opBits == 33 || opBits == 35 {
        reg[rt] := memData;
        assert reg[..] == r[rt := memData];
      } else {
        reg[rt] := alu;
        assert reg[..] == r[rt := alu];
      }
    }

    /** One cycle of the pipeline, when all its stages are defined. */
    method Tick()
      requires Valid() && Proper(Value()) && TickOf(Value()).Some?
      modifies this, reg, mem.mem
      ensures Valid() && Proper(old(Value())) && TickOf(old(Value())) == Some(Value())
    {
      hide FetchOf, DecodeOf, ExecuteOf, MemoryOf, WriteBackOf, DefinedR, CanFetch, InBounds;
      ghost var s := Value();
      FetchProper(s);
      Fetch();
      Decode();
      Execute();
      Memory();
      WriteBack();
    }

    // ---- Memory from outside ----

    /** An image that would run past the end of memory is ignored. */
    method WriteMem(data: seq<bv8>, offset: nat)
      requires Valid()
      modifies mem.mem
      ensures mem.mem[..] == WriteMemOf(old(mem.mem[..]), data, offset)
    {
      var b := mem.mem;
      ghost var m := b[..];
      if offset + |data| > SMIPS_MEM_SIZE {
        return;
      }
      var i := 0;
      while i < |data|
        invariant i <= |data|
        invariant forall j :: 0 <= j < b.Length ==> b[j] == if offset <= j < offset + i then data[j - offset] else m[j]
      {
        b[offset + i] := data[i];
        i := i + 1;
      }
    }

    method ReadMem(idx: nat) returns (byte: bv8)
      requires idx < mem.mem.Length
      ensures byte == mem.mem[idx]
    {
      byte := mem.mem[idx];
    }

    method ClearMem()
      requires Valid()
      modifies mem.mem
      ensures forall i :: 0 <= i < mem.mem.Length ==> mem.mem[i] == 0
    {
      mem.Clear();
    }

    /** Memory and the ALU register survive a reset. */
    method Reset()
      requires Valid()
      modifies this, reg
      ensures Valid() && Value() == CleanOf(old(Value()))
    {
      InitReg();
    }
  }

  lemma PcInRange(func: nat, x: bv32, pc: int)
    requires 0 <= pc < MODULUS
    ensures 0 <= PcOf(func, x, pc) < MODULUS
  {}

  // Which registers the R-instructions leave alone.
  lemma Unaffected(f: Fields, x: bv32, y: bv32, pc: int, hi: bv32, lo: bv32, alu: bv32)
    requires DefinedR(f.func, x, y)
    ensures AluOf(f, x, y, pc, hi, lo, alu) ==
      (if f.func == 8 || f.func == 17 || f.func == 19 || 24 <= f.func <= 27 then alu
       else if f.func == 9 then Word(pc + 8)
       else AluOf(f, x, y, pc, hi, lo, alu))
    ensures f.func != 17 && !(24 <= f.func <= 27) ==> HiOf(f.func, x, y, hi) == hi
    ensures f.func != 19 && !(24 <= f.func <= 27) ==> LoOf(f.func, x, y, lo) == lo
    ensures f.func == 17 ==> HiOf(f.func, x, y, hi) == x
    ensures f.func == 19 ==> LoOf(f.func, x, y, lo) == x
  {
    hide Word, Val, Signed, Product, TruncDiv, TruncRem, ShiftOf, LogicOf;
  }

  // Branches, stores and loads leave the ALU register alone.
  lemma NoImmediate(opBits: nat, x: bv32, v: bv32, alu: bv32)
    requires 4 <= opBits <= 7 || 32 <= opBits
    ensures AluImmOf(opBits, x, v, alu) == alu
  {}
}
