/**
 What runs of the emulator keep: loaded code is what is fetched, and memory and registers change
 only where an instruction writes them.
 */
module RunSafety {
  import opened Words
  import opened Source
  import opened Isa
  import opened Cpu
  import opened DataCache
  import Program

  // ---- Loading ----

  /** The image of a program after loading: each word sits at its place. */
  lemma WordLoaded(mem: seq<bv8>, p: seq<Program.Instr>, offset: nat, k: nat)
    requires |mem| == SMIPS_MEM_SIZE && offset + 4 * |p| <= SMIPS_MEM_SIZE && k < |p|
    ensures var m := WriteMemOf(mem, Program.ByteImage(p), offset);
      offset + 4 * k + 3 < |m| && WordAt(m, offset + 4 * k) == p[k].ins
  {}

  /** Loading changes exactly the bytes of the image; an image that does not fit changes nothing. */
  lemma LoadChanges(mem: seq<bv8>, p: seq<Program.Instr>, offset: nat, i: nat)
    requires |mem| == SMIPS_MEM_SIZE && i < SMIPS_MEM_SIZE
    ensures var m, b := WriteMemOf(mem, Program.ByteImage(p), offset), Program.ByteImage(p);
      |m| == |mem| &&
      m[i] == if offset + 4 * |p| <= SMIPS_MEM_SIZE && offset <= i < offset + 4 * |p| then b[i - offset] else mem[i]
  {}

  /** The fetch stage alone, `k` times. */
  function Fetched(s: Snapshot, k: nat): Option<Snapshot> {
    if k == 0 then Some(s)
    else
      match Fetched(s, k - 1)
      case None => None
      case Some(t) => if CanFetch(t) then Some(FetchOf(t)) else None
  }

  /** The words of a program lie in memory from an address on. */
  ghost predicate Lies(mem: seq<bv8>, pc: int, p: seq<Program.Instr>) {
    0 <= pc && pc + 4 * |p| <= |mem| && forall i :: 0 <= i < |p| ==> WordAt(mem, pc + 4 * i) == p[i].ins
  }

  lemma {:induction false} FetchesWords(s: Snapshot, p: seq<Program.Instr>, k: nat)
    requires Lies(s.mem, s.pc, p) && |s.mem| < MODULUS && k <= |p|
    ensures var r := Fetched(s, k);
      r.Some? && r.value.pc == s.pc + 4 * k && r.value.mem == s.mem && (k > 0 ==> r.value.instr == p[k - 1].ins)
  {
    hide WordAt, FetchOf;
    if k > 0 {
      FetchesWords(s, p, k - 1);
      FetchMoves(Fetched(s, k - 1).value);
    }
  }

  /** Fetching from the start of a loaded program: the k-th fetch gives its k-th word. */
  lemma FetchesProgram(s: Snapshot, mem: seq<bv8>, p: seq<Program.Instr>, k: nat)
    requires |mem| == SMIPS_MEM_SIZE && 0 <= s.pc && s.pc + 4 * |p| <= SMIPS_MEM_SIZE && k <= |p|
    requires s.mem == WriteMemOf(mem, Program.ByteImage(p), s.pc)
    ensures var r := Fetched(s, k);
      r.Some? && r.value.pc == s.pc + 4 * k && r.value.mem == s.mem && (k > 0 ==> r.value.instr == p[k - 1].ins)
  {
    hide WriteMemOf, WordAt, Program.ByteImage, Fetched;
    forall i | 0 <= i < |p|
      ensures s.pc + 4 * i + 3 < |s.mem| && WordAt(s.mem, s.pc + 4 * i) == p[i].ins
    {
      WordLoaded(mem, p, s.pc, i);
    }
    FetchesWords(s, p, k);
  }

  lemma FetchMoves(t: Snapshot)
    requires CanFetch(t) && t.pc + 4 < MODULUS
    ensures FetchOf(t).pc == t.pc + 4 && FetchOf(t).mem == t.mem && FetchOf(t).instr == WordAt(t.mem, t.pc)
  {}

  // ---- One tick ----

  /** The register an instruction that is not a jump writes. */
  function Destination(f: Fields): nat { if f.opBits == 0 then f.rd else f.rt }

  lemma ExecuteKeeps(d: Snapshot)
    requires Proper(d) && Defined(d)
    ensures var e := ExecuteOf(d);
      |e.reg| == 32 && e.mem == d.mem && e.f == d.f && e.instr == d.instr &&
      forall i :: 0 <= i < 32 && !(i == REG_RETURN && d.f.opBits == 3) ==> e.reg[i] == d.reg[i]
  {
    hide ExecuteR, ExecuteI, DefinedR, InFile, Word;
    if d.f.opBits == 0 {
      RegistersKept(d);
    } else if !IsJump(d.f.opBits) {
      ImmediatesKept(d);
    }
  }

  lemma RegistersKept(d: Snapshot)
    requires Proper(d) && d.f.opBits == 0 && Defined(d)
    ensures var e := ExecuteR(d); e.reg == d.reg && e.mem == d.mem && e.f == d.f && e.instr == d.instr
  {}

  lemma ImmediatesKept(d: Snapshot)
    requires Proper(d)
    ensures var e := ExecuteI(d); e.reg == d.reg && e.mem == d.mem && e.f == d.f && e.instr == d.instr
  {}

  lemma RetireKeeps(e: Snapshot)
    requires Proper(e) && Retire(e).Some?
    ensures var t := Retire(e).value;
      t.f == e.f && t.instr == e.instr && t.memAddr == e.memAddr && |t.reg| == 32 && |t.mem| == |e.mem| &&
      (forall i :: 0 <= i < 32 && i != Destination(e.f) ==> t.reg[i] == e.reg[i]) &&
      (forall i :: 0 <= i < |e.mem| && t.mem[i] != e.mem[i] ==>
        IsStore(e.f.opBits) && e.memAddr <= i < e.memAddr + Width(e.f.opBits))
  {}

  /** A tick changes memory only if it is a store, and then only the bytes at its address. */
  lemma TickMemory(s: Snapshot, i: nat)
    requires Proper(s) && TickOf(s).Some? && i < |s.mem|
    ensures var t := TickOf(s).value;
      |t.mem| == |s.mem| &&
      (t.mem[i] != s.mem[i] ==> IsStore(t.f.opBits) && t.memAddr <= i < t.memAddr + Width(t.f.opBits))
  {
    hide ExecuteOf, Retire, Defined, CanFetch, Latched, IsStore, Width;
    var d := Latched(s);
    ExecuteKeeps(d);
    ExecuteProper(d);
    RetireKeeps(ExecuteOf(d));
  }

  /** A tick writes at most its destination register, and a jump-and-link the return address. */
  lemma TickRegisters(s: Snapshot, i: nat)
    requires Proper(s) && TickOf(s).Some? && i < 32
    ensures var t := TickOf(s).value;
      |t.reg| == 32 &&
      (i != Destination(t.f) && !(i == REG_RETURN && t.f.opBits == 3) ==> t.reg[i] == s.reg[i])
  {
    hide ExecuteOf, Retire, Defined, CanFetch, Latched, Destination;
    var d := Latched(s);
    ExecuteKeeps(d);
    ExecuteProper(d);
    RetireKeeps(ExecuteOf(d));
  }

  /** What a tick leaves in the instruction register is the word at its program counter. */
  lemma TickFetches(s: Snapshot)
    requires Proper(s) && TickOf(s).Some?
    ensures CanFetch(s) && TickOf(s).value.instr == WordAt(s.mem, s.pc)
  {
    hide ExecuteOf, Retire, Defined, WordAt, FieldsOf;
    var d := Latched(s);
    ExecuteKeeps(d);
    ExecuteProper(d);
    RetireKeeps(ExecuteOf(d));
  }

  // ---- Runs ----

  lemma {:induction false} TicksSnoc(s: Snapshot, n: nat)
    requires Proper(s)
    ensures Ticks(s, n + 1) == match Ticks(s, n) case None => None case Some(t) => TickOf(t)
    decreases n
  {
    hide TickOf;
    if n > 0 && TickOf(s).Some? {
      TickProper(s);
      TicksSnoc(TickOf(s).value, n - 1);
    } else if TickOf(s).Some? {
      TickProper(s);
      assert Ticks(TickOf(s).value, 0) == TickOf(s);
    }
  }

  lemma {:induction false} TicksPrefix(s: Snapshot, n: nat, j: nat)
    requires Proper(s) && Ticks(s, n).Some? && j <= n
    ensures Ticks(s, j).Some?
    decreases n
  {
    hide TickOf;
    if j < n {
      TicksSnoc(s, n - 1);
      TicksPrefix(s, n - 1, j);
    }
  }

  /** The state after `j` ticks of a run. */
  function After(s: Snapshot, j: nat): Snapshot
    requires Proper(s) && Ticks(s, j).Some?
  {
    Ticks(s, j).value
  }

  /** Tick `j` of a run is a store. */
  ghost predicate StoreTick(s: Snapshot, j: nat)
    requires Proper(s)
  {
    Ticks(s, j + 1).Some? && IsStore(After(s, j + 1).f.opBits)
  }

  /** Tick `j` of a run is a store that covers byte `i`. */
  ghost predicate StoresByte(s: Snapshot, j: nat, i: int)
    requires Proper(s)
  {
    StoreTick(s, j) && var t := After(s, j + 1); t.memAddr <= i < t.memAddr + Width(t.f.opBits)
  }

  /** Over a run of any length, a byte of memory that differs was written by a store of the run at its address. */
  lemma {:induction false} RunMemory(s: Snapshot, n: nat, i: nat) returns (j: nat)
    requires Proper(s) && Ticks(s, n).Some? && i < |s.mem| && After(s, n).mem[i] != s.mem[i]
    ensures j < n && StoresByte(s, j, i)
    decreases n
  {
    hide TickOf, IsStore, Width;
    assert n > 0;
    TicksSnoc(s, n - 1);
    TicksPrefix(s, n, n - 1);
    var t := After(s, n - 1);
    if t.mem[i] != s.mem[i] {
      j := RunMemory(s, n - 1, i);
    } else {
      TickMemory(t, i);
      j := n - 1;
    }
  }

  ghost predicate NoStores(s: Snapshot, n: nat)
    requires Proper(s)
  {
    forall j :: 0 <= j < n ==> !StoreTick(s, j)
  }

  /**
   A run without stores leaves memory alone, and every tick of it fetches the word originally at its program
   counter.
   */
  lemma CodeStays(s: Snapshot, n: nat, j: nat)
    requires Proper(s) && Ticks(s, n).Some? && NoStores(s, n) && j < n
    ensures After(s, n).mem == s.mem
    ensures Ticks(s, j).Some? && Ticks(s, j + 1).Some? && CanFetch(After(s, j)) && After(s, j).mem == s.mem
    ensures After(s, j + 1).instr == WordAt(s.mem, After(s, j).pc)
  {
    hide TickOf, IsStore, Ticks, CanFetch, WordAt;
    TicksPrefix(s, n, j);
    TicksPrefix(s, n, j + 1);
    TicksSnoc(s, j);
    MemoryStays(s, n, n);
    MemoryStays(s, n, j);
    TickFetches(After(s, j));
  }

  lemma MemoryStays(s: Snapshot, n: nat, j: nat)
    requires Proper(s) && Ticks(s, n).Some? && NoStores(s, n) && j <= n
    ensures Ticks(s, j).Some? && After(s, j).mem == s.mem
  {
    hide TickOf, IsStore, Ticks;
    TicksPrefix(s, n, j);
    forall i | 0 <= i < |s.mem|
      ensures After(s, j).mem[i] == s.mem[i]
    {
      if After(s, j).mem[i] != s.mem[i] {
        var k := RunMemory(s, j, i);
      }
    }
  }
}
