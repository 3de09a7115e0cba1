/**
 The binary program: instructions with their addresses and data segments, its image as a byte
 vector, and its file as a sequence of words.
 */
module Program {
  import opened Words
  import opened Layout

  datatype Instr = Instr(adr: int, ins: bv32)

  const NULL_INSTR := Instr(0, 0)

  datatype DataSeg = DataSeg(adr: int, data: seq<bv8>)

  // ---- The byte image ----

  /** Every word most significant byte first. */
  function ByteImage(p: seq<Instr>): (b: seq<bv8>)
    ensures |b| == 4 * |p|
  {
    if p == [] then []
    else
      var w := p[|p| - 1].ins;
      ByteImage(p[..|p| - 1]) + [Byte3(w), Byte2(w), Byte1(w), Byte0(w)]
  }

  lemma ByteImageEmpty()
    ensures ByteImage([]) == []
  {}

  lemma ByteImageStep(p: seq<Instr>, k: nat)
    requires k < |p|
    ensures var w := p[k].ins; ByteImage(p[..k + 1]) == ByteImage(p[..k]) + [Byte3(w), Byte2(w), Byte1(w), Byte0(w)]
  {
    hide Byte3, Byte2, Byte1, Byte0;
    assert p[..k + 1][..k] == p[..k];
  }

  /** The four bytes at the place of an instruction join to its word. */
  lemma {:induction false} ByteImageAt(p: seq<Instr>, k: nat)
    requires k < |p|
    ensures var b := ByteImage(p); Join(b[4 * k], b[4 * k + 1], b[4 * k + 2], b[4 * k + 3]) == p[k].ins
  {
    hide Join, Byte3, Byte2, Byte1, Byte0;
    if k == |p| - 1 {
      JoinBytes(p[k].ins);
    } else {
      ByteImageAt(p[..|p| - 1], k);
    }
  }

  // ---- The file ----

  /** What save writes: the number of instructions, the first address, and the words. */
  function FileOf(p: seq<Instr>): (f: seq<bv32>)
    requires p != []
    ensures |f| == |p| + 2
  {
    [Word(|p|), Word(p[0].adr)] + seq(|p|, i requires 0 <= i < |p| => p[i].ins)
  }

  /** A file is the number of instructions, the first address, and the instructions in order. */
  lemma FileLayout(p: seq<Instr>)
    requires p != [] && |p| < MODULUS && 0 <= p[0].adr < MODULUS
    ensures var f := FileOf(p);
      |f| == |p| + 2 && Val(f[0]) == |p| && Val(f[1]) == p[0].adr && forall i :: 0 <= i < |p| ==> f[i + 2] == p[i].ins
  {
    hide Val, Word;
    ValOfWord(|p|);
    ValOfWord(p[0].adr);
  }

  /** What reading the `k`-th word gives: past the end the record keeps the last one read, and zero before any. */
  function FileWord(f: seq<bv32>, k: nat): bv32 { if k < |f| then f[k] else if |f| > 2 then f[|f| - 1] else 0 }

  /** The instructions load makes of `n` words from the `k`-th on, numbering addresses from `a`. */
  function Loaded(f: seq<bv32>, k: nat, n: nat, a: int): (p: seq<Instr>)
    ensures |p| == n
    ensures forall i :: 0 <= i < n ==> p[i].ins == FileWord(f, k + i)
    decreases n
  {
    if n == 0 then [] else [Instr(a, FileWord(f, k))] + Loaded(f, k + 1, n - 1, Bump(a, 4))
  }

  lemma {:induction false} LoadedAddrs(f: seq<bv32>, k: nat, n: nat, a: int, i: nat)
    requires i < n && 0 <= a < MODULUS
    ensures Loaded(f, k, n, a)[i].adr == Bump(a, 4 * i)
    decreases n
  {
    if i == 0 {
      BumpZero(a);
    } else {
      hide Bump;
      LoadedAddrs(f, k + 1, n - 1, Bump(a, 4), i - 1);
      BumpBump(a, 4, 4 * (i - 1));
    }
  }

  lemma {:induction false} LoadedSnoc(f: seq<bv32>, k: nat, n: nat, a: int)
    requires 0 <= a < MODULUS
    ensures Loaded(f, k, n + 1, a) == Loaded(f, k, n, a) + [Instr(Bump(a, 4 * n), FileWord(f, k + n))]
    decreases n
  {
    BumpZero(a);
    if n > 0 {
      hide Bump;
      LoadedSnoc(f, k + 1, n - 1, Bump(a, 4));
      BumpBump(a, 4, 4 * (n - 1));
    }
  }

  /** A whole saved program is in the file. */
  predicate CompleteFile(f: seq<bv32>) { |f| >= 2 && Val(f[0]) + 2 <= |f| }

  /**
   A file with fewer words than its count repeats the last one. One without a header leaves the count
   or the first address as they were, and C++ leaves those two variables uninitialised.
   */
  function LoadFile(f: seq<bv32>, count: bv32, first: bv32): seq<Instr> {
    Loaded(f, 2, Val(if |f| > 0 then f[0] else count), Val(if |f| > 1 then f[1] else first))
  }

  /** Consecutive addresses, as load numbers them. */
  predicate Contiguous(p: seq<Instr>) {
    forall i :: 0 <= i < |p| ==> p[i].adr == Bump(p[0].adr, 4 * i)
  }

  /** Loading a saved program restores its instructions exactly when their addresses are contiguous. */
  lemma SaveLoad(p: seq<Instr>, count: bv32, first: bv32)
    requires p != [] && |p| < MODULUS && 0 <= p[0].adr < MODULUS
    ensures CompleteFile(FileOf(p))
    ensures LoadFile(FileOf(p), count, first) == p <==> Contiguous(p)
  {
    hide Bump, Word, Val, Loaded;
    var f, n, a := FileOf(p), |p|, p[0].adr;
    ValOfWord(n);
    ValOfWord(a);
    forall i | 0 <= i < n
      ensures Loaded(f, 2, n, a)[i] == Instr(Bump(a, 4 * i), p[i].ins)
    {
      LoadedAddrs(f, 2, n, a, i);
    }
    if Contiguous(p) {
      assert forall i :: 0 <= i < n ==> Loaded(f, 2, n, a)[i] == p[i];
    }
  }

  class Program {
    var instructions: seq<Instr>
    var dataSegments: seq<DataSeg>

    constructor ()
      ensures instructions == [] && dataSegments == []
    {
      instructions, dataSegments := [], [];
    }

    method Init()
      modifies this
      ensures instructions == [] && dataSegments == []
    {
      instructions, dataSegments := [], [];
    }

    method Add(i: Instr)
      modifies this`instructions
      ensures instructions == old(instructions) + [i]
    {
      instructions := instructions + [i];
    }

    method AddData(d: DataSeg)
      modifies this`dataSegments
      ensures dataSegments == old(dataSegments) + [d]
    {
      dataSegments := dataSegments + [d];
    }

    /** Out-of-range indices give the null instruction. */
    method GetInstr(idx: nat) returns (i: Instr)
      ensures i == if idx < |instructions| then instructions[idx] else NULL_INSTR
      ensures idx >= |instructions| ==> i.ins == 0 && i.adr == 0
    {
      i := if idx < |instructions| then instructions[idx] else NULL_INSTR;
    }

    method ToVec() returns (prog: seq<bv8>)
      ensures prog == ByteImage(instructions)
    {
      hide ByteImage;
      ByteImageEmpty();
      prog := [];
      var i := 0;
      while i < |instructions|
        invariant i <= |instructions| && prog == ByteImage(instructions[..i])
      {
        var w := instructions[i].ins;
        ghost var before := prog;
        prog := prog + [((w & 0xFF00_0000) >> 24) as bv8];
        prog := prog + [((w & 0x00FF_0000) >> 16) as bv8];
        prog := prog + [((w & 0x0000_FF00) >> 8) as bv8];
        prog := prog + [(w & 0x0000_00FF) as bv8];
        assert prog == before + [Byte3(w), Byte2(w), Byte1(w), Byte0(w)];
        ByteImageStep(instructions, i);
        i := i + 1;
      }
      assert instructions[..i] == instructions;
    }

    /** Saving reads the first instruction, so there has to be one. */
    method Save() returns (file: seq<bv32>)
      requires instructions != []
      ensures file == FileOf(instructions)
    {
      hide Word;
      file := [Word(|instructions|)];
      file := file + [Word(instructions[0].adr)];
      var idx := 0;
      ghost var all := FileOf(instructions);
      while idx < |instructions|
        invariant idx <= |instructions| && file == all[..idx + 2]
      {
        file := file + [instructions[idx].ins];
        idx := idx + 1;
      }
      assert all[..idx + 2] == all;
    }

    /** `count` and `first` are what the two uninitialised variables hold before the header is read. */
    method Load(file: seq<bv32>, count: bv32, first: bv32)
      modifies this`instructions
      ensures instructions == LoadFile(file, count, first)
    {
      hide Val, Bump;
      instructions := [];
      var numRecords, addr := Val(count), Val(first);
      if |file| > 0 {
        numRecords := Val(file[0]);
      }
      if |file| > 1 {
        addr := Val(file[1]);
      }
      ghost var start := addr;
      BumpZero(addr);
      var ins: bv32 := 0;
      var idx := 0;
      while idx < numRecords
        invariant idx <= numRecords && addr == Bump(start, 4 * idx)
        invariant instructions == Loaded(file, 2, idx, start)
        invariant ins == if idx == 0 then 0 else FileWord(file, idx + 1)
      {
        LoadedSnoc(file, 2, idx, start);
        BumpBump(start, 4 * idx, 4);
        if 2 + idx < |file| {
          ins := file[2 + idx];
        }
        instructions := instructions + [Instr(addr, ins)];
        addr := Bump(addr, 4);
        idx := idx + 1;
      }
    }
  }
}
