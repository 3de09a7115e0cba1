/**
 The emulator's memory: a byte array of fixed size, indexed in place, with big-endian readers.
 */
module DataCache {
  import opened Words

  /** The word whose most significant byte is at an index. */
  function WordAt(mem: seq<bv8>, i: nat): bv32
    requires i + 3 < |mem|
  {
    Join(mem[i], mem[i + 1], mem[i + 2], mem[i + 3])
  }

  function JoinHalf(b1: bv8, b0: bv8): bv16 { ((b1 as bv16) << 8) | (b0 as bv16) }

  /** The first byte of a half-word read is the more significant. */
  lemma HalfBytes(b1: bv8, b0: bv8)
    ensures (JoinHalf(b1, b0) >> 8) as bv8 == b1 && (JoinHalf(b1, b0) & 0xFF) as bv8 == b0
  {}

  class DataCache {
    const mem: array<bv8>

    /** Nothing is known of the bytes of a new cache. */
    constructor (size: nat)
      ensures fresh(mem) && mem.Length == size
    {
      mem := new bv8[size];
    }

    method Clear()
      modifies mem
      ensures forall i :: 0 <= i < mem.Length ==> mem[i] == 0
    {
      for i := 0 to mem.Length
        invariant forall j :: 0 <= j < i ==> mem[j] == 0
      {
        mem[i] := 0;
      }
    }

    method ReadHalf(i: nat) returns (h: bv16)
      requires i + 1 < mem.Length
      ensures h == JoinHalf(mem[i], mem[i + 1])
    {
      h := 0;
      h := h | ((mem[i + 0] as bv16) << 8);
      h := h | (mem[i + 1] as bv16);
    }

    method ReadWord(i: nat) returns (d: bv32)
      requires i + 3 < mem.Length
      ensures d == WordAt(mem[..], i)
      ensures Byte3(d) == mem[i] && Byte2(d) == mem[i + 1] && Byte1(d) == mem[i + 2] && Byte0(d) == mem[i + 3]
    {
      d := 0;
      d := d | ((mem[i + 0] as bv32) << 24);
      d := d | ((mem[i + 1] as bv32) << 16);
      d := d | ((mem[i + 2] as bv32) << 8);
      d := d | (mem[i + 3] as bv32);
    }
  }
}
