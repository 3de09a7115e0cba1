/**
 The two decoders read the same fields from a word, but for the masks of the emulator.
 */
module Agreement {
  import opened Words
  import opened Encoding
  import opened Cpu

  lemma SmallVal(x: bv32)
    requires x < 0x100
    ensures Val(x) == ByteVal(x as bv8)
  {}

  /** Opcode, function, rs, rt and the 16-bit immediate are the same numbers. */
  lemma FieldsAgree(w: bv32)
    ensures FieldOp(w) == Val(OpBits(w)) && FieldFunc(w) == Val(FuncBits(w))
    ensures FieldRs(w) == Val(BitsRs(w)) && FieldRt(w) == Val(BitsRt(w))
    ensures FieldImm(w) == BitsImm(w)
  {}

  /** The disassembler's target is the emulator's, scaled, with bit 24 of the word clear. */
  lemma TargetsAgree(w: bv32)
    ensures BitsTarget(w) == ByFour(FieldTarget(w & 0xFEFF_FFFF))
    ensures BitsTarget(w) == ByFour(FieldTarget(w)) <==> w & 0x0100_0000 == 0
  {}

  /** The emulator's rd is the encoded one with its lowest bit cleared: exact only for even registers. */
  lemma RdAgrees(w: bv32)
    ensures FieldRd(w) == Val(BitsRd(w) & 0x1E)
    ensures FieldRd(w) == Val(BitsRd(w)) <==> BitsRd(w) & 1 == 0
  {}

  /** The emulator's shift amount is the encoded one modulo 16: exact only below 16. */
  lemma ShamtAgrees(w: bv32)
    ensures FieldShamt(w) == BitsShamt(w) & 0xF
    ensures FieldShamt(w) == BitsShamt(w) <==> BitsShamt(w) < 16
  {}
}
