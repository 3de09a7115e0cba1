/**
 Machine words: 32-bit vectors, their unsigned and signed readings as integers,
 and the word-granular address arithmetic the lexer and the emulator share.
 Conversions go byte by byte, so the solver never converts a whole word at once.
 */
module Words {

  const MODULUS := 0x1_0000_0000

  // The bytes of a word, most significant first.
  function Byte3(w: bv32): bv8 { ((w & 0xFF00_0000) >> 24) as bv8 }
  function Byte2(w: bv32): bv8 { ((w & 0x00FF_0000) >> 16) as bv8 }
  function Byte1(w: bv32): bv8 { ((w & 0x0000_FF00) >> 8) as bv8 }
  function Byte0(w: bv32): bv8 { (w & 0x0000_00FF) as bv8 }

  /** The word whose bytes, most significant first, are given: four shifted bytes OR-ed together. */
  function Join(b3: bv8, b2: bv8, b1: bv8, b0: bv8): (w: bv32)
    ensures Byte3(w) == b3 && Byte2(w) == b2 && Byte1(w) == b1 && Byte0(w) == b0
  {
    ((b3 as bv32) << 24) | ((b2 as bv32) << 16) | ((b1 as bv32) << 8) | (b0 as bv32)
  }

  lemma JoinBytes(w: bv32)
    ensures Join(Byte3(w), Byte2(w), Byte1(w), Byte0(w)) == w
  {}

  // Bytes read as integers, by counting: the solver sees no conversion outside ByteIsInt.
  function ByteVal(b: bv8): nat { if b == 0 then 0 else ByteVal(b - 1) + 1 }

  function ByteOf(n: nat): bv8 { if n == 0 then 0 else ByteOf(n - 1) + 1 }

  lemma {:induction false} ByteIsInt(b: bv8)
    ensures ByteVal(b) == b as int < 0x100
  {
    if b != 0 { ByteIsInt(b - 1); }
  }

  lemma ByteBound(b: bv8)
    ensures ByteVal(b) < 0x100
  {
    ByteIsInt(b);
  }

  lemma {:induction false} ByteRoundTrip(n: nat)
    requires n < 0x100
    ensures ByteVal(ByteOf(n)) == n
  {
    if n != 0 {
      ByteRoundTrip(n - 1);
      ByteIsInt(ByteOf(n - 1));
      assert ByteOf(n) != 0;
    }
  }

  lemma ByteOrder(a: bv8, b: bv8)
    ensures a < b <==> ByteVal(a) < ByteVal(b)
    ensures a == b <==> ByteVal(a) == ByteVal(b)
  {}

  /** The unsigned reading of a word. */
  function Val(w: bv32): (n: nat)
    ensures n < MODULUS
  {
    ByteBound(Byte3(w)); ByteBound(Byte2(w)); ByteBound(Byte1(w)); ByteBound(Byte0(w));
    ByteVal(Byte3(w)) * 0x100_0000 + ByteVal(Byte2(w)) * 0x1_0000 + ByteVal(Byte1(w)) * 0x100 + ByteVal(Byte0(w))
  }

  /** The low 32 bits of an integer in two's complement, as the conversion to uint32_t gives them. */
  function Word(x: int): bv32 {
    var q1 := x / 0x100;
    var q2 := q1 / 0x100;
    var q3 := q2 / 0x100;
    Join(ByteOf(q3 % 0x100), ByteOf(q2 % 0x100), ByteOf(q1 % 0x100), ByteOf(x % 0x100))
  }

  lemma ValOfWord(x: int)
    ensures Val(Word(x)) == x % MODULUS
  {
    var q1 := x / 0x100;
    var q2 := q1 / 0x100;
    var q3 := q2 / 0x100;
    ByteRoundTrip(q3 % 0x100);
    ByteRoundTrip(q2 % 0x100);
    ByteRoundTrip(q1 % 0x100);
    ByteRoundTrip(x % 0x100);
    var q4 := q3 / 0x100;
    RemainderIs(x, q4, Val(Word(x)));
  }

  lemma RemainderIs(x: int, q: int, r: nat)
    requires r < MODULUS && x == MODULUS * q + r
    ensures x % MODULUS == r
  {}

  // The first byte in which two words differ, from the top, decides their order.
  lemma Byte3Decides(a: bv32, b: bv32)
    requires Byte3(a) < Byte3(b)
    ensures a < b
  {}

  lemma Byte2Decides(a: bv32, b: bv32)
    requires Byte3(a) == Byte3(b) && Byte2(a) < Byte2(b)
    ensures a < b
  {}

  lemma Byte1Decides(a: bv32, b: bv32)
    requires Byte3(a) == Byte3(b) && Byte2(a) == Byte2(b) && Byte1(a) < Byte1(b)
    ensures a < b
  {}

  lemma Byte0Decides(a: bv32, b: bv32)
    requires Byte3(a) == Byte3(b) && Byte2(a) == Byte2(b) && Byte1(a) == Byte1(b) && Byte0(a) < Byte0(b)
    ensures a < b
  {}

  lemma DigitsDecide(a3: nat, a2: nat, a1: nat, a0: nat, b3: nat, b2: nat, b1: nat, b0: nat)
    requires a3 < 0x100 && a2 < 0x100 && a1 < 0x100 && a0 < 0x100
    requires b3 < 0x100 && b2 < 0x100 && b1 < 0x100 && b0 < 0x100
    requires a3 * 0x100_0000 + a2 * 0x1_0000 + a1 * 0x100 + a0 < b3 * 0x100_0000 + b2 * 0x1_0000 + b1 * 0x100 + b0
    ensures a3 < b3 || (a3 == b3 && (a2 < b2 || (a2 == b2 && (a1 < b1 || (a1 == b1 && a0 < b0)))))
  {}

  lemma ValLess(a: bv32, b: bv32)
    requires Val(a) < Val(b)
    ensures a < b
  {
    ByteBound(Byte3(a)); ByteBound(Byte2(a)); ByteBound(Byte1(a)); ByteBound(Byte0(a));
    ByteBound(Byte3(b)); ByteBound(Byte2(b)); ByteBound(Byte1(b)); ByteBound(Byte0(b));
    DigitsDecide(ByteVal(Byte3(a)), ByteVal(Byte2(a)), ByteVal(Byte1(a)), ByteVal(Byte0(a)),
                 ByteVal(Byte3(b)), ByteVal(Byte2(b)), ByteVal(Byte1(b)), ByteVal(Byte0(b)));
    ByteOrder(Byte3(a), Byte3(b));
    ByteOrder(Byte2(a), Byte2(b));
    ByteOrder(Byte1(a), Byte1(b));
    ByteOrder(Byte0(a), Byte0(b));
    if Byte3(a) != Byte3(b) {
      Byte3Decides(a, b);
    } else if Byte2(a) != Byte2(b) {
      Byte2Decides(a, b);
    } else if Byte1(a) != Byte1(b) {
      Byte1Decides(a, b);
    } else {
      Byte0Decides(a, b);
    }
  }

  lemma DigitsEqual(a3: nat, a2: nat, a1: nat, a0: nat, b3: nat, b2: nat, b1: nat, b0: nat)
    requires a3 < 0x100 && a2 < 0x100 && a1 < 0x100 && a0 < 0x100
    requires b3 < 0x100 && b2 < 0x100 && b1 < 0x100 && b0 < 0x100
    requires a3 * 0x100_0000 + a2 * 0x1_0000 + a1 * 0x100 + a0 == b3 * 0x100_0000 + b2 * 0x1_0000 + b1 * 0x100 + b0
    ensures a3 == b3 && a2 == b2 && a1 == b1 && a0 == b0
  {}

  lemma ValInjective(a: bv32, b: bv32)
    requires Val(a) == Val(b)
    ensures a == b
  {
    hide ByteVal, Byte3, Byte2, Byte1, Byte0, Join;
    ByteBound(Byte3(a)); ByteBound(Byte2(a)); ByteBound(Byte1(a)); ByteBound(Byte0(a));
    ByteBound(Byte3(b)); ByteBound(Byte2(b)); ByteBound(Byte1(b)); ByteBound(Byte0(b));
    DigitsEqual(ByteVal(Byte3(a)), ByteVal(Byte2(a)), ByteVal(Byte1(a)), ByteVal(Byte0(a)),
                ByteVal(Byte3(b)), ByteVal(Byte2(b)), ByteVal(Byte1(b)), ByteVal(Byte0(b)));
    ByteOrder(Byte3(a), Byte3(b));
    ByteOrder(Byte2(a), Byte2(b));
    ByteOrder(Byte1(a), Byte1(b));
    ByteOrder(Byte0(a), Byte0(b));
    JoinBytes(a);
    JoinBytes(b);
  }

  lemma ValOrder(a: bv32, b: bv32)
    ensures a < b <==> Val(a) < Val(b)
    ensures a == b <==> Val(a) == Val(b)
  {
    if Val(a) < Val(b) {
      ValLess(a, b);
    } else if Val(b) < Val(a) {
      ValLess(b, a);
    } else {
      ValInjective(a, b);
    }
  }

  lemma WordOfVal(w: bv32)
    ensures Word(Val(w)) == w
  {
    hide Val, Word;
    ValOfWord(Val(w));
    ValInjective(Word(Val(w)), w);
  }

  // ---- Signed reading ----

  function Signed(w: bv32): (x: int)
    ensures -0x8000_0000 <= x < 0x8000_0000
  {
    if Val(w) < 0x8000_0000 then Val(w) else Val(w) - MODULUS
  }

  /** The comparison `a < b` on int32_t. */
  predicate SignedLess(a: bv32, b: bv32) { (a ^ 0x8000_0000) < (b ^ 0x8000_0000) }

  lemma SignBit(w: bv32)
    ensures Val(w) < 0x8000_0000 <==> w < 0x8000_0000
  {
    ByteOrder(Byte3(w), 0x80);
    ByteIsInt(0x80);
    ByteBound(Byte2(w)); ByteBound(Byte1(w)); ByteBound(Byte0(w));
  }

  lemma SignedOrder(a: bv32, b: bv32)
    ensures SignedLess(a, b) <==> Signed(a) < Signed(b)
  {
    SignBit(a);
    SignBit(b);
    ValOrder(a, b);
  }

  lemma SignedOfWord(x: int)
    requires -0x8000_0000 <= x < 0x8000_0000
    ensures Signed(Word(x)) == x
  {
    ValOfWord(x);
    RemainderIs(x, if x < 0 then -1 else 0, if x < 0 then x + MODULUS else x);
  }

  lemma ValZero()
    ensures Val(0) == 0
  {}

  lemma NonZero(w: bv32)
    requires w != 0
    ensures Val(w) != 0 && Signed(w) != 0
  {}

  // ---- Bit operations by name ----

  function BitAnd(x: bv32, y: bv32): bv32 { x & y }

  function BitOr(x: bv32, y: bv32): bv32 { x | y }

  function BitXor(x: bv32, y: bv32): bv32 { x ^ y }

  function Sum(x: bv32, y: bv32): bv32 { x + y }

  function Difference(x: bv32, y: bv32): bv32 { x - y }

  predicate Less(x: bv32, y: bv32) { x < y }

  function LowHalf(v: bv32): bv32 { v & 0xFFFF }

  function ShiftHalf(v: bv32): bv32 { v << 16 }

  // ---- Fields ----

  /** Sign extension of the low 16 bits. */
  function SignExt16(v: bv32): bv32 { if v & 0x8000 != 0 then v | 0xFFFF_0000 else v & 0xFFFF }

  lemma ByteLow5(b: bv8)
    ensures ByteVal(b & 0x1F) == ByteVal(b) % 32
  {
    ByteIsInt(b);
    ByteIsInt(b & 0x1F);
    Low5AsInt(b);
  }

  lemma Low5AsInt(b: bv8)
    ensures (b & 0x1F) as int == (b as int) % 32
  {}

  /** Masking with 0x1F is the remainder by 32. */
  lemma Low5(x: int)
    ensures ByteVal((Word(x) & 0x1F) as bv8) == x % 32
  {
    ByteRoundTrip(x % 0x100);
    ByteLow5(ByteOf(x % 0x100));
    Low5Bytes(Word(x));
    RemainderOfRemainder(x);
  }

  lemma RemainderOfRemainder(x: int)
    ensures x % 0x100 % 32 == x % 32
  {}

  lemma Low5Val(w: bv32)
    ensures Val(w & 0x1F) == ByteVal((w & 0x1F) as bv8)
  {}

  lemma Low5Bytes(w: bv32)
    ensures (w & 0x1F) as bv8 == Byte0(w) & 0x1F
    ensures Byte3(w & 0x1F) == 0 && Byte2(w & 0x1F) == 0 && Byte1(w & 0x1F) == 0 && Byte0(w & 0x1F) == Byte0(w) & 0x1F
  {}

  lemma HalfDigits(x: int)
    ensures x % 0x1_0000 % 0x100 == x % 0x100
    ensures x % 0x1_0000 / 0x100 % 0x100 == x / 0x100 % 0x100
    ensures x % 0x1_0000 / 0x100 / 0x100 == 0
    ensures x / 0x1_0000 == x / 0x100 / 0x100
  {}

  /** Masking with 0xFFFF is the remainder by 65536. */
  lemma Low16(x: int)
    ensures Word(x) & 0xFFFF == Word(x % 0x1_0000)
    ensures Val(Word(x) & 0xFFFF) == x % 0x1_0000
  {
    HalfDigits(x);
    Low16Bytes(Word(x));
    JoinBytes(Word(x) & 0xFFFF);
    ValOfWord(x % 0x1_0000);
  }

  lemma Low16Bytes(w: bv32)
    ensures Byte3(w & 0xFFFF) == 0 && Byte2(w & 0xFFFF) == 0
    ensures Byte1(w & 0xFFFF) == Byte1(w) && Byte0(w & 0xFFFF) == Byte0(w)
  {}

  /** A word is its upper half shifted up, OR-ed with its lower half. */
  lemma Halves(x: int)
    ensures ((Word(x / 0x1_0000) & 0xFFFF) << 16) | (Word(x % 0x1_0000) & 0xFFFF) == Word(x)
  {
    HalfDigits(x);
    var h, l := Word(x / 0x1_0000), Word(x % 0x1_0000);
    HalvesBytes(h, l);
    JoinBytes(((h & 0xFFFF) << 16) | (l & 0xFFFF));
  }

  lemma HalvesBytes(h: bv32, l: bv32)
    ensures var w := ((h & 0xFFFF) << 16) | (l & 0xFFFF);
      Byte3(w) == Byte1(h) && Byte2(w) == Byte0(h) && Byte1(w) == Byte1(l) && Byte0(w) == Byte0(l)
  {}
}
