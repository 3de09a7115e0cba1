/**
 What the operations on words compute, in terms of the numbers they hold: sums and differences modulo
 2^32, shifts as multiplication and division by powers of two, and logic bit by bit.
 */
module Arithmetic {
  import opened Words
  import opened Isa
  import opened Cpu

  function Pow2(k: nat): (p: nat)
    ensures p > 0
  {
    if k == 0 then 1 else 2 * Pow2(k - 1)
  }

  /** The `i`-th binary digit of a number. */
  predicate Bit(n: nat, i: nat) { if i == 0 then n % 2 == 1 else Bit(n / 2, i - 1) }

  // The steps of the proofs, by name.
  function Half(w: bv32): bv32 { w >> 1 }

  function Lowest(w: bv32): bv32 { w & 1 }

  function Left(w: bv32, k: bv6): bv32
    requires k < 32
  {
    w << k
  }

  function Right(w: bv32, k: bv6): bv32
    requires k < 32
  {
    w >> k
  }

  // ---- Sums ----

  lemma ByteUp(b: bv8)
    requires b != 0xFF
    ensures ByteVal(b + 1) == ByteVal(b) + 1
  {}

  lemma TopByte()
    ensures ByteVal(0xFF) == 0xFF && ByteVal(0) == 0
  {
    hide ByteVal;
    ByteIsInt(0xFF);
    ByteIsInt(0);
  }

  // The bytes of a word one greater: the lowest that is not 0xFF counts up, and those below it start again.
  lemma Up0(w: bv32)
    requires Byte0(w) != 0xFF
    ensures var u := w + 1;
      Byte3(u) == Byte3(w) && Byte2(u) == Byte2(w) && Byte1(u) == Byte1(w) && Byte0(u) == Byte0(w) + 1
  {}

  lemma Up1(w: bv32)
    requires Byte0(w) == 0xFF && Byte1(w) != 0xFF
    ensures var u := w + 1; Byte3(u) == Byte3(w) && Byte2(u) == Byte2(w) && Byte1(u) == Byte1(w) + 1 && Byte0(u) == 0
  {}

  lemma Up2(w: bv32)
    requires Byte0(w) == 0xFF && Byte1(w) == 0xFF && Byte2(w) != 0xFF
    ensures var u := w + 1; Byte3(u) == Byte3(w) && Byte2(u) == Byte2(w) + 1 && Byte1(u) == 0 && Byte0(u) == 0
  {}

  lemma Up3(w: bv32)
    requires Byte0(w) == 0xFF && Byte1(w) == 0xFF && Byte2(w) == 0xFF && Byte3(w) != 0xFF
    ensures var u := w + 1; Byte3(u) == Byte3(w) + 1 && Byte2(u) == 0 && Byte1(u) == 0 && Byte0(u) == 0
  {}

  lemma UpLast(w: bv32)
    requires Byte0(w) == 0xFF && Byte1(w) == 0xFF && Byte2(w) == 0xFF && Byte3(w) == 0xFF
    ensures w + 1 == 0
  {}

  lemma UpVal(w: bv32)
    ensures Val(w + 1) == (Val(w) + 1) % MODULUS
  {
    hide Val;
    if w + 1 == 0 {
      UpWraps(w);
    } else {
      UpCounts(w);
    }
  }

  lemma UpWraps(w: bv32)
    requires w + 1 == 0
    ensures Val(w) == MODULUS - 1 && Val(w + 1) == 0
  {
    hide ByteVal, Byte0, Byte1, Byte2, Byte3;
    AllOnes(w);
    TopByte();
    ValZero();
  }

  lemma AllOnes(w: bv32)
    requires w + 1 == 0
    ensures Byte0(w) == 0xFF && Byte1(w) == 0xFF && Byte2(w) == 0xFF && Byte3(w) == 0xFF
  {}

  lemma UpCounts(w: bv32)
    requires w + 1 != 0
    ensures Val(w + 1) == Val(w) + 1
  {
    hide ByteVal, Byte0, Byte1, Byte2, Byte3;
    TopByte();
    if Byte0(w) != 0xFF {
      Up0(w);
      ByteUp(Byte0(w));
    } else if Byte1(w) != 0xFF {
      Up1(w);
      ByteUp(Byte1(w));
    } else if Byte2(w) != 0xFF {
      Up2(w);
      ByteUp(Byte2(w));
    } else if Byte3(w) != 0xFF {
      Up3(w);
      ByteUp(Byte3(w));
    } else {
      UpLast(w);
    }
  }

  lemma ModUp(a: int, b: int)
    ensures (a % MODULUS + b) % MODULUS == (a + b) % MODULUS
  {}

  // By counting the second word down.
  lemma {:induction false} SumFrom(x: bv32, y: bv32, n: nat)
    requires Val(y) == n
    ensures Val(Sum(x, y)) == (Val(x) + n) % MODULUS
    decreases n
  {
    hide Val, Sum;
    if n == 0 {
      ValZero();
      ValInjective(y, 0);
      AddZero(x);
    } else {
      DownVal(y);
      SumFrom(x, y - 1, n - 1);
      SumDown(x, y);
      DownVal(Sum(x, y));
      ModDown(Val(x) + n, Val(Sum(x, y)));
    }
  }

  lemma SumDown(x: bv32, y: bv32)
    ensures Sum(x, y - 1) == Sum(x, y) - 1
  {}

  lemma DownVal(w: bv32)
    ensures Val(w - 1) == (Val(w) - 1) % MODULUS
  {
    hide Val;
    UpVal(w - 1);
  }

  lemma ModDown(a: int, s: int)
    requires 0 <= s < MODULUS && (s - 1) % MODULUS == (a - 1) % MODULUS
    ensures s == a % MODULUS
  {}

  lemma AddZero(x: bv32)
    ensures Sum(x, 0) == x
  {}

  /** The sum of two words holds the sum of their numbers modulo 2^32. */
  lemma SumVal(x: bv32, y: bv32)
    ensures Val(Sum(x, y)) == (Val(x) + Val(y)) % MODULUS
  {
    hide Val, Sum;
    SumFrom(x, y, Val(y));
  }

  /** And the difference the difference. */
  lemma DifferenceVal(x: bv32, y: bv32)
    ensures Val(Difference(x, y)) == (Val(x) - Val(y)) % MODULUS
  {
    hide Val, Sum;
    SumVal(x - y, y);
    SumBack(x, y);
    ModBack(Val(x - y), Val(x), Val(y));
  }

  lemma SumBack(x: bv32, y: bv32)
    ensures Sum(x - y, y) == x
  {}

  lemma ModBack(d: int, x: int, y: int)
    requires 0 <= d < MODULUS && x == (d + y) % MODULUS
    ensures d == (x - y) % MODULUS
  {}

  // ---- Halves and doubles ----

  lemma DoubleVal(w: bv32)
    ensures Val(Left(w, 1)) == 2 * Val(w) % MODULUS
  {
    hide Val, Sum, Left;
    DoubleSum(w);
    SumVal(w, w);
  }

  lemma DoubleSum(w: bv32)
    ensures Left(w, 1) == Sum(w, w)
  {}

  // A word is twice its half, plus its lowest bit.
  lemma HalfSum(w: bv32)
    ensures w == Sum(Sum(Half(w), Half(w)), Lowest(w)) && Half(w) < 0x8000_0000 && (Lowest(w) == 0 || Lowest(w) == 1)
  {}

  lemma ValOne()
    ensures Val(1) == 1
  {
    hide ByteVal;
    ByteIsInt(1);
    ByteIsInt(0);
  }

  lemma HalfVal(w: bv32)
    ensures Val(Half(w)) == Val(w) / 2 && Val(Lowest(w)) == Val(w) % 2
  {
    hide Val, Sum, Half, Lowest;
    var h, b := Half(w), Lowest(w);
    HalfSum(w);
    SignBit(h);
    ValZero();
    ValOne();
    SumVal(h, h);
    SumVal(Sum(h, h), b);
  }

  // ---- Shifts ----

  /** The number a shift amount is. */
  function Count(k: bv6): nat { if k == 0 then 0 else Count(k - 1) + 1 }

  lemma {:induction false} CountIs(k: bv6)
    requires k < 32
    ensures Count(k) == ByteVal(k as bv8)
  {
    if k != 0 {
      CountIs(k - 1);
      assert (k as bv8) != 0 && (k as bv8) - 1 == (k - 1) as bv8;
    }
  }

  lemma AmountIs(v: bv32)
    ensures Count((v & 0x1F) as bv6) == Val(v) % 32 && (v & 0x1F) as bv6 < 32
  {
    hide Val, ByteVal, Word, Count;
    var k := (v & 0x1F) as bv6;
    AmountBits(v);
    CountIs(k);
    WordOfVal(v);
    Low5(Val(v));
  }

  lemma AmountBits(v: bv32)
    ensures (v & 0x1F) as bv6 < 32 && ((v & 0x1F) as bv6) as bv8 == (v & 0x1F) as bv8
  {}

  lemma LeftOne(w: bv32, k: bv6)
    requires 0 < k < 32
    ensures Left(w, k) == Left(Left(w, k - 1), 1)
  {}

  lemma RightOne(w: bv32, k: bv6)
    requires 0 < k < 32
    ensures Right(w, k) == Half(Right(w, k - 1))
  {}

  lemma ShiftNone(w: bv32)
    ensures Left(w, 0) == w && Right(w, 0) == w
  {}

  lemma CountStep(k: bv6)
    requires k != 0
    ensures k - 1 < k && Count(k) == Count(k - 1) + 1
  {}

  lemma DoubleMod(a: int, p: int)
    ensures 2 * (a * p % MODULUS) % MODULUS == a * (2 * p) % MODULUS
  {
    assert a * (2 * p) == 2 * (a * p);
    TwiceMod(a * p);
  }

  lemma TwiceMod(x: int)
    ensures 2 * (x % MODULUS) % MODULUS == 2 * x % MODULUS
  {
    Congruent(2 * (x % MODULUS), 2 * x, MODULUS, -2 * (x / MODULUS));
  }

  lemma {:induction false} LeftVal(w: bv32, k: bv6)
    requires k < 32
    ensures Val(Left(w, k)) == Val(w) * Pow2(Count(k)) % MODULUS
  {
    hide Val, Left, Count, Half;
    if k == 0 {
      ShiftNone(w);
      CountZero();
    } else {
      CountStep(k);
      LeftVal(w, k - 1);
      LeftOne(w, k);
      DoubleVal(Left(w, k - 1));
      DoubleMod(Val(w), Pow2(Count(k - 1)));
    }
  }

  lemma CountZero()
    ensures Count(0) == 0
  {}

  lemma HalfDiv(a: nat, p: nat)
    requires p > 0
    ensures a / p / 2 == a / (2 * p)
  {
    var q, r := a / p, a % p;
    assert a == p * q + r;
    assert a == 2 * p * (q / 2) + (p * (q % 2) + r);
    FloorIs(a, 2 * p, q / 2, p * (q % 2) + r);
  }

  lemma FloorIs(a: int, p: nat, q: int, r: nat)
    requires r < p && a == p * q + r
    ensures a / p == q
  {
    var d := a / p;
    if d < q {
      ProductOrder(p, d + 1, q);
    } else if d > q {
      ProductOrder(p, q + 1, d);
    }
  }

  lemma Congruent(a: int, b: int, m: nat, k: int)
    requires m > 0 && a == b + m * k
    ensures a % m == b % m
  {
    var q := b / m;
    assert a == m * (q + k) + b % m;
    FloorIs(a, m, q + k, b % m);
  }

  lemma ProductOrder(p: nat, a: int, b: int)
    requires a <= b
    ensures p * a <= p * b
  {}

  lemma {:induction false} RightVal(w: bv32, k: bv6)
    requires k < 32
    ensures Val(Right(w, k)) == Val(w) / Pow2(Count(k))
  {
    hide Val, Right, Count, Half;
    if k == 0 {
      ShiftNone(w);
      CountZero();
    } else {
      CountStep(k);
      RightVal(w, k - 1);
      RightOne(w, k);
      HalfVal(Right(w, k - 1));
      HalfDiv(Val(w), Pow2(Count(k - 1)));
    }
  }

  /** A left shift multiplies by a power of two modulo 2^32; only the low five bits of the amount count. */
  lemma ShiftLeftVal(x: bv32, v: bv32)
    ensures Val(ShiftLeft(x, v)) == Val(x) * Pow2(Val(v) % 32) % MODULUS
  {
    hide Val, Count;
    AmountIs(v);
    LeftVal(x, (v & 0x1F) as bv6);
  }

  lemma ComplementVal(w: bv32)
    ensures Val(!w) == MODULUS - 1 - Val(w)
  {
    hide Val, Sum;
    SumVal(w, !w);
    ComplementSum(w);
    OnesVal();
  }

  lemma ComplementSum(w: bv32)
    ensures Sum(w, !w) == 0xFFFF_FFFF
  {}

  lemma OnesVal()
    ensures Val(0xFFFF_FFFF) == MODULUS - 1
  {
    hide ByteVal;
    TopByte();
  }

  lemma SignOf(w: bv32)
    ensures w & 0x8000_0000 == 0 <==> Val(w) < 0x8000_0000
  {
    hide Val;
    SignBit(w);
    SignMask(w);
  }

  lemma SignMask(w: bv32)
    ensures w & 0x8000_0000 == 0 <==> w < 0x8000_0000
  {}

  lemma NegativeDiv(n: nat, p: nat)
    requires p > 0
    ensures -1 - n / p == (-1 - n) / p
  {
    var q, r := n / p, n % p;
    assert -1 - n == p * (-1 - q) + (p - 1 - r);
    FloorIs(-1 - n, p, -1 - q, p - 1 - r);
  }

  lemma DivBelow(n: nat, p: nat)
    requires p > 0
    ensures n / p <= n
  {
    var q := n / p;
    assert n == p * q + n % p;
    ProductAbove(p, q);
  }

  lemma ProductAbove(p: nat, q: nat)
    requires p > 0
    ensures p * q >= q
  {}

  lemma PositiveShift(x: bv32, v: bv32)
    requires (v & 0x1F) as bv6 < 32 && x & 0x8000_0000 == 0
    ensures ShiftRight(x, v) == Right(x, (v & 0x1F) as bv6)
  {}

  lemma NegativeShift(x: bv32, v: bv32)
    requires (v & 0x1F) as bv6 < 32 && x & 0x8000_0000 != 0
    ensures ShiftRight(x, v) == !Right(!x, (v & 0x1F) as bv6)
  {
    hide ShiftRight, Right;
    RawNegative(x, v);
    RawRight(x, v);
  }

  lemma RawNegative(x: bv32, v: bv32)
    requires x & 0x8000_0000 != 0
    ensures ShiftRight(x, v) == !((!x) >> ((v & 0x1F) as bv6))
  {}

  lemma RawRight(x: bv32, v: bv32)
    requires (v & 0x1F) as bv6 < 32
    ensures Right(!x, (v & 0x1F) as bv6) == (!x) >> ((v & 0x1F) as bv6)
  {}

  /** A right shift of the emulator divides the signed number by a power of two, rounding down. */
  lemma ShiftRightVal(x: bv32, v: bv32)
    ensures Signed(ShiftRight(x, v)) == Signed(x) / Pow2(Val(v) % 32)
  {
    hide Val, Count, Pow2, Right, ShiftRight;
    AmountIs(v);
    var k, p := (v & 0x1F) as bv6, Pow2(Val(v) % 32);
    SignOf(x);
    if x & 0x8000_0000 == 0 {
      PositiveShift(x, v);
      RightVal(x, k);
      DivBelow(Val(x), p);
    } else {
      var y := !x;
      NegativeShift(x, v);
      RightVal(y, k);
      ComplementVal(x);
      ComplementVal(Right(y, k));
      DivBelow(Val(y), p);
      NegativeDiv(Val(y), p);
    }
  }

  // ---- Logic ----

  lemma {:induction false} ZeroBits(i: nat)
    ensures !Bit(0, i)
    decreases i
  {
    if i > 0 {
      ZeroBits(i - 1);
    }
  }

  lemma AndHalves(x: bv32, y: bv32)
    ensures Half(BitAnd(x, y)) == BitAnd(Half(x), Half(y))
  {}

  lemma OrHalves(x: bv32, y: bv32)
    ensures Half(BitOr(x, y)) == BitOr(Half(x), Half(y))
  {}

  lemma XorHalves(x: bv32, y: bv32)
    ensures Half(BitXor(x, y)) == BitXor(Half(x), Half(y))
  {}

  lemma LogicLow(x: bv32, y: bv32)
    ensures Lowest(BitAnd(x, y)) == 1 <==> Lowest(x) == 1 && Lowest(y) == 1
    ensures Lowest(BitOr(x, y)) == 1 <==> Lowest(x) == 1 || Lowest(y) == 1
    ensures Lowest(BitXor(x, y)) == 1 <==> (Lowest(x) == 1) != (Lowest(y) == 1)
  {}

  lemma LowBit(w: bv32)
    ensures Lowest(w) == 1 <==> Bit(Val(w), 0)
  {
    hide Val, Lowest;
    HalfVal(w);
    ValOne();
    ValZero();
    HalfSum(w);
  }

  lemma HighBit(w: bv32, i: nat)
    requires i > 0
    ensures Bit(Val(w), i) <==> Bit(Val(Half(w)), i - 1)
  {
    hide Val, Half;
    HalfVal(w);
  }

  /** And, or and exclusive or work digit by digit. */
  lemma {:induction false} LogicBits(x: bv32, y: bv32, i: nat)
    ensures Bit(Val(BitAnd(x, y)), i) <==> Bit(Val(x), i) && Bit(Val(y), i)
    ensures Bit(Val(BitOr(x, y)), i) <==> Bit(Val(x), i) || Bit(Val(y), i)
    ensures Bit(Val(BitXor(x, y)), i) <==> Bit(Val(x), i) != Bit(Val(y), i)
    decreases i
  {
    hide Val, Bit, Half, Lowest, BitAnd, BitOr, BitXor;
    if i == 0 {
      LogicLow(x, y);
      LowBit(x);
      LowBit(y);
      LowBit(BitAnd(x, y));
      LowBit(BitOr(x, y));
      LowBit(BitXor(x, y));
    } else {
      LogicBits(Half(x), Half(y), i - 1);
      AndHalves(x, y);
      OrHalves(x, y);
      XorHalves(x, y);
      HighBit(x, i);
      HighBit(y, i);
      HighBit(BitAnd(x, y), i);
      HighBit(BitOr(x, y), i);
      HighBit(BitXor(x, y), i);
    }
  }

  // ---- Halves of a word ----

  /** The low half is the remainder by 65536. */
  lemma LowHalfVal(v: bv32)
    ensures Val(LowHalf(v)) == Val(v) % 0x1_0000
  {
    hide Val, Word;
    WordOfVal(v);
    Low16(Val(v));
  }

  /** lui moves a half up by 2^16. */
  lemma ShiftHalfVal(v: bv32)
    requires Val(v) < 0x1_0000
    ensures Val(ShiftHalf(v)) == 0x1_0000 * Val(v)
  {
    hide Val, Count, Pow2, ByteVal, Left;
    LeftVal(v, 16);
    CountIs(16);
    ByteIsInt(16);
    HalfPower();
    ShiftHalfIs(v);
  }

  lemma ShiftHalfIs(v: bv32)
    ensures ShiftHalf(v) == Left(v, 16)
  {}

  lemma HalfPower()
    ensures Pow2(16) == 0x1_0000
  {
    assert Pow2(8) == 0x100;
  }

  /** Sign extension leaves the number of the low half, read as a signed one, modulo 2^32. */
  lemma SignExtVal(v: bv32)
    ensures Val(SignExt16(v)) == Distance16(Val(v)) % MODULUS
  {
    hide Val, Sum, LowHalf, SignExt16;
    LowHalfVal(v);
    var h := LowHalf(v);
    HalfSign(v);
    HalfOrder(h);
    if v & 0x8000 != 0 {
      SignSum(v);
      SumVal(h, 0xFFFF_0000);
      UpperVal();
    } else {
      NoSignExt(v);
    }
  }

  lemma NoSignExt(v: bv32)
    requires v & 0x8000 == 0
    ensures SignExt16(v) == LowHalf(v)
  {}

  lemma HalfSign(v: bv32)
    ensures v & 0x8000 != 0 <==> 0x8000 <= LowHalf(v)
  {}

  lemma SignSum(v: bv32)
    requires v & 0x8000 != 0
    ensures SignExt16(v) == Sum(LowHalf(v), 0xFFFF_0000)
  {}

  lemma HalfOrder(h: bv32)
    ensures 0x8000 <= h <==> 0x8000 <= Val(h)
  {
    hide Val, Word;
    ValOfWord(0x8000);
    WordHalf();
    ValOrder(h, 0x8000);
  }

  lemma WordHalf()
    ensures Word(0x8000) == 0x8000
  {
    hide Word, Byte0, Byte1, Byte2, Byte3, ByteVal;
    ValOfWord(0x8000);
    ByteIsInt(0x80);
    ByteIsInt(0);
    HalfBytes();
    ValInjective(Word(0x8000), 0x8000);
  }

  lemma HalfBytes()
    ensures Byte3(0x8000) == 0 && Byte2(0x8000) == 0 && Byte1(0x8000) == 0x80 && Byte0(0x8000) == 0
  {}

  lemma UpperVal()
    ensures Val(0xFFFF_0000) == 0xFFFF_0000
  {
    hide ByteVal;
    TopByte();
  }
}
