/**
 Multiplication and division in the emulator as C++ arithmetic (section 8.6 of ISO C++17,
 [expr.mul]): quotients truncate toward zero, and products are those of int and unsigned int.
 */
module HiLo {
  import opened Words
  import opened Source
  import opened Isa
  import opened Cpu

  // ---- Truncating division of integers ----

  lemma TruncIdentity(x: int, y: int)
    requires y != 0
    ensures TruncDiv(x, y) * y + TruncRem(x, y) == x
  {}

  lemma RemainderSmall(x: int, y: int)
    requires y != 0
    ensures Abs(TruncRem(x, y)) < Abs(y)
    ensures TruncRem(x, y) == 0 || (TruncRem(x, y) < 0) == (x < 0)
  {}

  lemma QuotientBound(x: int, y: int)
    requires y != 0 && -0x8000_0000 <= x < 0x8000_0000 && !(x == -0x8000_0000 && y == -1)
    ensures -0x8000_0000 <= TruncDiv(x, y) < 0x8000_0000
  {
    var q := Abs(x) / Abs(y);
    DivideShrinks(Abs(x), Abs(y));
    if Abs(y) > 1 && x == -0x8000_0000 {
      DivideHalves(0x8000_0000, Abs(y));
    }
  }

  lemma DivideShrinks(a: nat, b: nat)
    requires b > 0
    ensures 0 <= a / b <= a
  {
    var q := a / b;
    assert q * b <= a;
    if q > a {
      Multiplied(q, b);
    }
  }

  lemma Multiplied(q: nat, b: nat)
    requires b > 0
    ensures q <= q * b
  {}

  lemma DivideHalves(a: nat, b: nat)
    requires b > 1 && a > 0
    ensures a / b < a
  {
    var q := a / b;
    if q >= a {
      assert q * b <= a;
      Doubled(q, b);
    }
  }

  lemma Doubled(q: nat, b: nat)
    requires b > 1
    ensures 2 * q <= q * b
  {}

  // ---- The emulator ----

  lemma MinusOne(w: bv32)
    ensures Signed(w) == -1 <==> w == 0xFFFF_FFFF
    ensures Signed(w) == -0x8000_0000 <==> w == 0x8000_0000
  {
    hide ByteVal;
    ByteIsInt(0xFF);
    ByteIsInt(0x80);
    ByteIsInt(0);
    ValOrder(w, 0xFFFF_FFFF);
    ValOrder(w, 0x8000_0000);
    ConstantVals();
  }

  lemma ConstantVals()
    ensures Val(0xFFFF_FFFF) == 0xFFFF_FFFF && Val(0x8000_0000) == 0x8000_0000
  {
    hide ByteVal;
    ByteIsInt(0xFF);
    ByteIsInt(0x80);
    ByteIsInt(0);
  }

  /** What the processor state holds after an R-instruction that writes HI and LO. */
  lemma ExecuteHiLo(s: Snapshot)
    requires Proper(s) && Defined(s) && s.f.opBits == 0
    ensures ExecuteOf(s).hi == HiOf(s.f.func, Rs(s), Rt(s), s.hi) &&
      ExecuteOf(s).lo == LoOf(s.f.func, Rs(s), Rt(s), s.lo)
  {}

  /** After div, LO times the divisor plus HI is the dividend, and HI is a remainder with the dividend's sign. */
  lemma DivTruncates(s: Snapshot)
    requires Proper(s) && Defined(s) && s.f.opBits == 0 && s.f.func == 26
    ensures var e, x, y := ExecuteOf(s), Signed(Rs(s)), Signed(Rt(s)); var q, r := Signed(e.lo), Signed(e.hi);
      q * y + r == x && Abs(r) < Abs(y) && (r == 0 || (r < 0) == (x < 0))
  {
    hide Signed, Val, Word, TruncDiv, TruncRem, Rs, Rt, ExecuteOf, InFile;
    var x, y := Signed(Rs(s)), Signed(Rt(s));
    NonZero(Rt(s));
    MinusOne(Rs(s));
    MinusOne(Rt(s));
    ExecuteHiLo(s);
    TruncIdentity(x, y);
    RemainderSmall(x, y);
    QuotientBound(x, y);
    SignedOfWord(TruncDiv(x, y));
    SignedOfWord(TruncRem(x, y));
  }

  /** The same for divu, on unsigned numbers. */
  lemma DivuTruncates(s: Snapshot)
    requires Proper(s) && Defined(s) && s.f.opBits == 0 && s.f.func == 27
    ensures var e, x, y := ExecuteOf(s), Val(Rs(s)), Val(Rt(s));
      Val(e.lo) * y + Val(e.hi) == x && Val(e.hi) < y
  {
    hide Signed, Val, Word, TruncDiv, TruncRem, Rs, Rt, ExecuteOf, InFile;
    var x, y := Val(Rs(s)), Val(Rt(s));
    NonZero(Rt(s));
    ExecuteHiLo(s);
    DivideShrinks(x, y);
    ValOfWord(x / y);
    ValOfWord(x % y);
    Unchanged(x / y);
    Unchanged(x % y);
  }

  lemma Unchanged(n: nat)
    requires n < MODULUS
    ensures n % MODULUS == n
  {}

  predicate FitsInt(p: int) { -0x8000_0000 <= p < 0x8000_0000 }

  // The halves of a 32-bit signed number extended to 64 bits.
  lemma SignExtended(t: int)
    requires FitsInt(t)
    ensures Signed(Word(t / MODULUS)) == t / MODULUS && t / MODULUS == (if t < 0 then -1 else 0)
    ensures Signed(Word(t / MODULUS)) * MODULUS + Val(Word(t)) == t
  {
    hide Word, Val;
    SignedOfWord(t / MODULUS);
    ValOfWord(t);
  }

  /** After mult, HI and LO together are the product exactly when it fits an int. */
  lemma MultProduct(s: Snapshot)
    requires Proper(s) && Defined(s) && s.f.opBits == 0 && s.f.func == 24
    ensures var e, p := ExecuteOf(s), Signed(Rs(s)) * Signed(Rt(s));
      Signed(e.hi) * MODULUS + Val(e.lo) == p <==> FitsInt(p)
  {
    hide Signed, Val, Word, Rs, Rt, ExecuteOf, InFile, DefinedR;
    ExecuteHiLo(s);
    var p := Signed(Rs(s)) * Signed(Rt(s));
    SignExtended(Signed(Word(p)));
    if FitsInt(p) {
      SignedOfWord(p);
    }
  }

  /** After multu, LO is the product modulo 2^32 and HI is zero, whatever the product. */
  lemma MultuProduct(s: Snapshot)
    requires Proper(s) && Defined(s) && s.f.opBits == 0 && s.f.func == 25
    ensures var e, p := ExecuteOf(s), Val(Rs(s)) * Val(Rt(s));
      Val(e.lo) == p % MODULUS && Val(e.hi) == 0 &&
      (Val(e.hi) * MODULUS + Val(e.lo) == p <==> p < MODULUS)
  {
    hide Signed, Val, Word, Rs, Rt, ExecuteOf, InFile, DefinedR;
    ExecuteHiLo(s);
    var p := Val(Rs(s)) * Val(Rt(s));
    NonNegative(Val(Rs(s)), Val(Rt(s)));
    ValOfWord(p % MODULUS);
    ValOfWord(p % MODULUS / MODULUS);
    Unchanged(p % MODULUS);
    if p < MODULUS { Unchanged(p); }
  }

  lemma NonNegative(a: nat, b: nat)
    ensures a * b >= 0
  {}

  // ---- Against the reference machine ----

  predicate Faithful(func: nat, x: bv32, y: bv32) {
    (func == 24 ==> FitsInt(Signed(x) * Signed(y))) && (func == 25 ==> Val(x) * Val(y) < MODULUS)
  }

  function OpOfMulDiv(func: nat): Op {
    if func == 24 then Mult else if func == 25 then Multu else if func == 26 then Div else Divu
  }

  lemma Mono(a: nat, b: nat, c: nat, d: nat)
    requires a <= c && b <= d
    ensures 0 <= a * b <= c * d
  {}

  lemma ProductBound(x: int, y: int)
    requires FitsInt(x) && FitsInt(y)
    ensures -0x4000_0000_0000_0000 <= x * y <= 0x4000_0000_0000_0000
  {
    Mono(Abs(x), Abs(y), 0x8000_0000, 0x8000_0000);
    SignedProduct(x, y);
  }

  lemma SignedProduct(x: int, y: int)
    ensures x * y == Abs(x) * Abs(y) || x * y == -(Abs(x) * Abs(y))
  {}

  lemma WordsEqual(a: int, b: int)
    ensures Word(a) == Word(b) <==> a % MODULUS == b % MODULUS
  {
    hide Word, Val;
    ValOfWord(a);
    ValOfWord(b);
    ValOrder(Word(a), Word(b));
  }

  lemma SignedCongruent(p: int)
    ensures Signed(Word(p)) % MODULUS == p % MODULUS
  {
    hide Word, Val;
    ValOfWord(p);
  }

  // A wide number with the same halves as an int is that int.
  lemma HalvesDecide(p: int, t: int)
    requires -0x4000_0000_0000_0000 <= p <= 0x4000_0000_0000_0000 && FitsInt(t) && p % MODULUS == t % MODULUS
    ensures (p / MODULUS) % MODULUS == (t / MODULUS) % MODULUS <==> p == t
  {}

  lemma MultMatches(x: bv32, y: bv32, hi: bv32, lo: bv32)
    ensures (HiOf(24, x, y, hi), LoOf(24, x, y, lo)) == Isa.HiLo(Mult, x, y) <==> FitsInt(Signed(x) * Signed(y))
  {
    hide Word, Val, Signed;
    var p := Signed(x) * Signed(y);
    var t := Signed(Word(p));
    ProductBound(Signed(x), Signed(y));
    SignedCongruent(p);
    WordsEqual(t, p);
    WordsEqual(t / MODULUS, p / MODULUS);
    HalvesDecide(p, t);
    if FitsInt(p) { SignedOfWord(p); }
  }

  lemma UnsignedHalves(p: nat)
    requires p < MODULUS * MODULUS
    ensures (p / MODULUS) % MODULUS == (p % MODULUS / MODULUS) % MODULUS <==> p < MODULUS
    ensures p % MODULUS % MODULUS == p % MODULUS
  {}

  lemma MultuMatches(x: bv32, y: bv32, hi: bv32, lo: bv32)
    ensures (HiOf(25, x, y, hi), LoOf(25, x, y, lo)) == Isa.HiLo(Multu, x, y) <==> Val(x) * Val(y) < MODULUS
  {
    hide Word, Val, Signed;
    var p := Val(x) * Val(y);
    Mono(Val(x), Val(y), MODULUS - 1, MODULUS - 1);
    WordsEqual(p % MODULUS, p);
    WordsEqual(p % MODULUS / MODULUS, p / MODULUS);
    UnsignedHalves(p);
  }

  /**
   The emulator computes HI and LO as the reference does exactly when a product fits the C++ type it is computed
   in.
   */
  lemma MatchesReference(func: nat, x: bv32, y: bv32, hi: bv32, lo: bv32)
    requires 24 <= func <= 27 && DefinedR(func, x, y)
    ensures (HiOf(func, x, y, hi), LoOf(func, x, y, lo)) == Isa.HiLo(OpOfMulDiv(func), x, y) <==> Faithful(func, x, y)
  {
    hide Word, Val, Signed, TruncDiv, TruncRem;
    if func == 24 {
      MultMatches(x, y, hi, lo);
    } else if func == 25 {
      MultuMatches(x, y, hi, lo);
    }
  }
}
