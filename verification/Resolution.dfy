/**
 Label resolution: it is stable, it leaves alone what it cannot resolve, and a resolved branch
 offset leads back to the label exactly when the distance fits the field.
 */
module Resolution {
  import opened Words
  import opened Source
  import opened Layout
  import opened Isa
  import opened Addresses

  /** Resolving twice is resolving once. */
  lemma ResolveIdempotent(text: seq<TextInfo>, syms: seq<Symbol>)
    ensures ResolveAll(ResolveAll(text, syms), syms) == ResolveAll(text, syms)
  {}

  lemma PatchKeeps(l: TextInfo, a: int)
    ensures Patch(l, a).(a0 := l.a0, a1 := l.a1, a2 := l.a2) == l
  {}

  /**
   A line changes only if it names a symbol the source defines, and then it gets the address of
   the first definition; its address, operation and symbol stay.
   */
  lemma ResolveUsesFirst(lines: seq<SourceLine>, l: TextInfo)
    ensures var k := FindLabel(lines, l.symbolName, 0);
      Resolve(l, PlaceAll(FRESH, lines).syms) ==
        if l.isSymbol && k < |lines| && LabelAddr(lines, k) > 0 then Patch(l, LabelAddr(lines, k)) else l
    ensures Resolve(l, PlaceAll(FRESH, lines).syms).(a0 := l.a0, a1 := l.a1, a2 := l.a2) == l
  {
    hide AddrOfSymbol, Patch, PlaceAll, FindLabel, LabelAddr;
    SymbolTableIsFirst(lines, l.symbolName);
    PatchKeeps(l, LabelAddr(lines, FindLabel(lines, l.symbolName, 0)));
  }

  /** The distance from an address to a label as a signed 32-bit number. */
  function DistanceTo(target: int, addr: int): int { ToInt(Bump(target, -addr)) }

  predicate Fits16(d: int) { -0x8000 <= d < 0x8000 }

  lemma DistanceField(u: int)
    requires 0 <= u < MODULUS
    ensures (Distance16(Lower16(u)) - u) % 0x1_0000 == 0
    ensures Distance16(Lower16(u)) == ToInt(u) <==> Fits16(ToInt(u))
    ensures Fits16(Distance16(Lower16(u)))
  {}

  /**
   A resolved branch reaches its label exactly when the distance fits 16 signed bits; the low
   half of the address is right in every case.
   */
  lemma OffsetReaches(target: int, addr: int)
    requires 0 <= target < MODULUS && 0 <= addr < MODULUS
    ensures var d := Distance16(Lower16(Bump(target, -addr)));
      (Bump(addr, d) == target <==> Fits16(DistanceTo(target, addr))) &&
      Bump(addr, d) % 0x1_0000 == target % 0x1_0000
  {
    hide Distance16, Lower16;
    var u := Bump(target, -addr);
    var d := Distance16(Lower16(u));
    DistanceField(u);
    BumpDistance(target, addr, d);
    BumpLow(target, addr, d);
  }

  lemma BumpDistance(target: int, addr: int, d: int)
    requires 0 <= target < MODULUS && 0 <= addr < MODULUS && Fits16(d)
    ensures Bump(addr, d) == target <==> d == DistanceTo(target, addr)
  {
    hide Bump;
    BumpCases(addr, d);
    BumpCases(target, -addr);
    IntCases(Bump(target, -addr));
  }

  lemma BumpCases(a: int, n: int)
    requires -MODULUS <= a + n < 2 * MODULUS
    ensures Bump(a, n) ==
      if a + n < 0 then a + n + MODULUS else if a + n < MODULUS then a + n else a + n - MODULUS
  {}

  lemma IntCases(u: int)
    requires 0 <= u < MODULUS
    ensures ToInt(u) == if u < 0x8000_0000 then u else u - MODULUS
  {}

  lemma BumpLow(target: int, addr: int, d: int)
    requires 0 <= target < MODULUS && 0 <= addr < MODULUS && Fits16(d)
    requires (d - Bump(target, -addr)) % 0x1_0000 == 0
    ensures Bump(addr, d) % 0x1_0000 == target % 0x1_0000
  {
    LowOfBump(target, -addr);
    LowOfBump(addr, d);
  }

  lemma LowOfBump(a: int, n: int)
    ensures (Bump(a, n) - (a + n)) % 0x1_0000 == 0
  {
    var q := (a + n) / MODULUS;
    assert Bump(a, n) - (a + n) == 0x1_0000 * (-0x1_0000 * q);
  }

  /** What resolution puts in the arguments of each kind of line, as numbers. */
  lemma PatchNumbers(l: TextInfo, a: int)
    requires 0 <= a < MODULUS
    ensures var r := Patch(l, a);
      match l.op
      case J | Jal =>
        -0x8000_0000 <= r.a0.val < 0x8000_0000 && (r.a0.val - a) % MODULUS == 0 && r.a1 == l.a1 && r.a2 == l.a2
      case Lui => r.a0 == l.a0 && r.a1 == NO_ARG && r.a2.val == if l.upper then a / 0x1_0000 else a % 0x1_0000
      case Ori => r.a0 == l.a0 && r.a1 == l.a1 && r.a2.val == if l.lower then a % 0x1_0000 else a / 0x1_0000
      case Beq | Bne => r.a0 == l.a0 && r.a1 == l.a1 && r.a2.val == (a - l.addr) % 0x1_0000
      case _ =>
        r.a0 == l.a0 && r.a1 == l.a1 && -0x8000_0000 <= r.a2.val < 0x8000_0000 && (r.a2.val - a) % MODULUS == 0
  {
    hide Bump, ToInt;
    IntOf(a);
    LowOfBump(a, -l.addr);
    SameLow(Bump(a, -l.addr), a - l.addr);
  }

  lemma IntOf(a: int)
    requires 0 <= a < MODULUS
    ensures -0x8000_0000 <= ToInt(a) < 0x8000_0000 && (ToInt(a) - a) % MODULUS == 0
  {}

  lemma SameLow(x: int, y: int)
    requires (x - y) % 0x1_0000 == 0
    ensures x % 0x1_0000 == y % 0x1_0000
  {}
}
