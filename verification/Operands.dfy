/**
 Reading register operands back: the operand parser undoes its printer.
 */
module Operands {
  import opened Source
  import opened Isa
  import opened Scanner

  function Repeat(ch: char, n: nat): (s: string)
    ensures |s| == n && forall i :: 0 <= i < n ==> s[i] == ch
  {
    if n == 0 then "" else Repeat(ch, n - 1) + [ch]
  }

  function OffsetText(offset: Option<nat>): string { if offset.Some? then Decimal(offset.value) else "" }

  /** A register operand: parentheses opened before and after the offset, the name, and parentheses closed. */
  function Printed(a: nat, offset: Option<nat>, b: nat, r: nat, c: nat): string
    requires r < NUM_REGS
  {
    Repeat('(', a) + OffsetText(offset) + Repeat('(', b) + RegName(r) + Repeat(')', c)
  }

  // ---- Register names ----

  lemma NameShape(r: nat)
    requires r < NUM_REGS
    ensures var n := RegName(r);
      |n| >= 3 && n[0] == '$' && forall i :: 0 <= i < |n| ==> n[i] != ')' && n[i] != '(' && ToLower(n[i]) == n[i]
  {}

  /** The register that a name's second and third characters pick. */
  function NameNumber(x: char, y: char): int {
    if x == 'z' then 0
    else if x == 'v' then if y == '0' then 2 else 3
    else if x == 'a' then if y == 't' then 1 else 4 + y as int - '0' as int
    else if x == 't' then if y == '8' || y == '9' then 16 + y as int - '0' as int else 8 + y as int - '0' as int
    else if x == 's' then if y == 'p' then 29 else 16 + y as int - '0' as int
    else if x == 'k' then 26 + y as int - '0' as int
    else if x == 'g' then 28
    else if x == 'f' then 30
    else 31
  }

  lemma NameNumbered(r: nat)
    requires r < NUM_REGS
    ensures |RegName(r)| >= 3 && NameNumber(RegName(r)[1], RegName(r)[2]) == r
  {}

  lemma {:induction false} NameFound(r: nat, k: nat)
    requires k <= r < NUM_REGS
    ensures RegFrom(RegName(r), k) >= 0
    decreases r - k
  {
    hide RegName;
    if k < r && RegName(k) != RegName(r) {
      NameFound(r, k + 1);
    }
  }

  /** Looking up a register's name gives its number. */
  lemma NameRoundTrip(r: nat)
    requires r < NUM_REGS
    ensures RegIdx(RegName(r)) == r
  {
    hide RegName, NameNumber;
    NameFound(r, 0);
    NameNumbered(r);
    NameNumbered(RegIdx(RegName(r)));
  }

  /** No register is named by a string with a closing parenthesis. */
  lemma NotAName(name: string, i: nat)
    requires i < |name| && name[i] == ')'
    ensures RegIdx(name) == -1
  {
    hide RegName;
    if RegIdx(name) != -1 {
      NameShape(RegIdx(name));
    }
  }

  /** The registers the assembler itself uses. */
  lemma NamedRegisters()
    ensures RegIdx("$zero") == REG_ZERO && RegIdx("$at") == REG_AT && RegIdx("$ra") == REG_RETURN
  {
    hide RegIdx;
    NameRoundTrip(REG_ZERO);
    NameRoundTrip(REG_AT);
    NameRoundTrip(REG_RETURN);
  }

  // ---- The scan for the name ----

  lemma {:induction false} ScanOpens(token: string, i: nat, n: nat, depth: nat, offset: string)
    requires i + n <= |token| && forall k :: i <= k < i + n ==> token[k] == '('
    ensures ScanToDollar(token, i, depth, offset) == ScanToDollar(token, i + n, depth + n, offset)
    decreases n
  {
    if n > 0 {
      ScanOpens(token, i + 1, n - 1, depth + 1, offset);
    }
  }

  lemma {:induction false} DigitsEndAt(s: string, i: nat, e: nat)
    requires i <= e <= |s| && (forall k :: i <= k < e ==> IsDigit(s[k])) && (e < |s| ==> !IsDigit(s[e]))
    ensures DigitsEnd(s, i) == e
    decreases e - i
  {}

  lemma ScanNumber(token: string, i: nat, e: nat, depth: nat, offset: string)
    requires i < e < |token| && (forall k :: i <= k < e ==> IsDigit(token[k])) && !IsDigit(token[e])
    ensures ScanToDollar(token, i, depth, offset) == ScanToDollar(token, e, depth, token[i..e])
  {}

  lemma {:induction false} CloseParenAt(token: string, i: nat, e: nat)
    requires i <= e <= |token| && (forall k :: i <= k < e ==> token[k] != ')') && (e < |token| ==> token[e] == ')')
    ensures CloseParen(token, i) == e
    decreases e - i
  {}

  /** The token's offset field: the digits, or "-1" when there are none. */
  function OffsetField(offset: Option<nat>): string { if offset.Some? then Decimal(offset.value) else "-1" }

  // The parts of a printed operand, by position.
  lemma PrintedParts(a: nat, offset: Option<nat>, b: nat, r: nat, c: nat)
    requires r < NUM_REGS
    ensures var t, d, n := Printed(a, offset, b, r, c), |OffsetText(offset)|, |RegName(r)|;
      |t| == a + d + b + n + c && n >= 3 &&
      (forall k :: 0 <= k < a ==> t[k] == '(') && t[a..a + d] == OffsetText(offset) &&
      (forall k :: a + d <= k < a + d + b ==> t[k] == '(') && t[a + d + b..a + d + b + n] == RegName(r) &&
      (forall k :: a + d + b + n <= k < |t| ==> t[k] == ')')
  {
    hide RegName, Decimal;
    NameShape(r);
  }

  /** The scan stops at the name, with all opened parentheses pending and the offset read. */
  lemma ScanPrinted(a: nat, offset: Option<nat>, b: nat, r: nat, c: nat)
    requires r < NUM_REGS
    ensures var t, d := Printed(a, offset, b, r, c), |OffsetText(offset)|;
      ScanToDollar(t, 0, 0, "-1") == Success(RegScan(a + d + b, a + b, OffsetField(offset)))
  {
    hide RegName, Decimal, Printed;
    var t, d := Printed(a, offset, b, r, c), |OffsetText(offset)|;
    PrintedParts(a, offset, b, r, c);
    NameShape(r);
    assert t[a + d + b] == t[a + d + b..a + d + b + |RegName(r)|][0];
    ScanOpens(t, 0, a, 0, "-1");
    if offset.Some? {
      forall k | a <= k < a + d
        ensures IsDigit(t[k])
      {
        assert t[k] == t[a..a + d][k - a];
      }
      ScanNumber(t, a, a + d, a, "-1");
    }
    ScanOpens(t, a + d, b, a, OffsetField(offset));
  }

  /**
   The operand parser gives back the register and the offset of every printed operand, unless it is
   closed without having been opened: then it takes the parentheses for a part of the name.
   */
  lemma ExtractPrinted(a: nat, offset: Option<nat>, b: nat, r: nat, c: nat)
    requires r < NUM_REGS
    ensures ExtractReg(Printed(a, offset, b, r, c)) ==
      Success(if c == 0 || a + b > 0 then Token(SymRegister, Decimal(r), OffsetField(offset))
        else Token(SymNone, "", OffsetField(offset)))
  {
    hide RegName, Decimal, Printed, RegIdx, ScanToDollar, CloseParen;
    var t, d, n := Printed(a, offset, b, r, c), |OffsetText(offset)|, |RegName(r)|;
    var at := a + d + b;
    PrintedParts(a, offset, b, r, c);
    ScanPrinted(a, offset, b, r, c);
    NameShape(r);
    NameRoundTrip(r);
    if a + b == 0 {
      if c == 0 {
        assert t[at..|t|] == RegName(r);
      } else {
        NotAName(t[at..|t|], n);
      }
    } else {
      forall k | at <= k < at + n
        ensures t[k] != ')'
      {
        assert t[k] == t[at..at + n][k - at];
      }
      CloseParenAt(t, at, at + n);
    }
  }

  // ---- Telling operands from literals ----

  lemma DecimalLength(n: nat)
    ensures |Decimal(n)| == 1 <==> n < 10
  {}

  lemma LowerPrinted(a: nat, offset: Option<nat>, b: nat, r: nat, c: nat)
    requires r < NUM_REGS
    ensures Lower(Printed(a, offset, b, r, c)) == Printed(a, offset, b, r, c)
  {
    hide RegName, Decimal, Printed;
    var t, d, n := Printed(a, offset, b, r, c), |OffsetText(offset)|, |RegName(r)|;
    PrintedParts(a, offset, b, r, c);
    NameShape(r);
    forall k | 0 <= k < |t|
      ensures ToLower(t[k]) == t[k]
    {
      if a <= k < a + d {
        assert t[k] == t[a..a + d][k - a];
        assert IsDigit(t[k]);
      } else if a + d + b <= k < a + d + b + n {
        assert t[k] == t[a + d + b..a + d + b + n][k - (a + d + b)];
      }
    }
  }

  /** The operand starts with an offset of more than one digit, or one not followed by a parenthesis. */
  predicate LooksLiteral(a: nat, offset: Option<nat>, b: nat) { offset.Some? && a == 0 &&
    (offset.value >= 10 || b == 0) }

  // The first two characters of a printed operand.
  lemma PrintedStarts(a: nat, offset: Option<nat>, b: nat, r: nat, c: nat)
    requires r < NUM_REGS
    ensures var t := Printed(a, offset, b, r, c);
      |t| >= 3 &&
      (t[0] == '(' || t[0] == '$' || IsDigit(t[0])) &&
      (IsDigit(t[0]) <==> offset.Some? && a == 0) &&
      (IsDigit(t[0]) ==> (t[1] == '(' <==> !LooksLiteral(a, offset, b)))
  {
    hide RegName, Decimal, Printed;
    var t, d, n := Printed(a, offset, b, r, c), |OffsetText(offset)|, |RegName(r)|;
    PrintedParts(a, offset, b, r, c);
    NameShape(r);
    assert t[a + d + b] == t[a + d + b..a + d + b + n][0];
    if a == 0 && offset.Some? {
      DecimalLength(offset.value);
      assert t[0] == t[a..a + d][0];
      assert IsDigit(t[0]);
      if d > 1 {
        assert t[1] == t[a..a + d][1];
        assert IsDigit(t[1]);
      }
    }
  }

  /** Classifying a printed operand: a literal when it looks like one, otherwise what the operand parser makes of it. */
  lemma ClassifyPrinted(a: nat, offset: Option<nat>, b: nat, r: nat, c: nat)
    requires r < NUM_REGS
    ensures Classify(Printed(a, offset, b, r, c)) == Success(
      if LooksLiteral(a, offset, b) then (Token(SymLiteral, Decimal(offset.value), ""), false)
      else if c == 0 || a + b > 0 then (Token(SymRegister, Decimal(r), OffsetField(offset)), false)
      else (NO_TOKEN, true))
  {
    hide RegName, Decimal, Printed, ExtractReg, Lower, OpOf;
    var t := Printed(a, offset, b, r, c);
    PrintedStarts(a, offset, b, r, c);
    LowerPrinted(a, offset, b, r, c);
    ExtractPrinted(a, offset, b, r, c);
    if LooksLiteral(a, offset, b) {
      LiteralPart(a, offset, b, r, c);
    }
  }

  lemma LiteralPart(a: nat, offset: Option<nat>, b: nat, r: nat, c: nat)
    requires r < NUM_REGS && offset.Some? && a == 0
    ensures var t := Printed(a, offset, b, r, c);
      DigitsEnd(t, 0) <= |t| && t[..DigitsEnd(t, 0)] == Decimal(offset.value)
  {
    hide RegName, Decimal, Printed;
    var t, d, n := Printed(a, offset, b, r, c), |OffsetText(offset)|, |RegName(r)|;
    PrintedParts(a, offset, b, r, c);
    NameShape(r);
    assert t[a + d + b] == t[a + d + b..a + d + b + n][0];
    assert t[..d] == t[a..a + d];
    forall k | 0 <= k < d
      ensures IsDigit(t[k])
    {
      assert t[k] == t[a..a + d][k];
    }
    DigitsEndAt(t, 0, d);
  }

  function OffsetNumber(offset: Option<nat>): Result<int> {
    var n: int := if offset.None? then -1 else offset.value;
    if n < 0x8000_0000 then Success(n) else Failure(OutOfRange)
  }

  /** The numbers of the argument: the register's, and the offset's or -1. */
  lemma PrintedNumbers(offset: Option<nat>, r: nat)
    requires r < NUM_REGS
    ensures StoI(Decimal(r)) == Success(r)
    ensures StoI(OffsetField(offset)) == OffsetNumber(offset)
  {
    hide Decimal, StoI;
    StoIOfDecimal(r);
    if offset.Some? {
      StoIOfDecimal(offset.value);
    } else {
      MinusOneRead();
    }
  }

  lemma MinusOneRead()
    ensures StoI("-1") == Success(-1)
  {
    DigitsEndAt("-1", 1, 2);
    assert "-1"[1..2] == "1";
    assert "1"[..0] == "";
    assert DecimalValue("1") == 1;
  }
}
