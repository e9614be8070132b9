/**
  The RISC-V M extension on 32-bit registers: sections 7.1 and 7.2 of the Unprivileged ISA
  (version 20191213), written over the integers.
 */
module Rv32m {
  import opened ModArith

  const WORD: int := 0x1_0000_0000
  const HALF: int := 0x8000_0000
  const ALL_ONES: int := 0xffff_ffff

  predicate IsWord(x: int) { 0 <= x < WORD }

  /** The two's-complement reading of a register. */
  function Signed(x: int): int { if x >= HALF then x - WORD else x }

  function Read(signed: bool, x: int): int { if signed then Signed(x) else x }

  function Abs(x: int): int { if x < 0 then -x else x }

  /** Division rounding toward zero, and its remainder with the dividend's sign. */
  function TruncDiv(n: int, d: int): int
    requires d != 0
  {
    if (n < 0) == (d < 0) then Abs(n) / Abs(d) else -(Abs(n) / Abs(d))
  }

  function TruncRem(n: int, d: int): int
    requires d != 0
  {
    if n < 0 then -(Abs(n) % Abs(d)) else Abs(n) % Abs(d)
  }

  predicate Overflows(signed: bool, n: int, d: int) {
    signed && n == HALF && d == ALL_ONES
  }

  /** DIV and DIVU, with the results the standard fixes for a zero divisor and for overflow. */
  function Div(signed: bool, n: int, d: int): int {
    if d == 0 then ALL_ONES
    else if Overflows(signed, n, d) then HALF
    else if IsWord(d) then TruncDiv(Read(signed, n), Read(signed, d)) % WORD
    else 0
  }

  /** REM and REMU. */
  function Rem(signed: bool, n: int, d: int): int {
    if d == 0 then n
    else if Overflows(signed, n, d) then 0
    else if IsWord(d) then TruncRem(Read(signed, n), Read(signed, d)) % WORD
    else 0
  }

  /** The low and high halves of a product: MUL, and MULH, MULHSU, MULHU. */
  function MulLow(x: int, y: int): int { (x * y) % WORD }

  function MulHigh(signedX: bool, signedY: bool, x: int, y: int): int {
    (Read(signedX, x) * Read(signedY, y)) / WORD % WORD
  }

  // ------------------------------------------------ division is determined

  lemma TruncSpec(n: int, d: int)
    requires d != 0
    ensures d * TruncDiv(n, d) + TruncRem(n, d) == n
    ensures Abs(TruncRem(n, d)) < Abs(d)
    ensures n >= 0 ==> TruncRem(n, d) >= 0
    ensures n <= 0 ==> TruncRem(n, d) <= 0
  {
    hide Abs;
    var a, b := Abs(n), Abs(d);
    AbsCases(n);
    AbsCases(d);
    var q, r := EuclidFact(a, b);
    SignRules(b, q);
    assert TruncDiv(n, d) == if (n < 0) == (d < 0) then q else -q;
    assert TruncRem(n, d) == if n < 0 then -r else r;
    AbsCases(TruncRem(n, d));
  }

  lemma AbsCases(x: int)
    ensures Abs(x) == if x < 0 then -x else x
  {
  }

  lemma EuclidFact(a: int, b: int) returns (q: int, r: int)
    requires a >= 0 && b > 0
    ensures q == a / b && r == a % b && a == b * q + r && 0 <= r < b
  {
    q, r := a / b, a % b;
  }

  lemma SignRules(x: int, y: int)
    ensures (-x) * y == -(x * y) && x * (-y) == -(x * y) && (-x) * (-y) == x * y
  {
  }

  /** A quotient and a smaller remainder with the dividend's sign are the truncating ones. */
  lemma TruncUnique(n: int, d: int, q: int, r: int)
    requires d != 0 && d * q + r == n && Abs(r) < Abs(d)
    requires n > 0 ==> r >= 0
    requires n < 0 ==> r <= 0
    ensures q == TruncDiv(n, d) && r == TruncRem(n, d)
  {
    hide TruncDiv, TruncRem;
    TruncSpec(n, d);
    var q', r' := TruncDiv(n, d), TruncRem(n, d);
    var k := q - q';
    assert d * k == r' - r;
    MultipleBound(Abs(d), k);
    SignRules(d, k);
  }

  function Bit(b: bool): int { if b then 1 else 0 }

  /** The sign a register contributes, and the signs the circuit derives for quotient and remainder. */
  function Negative(signed: bool, x: int): int { Bit(signed && x >= HALF) }
  function QuotientSign(signed: bool, n: int, d: int, q: int): int {
    Bit(Negative(signed, n) != Negative(signed, d) && q != 0)
  }
  function RemainderSign(signed: bool, n: int, r: int): int {
    Bit(Negative(signed, n) == 1 && r != 0)
  }

  function Quot(signed: bool, n: int, d: int, q: int): int { q - WORD * QuotientSign(signed, n, d, q) }
  function Remd(signed: bool, n: int, r: int): int { r - WORD * RemainderSign(signed, n, r) }

  /** What the DIV/REM constraints say once read over the integers. */
  predicate DivisionRules(signed: bool, n: int, d: int, q: int, r: int) {
    && (Read(signed, d) * Quot(signed, n, d, q) + Remd(signed, n, r) - Read(signed, n)) % (WORD * WORD) == 0
    && (d != 0 ==> Abs(Remd(signed, n, r)) < Abs(Read(signed, d)))
    && (d == 0 ==> q == ALL_ONES)
  }

  lemma ProductBound(x: int, y: int, mx: int, my: int)
    requires -mx <= x <= mx && -my <= y <= my
    ensures -(mx * my) <= x * y <= mx * my
  {
    if x >= 0 {
      assert x * y <= x * my <= mx * my;
      assert x * y >= x * (-my) == -(x * my);
    } else {
      var z := -x;
      assert z * y <= z * my <= mx * my;
      assert z * y >= z * (-my) == -(z * my);
      assert x * y == -(z * y);
    }
  }

  /** The 64-bit equation cannot wrap: it is an equation over the integers. */
  lemma EquationExact(signed: bool, n: int, d: int, q: int, r: int)
    requires IsWord(n) && IsWord(d) && IsWord(q) && IsWord(r)
    ensures -(WORD * WORD) < Read(signed, d) * Quot(signed, n, d, q) + Remd(signed, n, r) - Read(signed, n) < WORD * WORD
  {
    var x, y := Read(signed, d), Quot(signed, n, d, q);
    if signed {
      ProductBound(x, y, HALF, WORD);
    } else {
      ProductBound(x, y, WORD - 1, WORD - 1);
      assert 0 <= x * y;
    }
  }

  lemma SmallMultiple(x: int, m: int)
    requires m > 0 && -m < x < m && x % m == 0
    ensures x == 0
  {
    MultipleBound(m, x / m);
  }

  lemma TruncAtOverflow()
    ensures TruncDiv(-HALF, -1) == HALF && TruncRem(-HALF, -1) == 0
  {
  }

  lemma DivisionSound(signed: bool, n: int, d: int, q: int, r: int)
    requires IsWord(n) && IsWord(d) && IsWord(q) && IsWord(r)
    requires DivisionRules(signed, n, d, q, r)
    ensures q == Div(signed, n, d) && r == Rem(signed, n, d)
  {
    hide TruncDiv, TruncRem, Abs;
    var nn, dd, qq, rr := Read(signed, n), Read(signed, d), Quot(signed, n, d, q), Remd(signed, n, r);
    EquationExact(signed, n, d, q, r);
    SmallMultiple(dd * qq + rr - nn, WORD * WORD);
    if d != 0 {
      TruncUnique(nn, dd, qq, rr);
      TruncAtOverflow();
      ModShift(q, -QuotientSign(signed, n, d, q), WORD);
      ModShift(r, -RemainderSign(signed, n, r), WORD);
    } else {
      assert dd * qq == 0;
    }
  }

  lemma TruncRange(signed: bool, n: int, d: int)
    requires IsWord(n) && IsWord(d) && d != 0
    ensures var t := TruncDiv(Read(signed, n), Read(signed, d));
            if Negative(signed, n) == Negative(signed, d) then 0 <= t < WORD else -WORD < t <= 0
  {
    hide *;
    var a, b := Abs(Read(signed, n)), Abs(Read(signed, d));
    AbsRange(signed, n);
    AbsRange(signed, d);
    var q, r := EuclidFact(a, b);
    assert q <= a by {
      if q > a { MultipleBound(q, b); }
    }
    TruncDivCases(signed, n, d);
  }

  lemma AbsRange(signed: bool, x: int)
    requires IsWord(x)
    ensures 0 <= Abs(Read(signed, x)) < WORD && (x != 0 ==> Abs(Read(signed, x)) > 0)
  {
  }

  lemma TruncDivCases(signed: bool, n: int, d: int)
    requires IsWord(n) && IsWord(d) && d != 0
    ensures Read(signed, d) != 0
    ensures var q := Abs(Read(signed, n)) / Abs(Read(signed, d));
            TruncDiv(Read(signed, n), Read(signed, d)) == if Negative(signed, n) == Negative(signed, d) then q else -q
  {
  }

  lemma QuotIsTrunc(signed: bool, n: int, d: int)
    requires IsWord(n) && IsWord(d) && d != 0
    ensures Read(signed, d) != 0 && Quot(signed, n, d, Div(signed, n, d)) == TruncDiv(Read(signed, n), Read(signed, d))
  {
    hide TruncDiv, TruncRem, Abs;
    TruncAtOverflow();
    TruncRange(signed, n, d);
  }

  lemma RemdIsTrunc(signed: bool, n: int, d: int)
    requires IsWord(n) && IsWord(d) && d != 0
    ensures Read(signed, d) != 0 && Remd(signed, n, Rem(signed, n, d)) == TruncRem(Read(signed, n), Read(signed, d))
  {
    hide TruncDiv, TruncRem, Abs;
    TruncAtOverflow();
    TruncSpec(Read(signed, n), Read(signed, d));
    AbsRange(signed, d);
    AbsCases(TruncRem(Read(signed, n), Read(signed, d)));
  }

  /** The results of the standard meet the rules. */
  lemma DivisionComplete(signed: bool, n: int, d: int)
    requires IsWord(n) && IsWord(d)
    ensures DivisionRules(signed, n, d, Div(signed, n, d), Rem(signed, n, d))
  {
    hide TruncDiv, TruncRem, Abs, Quot, Remd;
    if d != 0 {
      QuotIsTrunc(signed, n, d);
      RemdIsTrunc(signed, n, d);
      TruncSpec(Read(signed, n), Read(signed, d));
    } else {
      RemdOfZero(signed, n);
      assert Read(signed, d) * Quot(signed, n, d, ALL_ONES) == 0;
    }
  }

  lemma RemdOfZero(signed: bool, n: int)
    requires IsWord(n)
    ensures Remd(signed, n, n) == Read(signed, n)
  {
  }
}
