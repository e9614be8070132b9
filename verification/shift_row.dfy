/**
  The shift rows of the full machine: the constraints as field equations and table lookups, and
  the witness functions that fill a row.
 */
module ShiftRows {
  import opened ModArith
  import opened Mersenne31Prime
  import opened Rv32m
  import opened ShiftTables

  /** The columns a shift uses; every entry is a reduced field element. */
  datatype Row = Row(
    rs1Low: int, rs1High: int, rs2Low: int, sign: int, isRight: int, isSra: int,
    amount: int, lowIn: int, lowOut: int, highIn: int, highOut: int,
    fillLow: int, fillHigh: int, selectedLow: int, selectedHigh: int, rdLow: int, rdHigh: int)

  predicate Reduced(x: int) { 0 <= x < P }
  predicate Same(x: int, y: int) { (x - y) % P == 0 }

  /** The operands are 16-bit halves, the sign is the top bit, and an arithmetic shift goes right. */
  predicate Inputs(w: Row) {
    && 0 <= w.rs1Low < HALFWORD && 0 <= w.rs1High < HALFWORD && 0 <= w.rs2Low < HALFWORD
    && w.sign == (if w.rs1High >= 0x8000 then 1 else 0)
    && 0 <= w.isSra <= w.isRight <= 1
  }

  /** The key and the two values are a row of the table. */
  ghost predicate InShiftTable(key: int, v0: int, v1: int) {
    exists k :: 0 <= k < 0x40_0000 && Same(key, k) && ShiftEntry(k) == (v0, v1)
  }
  ghost predicate InFillerTable(key: int, v0: int, v1: int) {
    exists k :: 0 <= k < 0x80 && Same(key, k) && SraFiller(k) == (v0, v1)
  }
  ghost predicate InLowerFive(key: int, v0: int) {
    exists k :: 0 <= k < HALFWORD && Same(key, k) && LowerFiveBits(k) == v0
  }

  ghost predicate Lookups(w: Row) {
    && InLowerFive(w.rs2Low, w.amount)
    && InShiftTable(w.rs1Low + 0x1_0000 * w.amount + 0x20_0000 * w.isRight, w.lowIn, w.lowOut)
    && InShiftTable(w.rs1High + 0x1_0000 * w.amount + 0x20_0000 * w.isRight, w.highIn, w.highOut)
    && InFillerTable(w.sign + 2 * w.isSra + 4 * w.amount, w.fillLow, w.fillHigh)
  }

  predicate Sums(w: Row) {
    && Reduced(w.selectedLow) && Reduced(w.selectedHigh) && Reduced(w.rdLow) && Reduced(w.rdHigh)
    && Same(w.selectedLow, w.isRight * (w.lowIn + w.highOut) + (1 - w.isRight) * w.lowIn)
    && Same(w.selectedHigh, w.isRight * w.highIn + (1 - w.isRight) * (w.highIn + w.lowOut))
    && Same(w.rdLow, w.selectedLow + w.fillLow)
    && Same(w.rdHigh, w.selectedHigh + w.fillHigh)
  }

  ghost predicate Satisfied(w: Row) { Lookups(w) && Sums(w) }

  /** SLL, SRL and SRA with the amount taken modulo 32. */
  function Expected(w: Row): int
    requires Inputs(w)
  {
    var x, s := w.rs1Low + HALFWORD * w.rs1High, w.rs2Low % 32;
    if w.isRight == 0 then ShiftLeft(x, s) else if w.isSra == 0 then ShiftRight(x, s) else ShiftArithmetic(x, s)
  }

  lemma SmallSame(x: int, y: int)
    requires 0 <= x < P && 0 <= y < P && Same(x, y)
    ensures x == y
  {
  }

  // ------------------------------------------------------------- the entries

  lemma DecodeKey(lo: int, s: int, right: int)
    requires 0 <= lo < HALFWORD && 0 <= s < 32 && 0 <= right <= 1
    ensures var k := lo + 0x1_0000 * s + 0x20_0000 * right;
      0 <= k < 0x40_0000 && k % HALFWORD == lo && k / HALFWORD % 32 == s && (k / 0x20_0000 > 0 <==> right == 1)
  {
  }

  lemma EntryOfKey(lo: int, s: int, right: int)
    requires 0 <= lo < HALFWORD && 0 <= s < 32 && 0 <= right <= 1
    ensures var k := lo + 0x1_0000 * s + 0x20_0000 * right;
      0 <= k < 0x40_0000 && ShiftEntry(k) == if right == 1 then RightEntry(lo, s) else LeftEntry(lo, s)
  {
    DecodeKey(lo, s, right);
  }

  lemma ShiftLooksUp(lo: int, s: int, right: int, v0: int, v1: int)
    requires 0 <= lo < HALFWORD && 0 <= s < 32 && 0 <= right <= 1
    ensures InShiftTable(lo + 0x1_0000 * s + 0x20_0000 * right, v0, v1)
       <==> (v0, v1) == if right == 1 then RightEntry(lo, s) else LeftEntry(lo, s)
  {
    var k := lo + 0x1_0000 * s + 0x20_0000 * right;
    EntryOfKey(lo, s, right);
    hide ShiftEntry, RightEntry, LeftEntry;
    assert Same(k, k);
    forall l | 0 <= l < 0x40_0000 && Same(k, l)
      ensures l == k
    {
      SmallSame(k, l);
    }
  }

  lemma FillerOfKey(sign: int, sra: int, s: int)
    requires 0 <= sign <= 1 && 0 <= sra <= 1 && 0 <= s < 32
    ensures var k := sign + 2 * sra + 4 * s;
      && 0 <= k < 0x80
      && (sign == 0 || sra == 0 || s == 0 ==> SraFiller(k) == (0, 0))
      && (sign == 1 && sra == 1 && s > 0 ==> Halves(SraFiller(k).0, SraFiller(k).1, WORD - Exp2(32 - s)))
  {
    FillerDecode(sign, sra, s);
    if sign == 1 && sra == 1 && s > 0 {
      FillerMask(s);
      CutWord(WORD - Exp2(32 - s));
    }
    hide Exp2;
  }

  lemma FillerDecode(sign: int, sra: int, s: int)
    requires 0 <= sign <= 1 && 0 <= sra <= 1 && 0 <= s < 32
    ensures var k := sign + 2 * sra + 4 * s; 0 <= k < 0x80 && k % 2 == sign && k / 2 % 2 == sra && k / 4 == s
  {
  }

  lemma CutWord(v: int)
    requires IsWord(v)
    ensures Halves(v % HALFWORD, v / HALFWORD % HALFWORD, v)
  {
  }

  lemma FillerLooksUp(sign: int, sra: int, s: int, v0: int, v1: int)
    requires 0 <= sign <= 1 && 0 <= sra <= 1 && 0 <= s < 32
    ensures InFillerTable(sign + 2 * sra + 4 * s, v0, v1) <==> SraFiller(sign + 2 * sra + 4 * s) == (v0, v1)
  {
    var k := sign + 2 * sra + 4 * s;
    hide SraFiller;
    assert Same(k, k);
    forall l | 0 <= l < 0x80 && Same(k, l)
      ensures l == k
    {
      SmallSame(k, l);
    }
  }

  lemma AmountLooksUp(rs2Low: int, v: int)
    requires 0 <= rs2Low < HALFWORD
    ensures InLowerFive(rs2Low, v) <==> v == rs2Low % 32
  {
    assert Same(rs2Low, rs2Low);
    forall l | 0 <= l < HALFWORD && Same(rs2Low, l)
      ensures l == rs2Low
    {
      SmallSame(rs2Low, l);
    }
  }

  // ----------------------------------------------------------------- soundness

  /** The selected halves make up the logical shift, without carry. */
  lemma SelectedCorrect(w: Row)
    requires Inputs(w) && Satisfied(w)
    ensures w.amount == w.rs2Low % 32
    ensures Halves(w.selectedLow, w.selectedHigh, Logical(w))
  {
    hide InShiftTable, InFillerTable, InLowerFive, LeftEntry, RightEntry, ShiftLeft, ShiftRight, Same, Halves;
    AmountLooksUp(w.rs2Low, w.amount);
    ShiftLooksUp(w.rs1Low, w.amount, w.isRight, w.lowIn, w.lowOut);
    ShiftLooksUp(w.rs1High, w.amount, w.isRight, w.highIn, w.highOut);
    Choose(w.isRight, w.lowIn + w.highOut, w.lowIn);
    Choose(w.isRight, w.highIn, w.highIn + w.lowOut);
    assert Same(w.selectedLow, if w.isRight == 1 then w.lowIn + w.highOut else w.lowIn);
    assert Same(w.selectedHigh, if w.isRight == 1 then w.highIn else w.highIn + w.lowOut);
    assert Reduced(w.selectedLow) && Reduced(w.selectedHigh);
    hide Satisfied, Lookups, Sums;
    if w.isRight == 1 {
      JoinRight(w.rs1Low, w.rs1High, w.amount, w.lowIn, w.highIn, w.highOut, w.selectedLow, w.selectedHigh);
    } else {
      JoinLeft(w.rs1Low, w.rs1High, w.amount, w.lowIn, w.lowOut, w.highIn, w.selectedLow, w.selectedHigh);
    }
  }

  lemma JoinRight(lo: int, hi: int, s: nat, lowIn: int, highIn: int, highOut: int, selectedLow: int, selectedHigh: int)
    requires 0 <= lo < HALFWORD && 0 <= hi < HALFWORD && s < 32
    requires lowIn == RightEntry(lo, s).0 && (highIn, highOut) == RightEntry(hi, s)
    requires Reduced(selectedLow) && Reduced(selectedHigh) && Same(selectedLow, lowIn + highOut) && Same(selectedHigh, highIn)
    ensures Halves(selectedLow, selectedHigh, ShiftRight(lo + HALFWORD * hi, s))
  {
    hide RightEntry, ShiftRight;
    RightCorrect(lo, hi, s);
    SmallSame(selectedLow, lowIn + highOut);
    SmallSame(selectedHigh, highIn);
  }

  lemma JoinLeft(lo: int, hi: int, s: nat, lowIn: int, lowOut: int, highIn: int, selectedLow: int, selectedHigh: int)
    requires 0 <= lo < HALFWORD && 0 <= hi < HALFWORD && s < 32
    requires (lowIn, lowOut) == LeftEntry(lo, s) && highIn == LeftEntry(hi, s).0
    requires Reduced(selectedLow) && Reduced(selectedHigh) && Same(selectedLow, lowIn) && Same(selectedHigh, highIn + lowOut)
    ensures Halves(selectedLow, selectedHigh, ShiftLeft(lo + HALFWORD * hi, s))
  {
    hide LeftEntry, ShiftLeft;
    LeftCorrect(lo, hi, s);
    SmallSame(selectedLow, lowIn);
    SmallSame(selectedHigh, highIn + lowOut);
  }

  lemma Choose(b: int, u: int, v: int)
    requires 0 <= b <= 1
    ensures b * u + (1 - b) * v == if b == 1 then u else v
  {
    if b == 0 { assert b * u == 0 && (1 - b) * v == v; } else { assert b * u == u && (1 - b) * v == 0; }
  }

  /** Every row that satisfies the constraints holds the result of the instruction. */
  lemma ShiftSound(w: Row)
    requires Inputs(w) && Satisfied(w)
    ensures Halves(w.rdLow, w.rdHigh, Expected(w))
  {
    SelectedCorrect(w);
    FilledSum(w);
    assert Reduced(w.rdLow) && Reduced(w.rdHigh) && Same(w.rdLow, w.selectedLow + w.fillLow) && Same(w.rdHigh, w.selectedHigh + w.fillHigh);
    hide Satisfied, Expected, Same;
    SmallSame(w.rdLow, w.selectedLow + w.fillLow);
    SmallSame(w.rdHigh, w.selectedHigh + w.fillHigh);
  }

  function Logical(w: Row): int
    requires Inputs(w) && 0 <= w.amount < 32
  {
    var x := w.rs1Low + HALFWORD * w.rs1High;
    if w.isRight == 1 then ShiftRight(x, w.amount) else ShiftLeft(x, w.amount)
  }

  /** Adding the filler to the logical shift never carries and gives the expected result. */
  lemma FilledSum(w: Row)
    requires Inputs(w) && w.amount == w.rs2Low % 32 && Halves(w.selectedLow, w.selectedHigh, Logical(w))
    requires InFillerTable(w.sign + 2 * w.isSra + 4 * w.amount, w.fillLow, w.fillHigh)
    ensures Halves(w.selectedLow + w.fillLow, w.selectedHigh + w.fillHigh, Expected(w))
  {
    FillerLooksUp(w.sign, w.isSra, w.amount, w.fillLow, w.fillHigh);
    FillerOfKey(w.sign, w.isSra, w.amount);
    hide InFillerTable, SraFiller, ShiftLeft, ShiftRight, ShiftArithmetic, Exp2;
    var x, s := w.rs1Low + HALFWORD * w.rs1High, w.amount;
    if w.sign == 1 && w.isSra == 1 && s > 0 {
      ArithmeticFromLogical(x, s);
      var v, e := ShiftRight(x, s), Exp2(32 - s);
      NoCarry(w.selectedLow, w.selectedHigh, v, w.fillLow, w.fillHigh, e, s);
    } else {
      PlainArithmetic(x, s);
    }
  }

  /** Where nothing is filled, the arithmetic shift is the logical one. */
  lemma PlainArithmetic(x: int, s: nat)
    requires 0 <= x < WORD && s < 32
    ensures x < HALF || s == 0 ==> ShiftArithmetic(x, s) == ShiftRight(x, s)
  {
    if s == 0 {
      assert Exp2(0) == 1;
    } else if x < HALF {
      var d := Exp2(s);
      hide Exp2;
      QuotientBound(x, d);
    }
  }

  /** The filled bits are above the shifted ones, so the halves do not overflow. */
  lemma NoCarry(lo: int, hi: int, v: int, fillLo: int, fillHi: int, e: int, s: nat)
    requires Halves(lo, hi, v) && Halves(fillLo, fillHi, WORD - e) && 0 <= v < e && 1 <= s < 32 && e == Exp2(32 - s)
    ensures Halves(lo + fillLo, hi + fillHi, v + (WORD - e))
  {
    if s <= 16 {
      Above16(32 - s);
      hide Exp2;
      var d := Exp2(16 - s);
      assert fillLo == 0;
    } else {
      Complement(32 - s);
      hide Exp2;
      var c, d := Exp2(s - 16), Exp2(32 - s);
      assert e <= HALFWORD by { Scale(1, c, d); }
      assert hi == 0 && lo == v;
    }
  }

  // ------------------------------------------------------------------- witness

  /** A row being filled, place by place; the operand places are given. */
  class Witness {
    var rs1Low: int
    var rs1High: int
    var rs2Low: int
    var sign: int
    var isRight: int
    var isSra: int
    var amount: int
    var lowIn: int
    var lowOut: int
    var highIn: int
    var highOut: int
    var fillLow: int
    var fillHigh: int
    var selectedLow: int
    var selectedHigh: int
    var rdLow: int
    var rdHigh: int

    ghost function ToRow(): Row
      reads this
    {
      Row(rs1Low, rs1High, rs2Low, sign, isRight, isSra, amount, lowIn, lowOut, highIn, highOut,
          fillLow, fillHigh, selectedLow, selectedHigh, rdLow, rdHigh)
    }

    constructor (x: int, y: int, right: bool, arithmetic: bool)
      requires IsWord(x) && IsWord(y) && (arithmetic ==> right)
      ensures Inputs(ToRow()) && rs1Low + HALFWORD * rs1High == x && rs2Low == y % HALFWORD
      ensures isRight == (if right then 1 else 0) && isSra == (if arithmetic then 1 else 0)
    {
      rs1Low, rs1High, rs2Low := x % HALFWORD, x / HALFWORD, y % HALFWORD;
      sign := if x / HALFWORD >= 0x8000 then 1 else 0;
      isRight, isSra := if right then 1 else 0, if arithmetic then 1 else 0;
    }

    method EvalAmount()
      modifies this`amount
      ensures amount == rs2Low % 32
    {
      amount := LowerFiveBits(rs2Low);
    }

    /** Each half shifted in its window: what stays of one half and what leaves the other make up the shifted word. */
    method EvalHalves()
      requires 0 <= rs1Low < HALFWORD && 0 <= rs1High < HALFWORD && 0 <= amount < 32 && 0 <= isRight <= 1
      modifies this`lowIn, this`lowOut, this`highIn, this`highOut
      ensures isRight == 0 ==> Halves(lowIn, highIn + lowOut, ShiftLeft(rs1Low + HALFWORD * rs1High, amount))
      ensures isRight == 1 ==> Halves(lowIn + highOut, highIn, ShiftRight(rs1Low + HALFWORD * rs1High, amount))
      ensures (lowIn, lowOut) == EntryAt(rs1Low, amount, isRight) && (highIn, highOut) == EntryAt(rs1High, amount, isRight)
    {
      hide ShiftEntry, ShiftLeft, ShiftRight, LeftEntry, RightEntry;
      EntryOfKey(rs1Low, amount, isRight);
      EntryOfKey(rs1High, amount, isRight);
      LeftCorrect(rs1Low, rs1High, amount);
      RightCorrect(rs1Low, rs1High, amount);
      DecodeKey(rs1Low, amount, isRight);
      DecodeKey(rs1High, amount, isRight);
      var low := ShiftEntry(rs1Low + 0x1_0000 * amount + 0x20_0000 * isRight);
      lowIn, lowOut := low.0, low.1;
      var high := ShiftEntry(rs1High + 0x1_0000 * amount + 0x20_0000 * isRight);
      highIn, highOut := high.0, high.1;
    }

    /** The halves of the mask of the vacated bits, for an arithmetic shift of a negative word; zero otherwise. */
    method EvalFiller()
      requires 0 <= sign <= 1 && 0 <= isSra <= 1 && 0 <= amount < 32
      modifies this`fillLow, this`fillHigh
      ensures Halves(fillLow, fillHigh, if sign == 1 && isSra == 1 && amount > 0 then WORD - Exp2(32 - amount) else 0)
      ensures (fillLow, fillHigh) == SraFiller(sign + 2 * isSra + 4 * amount)
    {
      hide SraFiller, Exp2;
      FillerOfKey(sign, isSra, amount);
      var fill := SraFiller(sign + 2 * isSra + 4 * amount);
      fillLow, fillHigh := fill.0, fill.1;
    }

    method EvalResult()
      requires 0 <= isRight <= 1
      modifies this`selectedLow, this`selectedHigh, this`rdLow, this`rdHigh
      ensures Sums(ToRow())
    {
      hide Same;
      selectedLow := (isRight * highOut + lowIn) % P;
      selectedHigh := (lowOut - isRight * lowOut + highIn) % P;
      rdLow := (selectedLow + fillLow) % P;
      rdHigh := (selectedHigh + fillHigh) % P;
      EvaluatedSums(isRight, lowIn, highOut, highIn, lowOut, fillLow, fillHigh, selectedLow, selectedHigh);
    }

    /** The functions in their order: the amount, the two half shifts, the filler, the sums. */
    method Evaluate()
      requires Inputs(ToRow())
      modifies this`amount, this`lowIn, this`lowOut, this`highIn, this`highOut, this`fillLow, this`fillHigh,
               this`selectedLow, this`selectedHigh, this`rdLow, this`rdHigh
      ensures Satisfied(ToRow())
    {
      hide ShiftEntry, EntryAt, SraFiller, Lookups, Same, Sums;
      EvalAmount();
      EvalHalves();
      EvalFiller();
      EvalResult();
      FilledLookups(ToRow());
    }
  }

  function EntryAt(half: int, s: int, right: int): (int, int)
    requires 0 <= half < HALFWORD && 0 <= s < 32 && 0 <= right <= 1
  {
    DecodeKey(half, s, right);
    ShiftEntry(half + 0x1_0000 * s + 0x20_0000 * right)
  }

  lemma EvaluatedSums(b: int, lowIn: int, highOut: int, highIn: int, lowOut: int, fillLow: int, fillHigh: int, sl: int, sh: int)
    requires 0 <= b <= 1 && sl == (b * highOut + lowIn) % P && sh == (lowOut - b * lowOut + highIn) % P
    ensures Same(sl, b * (lowIn + highOut) + (1 - b) * lowIn)
    ensures Same(sh, b * highIn + (1 - b) * (highIn + lowOut))
    ensures Same((sl + fillLow) % P, sl + fillLow) && Same((sh + fillHigh) % P, sh + fillHigh)
  {
    Choose(b, lowIn + highOut, lowIn);
    Choose(b, highIn, highIn + lowOut);
    Choose(b, highOut, 0);
    Choose(b, lowOut, 0);
  }

  /** Values read from the tables at in-range keys satisfy the lookups. */
  lemma FilledLookups(w: Row)
    requires Inputs(w) && w.amount == w.rs2Low % 32
    requires (w.lowIn, w.lowOut) == EntryAt(w.rs1Low, w.amount, w.isRight)
    requires (w.highIn, w.highOut) == EntryAt(w.rs1High, w.amount, w.isRight)
    requires (w.fillLow, w.fillHigh) == SraFiller(w.sign + 2 * w.isSra + 4 * w.amount)
    ensures Lookups(w)
  {
    hide ShiftEntry, SraFiller, InShiftTable, InFillerTable, InLowerFive, LeftEntry, RightEntry;
    AmountLooksUp(w.rs2Low, w.amount);
    EntryOfKey(w.rs1Low, w.amount, w.isRight);
    ShiftLooksUp(w.rs1Low, w.amount, w.isRight, w.lowIn, w.lowOut);
    EntryOfKey(w.rs1High, w.amount, w.isRight);
    ShiftLooksUp(w.rs1High, w.amount, w.isRight, w.highIn, w.highOut);
    FillerLooksUp(w.sign, w.isSra, w.amount, w.fillLow, w.fillHigh);
  }

  lemma ModOfMod(y: int)
    requires IsWord(y)
    ensures y % HALFWORD % 32 == y % 32
  {
  }

  /** Filling a row computes the shift for every pair of words. */
  method Execute(x: int, y: int, right: bool, arithmetic: bool) returns (rd: int)
    requires IsWord(x) && IsWord(y) && (arithmetic ==> right)
    ensures rd == if !right then ShiftLeft(x, y % 32) else if !arithmetic then ShiftRight(x, y % 32) else ShiftArithmetic(x, y % 32)
  {
    hide Satisfied, ShiftLeft, ShiftRight, ShiftArithmetic;
    var row := new Witness(x, y, right, arithmetic);
    row.Evaluate();
    ShiftSound(row.ToRow());
    ModOfMod(y);
    rd := row.rdLow + HALFWORD * row.rdHigh;
  }
}
