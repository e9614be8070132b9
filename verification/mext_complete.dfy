/** A row filled by witness generation satisfies every constraint. */
module MExtensionComplete {
  import opened ModArith
  import opened MulAddChain
  import opened Rv32m
  import opened MExtension
  import opened MExtensionWitness

  // What the witness methods leave in a row, group by group.

  predicate Inputs(w: Row) {
    && IsBit(w.mul) && w.divrem == 1 - w.mul && IsBit(w.minor0) && IsBit(w.minor1) && IsBit(w.minor2)
    && w.rs1.Ranged() && w.rs2.Ranged() && w.rs1Top == w.rs1.hi / 0x8000 && w.rs2Top == w.rs2.hi / 0x8000
    && w.out0.Ranged() && w.out1.Ranged() && w.out2.Ranged()
  }

  predicate MulComputed(w: Row) {
    && w.op1Signed == Bit(w.minor1 == 1 || w.minor2 == 1)
    && w.mulSign1 == Negative(w.minor1 == 1 || w.minor2 == 1, w.rs1.Value())
    && w.mulSign2 == Negative(w.minor1 == 1, w.rs2.Value())
    && w.mulRd == Pick(w.minor0, w.out0, w.out1)
    && (w.mul == 1 ==> var v := WideProduct(w.mulSign1, w.mulSign2, w.rs1.Value(), w.rs2.Value());
                       w.out0.Value() == v % WORD && w.out1.Value() == v / WORD % WORD)
  }

  predicate DivComputed(w: Row) {
    && w.isSigned == Bit(SignedDivision(w))
    && w.divisorSign == Negative(SignedDivision(w), w.rs2.Value())
    && w.dividendSign == Negative(SignedDivision(w), w.rs1.Value())
    && w.signsDiffer == Bit(w.dividendSign != w.divisorSign)
    && w.extension == 0xffff * w.dividendSign
    && w.quotientSign == Bit(w.signsDiffer == 1 && w.quotientZero.flag == 0)
    && w.remainderSign == Bit(w.dividendSign == 1 && w.remainderZero.flag == 0)
    && (w.divrem == 1 ==> w.out0.Value() == Div(SignedDivision(w), w.rs1.Value(), w.rs2.Value()))
    && (w.divrem == 1 ==> w.out1.Value() == Rem(SignedDivision(w), w.rs1.Value(), w.rs2.Value()))
  }

  predicate ZerosComputed(w: Row) {
    && ZeroTestOf(w.quotientZero, Masked(w.divrem, w.out0))
    && ZeroTestOf(w.remainderZero, Masked(w.divrem, w.out1))
    && ZeroTestOf(w.divisorZero, Masked(w.divrem, w.rs2))
  }

  predicate CompareComputed(w: Row) {
    && w.divByZero == Bit(w.divisorZero.flag == 1 && w.divrem == 1)
    && w.compareDiffer == Bit(w.remainderSign != w.divisorSign)
    && w.addFlag == Bit(w.divrem == 1 && w.compareDiffer == 1)
    && w.subFlag == Bit(w.divrem == 1 && w.compareDiffer == 0)
    && IsBit(w.overflow) && (w.divrem == 0 ==> w.overflow == 0)
    && (w.addFlag == 1 ==> w.out1.Value() + w.rs2.Value() == w.out2.Value() + WORD * w.overflow)
    && (w.subFlag == 1 ==> w.out2.Value() + w.rs2.Value() == w.out1.Value() + WORD * w.overflow)
    && w.carryMid == MidCarry(w.addFlag, w.subFlag, w.out1.lo, w.rs2.lo, w.out2.lo)
    && w.condition == Bit(w.compareDiffer != w.overflow)
    && ZeroTestOf(w.outZero, w.out2)
    && w.reversed == Bit(w.condition == 0 && w.outZero.flag == 0)
    && w.smaller == (if w.remainderSign == 1 then w.reversed else w.condition)
    && w.takeQuotient == Bit(w.minor0 == 1 || w.minor1 == 1)
    && w.divRd == Pick(w.takeQuotient, w.out0, w.out1)
  }

  predicate ChainComputed(w: Row) {
    && w.op1 == Pick(w.mul, w.rs1, w.rs2) && w.op2 == Pick(w.mul, w.rs2, w.out0)
    && w.sign1 == (if w.mul == 1 then w.mulSign1 else w.divisorSign)
    && w.sign2 == (if w.mul == 1 then w.mulSign2 else w.quotientSign)
    && w.addend == Pick(w.mul, Word(0, 0), w.out1)
    && w.addendSign == (if w.mul == 1 then 0 else w.remainderSign)
    && w.low == Pick(w.mul, w.out0, w.rs1) && w.high == Pick(w.mul, w.out1, Word(w.extension, w.extension))
    && w.bytes1 == Bytes(w.op1) && w.bytes2 == Bytes(w.op2)
    && w.carries == CarriesOf(w.Chain())
  }

  predicate Computed(w: Row) {
    Inputs(w) && MulComputed(w) && DivComputed(w) && ZerosComputed(w) && CompareComputed(w) && ChainComputed(w)
  }

  // ------------------------------------------------------------- the gates

  lemma GateHolds(a: int, b: int, c: int)
    requires IsBit(a) && IsBit(b)
    ensures c == Bit(a == 1 && b == 1) ==> And(a, b, c)
    ensures c == Bit(a == 1 && b == 0) ==> AndNot(a, b, c)
    ensures c == Bit(a == 0 && b == 0) ==> Nor(a, b, c)
    ensures c == Bit(a == 1 || b == 1) ==> Or(a, b, c)
    ensures c == Bit(a != b) ==> Xor(a, b, c)
  {
  }

  lemma ChooseHolds(flag: int, a: int, b: int)
    requires IsBit(flag)
    ensures Choose(flag, a, b, if flag == 1 then a else b)
  {
  }

  lemma SelectHolds(f: int, a: int, g: int, b: int)
    requires IsBit(f) && g == 1 - f
    ensures Select(f, a, g, b, if f == 1 then a else b)
  {
  }

  lemma MulGatesHold(w: Row)
    requires Inputs(w) && MulComputed(w)
    ensures MulGates(w)
  {
    hide Or, Choose, WideProduct;
    TopBit(w.rs1);
    TopBit(w.rs2);
    GateHolds(w.minor1, w.minor2, w.op1Signed);
    ChooseHolds(w.op1Signed, w.rs1Top, 0);
    ChooseHolds(w.minor1, w.rs2Top, 0);
    ChooseHolds(w.minor0, w.out0.lo, w.out1.lo);
    ChooseHolds(w.minor0, w.out0.hi, w.out1.hi);
  }

  lemma SignGatesHold(w: Row)
    requires Inputs(w) && DivComputed(w) && ZerosComputed(w)
    ensures SignGates(w)
  {
    hide Or, And, AndNot, Xor, Div, Rem, ZeroTest.Ok;
    TopBit(w.rs1);
    TopBit(w.rs2);
    GateHolds(w.minor0, w.minor2, w.isSigned);
    GateHolds(w.isSigned, w.rs2Top, w.divisorSign);
    GateHolds(w.isSigned, w.rs1Top, w.dividendSign);
    GateHolds(w.dividendSign, w.divisorSign, w.signsDiffer);
    GateHolds(w.signsDiffer, w.quotientZero.flag, w.quotientSign);
    GateHolds(w.dividendSign, w.remainderZero.flag, w.remainderSign);
  }

  lemma MaskHolds(f: int, x: int)
    requires IsBit(f)
    ensures Zero(f * x - if f == 1 then x else 0)
  {
  }

  lemma ZeroTestsHold(w: Row)
    requires Inputs(w) && ZerosComputed(w)
    ensures ZeroTests(w)
  {
    hide ZeroTest.Ok, Zero;
    MaskHolds(w.divrem, w.out0.lo); MaskHolds(w.divrem, w.out0.hi);
    MaskHolds(w.divrem, w.out1.lo); MaskHolds(w.divrem, w.out1.hi);
    MaskHolds(w.divrem, w.rs2.lo); MaskHolds(w.divrem, w.rs2.hi);
  }

  /** The limb equations of a 32-bit addition, with the carry read off bit 16. */
  lemma LimbEquations(a: Word, b: Word, c: Word, top: int, mid: int)
    requires a.Ranged() && b.Ranged() && c.Ranged() && IsBit(top)
    requires a.Value() + b.Value() == c.Value() + WORD * top
    requires mid == (a.lo + b.lo - c.lo) % TWO_32 / TWO_16 % 2
    ensures IsBit(mid) && a.lo + b.lo - c.lo == TWO_16 * mid && a.hi + b.hi - c.hi + mid == TWO_16 * top
  {
    var k := TWO_16 * top + c.hi - a.hi - b.hi;
    assert a.lo + b.lo - c.lo == TWO_16 * k;
  }

  lemma AddSubHolds(w: Row)
    requires Inputs(w) && CompareComputed(w) && IsBit(w.remainderSign) && IsBit(w.divisorSign)
    ensures IsBit(w.carryMid)
    ensures Zero(w.addFlag * (w.out1.lo + w.rs2.lo - w.out2.lo) + w.subFlag * (w.out2.lo + w.rs2.lo - w.out1.lo) - TWO_16 * w.carryMid)
    ensures Zero(w.addFlag * (w.out1.hi + w.rs2.hi - w.out2.hi) + w.subFlag * (w.out2.hi + w.rs2.hi - w.out1.hi)
                 + w.carryMid - TWO_16 * w.overflow)
  {
    hide ZeroTest.Ok;
    if w.addFlag == 1 {
      LimbEquations(w.out1, w.rs2, w.out2, w.overflow, w.carryMid);
    } else if w.subFlag == 1 {
      LimbEquations(w.out2, w.rs2, w.out1, w.overflow, w.carryMid);
    }
    TwoMasks(w.addFlag, w.subFlag, w.out1.lo + w.rs2.lo - w.out2.lo, w.out2.lo + w.rs2.lo - w.out1.lo);
    TwoMasks(w.addFlag, w.subFlag, w.out1.hi + w.rs2.hi - w.out2.hi, w.out2.hi + w.rs2.hi - w.out1.hi);
  }

  lemma TwoMasks(f: int, g: int, x: int, y: int)
    requires IsBit(f) && IsBit(g) && f + g <= 1
    ensures f * x + g * y == if f == 1 then x else if g == 1 then y else 0
  {
  }

  lemma CompareGatesHold(w: Row)
    requires Inputs(w) && ZerosComputed(w) && CompareComputed(w) && IsBit(w.remainderSign) && IsBit(w.divisorSign)
    ensures CompareGates(w)
  {
    hide And, AndNot, Xor, Nor, Choose, Zero, ZeroTest.Ok, MidCarry;
    AddSubHolds(w);
    GateHolds(w.divisorZero.flag, w.divrem, w.divByZero);
    GateHolds(w.remainderSign, w.divisorSign, w.compareDiffer);
    GateHolds(w.divrem, w.compareDiffer, w.addFlag);
    GateHolds(w.divrem, w.compareDiffer, w.subFlag);
    GateHolds(w.compareDiffer, w.overflow, w.condition);
    GateHolds(w.condition, w.outZero.flag, w.reversed);
    ChooseHolds(w.remainderSign, w.reversed, w.condition);
  }

  // ------------------------------------------------------------- the chain

  lemma SignsAreBits(w: Row)
    requires MulComputed(w) && DivComputed(w)
    ensures IsBit(w.mulSign1) && IsBit(w.mulSign2) && IsBit(w.divisorSign) && IsBit(w.dividendSign)
    ensures IsBit(w.quotientSign) && IsBit(w.remainderSign) && IsLimb(w.extension)
  {
    hide WideProduct, Div, Rem;
  }

  lemma ChainRanged(w: Row)
    requires Inputs(w) && MulComputed(w) && DivComputed(w) && ChainComputed(w)
    ensures var r := w.Chain();
            && r.Ranged()
            && r.a.Value() == w.op1.Value() - TWO_32 * w.sign1 && r.b.Value() == w.op2.Value() - TWO_32 * w.sign2
  {
    hide MulComputed, DivComputed, CarriesOf, Bytes;
    SignsAreBits(w);
    BytesOf(w.op1);
    BytesOf(w.op2);
  }

  lemma WideProductIsProduct(s1: bool, s2: bool, x: int, y: int)
    requires IsWord(x) && IsWord(y)
    ensures WideProduct(Negative(s1, x), Negative(s2, y), x, y)
            == (x - WORD * Negative(s1, x)) * (y - WORD * Negative(s2, y))
  {
  }

  lemma WholeFromHalves(v: int)
    ensures (v - v % WORD - WORD * (v / WORD % WORD)) % (WORD * WORD) == 0
  {
    var k := v / WORD / WORD;
    assert v - v % WORD - WORD * (v / WORD % WORD) == k * (WORD * WORD);
    ModShift(0, k, WORD * WORD);
  }

  lemma MulChainHolds(w: Row)
    requires Inputs(w) && MulComputed(w) && DivComputed(w) && ChainComputed(w) && w.mul == 1
    ensures w.Chain().Holds()
  {
    hide DivComputed, CarriesOf, WideProduct, Negative;
    ChainRanged(w);
    var x, y := w.rs1.Value(), w.rs2.Value();
    WideProductIsProduct(w.minor1 == 1 || w.minor2 == 1, w.minor1 == 1, x, y);
    var r := w.Chain();
    var v := WideProduct(w.mulSign1, w.mulSign2, x, y);
    assert r.a.Value() * r.b.Value() == v;
    WholeFromHalves(v);
  }

  lemma DivSignsComputed(w: Row)
    requires Inputs(w) && DivComputed(w) && ZerosComputed(w) && w.divrem == 1
    ensures var signed, n, d := SignedDivision(w), w.rs1.Value(), w.rs2.Value();
            && w.quotientSign == QuotientSign(signed, n, d, w.out0.Value())
            && w.remainderSign == RemainderSign(signed, n, w.out1.Value())
  {
    hide Div, Rem, ZeroTest.Ok;
  }

  lemma DivChainHolds(w: Row)
    requires Inputs(w) && MulComputed(w) && DivComputed(w) && ZerosComputed(w) && ChainComputed(w) && w.divrem == 1
    ensures w.Chain().Holds()
  {
    hide MulComputed, ZerosComputed, CarriesOf, Div, Rem, Abs;
    ChainRanged(w);
    DivSignsComputed(w);
    var signed, n, d, q, m := SignedDivision(w), w.rs1.Value(), w.rs2.Value(), w.out0.Value(), w.out1.Value();
    DivisionComplete(signed, n, d);
    var r := w.Chain();
    var x := Read(signed, d) * Quot(signed, n, d, q) + Remd(signed, n, m) - Read(signed, n);
    assert x % TWO_64 == 0;
    assert r.a.Value() == Read(signed, d) && r.b.Value() == Quot(signed, n, d, q);
    assert r.low.Value() + TWO_32 * r.high.Value() == Read(signed, n) + TWO_64 * Negative(signed, n);
    ModShift(x, -Negative(signed, n), TWO_64);
  }

  lemma ChainGatesHold(w: Row)
    requires Inputs(w) && MulComputed(w) && DivComputed(w) && ZerosComputed(w) && ChainComputed(w)
    ensures ChainGates(w) && w.carries.Ranged()
  {
    hide MulComputed, DivComputed, ZerosComputed, CarriesOf, Select, Constraints, Relation.Holds, Relation.Ranged, Bytes;
    ChainRanged(w);
    if w.mul == 1 { MulChainHolds(w); } else { DivChainHolds(w); }
    Complete(w.Chain());
    BytesOf(w.op1);
    BytesOf(w.op2);
    SmallZero(0);
    SelectHolds(w.mul, w.rs1.lo, w.divrem, w.rs2.lo);
    SelectHolds(w.mul, w.rs1.hi, w.divrem, w.rs2.hi);
    SelectHolds(w.mul, w.rs2.lo, w.divrem, w.out0.lo);
    SelectHolds(w.mul, w.rs2.hi, w.divrem, w.out0.hi);
    SelectHolds(w.mul, w.mulSign1, w.divrem, w.divisorSign);
    SelectHolds(w.mul, w.mulSign2, w.divrem, w.quotientSign);
    SelectHolds(w.mul, 0, w.divrem, w.out1.lo);
    SelectHolds(w.mul, 0, w.divrem, w.out1.hi);
    SelectHolds(w.mul, 0, w.divrem, w.remainderSign);
    SelectHolds(w.mul, w.out0.lo, w.divrem, w.rs1.lo);
    SelectHolds(w.mul, w.out0.hi, w.divrem, w.rs1.hi);
    SelectHolds(w.mul, w.out1.lo, w.divrem, w.extension);
    SelectHolds(w.mul, w.out1.hi, w.divrem, w.extension);
  }

  // -------------------------------------------------------- the whole row

  lemma TypedHolds(w: Row)
    requires Inputs(w) && MulComputed(w) && DivComputed(w) && ZerosComputed(w) && CompareComputed(w) && ChainComputed(w)
    requires w.carries.Ranged() && IsBit(w.carryMid)
    ensures Typed(w)
  {
    hide Inputs, MulComputed, DivComputed, ZerosComputed, CompareComputed, ChainComputed, TypedInputs, TypedFlags, TypedChain;
    SignsAreBits(w);
    assert TypedInputs(w) by { TypedInputsHolds(w); }
    TypedFlagsHolds(w);
    TypedChainHolds(w);
  }

  lemma TypedInputsHolds(w: Row)
    requires Inputs(w)
    ensures TypedInputs(w)
  {
  }

  lemma TypedFlagsHolds(w: Row)
    requires Inputs(w) && MulComputed(w) && DivComputed(w) && CompareComputed(w) && IsBit(w.carryMid)
    ensures TypedFlags(w)
  {
    hide WideProduct, Div, Rem, ZeroTest.Ok, MidCarry, Negative;
    SignsAreBits(w);
    BitIsBoolean(w.carryMid);
    BitIsBoolean(w.overflow);
  }

  lemma BitIsBoolean(b: int)
    requires IsBit(b)
    ensures Boolean(b)
  {
  }

  lemma TypedChainHolds(w: Row)
    requires Inputs(w) && MulComputed(w) && DivComputed(w) && ChainComputed(w) && w.carries.Ranged()
    ensures TypedChain(w)
  {
    hide MulComputed, DivComputed, CarriesOf, Carries.Ranged, Bytes;
    SignsAreBits(w);
    BytesOf(w.op1);
    BytesOf(w.op2);
  }

  lemma ResultGatesHold(w: Row)
    requires Computed(w) && Typed(w) && CompareGates(w)
    ensures ResultGates(w)
  {
    hide WideProduct, Div, Rem, ZeroTest.Ok, CarriesOf, MidCarry, Typed, CompareGates, ChainComputed, MulComputed, Or, Choose, Abs;
    GateHolds(w.minor0, w.minor1, w.takeQuotient);
    ChooseHolds(w.takeQuotient, w.out0.lo, w.out1.lo);
    ChooseHolds(w.takeQuotient, w.out0.hi, w.out1.hi);
    if w.divrem == 1 {
      DivSignsComputed(w);
      var signed, n, d := SignedDivision(w), w.rs1.Value(), w.rs2.Value();
      DivisionComplete(signed, n, d);
      Compare(w);
      assert w.divByZero == Bit(d == 0);
      assert d != 0 ==> w.smaller == 1;
      assert d == 0 ==> w.out0.lo == 0xffff && w.out0.hi == 0xffff;
      Products(w.divByZero, 1 - w.smaller, w.out0.lo - 0xffff, w.out0.hi - 0xffff);
    } else {
      Products(0, 1 - w.smaller, w.out0.lo - 0xffff, w.out0.hi - 0xffff);
    }
  }

  lemma Products(z: int, s: int, x: int, y: int)
    requires IsBit(z)
    ensures z == 1 || s == 0 ==> Zero((1 - z) * s)
    ensures Zero(0 * s)
    ensures z == 0 || (x == 0 && y == 0) ==> Zero(z * x) && Zero(z * y)
  {
  }

  /** Completeness: the constraints accept what the witness program computes. */
  lemma ComputedSatisfies(w: Row)
    requires Computed(w)
    ensures Satisfied(w)
  {
    hide Inputs, MulComputed, DivComputed, ZerosComputed, CompareComputed, ChainComputed;
    hide MulGates, SignGates, ZeroTests, CompareGates, ResultGates, ChainGates, Typed, Carries.Ranged;
    SignsAreBits(w);
    MulGatesHold(w);
    SignGatesHold(w);
    ZeroTestsHold(w);
    AddSubHolds(w);
    CompareGatesHold(w);
    ChainGatesHold(w);
    TypedHolds(w);
    ResultGatesHold(w);
  }

  lemma MulFilled(row: RowWitness)
    requires row.OutputsFilled() && row.SignsFilled()
    ensures MulComputed(row.ToRow())
  {
    hide WideProduct, Div, Rem, Negative, Word.Value, Word.Ranged, Pick, ZeroTestOf;
  }

  lemma DivFilled(row: RowWitness)
    requires row.OutputsFilled() && row.ZerosFilled() && row.SignsFilled()
    ensures DivComputed(row.ToRow()) && ZerosComputed(row.ToRow())
  {
    hide WideProduct, Div, Rem, Negative, Word.Value, Word.Ranged, Pick, ZeroTestOf, Masked;
  }

  lemma CompareFilled(row: RowWitness)
    requires row.ZerosFilled() && row.SignsFilled() && row.CompareFilled()
    ensures CompareComputed(row.ToRow())
  {
    hide Word.Value, Word.Ranged, Pick, ZeroTestOf, Masked, MidCarry;
  }

  lemma ChainFilled(row: RowWitness)
    requires row.FactorsFilled() && row.CarriesFilled()
    ensures ChainComputed(row.ToRow())
  {
    hide Pick, CarriesOf, Bytes;
  }

  /** Runs the witness functions in the order of the generated program. */
  method EvaluateRow(row: RowWitness)
    requires row.InputsValid() && row.overflow == 0
    requires row.out0.Ranged() && row.out1.Ranged() && row.out2.Ranged()
    modifies row
    ensures Satisfied(row.ToRow())
  {
    hide Inputs, MulComputed, DivComputed, ZerosComputed, CompareComputed, ChainComputed, Satisfied;
    hide RowWitness.OutputsFilled, RowWitness.ZerosFilled, RowWitness.FactorsFilled, RowWitness.SignsFilled;
    hide RowWitness.CompareFilled, RowWitness.LowCarriesFilled, RowWitness.CarriesFilled;
    hide RowWitness.ToRow, RowWitness.InputsValid, Word.Ranged;
    row.EvalThroughSigns();
    row.EvalComparison();
    row.EvalUpperHalf();
    MulFilled(row);
    DivFilled(row);
    CompareFilled(row);
    ChainFilled(row);
    InputsFilled(row);
    ComputedSatisfies(row.ToRow());
  }

  lemma InputsFilled(row: RowWitness)
    requires row.InputsValid() && row.OutputsFilled() && row.CompareFilled()
    ensures Inputs(row.ToRow())
  {
    hide WideProduct, Div, Rem, Negative, Word.Value, Word.Ranged, Pick, ZeroTestOf, MidCarry;
  }

  /** Decode, run the witness program, read the register: the RISC-V result, through the circuit. */
  method Execute(mul: bool, variant: nat, x: int, y: int) returns (rd: int)
    requires IsWord(x) && IsWord(y) && variant <= 3
    ensures mul && variant == 0 ==> rd == MulLow(x, y)
    ensures mul && variant > 0 ==> rd == MulHigh(variant <= 2, variant == 1, x, y)
    ensures !mul && (variant == 0 || variant == 1) ==> rd == Div(variant == 0, x, y)
    ensures !mul && variant > 1 ==> rd == Rem(variant == 2, x, y)
  {
    hide Div, Rem, MulLow, MulHigh, Satisfied, Computed;
    LimbsValue(x);
    LimbsValue(y);
    var m0, m1, m2 := if variant == 0 then 1 else 0, if variant == 1 then 1 else 0, if variant == 2 then 1 else 0;
    var row := new RowWitness(if mul then 1 else 0, m0, m1, m2, Limbs(x), Limbs(y));
    EvaluateRow(row);
    if mul {
      MulSound(row.ToRow());
      rd := row.mulRd.Value();
    } else {
      DivRemSound(row.ToRow());
      rd := row.divRd.Value();
    }
  }
}
