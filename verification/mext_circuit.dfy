/**
  The constraints of one row that executes MUL or DIV/REM in the machine with signed support.
  Every variable is a field element, every constraint a polynomial that must vanish modulo P.
  The main results read such a row back: the register written is the one RISC-V prescribes.
 */
module MExtension {
  import opened ModArith
  import opened Mersenne31Prime
  import opened MulAddChain
  import opened Rv32m

  predicate Elem(x: int) { 0 <= x < P }

  /** "This register is zero", with the inverse that proves it is not. */
  datatype ZeroTest = ZeroTest(reg: Word, flag: int, inverse: int) {
    predicate Ok() {
      && Elem(flag) && Elem(inverse) && Elem(reg.lo) && Elem(reg.hi)
      && Zero(inverse * (reg.lo + reg.hi) - (1 - flag))
      && Zero(flag * (reg.lo + reg.hi))
    }
  }

  datatype Row = Row(
    // decoded flags: the family, and the three variant bits both families share
    mul: int, divrem: int, minor0: int, minor1: int, minor2: int,
    // operands with the top bits looked up for them, and the three shared output registers
    rs1: Word, rs1Top: int, rs2: Word, rs2Top: int, out0: Word, out1: Word, out2: Word,
    // MUL
    op1Signed: int, mulSign1: int, mulSign2: int, mulRd: Word,
    // DIV/REM: signs
    isSigned: int, divisorSign: int, dividendSign: int, signsDiffer: int,
    quotientSign: int, remainderSign: int, extension: int,
    quotientZero: ZeroTest, remainderZero: ZeroTest, divisorZero: ZeroTest,
    // DIV/REM: |remainder| < |divisor|
    divByZero: int, compareDiffer: int, addFlag: int, subFlag: int, carryMid: int, overflow: int,
    condition: int, outZero: ZeroTest, reversed: int, smaller: int,
    takeQuotient: int, divRd: Word,
    // the shared multiply-add relation
    op1: Word, op2: Word, sign1: int, sign2: int, addend: Word, addendSign: int, low: Word, high: Word,
    bytes1: Factor, bytes2: Factor, carries: Carries)
  {
    function Chain(): Relation {
      Relation(bytes1.(sign := sign1), bytes2.(sign := sign2), addend, addendSign, low, high)
    }
  }

  /** Range checks, boolean constraints and the sign-bit lookups. */
  predicate Typed(w: Row) { TypedInputs(w) && TypedFlags(w) && TypedChain(w) }

  predicate TypedInputs(w: Row) {
    && IsBit(w.mul) && IsBit(w.divrem) && IsBit(w.minor0) && IsBit(w.minor1) && IsBit(w.minor2)
    && w.rs1.Ranged() && w.rs2.Ranged() && w.out0.Ranged() && w.out1.Ranged() && w.out2.Ranged()
    && w.rs1Top == w.rs1.hi / 0x8000 && w.rs2Top == w.rs2.hi / 0x8000
  }

  predicate TypedFlags(w: Row) {
    && Elem(w.op1Signed) && Elem(w.mulSign1) && Elem(w.mulSign2) && Elem(w.mulRd.lo) && Elem(w.mulRd.hi)
    && Elem(w.isSigned) && Elem(w.divisorSign) && Elem(w.dividendSign) && Elem(w.signsDiffer)
    && Elem(w.quotientSign) && Elem(w.remainderSign) && Elem(w.extension)
    && Elem(w.divByZero) && Elem(w.compareDiffer) && Elem(w.addFlag) && Elem(w.subFlag)
    && Elem(w.condition) && Elem(w.reversed) && Elem(w.smaller)
    && Elem(w.takeQuotient) && Elem(w.divRd.lo) && Elem(w.divRd.hi)
    && Boolean(w.carryMid) && Boolean(w.overflow)
  }

  predicate TypedChain(w: Row) {
    && Elem(w.op1.lo) && Elem(w.op1.hi) && Elem(w.op2.lo) && Elem(w.op2.hi) && Elem(w.sign1) && Elem(w.sign2)
    && Elem(w.addend.lo) && Elem(w.addend.hi) && Elem(w.addendSign)
    && Elem(w.low.lo) && Elem(w.low.hi) && Elem(w.high.lo) && Elem(w.high.hi)
    && w.bytes1.(sign := 0).Ranged() && w.bytes2.(sign := 0).Ranged() && w.carries.Ranged()
  }

  predicate Boolean(b: int) { Elem(b) && Zero(b * b - b) }

  // Gates, each one constraint.

  predicate And(a: int, b: int, c: int) { Zero(a * b - c) }
  predicate AndNot(a: int, b: int, c: int) { Zero(a * (1 - b) - c) }
  predicate Nor(a: int, b: int, c: int) { Zero((1 - a) * (1 - b) - c) }
  predicate Or(a: int, b: int, c: int) { Zero(a + b - a * b - c) }
  predicate Xor(a: int, b: int, c: int) { Zero(a + b - 2 * (a * b) - c) }
  predicate Choose(flag: int, a: int, b: int, c: int) { Zero(flag * (a - b) + b - c) }
  predicate Select(f: int, a: int, g: int, b: int, c: int) { Zero(f * a + g * b - c) }

  predicate MulGates(w: Row) {
    && Or(w.minor1, w.minor2, w.op1Signed)
    && Choose(w.op1Signed, w.rs1Top, 0, w.mulSign1)
    && Choose(w.minor1, w.rs2Top, 0, w.mulSign2)
    && Choose(w.minor0, w.out0.lo, w.out1.lo, w.mulRd.lo)
    && Choose(w.minor0, w.out0.hi, w.out1.hi, w.mulRd.hi)
  }

  predicate SignGates(w: Row) {
    && Or(w.minor0, w.minor2, w.isSigned)
    && And(w.isSigned, w.rs2Top, w.divisorSign)
    && And(w.isSigned, w.rs1Top, w.dividendSign)
    && Xor(w.dividendSign, w.divisorSign, w.signsDiffer)
    && AndNot(w.signsDiffer, w.quotientZero.flag, w.quotientSign)
    && AndNot(w.dividendSign, w.remainderZero.flag, w.remainderSign)
    && Zero(0xffff * w.dividendSign - w.extension)
  }

  predicate ZeroTests(w: Row) {
    && w.quotientZero.Ok() && w.remainderZero.Ok() && w.divisorZero.Ok()
    && Zero(w.divrem * w.out0.lo - w.quotientZero.reg.lo) && Zero(w.divrem * w.out0.hi - w.quotientZero.reg.hi)
    && Zero(w.divrem * w.out1.lo - w.remainderZero.reg.lo) && Zero(w.divrem * w.out1.hi - w.remainderZero.reg.hi)
    && Zero(w.divrem * w.rs2.lo - w.divisorZero.reg.lo) && Zero(w.divrem * w.rs2.hi - w.divisorZero.reg.hi)
  }

  /** The masked addition or subtraction of remainder and divisor, and what its carry says. */
  predicate CompareGates(w: Row) {
    && And(w.divisorZero.flag, w.divrem, w.divByZero)
    && Xor(w.remainderSign, w.divisorSign, w.compareDiffer)
    && And(w.divrem, w.compareDiffer, w.addFlag)
    && AndNot(w.divrem, w.compareDiffer, w.subFlag)
    && Zero(w.addFlag * (w.out1.lo + w.rs2.lo - w.out2.lo) + w.subFlag * (w.out2.lo + w.rs2.lo - w.out1.lo) - TWO_16 * w.carryMid)
    && Zero(w.addFlag * (w.out1.hi + w.rs2.hi - w.out2.hi) + w.subFlag * (w.out2.hi + w.rs2.hi - w.out1.hi)
            + w.carryMid - TWO_16 * w.overflow)
    && Xor(w.compareDiffer, w.overflow, w.condition)
    && w.outZero.Ok() && w.outZero.reg == w.out2
    && Nor(w.condition, w.outZero.flag, w.reversed)
    && Choose(w.remainderSign, w.reversed, w.condition, w.smaller)
  }

  predicate ResultGates(w: Row) {
    && Zero((w.divrem - w.divByZero) * (1 - w.smaller))
    && Zero(w.divByZero * (w.out0.lo - 0xffff)) && Zero(w.divByZero * (w.out0.hi - 0xffff))
    && Or(w.minor0, w.minor1, w.takeQuotient)
    && Choose(w.takeQuotient, w.out0.lo, w.out1.lo, w.divRd.lo)
    && Choose(w.takeQuotient, w.out0.hi, w.out1.hi, w.divRd.hi)
  }

  predicate ChainGates(w: Row) {
    && Select(w.mul, w.rs1.lo, w.divrem, w.rs2.lo, w.op1.lo) && Select(w.mul, w.rs1.hi, w.divrem, w.rs2.hi, w.op1.hi)
    && Select(w.mul, w.rs2.lo, w.divrem, w.out0.lo, w.op2.lo) && Select(w.mul, w.rs2.hi, w.divrem, w.out0.hi, w.op2.hi)
    && Select(w.mul, w.mulSign1, w.divrem, w.divisorSign, w.sign1)
    && Select(w.mul, w.mulSign2, w.divrem, w.quotientSign, w.sign2)
    && Select(w.mul, 0, w.divrem, w.out1.lo, w.addend.lo) && Select(w.mul, 0, w.divrem, w.out1.hi, w.addend.hi)
    && Select(w.mul, 0, w.divrem, w.remainderSign, w.addendSign)
    && Select(w.mul, w.out0.lo, w.divrem, w.rs1.lo, w.low.lo) && Select(w.mul, w.out0.hi, w.divrem, w.rs1.hi, w.low.hi)
    && Select(w.mul, w.out1.lo, w.divrem, w.extension, w.high.lo) && Select(w.mul, w.out1.hi, w.divrem, w.extension, w.high.hi)
    && Zero(w.bytes1.x0 + 0x100 * w.bytes1.x1 - w.op1.lo) && Zero(w.bytes1.x2 + 0x100 * w.bytes1.x3 - w.op1.hi)
    && Zero(w.bytes2.x0 + 0x100 * w.bytes2.x1 - w.op2.lo) && Zero(w.bytes2.x2 + 0x100 * w.bytes2.x3 - w.op2.hi)
    && Constraints(w.Chain(), w.carries)
  }

  /** All constraints of the row. */
  predicate Satisfied(w: Row) {
    Typed(w) && MulGates(w) && SignGates(w) && ZeroTests(w) && CompareGates(w) && ResultGates(w) && ChainGates(w)
  }

  predicate ExecutesDivRem(w: Row) { w.divrem == 1 && w.mul == 0 && w.minor0 + w.minor1 + w.minor2 <= 1 }
  predicate ExecutesMul(w: Row) { w.mul == 1 && w.divrem == 0 && w.minor0 + w.minor1 + w.minor2 <= 1 }

  // ---------------------------------------------------- reading the gates

  lemma BooleanIsBit(b: int)
    requires Boolean(b)
    ensures IsBit(b)
  {
    PIsPrime();
    assert b * b - b == b * (b - 1);
    NoZeroDivisors(b, b - 1, P);
  }

  lemma GateBits(a: int, b: int, c: int)
    requires IsBit(a) && IsBit(b) && Elem(c)
    ensures And(a, b, c) ==> c == Bit(a == 1 && b == 1)
    ensures AndNot(a, b, c) ==> c == Bit(a == 1 && b == 0)
    ensures Nor(a, b, c) ==> c == Bit(a == 0 && b == 0)
    ensures Or(a, b, c) ==> c == Bit(a == 1 || b == 1)
    ensures Xor(a, b, c) ==> c == Bit(a != b)
  {
  }

  lemma ChooseValue(flag: int, a: int, b: int, c: int)
    requires IsBit(flag) && Elem(a) && Elem(b) && Elem(c) && Choose(flag, a, b, c)
    ensures c == if flag == 1 then a else b
  {
  }

  lemma SelectValue(f: int, a: int, g: int, b: int, c: int)
    requires IsBit(f) && g == 1 - f && Elem(a) && Elem(b) && Elem(c) && Select(f, a, g, b, c)
    ensures c == if f == 1 then a else b
  {
  }

  lemma ZeroTestFlag(z: ZeroTest)
    requires z.Ok() && z.reg.Ranged()
    ensures z.flag == Bit(z.reg.Value() == 0)
  {
    var s := z.reg.lo + z.reg.hi;
    if s != 0 {
      PIsPrime();
      NoZeroDivisors(z.flag, s, P);
    } else {
      assert z.inverse * s == 0;
    }
  }

  // ------------------------------------------------------ DIV/REM is sound

  predicate SignedDivision(w: Row) { w.minor0 == 1 || w.minor2 == 1 }

  lemma TopBit(x: Word)
    requires x.Ranged()
    ensures IsWord(x.Value()) && x.hi / 0x8000 == Bit(x.Value() >= HALF)
  {
  }

  lemma MaskedWord(f: int, x: Word, y: Word)
    requires f == 1 && x.Ranged()
    ensures Elem(y.lo) && Elem(y.hi) && Zero(f * x.lo - y.lo) && Zero(f * x.hi - y.hi) ==> y == x
  {
  }

  lemma ElemsOf(z: ZeroTest)
    requires z.Ok()
    ensures Elem(z.reg.lo) && Elem(z.reg.hi) && Elem(z.flag)
  {
  }

  lemma OneOfTwo(f: int, g: int, x: int, y: int)
    requires IsBit(f) && g == 1 - f
    ensures f * x + g * y == if f == 1 then x else y
  {
  }

  lemma ZeroFlags(w: Row)
    requires Typed(w) && ZeroTests(w) && w.divrem == 1
    ensures w.quotientZero.flag == Bit(w.out0.Value() == 0)
    ensures w.remainderZero.flag == Bit(w.out1.Value() == 0)
    ensures w.divisorZero.flag == Bit(w.rs2.Value() == 0)
  {
    hide ZeroTest.Ok, Zero;
    MaskedWord(w.divrem, w.out0, w.quotientZero.reg);
    MaskedWord(w.divrem, w.out1, w.remainderZero.reg);
    MaskedWord(w.divrem, w.rs2, w.divisorZero.reg);
    ElemsOf(w.quotientZero);
    ElemsOf(w.remainderZero);
    ElemsOf(w.divisorZero);
    ZeroTestFlag(w.quotientZero);
    ZeroTestFlag(w.remainderZero);
    ZeroTestFlag(w.divisorZero);
  }

  lemma Signs(w: Row)
    requires Typed(w) && ZeroTests(w) && SignGates(w) && w.divrem == 1
    ensures var signed, n, d := SignedDivision(w), w.rs1.Value(), w.rs2.Value();
            && w.divisorSign == Negative(signed, d)
            && w.dividendSign == Negative(signed, n)
            && w.quotientSign == QuotientSign(signed, n, d, w.out0.Value())
            && w.remainderSign == RemainderSign(signed, n, w.out1.Value())
            && w.extension == 0xffff * Negative(signed, n)
  {
    hide And, AndNot, Or, Xor, ZeroTests;
    ZeroFlags(w);
    TopBit(w.rs1);
    TopBit(w.rs2);
    GateBits(w.minor0, w.minor2, w.isSigned);
    GateBits(w.isSigned, w.rs2Top, w.divisorSign);
    GateBits(w.isSigned, w.rs1Top, w.dividendSign);
    GateBits(w.dividendSign, w.divisorSign, w.signsDiffer);
    GateBits(w.signsDiffer, w.quotientZero.flag, w.quotientSign);
    GateBits(w.dividendSign, w.remainderZero.flag, w.remainderSign);
  }

  /** The masked addition or subtraction over 16-bit limbs is the 32-bit one. */
  lemma AddSubRelation(a: Word, b: Word, c: Word, mid: int, top: int)
    requires a.Ranged() && b.Ranged() && c.Ranged() && IsBit(mid) && IsBit(top)
    requires Zero(a.lo + b.lo - c.lo - TWO_16 * mid) && Zero(a.hi + b.hi - c.hi + mid - TWO_16 * top)
    ensures a.Value() + b.Value() == c.Value() + TWO_32 * top
  {
    SmallZero(a.lo + b.lo - c.lo - TWO_16 * mid);
    SmallZero(a.hi + b.hi - c.hi + mid - TWO_16 * top);
  }

  lemma CompareArithmetic(w: Row)
    requires Typed(w) && CompareGates(w) && w.divrem == 1 && IsBit(w.remainderSign) && IsBit(w.divisorSign)
    ensures w.compareDiffer == Bit(w.remainderSign != w.divisorSign) && IsBit(w.overflow)
    ensures w.compareDiffer == 1 ==> w.out1.Value() + w.rs2.Value() == w.out2.Value() + TWO_32 * w.overflow
    ensures w.compareDiffer == 0 ==> w.out2.Value() + w.rs2.Value() == w.out1.Value() + TWO_32 * w.overflow
  {
    hide And, AndNot, Xor, Nor, Choose, Boolean, Zero, ZeroTest.Ok;
    BooleanIsBit(w.carryMid);
    BooleanIsBit(w.overflow);
    GateBits(w.remainderSign, w.divisorSign, w.compareDiffer);
    GateBits(w.divrem, w.compareDiffer, w.addFlag);
    GateBits(w.divrem, w.compareDiffer, w.subFlag);
    OneOfTwo(w.addFlag, w.subFlag, w.out1.lo + w.rs2.lo - w.out2.lo, w.out2.lo + w.rs2.lo - w.out1.lo);
    OneOfTwo(w.addFlag, w.subFlag, w.out1.hi + w.rs2.hi - w.out2.hi, w.out2.hi + w.rs2.hi - w.out1.hi);
    if w.compareDiffer == 1 {
      AddSubRelation(w.out1, w.rs2, w.out2, w.carryMid, w.overflow);
    } else {
      AddSubRelation(w.out2, w.rs2, w.out1, w.carryMid, w.overflow);
    }
  }

  /** The flag network decides |remainder| < |divisor| in all four sign cases. */
  lemma Compare(w: Row)
    requires Typed(w) && CompareGates(w) && w.divrem == 1 && IsBit(w.remainderSign) && IsBit(w.divisorSign)
    requires w.remainderSign == 1 ==> w.out1.Value() != 0
    requires w.divisorSign == 1 ==> w.rs2.Value() != 0
    ensures w.smaller == Bit(Abs(w.out1.Value() - TWO_32 * w.remainderSign) < Abs(w.rs2.Value() - TWO_32 * w.divisorSign))
  {
    hide And, AndNot, Xor, Nor, Choose;
    CompareArithmetic(w);
    ZeroTestFlag(w.outZero);
    GateBits(w.compareDiffer, w.overflow, w.condition);
    GateBits(w.condition, w.outZero.flag, w.reversed);
    ChooseValue(w.remainderSign, w.reversed, w.condition, w.smaller);
  }

  lemma BytesRead(bytes: Factor, reg: Word)
    requires bytes.(sign := 0).Ranged() && reg.Ranged()
    requires Zero(bytes.x0 + 0x100 * bytes.x1 - reg.lo) && Zero(bytes.x2 + 0x100 * bytes.x3 - reg.hi)
    ensures bytes.Magnitude() == reg.Value()
  {
    SmallZero(bytes.x0 + 0x100 * bytes.x1 - reg.lo);
    SmallZero(bytes.x2 + 0x100 * bytes.x3 - reg.hi);
  }

  /** The relation a DIV/REM row puts through the chain. */
  lemma DivChain(w: Row)
    requires Typed(w) && ChainGates(w) && w.divrem == 1 && w.mul == 0
    requires IsBit(w.divisorSign) && IsBit(w.quotientSign) && IsBit(w.remainderSign) && IsLimb(w.extension)
    ensures var r := w.Chain();
            && r.Ranged() && r.Holds()
            && r.a.Value() == w.rs2.Value() - TWO_32 * w.divisorSign
            && r.b.Value() == w.out0.Value() - TWO_32 * w.quotientSign
            && r.addend == w.out1 && r.addendSign == w.remainderSign
            && r.low == w.rs1 && r.high == Word(w.extension, w.extension)
  {
    hide Constraints, Relation.Holds, Select;
    SelectValue(w.mul, w.rs1.lo, w.divrem, w.rs2.lo, w.op1.lo);
    SelectValue(w.mul, w.rs1.hi, w.divrem, w.rs2.hi, w.op1.hi);
    SelectValue(w.mul, w.rs2.lo, w.divrem, w.out0.lo, w.op2.lo);
    SelectValue(w.mul, w.rs2.hi, w.divrem, w.out0.hi, w.op2.hi);
    SelectValue(w.mul, w.mulSign1, w.divrem, w.divisorSign, w.sign1);
    SelectValue(w.mul, w.mulSign2, w.divrem, w.quotientSign, w.sign2);
    SelectValue(w.mul, 0, w.divrem, w.out1.lo, w.addend.lo);
    SelectValue(w.mul, 0, w.divrem, w.out1.hi, w.addend.hi);
    SelectValue(w.mul, 0, w.divrem, w.remainderSign, w.addendSign);
    SelectValue(w.mul, w.out0.lo, w.divrem, w.rs1.lo, w.low.lo);
    SelectValue(w.mul, w.out0.hi, w.divrem, w.rs1.hi, w.low.hi);
    SelectValue(w.mul, w.out1.lo, w.divrem, w.extension, w.high.lo);
    SelectValue(w.mul, w.out1.hi, w.divrem, w.extension, w.high.hi);
    BytesRead(w.bytes1, w.op1);
    BytesRead(w.bytes2, w.op2);
    Sound(w.Chain(), w.carries);
  }

  lemma Operands(w: Row)
    requires Typed(w)
    ensures IsWord(w.rs1.Value()) && IsWord(w.rs2.Value()) && IsWord(w.out0.Value()) && IsWord(w.out1.Value())
    ensures IsBit(w.minor0) && IsBit(w.minor1) && IsBit(w.minor2)
  {
  }

  lemma DivEquation(w: Row)
    requires Typed(w) && SignGates(w) && ZeroTests(w) && ChainGates(w) && w.divrem == 1 && w.mul == 0
    ensures var signed, n, d, q, r := SignedDivision(w), w.rs1.Value(), w.rs2.Value(), w.out0.Value(), w.out1.Value();
            (Read(signed, d) * Quot(signed, n, d, q) + Remd(signed, n, r) - Read(signed, n)) % (WORD * WORD) == 0
  {
    hide Typed, SignGates, ZeroTests, ChainGates;
    Signs(w);
    DivChain(w);
    var c := w.Chain();
    var signed, n := SignedDivision(w), w.rs1.Value();
    var x := c.a.Value() * c.b.Value() + c.addend.Value() - TWO_32 * c.addendSign - Read(signed, n);
    assert c.low.Value() + TWO_32 * c.high.Value() == Read(signed, n) + TWO_64 * Negative(signed, n);
    ModShift(x, -Negative(signed, n), TWO_64);
  }

  lemma DivResult(w: Row)
    requires Typed(w) && ZeroTests(w) && ResultGates(w) && w.divrem == 1 && IsBit(w.smaller)
    requires And(w.divisorZero.flag, w.divrem, w.divByZero)
    ensures w.rs2.Value() == 0 ==> w.out0.Value() == ALL_ONES
    ensures w.rs2.Value() != 0 ==> w.smaller == 1
    ensures w.divRd == if w.minor0 == 1 || w.minor1 == 1 then w.out0 else w.out1
  {
    hide ZeroTests, And, Or, Choose;
    ZeroFlags(w);
    GateBits(w.divisorZero.flag, w.divrem, w.divByZero);
    GateBits(w.minor0, w.minor1, w.takeQuotient);
    ChooseValue(w.takeQuotient, w.out0.lo, w.out1.lo, w.divRd.lo);
    ChooseValue(w.takeQuotient, w.out0.hi, w.out1.hi, w.divRd.hi);
  }

  /**
    Soundness of DIV, DIVU, REM and REMU: whatever row satisfies the constraints, the register
    it writes is the one section 7.2 prescribes, for every pair of operands.
   */
  lemma DivRemSound(w: Row)
    requires Satisfied(w) && ExecutesDivRem(w)
    ensures var signed, n, d := SignedDivision(w), w.rs1.Value(), w.rs2.Value();
            w.divRd.Value() == if w.minor0 == 1 || w.minor1 == 1 then Div(signed, n, d) else Rem(signed, n, d)
  {
    hide Typed, MulGates, SignGates, ZeroTests, ResultGates, ChainGates, Div, Rem, Abs;
    Signs(w);
    Operands(w);
    Compare(w);
    DivEquation(w);
    DivResult(w);
    DivisionSound(SignedDivision(w), w.rs1.Value(), w.rs2.Value(), w.out0.Value(), w.out1.Value());
  }

  // ---------------------------------------------------------- MUL is sound

  lemma MulSigns(w: Row)
    requires Typed(w) && MulGates(w)
    ensures w.mulSign1 == Negative(w.minor1 == 1 || w.minor2 == 1, w.rs1.Value())
    ensures w.mulSign2 == Negative(w.minor1 == 1, w.rs2.Value())
    ensures w.mulRd == if w.minor0 == 1 then w.out0 else w.out1
  {
    hide Or, Choose;
    TopBit(w.rs1);
    TopBit(w.rs2);
    GateBits(w.minor1, w.minor2, w.op1Signed);
    ChooseValue(w.op1Signed, w.rs1Top, 0, w.mulSign1);
    ChooseValue(w.minor1, w.rs2Top, 0, w.mulSign2);
    ChooseValue(w.minor0, w.out0.lo, w.out1.lo, w.mulRd.lo);
    ChooseValue(w.minor0, w.out0.hi, w.out1.hi, w.mulRd.hi);
  }

  lemma MulChain(w: Row)
    requires Typed(w) && ChainGates(w) && w.divrem == 0 && w.mul == 1
    requires IsBit(w.mulSign1) && IsBit(w.mulSign2)
    ensures var r := w.Chain();
            && r.Ranged() && r.Holds()
            && r.a.Value() == w.rs1.Value() - TWO_32 * w.mulSign1
            && r.b.Value() == w.rs2.Value() - TWO_32 * w.mulSign2
            && r.addend == Word(0, 0) && r.addendSign == 0
            && r.low == w.out0 && r.high == w.out1
  {
    hide Constraints, Relation.Holds, Select;
    SelectValue(w.mul, w.rs1.lo, w.divrem, w.rs2.lo, w.op1.lo);
    SelectValue(w.mul, w.rs1.hi, w.divrem, w.rs2.hi, w.op1.hi);
    SelectValue(w.mul, w.rs2.lo, w.divrem, w.out0.lo, w.op2.lo);
    SelectValue(w.mul, w.rs2.hi, w.divrem, w.out0.hi, w.op2.hi);
    SelectValue(w.mul, w.mulSign1, w.divrem, w.divisorSign, w.sign1);
    SelectValue(w.mul, w.mulSign2, w.divrem, w.quotientSign, w.sign2);
    SelectValue(w.mul, 0, w.divrem, w.out1.lo, w.addend.lo);
    SelectValue(w.mul, 0, w.divrem, w.out1.hi, w.addend.hi);
    SelectValue(w.mul, 0, w.divrem, w.remainderSign, w.addendSign);
    SelectValue(w.mul, w.out0.lo, w.divrem, w.rs1.lo, w.low.lo);
    SelectValue(w.mul, w.out0.hi, w.divrem, w.rs1.hi, w.low.hi);
    SelectValue(w.mul, w.out1.lo, w.divrem, w.extension, w.high.lo);
    SelectValue(w.mul, w.out1.hi, w.divrem, w.extension, w.high.hi);
    BytesRead(w.bytes1, w.op1);
    BytesRead(w.bytes2, w.op2);
    Sound(w.Chain(), w.carries);
  }

  /** Two words that make up a number modulo 2^64 are its low and high halves. */
  lemma Halves(x: int, lo: int, hi: int)
    requires IsWord(lo) && IsWord(hi) && (x - lo - WORD * hi) % (WORD * WORD) == 0
    ensures x % WORD == lo && x / WORD % WORD == hi
  {
    var k := (x - lo - WORD * hi) / (WORD * WORD);
    assert x == (hi + WORD * k) * WORD + lo;
    DivModUnique(x, hi + WORD * k, lo, WORD);
    ModShift(hi, k, WORD);
  }

  lemma ProductHalves(s1: bool, s2: bool, x: int, y: int, a: int, b: int, lo: int, hi: int)
    requires IsWord(x) && IsWord(y) && IsWord(lo) && IsWord(hi)
    requires a == x - WORD * Negative(s1, x) && b == y - WORD * Negative(s2, y)
    requires (a * b - lo - WORD * hi) % (WORD * WORD) == 0
    ensures hi == MulHigh(s1, s2, x, y)
    ensures !s1 && !s2 ==> lo == MulLow(x, y)
  {
    Halves(a * b, lo, hi);
    assert a == Read(s1, x) && b == Read(s2, y);
  }

  /** Soundness of MUL, MULH, MULHSU and MULHU: section 7.1, for every pair of operands. */
  lemma MulSound(w: Row)
    requires Satisfied(w) && ExecutesMul(w)
    ensures var x, y := w.rs1.Value(), w.rs2.Value();
            w.mulRd.Value() == if w.minor0 == 1 then MulLow(x, y)
                               else MulHigh(w.minor1 == 1 || w.minor2 == 1, w.minor1 == 1, x, y)
  {
    hide Typed, MulGates, SignGates, ZeroTests, CompareGates, ResultGates, ChainGates, MulLow, MulHigh;
    MulSigns(w);
    MulChain(w);
    Operands(w);
    var r := w.Chain();
    ProductHalves(w.minor1 == 1 || w.minor2 == 1, w.minor1 == 1, w.rs1.Value(), w.rs2.Value(),
                  r.a.Value(), r.b.Value(), w.out0.Value(), w.out1.Value());
  }
}
