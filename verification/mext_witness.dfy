/**
  Witness generation for MUL and DIV/REM rows. The generated program fills numbered places one
  `eval_fn` after another; here each place is a field and each group of `eval_fn`s a method, run in
  the same order. Running it fills a row that satisfies every constraint.
 */
module MExtensionWitness {
  import opened ModArith
  import opened Mersenne31Prime
  import opened MulAddChain
  import opened Rv32m
  import opened MExtension
  import Mersenne31

  /** A 32-bit value as two limbs, and the limbs of a 32-bit value. */
  function Limbs(v: int): (w: Word) { Word(v % TWO_16, v / TWO_16 % TWO_16) }

  lemma LimbsValue(v: int)
    requires IsWord(v)
    ensures Limbs(v).Ranged() && Limbs(v).Value() == v
  {
  }

  function Bytes(x: Word): Factor { Factor(x.lo % 0x100, x.lo / 0x100 % 0x100, x.hi % 0x100, x.hi / 0x100 % 0x100, 0) }

  lemma BytesOf(x: Word)
    requires x.Ranged()
    ensures Bytes(x).Ranged() && Bytes(x).Magnitude() == x.Value()
    ensures Bytes(x).x0 + 0x100 * Bytes(x).x1 == x.lo && Bytes(x).x2 + 0x100 * Bytes(x).x3 == x.hi
  {
  }

  /** The wide product of eval_fn_33, by the signs already masked with the variant. */
  function WideProduct(s1: int, s2: int, x: int, y: int): int {
    if s1 == 0 && s2 == 1 then Signed(y) * x
    else if s1 == 1 && s2 == 0 then Signed(x) * y
    else if s1 == 1 && s2 == 1 then Signed(x) * Signed(y)
    else x * y
  }

  /** The quotient and remainder of eval_fn_38: every division is made safe first, then selected. */
  function DivOutputs(signed: bool, n: int, d: int): (int, int)
    requires IsWord(n) && IsWord(d)
  {
    var nonzero := d != 0;
    var overflowing := n == HALF && d == ALL_ONES;
    var safe := if nonzero then d else 1;
    var safeSigned := Signed(if overflowing then 1 else safe);
    var signedQ := if overflowing then HALF else TruncDiv(Signed(n), safeSigned) % WORD;
    var signedR := if overflowing then 0 else TruncRem(Signed(n), safeSigned) % WORD;
    var q := if signed then (if nonzero then signedQ else ALL_ONES) else if nonzero then n / safe else ALL_ONES;
    var r := if signed then (if nonzero then signedR else n) else if nonzero then n % safe else n;
    (q, r)
  }

  lemma UnsignedDivision(n: int, d: int)
    requires IsWord(n) && 0 < d
    ensures TruncDiv(n, d) == n / d && TruncRem(n, d) == n % d && 0 <= n / d <= n && 0 <= n % d <= n
  {
    var q, r := EuclidFact(n, d);
    assert TruncDiv(n, d) == n / d && TruncRem(n, d) == n % d;
    QuotientBound(n, d);
  }

  lemma DivOutputsCorrect(signed: bool, n: int, d: int)
    requires IsWord(n) && IsWord(d)
    ensures DivOutputs(signed, n, d) == (Div(signed, n, d), Rem(signed, n, d))
  {
    hide TruncDiv, TruncRem;
    if !signed && d != 0 {
      UnsignedDivision(n, d);
    }
  }

  method TestZero(reg: Word) returns (z: ZeroTest)
    requires reg.Ranged()
    ensures z.reg == reg && z.Ok() && z.flag == Bit(reg.Value() == 0)
  {
    var s := reg.lo + reg.hi;
    var u := Mersenne31.InverseOrZero(s);
    z := ZeroTest(reg, if s == 0 then 1 else 0, u);
    assert Zero(u * s - (1 - z.flag)) by {
      assert u * s == s * u;
      CongruentIff(s * u, 1 - z.flag, P);
    }
    assert z.flag * s == 0;
  }

  // The field expressions witness generation uses for booleans.

  function FieldOr(a: int, b: int): (c: int)
    ensures IsBit(a) && IsBit(b) ==> c == Bit(a == 1 || b == 1)
  {
    (0 - a * b + a + b) % P
  }

  function FieldAnd(a: int, b: int): (c: int)
    ensures IsBit(a) && IsBit(b) ==> c == Bit(a == 1 && b == 1)
  {
    (a * b) % P
  }

  function FieldAndNot(a: int, b: int): (c: int)
    ensures IsBit(a) && IsBit(b) ==> c == Bit(a == 1 && b == 0)
  {
    (0 - a * b + a) % P
  }

  function FieldXor(a: int, b: int): (c: int)
    ensures IsBit(a) && IsBit(b) ==> c == Bit(a != b)
  {
    ((a * (P - 2)) % P * b + a + b) % P
  }

  function FieldNor(a: int, b: int): (c: int)
    ensures IsBit(a) && IsBit(b) ==> c == Bit(a == 0 && b == 0)
  {
    (1 + a * b - a - b) % P
  }

  function Masked(flag: int, x: Word): Word { if flag == 1 then x else Word(0, 0) }

  function Pick(flag: int, x: Word, y: Word): Word { if flag == 1 then x else y }

  predicate ZeroTestOf(z: ZeroTest, reg: Word) {
    z.reg == reg && z.Ok() && z.flag == Bit(reg.Value() == 0)
  }

  /** Bit 16 of the low-limb sum, taken in 32-bit arithmetic, for whichever relation is active. */
  function MidCarry(add: int, sub: int, r: int, d: int, out: int): int {
    if add == 1 then (r + d - out) % TWO_32 / TWO_16 % 2
    else if sub == 1 then (out + d - r) % TWO_32 / TWO_16 % 2
    else 0
  }

  function OverflowingAdd(a: int, b: int): (r: (Word, int))
    requires IsWord(a) && IsWord(b)
    ensures r.0.Ranged() && IsBit(r.1) && a + b == r.0.Value() + WORD * r.1
  {
    var v := (a + b) % WORD;
    LimbsValue(v);
    (Limbs(v), if a + b >= WORD then 1 else 0)
  }

  function OverflowingSub(a: int, b: int): (r: (Word, int))
    requires IsWord(a) && IsWord(b)
    ensures r.0.Ranged() && IsBit(r.1) && r.0.Value() + b == a + WORD * r.1
  {
    var v := (a - b) % WORD;
    LimbsValue(v);
    (Limbs(v), if a < b then 1 else 0)
  }

  lemma ColumnsIgnoreSigns(a: Factor, b: Factor, s: int, t: int)
    ensures Column0(a.(sign := s), b.(sign := t)) == Column0(a, b) && Column1(a.(sign := s), b.(sign := t)) == Column1(a, b)
  {
  }

  lemma NothingAdded()
    ensures Word(0, 0).Ranged() && Word(0, 0).Value() == 0
  {
  }

  /** The lower two steps of a relation with these carries, over the integers. */
  predicate LowStepsExact(r: Relation, c: Carries) {
    && c.k0.Ranged(9) && c.k1.Ranged(10)
    && Left0(r) == TWO_16 * c.k0.Value() && c.k0.Value() + Left1(r) == TWO_16 * c.k1.Value()
  }

  lemma LowCarries(r: Relation, c: Carries)
    requires r.Ranged() && r.Holds()
    requires c.k0 == CarryOf(Left0(r), 9) && c.k1 == CarryOf(c.k0.Value() + Left1(r), 10)
    ensures LowStepsExact(r, c)
  {
    hide Left0, Left1, Left2, Left3, CarryOf, Relation.Holds, Relation.Ranged, Carry.Value, Carry.Ranged;
    var m := LeftoversVanish(r);
    LeftoverBounds(r);
    var q0, q1, q2 := CarriesExist(Left0(r), Left1(r), Left2(r), Left3(r), m);
    CarryExact(Left0(r), q0, 9);
    CarryExact(q0 + Left1(r), q1, 10);
  }

  class RowWitness {
    // Inputs: flags from the decoder (places 51, 47, 55-57), operands (memory 8, 9; places 114, 93)
    // and their looked-up top bits (places 91, 94).
    const mul: int
    const divrem: int
    const minor0: int
    const minor1: int
    const minor2: int
    const rs1: Word
    const rs2: Word
    const rs1Top: int
    const rs2Top: int
    // Shared output registers (places 23-28) and the shared carry-out (place 58).
    var out0: Word
    var out1: Word
    var out2: Word
    var overflow: int
    // The remaining places, in the order of the row.
    var op1Signed: int
    var mulSign1: int
    var mulSign2: int
    var mulRd: Word
    var isSigned: int
    var divisorSign: int
    var dividendSign: int
    var signsDiffer: int
    var quotientSign: int
    var remainderSign: int
    var extension: int
    var quotientZero: ZeroTest
    var remainderZero: ZeroTest
    var divisorZero: ZeroTest
    var divByZero: int
    var compareDiffer: int
    var addFlag: int
    var subFlag: int
    var carryMid: int
    var condition: int
    var outZero: ZeroTest
    var reversed: int
    var smaller: int
    var takeQuotient: int
    var divRd: Word
    var op1: Word
    var op2: Word
    var sign1: int
    var sign2: int
    var addend: Word
    var addendSign: int
    var low: Word
    var high: Word
    var bytes1: Factor
    var bytes2: Factor
    var carries: Carries

    ghost function ToRow(): Row
      reads this
    {
      Row(mul, divrem, minor0, minor1, minor2, rs1, rs1Top, rs2, rs2Top, out0, out1, out2,
          op1Signed, mulSign1, mulSign2, mulRd,
          isSigned, divisorSign, dividendSign, signsDiffer, quotientSign, remainderSign, extension,
          quotientZero, remainderZero, divisorZero,
          divByZero, compareDiffer, addFlag, subFlag, carryMid, overflow, condition, outZero, reversed, smaller,
          takeQuotient, divRd,
          op1, op2, sign1, sign2, addend, addendSign, low, high, bytes1, bytes2, carries)
    }

    predicate InputsValid() {
      && IsBit(mul) && divrem == 1 - mul && IsBit(minor0) && IsBit(minor1) && IsBit(minor2)
      && rs1.Ranged() && rs2.Ranged() && rs1Top == rs1.hi / 0x8000 && rs2Top == rs2.hi / 0x8000
    }

    /** A fresh row: the operands are there, everything else is zero. */
    constructor (mul: int, minor0: int, minor1: int, minor2: int, rs1: Word, rs2: Word)
      requires IsBit(mul) && IsBit(minor0) && IsBit(minor1) && IsBit(minor2) && rs1.Ranged() && rs2.Ranged()
      ensures InputsValid() && overflow == 0 && out0.Ranged() && out1.Ranged() && out2.Ranged()
      ensures this.mul == mul && this.minor0 == minor0 && this.minor1 == minor1 && this.minor2 == minor2
      ensures this.rs1 == rs1 && this.rs2 == rs2
    {
      this.mul, this.divrem := mul, 1 - mul;
      this.minor0, this.minor1, this.minor2 := minor0, minor1, minor2;
      this.rs1, this.rs2, this.rs1Top, this.rs2Top := rs1, rs2, rs1.hi / 0x8000, rs2.hi / 0x8000;
      out0, out1, out2, overflow := Word(0, 0), Word(0, 0), Word(0, 0), 0;
      op1Signed, mulSign1, mulSign2, mulRd := 0, 0, 0, Word(0, 0);
      isSigned, divisorSign, dividendSign, signsDiffer, quotientSign, remainderSign, extension := 0, 0, 0, 0, 0, 0, 0;
      var blank := ZeroTest(Word(0, 0), 0, 0);
      quotientZero, remainderZero, divisorZero, outZero := blank, blank, blank, blank;
      divByZero, compareDiffer, addFlag, subFlag, carryMid, condition, reversed, smaller, takeQuotient := 0, 0, 0, 0, 0, 0, 0, 0, 0;
      divRd, op1, op2, sign1, sign2 := Word(0, 0), Word(0, 0), Word(0, 0), 0, 0;
      addend, addendSign, low, high := Word(0, 0), 0, Word(0, 0), Word(0, 0);
      bytes1, bytes2 := Factor(0, 0, 0, 0, 0), Factor(0, 0, 0, 0, 0);
      var none := Carry(0, 0, 0, 0);
      carries := Carries(none, none, none, none);
    }

    /** eval_fn_30 to 32. */
    method EvalMulSigns()
      requires InputsValid()
      modifies this`op1Signed, this`mulSign1, this`mulSign2
      ensures op1Signed == Bit(minor1 == 1 || minor2 == 1)
      ensures mulSign1 == Negative(minor1 == 1 || minor2 == 1, rs1.Value())
      ensures mulSign2 == Negative(minor1 == 1, rs2.Value())
    {
      op1Signed := FieldOr(minor1, minor2);
      mulSign1 := if op1Signed == 1 then rs1Top else 0;
      mulSign2 := if minor1 == 1 then rs2Top else 0;
      TopBit(rs1);
      TopBit(rs2);
    }

    /** eval_fn_33: product halves, kept only on a MUL row. */
    method EvalMulOutputs()
      requires InputsValid() && out0.Ranged() && out1.Ranged()
      modifies this`out0, this`out1
      ensures out0.Ranged() && out1.Ranged()
      ensures mul == 0 ==> out0 == old(out0) && out1 == old(out1)
      ensures mul == 1 ==> var v := WideProduct(mulSign1, mulSign2, rs1.Value(), rs2.Value());
                           out0.Value() == v % WORD && out1.Value() == v / WORD % WORD
    {
      hide WideProduct, Limbs;
      var v := WideProduct(mulSign1, mulSign2, rs1.Value(), rs2.Value());
      LimbsValue(v % WORD);
      LimbsValue(v / WORD % WORD);
      out0 := if mul == 1 then Limbs(v % WORD) else out0;
      out1 := if mul == 1 then Limbs(v / WORD % WORD) else out1;
    }

    /** eval_fn_35 to 37. */
    method EvalOperandSigns()
      requires InputsValid()
      modifies this`isSigned, this`divisorSign, this`dividendSign
      ensures isSigned == Bit(minor0 == 1 || minor2 == 1)
      ensures divisorSign == Negative(minor0 == 1 || minor2 == 1, rs2.Value())
      ensures dividendSign == Negative(minor0 == 1 || minor2 == 1, rs1.Value())
    {
      TopBit(rs1);
      TopBit(rs2);
      isSigned := FieldOr(minor0, minor2);
      divisorSign := FieldAnd(rs2Top, isSigned);
      dividendSign := FieldAnd(rs1Top, isSigned);
    }

    /** eval_fn_38: quotient and remainder, kept only on a DIV/REM row. */
    method EvalDivOutputs()
      requires InputsValid() && isSigned == Bit(minor0 == 1 || minor2 == 1) && out0.Ranged() && out1.Ranged()
      modifies this`out0, this`out1
      ensures out0.Ranged() && out1.Ranged()
      ensures divrem == 0 ==> out0 == old(out0) && out1 == old(out1)
      ensures divrem == 1 ==> out0.Value() == Div(minor0 == 1 || minor2 == 1, rs1.Value(), rs2.Value())
      ensures divrem == 1 ==> out1.Value() == Rem(minor0 == 1 || minor2 == 1, rs1.Value(), rs2.Value())
    {
      hide Div, Rem, DivOutputs;
      var n, d := rs1.Value(), rs2.Value();
      DivOutputsCorrect(isSigned == 1, n, d);
      ResultsAreWords(isSigned == 1, n, d);
      var (q, r) := DivOutputs(isSigned == 1, n, d);
      out0 := if divrem == 1 then Limbs(q) else out0;
      out1 := if divrem == 1 then Limbs(r) else out1;
    }

    /** eval_fn_39 to 41. */
    method EvalSignXor()
      requires InputsValid() && IsBit(divisorSign) && IsBit(dividendSign)
      modifies this`signsDiffer, this`extension, this`takeQuotient
      ensures signsDiffer == Bit(dividendSign != divisorSign) && extension == 0xffff * dividendSign
      ensures takeQuotient == Bit(minor0 == 1 || minor1 == 1)
    {
      signsDiffer := FieldXor(divisorSign, dividendSign);
      extension := (0xffff * dividendSign) % P;
      takeQuotient := FieldOr(minor0, minor1);
    }

    /** eval_fn_62 to 70. */
    method EvalZeroTests()
      requires InputsValid() && out0.Ranged() && out1.Ranged()
      modifies this`quotientZero, this`remainderZero, this`divisorZero
      ensures ZeroTestOf(quotientZero, Masked(divrem, out0))
      ensures ZeroTestOf(remainderZero, Masked(divrem, out1))
      ensures ZeroTestOf(divisorZero, Masked(divrem, rs2))
    {
      quotientZero := TestZero(Masked(divrem, out0));
      remainderZero := TestZero(Masked(divrem, out1));
      divisorZero := TestZero(Masked(divrem, rs2));
    }

    /**
      eval_fn_74 to 86: operands of the shared relation, and the bytes of the two factors. A
      multiplication multiplies the operands into both outputs; a division multiplies the divisor by
      the quotient and adds the remainder to reach the dividend.
     */
    method EvalChainOperands()
      requires InputsValid() && out0.Ranged() && out1.Ranged()
      modifies this`op1, this`op2, this`sign1, this`addend, this`low, this`high, this`bytes1, this`bytes2
      ensures bytes1.Ranged() && bytes2.Ranged() && addend.Ranged() && low.Ranged()
      ensures mul == 1 ==> bytes1.Magnitude() == rs1.Value() && bytes2.Magnitude() == rs2.Value() && addend.Value() == 0
      ensures mul == 1 ==> low.Value() + WORD * high.Value() == out0.Value() + WORD * out1.Value()
      ensures mul == 0 ==> bytes1.Magnitude() == rs2.Value() && bytes2.Magnitude() == out0.Value() && addend.Value() == out1.Value()
      ensures mul == 0 ==> low.Value() == rs1.Value()
      ensures FactorsFilled()
    {
      hide Bytes, Word.Ranged, Word.Value, Factor.Ranged, Factor.Magnitude;
      assert Word(0, 0).Ranged() && Word(0, 0).Value() == 0 by { NothingAdded(); }
      op1 := Pick(mul, rs1, rs2);
      op2 := Pick(mul, rs2, out0);
      sign1 := if mul == 1 then mulSign1 else divisorSign;
      addend := Pick(mul, Word(0, 0), out1);
      low := Pick(mul, out0, rs1);
      high := Pick(mul, out1, Word(extension, extension));
      bytes1 := Bytes(op1);
      bytes2 := Bytes(op2);
      BytesOf(op1);
      BytesOf(op2);
    }

    /**
      eval_fn_87 and 88. Whatever the signs and the upper result, if the relation holds then these
      two carries are in range and make the lower two steps exact.
     */
    method EvalLowCarries()
      modifies this`carries
      ensures LowCarriesFilled()
      ensures forall r: Relation :: LowHalfOf(r) && r.Ranged() && r.Holds() ==> LowStepsExact(r, carries)
    {
      hide CarryOf, Column0, Column1, Carry.Value, Relation.Holds, Relation.Ranged;
      carries := carries.(k0 := CarryOf(Column0(bytes1, bytes2) + addend.lo - low.lo, 9));
      carries := carries.(k1 := CarryOf(carries.k0.Value() + Column1(bytes1, bytes2) + addend.hi - low.hi, 10));
      forall r: Relation | LowHalfOf(r) && r.Ranged() && r.Holds()
        ensures LowStepsExact(r, carries)
      {
        hide LowStepsExact;
        ColumnsIgnoreSigns(bytes1, bytes2, r.a.sign, r.b.sign);
        LowCarries(r, carries);
      }
    }

    /** The relation reads its lower half from this row. */
    ghost predicate LowHalfOf(r: Relation)
      reads this`addend, this`low, this`bytes1, this`bytes2
    {
      r.a == bytes1.(sign := r.a.sign) && r.b == bytes2.(sign := r.b.sign) && r.addend == addend && r.low == low
    }

    /** eval_fn_96 to 100. */
    method EvalResultSigns()
      requires InputsValid() && IsBit(signsDiffer) && IsBit(dividendSign)
      requires IsBit(quotientZero.flag) && IsBit(remainderZero.flag) && IsBit(divisorZero.flag)
      modifies this`mulRd, this`quotientSign, this`remainderSign, this`divByZero
      ensures SignsFilled()
    {
      mulRd := Pick(minor0, out0, out1);
      quotientSign := FieldAndNot(signsDiffer, quotientZero.flag);
      remainderSign := FieldAndNot(dividendSign, remainderZero.flag);
      divByZero := FieldAnd(divrem, divisorZero.flag);
    }

    /** eval_fn_101 to 105: the masked 32-bit addition or subtraction. */
    method EvalCompare()
      requires InputsValid() && IsBit(divisorSign) && IsBit(remainderSign) && out1.Ranged() && out2.Ranged() && IsBit(overflow)
      modifies this`compareDiffer, this`addFlag, this`subFlag, this`out2, this`overflow
      ensures compareDiffer == Bit(remainderSign != divisorSign)
      ensures addFlag == Bit(divrem == 1 && compareDiffer == 1) && subFlag == Bit(divrem == 1 && compareDiffer == 0)
      ensures out2.Ranged() && IsBit(overflow)
      ensures addFlag == 1 ==> out1.Value() + rs2.Value() == out2.Value() + WORD * overflow
      ensures subFlag == 1 ==> out2.Value() + rs2.Value() == out1.Value() + WORD * overflow
      ensures divrem == 0 ==> overflow == old(overflow)
    {
      hide FieldXor, FieldAnd, FieldAndNot;
      compareDiffer := FieldXor(divisorSign, remainderSign);
      addFlag := FieldAnd(divrem, compareDiffer);
      var r, d := out1.Value(), rs2.Value();
      hide OverflowingAdd, OverflowingSub;
      if addFlag == 1 {
        var (out, of) := OverflowingAdd(r, d);
        out2, overflow := out, of;
      }
      subFlag := FieldAndNot(divrem, compareDiffer);
      if subFlag == 1 {
        var (out, of) := OverflowingSub(r, d);
        out2, overflow := out, of;
      }
    }

    /** eval_fn_106 to 111. */
    method EvalInequality()
      requires InputsValid() && IsBit(overflow) && IsBit(compareDiffer) && IsBit(remainderSign) && out2.Ranged() && IsBit(takeQuotient)
      modifies this`condition, this`outZero, this`reversed, this`smaller, this`divRd
      ensures condition == Bit(compareDiffer != overflow)
      ensures ZeroTestOf(outZero, out2)
      ensures reversed == Bit(condition == 0 && outZero.flag == 0)
      ensures smaller == if remainderSign == 1 then reversed else condition
      ensures divRd == Pick(takeQuotient, out0, out1)
    {
      hide FieldXor, FieldNor, ZeroTest.Ok;
      condition := FieldXor(overflow, compareDiffer);
      outZero := TestZero(out2);
      reversed := FieldNor(condition, outZero.flag);
      smaller := if remainderSign == 1 then reversed else condition;
      divRd := Pick(takeQuotient, out0, out1);
    }

    /** eval_fn_128 to 131: the upper half of the chain. */
    method EvalUpperHalf()
      requires LowCarriesFilled()
      modifies this`sign2, this`addendSign, this`carries
      ensures CarriesFilled()
    {
      hide Column0, Column1, Column2, Column3, CarryOf, Carry.Value;
      sign2 := if mul == 1 then mulSign2 else quotientSign;
      addendSign := if mul == 1 then 0 else remainderSign;
      var a, b := bytes1.(sign := sign1), bytes2.(sign := sign2);
      carries := carries.(k2 := CarryOf(carries.k1.Value() + Column2(a, b) + 0xffff * addendSign - high.lo, 11));
      carries := carries.(k3 := CarryOf(carries.k2.Value() + Column3(a, b) + 0xffff * addendSign - high.hi, 11));
      ColumnsIgnoreSigns(bytes1, bytes2, sign1, sign2);
    }

    // The whole run in stages. Each stage's result reads only its own places, so later
    // stages leave it alone.

    ghost predicate OutputsFilled()
      reads this`out0, this`out1, this`op1Signed, this`mulSign1, this`mulSign2, this`isSigned, this`divisorSign, this`dividendSign
    {
      && out0.Ranged() && out1.Ranged()
      && op1Signed == Bit(minor1 == 1 || minor2 == 1)
      && mulSign1 == Negative(minor1 == 1 || minor2 == 1, rs1.Value())
      && mulSign2 == Negative(minor1 == 1, rs2.Value())
      && isSigned == Bit(minor0 == 1 || minor2 == 1)
      && divisorSign == Negative(minor0 == 1 || minor2 == 1, rs2.Value())
      && dividendSign == Negative(minor0 == 1 || minor2 == 1, rs1.Value())
      && (mul == 1 ==> var v := WideProduct(mulSign1, mulSign2, rs1.Value(), rs2.Value());
                       out0.Value() == v % WORD && out1.Value() == v / WORD % WORD)
      && (divrem == 1 ==> out0.Value() == Div(minor0 == 1 || minor2 == 1, rs1.Value(), rs2.Value()))
      && (divrem == 1 ==> out1.Value() == Rem(minor0 == 1 || minor2 == 1, rs1.Value(), rs2.Value()))
    }

    ghost predicate ZerosFilled()
      reads this`out0, this`out1, this`divisorSign, this`dividendSign, this`signsDiffer, this`extension
      reads this`takeQuotient, this`quotientZero, this`remainderZero, this`divisorZero
    {
      && signsDiffer == Bit(dividendSign != divisorSign) && extension == 0xffff * dividendSign
      && takeQuotient == Bit(minor0 == 1 || minor1 == 1)
      && ZeroTestOf(quotientZero, Masked(divrem, out0))
      && ZeroTestOf(remainderZero, Masked(divrem, out1))
      && ZeroTestOf(divisorZero, Masked(divrem, rs2))
    }

    ghost predicate SignsFilled()
      reads this`out0, this`out1, this`dividendSign, this`signsDiffer, this`quotientZero, this`remainderZero, this`divisorZero
      reads this`mulRd, this`quotientSign, this`remainderSign, this`divByZero
    {
      && mulRd == Pick(minor0, out0, out1)
      && quotientSign == Bit(signsDiffer == 1 && quotientZero.flag == 0)
      && remainderSign == Bit(dividendSign == 1 && remainderZero.flag == 0)
      && divByZero == Bit(divisorZero.flag == 1 && divrem == 1)
    }

    ghost predicate FactorsFilled()
      reads this`out0, this`out1, this`mulSign1, this`divisorSign, this`extension
      reads this`op1, this`op2, this`sign1, this`addend, this`low, this`high, this`bytes1, this`bytes2
    {
      && op1 == Pick(mul, rs1, rs2) && op2 == Pick(mul, rs2, out0)
      && sign1 == (if mul == 1 then mulSign1 else divisorSign)
      && addend == Pick(mul, Word(0, 0), out1)
      && low == Pick(mul, out0, rs1) && high == Pick(mul, out1, Word(extension, extension))
      && bytes1 == Bytes(op1) && bytes2 == Bytes(op2)
    }

    ghost predicate CompareFilled()
      reads this`out0, this`out1, this`out2, this`divisorSign, this`remainderSign, this`takeQuotient, this`overflow
      reads this`compareDiffer, this`addFlag, this`subFlag, this`condition, this`outZero, this`reversed, this`smaller
      reads this`divRd, this`carryMid
    {
      && compareDiffer == Bit(remainderSign != divisorSign)
      && addFlag == Bit(divrem == 1 && compareDiffer == 1) && subFlag == Bit(divrem == 1 && compareDiffer == 0)
      && out2.Ranged() && IsBit(overflow) && (divrem == 0 ==> overflow == 0)
      && (addFlag == 1 ==> out1.Value() + rs2.Value() == out2.Value() + WORD * overflow)
      && (subFlag == 1 ==> out2.Value() + rs2.Value() == out1.Value() + WORD * overflow)
      && condition == Bit(compareDiffer != overflow)
      && ZeroTestOf(outZero, out2)
      && reversed == Bit(condition == 0 && outZero.flag == 0)
      && smaller == (if remainderSign == 1 then reversed else condition)
      && divRd == Pick(takeQuotient, out0, out1)
      && carryMid == MidCarry(addFlag, subFlag, out1.lo, rs2.lo, out2.lo)
    }

    ghost predicate LowCarriesFilled()
      reads this`addend, this`low, this`bytes1, this`bytes2, this`carries
    {
      && carries.k0 == CarryOf(Column0(bytes1, bytes2) + addend.lo - low.lo, 9)
      && carries.k1 == CarryOf(carries.k0.Value() + (Column1(bytes1, bytes2) + addend.hi - low.hi), 10)
    }

    ghost predicate CarriesFilled()
      reads this`mulSign2, this`quotientSign, this`remainderSign, this`sign1, this`sign2, this`addend, this`addendSign
      reads this`low, this`high, this`bytes1, this`bytes2, this`carries
    {
      && sign2 == (if mul == 1 then mulSign2 else quotientSign)
      && addendSign == (if mul == 1 then 0 else remainderSign)
      && carries == CarriesOf(Relation(bytes1.(sign := sign1), bytes2.(sign := sign2), addend, addendSign, low, high))
    }

    /** eval_fn_30 to 38: operand signs and the results of both families. */
    method EvalOutputs()
      requires InputsValid() && out0.Ranged() && out1.Ranged()
      modifies this`op1Signed, this`mulSign1, this`mulSign2, this`isSigned, this`divisorSign, this`dividendSign, this`out0, this`out1
      ensures OutputsFilled()
    {
      hide WideProduct, Div, Rem, Negative, Word.Value, Word.Ranged;
      EvalMulSigns();
      EvalMulOutputs();
      EvalOperandSigns();
      EvalDivOutputs();
    }

    lemma OutputBits()
      requires OutputsFilled()
      ensures IsBit(divisorSign) && IsBit(dividendSign) && out0.Ranged() && out1.Ranged()
    {
    }

    /** eval_fn_39 to 70. */
    method EvalZeros()
      requires InputsValid() && OutputsFilled()
      modifies this`signsDiffer, this`extension, this`takeQuotient, this`quotientZero, this`remainderZero, this`divisorZero
      ensures ZerosFilled()
    {
      hide OutputsFilled, Word.Ranged, Word.Value, ZeroTest.Ok, Masked;
      OutputBits();
      EvalSignXor();
      EvalZeroTests();
    }

    /** eval_fn_74 to 88. */
    method EvalFactors()
      requires InputsValid() && OutputsFilled()
      modifies this`op1, this`op2, this`sign1, this`addend, this`low, this`high, this`bytes1, this`bytes2, this`carries
      ensures FactorsFilled() && LowCarriesFilled()
    {
      hide OutputsFilled, CarryOf, Column0, Column1, Bytes, Word.Value, Word.Ranged, Pick, Carry.Value;
      OutputBits();
      EvalChainOperands();
      EvalLowCarries();
    }

    lemma ZeroBits()
      requires OutputsFilled() && ZerosFilled()
      ensures IsBit(signsDiffer) && IsBit(dividendSign)
      ensures IsBit(quotientZero.flag) && IsBit(remainderZero.flag) && IsBit(divisorZero.flag)
    {
    }

    lemma StageBits()
      requires OutputsFilled() && ZerosFilled() && SignsFilled()
      ensures IsBit(divisorSign) && IsBit(remainderSign) && IsBit(takeQuotient) && out1.Ranged()
    {
    }

    /** eval_fn_30 to 100. */
    method EvalThroughSigns()
      requires InputsValid() && out0.Ranged() && out1.Ranged()
      modifies this`op1Signed, this`mulSign1, this`mulSign2, this`isSigned, this`divisorSign, this`dividendSign, this`out0, this`out1
      modifies this`signsDiffer, this`extension, this`takeQuotient, this`quotientZero, this`remainderZero, this`divisorZero
      modifies this`op1, this`op2, this`sign1, this`addend, this`low, this`high, this`bytes1, this`bytes2, this`carries
      modifies this`mulRd, this`quotientSign, this`remainderSign, this`divByZero
      ensures OutputsFilled() && ZerosFilled() && FactorsFilled() && LowCarriesFilled() && SignsFilled()
    {
      hide OutputsFilled, ZerosFilled, FactorsFilled, LowCarriesFilled, SignsFilled, InputsValid, Word.Ranged;
      EvalOutputs();
      EvalZeros();
      EvalFactors();
      ZeroBits();
      EvalResultSigns();
    }

    /** eval_fn_101 to 123. */
    method EvalComparison()
      requires InputsValid() && OutputsFilled() && ZerosFilled() && SignsFilled() && out2.Ranged() && overflow == 0
      modifies this`compareDiffer, this`addFlag, this`subFlag, this`out2, this`overflow
      modifies this`condition, this`outZero, this`reversed, this`smaller, this`divRd, this`carryMid
      ensures CompareFilled()
    {
      hide OutputsFilled, ZerosFilled, SignsFilled, Word.Value, Word.Ranged, Pick, ZeroTest.Ok, MidCarry;
      StageBits();
      EvalCompare();
      EvalInequality();
      carryMid := MidCarry(addFlag, subFlag, out1.lo, rs2.lo, out2.lo);
    }
  }

  lemma ResultsAreWords(signed: bool, n: int, d: int)
    requires IsWord(n) && IsWord(d)
    ensures IsWord(Div(signed, n, d)) && IsWord(Rem(signed, n, d))
  {
  }
}
