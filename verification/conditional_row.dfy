/**
  Branches and set-less-than: a subtraction with borrow, a zero test of the difference, and one
  table that resolves all eight conditions from the packed flags.
 */
module ConditionalRows {
  import opened ModArith
  import opened Rv32m
  import opened MulAddChain
  import MExtension
  import MExtensionWitness

  datatype Row = Row(
    rs1Low: int, rs1High: int, rs2Low: int, rs2High: int, sign1: int, sign2: int, funct3: int,
    diffLow: int, diffHigh: int, carry: int, borrow: int, eq: int, inv: int, branch: int, store: int)

  function First(w: Row): int { w.rs1Low + TWO_16 * w.rs1High }
  function Second(w: Row): int { w.rs2Low + TWO_16 * w.rs2High }

  predicate Inputs(w: Row) {
    && IsLimb(w.rs1Low) && IsLimb(w.rs1High) && IsLimb(w.rs2Low) && IsLimb(w.rs2High)
    && w.sign1 == (if w.rs1High >= 0x8000 then 1 else 0) && w.sign2 == (if w.rs2High >= 0x8000 then 1 else 0)
    && 0 <= w.funct3 < 8
  }

  // ----------------------------------------------------------------- the table

  /** Key: funct3, unsigned less-than, equality, the two sign bits; result: take the branch, store one. */
  function ConditionEntry(key: int): (int, int)
    requires 0 <= key < 0x80
  {
    var funct3, lt, eq := key % 8, key / 8 % 2 != 0, key / 16 % 2 != 0;
    var signsDiffer := (key / 32 % 2 != 0) != (key / 64 % 2 != 0);
    var signedLt := if signsDiffer then !lt else lt;
    if funct3 == 0 then (if eq then 1 else 0, 0)
    else if funct3 == 1 then (if eq then 0 else 1, 0)
    else if funct3 == 2 then (0, if signedLt then 1 else 0)
    else if funct3 == 3 then (0, if lt then 1 else 0)
    else if funct3 == 4 then (if signedLt then 1 else 0, 0)
    else if funct3 == 5 then (if signedLt then 0 else 1, 0)
    else if funct3 == 6 then (if lt then 1 else 0, 0)
    else (if lt then 0 else 1, 0)
  }

  // ------------------------------------------------------------- the instructions

  /** Section 2.5 of the RISC-V unprivileged specification: BEQ, BNE, BLT, BGE, BLTU, BGEU. */
  predicate BranchTaken(funct3: int, x: int, y: int) {
    if funct3 == 0 then x == y
    else if funct3 == 1 then x != y
    else if funct3 == 4 then Signed(x) < Signed(y)
    else if funct3 == 5 then Signed(x) >= Signed(y)
    else if funct3 == 6 then x < y
    else if funct3 == 7 then x >= y
    else false
  }

  /** Section 2.4: SLT and SLTU. */
  predicate SetLessThan(funct3: int, x: int, y: int) {
    if funct3 == 2 then Signed(x) < Signed(y) else if funct3 == 3 then x < y else false
  }

  // ---------------------------------------------------------------- constraints

  predicate Typed(w: Row) {
    IsLimb(w.diffLow) && IsLimb(w.diffHigh) && IsBit(w.carry) && IsBit(w.borrow)
  }

  /** The difference plus the second operand is the first one, limb by limb with a carry. */
  predicate Subtraction(w: Row) {
    && Zero(w.diffLow + w.rs2Low - w.rs1Low - TWO_16 * w.carry)
    && Zero(w.diffHigh + w.rs2High - w.rs1High + w.carry - TWO_16 * w.borrow)
  }

  /** The gadget that tests a register for zero, on the difference. */
  function Test(w: Row): MExtension.ZeroTest { MExtension.ZeroTest(Word(w.diffLow, w.diffHigh), w.eq, w.inv) }

  function Key(w: Row): int { w.funct3 + 32 * w.sign1 + 64 * w.sign2 + 8 * w.borrow + 16 * w.eq }

  ghost predicate Resolved(w: Row) {
    exists k :: 0 <= k < 0x80 && Zero(Key(w) - k) && ConditionEntry(k) == (w.branch, w.store)
  }

  ghost predicate Satisfied(w: Row) { Typed(w) && Subtraction(w) && Test(w).Ok() && Resolved(w) }

  /** The borrow is the unsigned comparison, and the halves are those of the wrapped difference. */
  lemma BorrowCompares(w: Row)
    requires Inputs(w) && Typed(w) && Subtraction(w)
    ensures w.borrow == 1 <==> First(w) < Second(w)
    ensures w.diffLow + TWO_16 * w.diffHigh == (First(w) - Second(w)) % WORD
  {
    SmallZero(w.diffLow + w.rs2Low - w.rs1Low - TWO_16 * w.carry);
    SmallZero(w.diffHigh + w.rs2High - w.rs1High + w.carry - TWO_16 * w.borrow);
    var d := w.diffLow + TWO_16 * w.diffHigh;
    assert First(w) - Second(w) == d - WORD * w.borrow;
    DivModUnique(First(w) - Second(w), -w.borrow, d, WORD);
  }

  /** The zero test is exact: the limbs are too small for their sum to wrap. */
  lemma ZeroTestExact(w: Row)
    requires Typed(w) && Test(w).Ok()
    ensures IsBit(w.eq) && (w.eq == 1 <==> w.diffLow + TWO_16 * w.diffHigh == 0)
  {
    hide Zero;
    MExtension.ZeroTestFlag(Test(w));
  }

  lemma DecodeKey(f: int, s1: int, s2: int, lt: int, eq: int)
    requires 0 <= f < 8 && IsBit(s1) && IsBit(s2) && IsBit(lt) && IsBit(eq)
    ensures var k := f + 32 * s1 + 64 * s2 + 8 * lt + 16 * eq;
      0 <= k < 0x80 && k % 8 == f && k / 8 % 2 == lt && k / 16 % 2 == eq && k / 32 % 2 == s1 && k / 64 % 2 == s2
  {
  }

  /** With the right flags, the table decides every condition as the standard does. */
  lemma TableDecides(f: int, x: int, y: int, lt: int, eq: int, s1: int, s2: int)
    requires 0 <= f < 8 && IsWord(x) && IsWord(y) && IsBit(lt) && IsBit(eq)
    requires s1 == (if x >= HALF then 1 else 0) && s2 == (if y >= HALF then 1 else 0)
    requires (lt == 1 <==> x < y) && (eq == 1 <==> x == y)
    ensures var k := f + 32 * s1 + 64 * s2 + 8 * lt + 16 * eq;
      0 <= k < 0x80
      && ConditionEntry(k) == (if BranchTaken(f, x, y) then 1 else 0, if SetLessThan(f, x, y) then 1 else 0)
  {
    DecodeKey(f, s1, s2, lt, eq);
  }

  lemma WrappedZero(x: int, y: int)
    requires IsWord(x) && IsWord(y)
    ensures (x - y) % WORD == 0 <==> x == y
  {
  }

  /** Every row that satisfies the constraints resolves the branch and the comparison. */
  lemma ConditionalSound(w: Row)
    requires Inputs(w) && Satisfied(w)
    ensures w.branch == if BranchTaken(w.funct3, First(w), Second(w)) then 1 else 0
    ensures w.store == if SetLessThan(w.funct3, First(w), Second(w)) then 1 else 0
  {
    hide ConditionEntry, BranchTaken, SetLessThan, Subtraction, MExtension.ZeroTest.Ok, Zero;
    BorrowCompares(w);
    ZeroTestExact(w);
    var x, y := First(w), Second(w);
    WrappedZero(x, y);
    TableDecides(w.funct3, x, y, w.borrow, w.eq, w.sign1, w.sign2);
    var k :| 0 <= k < 0x80 && Zero(Key(w) - k) && ConditionEntry(k) == (w.branch, w.store);
    SmallZero(Key(w) - k);
  }

  // ------------------------------------------------------------------- witness

  /** The places a conditional row fills. */
  class Witness {
    var rs1Low: int
    var rs1High: int
    var rs2Low: int
    var rs2High: int
    var sign1: int
    var sign2: int
    var funct3: int
    var diffLow: int
    var diffHigh: int
    var carry: int
    var borrow: int
    var eq: int
    var inv: int
    var branch: int
    var store: int

    ghost function ToRow(): Row
      reads this
    {
      Row(rs1Low, rs1High, rs2Low, rs2High, sign1, sign2, funct3, diffLow, diffHigh, carry, borrow, eq, inv, branch, store)
    }

    constructor (x: int, y: int, f: int)
      requires IsWord(x) && IsWord(y) && 0 <= f < 8
      ensures Inputs(ToRow()) && First(ToRow()) == x && Second(ToRow()) == y && funct3 == f
    {
      rs1Low, rs1High, rs2Low, rs2High := x % TWO_16, x / TWO_16, y % TWO_16, y / TWO_16;
      sign1 := if x / TWO_16 >= 0x8000 then 1 else 0;
      sign2 := if y / TWO_16 >= 0x8000 then 1 else 0;
      funct3 := f;
    }

    /** Wrapping subtraction of the words, its borrow, and the carry between the limbs. */
    method EvalDifference()
      requires IsLimb(rs1Low) && IsLimb(rs1High) && IsLimb(rs2Low) && IsLimb(rs2High)
      modifies this`diffLow, this`diffHigh, this`carry, this`borrow
      ensures IsLimb(diffLow) && IsLimb(diffHigh) && IsBit(carry) && IsBit(borrow)
      ensures Subtraction(ToRow())
    {
      var a, b := rs1High * TWO_16 + rs1Low, rs2High * TWO_16 + rs2Low;
      var d := (a - b) % WORD;
      diffLow, diffHigh := d % TWO_16, d / TWO_16;
      borrow := if a < b then 1 else 0;
      carry := (diffLow + rs2Low - rs1Low) / TWO_16 % 2;
      assert a - b == d - WORD * borrow;
    }

    /** The sum of the limbs is zero, or has an inverse. */
    method EvalZeroTest()
      requires IsLimb(diffLow) && IsLimb(diffHigh)
      modifies this`eq, this`inv
      ensures IsBit(eq) && Test(ToRow()).Ok()
    {
      var z := MExtensionWitness.TestZero(Word(diffLow, diffHigh));
      eq, inv := z.flag, z.inverse;
    }

    method EvalConditions()
      requires Inputs(ToRow()) && IsBit(borrow) && IsBit(eq)
      modifies this`branch, this`store
      ensures Resolved(ToRow())
    {
      hide ConditionEntry;
      DecodeKey(funct3, sign1, sign2, borrow, eq);
      var key := funct3 + 32 * sign1 + 64 * sign2 + 8 * borrow + 16 * eq;
      var entry := ConditionEntry(key);
      branch, store := entry.0, entry.1;
      assert Zero(Key(ToRow()) - key);
    }

    method Evaluate()
      requires Inputs(ToRow())
      modifies this`diffLow, this`diffHigh, this`carry, this`borrow, this`eq, this`inv, this`branch, this`store
      ensures Satisfied(ToRow())
    {
      hide Zero, Resolved;
      EvalDifference();
      EvalZeroTest();
      EvalConditions();
    }
  }

  /** Filling a row decides every condition for every pair of words. */
  method Execute(funct3: int, x: int, y: int) returns (branch: int, store: int)
    requires IsWord(x) && IsWord(y) && 0 <= funct3 < 8
    ensures branch == if BranchTaken(funct3, x, y) then 1 else 0
    ensures store == if SetLessThan(funct3, x, y) then 1 else 0
  {
    hide Satisfied, BranchTaken, SetLessThan;
    var row := new Witness(x, y, funct3);
    row.Evaluate();
    ConditionalSound(row.ToRow());
    return row.branch, row.store;
  }
}
