/**
  The multiply-add relation behind MUL and DIV: op1 * op2 + addend = result over 64 bits,
  checked by four field equations on bytes and 16-bit limbs that hand a carry to each other.
 */
module MulAddChain {
  import opened ModArith
  import opened Mersenne31Prime

  const TWO_16: int := 0x1_0000
  const TWO_48: int := 0x1_0000_0000_0000

  /** A constraint of the circuit holds when its polynomial is zero in the field. */
  predicate Zero(e: int) { e % P == 0 }

  predicate IsBit(b: int) { b == 0 || b == 1 }
  predicate IsByte(b: int) { 0 <= b < 0x100 }
  predicate IsLimb(x: int) { 0 <= x < TWO_16 }

  /** A factor: four bytes and the sign that extends them to eight. */
  datatype Factor = Factor(x0: int, x1: int, x2: int, x3: int, sign: int) {
    predicate Ranged() {
      IsByte(x0) && IsByte(x1) && IsByte(x2) && IsByte(x3) && IsBit(sign)
    }
    function Magnitude(): int { x0 + 0x100 * x1 + TWO_16 * x2 + 0x100_0000 * x3 }
    /** What the sign-extended factor stands for. */
    function Value(): int { Magnitude() - TWO_32 * sign }
    function ByteSum(): int { x0 + x1 + x2 + x3 }
  }

  /** Two 16-bit limbs. */
  datatype Word = Word(lo: int, hi: int) {
    predicate Ranged() { IsLimb(lo) && IsLimb(hi) }
    function Value(): int { lo + TWO_16 * hi }
  }

  /** A carry, as the circuit stores it: a range-checked byte and up to three booleans above it. */
  datatype Carry = Carry(byte: int, bit0: int, bit1: int, bit2: int) {
    predicate Ranged(width: nat) {
      IsByte(byte) && IsBit(bit0) && IsBit(bit1) && IsBit(bit2)
      && (width < 11 ==> bit2 == 0) && (width < 10 ==> bit1 == 0)
    }
    function Value(): int { byte + 0x100 * bit0 + 0x200 * bit1 + 0x400 * bit2 }
  }

  // The four columns of byte products, as the constraints list them.

  function Column0(a: Factor, b: Factor): int {
    a.x0 * b.x0 + 0x100 * (a.x0 * b.x1) + 0x100 * (a.x1 * b.x0)
  }

  function Column1(a: Factor, b: Factor): int {
    a.x0 * b.x2 + 0x100 * (a.x0 * b.x3)
    + a.x1 * b.x1 + 0x100 * (a.x1 * b.x2)
    + a.x2 * b.x0 + 0x100 * (a.x2 * b.x1)
    + 0x100 * (a.x3 * b.x0)
  }

  function Column2(a: Factor, b: Factor): int {
    var sa, sb := 0xff * a.sign, 0xff * b.sign;
    a.x0 * sb + 0x100 * (a.x0 * sb)
    + a.x1 * b.x3 + 0x100 * (a.x1 * sb)
    + a.x2 * b.x2 + 0x100 * (a.x2 * b.x3)
    + a.x3 * b.x1 + 0x100 * (a.x3 * b.x2)
    + sa * b.x0 + 0x100 * (sa * b.x1)
    + 0x100 * (sa * b.x0)
  }

  function Column3(a: Factor, b: Factor): int {
    var sa, sb := 0xff * a.sign, 0xff * b.sign;
    a.x0 * sb + 0x100 * (a.x0 * sb)
    + a.x1 * sb + 0x100 * (a.x1 * sb)
    + a.x2 * sb + 0x100 * (a.x2 * sb)
    + a.x3 * b.x3 + 0x100 * (a.x3 * sb)
    + sa * b.x2 + 0x100 * (sa * b.x3)
    + sa * b.x1 + 0x100 * (sa * b.x2)
    + sa * b.x0 + 0x100 * (sa * b.x1)
    + 0x100 * (sa * b.x0)
  }

  datatype Relation = Relation(a: Factor, b: Factor, addend: Word, addendSign: int, low: Word, high: Word) {
    predicate Ranged() {
      a.Ranged() && b.Ranged() && addend.Ranged() && IsBit(addendSign) && low.Ranged() && high.Ranged()
    }
    /** The integer meaning: the sign-extended product and sum agree with the result modulo 2^64. */
    ghost predicate Holds() {
      (a.Value() * b.Value() + addend.Value() - TWO_32 * addendSign - low.Value() - TWO_32 * high.Value()) % TWO_64 == 0
    }
  }

  datatype Carries = Carries(k0: Carry, k1: Carry, k2: Carry, k3: Carry) {
    predicate Ranged() {
      k0.Ranged(9) && k1.Ranged(10) && k2.Ranged(11) && k3.Ranged(11)
    }
  }

  // What each 16-bit step leaves over once its result limb is taken away.

  function Left0(r: Relation): int { Column0(r.a, r.b) + r.addend.lo - r.low.lo }
  function Left1(r: Relation): int { Column1(r.a, r.b) + r.addend.hi - r.low.hi }
  function Left2(r: Relation): int { Column2(r.a, r.b) + 0xffff * r.addendSign - r.high.lo }
  function Left3(r: Relation): int { Column3(r.a, r.b) + 0xffff * r.addendSign - r.high.hi }

  /** The four constraints of the signed machine. */
  predicate Constraints(r: Relation, c: Carries) {
    && Zero(Left0(r) - TWO_16 * c.k0.Value())
    && Zero(c.k0.Value() + Left1(r) - TWO_16 * c.k1.Value())
    && Zero(c.k1.Value() + Left2(r) - TWO_16 * c.k2.Value())
    && Zero(c.k2.Value() + Left3(r) - TWO_16 * c.k3.Value())
  }

  // ------------------------------------------------------------ bounds

  lemma ByteProduct(x: int, y: int)
    requires IsByte(x) && IsByte(y)
    ensures 0 <= x * y <= 65025
  {
    assert 0 <= x * y <= 255 * y;
  }

  lemma SignProduct(x: int, s: int)
    requires IsByte(x) && IsBit(s)
    ensures 0 <= x * (0xff * s) <= 65025 && x * (0xff * s) == 0xff * (x * s)
    ensures (0xff * s) * x == 0xff * (x * s)
  {
  }

  lemma ColumnBounds01(a: Factor, b: Factor)
    requires a.Ranged() && b.Ranged()
    ensures 0 <= Column0(a, b) <= 33357825 && 0 <= Column1(a, b) <= 66780675
  {
    ByteProduct(a.x0, b.x0); ByteProduct(a.x0, b.x1); ByteProduct(a.x0, b.x2); ByteProduct(a.x0, b.x3);
    ByteProduct(a.x1, b.x0); ByteProduct(a.x1, b.x1); ByteProduct(a.x1, b.x2);
    ByteProduct(a.x2, b.x0); ByteProduct(a.x2, b.x1); ByteProduct(a.x3, b.x0);
  }

  lemma ColumnBounds23(a: Factor, b: Factor)
    requires a.Ranged() && b.Ranged()
    ensures 0 <= Column2(a, b) <= 100203525 && 0 <= Column3(a, b) <= 133626375
  {
    SignProduct(a.x0, b.sign); SignProduct(a.x1, b.sign); SignProduct(a.x2, b.sign); SignProduct(a.x3, b.sign);
    SignProduct(b.x0, a.sign); SignProduct(b.x1, a.sign); SignProduct(b.x2, a.sign); SignProduct(b.x3, a.sign);
    ByteProduct(a.x1, b.x3); ByteProduct(a.x2, b.x2); ByteProduct(a.x2, b.x3);
    ByteProduct(a.x3, b.x1); ByteProduct(a.x3, b.x2); ByteProduct(a.x3, b.x3);
  }

  /** Every constraint stays far from the modulus, so in range "zero in the field" is "zero". */
  lemma SmallZero(e: int)
    requires -P < e < P
    ensures Zero(e) <==> e == 0
  {
  }

  // ------------------------------------------- columns against the product

  /** A product with a factor, one byte at a time. */
  lemma TimesValue(x: int, b: Factor)
    ensures x * b.Value() == x * b.x0 + 0x100 * (x * b.x1) + TWO_16 * (x * b.x2) + 0x100_0000 * (x * b.x3) - TWO_32 * (x * b.sign)
  {
  }

  lemma ProductByBytes(a: Factor, b: Factor)
    ensures a.Value() * b.Value() == a.x0 * b.Value() + 0x100 * (a.x1 * b.Value()) + TWO_16 * (a.x2 * b.Value())
                                     + 0x100_0000 * (a.x3 * b.Value()) - TWO_32 * (a.sign * b.Value())
  {
    var v := b.Value();
    assert (0x100 * a.x1) * v == 0x100 * (a.x1 * v);
    assert (TWO_16 * a.x2) * v == TWO_16 * (a.x2 * v);
    assert (0x100_0000 * a.x3) * v == 0x100_0000 * (a.x3 * v);
    assert (TWO_32 * a.sign) * v == TWO_32 * (a.sign * v);
  }

  lemma SignTimesBytes(s: int, a: Factor)
    ensures s * a.ByteSum() == a.x0 * s + a.x1 * s + a.x2 * s + a.x3 * s
  {
  }

  /** The columns add up to the sign-extended product, modulo 2^64. */
  lemma ColumnsAreProduct(a: Factor, b: Factor)
    requires a.Ranged() && b.Ranged()
    ensures Column0(a, b) + TWO_16 * Column1(a, b) + TWO_32 * Column2(a, b) + TWO_48 * Column3(a, b)
            == a.Value() * b.Value() + TWO_64 * (b.sign * a.ByteSum() + a.sign * b.ByteSum() - a.sign * b.sign)
  {
    ProductByBytes(a, b);
    TimesValue(a.x0, b); TimesValue(a.x1, b); TimesValue(a.x2, b); TimesValue(a.x3, b); TimesValue(a.sign, b);
    SignTimesBytes(b.sign, a);
    SignTimesBytes(a.sign, b);
    SignProduct(a.x0, b.sign); SignProduct(a.x1, b.sign); SignProduct(a.x2, b.sign); SignProduct(a.x3, b.sign);
    SignProduct(b.x0, a.sign); SignProduct(b.x1, a.sign); SignProduct(b.x2, a.sign); SignProduct(b.x3, a.sign);
  }

  // --------------------------------------------------------- main results

  /** All four steps together, weighted by their position. */
  lemma LeftoversAddUp(r: Relation)
    requires r.Ranged()
    ensures exists k :: Left0(r) + TWO_16 * Left1(r) + TWO_32 * Left2(r) + TWO_48 * Left3(r)
                        == r.a.Value() * r.b.Value() + r.addend.Value() - TWO_32 * r.addendSign
                           - r.low.Value() - TWO_32 * r.high.Value() + TWO_64 * k
  {
    ColumnsAreProduct(r.a, r.b);
    var k := r.b.sign * r.a.ByteSum() + r.a.sign * r.b.ByteSum() - r.a.sign * r.b.sign + r.addendSign;
    assert Left0(r) + TWO_16 * Left1(r) + TWO_32 * Left2(r) + TWO_48 * Left3(r)
           == r.a.Value() * r.b.Value() + r.addend.Value() - TWO_32 * r.addendSign
              - r.low.Value() - TWO_32 * r.high.Value() + TWO_64 * k;
  }

  lemma LeftoverBounds(r: Relation)
    requires r.Ranged()
    ensures -TWO_16 < Left0(r) <= 33423360 && -TWO_16 < Left1(r) <= 66846210
    ensures -TWO_16 < Left2(r) <= 100269060 && -TWO_16 < Left3(r) <= 133691910
  {
    ColumnBounds01(r.a, r.b);
    ColumnBounds23(r.a, r.b);
  }

  /** The carries of the constraints over the field are the carries over the integers. */
  lemma FieldStepsAreExact(r: Relation, c: Carries)
    requires r.Ranged() && c.Ranged() && Constraints(r, c)
    ensures Left0(r) == TWO_16 * c.k0.Value()
    ensures c.k0.Value() + Left1(r) == TWO_16 * c.k1.Value()
    ensures c.k1.Value() + Left2(r) == TWO_16 * c.k2.Value()
    ensures c.k2.Value() + Left3(r) == TWO_16 * c.k3.Value()
  {
    hide Left0, Left1, Left2, Left3, Zero, Relation.Ranged;
    LeftoverBounds(r);
    SmallZero(Left0(r) - TWO_16 * c.k0.Value());
    SmallZero(c.k0.Value() + Left1(r) - TWO_16 * c.k1.Value());
    SmallZero(c.k1.Value() + Left2(r) - TWO_16 * c.k2.Value());
    SmallZero(c.k2.Value() + Left3(r) - TWO_16 * c.k3.Value());
  }

  lemma Sound(r: Relation, c: Carries)
    requires r.Ranged() && c.Ranged() && Constraints(r, c)
    ensures r.Holds()
  {
    hide Left0, Left1, Left2, Left3, Constraints;
    FieldStepsAreExact(r, c);
    LeftoversAddUp(r);
    var x := r.a.Value() * r.b.Value() + r.addend.Value() - TWO_32 * r.addendSign - r.low.Value() - TWO_32 * r.high.Value();
    var k :| Left0(r) + TWO_16 * Left1(r) + TWO_32 * Left2(r) + TWO_48 * Left3(r) == x + TWO_64 * k;
    assert x == (c.k3.Value() - k) * TWO_64;
    ModShift(0, c.k3.Value() - k, TWO_64);
  }

  /** How witness generation splits a leftover: wrap to 32 bits, drop 16, keep a byte and one to three bits. */
  function CarryOf(leftover: int, width: nat): Carry {
    var v := (leftover % TWO_32) / TWO_16;
    Carry(v % 0x100, (v / 0x100) % 2, if width < 10 then 0 else (v / 0x200) % 2, if width < 11 then 0 else (v / 0x400) % 2)
  }

  function CarriesOf(r: Relation): Carries {
    var k0 := CarryOf(Left0(r), 9);
    var k1 := CarryOf(k0.Value() + Left1(r), 10);
    var k2 := CarryOf(k1.Value() + Left2(r), 11);
    var k3 := CarryOf(k2.Value() + Left3(r), 11);
    Carries(k0, k1, k2, k3)
  }

  /** A leftover divisible by 2^16 and below 2^(16 + width) comes back from its stored carry. */
  lemma CarryExact(v: int, q: int, width: nat)
    requires v == TWO_16 * q && 0 <= q
    requires (width == 9 && q < 512) || (width == 10 && q < 1024) || (width == 11 && q < 2048)
    ensures CarryOf(v, width).Ranged(width) && CarryOf(v, width).Value() == q
  {
    assert v % TWO_32 == v && v / TWO_16 == q;
  }

  /** Leftovers that vanish together modulo 2^64 pass whole, nonnegative carries upwards. */
  lemma CarriesExist(l0: int, l1: int, l2: int, l3: int, m: int) returns (q0: int, q1: int, q2: int)
    requires -TWO_16 < l0 <= 33423360 && -TWO_16 < l1 <= 66846210
    requires -TWO_16 < l2 <= 100269060 && -TWO_16 < l3 <= 133691910
    requires l0 + TWO_16 * l1 + TWO_32 * l2 + TWO_48 * l3 == TWO_64 * m
    ensures l0 == TWO_16 * q0 && q0 + l1 == TWO_16 * q1 && q1 + l2 == TWO_16 * q2 && q2 + l3 == TWO_16 * m
    ensures 0 <= q0 < 512 && 0 <= q1 < 1024 && 0 <= q2 < 2048 && 0 <= m < 2048
  {
    q0 := -(l1 + TWO_16 * l2 + TWO_32 * l3 - TWO_48 * m);
    q1 := -(l2 + TWO_16 * l3 - TWO_32 * m);
    q2 := -(l3 - TWO_16 * m);
  }

  lemma LeftoversVanish(r: Relation) returns (m: int)
    requires r.Ranged() && r.Holds()
    ensures Left0(r) + TWO_16 * Left1(r) + TWO_32 * Left2(r) + TWO_48 * Left3(r) == TWO_64 * m
  {
    hide Left0, Left1, Left2, Left3;
    LeftoversAddUp(r);
    var x := r.a.Value() * r.b.Value() + r.addend.Value() - TWO_32 * r.addendSign - r.low.Value() - TWO_32 * r.high.Value();
    var k :| Left0(r) + TWO_16 * Left1(r) + TWO_32 * Left2(r) + TWO_48 * Left3(r) == x + TWO_64 * k;
    m := x / TWO_64 + k;
  }

  lemma Complete(r: Relation)
    requires r.Ranged() && r.Holds()
    ensures CarriesOf(r).Ranged() && Constraints(r, CarriesOf(r))
  {
    hide Left0, Left1, Left2, Left3, CarryOf, Relation.Holds, Relation.Ranged, Carry.Value, Carry.Ranged;
    LeftoverBounds(r);
    var m := LeftoversVanish(r);
    var q0, q1, q2 := CarriesExist(Left0(r), Left1(r), Left2(r), Left3(r), m);
    CarryExact(Left0(r), q0, 9);
    CarryExact(q0 + Left1(r), q1, 10);
    CarryExact(q1 + Left2(r), q2, 11);
    CarryExact(q2 + Left3(r), m, 11);
  }

  /** The constraints have in-range carries exactly when the 64-bit relation holds. */
  lemma Exact(r: Relation)
    requires r.Ranged()
    ensures r.Holds() <==> exists c: Carries :: c.Ranged() && Constraints(r, c)
  {
    hide Constraints;
    if r.Holds() {
      Complete(r);
    }
    if c: Carries :| c.Ranged() && Constraints(r, c) {
      Sound(r, c);
    }
  }
}
