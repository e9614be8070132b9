/**
  The base field: residues modulo 2^31 - 1 kept in 31 bits, so that zero has two representations,
  0 and ORDER itself.
 */
module Mersenne31 {
  import opened Options
  import opened ModArith
  import opened Mersenne31Prime
  import opened Fermat

  const TWO_31: int := 0x8000_0000
  const TWO_62: int := 0x4000_0000_0000_0000

  /** A stored word: at most 31 bits. */
  predicate Rep(x: int) { 0 <= x <= P }

  /** A stored word that stands for an integer's residue. */
  predicate Denotes(x: int, v: int) { Rep(x) && x % P == v % P }

  function ToReduced(x: int): (r: int)
    requires Rep(x)
    ensures 0 <= r < P && r == x % P
  {
    if x == P then 0 else x
  }

  predicate IsZero(x: int) { x == 0 || x == P }

  // ------------------------------------------------------- arithmetic

  /** Folds bit 31 back in: 2^31 is 1 in the field. */
  function AddMod(a: int, b: int): (r: int)
    requires Rep(a) && Rep(b)
    ensures Denotes(r, a + b)
  {
    var sum := (a + b) % TWO_32;
    if sum >= TWO_31 then sum - TWO_31 + 1 else sum
  }

  function SubMod(a: int, b: int): (r: int)
    requires Rep(a) && Rep(b)
    ensures Denotes(r, a - b)
  {
    var sum := (a - b) % TWO_32;
    if sum >= TWO_31 then sum - TWO_31 - 1 else sum
  }

  /** A product plus a word: the high part has weight 2^31, so it is just added. */
  function FmaMod(a: int, b: int, c: int): (r: int)
    requires Rep(a) && Rep(b) && Rep(c)
    ensures Denotes(r, a * b + c)
  {
    ProductBound(a, b);
    FoldWide(a * b + c)
  }

  /** The low 31 bits plus everything above them. */
  function FoldWide(product: int): (r: int)
    requires 0 <= product <= 0x3fff_ffff_8000_0000
    ensures Denotes(r, product)
  {
    Fold(product);
    AddMod(product % TWO_31, product / TWO_31 % TWO_32)
  }

  lemma ProductBound(a: int, b: int)
    requires Rep(a) && Rep(b)
    ensures 0 <= a * b <= 0x3fff_ffff_0000_0001
  {
    assert a * b <= P * b;
    assert 0 <= a * b;
  }

  lemma Fold(x: int)
    requires 0 <= x
    ensures x % P == (x % TWO_31 + x / TWO_31) % P
  {
    ModShift(x % TWO_31 + x / TWO_31, x / TWO_31, P);
  }

  function MulMod(a: int, b: int): (r: int)
    requires Rep(a) && Rep(b)
    ensures Denotes(r, a * b)
  {
    ProductBound(a, b);
    FoldWide(a * b)
  }

  function Negate(x: int): (r: int)
    requires Rep(x)
    ensures Denotes(r, -x)
  {
    ModShift(-x, 1, P);
    P - x
  }

  function Double(x: int): (r: int)
    requires Rep(x)
    ensures Denotes(r, 2 * x)
  {
    var sum := (2 * x) % TWO_32;
    if sum >= TWO_31 then sum - TWO_31 + 1 else sum
  }

  function FromNonReduced(c: int): (r: int)
    requires 0 <= c < TWO_32
    ensures 0 <= r < P && r == c % P
  {
    var c1 := if c >= P then c - P else c;
    if c1 >= P then c1 - P else c1
  }

  // ---------------------------------------------------- powers and inverse

  lemma MulDenotes(x: int, u: int, y: int, v: int)
    requires Denotes(x, u) && Denotes(y, v)
    ensures Denotes(MulMod(x, y), u * v)
  {
    ModArith.MulMod(x, y, P);
    ModArith.MulMod(u, v, P);
  }

  /** Squares k times: the exponent 2^k. */
  method ExpPowerOf2(x: int, k: nat, ghost e: nat, ghost b: int) returns (r: int)
    requires Denotes(x, IntPow(b, e))
    ensures Denotes(r, IntPow(b, e * Exp2(k)))
  {
    r := x;
    var i := 0;
    while i < k
      invariant 0 <= i <= k
      invariant Denotes(r, IntPow(b, e * Exp2(i)))
    {
      ghost var f := e * Exp2(i);
      PowAdds(b, f, f);
      assert f + f == e * Exp2(i + 1);
      MulDenotes(r, IntPow(b, f), r, IntPow(b, f));
      r := MulMod(r, r);
      i := i + 1;
    }
  }

  lemma PowProduct(x: int, y: int, b: int, e: nat, f: nat)
    requires Denotes(x, IntPow(b, e)) && Denotes(y, IntPow(b, f))
    ensures Denotes(MulMod(x, y), IntPow(b, e + f))
  {
    PowAdds(b, e, f);
    MulDenotes(x, IntPow(b, e), y, IntPow(b, f));
  }

  lemma SmallExp2()
    ensures Exp2(2) == 4 && Exp2(3) == 8 && Exp2(4) == 16 && Exp2(12) == 4096 && Exp2(29) == 536870912
  {
    assert Exp2(8) == 256;
    assert Exp2(16) == 65536;
    assert Exp2(24) == 16777216;
  }

  /** The addition chain for the exponent p - 2. */
  method Inverse(x: int) returns (r: Option<int>)
    requires Rep(x)
    ensures r == None <==> x % P == 0
    ensures r.Some? ==> Rep(r.value) && (x * r.value) % P == 1
  {
    if IsZero(x) {
      return None;
    }
    SmallExp2();
    assert IntPow(x, 1) == x * IntPow(x, 0);
    var p101 := ExpPowerOf2(x, 2, 1, x);
    PowProduct(p101, x, x, 4, 1);
    p101 := MulMod(p101, x);

    var p1111 := ExpPowerOf2(p101, 1, 5, x);
    PowProduct(p1111, p101, x, 10, 5);
    p1111 := MulMod(p1111, p101);

    var p11111111 := ExpPowerOf2(p1111, 4, 15, x);
    PowProduct(p11111111, p1111, x, 240, 15);
    p11111111 := MulMod(p11111111, p1111);

    var p111111110000 := ExpPowerOf2(p11111111, 4, 255, x);

    PowProduct(p111111110000, p1111, x, 4080, 15);
    var p111111111111 := MulMod(p111111110000, p1111);

    var p16 := ExpPowerOf2(p111111110000, 4, 4080, x);
    PowProduct(p16, p11111111, x, 65280, 255);
    p16 := MulMod(p16, p11111111);

    var p28 := ExpPowerOf2(p16, 12, 65535, x);
    PowProduct(p28, p111111111111, x, 268431360, 4095);
    p28 := MulMod(p28, p111111111111);

    var p31 := ExpPowerOf2(p28, 3, 268435455, x);
    PowProduct(p31, p101, x, 2147483640, 5);
    p31 := MulMod(p31, p101);

    assert Denotes(p31, IntPow(x, P - 2));
    InverseByPower(x, p31);
    r := Some(p31);
  }

  /** The inverse that is stored beside a zero test, reduced; zero for zero. */
  method InverseOrZero(x: int) returns (u: int)
    requires Rep(x)
    ensures 0 <= u < P && (x % P != 0 ==> (x * u) % P == 1) && (x % P == 0 ==> u == 0)
  {
    var r := Inverse(x);
    if r.None? { return 0; }
    u := ToReduced(r.value);
    ModArith.MulMod(x, r.value, P);
  }

  /** A power p - 2 is the inverse: Fermat's little theorem. */
  lemma InverseByPower(x: int, y: int)
    requires x % P != 0 && Denotes(y, IntPow(x, P - 2))
    ensures (x * y) % P == 1
  {
    PIsPrime();
    LittleTheorem(x, P);
    ModArith.MulMod(x, y, P);
    ModArith.MulMod(x, IntPow(x, P - 2), P);
    assert IntPow(x, P - 1) == x * IntPow(x, P - 2);
  }

  lemma Halve(w: int, e: nat)
    ensures w * e == (2 * w) * (e / 2) + if e % 2 == 1 then w else 0
  {
    assert e == 2 * (e / 2) + e % 2;
    assert w * (2 * (e / 2)) == (2 * w) * (e / 2);
  }

  /** `Field::pow`: square and multiply. */
  method Pow(x: int, exp: nat) returns (r: int)
    requires Rep(x) && exp < TWO_32
    ensures Denotes(r, IntPow(x, exp))
  {
    var b, e := x, exp;
    r := 1;
    ghost var weight := 1;
    ghost var done := 0;
    assert IntPow(x, 1) == x * IntPow(x, 0);
    while e > 0
      invariant weight >= 0 && done >= 0 && done + weight * e == exp
      invariant Denotes(b, IntPow(x, weight)) && Denotes(r, IntPow(x, done))
    {
      hide MulMod, IntPow;
      Halve(weight, e);
      if e % 2 == 1 {
        PowProduct(r, b, x, done, weight);
        r := MulMod(r, b);
        done := done + weight;
      }
      PowProduct(b, b, x, weight, weight);
      e := e / 2;
      b := MulMod(b, b);
      weight := 2 * weight;
    }
    assert weight * e == 0;
  }

  /** The square root by the power (p + 1) / 4: it misses no square. */
  method Sqrt(x: int) returns (r: Option<int>)
    requires Rep(x)
    ensures r.Some? ==> Denotes(x, r.value * r.value) && Rep(r.value)
    ensures r == None ==> forall y: int {:trigger y * y} :: (y * y) % P != x % P
  {
    SmallExp2();
    assert IntPow(x, 1) == x * IntPow(x, 0);
    var candidate := ExpPowerOf2(x, 29, 1, x);
    var t := MulMod(candidate, candidate);
    if ToReduced(t) == ToReduced(x) {
      return Some(candidate);
    }
    forall y: int | true
      ensures (y * y) % P != x % P
    {
      if (y * y) % P == x % P {
        RootIsFound(x, y, candidate);
      }
    }
    r := None;
  }

  /** If x = y^2 then (x^(2^29))^2 = y^(p + 1) = x. */
  lemma RootIsFound(x: int, y: int, candidate: int)
    requires (y * y) % P == x % P && Denotes(candidate, IntPow(x, 536870912))
    ensures (candidate * candidate) % P == x % P
  {
    var n: nat := 536870912;
    PowCongruent(x, y * y, n, P);
    assert IntPow(y, 2) == y * y by {
      assert IntPow(y, 2) == y * IntPow(y, 1) && IntPow(y, 1) == y * IntPow(y, 0);
    }
    PowMultiplies(y, 2, n);
    var s := IntPow(y, 2 * n);
    ModArith.MulMod(candidate, candidate, P);
    ModArith.MulMod(s, s, P);
    PowAdds(y, 2 * n, 2 * n);
    assert (candidate * candidate) % P == IntPow(y, P + 1) % P;
    PowAdds(y, P - 1, 2);
    if y % P != 0 {
      PIsPrime();
      LittleTheorem(y, P);
      ModArith.MulMod(IntPow(y, P - 1), y * y, P);
    } else {
      ModArith.MulMod(y, y, P);
      ModArith.MulMod(IntPow(y, P - 1), y * y, P);
    }
  }

  // --------------------------------------------- rotations and wide inputs

  /** A left rotation of 31 bits; the two parts share no bits, so joining them is adding them. */
  function Rotate(x: int, e: nat): (r: int)
    requires Rep(x) && e <= 31
    ensures Denotes(r, x * Exp2(e))
  {
    RotateParts(x, e);
    (x * Exp2(e)) % TWO_31 + x / Exp2(31 - e)
  }

  lemma RotateParts(x: int, e: nat)
    requires Rep(x) && e <= 31
    ensures Denotes((x * Exp2(e)) % TWO_31 + x / Exp2(31 - e), x * Exp2(e))
  {
    var hi, lo := Exp2(e), Exp2(31 - e);
    Exp2Adds(e, 31 - e);
    Exp2At31();
    var right, rem := EuclidParts(x, lo);
    RotateArithmetic(x, hi, lo, right, rem);
    DivModUnique(x * hi, right, rem * hi, TWO_31);
    ModShift(right + rem * hi, right, P);
  }

  lemma RotateArithmetic(x: int, hi: int, lo: int, right: int, rem: int)
    requires hi > 0 && lo > 0 && hi * lo == TWO_31 && 0 <= x < TWO_31
    requires x == right * lo + rem && 0 <= rem < lo && 0 <= right
    ensures x * hi == right * TWO_31 + rem * hi
    ensures 0 <= rem * hi < TWO_31 && right + rem * hi <= P
  {
    assert (right * lo + rem) * hi == right * (hi * lo) + rem * hi by {
      assert (right * lo) * hi == right * (lo * hi);
    }
    assert 0 <= rem * hi <= (lo - 1) * hi;
    assert (lo - 1) * hi == hi * lo - hi;
    LessFromProducts(right, hi, lo);
  }

  lemma LessFromProducts(a: int, b: int, c: int)
    requires c > 0 && a * c < b * c
    ensures a < b
  {
    assert (a - b) * c < 0;
  }

  lemma EuclidParts(a: int, b: int) returns (q: int, r: int)
    requires a >= 0 && b > 0
    ensures q == a / b && r == a % b && a == q * b + r && 0 <= r < b && 0 <= q
  {
    q, r := a / b, a % b;
    if q < 0 { MultipleBound(b, q); }
  }

  lemma TimesTwo31(x: int)
    ensures (x * TWO_31) % P == x % P && (TWO_31 * x) % P == x % P
  {
    ModShift(x, x, P);
  }

  lemma {:induction false} Exp2Period(e: nat)
    ensures Exp2(e) % P == Exp2(e % 31) % P
  {
    if e >= 31 {
      Exp2Period(e - 31);
      var y := Exp2(e - 31);
      assert Exp2(e) == TWO_31 * y by {
        Exp2Adds(31, e - 31);
        Exp2At31();
      }
      TimesTwo31(y);
      assert (e - 31) % 31 == e % 31;
    }
  }

  function Mul2Exp(x: int, exp: nat): (r: int)
    requires Rep(x)
    ensures Denotes(r, x * Exp2(exp))
  {
    Exp2Period(exp);
    ModArith.MulMod(x, Exp2(exp), P);
    ModArith.MulMod(x, Exp2(exp % 31), P);
    Rotate(x, exp % 31)
  }

  /** The right rotation: multiplying by 2^exp takes it back. */
  function Div2Exp(x: int, exp: nat): (r: int)
    requires Rep(x)
    ensures Rep(r) && (r * Exp2(exp)) % P == x % P
  {
    var e := exp % 31;
    DivRotates(x, exp);
    x / Exp2(e) + (x * Exp2(31 - e)) % TWO_31
  }

  lemma DivRotates(x: int, exp: nat)
    requires Rep(x)
    ensures var e := exp % 31;
            var r := x / Exp2(e) + (x * Exp2(31 - e)) % TWO_31;
            Rep(r) && (r * Exp2(exp)) % P == x % P
  {
    var e := exp % 31;
    var f := 31 - e;
    var r := Rotate(x, f);
    Exp2Period(exp);
    ModArith.MulMod(r, Exp2(exp), P);
    ModArith.MulMod(r, Exp2(e), P);
    ModArith.MulMod(x * Exp2(f), Exp2(e), P);
    FullRotation(x, f, e);
  }

  lemma Associate(a: int, b: int, c: int)
    ensures a * b * c == a * (b * c)
  {
  }

  lemma FullRotation(x: int, f: nat, e: nat)
    requires f + e == 31
    ensures (x * Exp2(f) * Exp2(e)) % P == x % P
  {
    Exp2Adds(f, e);
    Exp2At31();
    Associate(x, Exp2(f), Exp2(e));
    TimesTwo31(x);
  }

  /** The signed reading of a 64-bit word. */
  function Signed64(x: int): int { if x >= TWO_64 / 2 then x - TWO_64 else x }

  /** `from_negative_u64_with_reduction`; a subtraction that underflows is a panic. */
  function FromNegativeU64(x: int): Option<int>
    requires 0 <= x < TWO_64
  {
    var low := x % TWO_31;
    var high := x / TWO_31 % TWO_31;
    var sign := x / (TWO_64 / 2);
    var sum := low + high;
    if sum < sign then None
    else
      var wrapped := sum - sign;
      var res := if wrapped >= TWO_31 then wrapped - TWO_31 + 1 else wrapped;
      Some(if res >= P then res - P else res)
  }

  lemma FoldOnce(w: int)
    requires 0 <= w <= 2 * P
    ensures var res := if w >= TWO_31 then w - TWO_31 + 1 else w;
            (if res >= P then res - P else res) == w % P
  {
  }

  /** The 64-bit word by its 31-bit parts: each unit of 2^31 or 2^62 counts as one. */
  lemma WordParts(x: int, low: int, mid: int, top: int)
    requires x == low + TWO_31 * mid + TWO_62 * top
    ensures x % P == (low + mid + top) % P && (x - TWO_64) % P == (low + mid + top - 4) % P
  {
    ModShift(low + mid + top, mid + 2147483649 * top, P);
    ModShift(low + mid + top - 4, mid + 2147483649 * top - 8589934596, P);
  }

  lemma NextResidueDiffers(a: int)
    ensures a % P != (a + 1) % P
  {
  }

  lemma FromNegativeParts(x: int, low: int, mid: int, top: int)
    requires 0 <= low < TWO_31 && 0 <= mid < TWO_31 && 0 <= top <= 3
    requires x == low + TWO_31 * mid + TWO_62 * top
    ensures FromNegativeU64(x) == if low + mid < top / 2 then None else Some((low + mid - top / 2) % P)
  {
    assert x / TWO_31 == mid + TWO_31 * top;
    assert x % TWO_31 == low && x / TWO_31 % TWO_31 == mid && x / (TWO_64 / 2) == top / 2;
    if low + mid >= top / 2 { FoldOnce(low + mid - top / 2); }
  }

  /** It reduces the signed value exactly when its magnitude is below 2^62. */
  lemma FromNegativeExact(x: int)
    requires 0 <= x < TWO_64
    ensures FromNegativeU64(x) == Some(Signed64(x) % P) <==> -TWO_62 < Signed64(x) < TWO_62
  {
    hide FromNegativeU64;
    var low, mid, top := x % TWO_31, x / TWO_31 % TWO_31, x / TWO_62;
    FromNegativeParts(x, low, mid, top);
    WordParts(x, low, mid, top);
    NextResidueDiffers(low + mid);
    NextResidueDiffers(low + mid - 2);
  }
}
