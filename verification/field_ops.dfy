/**
  A field given by its operations, as the generic code sees it, and products and powers in it.
 */
module FieldOps {
  import opened Options
  import opened ModArith
  import Mersenne31Prime

  datatype Field<!T> = Field(zero: T, one: T, mul: (T, T) -> T, inv: T -> Option<T>)

  /** The laws at three elements: commutative multiplication, unit, zero, and inverses off zero. */
  ghost predicate LawAt<T>(f: Field<T>, a: T, b: T, c: T) {
    && f.mul(a, b) == f.mul(b, a)
    && f.mul(f.mul(a, b), c) == f.mul(a, f.mul(b, c))
    && f.mul(f.one, a) == a
    && f.mul(f.zero, a) == f.zero
    && (a != f.zero ==> f.inv(a).Some? && f.mul(a, f.inv(a).value) == f.one)
    && f.inv(f.zero).None? && f.one != f.zero
  }

  /** What the generic code relies on. */
  ghost predicate Lawful<T(!new)>(f: Field<T>) { forall a, b, c :: LawAt(f, a, b, c) }

  lemma Comm<T(!new)>(f: Field<T>, a: T, b: T)
    requires Lawful(f)
    ensures f.mul(a, b) == f.mul(b, a)
  {
    assert LawAt(f, a, b, b);
  }

  lemma Assoc<T(!new)>(f: Field<T>, a: T, b: T, c: T)
    requires Lawful(f)
    ensures f.mul(f.mul(a, b), c) == f.mul(a, f.mul(b, c))
  {
    assert LawAt(f, a, b, c);
  }

  lemma OneMul<T(!new)>(f: Field<T>, a: T)
    requires Lawful(f)
    ensures f.mul(f.one, a) == a && f.mul(a, f.one) == a && f.one != f.zero
  {
    assert LawAt(f, a, f.one, a);
  }

  lemma ZeroMul<T(!new)>(f: Field<T>, a: T)
    requires Lawful(f)
    ensures f.mul(f.zero, a) == f.zero && f.mul(a, f.zero) == f.zero
  {
    assert LawAt(f, a, f.zero, a);
  }

  lemma InvMul<T(!new)>(f: Field<T>, a: T)
    requires Lawful(f)
    ensures f.inv(a).Some? <==> a != f.zero
    ensures f.inv(a).Some? ==> f.mul(a, f.inv(a).value) == f.one
  {
    assert LawAt(f, a, a, a);
  }

  /** The inverse is the only element with that product. */
  lemma InverseUnique<T(!new)>(f: Field<T>, a: T, b: T)
    requires Lawful(f) && f.mul(a, b) == f.one
    ensures a != f.zero && f.inv(a) == Some(b)
  {
    hide Lawful;
    ZeroMul(f, b);
    OneMul(f, b);
    InvMul(f, a);
    var c := f.inv(a).value;
    OneMul(f, c);
    Assoc(f, c, a, b);
    Comm(f, c, a);
  }

  lemma NoZeroProduct<T(!new)>(f: Field<T>, a: T, b: T)
    requires Lawful(f)
    ensures f.mul(a, b) == f.zero <==> a == f.zero || b == f.zero
  {
    hide Lawful;
    ZeroMul(f, a);
    ZeroMul(f, b);
    if a != f.zero && f.mul(a, b) == f.zero {
      InvMul(f, a);
      var c := f.inv(a).value;
      Assoc(f, c, a, b);
      Comm(f, c, a);
      OneMul(f, b);
      ZeroMul(f, c);
    }
  }

  // ----------------------------------------------------- products and powers

  function Product<T(!new)>(f: Field<T>, s: seq<T>): T {
    if s == [] then f.one else f.mul(Product(f, s[..|s| - 1]), s[|s| - 1])
  }

  predicate ZeroFree<T(==,!new)>(f: Field<T>, s: seq<T>) { forall i :: 0 <= i < |s| ==> s[i] != f.zero }

  lemma {:induction false} ProductZero<T(!new)>(f: Field<T>, s: seq<T>)
    requires Lawful(f)
    ensures Product(f, s) == f.zero <==> !ZeroFree(f, s)
  {
    hide Lawful;
    OneMul(f, f.one);
    if s != [] {
      var n := |s| - 1;
      ProductZero(f, s[..n]);
      NoZeroProduct(f, Product(f, s[..n]), s[n]);
      assert forall i :: 0 <= i < n ==> s[..n][i] == s[i];
    }
  }

  function Pow<T(!new)>(f: Field<T>, a: T, e: nat): T {
    if e == 0 then f.one else f.mul(Pow(f, a, e - 1), a)
  }

  lemma {:induction false} PowAdd<T(!new)>(f: Field<T>, a: T, d: nat, e: nat)
    requires Lawful(f)
    ensures Pow(f, a, d + e) == f.mul(Pow(f, a, d), Pow(f, a, e))
  {
    hide Lawful;
    if e == 0 {
      OneMul(f, Pow(f, a, d));
    } else {
      PowAdd(f, a, d, e - 1);
      Assoc(f, Pow(f, a, d), Pow(f, a, e - 1), a);
    }
  }

  lemma {:induction false} PowSquare<T(!new)>(f: Field<T>, a: T, e: nat)
    requires Lawful(f)
    ensures Pow(f, f.mul(a, a), e) == Pow(f, a, 2 * e)
  {
    hide Lawful;
    if e > 0 {
      PowSquare(f, a, e - 1);
      var q := Pow(f, a, 2 * e - 2);
      assert Pow(f, a, 2 * e - 1) == f.mul(q, a);
      assert Pow(f, a, 2 * e) == f.mul(f.mul(q, a), a);
      Assoc(f, q, a, a);
    }
  }

  lemma PowHalf<T(!new)>(f: Field<T>, a: T, e: nat)
    requires Lawful(f)
    ensures e % 2 == 0 ==> Pow(f, a, e) == Pow(f, f.mul(a, a), e / 2)
    ensures e % 2 == 1 ==> Pow(f, a, e) == f.mul(a, Pow(f, f.mul(a, a), e / 2))
  {
    hide Lawful;
    PowSquare(f, a, e / 2);
    if e % 2 == 1 { Comm(f, a, Pow(f, f.mul(a, a), e / 2)); }
  }

  /** Square and multiply. */
  method PowOf<T(!new)>(f: Field<T>, a: T, exp: nat) returns (result: T)
    requires Lawful(f)
    ensures result == Pow(f, a, exp)
  {
    hide Lawful, Pow;
    var base, e := a, exp;
    result := f.one;
    OneMul(f, Pow(f, a, exp));
    while e > 0
      invariant f.mul(result, Pow(f, base, e)) == Pow(f, a, exp)
    {
      PowHalf(f, base, e);
      if e % 2 == 1 {
        Assoc(f, result, base, Pow(f, f.mul(base, base), e / 2));
        result := f.mul(result, base);
      }
      e := e / 2;
      base := f.mul(base, base);
    }
    PowZero(f, base);
    OneMul(f, result);
  }

  lemma PowZero<T(!new)>(f: Field<T>, a: T)
    ensures Pow(f, a, 0) == f.one
  {
  }

  // ------------------------------------------------------ the base field is one

  type Residue = x: int | 0 <= x < Mersenne31Prime.P witness 0

  function ResidueMul(a: Residue, b: Residue): Residue { (a * b) % Mersenne31Prime.P }

  /** The inverse, picked among the residues. */
  ghost function ResidueInv(a: Residue): (r: Option<Residue>)
    ensures a == 0 ==> r.None?
    ensures a != 0 ==> r.Some? && ResidueMul(a, r.value) == 1
  {
    if a == 0 then None
    else
      ResidueInverse(a);
      var u: Residue :| ResidueMul(a, u) == 1;
      Some(u)
  }

  lemma ResidueInverse(a: Residue)
    requires a != 0
    ensures exists u: Residue :: ResidueMul(a, u) == 1
  {
    Mersenne31Prime.PIsPrime();
    var w := InverseExists(a, Mersenne31Prime.P);
    var u: Residue := w % Mersenne31Prime.P;
    ModArith.MulMod(a, w, Mersenne31Prime.P);
    ModArith.MulMod(a, u, Mersenne31Prime.P);
    assert ResidueMul(a, u) == 1;
  }

  ghost function BaseField(): Field<Residue> { Field(0, 1, ResidueMul, ResidueInv) }

  lemma ResidueAssoc(a: Residue, b: Residue, c: Residue)
    ensures ResidueMul(ResidueMul(a, b), c) == ResidueMul(a, ResidueMul(b, c))
  {
    var p := Mersenne31Prime.P;
    MulModLeft(a * b, c, p);
    MulModLeft(b * c, a, p);
    assert (a * b) * c == (b * c) * a by { assert (a * b) * c == a * (b * c); }
    assert ((b * c) % p) * a == a * ((b * c) % p);
  }

  /** The residues modulo P satisfy the laws. */
  lemma BaseFieldLawful()
    ensures Lawful(BaseField())
  {
    var f := BaseField();
    forall a: Residue, b: Residue, c: Residue
      ensures LawAt(f, a, b, c)
    {
      ResidueAssoc(a, b, c);
      ResidueUnits(a, b);
      hide ResidueMul, ResidueInv;
      assert ResidueInv(0).None?;
    }
  }

  lemma ResidueUnits(a: Residue, b: Residue)
    ensures ResidueMul(a, b) == ResidueMul(b, a) && ResidueMul(1, a) == a && ResidueMul(0, a) == 0
  {
    assert a * b == b * a;
  }
}
