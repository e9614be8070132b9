/**
  The complex extension of the base field: pairs c0 + c1 * i with i * i = -1, updated in place.
  A pair stands for a Gaussian integer modulo P.
 */
module Complex {
  import opened ModArith
  import opened Gaussian
  import opened Mersenne31Prime
  import opened Fermat
  import M31 = Mersenne31

  const TWO_ADICITY: nat := 31

  // ------------------------------------------------------- residues of words

  lemma AddDenotes(x: int, u: int, y: int, v: int)
    requires M31.Denotes(x, u) && M31.Denotes(y, v)
    ensures M31.Denotes(M31.AddMod(x, y), u + v)
  {
    AddMod(x, y, P);
    AddMod(u, v, P);
  }

  lemma SubDenotes(x: int, u: int, y: int, v: int)
    requires M31.Denotes(x, u) && M31.Denotes(y, v)
    ensures M31.Denotes(M31.SubMod(x, y), u - v)
  {
    SubMod(x, y, P);
    SubMod(u, v, P);
  }

  // ------------------------------------------------ minus one is not a square

  lemma {:induction false} OddPower(x: int, e: nat)
    requires x % P == (-1) % P
    ensures IntPow(x, 2 * e + 1) % P == (-1) % P
  {
    PowCongruent(x, -1, 2 * e + 1, P);
    MinusOnePower(e);
  }

  lemma {:induction false} MinusOnePower(e: nat)
    ensures IntPow(-1, 2 * e + 1) == -1
  {
    if e > 0 {
      MinusOnePower(e - 1);
      assert IntPow(-1, 2 * e + 1) == (-1) * IntPow(-1, 2 * e);
      assert IntPow(-1, 2 * e) == (-1) * IntPow(-1, 2 * e - 1);
    } else {
      assert IntPow(-1, 1) == (-1) * IntPow(-1, 0);
    }
  }

  /** P is 3 modulo 4, so no square is -1. */
  lemma MinusOneNonResidue(x: int)
    ensures (x * x) % P != (-1) % P
  {
    PIsPrime();
    hide IsPrime;
    if (x * x) % P == (-1) % P {
      assert x % P != 0 by {
        ModArith.MulMod(x, x, P);
      }
      LittleTheorem(x, P);
      PowMultiplies(x, 2, (P - 1) / 2);
      assert IntPow(x, 2) == x * IntPow(x, 1) && IntPow(x, 1) == x * IntPow(x, 0);
      OddPower(x * x, 0x1fff_ffff);
      assert false;
    }
  }

  /** A sum of two squares vanishes only with both. */
  lemma NormZero(a: int, b: int)
    ensures (a * a + b * b) % P == 0 <==> a % P == 0 && b % P == 0
  {
    ModArith.MulMod(a, a, P);
    ModArith.MulMod(b, b, P);
    AddMod(a * a, b * b, P);
    if b % P != 0 { NormNonZero(a, b); } else { PIsPrime(); SquareZero(a); }
  }

  lemma SquareZero(a: int)
    ensures (a * a) % P == 0 <==> a % P == 0
  {
    PIsPrime();
    ModArith.MulMod(a, a, P);
    if (a * a) % P == 0 { NoZeroDivisors(a, a, P); }
  }

  lemma NormNonZero(a: int, b: int)
    requires b % P != 0
    ensures (a * a + b * b) % P != 0
  {
    PIsPrime();
    var u := InverseExists(b % P, P);
    hide IsPrime;
    var x := a * u;
    MinusOneNonResidue(x);
    if (a * a + b * b) % P == 0 {
      ScaledNorm(a, b, u);
    }
  }

  lemma ScaledNorm(a: int, b: int, u: int)
    requires ((b % P) * u) % P == 1 && (a * a + b * b) % P == 0
    ensures ((a * u) * (a * u)) % P == (-1) % P
  {
    var s, t, n := (a * u) * (a * u), (b * u) * (b * u), a * a + b * b;
    assert t % P == 1 by {
      MulModLeft(b, u, P);
      ModArith.MulMod(b * u, b * u, P);
    }
    assert (s + t) % P == 0 by {
      SquareOfProduct(a, u);
      SquareOfProduct(b, u);
      assert s + t == n * (u * u);
      MulModLeft(n, u * u, P);
    }
    OppositeOfOne(s, t);
  }

  lemma OppositeOfOne(s: int, t: int)
    requires t % P == 1 && (s + t) % P == 0
    ensures s % P == (-1) % P
  {
    CongruentIff(s, -1, P);
    CongruentIff(t, 1, P);
    SubMod(s + t, t - 1, P);
  }

  lemma SquareOfProduct(a: int, u: int)
    ensures (a * u) * (a * u) == (a * a) * (u * u)
  {
    assert (a * u) * (a * u) == a * (u * (a * u));
    assert u * (a * u) == a * (u * u);
    assert a * (a * (u * u)) == (a * a) * (u * u);
  }

  // ---------------------------------------------------------------- the class

  class Mersenne31Complex {
    var c0: int
    var c1: int

    ghost predicate Valid()
      reads this
    {
      M31.Rep(c0) && M31.Rep(c1)
    }

    ghost function Value(): G
      reads this
    {
      G(c0, c1)
    }

    constructor (re: int, im: int)
      ensures c0 == re && c1 == im
    {
      c0, c1 := re, im;
    }

    /** Three multiplications. */
    method MulAssign(other: Mersenne31Complex)
      requires Valid() && other.Valid() && other != this
      modifies this
      ensures Valid() && Cong(Value(), Mul(old(Value()), other.Value()), P)
    {
      hide M31.AddMod, M31.SubMod, M31.MulMod;
      ghost var a, b, c, d := c0, c1, other.c0, other.c1;
      var v0 := M31.MulMod(c0, other.c0);
      var v1 := M31.MulMod(c1, other.c1);
      c1 := M31.AddMod(c1, c0);
      var t0 := M31.AddMod(other.c0, other.c1);
      M31.MulDenotes(c1, b + a, t0, c + d);
      c1 := M31.MulMod(c1, t0);
      SubDenotes(c1, (b + a) * (c + d), v0, a * c);
      c1 := M31.SubMod(c1, v0);
      SubDenotes(c1, (b + a) * (c + d) - a * c, v1, b * d);
      c1 := M31.SubMod(c1, v1);
      c0 := v0;
      SubDenotes(c0, a * c, v1, b * d);
      c0 := M31.SubMod(c0, v1);
      assert (b + a) * (c + d) - a * c - b * d == a * d + b * c by { Karatsuba(a, b, c, d); }
    }

    /** Four multiplications, for the target with modular instructions. */
    method MulAssignSchoolbook(other: Mersenne31Complex)
      requires Valid() && other.Valid() && other != this
      modifies this
      ensures Valid() && Cong(Value(), Mul(old(Value()), other.Value()), P)
    {
      hide M31.AddMod, M31.SubMod, M31.MulMod;
      ghost var a, b, c, d := c0, c1, other.c0, other.c1;
      var v0 := M31.MulMod(c0, other.c0);
      var v1 := M31.MulMod(c1, other.c1);
      var v01 := M31.MulMod(c0, other.c1);
      var v10 := M31.MulMod(c1, other.c0);
      SubDenotes(v0, a * c, v1, b * d);
      c0 := M31.SubMod(v0, v1);
      AddDenotes(v01, a * d, v10, b * c);
      c1 := M31.AddMod(v01, v10);
    }

    method Square()
      requires Valid()
      modifies this
      ensures Valid() && Cong(Value(), Mul(old(Value()), old(Value())), P)
    {
      hide M31.AddMod, M31.SubMod, M31.MulMod, M31.Double;
      ghost var a, b := c0, c1;
      var v0 := M31.SubMod(c0, c1);
      var v3 := M31.AddMod(c0, c1);
      var v2 := M31.MulMod(c0, c1);
      M31.MulDenotes(v0, a - b, v3, a + b);
      v0 := M31.MulMod(v0, v3);
      AddDenotes(v0, (a - b) * (a + b), v2, a * b);
      v0 := M31.AddMod(v0, v2);
      AddDenotes(v2, a * b, v2, a * b);
      c1 := M31.Double(v2);
      c0 := v0;
      SubDenotes(c0, (a - b) * (a + b) + a * b, v2, a * b);
      c0 := M31.SubMod(c0, v2);
      DoubleDenotes(v2, a * b);
      assert (a - b) * (a + b) + a * b - a * b == a * a - b * b by { DifferenceOfSquares(a, b); }
      assert a * b + b * a == 2 * (a * b) by { assert a * b == b * a; }
    }

    method SquareSchoolbook()
      requires Valid()
      modifies this
      ensures Valid() && Cong(Value(), Mul(old(Value()), old(Value())), P)
    {
      hide M31.AddMod, M31.SubMod, M31.MulMod, M31.Double;
      ghost var a, b := c0, c1;
      var v0 := M31.MulMod(c0, c0);
      var v1 := M31.MulMod(c1, c1);
      var cross := M31.MulMod(c0, c1);
      SubDenotes(v0, a * a, v1, b * b);
      c0 := M31.SubMod(v0, v1);
      c1 := M31.Double(cross);
      DoubleDenotes(cross, a * b);
      assert a * b + b * a == 2 * (a * b) by { assert a * b == b * a; }
    }

    /** Conjugate over norm; there is no inverse exactly for zero. */
    method Inverse() returns (r: Mersenne31Complex?)
      requires Valid()
      ensures r == null <==> c0 % P == 0 && c1 % P == 0
      ensures r != null ==> fresh(r) && r.Valid() && Cong(Mul(Value(), r.Value()), ONE, P)
    {
      hide M31.AddMod, M31.SubMod, M31.MulMod, M31.Negate;
      var v0 := M31.MulMod(c0, c0);
      var v1 := M31.MulMod(c1, c1);
      var v1ByNonResidue := M31.Negate(v1);
      NegateDenotes(v1, c1 * c1);
      SubDenotes(v0, c0 * c0, v1ByNonResidue, -(c1 * c1));
      v0 := M31.SubMod(v0, v1ByNonResidue);
      NormZero(c0, c1);
      var inversed := M31.Inverse(v0);
      if inversed.None? { return null; }
      var n, w := c0 * c0 + c1 * c1, inversed.value;
      var d0 := M31.MulMod(c0, w);
      var d1 := M31.MulMod(c1, w);
      NegateDenotes(d1, c1 * w);
      d1 := M31.Negate(d1);
      InverseProduct(c0, c1, v0, w, d0, d1);
      r := new Mersenne31Complex(d0, d1);
    }

    /** Equality of field elements: of the reduced words. */
    method Equals(g: G) returns (eq: bool)
      requires Valid() && M31.Rep(g.re) && M31.Rep(g.im)
      ensures eq <==> Cong(Value(), g, P)
    {
      eq := M31.ToReduced(c0) == M31.ToReduced(g.re) && M31.ToReduced(c1) == M31.ToReduced(g.im);
    }
  }

  lemma Karatsuba(a: int, b: int, c: int, d: int)
    ensures (b + a) * (c + d) - a * c - b * d == a * d + b * c
  {
    assert (b + a) * (c + d) == b * (c + d) + a * (c + d);
    assert b * (c + d) == b * c + b * d && a * (c + d) == a * c + a * d;
  }

  lemma DifferenceOfSquares(a: int, b: int)
    ensures (a - b) * (a + b) == a * a - b * b
  {
    assert (a - b) * (a + b) == a * (a + b) - b * (a + b);
    assert a * (a + b) == a * a + a * b && b * (a + b) == b * a + b * b;
    assert a * b == b * a;
  }

  lemma DoubleDenotes(x: int, u: int)
    requires M31.Denotes(x, u)
    ensures M31.Denotes(M31.Double(x), 2 * u)
  {
    AddMod(x, x, P);
    AddMod(u, u, P);
  }

  lemma NegateDenotes(x: int, u: int)
    requires M31.Denotes(x, u)
    ensures M31.Denotes(M31.Negate(x), -u)
  {
    SubMod(0, x, P);
    SubMod(0, u, P);
  }

  lemma InverseProduct(a: int, b: int, n: int, w: int, d0: int, d1: int)
    requires n % P == (a * a + b * b) % P && (n * w) % P == 1
    requires d0 % P == (a * w) % P && d1 % P == (-(b * w)) % P
    ensures Cong(Mul(G(a, b), G(d0, d1)), ONE, P)
  {
    ProductResidue(a, d0, a * w);
    ProductResidue(b, d1, -(b * w));
    ProductResidue(a, d1, -(b * w));
    ProductResidue(b, d0, a * w);
    ProductResidue(w, n, a * a + b * b);
    var re, im := a * (a * w) - b * (-(b * w)), a * (-(b * w)) + b * (a * w);
    assert re == w * (a * a + b * b) && im == 0 by { ConjugateProduct(a, b, w); }
    assert n * w == w * n;
    SubMod(a * d0, b * d1, P);
    SubMod(a * (a * w), b * (-(b * w)), P);
    AddMod(a * d1, b * d0, P);
    AddMod(a * (-(b * w)), b * (a * w), P);
  }

  lemma ProductResidue(a: int, x: int, y: int)
    requires x % P == y % P
    ensures (a * x) % P == (a * y) % P
  {
    ModArith.MulMod(a, x, P);
    ModArith.MulMod(a, y, P);
  }

  lemma ConjugateProduct(a: int, b: int, w: int)
    ensures a * (a * w) - b * (-(b * w)) == w * (a * a + b * b)
    ensures a * (-(b * w)) + b * (a * w) == 0
  {
    assert a * (a * w) == w * (a * a) && b * (b * w) == w * (b * b);
    assert b * (-(b * w)) == -(b * (b * w)) && a * (-(b * w)) == -(a * (b * w));
    assert a * (b * w) == b * (a * w);
  }
}
