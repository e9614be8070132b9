/** The ring Z[i], its powers, and congruence in it modulo an integer. */
module Gaussian {
  import opened ModArith

  datatype G = G(re: int, im: int)

  const ONE := G(1, 0)
  const MINUS_ONE := G(-1, 0)

  function Mul(x: G, y: G): G {
    G(x.re * y.re - x.im * y.im, x.re * y.im + x.im * y.re)
  }

  function Pow(x: G, e: nat): G {
    if e == 0 then ONE else Mul(x, Pow(x, e - 1))
  }

  predicate Cong(x: G, y: G, n: int)
    requires n > 0
  {
    x.re % n == y.re % n && x.im % n == y.im % n
  }

  lemma MulComm(x: G, y: G)
    ensures Mul(x, y) == Mul(y, x)
  {
  }

  lemma Expand3(a: int, b: int, c: int, d: int, e: int)
    ensures (a * b - c * d) * e == a * (b * e) - c * (d * e)
    ensures (a * b + c * d) * e == a * (b * e) + c * (d * e)
    ensures e * (a * b - c * d) == a * (e * b) - c * (e * d)
  {
    assert (a * b - c * d) * e == (a * b) * e - (c * d) * e;
    assert (a * b + c * d) * e == (a * b) * e + (c * d) * e;
    assert (a * b) * e == a * (b * e) && (c * d) * e == c * (d * e);
  }

  lemma MulAssoc(x: G, y: G, z: G)
    ensures Mul(Mul(x, y), z) == Mul(x, Mul(y, z))
  {
    Expand3(x.re, y.re, x.im, y.im, z.re);
    Expand3(x.re, y.re, x.im, y.im, z.im);
    Expand3(x.re, y.im, x.im, y.re, z.re);
    Expand3(x.re, y.im, x.im, y.re, z.im);
    assert x.re * (y.re * z.re - y.im * z.im) == x.re * (y.re * z.re) - x.re * (y.im * z.im);
    assert x.im * (y.re * z.im + y.im * z.re) == x.im * (y.re * z.im) + x.im * (y.im * z.re);
    assert x.re * (y.re * z.im + y.im * z.re) == x.re * (y.re * z.im) + x.re * (y.im * z.re);
    assert x.im * (y.re * z.re - y.im * z.im) == x.im * (y.re * z.re) - x.im * (y.im * z.im);
  }

  lemma {:induction false} PowAdd(x: G, e: nat, f: nat)
    ensures Pow(x, e + f) == Mul(Pow(x, e), Pow(x, f))
  {
    if e > 0 {
      hide Mul;
      PowAdd(x, e - 1, f);
      MulAssoc(x, Pow(x, e - 1), Pow(x, f));
    } else {
      hide Pow;
      assert Pow(x, 0) == ONE by { PowNone(x); }
      OneMul(Pow(x, f));
    }
  }

  lemma PowNone(x: G)
    ensures Pow(x, 0) == ONE
  {
  }

  lemma OneMul(x: G)
    ensures Mul(ONE, x) == x
  {
  }

  lemma {:induction false} PowMul(x: G, e: nat, f: nat)
    ensures Pow(x, e * f) == Pow(Pow(x, e), f)
  {
    if f > 0 {
      PowMul(x, e, f - 1);
      assert e * f == e + e * (f - 1);
      PowAdd(x, e, e * (f - 1));
    } else {
      assert e * f == 0;
    }
  }

  lemma CongMul(x: G, x': G, y: G, y': G, n: int)
    requires n > 0
    requires Cong(x, x', n) && Cong(y, y', n)
    ensures Cong(Mul(x, y), Mul(x', y'), n)
  {
    CongProducts(x.re, x'.re, y.re, y'.re, n);
    CongProducts(x.im, x'.im, y.im, y'.im, n);
    CongProducts(x.re, x'.re, y.im, y'.im, n);
    CongProducts(x.im, x'.im, y.re, y'.re, n);
    SubMod(x.re * y.re, x.im * y.im, n);
    SubMod(x'.re * y'.re, x'.im * y'.im, n);
    AddMod(x.re * y.im, x.im * y.re, n);
    AddMod(x'.re * y'.im, x'.im * y'.re, n);
  }

  lemma CongProducts(a: int, a': int, b: int, b': int, n: int)
    requires n > 0 && a % n == a' % n && b % n == b' % n
    ensures (a * b) % n == (a' * b') % n
  {
    MulMod(a, b, n);
    MulMod(a', b', n);
  }

  lemma {:induction false} CongPow(x: G, y: G, e: nat, n: int)
    requires n > 0 && Cong(x, y, n)
    ensures Cong(Pow(x, e), Pow(y, e), n)
  {
    if e > 0 {
      CongPow(x, y, e - 1, n);
      CongMul(x, y, Pow(x, e - 1), Pow(y, e - 1), n);
    }
  }

  /** Congruence survives passing to a divisor of the modulus. */
  lemma CongDivisor(x: G, y: G, n: int, d: int)
    requires n > 0 && d > 0 && n % d == 0 && Cong(x, y, n)
    ensures Cong(x, y, d)
  {
    CongruentDivisor(x.re, y.re, n, d);
    CongruentDivisor(x.im, y.im, n, d);
  }

  lemma CongruentDivisor(a: int, b: int, n: int, d: int)
    requires n > 0 && d > 0 && n % d == 0 && a % n == b % n
    ensures a % d == b % d
  {
    CongruentIff(a, b, n);
    var k, l := (a - b) / n, n / d;
    assert a - b == k * (l * d);
    assert k * (l * d) == (k * l) * d;
    ModShift(b, k * l, d);
  }

  lemma MulOne(x: G)
    ensures Mul(ONE, x) == x && Mul(x, ONE) == x
    ensures Mul(MINUS_ONE, x) == G(-x.re, -x.im)
  {
  }

  lemma {:induction false} PowOne(x: G, e: nat)
    requires x == ONE
    ensures Pow(x, e) == ONE
  {
    hide Mul;
    if e > 0 {
      PowOne(x, e - 1);
      MulOne(Pow(x, e - 1));
    }
  }

  lemma {:induction false} PowMinusOne(x: G, e: nat)
    requires x == MINUS_ONE
    ensures Pow(x, e) == if e % 2 == 0 then ONE else MINUS_ONE
  {
    hide Mul;
    if e > 0 {
      PowMinusOne(x, e - 1);
      MulOne(Pow(x, e - 1));
    }
  }

  // ------------------------------------------- repeated squaring and orders

  function Squared(x: G, k: nat): G {
    if k == 0 then x else Mul(Squared(x, k - 1), Squared(x, k - 1))
  }

  lemma {:induction false} SquaredIsPow(x: G, k: nat)
    ensures Squared(x, k) == Pow(x, Exp2(k))
  {
    hide Mul;
    if k > 0 {
      SquaredIsPow(x, k - 1);
      PowAdd(x, Exp2(k - 1), Exp2(k - 1));
    } else {
      assert Pow(x, 1) == Mul(x, Pow(x, 0));
      MulOne(x);
    }
  }

  lemma {:induction false} SquaredOfSquare(x: G, k: nat)
    ensures Squared(Mul(x, x), k) == Squared(x, k + 1)
  {
    hide Mul;
    if k > 0 {
      SquaredOfSquare(x, k - 1);
    } else {
      assert Squared(x, 1) == Mul(Squared(x, 0), Squared(x, 0));
    }
  }

  lemma PowOfSquare(x: G, e: nat)
    ensures Pow(Mul(x, x), e) == Pow(x, 2 * e)
  {
    hide Mul;
    PowMul(x, 2, e);
    assert Pow(x, 2) == Mul(x, Pow(x, 1)) && Pow(x, 1) == Mul(x, Pow(x, 0));
    MulOne(x);
  }

  /** If x^(2^t) = -1 then no smaller positive exponent than 2^(t+1) gives 1. */
  lemma {:induction false} NotOneBelowOrder(x: G, k: nat, t: nat, n: int)
    requires n > 2 && Cong(Squared(x, t), MINUS_ONE, n)
    requires 0 < k < Exp2(t + 1)
    ensures !Cong(Pow(x, k), ONE, n)
    decreases t
  {
    hide Mul;
    if k % 2 == 0 {
      var x2 := Mul(x, x);
      PowOfSquare(x, k / 2);
      assert t > 0;
      SquaredOfSquare(x, t - 1);
      NotOneBelowOrder(x2, k / 2, t - 1, n);
    } else if Cong(Pow(x, k), ONE, n) {
      var y, e := Pow(x, k), Exp2(t);
      CongPow(y, ONE, e, n);
      PowOne(ONE, e);
      PowMul(x, k, e);
      PowMul(x, e, k);
      assert k * e == e * k;
      SquaredIsPow(x, t);
      CongPow(Pow(x, e), MINUS_ONE, k, n);
      PowMinusOne(MINUS_ONE, k);
      assert Cong(ONE, MINUS_ONE, n);
      OneIsNotMinusOne(n);
      assert false;
    }
  }

  lemma OneIsNotMinusOne(n: int)
    requires n > 2
    ensures !Cong(ONE, MINUS_ONE, n)
  {
    ModShift(-1, 1, n);
  }

  /** So the first 2^(t+1) powers are pairwise different. */
  lemma PowersDistinct(x: G, i: nat, j: nat, t: nat, n: int)
    requires n > 2 && Cong(Squared(x, t), MINUS_ONE, n)
    requires i < j < Exp2(t + 1)
    ensures !Cong(Pow(x, i), Pow(x, j), n)
  {
    hide Mul;
    if Cong(Pow(x, i), Pow(x, j), n) {
      var top := Exp2(t + 1);
      var c := Pow(x, top - i);
      CongMul(Pow(x, i), Pow(x, j), c, c, n);
      PowAdd(x, i, top - i);
      PowAdd(x, j, top - i);
      PowAdd(x, top, j - i);
      FullPower(x, t, n);
      CongMul(Pow(x, top), ONE, Pow(x, j - i), Pow(x, j - i), n);
      MulOne(Pow(x, j - i));
      NotOneBelowOrder(x, j - i, t, n);
      assert false;
    }
  }

  lemma FullPower(x: G, t: nat, n: int)
    requires n > 0 && Cong(Squared(x, t), MINUS_ONE, n)
    ensures Cong(Pow(x, Exp2(t + 1)), ONE, n)
  {
    hide Mul;
    SquaredIsPow(x, t + 1);
    CongMul(Squared(x, t), MINUS_ONE, Squared(x, t), MINUS_ONE, n);
    MulOne(MINUS_ONE);
  }
}
