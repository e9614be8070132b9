/**
  Powers in the complex extension, the table of two-adic generators, and the generator of a
  domain of given size.
 */
module ComplexDomain {
  import opened ModArith
  import opened Gaussian
  import opened Mersenne31Prime
  import opened Complex
  import M31 = Mersenne31

  /** The order of an element is exactly 2^k. */
  ghost predicate HasOrder(g: G, k: nat) {
    Cong(Pow(g, Exp2(k)), ONE, P) && forall e :: 0 < e < Exp2(k) ==> !Cong(Pow(g, e), ONE, P)
  }

  lemma CongTransitive(x: G, y: G, z: G)
    requires Cong(x, y, P)
    ensures Cong(y, z, P) <==> Cong(x, z, P)
  {
  }

  lemma {:induction false} SquaredAdd(x: G, j: nat, k: nat)
    ensures Squared(Squared(x, j), k) == Squared(x, j + k)
  {
    hide Mul;
    if k > 0 { SquaredAdd(x, j, k - 1); }
  }

  lemma {:induction false} SquaredCong(x: G, y: G, k: nat)
    requires Cong(x, y, P)
    ensures Cong(Squared(x, k), Squared(y, k), P)
  {
    hide Mul;
    if k > 0 {
      SquaredCong(x, y, k - 1);
      CongMul(Squared(x, k - 1), Squared(y, k - 1), Squared(x, k - 1), Squared(y, k - 1), P);
    }
  }

  /** The generator squared `j` times. */
  ghost predicate GeneratorPower(g: G, j: nat) {
    forall x :: x == GENERATOR ==> Cong(g, Squared(x, j), P)
  }

  lemma SquaredStep(x: G, j: nat)
    ensures Squared(x, j + 1) == Mul(Squared(x, j), Squared(x, j)) && Squared(x, 0) == x
  {
  }

  lemma GeneratorStart(g: G)
    requires g == GENERATOR
    ensures GeneratorPower(g, 0)
  {
  }

  /** One more squaring. */
  lemma GeneratorNext(v: G, j: nat, r: G)
    requires GeneratorPower(v, j) && Cong(r, Mul(v, v), P)
    ensures GeneratorPower(r, j + 1)
  {
    hide Mul, Cong, Squared;
    var n := j + 1;
    forall x | x == GENERATOR
      ensures Cong(r, Squared(x, n), P)
    {
      SquaredStep(x, j);
      CongMul(v, Squared(x, j), v, Squared(x, j), P);
      CongTransitive(r, Mul(v, v), Squared(x, j + 1));
    }
  }

  /** After 31 - k squarings, k - 1 more give minus one. */
  lemma HalfOrder(g: G, k: nat, x: G)
    requires 0 < k <= TWO_ADICITY && x == GENERATOR && Cong(g, Squared(x, TWO_ADICITY - k), P)
    ensures Cong(Squared(g, k - 1), MINUS_ONE, P)
  {
    hide Mul, Cong, Squared;
    GeneratorHalfOrder(x);
    SquaredCong(g, Squared(x, 31 - k), k - 1);
    SquaredAdd(x, 31 - k, k - 1);
    CongTransitive(Squared(g, k - 1), Squared(x, 30), MINUS_ONE);
  }

  lemma FullOrder(g: G, x: G)
    requires x == GENERATOR && Cong(g, Squared(x, TWO_ADICITY), P)
    ensures Cong(g, ONE, P)
  {
    hide Mul, Cong, Squared;
    GeneratorHalfOrder(x);
    FullPower(x, 30, P);
    SquaredIsPow(x, 31);
    CongTransitive(g, Squared(x, 31), ONE);
  }

  /** Squaring the generator 31 - k times gives an element of order exactly 2^k. */
  lemma GeneratorOrder(g: G, k: nat)
    requires k <= TWO_ADICITY && GeneratorPower(g, TWO_ADICITY - k)
    ensures HasOrder(g, k)
  {
    hide Mul, Cong, Squared;
    var x :| x == GENERATOR;
    if k == 0 {
      FullOrder(g, x);
      assert Pow(g, 1) == Mul(g, Pow(g, 0));
      MulOne(g);
    } else {
      HalfOrder(g, k, x);
      FullPower(g, k - 1, P);
      forall e | 0 < e < Exp2(k)
        ensures !Cong(Pow(g, e), ONE, P)
      {
        NotOneBelowOrder(g, e, k - 1, P);
      }
    }
  }

  /** So its first 2^k powers are pairwise different. */
  lemma PowersOfDomain(g: G, k: nat, i: nat, j: nat)
    requires 0 < k <= TWO_ADICITY && GeneratorPower(g, TWO_ADICITY - k) && i < j < Exp2(k)
    ensures !Cong(Pow(g, i), Pow(g, j), P)
  {
    hide Mul, Cong, Squared;
    var x :| x == GENERATOR;
    HalfOrder(g, k, x);
    PowersDistinct(g, i, j, k - 1, P);
  }

  // ------------------------------------------------------------------- the table

  /** Entry k generates the domain of size 2^k: filled from the top by repeated squaring. */
  method BuildGenerators() returns (result: array<G>)
    ensures fresh(result) && result.Length == TWO_ADICITY + 1
    ensures forall k :: 0 <= k <= TWO_ADICITY ==> M31.Rep(result[k].re) && M31.Rep(result[k].im)
    ensures forall k :: 0 <= k <= TWO_ADICITY ==> GeneratorPower(result[k], TWO_ADICITY - k) && HasOrder(result[k], k)
  {
    hide Mul, HasOrder, Squared, GeneratorPower;
    result := new G[TWO_ADICITY + 1](_ => G(0, 0));
    var current := new Mersenne31Complex(GENERATOR.re, GENERATOR.im);
    GeneratorStart(current.Value());
    var i := 0;
    while i < 31
      invariant 0 <= i <= 31
      invariant fresh(current) && current.Valid() && GeneratorPower(current.Value(), i)
      invariant forall k :: 31 - i < k <= 31 ==> M31.Rep(result[k].re) && M31.Rep(result[k].im)
      invariant forall k :: 31 - i < k <= 31 ==> GeneratorPower(result[k], 31 - k)
      modifies result, current
    {
      result[31 - i] := G(current.c0, current.c1);
      ghost var v := current.Value();
      current.Square();
      GeneratorNext(v, i, current.Value());
      i := i + 1;
    }
    result[0] := G(current.c0, current.c1);
    forall k | 0 <= k <= 31
      ensures HasOrder(result[k], k)
    {
      GeneratorOrder(result[k], k);
    }
  }

  // ------------------------------------------------------------------ powers

  lemma HalvePow(w: G, e: nat)
    ensures e % 2 == 0 ==> Pow(w, e) == Pow(Mul(w, w), e / 2)
    ensures e % 2 == 1 ==> Pow(w, e) == Mul(w, Pow(Mul(w, w), e / 2))
  {
    hide Mul;
    PowOfSquare(w, e / 2);
  }

  /** Square and multiply. */
  method PowerOf(x: Mersenne31Complex, exp: nat) returns (result: Mersenne31Complex)
    requires x.Valid()
    ensures fresh(result) && result.Valid() && Cong(result.Value(), Pow(x.Value(), exp), P)
  {
    hide Mul, Cong;
    var base := new Mersenne31Complex(x.c0, x.c1);
    result := new Mersenne31Complex(1, 0);
    ghost var target, w := Pow(x.Value(), exp), x.Value();
    var e := exp;
    MulOne(target);
    CongReflexive(target);
    CongReflexive(w);
    assert Cong(Mul(ONE, target), target, P);
    ghost var acc := ONE;
    CongReflexive(ONE);
    while e > 0
      invariant fresh(base) && fresh(result) && base != result && base.Valid() && result.Valid()
      invariant Cong(base.Value(), w, P) && Cong(result.Value(), acc, P) && Mul(acc, Pow(w, e)) == target
      modifies base, result
    {
      HalvePow(w, e);
      if e % 2 == 1 {
        CongMul(result.Value(), acc, base.Value(), w, P);
        ghost var product := Mul(result.Value(), base.Value());
        result.MulAssign(base);
        CongTransitive(result.Value(), product, Mul(acc, w));
        MulAssoc(acc, w, Pow(Mul(w, w), e / 2));
        acc := Mul(acc, w);
      }
      e := e / 2;
      CongMul(base.Value(), w, base.Value(), w, P);
      ghost var square := Mul(base.Value(), base.Value());
      base.Square();
      CongTransitive(base.Value(), square, Mul(w, w));
      w := Mul(w, w);
    }
    MulComm(acc, ONE);
    MulOne(acc);
  }

  lemma CongReflexive(x: G)
    ensures Cong(x, x, P)
  {
  }

  // ------------------------------------------------------- domain generators

  /** The loop that squares an object a given number of times. */
  method SquareTimes(c: Mersenne31Complex, n: nat, ghost j: nat)
    requires c.Valid() && GeneratorPower(c.Value(), j)
    modifies c
    ensures c.Valid() && GeneratorPower(c.Value(), j + n)
  {
    hide GeneratorPower, Mul;
    for i := 0 to n
      invariant c.Valid() && GeneratorPower(c.Value(), j + i)
    {
      ghost var v := c.Value();
      c.Square();
      GeneratorNext(v, j + i, c.Value());
    }
  }

  /** Not yet one before the full number of squarings, one after it. */
  lemma OneExactlyAtEnd(g: G, j: nat)
    requires j <= TWO_ADICITY && GeneratorPower(g, j)
    ensures Cong(g, ONE, P) <==> j == TWO_ADICITY
  {
    hide Cong, Mul, GeneratorPower;
    GeneratorOrder(g, TWO_ADICITY - j);
    assert Pow(g, 1) == Mul(g, Pow(g, 0));
    MulOne(g);
    if j < TWO_ADICITY { assert 1 < Exp2(TWO_ADICITY - j); }
  }

  /** Checks the generator, squares it down to the domain size, checks the result; no check can fail. */
  method DomainGeneratorForSize(k: nat) returns (failed: bool, omega: Mersenne31Complex)
    requires k <= TWO_ADICITY
    ensures !failed
    ensures fresh(omega) && omega.Valid() && GeneratorPower(omega.Value(), TWO_ADICITY - k) && HasOrder(omega.Value(), k)
  {
    hide GeneratorPower, HasOrder, Mul, Pow, Cong;
    omega := new Mersenne31Complex(GENERATOR.re, GENERATOR.im);
    GeneratorStart(omega.Value());
    var t := new Mersenne31Complex(omega.c0, omega.c1);
    SquareTimes(t, TWO_ADICITY, 0);
    OneExactlyAtEnd(t.Value(), TWO_ADICITY);
    var one := t.Equals(ONE);
    failed := !one;
    t := new Mersenne31Complex(omega.c0, omega.c1);
    for i := 0 to TWO_ADICITY - 1
      invariant fresh(t) && t != omega && t.Valid() && GeneratorPower(t.Value(), i)
      invariant !failed
      modifies t
    {
      OneExactlyAtEnd(t.Value(), i);
      one := t.Equals(ONE);
      failed := failed || one;
      SquareTimes(t, 1, i);
    }
    for i := k to TWO_ADICITY
      invariant fresh(omega) && omega.Valid() && GeneratorPower(omega.Value(), i - k)
      invariant !failed
      modifies omega
    {
      SquareTimes(omega, 1, i - k);
      if k != 0 {
        OneExactlyAtEnd(omega.Value(), i + 1 - k);
        one := omega.Equals(ONE);
        failed := failed || one;
      }
    }
    GeneratorOrder(omega.Value(), k);
    var top := PowerOf(omega, Exp2(k));
    OrderIsOne(omega.Value(), k);
    CongTransitive(top.Value(), Pow(omega.Value(), Exp2(k)), ONE);
    one := top.Equals(ONE);
    failed := failed || !one;
  }

  lemma OrderIsOne(g: G, k: nat)
    requires HasOrder(g, k)
    ensures Cong(Pow(g, Exp2(k)), ONE, P)
  {
  }

  /** Hence it equals the table entry, as a field element. */
  lemma SameGenerator(g: G, h: G, k: nat)
    requires k <= TWO_ADICITY && GeneratorPower(g, TWO_ADICITY - k) && GeneratorPower(h, TWO_ADICITY - k)
    ensures Cong(g, h, P)
  {
    hide Squared;
    var x :| x == GENERATOR;
    assert Cong(g, Squared(x, TWO_ADICITY - k), P) && Cong(h, Squared(x, TWO_ADICITY - k), P);
  }
}
