/** The prime 2^31 - 1. The repository's own two-adic generator certifies that it is prime. */
module Mersenne31Prime {
  import opened ModArith
  import opened Gaussian

  const P: int := 0x7fff_ffff

  /** `TWO_ADIC_GENERATOR`, the element the code says has order p + 1. */
  const GENERATOR := G(311014874, 1584694829)

  lemma SquareStep(x: G, k: nat, v: G, w: G)
    requires Cong(Squared(x, k), v, P)
    requires w.re == (v.re * v.re - v.im * v.im) % P && w.im == (v.re * v.im + v.im * v.re) % P
    ensures Cong(Squared(x, k + 1), w, P)
  {
    var s := Squared(x, k);
    CongMul(s, v, s, v, P);
    assert Squared(x, k + 1) == Mul(s, s);
  }

  lemma SquaredZero(x: G)
    ensures Squared(x, 0) == x
  {
  }

  lemma GeneratorTo10(x: G)
    requires x == GENERATOR
    ensures Cong(Squared(x, 10), G(1957194259, 2139647100), P)
  {
    hide Squared;
    SquaredZero(x);
    SquareStep(x, 0, G(311014874, 1584694829), G(509778402, 800467507));
    SquareStep(x, 1, G(509778402, 800467507), G(1501355827, 1439063420));
    SquareStep(x, 2, G(1501355827, 1439063420), G(1629751483, 66485474));
    SquareStep(x, 3, G(1629751483, 66485474), G(1765392370, 461136547));
    SquareStep(x, 4, G(1765392370, 461136547), G(1214231414, 1646302518));
    SquareStep(x, 5, G(1214231414, 1646302518), G(1889294251, 331248939));
    SquareStep(x, 6, G(1889294251, 331248939), G(1929382196, 1664698822));
    SquareStep(x, 7, G(1929382196, 1664698822), G(1062045235, 1824580421));
    SquareStep(x, 8, G(1062045235, 1824580421), G(1957419629, 1541039442));
    SquareStep(x, 9, G(1957419629, 1541039442), G(1957194259, 2139647100));
  }

  lemma GeneratorTo20(x: G)
    requires x == GENERATOR
    ensures Cong(Squared(x, 20), G(605622498, 1964232216), P)
  {
    hide Squared;
    GeneratorTo10(x);
    SquareStep(x, 10, G(1957194259, 2139647100), G(241940101, 323856519));
    SquareStep(x, 11, G(241940101, 323856519), G(1172215635, 595888646));
    SquareStep(x, 12, G(1172215635, 595888646), G(1662322247, 670236780));
    SquareStep(x, 13, G(1662322247, 670236780), G(2097144245, 1684033590));
    SquareStep(x, 14, G(2097144245, 1684033590), G(2135874973, 483411332));
    SquareStep(x, 15, G(2135874973, 483411332), G(541476169, 2101081972));
    SquareStep(x, 16, G(541476169, 2101081972), G(2107600913, 1378821388));
    SquareStep(x, 17, G(2107600913, 1378821388), G(1995316534, 149306621));
    SquareStep(x, 18, G(1995316534, 149306621), G(343674985, 501786993));
    SquareStep(x, 19, G(343674985, 501786993), G(605622498, 1964232216));
  }

  /** The generator raised to 2^30 is -1. */
  lemma GeneratorHalfOrder(x: G)
    requires x == GENERATOR
    ensures Cong(Squared(x, 30), MINUS_ONE, P)
  {
    hide Squared;
    GeneratorTo20(x);
    SquareStep(x, 20, G(605622498, 1964232216), G(1323191254, 1936974060));
    SquareStep(x, 21, G(1323191254, 1936974060), G(1819216575, 1662816114));
    SquareStep(x, 22, G(1819216575, 1662816114), G(736262640, 1553669210));
    SquareStep(x, 23, G(736262640, 1553669210), G(1774253895, 1309288441));
    SquareStep(x, 24, G(1774253895, 1309288441), G(1567857810, 456695729));
    SquareStep(x, 25, G(1567857810, 456695729), G(1179735656, 1241207368));
    SquareStep(x, 26, G(1179735656, 1241207368), G(590768354, 978592373));
    SquareStep(x, 27, G(590768354, 978592373), G(32768, 2147450879));
    SquareStep(x, 28, G(32768, 2147450879), G(0, 2147483646));
    SquareStep(x, 29, G(0, 2147483646), G(2147483646, 0));
  }

  lemma Exp2At31()
    ensures Exp2(31) == P + 1
  {
    assert Exp2(8) == 256;
    assert Exp2(16) == 65536;
    assert Exp2(24) == 16777216;
  }

  // --------------------------------------------------------- pigeonhole

  ghost predicate NoDup(s: seq<int>) {
    forall i, j :: 0 <= i < j < |s| ==> s[i] != s[j]
  }

  ghost predicate InRange(s: seq<int>, m: int) {
    forall i :: 0 <= i < |s| ==> 1 <= s[i] <= m
  }

  ghost function Without(s: seq<int>, k: nat): seq<int>
    requires k < |s|
  {
    s[..k] + s[k + 1..]
  }

  /** Different numbers from 1 to m are at most m many. */
  lemma {:induction false} Pigeonhole(s: seq<int>, m: nat)
    requires NoDup(s) && InRange(s, m)
    ensures |s| <= m
    decreases m
  {
    if s != [] {
      assert 1 <= s[0] <= m;
      if k :| 0 <= k < |s| && s[k] == m {
        Pigeonhole(Without(s, k), m - 1);
      } else {
        Pigeonhole(s, m - 1);
      }
    }
  }

  /** A power of the generator modulo d, packed into one number from 1 to d * d. */
  ghost function Code(i: nat, d: int): int
    requires d > 0
  {
    var g := Pow(GENERATOR, i);
    (g.re % d) * d + g.im % d + 1
  }

  lemma CodeBound(i: nat, d: int)
    requires d > 0
    ensures 1 <= Code(i, d) <= d * d
  {
    var a := Pow(GENERATOR, i).re % d;
    assert a * d <= (d - 1) * d;
  }

  lemma CodesDiffer(i: nat, j: nat, d: int)
    requires d > 2 && P % d == 0
    requires i < j < P + 1
    ensures Code(i, d) != Code(j, d)
  {
    hide Squared, Pow;
    var g := GENERATOR;
    GeneratorHalfOrder(g);
    CongDivisor(Squared(g, 30), MINUS_ONE, P, d);
    Exp2At31();
    PowersDistinct(g, i, j, 30, d);
    var a, b := Pow(g, i), Pow(g, j);
    if Code(i, d) == Code(j, d) {
      DivModUnique((a.re % d) * d + a.im % d, a.re % d, a.im % d, d);
      DivModUnique((b.re % d) * d + b.im % d, b.re % d, b.im % d, d);
      assert false;
    }
  }

  /** A proper divisor of P would leave too little room for the 2^31 powers of the generator. */
  lemma NoSmallDivisor(d: int)
    requires d > 2 && P % d == 0
    ensures d * d > P
  {
    hide Code;
    var n: nat := P + 1;
    var s := seq(n, i requires 0 <= i => Code(i, d));
    forall i | 0 <= i < |s|
      ensures 1 <= s[i] <= d * d
    {
      CodeBound(i, d);
    }
    forall i, j | 0 <= i < j < |s|
      ensures s[i] != s[j]
    {
      CodesDiffer(i, j, d);
    }
    Pigeonhole(s, d * d);
  }

  lemma PIsPrime()
    ensures IsPrime(P)
  {
    forall m {:trigger P % m} | 2 <= m < P
      ensures P % m != 0
    {
      if P % m == 0 {
        var k := P / m;
        assert P == m * k;
        assert m != 2;
        CofactorDivides(m, k);
        assert k != 2;
        NoSmallDivisor(m);
        NoSmallDivisor(k);
        SmallerFactor(m, k);
        assert false;
      }
    }
  }

  lemma CofactorDivides(m: int, k: int)
    requires 2 <= m < P && P == m * k
    ensures k >= 2 && P % k == 0
  {
    MultipleBound(m, k);
    DivModUnique(P, m, 0, k);
  }

  /** One of two factors is at most the square root. */
  lemma SmallerFactor(m: int, k: int)
    requires m > 0 && k > 0
    ensures m * m <= m * k || k * k <= m * k
  {
    if m <= k { assert m * m <= m * k; } else { assert k * k <= m * k; }
  }
}
