/**
  The 16-lane vector form of the base field and of the complex extension. A vector is sixteen
  32-bit words; the intrinsics are written out lane by lane.
 */
module Avx512 {
  import opened ModArith
  import opened Gaussian
  import opened Mersenne31Prime
  import opened M31 = Mersenne31
  import Complex

  const LANES: nat := 16

  /** Every lane holds a base field word. */
  predicate Lanes(v: seq<int>) { |v| == LANES && forall i :: 0 <= i < LANES ==> Rep(v[i]) }

  // --------------------------------------------------------------- intrinsics

  function Add32(a: seq<int>, b: seq<int>): seq<int>
    requires |a| == |b| == LANES
  {
    seq(LANES, i requires 0 <= i < LANES => (a[i] + b[i]) % TWO_32)
  }

  function Sub32(a: seq<int>, b: seq<int>): seq<int>
    requires |a| == |b| == LANES
  {
    seq(LANES, i requires 0 <= i < LANES => (a[i] - b[i]) % TWO_32)
  }

  function Min32(a: seq<int>, b: seq<int>): seq<int>
    requires |a| == |b| == LANES
  {
    seq(LANES, i requires 0 <= i < LANES => if a[i] < b[i] then a[i] else b[i])
  }

  predicate Odd(i: int) { i % 2 == 1 }

  /** The odd lane of each pair into the even one. */
  function MoveHighDup(a: seq<int>): seq<int>
    requires |a| == LANES
  {
    seq(LANES, i requires 0 <= i < LANES => a[i / 2 * 2 + 1])
  }

  /** In the even lanes the odd neighbour of `a`, elsewhere `src`: the mask the source calls EVENS. */
  function HighDupIntoEven(src: seq<int>, a: seq<int>): seq<int>
    requires |src| == |a| == LANES
  {
    seq(LANES, i requires 0 <= i < LANES => if Odd(i) then src[i] else a[i / 2 * 2 + 1])
  }

  /** In the odd lanes the even neighbour of `a`, elsewhere `src`: the mask the source calls ODDS. */
  function LowDupIntoOdd(src: seq<int>, a: seq<int>): seq<int>
    requires |src| == |a| == LANES
  {
    seq(LANES, i requires 0 <= i < LANES => if Odd(i) then a[i / 2 * 2] else src[i])
  }

  /** The 64-bit value of the pair that lane `i` belongs to, and the word of a 64-bit value in lane `i`. */
  function Pair64(a: seq<int>, i: int): int
    requires |a| == LANES && 0 <= i < LANES
  {
    a[i / 2 * 2] + a[i / 2 * 2 + 1] * TWO_32
  }

  function WordOf(v: int, i: int): int { if Odd(i) then v / TWO_32 % TWO_32 else v % TWO_32 }

  function ShiftRight64By31(a: seq<int>): seq<int>
    requires |a| == LANES
  {
    seq(LANES, i requires 0 <= i < LANES => WordOf(Pair64(a, i) / TWO_31, i))
  }

  /** 64-bit products of the even lanes. */
  function MulEven64(a: seq<int>, b: seq<int>): seq<int>
    requires |a| == |b| == LANES
  {
    seq(LANES, i requires 0 <= i < LANES => WordOf(a[i / 2 * 2] * b[i / 2 * 2], i))
  }

  function ShiftRight32By1(a: seq<int>): seq<int>
    requires |a| == LANES
  {
    seq(LANES, i requires 0 <= i < LANES => a[i] / 2)
  }

  const P_LANES: seq<int> := [P, P, P, P, P, P, P, P, P, P, P, P, P, P, P, P]

  // ------------------------------------------------------------- base field

  /** The smaller of the sum and the sum minus P, unsigned: a wrapped difference is never the smaller one. */
  function Add(a: seq<int>, b: seq<int>): (r: seq<int>)
    requires Lanes(a) && Lanes(b)
    ensures Lanes(r) && forall i :: 0 <= i < LANES ==> Denotes(r[i], a[i] + b[i])
  {
    AddLanes(a, b);
    Min32(Add32(a, b), Sub32(Add32(a, b), P_LANES))
  }

  lemma AddLanes(a: seq<int>, b: seq<int>)
    requires Lanes(a) && Lanes(b)
    ensures forall i :: 0 <= i < LANES ==> Denotes(Min32(Add32(a, b), Sub32(Add32(a, b), P_LANES))[i], a[i] + b[i])
  {
    var t := Add32(a, b);
    var r := Min32(t, Sub32(t, P_LANES));
    forall i | 0 <= i < LANES
      ensures Denotes(r[i], a[i] + b[i])
    {
      AddLane(a[i], b[i]);
    }
  }

  lemma AddLane(x: int, y: int)
    requires Rep(x) && Rep(y)
    ensures var t := (x + y) % TWO_32; var u := (t - P) % TWO_32; Denotes(if t < u then t else u, x + y)
  {
  }

  function Sub(a: seq<int>, b: seq<int>): (r: seq<int>)
    requires Lanes(a) && Lanes(b)
    ensures Lanes(r) && forall i :: 0 <= i < LANES ==> Denotes(r[i], a[i] - b[i])
  {
    SubLanes(a, b);
    Min32(Sub32(a, b), Add32(Sub32(a, b), P_LANES))
  }

  lemma SubLanes(a: seq<int>, b: seq<int>)
    requires Lanes(a) && Lanes(b)
    ensures forall i :: 0 <= i < LANES ==> Denotes(Min32(Sub32(a, b), Add32(Sub32(a, b), P_LANES))[i], a[i] - b[i])
  {
    var t := Sub32(a, b);
    var r := Min32(t, Add32(t, P_LANES));
    forall i | 0 <= i < LANES
      ensures Denotes(r[i], a[i] - b[i])
    {
      SubLane(a[i], b[i]);
    }
  }

  lemma SubLane(x: int, y: int)
    requires Rep(x) && Rep(y)
    ensures var t := (x - y) % TWO_32; var u := (t + P) % TWO_32; Denotes(if t < u then t else u, x - y)
  {
    ModShift(x - y, 1, P);
  }

  /** Twice the product of the odd lanes, and of the even lanes, as 64-bit values. */
  function MulOddDbl(lhs: seq<int>, rhs: seq<int>): seq<int>
    requires |lhs| == |rhs| == LANES
  {
    MulEven64(ShiftRight64By31(lhs), MoveHighDup(rhs))
  }

  function MulEvenDbl(lhs: seq<int>, rhs: seq<int>): seq<int>
    requires |lhs| == |rhs| == LANES
  {
    MulEven64(Add32(lhs, lhs), rhs)
  }

  /** The low 31 bits of every product, and the bits above them. */
  function MulLo(lhs: seq<int>, rhs: seq<int>): seq<int>
    requires |lhs| == |rhs| == LANES
  {
    ShiftRight32By1(LowDupIntoOdd(MulEvenDbl(lhs, rhs), MulOddDbl(lhs, rhs)))
  }

  function MulHi(lhs: seq<int>, rhs: seq<int>): seq<int>
    requires |lhs| == |rhs| == LANES
  {
    HighDupIntoEven(MulOddDbl(lhs, rhs), MulEvenDbl(lhs, rhs))
  }

  function Mul(lhs: seq<int>, rhs: seq<int>): (r: seq<int>)
    requires Lanes(lhs) && Lanes(rhs)
    ensures Lanes(r) && forall i :: 0 <= i < LANES ==> Denotes(r[i], lhs[i] * rhs[i])
  {
    MulLanes(lhs, rhs);
    MulSums(lhs, rhs);
    Add(MulLo(lhs, rhs), MulHi(lhs, rhs))
  }

  lemma MulSums(lhs: seq<int>, rhs: seq<int>)
    requires Lanes(lhs) && Lanes(rhs) && Lanes(MulLo(lhs, rhs)) && Lanes(MulHi(lhs, rhs))
    ensures forall i :: 0 <= i < LANES ==> Denotes(Add(MulLo(lhs, rhs), MulHi(lhs, rhs))[i], lhs[i] * rhs[i])
  {
    hide MulLo, MulHi, Add;
    MulLanes(lhs, rhs);
    var r := Add(MulLo(lhs, rhs), MulHi(lhs, rhs));
    forall i | 0 <= i < LANES
      ensures Denotes(r[i], lhs[i] * rhs[i])
    {
      assert Denotes(r[i], MulLo(lhs, rhs)[i] + MulHi(lhs, rhs)[i]);
    }
  }

  lemma MulLanes(lhs: seq<int>, rhs: seq<int>)
    requires Lanes(lhs) && Lanes(rhs)
    ensures Lanes(MulLo(lhs, rhs)) && Lanes(MulHi(lhs, rhs))
    ensures forall i :: 0 <= i < LANES ==> (MulLo(lhs, rhs)[i] + MulHi(lhs, rhs)[i]) % P == (lhs[i] * rhs[i]) % P
  {
    forall i | 0 <= i < LANES
      ensures Rep(MulLo(lhs, rhs)[i]) && Rep(MulHi(lhs, rhs)[i])
      ensures (MulLo(lhs, rhs)[i] + MulHi(lhs, rhs)[i]) % P == (lhs[i] * rhs[i]) % P
    {
      MulLane(lhs, rhs, i);
    }
  }

  /** In every lane the two halves are those of the doubled product. */
  lemma MulLane(lhs: seq<int>, rhs: seq<int>, i: int)
    requires Lanes(lhs) && Lanes(rhs) && 0 <= i < LANES
    ensures Rep(MulLo(lhs, rhs)[i]) && Rep(MulHi(lhs, rhs)[i])
    ensures (MulLo(lhs, rhs)[i] + MulHi(lhs, rhs)[i]) % P == (lhs[i] * rhs[i]) % P
  {
    hide MulLo, MulHi, Doubled;
    DoubledProduct(lhs[i], rhs[i]);
    if Odd(i) {
      OddLane(lhs, rhs, i / 2);
      assert 2 * (i / 2) + 1 == i;
    } else {
      EvenLane(lhs, rhs, i / 2);
      assert 2 * (i / 2) == i;
    }
  }

  function Doubled(x: int, y: int): int { (2 * x) * y }

  lemma EvenLane(lhs: seq<int>, rhs: seq<int>, j: int)
    requires Lanes(lhs) && Lanes(rhs) && 0 <= j < LANES / 2
    ensures MulLo(lhs, rhs)[2 * j] == Doubled(lhs[2 * j], rhs[2 * j]) % TWO_32 / 2
    ensures MulHi(lhs, rhs)[2 * j] == Doubled(lhs[2 * j], rhs[2 * j]) / TWO_32 % TWO_32
  {
    var e := 2 * j;
    assert e / 2 * 2 == e && (e + 1) / 2 * 2 == e;
    assert Add32(lhs, lhs)[e] == 2 * lhs[e];
    var d := Doubled(lhs[e], rhs[e]);
    assert MulEvenDbl(lhs, rhs)[e] == d % TWO_32;
    assert MulEvenDbl(lhs, rhs)[e + 1] == d / TWO_32 % TWO_32;
    hide MulEvenDbl, MulOddDbl, Doubled;
  }

  lemma OddLane(lhs: seq<int>, rhs: seq<int>, j: int)
    requires Lanes(lhs) && Lanes(rhs) && 0 <= j < LANES / 2
    ensures MulLo(lhs, rhs)[2 * j + 1] == Doubled(lhs[2 * j + 1], rhs[2 * j + 1]) % TWO_32 / 2
    ensures MulHi(lhs, rhs)[2 * j + 1] == Doubled(lhs[2 * j + 1], rhs[2 * j + 1]) / TWO_32 % TWO_32
  {
    var e, o := 2 * j, 2 * j + 1;
    assert e / 2 * 2 == e && o / 2 * 2 == e;
    OddDoubled(lhs[e], lhs[o]);
    assert ShiftRight64By31(lhs)[e] == 2 * lhs[o];
    assert MoveHighDup(rhs)[e] == rhs[o];
    var d := Doubled(lhs[o], rhs[o]);
    assert MulOddDbl(lhs, rhs)[e] == d % TWO_32 by { hide ShiftRight64By31, MoveHighDup; }
    assert MulOddDbl(lhs, rhs)[o] == d / TWO_32 % TWO_32 by { hide ShiftRight64By31, MoveHighDup; }
    hide MulEvenDbl, MulOddDbl, Doubled, ShiftRight64By31, MoveHighDup;
  }

  lemma OddDoubled(lo: int, hi: int)
    requires Rep(lo) && Rep(hi)
    ensures ((lo + hi * TWO_32) / TWO_31) % TWO_32 == 2 * hi
  {
    assert lo + hi * TWO_32 == (2 * hi) * TWO_31 + lo;
  }

  lemma DoubledProduct(x: int, y: int)
    requires Rep(x) && Rep(y)
    ensures var d := Doubled(x, y); var lo := d % TWO_32 / 2; var hi := d / TWO_32 % TWO_32;
      Rep(lo) && Rep(hi) && (lo + hi) % P == (x * y) % P
  {
    ProductBound(x, y);
    var m := x * y;
    assert Doubled(x, y) == 2 * m;
    FoldDoubled(m);
  }

  lemma FoldDoubled(m: int)
    requires 0 <= m <= 0x3fff_ffff_0000_0001
    ensures var d := 2 * m; var lo := d % TWO_32 / 2; var hi := d / TWO_32 % TWO_32;
      Rep(lo) && Rep(hi) && (lo + hi) % P == m % P
  {
    var hi, lo := m / TWO_31, m % TWO_31;
    Fold(m);
    DivModUnique(2 * m, hi, 2 * lo, TWO_32);
    DivModUnique(hi, 0, hi, TWO_32);
  }

  // --------------------------------------------------- interleaved complex

  /** The complex number in lanes 2j and 2j + 1. */
  function At(v: seq<int>, j: int): G
    requires |v| == LANES && 0 <= j < LANES / 2
  {
    G(v[2 * j], v[2 * j + 1])
  }

  /** Real parts of `a` in the even lanes and of `x` in the odd ones; likewise the imaginary parts. */
  function Reals(a: seq<int>, x: seq<int>): (r: seq<int>)
    requires Lanes(a) && Lanes(x)
    ensures Lanes(r) && forall j :: 0 <= j < LANES / 2 ==> r[2 * j] == a[2 * j] && r[2 * j + 1] == x[2 * j]
  {
    LowDupIntoOdd(a, x)
  }

  function Imaginaries(a: seq<int>, x: seq<int>): (r: seq<int>)
    requires Lanes(a) && Lanes(x)
    ensures Lanes(r) && forall j :: 0 <= j < LANES / 2 ==> r[2 * j] == a[2 * j + 1] && r[2 * j + 1] == x[2 * j + 1]
  {
    HighDupIntoEven(x, a)
  }

  /** Sixteen complex products by three vector multiplications. */
  method MulComplexInterleaved(a: seq<int>, b: seq<int>, x: seq<int>, y: seq<int>) returns (ab: seq<int>, xy: seq<int>)
    requires Lanes(a) && Lanes(b) && Lanes(x) && Lanes(y)
    ensures Lanes(ab) && Lanes(xy)
    ensures forall j :: 0 <= j < LANES / 2 ==> Cong(At(ab, j), Gaussian.Mul(At(a, j), At(b, j)), P)
    ensures forall j :: 0 <= j < LANES / 2 ==> Cong(At(xy, j), Gaussian.Mul(At(x, j), At(y, j)), P)
  {
    hide Add, Sub, Mul, Reals, Imaginaries, LowDupIntoOdd, HighDupIntoEven, Gaussian.Mul, Denotes, Rep;
    var axC0, axC1 := Reals(a, x), Imaginaries(a, x);
    var byC0, byC1 := Reals(b, y), Imaginaries(b, y);
    var v0 := Mul(axC0, byC0);
    var v1 := Mul(axC1, byC1);
    var c1t0 := Mul(Add(axC0, axC1), Add(byC0, byC1));
    var c1v1 := Sub(Sub(c1t0, v0), v1);
    var v0v1 := Sub(v0, v1);
    ab := Reals(v0v1, c1v1);
    xy := Imaginaries(v0v1, c1v1);
    ghost var sax, sby, mid := Add(axC0, axC1), Add(byC0, byC1), Sub(c1t0, v0);
    forall i | 0 <= i < LANES
      ensures Cong(G(v0v1[i], c1v1[i]), Gaussian.Mul(G(axC0[i], axC1[i]), G(byC0[i], byC1[i])), P)
    {
      KaratsubaLane(axC0[i], axC1[i], byC0[i], byC1[i], v0[i], v1[i], sax[i], sby[i], c1t0[i], mid[i], c1v1[i], v0v1[i]);
    }
  }

  /** One lane of the three-multiplication product. */
  lemma KaratsubaLane(c0: int, c1: int, d0: int, d1: int, v0: int, v1: int, s: int, t: int, m: int, mid: int, im: int, re: int)
    requires Denotes(v0, c0 * d0) && Denotes(v1, c1 * d1) && Denotes(s, c0 + c1) && Denotes(t, d0 + d1)
    requires Denotes(m, s * t) && Denotes(mid, m - v0) && Denotes(im, mid - v1) && Denotes(re, v0 - v1)
    ensures Cong(G(re, im), Gaussian.Mul(G(c0, c1), G(d0, d1)), P)
  {
    var w, p, q := (c0 + c1) * (d0 + d1), c0 * d0, c1 * d1;
    assert m % P == w % P by {
      ModArith.MulMod(s, t, P);
      ModArith.MulMod(c0 + c1, d0 + d1, P);
    }
    assert w - p - q == c0 * d1 + c1 * d0 by { Complex.Karatsuba(c0, c1, d0, d1); }
    Differences(m, w, v0, p);
    Differences(mid, w - p, v1, q);
    Differences(v0, p, v1, q);
  }

  lemma Differences(x: int, u: int, y: int, v: int)
    requires x % P == u % P && y % P == v % P
    ensures (x - y) % P == (u - v) % P
  {
    ModArith.SubMod(x, y, P);
    ModArith.SubMod(u, v, P);
  }
}
