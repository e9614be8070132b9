/** Modular arithmetic, powers and primes, as far as the field code needs them. */
module ModArith {

  const TWO_32: nat := 0x1_0000_0000
  const TWO_64: nat := 0x1_0000_0000_0000_0000

  /** A nonzero multiple of m is at least m away from zero. */
  lemma MultipleBound(m: int, k: int)
    requires m > 0
    ensures k >= 1 ==> m * k >= m
    ensures k <= -1 ==> m * k <= -m
  {
  }

  /** A quotient and a remainder in range are the Euclidean ones. */
  lemma DivModUnique(a: int, q: int, r: int, m: int)
    requires 0 <= r < m
    requires a == q * m + r
    ensures a / m == q && a % m == r
  {
    var k := a / m - q;
    assert m * k == r - a % m;
    MultipleBound(m, k);
  }

  lemma ModShift(a: int, k: int, m: int)
    requires m > 0
    ensures (a + k * m) % m == a % m
  {
    assert a == (a / m) * m + a % m;
    assert a + k * m == (a / m + k) * m + a % m;
    DivModUnique(a + k * m, a / m + k, a % m, m);
  }

  /** Congruence is divisibility of the difference. */
  lemma CongruentIff(a: int, b: int, m: int)
    requires m > 0
    ensures a % m == b % m <==> (a - b) % m == 0
  {
    var d := a - b;
    if d % m == 0 {
      assert a == b + (d / m) * m;
      ModShift(b, d / m, m);
    }
    if a % m == b % m {
      assert d == (a / m - b / m) * m by {
        assert a == m * (a / m) + a % m;
        assert b == m * (b / m) + b % m;
      }
      ModShift(0, a / m - b / m, m);
    }
  }

  lemma MulModLeft(a: int, b: int, m: int)
    requires m > 0
    ensures (a * b) % m == ((a % m) * b) % m
  {
    var q, r := a / m, a % m;
    assert a == q * m + r;
    assert a * b == r * b + (q * b) * m by {
      assert (q * m + r) * b == (q * m) * b + r * b;
      assert (q * m) * b == (q * b) * m;
    }
    ModShift(r * b, q * b, m);
  }

  lemma MulMod(a: int, b: int, m: int)
    requires m > 0
    ensures (a * b) % m == ((a % m) * (b % m)) % m
    ensures (a * b) % m == ((a % m) * b) % m
    ensures (a * b) % m == (a * (b % m)) % m
  {
    MulModLeft(a, b, m);
    MulModLeft(b, a, m);
    MulModLeft(b, a % m, m);
    assert a * b == b * a && (b % m) * a == a * (b % m);
    assert b * (a % m) == (a % m) * b && (b % m) * (a % m) == (a % m) * (b % m);
  }

  lemma AddMod(a: int, b: int, m: int)
    requires m > 0
    ensures (a + b) % m == ((a % m) + (b % m)) % m
    ensures (a + b) % m == ((a % m) + b) % m
    ensures (a + b) % m == (a + (b % m)) % m
  {
    assert a == (a / m) * m + a % m && b == (b / m) * m + b % m;
    ModShift(a % m + b, a / m, m);
    ModShift(a % m + b % m, b / m, m);
    ModShift(a + b % m, b / m, m);
  }

  lemma SubMod(a: int, b: int, m: int)
    requires m > 0
    ensures (a - b) % m == ((a % m) - (b % m)) % m
    ensures (a - b) % m == (a - (b % m)) % m
  {
    var q, k := a / m, b / m;
    assert a == q * m + a % m && b == k * m + b % m;
    ModShift(a - b % m, -k, m);
    assert (-k) * m == -(k * m);
    ModShift(a % m - b % m, q, m);
  }

  // ---------------------------------------------------------------- primes

  ghost predicate IsPrime(p: int) {
    2 <= p && forall m {:trigger p % m} :: 2 <= m < p ==> p % m != 0
  }

  /** Below a prime, every positive number has an inverse: one Euclidean step at a time. */
  lemma {:induction false} InverseExists(a: int, p: int) returns (u: int)
    requires IsPrime(p)
    requires 0 < a < p
    ensures (a * u) % p == 1
    decreases a
  {
    if a == 1 {
      u := 1;
    } else {
      var t, r := p / a, p % a;
      assert p == a * t + r && 0 <= r < a;
      assert r != 0;
      var s := InverseExists(r, p);
      u := -(t * s);
      EuclidStep(a, t, r, s, p);
      ModShift(r * s, -s, p);
    }
  }

  lemma EuclidStep(a: int, t: int, r: int, s: int, p: int)
    requires p == a * t + r
    ensures a * -(t * s) == r * s + (-s) * p
  {
    assert a * -(t * s) == -(a * t) * s;
    assert -(a * t) * s == (r - p) * s;
  }

  /** Euclid's lemma: a prime modulus has no zero divisors. */
  lemma NoZeroDivisors(a: int, b: int, p: int)
    requires IsPrime(p)
    requires (a * b) % p == 0
    ensures a % p == 0 || b % p == 0
  {
    if a % p != 0 {
      var u := InverseExists(a % p, p);
      // b = (u a) b = u (a b) = 0
      MulMod(a, u, p);
      assert (a * u) % p == 1;
      MulMod(a * u, b, p);
      assert (a * u * b) % p == b % p;
      MulMod(u, a * b, p);
      assert u * (a * b) == a * u * b;
    }
  }

  // ------------------------------------------------------- powers of two

  function Exp2(k: nat): (r: nat)
    ensures r > 0
  {
    if k == 0 then 1 else 2 * Exp2(k - 1)
  }

  lemma {:induction false} Exp2Adds(j: nat, k: nat)
    ensures Exp2(j + k) == Exp2(j) * Exp2(k)
  {
    if j > 0 {
      Exp2Adds(j - 1, k);
      TwiceProduct(Exp2(j - 1), Exp2(k));
    }
  }

  lemma TwiceProduct(a: int, b: int)
    ensures (2 * a) * b == 2 * (a * b)
  {
  }

  lemma Exp2At32()
    ensures Exp2(32) == 0x1_0000_0000
  {
    assert Exp2(4) == 16;
    Exp2Adds(4, 4);
    Exp2Adds(8, 8);
    Exp2Adds(16, 16);
  }

  lemma Scale(a: int, b: int, e: int)
    requires e > 0
    ensures a <= b ==> a * e <= b * e
  {
    if a <= b {
      assert (b - a) * e >= 0;
      assert (b - a) * e == b * e - a * e;
    }
  }

  /** Euclidean division of a natural number gets no larger. */
  lemma QuotientBound(n: nat, d: nat)
    requires d > 0
    ensures 0 <= n / d <= n && 0 <= n % d <= n && d * (n / d) + n % d == n
  {
    QuotientParts(n, d, n / d, n % d);
  }

  lemma QuotientParts(n: nat, d: nat, q: int, r: int)
    requires n == d * q + r && 0 <= r < d
    ensures 0 <= q <= n && r <= n
  {
    Scale(q, -1, d);
    if q > 0 { Scale(1, d, q); }
  }

  predicate IsPowerOfTwo(n: nat)
    decreases n
  {
    n == 1 || (n > 1 && n % 2 == 0 && IsPowerOfTwo(n / 2))
  }
}
