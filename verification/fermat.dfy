/** Fermat's little theorem, by multiplying out the nonzero residues in two orders. */
module Fermat {
  import opened ModArith
  import opened Mersenne31Prime

  function IntPow(a: int, e: nat): int {
    if e == 0 then 1 else a * IntPow(a, e - 1)
  }

  function Factorial(n: nat): int {
    if n == 0 then 1 else n * Factorial(n - 1)
  }

  ghost function Product(s: seq<int>): int {
    if s == [] then 1 else s[0] * Product(s[1..])
  }

  lemma {:induction false} PowAdds(a: int, e: nat, f: nat)
    ensures IntPow(a, e + f) == IntPow(a, e) * IntPow(a, f)
  {
    if e > 0 {
      PowAdds(a, e - 1, f);
      assert (a * IntPow(a, e - 1)) * IntPow(a, f) == a * (IntPow(a, e - 1) * IntPow(a, f));
    }
  }

  lemma {:induction false} PowMultiplies(a: int, e: nat, f: nat)
    ensures IntPow(a, e * f) == IntPow(IntPow(a, e), f)
  {
    if f > 0 {
      PowMultiplies(a, e, f - 1);
      assert e * f == e + e * (f - 1);
      PowAdds(a, e, e * (f - 1));
    } else {
      assert e * f == 0;
    }
  }

  lemma {:induction false} PowCongruent(a: int, b: int, e: nat, m: int)
    requires m > 0 && a % m == b % m
    ensures IntPow(a, e) % m == IntPow(b, e) % m
  {
    if e > 0 {
      PowCongruent(a, b, e - 1, m);
      MulMod(a, IntPow(a, e - 1), m);
      MulMod(b, IntPow(b, e - 1), m);
    }
  }

  lemma {:induction false} ProductWithout(s: seq<int>, k: nat)
    requires k < |s|
    ensures Product(s) == s[k] * Product(Without(s, k))
  {
    if k == 0 {
      assert Without(s, 0) == s[1..];
    } else {
      var t := s[1..];
      ProductWithout(t, k - 1);
      assert Without(s, k)[0] == s[0] && Without(s, k)[1..] == Without(t, k - 1);
      Swap(s[0], s[k], Product(Without(t, k - 1)));
    }
  }

  lemma Swap(a: int, b: int, c: int)
    ensures a * (b * c) == b * (a * c)
  {
    assert a * (b * c) == (a * b) * c && b * (a * c) == (b * a) * c;
  }

  /** n different numbers from 1 to n multiply to n!. */
  lemma {:induction false} ProductOfPermutation(s: seq<int>, n: nat)
    requires NoDup(s) && InRange(s, n) && |s| == n
    ensures Product(s) == Factorial(n)
    decreases n
  {
    if n > 0 {
      if k :| 0 <= k < |s| && s[k] == n {
        ProductWithout(s, k);
        ProductOfPermutation(Without(s, k), n - 1);
      } else {
        Pigeonhole(s, n - 1);
        assert false;
      }
    }
  }

  /** The residues of a, 2a, ..., na, last first. */
  ghost function Multiples(a: int, n: nat, p: int): (s: seq<int>)
    requires p > 0
    ensures |s| == n && forall i :: 0 <= i < n ==> s[i] == (a * (n - i)) % p
  {
    if n == 0 then [] else [(a * n) % p] + Multiples(a, n - 1, p)
  }

  lemma {:induction false} ProductOfMultiples(a: int, n: nat, p: int)
    requires p > 0
    ensures Product(Multiples(a, n, p)) % p == (IntPow(a, n) * Factorial(n)) % p
  {
    if n > 0 {
      ProductOfMultiples(a, n - 1, p);
      var rest := Multiples(a, n - 1, p);
      assert Multiples(a, n, p)[1..] == rest;
      var u, v := Product(rest), IntPow(a, n - 1) * Factorial(n - 1);
      MulMod((a * n) % p, u, p);
      MulMod(a * n, v, p);
      assert (a * n) * v == IntPow(a, n) * Factorial(n) by {
        Regroup(a, n, IntPow(a, n - 1), Factorial(n - 1));
      }
    }
  }

  lemma Regroup(a: int, n: int, x: int, y: int)
    ensures (a * n) * (x * y) == (a * x) * (n * y)
  {
    assert (a * n) * (x * y) == a * (n * (x * y)) && n * (x * y) == x * (n * y);
    assert a * (x * (n * y)) == (a * x) * (n * y);
  }

  lemma {:induction false} FactorialUnit(n: nat, p: int)
    requires IsPrime(p) && n < p
    ensures Factorial(n) % p != 0
  {
    if n > 0 {
      FactorialUnit(n - 1, p);
      if Factorial(n) % p == 0 {
        NoZeroDivisors(n, Factorial(n - 1), p);
        DivModUnique(n, 0, n, p);
        assert false;
      }
    }
  }

  lemma MultiplesDiffer(a: int, i: int, j: int, p: int)
    requires IsPrime(p) && a % p != 0 && 0 < i < j < p
    ensures (a * i) % p != (a * j) % p
  {
    if (a * i) % p == (a * j) % p {
      CongruentIff(a * j, a * i, p);
      assert a * j - a * i == a * (j - i);
      NoZeroDivisors(a, j - i, p);
      DivModUnique(j - i, 0, j - i, p);
      assert false;
    }
  }

  lemma MultiplesInRange(a: int, i: int, p: int)
    requires IsPrime(p) && a % p != 0 && 0 < i < p
    ensures 1 <= (a * i) % p <= p - 1
  {
    if (a * i) % p == 0 {
      NoZeroDivisors(a, i, p);
      DivModUnique(i, 0, i, p);
      assert false;
    }
  }

  lemma LittleTheorem(a: int, p: int)
    requires IsPrime(p) && a % p != 0
    ensures IntPow(a, p - 1) % p == 1
  {
    var s := Multiples(a, p - 1, p);
    forall i | 0 <= i < |s|
      ensures 1 <= s[i] <= p - 1
    {
      MultiplesInRange(a, p - 1 - i, p);
    }
    forall i, j | 0 <= i < j < |s|
      ensures s[i] != s[j]
    {
      MultiplesDiffer(a, p - 1 - j, p - 1 - i, p);
    }
    ProductOfPermutation(s, p - 1);
    ProductOfMultiples(a, p - 1, p);
    FactorialUnit(p - 1, p);
    CancelFactor(IntPow(a, p - 1), Factorial(p - 1), p);
  }

  lemma CancelFactor(x: int, f: int, p: int)
    requires IsPrime(p) && f % p != 0 && (x * f) % p == f % p
    ensures x % p == 1
  {
    CongruentIff(x * f, f, p);
    assert x * f - f == (x - 1) * f;
    NoZeroDivisors(x - 1, f, p);
    CongruentIff(x, 1, p);
    DivModUnique(1, 0, 1, p);
  }
}
