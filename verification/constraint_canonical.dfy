/**
  The normal form is canonical: two constraints agree on every assignment exactly when their
  normal forms are the same list of terms.
 */
module ConstraintCanonical {
  import opened ModArith
  import opened ConstraintTerms
  import opened ConstraintNormalize

  /** Equal values on every assignment of the variables. */
  ghost predicate AgreeEverywhere(p: int, s: seq<Term>, t: seq<Term>)
    requires p > 0
  {
    forall asg: Assignment :: Eval(s, asg) % p == Eval(t, asg) % p
  }

  // ------------------------------------------- coefficients determine the list

  lemma NormalTail(p: int, s: seq<Term>)
    requires Normal(p, s) && s != []
    ensures Normal(p, s[1..]) && Settled(p, s[0]) && 0 < s[0].Coef() < p && Mono(s[0]) == s[0].Vars()
  {
    assert forall i :: 0 <= i < |s[1..]| ==> s[1..][i] == s[i + 1];
    NormTermKeeps(p, s[0]);
  }

  /** Nothing in a normal list comes before a monomial that is before its head. */
  lemma {:induction false} CoefBefore(p: int, s: seq<Term>, m: seq<Var>)
    requires Normal(p, s) && (s == [] || MonoLess(m, s[0].Vars()))
    ensures CoefOf(s, m) == 0
  {
    if s != [] {
      NormalTail(p, s);
      MonoIrreflexive(m);
      if |s| > 1 { MonoTransitive(m, s[0].Vars(), s[1].Vars()); }
      hide Normal, Mono, MonoLess, Settled;
      CoefBefore(p, s[1..], m);
    }
  }

  lemma CoefHead(p: int, s: seq<Term>)
    requires Normal(p, s) && s != []
    ensures CoefOf(s, s[0].Vars()) == s[0].Coef()
  {
    NormalTail(p, s);
    if |s| > 1 { assert MonoLess(s[0].Vars(), s[1..][0].Vars()); }
    CoefBefore(p, s[1..], s[0].Vars());
  }

  ghost predicate SameCoefs(p: int, s: seq<Term>, t: seq<Term>)
    requires p > 0
  {
    forall m: seq<Var> :: CoefOf(s, m) % p == CoefOf(t, m) % p
  }

  lemma HeadNotMissing(p: int, s: seq<Term>, t: seq<Term>)
    requires p > 0 && Normal(p, s) && Normal(p, t) && s != [] && SameCoefs(p, s, t)
    ensures t != [] && !MonoLess(s[0].Vars(), t[0].Vars())
  {
    var m := s[0].Vars();
    CoefHead(p, s);
    NormalTail(p, s);
    DivModUnique(s[0].Coef(), 0, s[0].Coef(), p);
    DivModUnique(0, 0, 0, p);
    assert CoefOf(s, m) % p == CoefOf(t, m) % p;
    if t == [] || MonoLess(m, t[0].Vars()) {
      hide Normal, CoefOf;
      CoefBefore(p, t, m);
    }
  }

  lemma HeadsEqual(p: int, s: seq<Term>, t: seq<Term>)
    requires p > 0 && Normal(p, s) && Normal(p, t) && s != [] && t != [] && SameCoefs(p, s, t)
    ensures s[0] == t[0]
  {
    HeadNotMissing(p, s, t);
    HeadNotMissing(p, t, s);
    MonoTotal(s[0].Vars(), t[0].Vars());
    var m := s[0].Vars();
    CoefHead(p, s);
    CoefHead(p, t);
    NormalTail(p, s);
    NormalTail(p, t);
    assert CoefOf(s, m) % p == CoefOf(t, m) % p;
    hide Normal, CoefOf, MonoLess, SortedVars;
    DivModUnique(s[0].Coef(), 0, s[0].Coef(), p);
    DivModUnique(t[0].Coef(), 0, t[0].Coef(), p);
  }

  lemma TailCoefs(p: int, s: seq<Term>, t: seq<Term>)
    requires p > 0 && s != [] && t != [] && s[0] == t[0] && SameCoefs(p, s, t)
    ensures SameCoefs(p, s[1..], t[1..])
  {
    forall m: seq<Var>
      ensures CoefOf(s[1..], m) % p == CoefOf(t[1..], m) % p
    {
      var c := if Mono(s[0]) == m then s[0].Coef() else 0;
      assert CoefOf(s, m) == c + CoefOf(s[1..], m) && CoefOf(t, m) == c + CoefOf(t[1..], m);
      assert CoefOf(s, m) % p == CoefOf(t, m) % p;
      hide CoefOf, Mono;
      CancelInSum(p, c, CoefOf(s[1..], m), CoefOf(t[1..], m));
    }
  }

  lemma CancelInSum(p: int, c: int, a: int, b: int)
    requires p > 0 && (c + a) % p == (c + b) % p
    ensures a % p == b % p
  {
    ReplaceInSum(p, -c, c + a, c + b);
  }

  /** A normal list is determined by its coefficients. */
  lemma {:induction false} CoefsDetermine(p: int, s: seq<Term>, t: seq<Term>)
    requires p > 0 && Normal(p, s) && Normal(p, t) && SameCoefs(p, s, t)
    ensures s == t
  {
    if s == [] {
      if t != [] { HeadNotMissing(p, t, s); }
    } else {
      HeadNotMissing(p, s, t);
      HeadsEqual(p, s, t);
      NormalTail(p, s);
      NormalTail(p, t);
      TailCoefs(p, s, t);
      CoefsDetermine(p, s[1..], t[1..]);
      assert s == [s[0]] + s[1..] && t == [t[0]] + t[1..];
    }
  }

  // ---------------------------------------------- values determine coefficients

  /** The assignment that is zero except on two variables. */
  function Probe(i: Var, a: int, j: Var, b: int): Assignment {
    x => if x == i then a else if x == j then b else 0
  }

  /** What a quadratic polynomial is worth on such an assignment. */
  function ProbeValue(s: seq<Term>, i: Var, a: int, j: Var, b: int): int {
    CoefOf(s, []) + a * CoefOf(s, [i]) + b * CoefOf(s, [j])
    + a * a * CoefOf(s, [i, i]) + b * b * CoefOf(s, [j, j]) + a * b * CoefOf(s, [i, j])
  }

  function ProbeMono(m: seq<Var>, i: Var, a: int, j: Var, b: int): int {
    if m == [] then 1 else if m == [i] then a else if m == [j] then b
    else if m == [i, i] then a * a else if m == [j, j] then b * b else if m == [i, j] then a * b else 0
  }

  lemma ProbeProduct(m: seq<Var>, i: Var, a: int, j: Var, b: int)
    requires i < j && SortedVars(m) && |m| <= MAX_DEGREE
    ensures Product(Probe(i, a, j, b), m) == ProbeMono(m, i, a, j, b)
  {
    var asg := Probe(i, a, j, b);
    if |m| == 1 {
      assert m == [m[0]] && m[1..] == [];
      assert Product(asg, m) == asg(m[0]) * 1;
    } else if |m| == 2 {
      assert m == [m[0], m[1]] && m[1..] == [m[1]] && m[1..][1..] == [];
      assert Product(asg, m[1..]) == asg(m[1]) * 1;
      assert Product(asg, m) == asg(m[0]) * asg(m[1]);
    }
  }

  lemma {:induction false} EvalOnProbe(p: int, s: seq<Term>, i: Var, a: int, j: Var, b: int)
    requires Normal(p, s) && i < j
    ensures Eval(s, Probe(i, a, j, b)) == ProbeValue(s, i, a, j, b)
  {
    if s != [] {
      NormalTail(p, s);
      assert SortedVars(s[0].Vars()) && |s[0].Vars()| <= MAX_DEGREE;
      EvalOnProbe(p, s[1..], i, a, j, b);
      ProbeProduct(s[0].Vars(), i, a, j, b);
      hide Normal, Settled, Probe;
      ProbeStep(s, i, a, j, b);
    }
  }

  lemma ProbeStep(s: seq<Term>, i: Var, a: int, j: Var, b: int)
    requires s != [] && i < j && Mono(s[0]) == s[0].Vars()
    ensures ProbeValue(s, i, a, j, b)
         == s[0].Coef() * ProbeMono(s[0].Vars(), i, a, j, b) + ProbeValue(s[1..], i, a, j, b)
  {
    var c, m, r := s[0].Coef(), s[0].Vars(), s[1..];
    forall k: seq<Var>
      ensures CoefOf(s, k) == (if m == k then c else 0) + CoefOf(r, k)
    {
    }
    hide CoefOf, Mono;
    if m == [i, i] { MulAdds(a * a, c, CoefOf(r, m)); }
    else if m == [j, j] { MulAdds(b * b, c, CoefOf(r, m)); }
    else if m == [i, j] { MulAdds(a * b, c, CoefOf(r, m)); }
    else if m == [i] { MulAdds(a, c, CoefOf(r, m)); }
    else if m == [j] { MulAdds(b, c, CoefOf(r, m)); }
  }

  lemma MulAdds(k: int, c: int, d: int)
    ensures k * (c + d) == c * k + k * d
  {
  }

  lemma DifferenceZero(p: int, a: int, b: int)
    requires p > 0
    ensures a % p == b % p <==> Vanishes(p, a - b)
  {
    CongruentIff(a, b, p);
  }

  predicate Vanishes(p: int, a: int)
    requires p > 0
  {
    a % p == 0
  }

  lemma SumOfMultiples(p: int, a: int, b: int)
    requires p > 0 && Vanishes(p, a) && Vanishes(p, b)
    ensures Vanishes(p, a + b) && Vanishes(p, a - b)
  {
    AddMod(a, b, p);
    SubMod(a, b, p);
  }

  lemma HalfVanishes(p: int, d: int)
    requires IsPrime(p) && p > 2 && Vanishes(p, 2 * d)
    ensures Vanishes(p, d)
  {
    DivModUnique(2, 0, 2, p);
    NoZeroDivisors(2, d, p);
  }

  /** Values at 0, 1 and -1 determine a quadratic in one variable, the field being of odd characteristic. */
  lemma SolveProbe(p: int, d0: int, d1: int, d2: int)
    requires IsPrime(p) && p > 2
    requires Vanishes(p, d0) && Vanishes(p, d0 + d1 + d2) && Vanishes(p, d0 - d1 + d2)
    ensures Vanishes(p, d1) && Vanishes(p, d2)
  {
    hide Vanishes, IsPrime;
    var x, y := d0 + d1 + d2, d0 - d1 + d2;
    SumOfMultiples(p, x, y);
    SumOfMultiples(p, x + y, d0);
    SumOfMultiples(p, x + y - d0, d0);
    assert x + y - d0 - d0 == 2 * d2;
    HalfVanishes(p, d2);
    SumOfMultiples(p, x, d0);
    SumOfMultiples(p, x - d0, d2);
    assert x - d0 - d2 == d1;
  }

  /** Coefficient-wise difference of two lists. */
  function Diff(s: seq<Term>, t: seq<Term>, m: seq<Var>): int { CoefOf(s, m) - CoefOf(t, m) }

  lemma ProbeDifference(p: int, s: seq<Term>, t: seq<Term>, i: Var, a: int, j: Var, b: int)
    requires p > 0 && Normal(p, s) && Normal(p, t) && i < j && AgreeEverywhere(p, s, t)
    ensures Vanishes(p, ProbeValue(s, i, a, j, b) - ProbeValue(t, i, a, j, b))
  {
    EvalOnProbe(p, s, i, a, j, b);
    EvalOnProbe(p, t, i, a, j, b);
    assert Eval(s, Probe(i, a, j, b)) % p == Eval(t, Probe(i, a, j, b)) % p;
    DifferenceZero(p, ProbeValue(s, i, a, j, b), ProbeValue(t, i, a, j, b));
  }

  lemma ConstantAgrees(p: int, s: seq<Term>, t: seq<Term>, i: Var)
    requires p > 0 && Normal(p, s) && Normal(p, t) && AgreeEverywhere(p, s, t)
    ensures Vanishes(p, Diff(s, t, []))
  {
    ProbeDifference(p, s, t, i, 0, i + 1, 0);
    hide CoefOf, Normal, AgreeEverywhere, Vanishes;
    assert ProbeValue(s, i, 0, i + 1, 0) - ProbeValue(t, i, 0, i + 1, 0) == Diff(s, t, []);
  }

  lemma SquareAgrees(p: int, s: seq<Term>, t: seq<Term>, i: Var)
    requires IsPrime(p) && p > 2 && Normal(p, s) && Normal(p, t) && AgreeEverywhere(p, s, t)
    ensures Vanishes(p, Diff(s, t, [i])) && Vanishes(p, Diff(s, t, [i, i]))
  {
    ConstantAgrees(p, s, t, i);
    ProbeDifference(p, s, t, i, 1, i + 1, 0);
    ProbeDifference(p, s, t, i, -1, i + 1, 0);
    hide CoefOf, Normal, AgreeEverywhere, Vanishes, IsPrime;
    var d0, d1, d2 := Diff(s, t, []), Diff(s, t, [i]), Diff(s, t, [i, i]);
    assert ProbeValue(s, i, 1, i + 1, 0) - ProbeValue(t, i, 1, i + 1, 0) == d0 + d1 + d2;
    assert ProbeValue(s, i, -1, i + 1, 0) - ProbeValue(t, i, -1, i + 1, 0) == d0 - d1 + d2;
    SolveProbe(p, d0, d1, d2);
  }

  lemma PairAgrees(p: int, s: seq<Term>, t: seq<Term>, i: Var, j: Var)
    requires IsPrime(p) && p > 2 && Normal(p, s) && Normal(p, t) && AgreeEverywhere(p, s, t) && i < j
    ensures Vanishes(p, Diff(s, t, [i, j]))
  {
    ConstantAgrees(p, s, t, i);
    SquareAgrees(p, s, t, i);
    SquareAgrees(p, s, t, j);
    ProbeDifference(p, s, t, i, 1, j, 1);
    hide CoefOf, Normal, AgreeEverywhere, Vanishes, IsPrime;
    var d0, di, dj := Diff(s, t, []), Diff(s, t, [i]), Diff(s, t, [j]);
    var dii, djj, dij := Diff(s, t, [i, i]), Diff(s, t, [j, j]), Diff(s, t, [i, j]);
    assert ProbeValue(s, i, 1, j, 1) - ProbeValue(t, i, 1, j, 1) == d0 + di + dj + dii + djj + dij;
    hide Diff;
    SumOfMultiples(p, d0, di);
    SumOfMultiples(p, d0 + di, dj);
    SumOfMultiples(p, d0 + di + dj, dii);
    SumOfMultiples(p, d0 + di + dj + dii, djj);
    SumOfMultiples(p, d0 + di + dj + dii + djj + dij, d0 + di + dj + dii + djj);
  }

  lemma NoOtherMonomial(p: int, s: seq<Term>, m: seq<Var>)
    requires Normal(p, s) && (|m| > MAX_DEGREE || !SortedVars(m))
    ensures CoefOf(s, m) == 0
  {
    forall t | t in s
      ensures Mono(t) != m
    {
      SettledMono(p, s, t);
    }
    CoefAbsent(s, m);
  }

  lemma CoefsAgree(p: int, s: seq<Term>, t: seq<Term>, m: seq<Var>)
    requires IsPrime(p) && p > 2 && Normal(p, s) && Normal(p, t) && AgreeEverywhere(p, s, t)
    ensures CoefOf(s, m) % p == CoefOf(t, m) % p
  {
    assert p > 2;
    hide Normal, CoefOf, AgreeEverywhere, Vanishes, IsPrime;
    DifferenceZero(p, CoefOf(s, m), CoefOf(t, m));
    if |m| > MAX_DEGREE || !SortedVars(m) {
      NoOtherMonomial(p, s, m);
      NoOtherMonomial(p, t, m);
    } else if |m| == 0 {
      assert m == [];
      ConstantAgrees(p, s, t, 0);
    } else if |m| == 1 {
      assert m == [m[0]];
      SquareAgrees(p, s, t, m[0]);
    } else {
      assert m == [m[0], m[1]];
      if m[0] == m[1] { SquareAgrees(p, s, t, m[0]); } else { PairAgrees(p, s, t, m[0], m[1]); }
    }
  }

  /** Two normal lists that agree on every assignment are the same list. */
  lemma Canonical(p: int, s: seq<Term>, t: seq<Term>)
    requires IsPrime(p) && p > 2 && Normal(p, s) && Normal(p, t)
    ensures AgreeEverywhere(p, s, t) <==> s == t
  {
    hide Normal, CoefOf;
    if AgreeEverywhere(p, s, t) {
      forall m: seq<Var>
        ensures CoefOf(s, m) % p == CoefOf(t, m) % p
      {
        CoefsAgree(p, s, t, m);
      }
      CoefsDetermine(p, s, t);
    }
  }

  /** Only the empty list vanishes on every assignment. */
  lemma ZeroIsEmpty(p: int, s: seq<Term>)
    requires IsPrime(p) && p > 2 && Normal(p, s)
    ensures (forall asg: Assignment :: Eval(s, asg) % p == 0) <==> s == []
  {
    assert Normal(p, []);
    Canonical(p, s, []);
    DivModUnique(0, 0, 0, p);
    hide Normal, IsPrime;
    forall asg: Assignment
      ensures Eval([], asg) % p == 0
    {
      assert Eval([], asg) == 0;
    }
    if s != [] {
      var asg: Assignment :| Eval(s, asg) % p != Eval([], asg) % p;
      assert Eval(s, asg) % p != 0;
    }
  }

  lemma SamePolyAgrees(p: int, s: seq<Term>, t: seq<Term>)
    requires p > 0 && SamePoly(p, s, t)
    ensures AgreeEverywhere(p, s, t)
  {
    hide SamePoly, Eval;
    forall asg: Assignment
      ensures Eval(s, asg) % p == Eval(t, asg) % p
    {
      SamePolySameValue(p, s, t, asg);
    }
  }

  /** Two constraints agree on every assignment exactly when normalising them gives the same terms. */
  lemma NormalFormsDecide(p: int, c: seq<Term>, d: seq<Term>, nc: seq<Term>, nd: seq<Term>)
    requires IsPrime(p) && p > 2
    requires Normal(p, nc) && SamePoly(p, nc, c) && Normal(p, nd) && SamePoly(p, nd, d)
    ensures AgreeEverywhere(p, c, d) <==> nc == nd
  {
    SamePolyAgrees(p, nc, c);
    SamePolyAgrees(p, nd, d);
    Canonical(p, nc, nd);
    hide Normal, SamePoly, Eval;
  }

  /** The normal form of a polynomial is unique, so normalising twice changes nothing. */
  lemma NormalFormUnique(p: int, c: seq<Term>, n: seq<Term>)
    requires p > 0 && Normal(p, c) && Normal(p, n) && SamePoly(p, n, c)
    ensures n == c
  {
    hide Normal, CoefOf, SamePoly;
    forall m: seq<Var>
      ensures CoefOf(n, m) % p == CoefOf(c, m) % p
    {
      SamePolySameCoef(p, n, c, m);
    }
    CoefsDetermine(p, n, c);
  }

  /** Normalising a constraint already normalised returns it unchanged. */
  method NormalizeTwice(p: int, input: seq<Term>) returns (once: Outcome<seq<Term>>, twice: Outcome<seq<Term>>)
    requires p > 0 && AllValid(p, input)
    ensures once.Done? ==> twice == once
  {
    once := Normalize(p, input);
    if once.Panic? { return once, once; }
    SettledValid(p, once.value);
    LowDegreeQuadratic(p, once.value);
    hide Normal, SamePoly, QuadraticAtMost, AllValid;
    twice := Normalize(p, once.value);
    NormalFormUnique(p, once.value, twice.value);
  }
}
