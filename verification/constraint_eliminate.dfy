/**
  Solving a constraint for a variable, and exactly when the solution stands for the constraint.
 */
module ConstraintEliminate {
  import opened ModArith
  import opened ConstraintTerms
  import opened ConstraintNormalize
  import opened ConstraintCanonical
  import opened ConstraintOps

  // -------------------------------------------------------------- occurrences

  function Multiplicity(vs: seq<Var>, x: Var): nat {
    if vs == [] then 0 else (if vs[0] == x then 1 else 0) + Multiplicity(vs[1..], x)
  }

  predicate Free(s: seq<Term>, x: Var) { forall i :: 0 <= i < |s| ==> !s[i].ContainsVar(x) }

  /** The largest power of `x` in a term, as the source's loop computes it. */
  function MaxMultiplicity(s: seq<Term>, x: Var): nat {
    if s == [] then 0
    else
      var d, m := MaxMultiplicity(s[..|s| - 1], x), Multiplicity(s[|s| - 1].Vars(), x);
      if m > d then m else d
  }

  lemma {:induction false} MultiplicityZero(vs: seq<Var>, x: Var)
    ensures Multiplicity(vs, x) == 0 <==> x !in vs
  {
    if vs != [] {
      MultiplicityZero(vs[1..], x);
      assert vs == [vs[0]] + vs[1..];
    }
  }

  lemma {:induction false} MaxMultiplicityBounds(s: seq<Term>, x: Var, i: nat)
    requires i < |s|
    ensures Multiplicity(s[i].Vars(), x) <= MaxMultiplicity(s, x)
  {
    if i < |s| - 1 { MaxMultiplicityBounds(s[..|s| - 1], x, i); }
  }

  lemma {:induction false} MaxMultiplicityFree(s: seq<Term>, x: Var)
    ensures MaxMultiplicity(s, x) == 0 <==> Free(s, x)
  {
    if s != [] {
      var n := |s| - 1;
      MaxMultiplicityFree(s[..n], x);
      MultiplicityZero(s[n].Vars(), x);
      assert s == s[..n] + [s[n]];
    }
  }

  /** A term with `x` exactly once, by degree. */
  lemma OnceShape(t: Term, x: Var)
    requires t.ContainsVar(x) && Multiplicity(t.Vars(), x) <= 1
    ensures t.Degree() == 1 ==> t.inner == [x]
    ensures t.Degree() == 2 ==> t.inner == [t.inner[0], t.inner[1]] && (t.inner[0] == x) != (t.inner[1] == x)
  {
    var vs := t.inner;
    if |vs| == 2 {
      assert vs[1..][1..] == [];
      assert Multiplicity(vs, x) == (if vs[0] == x then 1 else 0) + Multiplicity(vs[1..], x);
      assert Multiplicity(vs[1..], x) == (if vs[1] == x then 1 else 0) + 0;
    }
  }

  function With(asg: Assignment, x: Var, v: int): Assignment {
    (y: Var) => if y == x then v else asg(y)
  }

  /** Two assignments that differ at most on `x`. */
  ghost predicate AgreeOff(x: Var, asg: Assignment, other: Assignment) { forall y :: y != x ==> asg(y) == other(y) }

  lemma {:induction false} ProductFree(x: Var, asg: Assignment, other: Assignment, vs: seq<Var>)
    requires AgreeOff(x, asg, other) && x !in vs
    ensures Product(asg, vs) == Product(other, vs)
  {
    if vs != [] {
      assert vs[0] != x;
      ProductFree(x, asg, other, vs[1..]);
    }
  }

  /** A constraint without `x` has the same value whatever `x` is. */
  lemma {:induction false} EvalFree(s: seq<Term>, x: Var, asg: Assignment, other: Assignment)
    requires AgreeOff(x, asg, other) && Free(s, x)
    ensures Eval(s, asg) == Eval(s, other)
  {
    hide AgreeOff;
    if s != [] {
      EvalFree(s[1..], x, asg, other);
      ProductFree(x, asg, other, s[0].Vars());
    }
  }

  lemma StrictApart(s: seq<Term>)
    requires StrictlySorted(s)
    ensures Apart(s)
  {
    if s != [] {
      StrictApart(s[1..]);
      forall t | t in s[1..]
        ensures t.Vars() != s[0].Vars()
      {
        StrictHead(s, t);
        MonoIrreflexive(t.Vars());
      }
    }
  }

  lemma CoefOfFree(s: seq<Term>, x: Var, m: seq<Var>)
    requires Free(s, x)
    ensures x in m ==> CoefOf(s, m) == 0
  {
    hide CoefOf;
    if x in m {
      forall t | t in s
        ensures Mono(t) != m
      {
        SortContains(t.Vars(), x);
      }
      CoefAbsent(s, m);
    }
  }

  /** A term of the normal form has a monomial that the source list really holds. */
  lemma CoefSurvives(p: int, n: seq<Term>, s: seq<Term>, i: nat)
    requires p > 0 && Normal(p, n) && SamePoly(p, n, s) && i < |n|
    ensures CoefOf(s, n[i].Vars()) != 0
  {
    StrictApart(n);
    CoefPresent(p, n, i);
    SamePolySameCoef(p, n, s, n[i].Vars());
    assert 0 < n[i].Coef() < p;
    hide CoefOf, SamePoly, Apart, Normal;
    DivModUnique(n[i].Coef(), 0, n[i].Coef(), p);
    DivModUnique(0, 0, 0, p);
  }

  /** Normalising does not bring back a variable. */
  lemma FreeNormal(p: int, n: seq<Term>, s: seq<Term>, x: Var)
    requires p > 0 && Normal(p, n) && SamePoly(p, n, s) && Free(s, x)
    ensures Free(n, x)
  {
    hide Normal, SamePoly, CoefOf;
    forall i | 0 <= i < |n|
      ensures !n[i].ContainsVar(x)
    {
      CoefSurvives(p, n, s, i);
      CoefOfFree(s, x, n[i].Vars());
    }
  }

  lemma FreeScaled(p: int, s: seq<Term>, k: int, x: Var)
    requires p > 0 && Free(s, x)
    ensures Free(Scaled(p, s, k), x)
  {
    forall i | 0 <= i < |s|
      ensures !Scaled(p, s, k)[i].ContainsVar(x)
    {
      assert !s[i].ContainsVar(x);
    }
  }

  // ---------------------------------------------------- solving for a variable

  /** The terms without `x`, in order. */
  function Without(c: seq<Term>, x: Var): seq<Term> {
    if c == [] then []
    else
      var n := |c| - 1;
      Without(c[..n], x) + (if c[n].ContainsVar(x) then [] else [c[n]])
  }

  /** The coefficient of the last term with `x`: what the source's loop leaves in `prefactor`. */
  function LastCoef(c: seq<Term>, x: Var): int {
    if c == [] then 0
    else
      var n := |c| - 1;
      if c[n].ContainsVar(x) then c[n].Coef() else LastCoef(c[..n], x)
  }

  /** The expression put for `x`, with the last prefactor, balances the terms without `x`. */
  ghost predicate Balances(p: int, c: seq<Term>, x: Var, e: seq<Term>, asg: Assignment)
    requires p > 0
  {
    (LastCoef(c, x) * Eval(e, asg) + Eval(Without(c, x), asg)) % p == 0
  }

  lemma {:induction false} WithoutFacts(p: int, c: seq<Term>, x: Var, d: nat)
    ensures Free(Without(c, x), x)
    ensures AllValid(p, c) ==> AllValid(p, Without(c, x))
    ensures DegreesAtMost(d, c) ==> DegreesAtMost(d, Without(c, x))
  {
    if c != [] { WithoutFacts(p, c[..|c| - 1], x, d); }
  }

  lemma {:induction false} WithoutAll(c: seq<Term>, x: Var)
    requires Free(c, x)
    ensures Without(c, x) == c && LastCoef(c, x) == 0
  {
    if c != [] {
      var n := |c| - 1;
      WithoutAll(c[..n], x);
      assert c == c[..n] + [c[n]];
    }
  }

  /** `x` occurs in one term only, alone and to the first power. */
  predicate LinearAt(c: seq<Term>, x: Var, i: nat) {
    && i < |c| && c[i].Expression? && c[i].inner == [x]
    && forall j :: 0 <= j < |c| && j != i ==> !c[j].ContainsVar(x)
  }

  lemma {:induction false} EvalLinear(c: seq<Term>, x: Var, i: nat, asg: Assignment)
    requires LinearAt(c, x, i)
    ensures LastCoef(c, x) == c[i].coeff
    ensures Eval(c, asg) == c[i].coeff * asg(x) + Eval(Without(c, x), asg)
  {
    var n := |c| - 1;
    assert c == c[..n] + [c[n]];
    EvalSnoc(c[..n], c[n], asg);
    if i == n {
      WithoutAll(c[..n], x);
      assert Without(c, x) == c[..n];
      assert Product(asg, [x]) == asg(x) by { assert [x][1..] == []; }
    } else {
      EvalLinear(c[..n], x, i, asg);
      EvalSnoc(Without(c[..n], x), c[n], asg);
    }
  }

  method FieldInverse(p: int, a: int) returns (r: Outcome<int>)
    requires IsPrime(p)
    ensures r.Done? <==> a % p != 0
    ensures r.Done? ==> 0 <= r.value < p && (a * r.value) % p == 1
  {
    if a % p == 0 { return Panic; }
    ghost var w := InverseExists(a % p, p);
    InverseReduced(a, w, p);
    var u :| 0 <= u < p && (a * u) % p == 1;
    r := Done(u);
  }

  lemma InverseReduced(a: int, w: int, p: int)
    requires p > 1 && ((a % p) * w) % p == 1
    ensures 0 <= w % p < p && (a * (w % p)) % p == 1
  {
    MulMod(a, w, p);
    MulMod(a, w % p, p);
    MulMod(a % p, w, p);
    DivModUnique(a % p, 0, a % p, p);
    DivModUnique(w % p, 0, w % p, p);
  }

  function CoefIn(t: Term, m: seq<Var>): int { if Mono(t) == m then t.Coef() else 0 }

  lemma CoefInScaled(p: int, t: Term, k: int, m: seq<Var>)
    requires p > 0
    ensures CoefIn(ScaleTerm(p, t, k), m) % p == (k * CoefIn(t, m)) % p
  {
    assert Mono(ScaleTerm(p, t, k)) == Mono(t);
    hide Mono;
    assert k * t.Coef() == t.Coef() * k;
  }

  lemma {:induction false} CoefScaled(p: int, s: seq<Term>, k: int, m: seq<Var>)
    requires p > 0
    ensures CoefOf(Scaled(p, s, k), m) % p == (k * CoefOf(s, m)) % p
  {
    if s != [] {
      var r := Scaled(p, s, k);
      ScaledHead(p, s, k);
      CoefScaled(p, s[1..], k, m);
      CoefInScaled(p, s[0], k, m);
      assert CoefOf(r, m) == CoefIn(r[0], m) + CoefOf(r[1..], m) && CoefOf(s, m) == CoefIn(s[0], m) + CoefOf(s[1..], m);
      hide Scaled, CoefOf, CoefIn, ScaleTerm;
      SumScaled(p, k, CoefIn(r[0], m), CoefIn(s[0], m), CoefOf(r[1..], m), CoefOf(s[1..], m));
    }
  }

  lemma FactorVanishes(p: int, k: int, c: int)
    requires IsPrime(p) && k % p != 0
    ensures (k * c) % p == 0 <==> c % p == 0
  {
    if (k * c) % p == 0 { NoZeroDivisors(k, c, p); }
    hide IsPrime;
    MultipleVanishes(p, k, c);
  }

  lemma MultipleVanishes(p: int, k: int, c: int)
    requires p > 0
    ensures c % p == 0 ==> (k * c) % p == 0
  {
    if c % p == 0 {
      MulMod(k, c, p);
      assert k * 0 == 0;
    }
  }

  /** Scaling by a nonzero factor neither raises nor lowers the degree. */
  lemma ScaledQuadratic(p: int, s: seq<Term>, k: int)
    requires IsPrime(p) && k % p != 0
    ensures QuadraticAtMost(p, Scaled(p, s, k)) <==> QuadraticAtMost(p, s)
  {
    assert p >= 2;
    hide IsPrime, Scaled, CoefOf;
    forall m: seq<Var>
      ensures CoefOf(Scaled(p, s, k), m) % p == 0 <==> CoefOf(s, m) % p == 0
    {
      CoefScaled(p, s, k, m);
      FactorVanishes(p, k, CoefOf(s, m));
    }
  }

  lemma MinusInverseNonZero(p: int, a: int, u: int)
    requires p > 1 && (a * u) % p == 1
    ensures ((-u) % p) % p != 0
  {
    MultipleVanishes(p, a, u);
    NegatedMultiple(p, u);
  }

  lemma NegatedMultiple(p: int, u: int)
    requires p > 0
    ensures (-u) % p == 0 ==> u % p == 0
  {
    var q := (-u) / p;
    if (-u) % p == 0 {
      assert u == (-q) * p;
      DivModUnique(u, -q, 0, p);
    }
  }

  /** Solves for `x`: drops the terms with `x` and scales the rest by minus the inverse of the last prefactor. */
  method ExpressVariable(p: int, c: seq<Term>, x: Var) returns (r: Outcome<seq<Term>>)
    requires IsPrime(p) && AllValid(p, c)
    ensures r.Done? <==> MaxMultiplicity(c, x) == 1 && LastCoef(c, x) % p != 0 && QuadraticAtMost(p, Without(c, x))
    ensures r.Done? ==> Normal(p, r.value) && Free(r.value, x)
    ensures r.Done? ==> forall asg: Assignment :: Balances(p, c, x, r.value, asg)
    ensures DegreesAtMost(1, c) && r.Done? ==> DegreesAtMost(1, r.value)
  {
    hide Normal, SamePoly, QuadraticAtMost, Eval, IsPrime, Scaled, MaxMultiplicity, DegreesAtMost, Free, Without, LastCoef;
    if MaxMultiplicity(c, x) != 1 { return Panic; }
    var newTerms, prefactor := DropVariable(c, x);
    var inverse := FieldInverse(p, prefactor);
    if inverse.Panic? { return Panic; }
    var factor := (-inverse.value) % p;
    var scaled := Scaled(p, newTerms, factor);
    ScaledWithout(p, c, x, factor, 1);
    MinusInverseNonZero(p, prefactor, inverse.value);
    ScaledQuadratic(p, newTerms, factor);
    r := Normalize(p, scaled);
    if r.Done? {
      FreeNormal(p, r.value, scaled, x);
      if DegreesAtMost(1, c) { DegreeNotRaised(p, r.value, scaled, 1); }
      forall asg: Assignment
        ensures Balances(p, c, x, r.value, asg)
      {
        SamePolySameValue(p, r.value, scaled, asg);
        EvalScaled(p, newTerms, factor, asg);
        SolvedFor(p, prefactor, inverse.value, Eval(newTerms, asg), Eval(r.value, asg));
      }
    }
  }

  /** Collects the terms without `x` and the prefactor of the last term with it. */
  method DropVariable(c: seq<Term>, x: Var) returns (newTerms: seq<Term>, prefactor: int)
    ensures newTerms == Without(c, x) && prefactor == LastCoef(c, x)
  {
    newTerms, prefactor := [], 0;
    for k := 0 to |c|
      invariant newTerms == Without(c[..k], x) && prefactor == LastCoef(c[..k], x)
    {
      assert c[..k + 1][..k] == c[..k];
      if c[k].ContainsVar(x) { prefactor := c[k].Coef(); } else { newTerms := newTerms + [c[k]]; }
    }
    assert c[..|c|] == c;
  }

  lemma ScaledWithout(p: int, c: seq<Term>, x: Var, k: int, d: nat)
    requires p > 0 && AllValid(p, c)
    ensures var s := Scaled(p, Without(c, x), k);
      AllValid(p, s) && Free(s, x) && (DegreesAtMost(d, c) ==> DegreesAtMost(d, s))
  {
    WithoutFacts(p, c, x, d);
    ScaledValid(p, Without(c, x), k);
    ScaledDegrees(p, Without(c, x), k, d);
    FreeScaled(p, Without(c, x), k, x);
  }

  lemma SolvedFor(p: int, a: int, u: int, w: int, e: int)
    requires p > 1 && (a * u) % p == 1 && e % p == (((-u) % p) * w) % p
    ensures (a * e + w) % p == 0
  {
    MulModLeft(-u, w, p);
    assert e % p == ((-u) * w) % p;
    MulMod(a, e, p);
    MulMod(a, (-u) * w, p);
    assert a * ((-u) * w) == -((a * u) * w) by { assert a * u * w == a * (u * w); assert (-u) * w == -(u * w); }
    MulModLeft(a * u, w, p);
    SumCancels(p, a * e, (a * u) * w, w);
  }

  lemma SumCancels(p: int, x: int, y: int, w: int)
    requires p > 0 && x % p == (-y) % p && y % p == (1 * w) % p
    ensures (x + w) % p == 0
  {
    CongruentIff(x, -y, p);
    CongruentIff(y, w, p);
    SubMod(x + y, y - w, p);
  }

  lemma ScaledDegrees(p: int, s: seq<Term>, k: int, d: nat)
    requires p > 0
    ensures DegreesAtMost(d, s) ==> DegreesAtMost(d, Scaled(p, s, k))
  {
    if DegreesAtMost(d, s) {
      forall i | 0 <= i < |s|
        ensures Scaled(p, s, k)[i].Degree() <= d
      {
        assert s[i].Degree() <= d;
      }
    }
  }

  lemma LowListQuadratic(p: int, s: seq<Term>)
    requires p > 0 && DegreesAtMost(MAX_DEGREE, s)
    ensures QuadraticAtMost(p, s)
  {
    LowTermsQuadratic(p, s);
  }

  lemma WithoutQuadratic(p: int, c: seq<Term>, x: Var)
    requires p > 0 && DegreesAtMost(MAX_DEGREE, c)
    ensures QuadraticAtMost(p, Without(c, x))
  {
    hide Without;
    WithoutFacts(p, c, x, MAX_DEGREE);
    LowListQuadratic(p, Without(c, x));
  }

  lemma CoefOfHigh(s: seq<Term>, d: nat, m: seq<Var>)
    requires DegreesAtMost(d, s)
    ensures |m| > d ==> CoefOf(s, m) == 0
  {
    hide CoefOf;
    if |m| > d {
      forall t | t in s
        ensures Mono(t) != m
      {
        assert |Mono(t)| == |t.Vars()|;
      }
      CoefAbsent(s, m);
    }
  }

  /** Normalising does not raise the degree. */
  lemma DegreeNotRaised(p: int, n: seq<Term>, s: seq<Term>, d: nat)
    requires p > 0 && Normal(p, n) && SamePoly(p, n, s) && DegreesAtMost(d, s)
    ensures DegreesAtMost(d, n)
  {
    hide Normal, SamePoly, CoefOf;
    forall i | 0 <= i < |n|
      ensures n[i].Degree() <= d
    {
      CoefSurvives(p, n, s, i);
      CoefOfHigh(s, d, n[i].Vars());
    }
  }

  // ------------------------------------------------ when solving is correct

  lemma SolveLinear(p: int, a: int, x: int, w: int, e: int)
    requires IsPrime(p) && a % p != 0 && (a * e + w) % p == 0
    ensures (a * x + w) % p == 0 <==> x % p == e % p
  {
    CongruentIff(a * x + w, a * e + w, p);
    CongruentIff(x, e, p);
    assert (a * x + w) - (a * e + w) == a * (x - e);
    if (a * (x - e)) % p == 0 { NoZeroDivisors(a, x - e, p); }
    if (x - e) % p == 0 { MulMod(a, x - e, p); DivModUnique(0, 0, 0, p); }
  }

  /** With `x` in one linear term, the constraint says exactly that `x` equals the expression. */
  lemma ExpressSound(p: int, c: seq<Term>, x: Var, i: nat, e: seq<Term>, asg: Assignment)
    requires IsPrime(p) && LinearAt(c, x, i) && LastCoef(c, x) % p != 0
    requires Balances(p, c, x, e, asg)
    ensures Eval(c, asg) % p == 0 <==> asg(x) % p == Eval(e, asg) % p
  {
    EvalLinear(c, x, i, asg);
    SolveLinear(p, LastCoef(c, x), asg(x), Eval(Without(c, x), asg), Eval(e, asg));
  }

  predicate QuadraticOccurrence(c: seq<Term>, x: Var) {
    exists i :: 0 <= i < |c| && c[i].Degree() == 2 && c[i].ContainsVar(x)
  }

  lemma StrictDistinct(s: seq<Term>, i: nat, j: nat)
    requires StrictlySorted(s) && i < j < |s|
    ensures s[i].Vars() != s[j].Vars()
  {
    if i == 0 {
      assert s[j] in s[1..];
      StrictHead(s, s[j]);
      MonoIrreflexive(s[j].Vars());
    } else {
      StrictDistinct(s[1..], i - 1, j - 1);
    }
  }

  lemma NormalLinear(p: int, c: seq<Term>, x: Var) returns (i: nat)
    requires Normal(p, c) && MaxMultiplicity(c, x) == 1 && !QuadraticOccurrence(c, x)
    ensures LinearAt(c, x, i) && 0 < c[i].coeff < p && LastCoef(c, x) == c[i].coeff
  {
    MaxMultiplicityFree(c, x);
    i :| 0 <= i < |c| && c[i].ContainsVar(x);
    MaxMultiplicityBounds(c, x, i);
    OnceShape(c[i], x);
    assert Settled(p, c[i]) && c[i].Degree() == 1;
    forall j | 0 <= j < |c| && j != i
      ensures !c[j].ContainsVar(x)
    {
      if c[j].ContainsVar(x) {
        MaxMultiplicityBounds(c, x, j);
        OnceShape(c[j], x);
        if i < j { StrictDistinct(c, i, j); } else { StrictDistinct(c, j, i); }
      }
    }
    EvalLinear(c, x, i, _ => 0);
  }

  /** Two variables at given values, all others zero. */
  function Two(x: Var, vx: int, y: Var, vy: int): Assignment {
    if x < y then Probe(x, vx, y, vy) else Probe(y, vy, x, vx)
  }

  function Pair(x: Var, y: Var): seq<Var> { if x < y then [x, y] else [y, x] }

  lemma SquareMultiplicity(x: Var)
    ensures Multiplicity([x, x], x) == 2
  {
    assert [x, x][1..] == [x] && [x][1..] == [];
    assert Multiplicity([x], x) == 1;
  }

  lemma NoSquare(p: int, c: seq<Term>, x: Var)
    requires Normal(p, c) && MaxMultiplicity(c, x) == 1
    ensures CoefOf(c, [x, x]) == 0
  {
    hide CoefOf;
    forall t | t in c
      ensures Mono(t) != [x, x]
    {
      SettledMono(p, c, t);
      var j :| 0 <= j < |c| && c[j] == t;
      MaxMultiplicityBounds(c, x, j);
      SquareMultiplicity(x);
    }
    CoefAbsent(c, [x, x]);
  }

  /** On such assignments the value is linear in `x`. */
  lemma ValueOnTwo(p: int, c: seq<Term>, x: Var, vx: int, y: Var, vy: int)
    requires Normal(p, c) && MaxMultiplicity(c, x) == 1 && x != y
    ensures Eval(c, Two(x, vx, y, vy))
         == (CoefOf(c, []) + vy * CoefOf(c, [y]) + vy * vy * CoefOf(c, [y, y]))
            + vx * (CoefOf(c, [x]) + vy * CoefOf(c, Pair(x, y)))
  {
    NoSquare(p, c, x);
    if x < y { EvalOnProbe(p, c, x, vx, y, vy); } else { EvalOnProbe(p, c, y, vy, x, vx); }
    hide CoefOf, Normal, MaxMultiplicity, Probe, Eval;
    var cx, cxy := CoefOf(c, [x]), CoefOf(c, Pair(x, y));
    assert vx * (cx + vy * cxy) == vx * cx + vx * vy * cxy by { Expand(vx, cx, vy, cxy); }
    assert vx * vy == vy * vx;
  }

  lemma Expand(a: int, b: int, c: int, d: int)
    ensures a * (b + c * d) == a * b + a * c * d
  {
    assert a * c * d == a * (c * d);
  }

  /** The value of `y` that makes the factor of `x` vanish. */
  lemma CancelFactor(p: int, cx: int, cxy: int, u: int)
    requires p > 1 && (cxy * u) % p == 1
    ensures (cx + (-(cx * u)) * cxy) % p == 0
  {
    var k := cxy * u;
    assert (cx * u) * cxy == cx * k by { assert cx * (u * cxy) == (cx * u) * cxy; assert u * cxy == k; }
    assert cx + (-(cx * u)) * cxy == cx - cx * k by { assert (-(cx * u)) * cxy == -((cx * u) * cxy); }
    MulModLeft(k, cx, p);
    assert cx * k == k * cx;
    CongruentIff(cx, k * cx, p);
  }

  lemma DropMultiple(p: int, r: int, v: int, q: int)
    requires p > 0 && q % p == 0
    ensures (r + v * q) % p == r % p
  {
    MulMod(v, q, p);
    CongruentIff(r + v * q, r, p);
    DivModUnique(0, 0, 0, p);
  }

  lemma NextDiffers(p: int, e: int)
    requires p > 1
    ensures (e + 1) % p != e % p
  {
    CongruentIff(e + 1, e, p);
    DivModUnique(1, 0, 1, p);
  }

  /** A partner of `x` and a value for it that makes the factor of `x` vanish. */
  lemma VanishingFactor(p: int, c: seq<Term>, x: Var) returns (y: Var, vy: int)
    requires IsPrime(p) && Normal(p, c) && MaxMultiplicity(c, x) == 1 && QuadraticOccurrence(c, x)
    ensures y != x && (CoefOf(c, [x]) + vy * CoefOf(c, Pair(x, y))) % p == 0
  {
    hide CoefOf, Normal;
    var i :| 0 <= i < |c| && c[i].Degree() == 2 && c[i].ContainsVar(x);
    y := OtherVariable(p, c, x, i);
    var cx, cxy := CoefOf(c, [x]), CoefOf(c, Pair(x, y));
    DivModUnique(cxy, 0, cxy, p);
    var u := InverseExists(cxy % p, p);
    vy := -(cx * u);
    CancelFactor(p, cx, cxy, u);
  }

  /** If `x` is multiplied by another variable, no expression without `x` stands for the constraint. */
  lemma QuadraticNotSolvable(p: int, c: seq<Term>, x: Var, e: seq<Term>) returns (asg: Assignment)
    requires IsPrime(p) && Normal(p, c) && MaxMultiplicity(c, x) == 1 && Free(e, x) && QuadraticOccurrence(c, x)
    ensures (Eval(c, asg) % p == 0) != (asg(x) % p == Eval(e, asg) % p)
  {
    assert p >= 2;
    hide IsPrime, Normal, MaxMultiplicity, QuadraticOccurrence, Eval, CoefOf, Free;
    var y, vy := VanishingFactor(p, c, x);
    var zero := Two(x, 0, y, vy);
    var e0 := Eval(e, zero);
    var r := CoefOf(c, []) + vy * CoefOf(c, [y]) + vy * vy * CoefOf(c, [y, y]);
    var vx := if r % p == 0 then e0 + 1 else e0;
    asg := Two(x, vx, y, vy);
    ValueOnTwo(p, c, x, vx, y, vy);
    DropMultiple(p, r, vx, CoefOf(c, [x]) + vy * CoefOf(c, Pair(x, y)));
    assert asg(x) == vx && AgreeOff(x, asg, zero);
    EvalFree(e, x, asg, zero);
    NextDiffers(p, e0);
  }

  lemma OtherVariable(p: int, c: seq<Term>, x: Var, i: nat) returns (y: Var)
    requires Normal(p, c) && MaxMultiplicity(c, x) == 1 && i < |c| && c[i].Degree() == 2 && c[i].ContainsVar(x)
    ensures y != x && 0 < CoefOf(c, Pair(x, y)) < p
  {
    MaxMultiplicityBounds(c, x, i);
    OnceShape(c[i], x);
    StrictApart(c);
    CoefPresent(p, c, i);
    assert Settled(p, c[i]);
    y := if c[i].inner[0] == x then c[i].inner[1] else c[i].inner[0];
    assert c[i].Vars() == Pair(x, y);
  }

  /**
    The expression that solving returns stands for a normalised constraint exactly when `x` is in
    no quadratic term.
   */
  lemma ExpressExact(p: int, c: seq<Term>, x: Var, e: seq<Term>)
    requires IsPrime(p) && Normal(p, c) && MaxMultiplicity(c, x) == 1 && Free(e, x)
    requires forall asg: Assignment :: Balances(p, c, x, e, asg)
    ensures (forall asg: Assignment :: Eval(c, asg) % p == 0 <==> asg(x) % p == Eval(e, asg) % p)
       <==> !QuadraticOccurrence(c, x)
  {
    assert p >= 2;
    hide Normal, Eval, IsPrime, LastCoef, Without, MaxMultiplicity;
    if QuadraticOccurrence(c, x) {
      var asg := QuadraticNotSolvable(p, c, x, e);
      assert (Eval(c, asg) % p == 0) != (asg(x) % p == Eval(e, asg) % p);
    } else {
      var i := NormalLinear(p, c, x);
      DivModUnique(c[i].coeff, 0, c[i].coeff, p);
      forall asg: Assignment
        ensures Eval(c, asg) % p == 0 <==> asg(x) % p == Eval(e, asg) % p
      {
        ExpressSound(p, c, x, i, e, asg);
      }
    }
  }
}
