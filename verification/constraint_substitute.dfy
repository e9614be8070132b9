/**
  Substituting an expression for a variable.
 */
module ConstraintSubstitute {
  import opened ModArith
  import opened ConstraintTerms
  import opened ConstraintNormalize
  import opened ConstraintCanonical
  import opened ConstraintOps
  import opened ConstraintEliminate

  /** The assignment in which `x` has the value of the expression. */
  function Put(asg: Assignment, x: Var, e: seq<Term>): Assignment { With(asg, x, Eval(e, asg)) }

  function OtherVar(t: Term, x: Var): Var
    requires t.Degree() == 2
  {
    if t.inner[0] == x then t.inner[1] else t.inner[0]
  }

  /** The product by the other variable is defined, where there is one. */
  ghost predicate TermSubstitutable(p: int, t: Term, x: Var, e: seq<Term>)
    requires p > 0
  {
    t.ContainsVar(x) ==>
      t.Degree() == 1 || (t.Degree() == 2 && TermMulDefined(p, e, Expression(t.coeff, [OtherVar(t, x)])))
  }

  ghost predicate Substitutable(p: int, c: seq<Term>, x: Var, e: seq<Term>)
    requires p > 0
  {
    MaxMultiplicity(c, x) == 1 && forall i :: 0 <= i < |c| ==> TermSubstitutable(p, c[i], x, e)
  }

  /** What replaces one term with `x`. */
  ghost predicate Replaces(p: int, t: Term, x: Var, e: seq<Term>, r: seq<Term>)
    requires p > 0
  {
    && AllValid(p, r)
    && (DegreesAtMost(MAX_DEGREE, e) ==> DegreesAtMost(MAX_DEGREE, r))
    && (Free(e, x) ==> Free(r, x))
    && forall asg: Assignment :: Eval(r, asg) % p == TermValue(t, Put(asg, x, e)) % p
  }

  lemma LinearTermValue(t: Term, x: Var, e: seq<Term>, asg: Assignment)
    requires t.Expression? && t.inner == [x]
    ensures TermValue(t, Put(asg, x, e)) == t.coeff * Eval(e, asg)
  {
    assert [x][1..] == [];
    assert Product(Put(asg, x, e), [x]) == Eval(e, asg);
  }

  lemma ProductTermValue(t: Term, x: Var, e: seq<Term>, asg: Assignment)
    requires t.Degree() == 2 && t.inner == [t.inner[0], t.inner[1]] && (t.inner[0] == x) != (t.inner[1] == x)
    ensures TermValue(t, Put(asg, x, e)) == TermValue(Expression(t.coeff, [OtherVar(t, x)]), asg) * Eval(e, asg)
  {
    var y, v, put := OtherVar(t, x), Eval(e, asg), Put(asg, x, e);
    assert [y][1..] == [] && [t.inner[0], t.inner[1]][1..] == [t.inner[1]] && [t.inner[1]][1..] == [];
    assert Product(put, [t.inner[1]]) == put(t.inner[1]);
    assert Product(put, t.inner) == put(t.inner[0]) * put(t.inner[1]);
    assert Product(asg, [y]) == asg(y);
    assert put(x) == v && put(y) == asg(y);
    hide Eval, Product;
    assert v * asg(y) == asg(y) * v;
    assert t.coeff * (asg(y) * v) == t.coeff * asg(y) * v;
  }

  /** Replaces one term that holds `x` once. */
  method ReplaceTerm(p: int, t: Term, x: Var, e: seq<Term>) returns (r: Outcome<seq<Term>>)
    requires p > 0 && t.Valid(p) && AllValid(p, e) && t.ContainsVar(x) && Multiplicity(t.Vars(), x) <= 1
    ensures r.Done? <==> TermSubstitutable(p, t, x, e)
    ensures r.Done? ==> Replaces(p, t, x, e, r.value)
  {
    OnceShape(t, x);
    hide Eval, TermMulDefined, Normal, SamePoly, Scaled, Products, Multiplicity, TermValue;
    if t.Degree() == 1 {
      var out := Scaled(p, e, t.coeff);
      ScaledValid(p, e, t.coeff);
      ScaledDegrees(p, e, t.coeff, MAX_DEGREE);
      if Free(e, x) { FreeScaled(p, e, t.coeff, x); }
      forall asg: Assignment
        ensures Eval(out, asg) % p == TermValue(t, Put(asg, x, e)) % p
      {
        EvalScaled(p, e, t.coeff, asg);
        LinearTermValue(t, x, e, asg);
      }
      r := Done(out);
    } else if t.Degree() == 2 {
      var factor := Expression(t.coeff, [OtherVar(t, x)]);
      r := MulByTerm(p, e, factor);
      if r.Done? {
        NormalLow(p, r.value);
        if Free(e, x) {
          FreeProducts(p, e, factor, x);
          FreeNormal(p, r.value, Products(p, e, factor), x);
        }
        forall asg: Assignment
          ensures Eval(r.value, asg) % p == TermValue(t, Put(asg, x, e)) % p
        {
          SamePolySameValue(p, r.value, Products(p, e, factor), asg);
          EvalProducts(p, e, factor, asg);
          ProductTermValue(t, x, e, asg);
        }
      }
    } else {
      r := Panic;
    }
  }

  lemma NormalLow(p: int, s: seq<Term>)
    requires Normal(p, s)
    ensures AllValid(p, s) && DegreesAtMost(MAX_DEGREE, s)
  {
  }

  lemma FreeProducts(p: int, e: seq<Term>, t: Term, x: Var)
    requires p > 0 && Free(e, x) && !t.ContainsVar(x)
    ensures Free(Products(p, e, t), x)
  {
    forall i | 0 <= i < |e|
      ensures !Products(p, e, t)[i].ContainsVar(x)
    {
      assert !e[i].ContainsVar(x);
      TermProductShape(p, e[i], t);
    }
  }

  // ------------------------------------------------------------ whole constraint

  /** `kept` plus the replacements stand for the first terms after the substitution. */
  ghost predicate Progress(p: int, done: seq<Term>, x: Var, e: seq<Term>, kept: seq<Term>, extra: seq<seq<Term>>)
    requires p > 0
  {
    && AllValid(p, kept) && Free(kept, x)
    && (DegreesAtMost(MAX_DEGREE, done) ==> DegreesAtMost(MAX_DEGREE, kept))
    && (forall i :: 0 <= i < |extra| ==> AllValid(p, extra[i]))
    && (DegreesAtMost(MAX_DEGREE, e) ==> forall i :: 0 <= i < |extra| ==> DegreesAtMost(MAX_DEGREE, extra[i]))
    && (Free(e, x) ==> forall i :: 0 <= i < |extra| ==> Free(extra[i], x))
    && forall asg: Assignment :: (Eval(kept, asg) + Total(extra, asg)) % p == Eval(done, Put(asg, x, e)) % p
  }

  function Total(extra: seq<seq<Term>>, asg: Assignment): int {
    if extra == [] then 0 else Total(extra[..|extra| - 1], asg) + Eval(extra[|extra| - 1], asg)
  }

  lemma KeepStep(p: int, done: seq<Term>, t: Term, x: Var, e: seq<Term>, kept: seq<Term>, extra: seq<seq<Term>>)
    requires p > 0 && Progress(p, done, x, e, kept, extra) && t.Valid(p) && !t.ContainsVar(x)
    ensures Progress(p, done + [t], x, e, kept + [t], extra)
  {
    hide Eval, TermValue, Total;
    forall asg: Assignment
      ensures (Eval(kept + [t], asg) + Total(extra, asg)) % p == Eval(done + [t], Put(asg, x, e)) % p
    {
      EvalSnoc(kept, t, asg);
      EvalSnoc(done, t, Put(asg, x, e));
      TermFree(t, x, asg, Put(asg, x, e));
      ReplaceInSum(p, TermValue(t, asg), Eval(kept, asg) + Total(extra, asg), Eval(done, Put(asg, x, e)));
    }
    if DegreesAtMost(MAX_DEGREE, done + [t]) {
      assert (done + [t])[|done|] == t;
      assert forall i :: 0 <= i < |done| ==> (done + [t])[i] == done[i];
    }
  }

  lemma TermFree(t: Term, x: Var, asg: Assignment, other: Assignment)
    requires AgreeOff(x, asg, other) && !t.ContainsVar(x)
    ensures TermValue(t, asg) == TermValue(t, other)
  {
    ProductFree(x, asg, other, t.Vars());
  }

  lemma SumBoth(p: int, a: int, b: int, c: int, d: int, f: int)
    requires p > 0 && (a + b) % p == d % p && c % p == f % p
    ensures (a + (b + c)) % p == (d + f) % p
  {
    ReplaceInSum(p, c, a + b, d);
    ReplaceInSum(p, d, c, f);
    assert a + (b + c) == c + (a + b) && d + c == c + d;
  }

  lemma TotalSnoc(extra: seq<seq<Term>>, r: seq<Term>, asg: Assignment)
    ensures Total(extra + [r], asg) == Total(extra, asg) + Eval(r, asg)
  {
    assert (extra + [r])[..|extra|] == extra;
  }

  lemma DegreesPrefix(d: nat, s: seq<Term>, t: Term)
    ensures DegreesAtMost(d, s + [t]) ==> DegreesAtMost(d, s)
  {
    assert forall i :: 0 <= i < |s| ==> (s + [t])[i] == s[i];
  }

  lemma ReplaceStep(p: int, done: seq<Term>, t: Term, x: Var, e: seq<Term>, kept: seq<Term>, extra: seq<seq<Term>>, r: seq<Term>)
    requires p > 0 && Progress(p, done, x, e, kept, extra) && Replaces(p, t, x, e, r)
    ensures Progress(p, done + [t], x, e, kept, extra + [r])
  {
    hide Eval, TermValue, Total, Put, AllValid, Free;
    forall asg: Assignment
      ensures (Eval(kept, asg) + Total(extra + [r], asg)) % p == Eval(done + [t], Put(asg, x, e)) % p
    {
      TotalSnoc(extra, r, asg);
      EvalSnoc(done, t, Put(asg, x, e));
      SumBoth(p, Eval(kept, asg), Total(extra, asg), Eval(r, asg), Eval(done, Put(asg, x, e)), TermValue(t, Put(asg, x, e)));
    }
    DegreesPrefix(MAX_DEGREE, done, t);
    hide DegreesAtMost;
  }

  /** Walks over the terms, keeping those without `x` and replacing the others. */
  method ReplaceTerms(p: int, c: seq<Term>, x: Var, e: seq<Term>)
    returns (ok: bool, kept: seq<Term>, extra: seq<seq<Term>>)
    requires p > 0 && AllValid(p, c) && AllValid(p, e) && MaxMultiplicity(c, x) == 1
    ensures ok <==> Substitutable(p, c, x, e)
    ensures ok ==> Progress(p, c, x, e, kept, extra)
  {
    hide Progress, Replaces, TermSubstitutable;
    kept, extra := [], [];
    ProgressEmpty(p, x, e);
    for k := 0 to |c|
      invariant forall i :: 0 <= i < k ==> TermSubstitutable(p, c[i], x, e)
      invariant Progress(p, c[..k], x, e, kept, extra)
    {
      assert c[..k + 1] == c[..k] + [c[k]];
      if c[k].ContainsVar(x) {
        MaxMultiplicityBounds(c, x, k);
        var r := ReplaceTerm(p, c[k], x, e);
        if r.Panic? { return false, kept, extra; }
        ReplaceStep(p, c[..k], c[k], x, e, kept, extra, r.value);
        extra := extra + [r.value];
      } else {
        KeptSubstitutable(p, c[k], x, e);
        KeepStep(p, c[..k], c[k], x, e, kept, extra);
        kept := kept + [c[k]];
      }
    }
    assert c[..|c|] == c;
    ok := true;
  }

  lemma KeptSubstitutable(p: int, t: Term, x: Var, e: seq<Term>)
    requires p > 0 && !t.ContainsVar(x)
    ensures TermSubstitutable(p, t, x, e)
  {
  }

  lemma ProgressEmpty(p: int, x: Var, e: seq<Term>)
    requires p > 0
    ensures Progress(p, [], x, e, [], [])
  {
  }

  lemma SumStep(p: int, sum: seq<Term>, base: seq<Term>, extra: seq<seq<Term>>, k: nat, next: seq<Term>)
    requires p > 0 && k < |extra|
    requires forall asg: Assignment :: Eval(sum, asg) % p == (Eval(base, asg) + Total(extra[..k], asg)) % p
    requires forall asg: Assignment :: Eval(next, asg) % p == (Eval(sum, asg) + Eval(extra[k], asg)) % p
    ensures forall asg: Assignment :: Eval(next, asg) % p == (Eval(base, asg) + Total(extra[..k + 1], asg)) % p
  {
    hide Eval, Total;
    forall asg: Assignment
      ensures Eval(next, asg) % p == (Eval(base, asg) + Total(extra[..k + 1], asg)) % p
    {
      assert extra[..k + 1] == extra[..k] + [extra[k]];
      TotalSnoc(extra[..k], extra[k], asg);
      ReplaceInSum(p, Eval(extra[k], asg), Eval(sum, asg), Eval(base, asg) + Total(extra[..k], asg));
    }
  }

  /** Adds the replacements to the kept terms one after the other, normalising each time. */
  method AddAll(p: int, kept: seq<Term>, extra: seq<seq<Term>>, ghost x: Var) returns (r: Outcome<seq<Term>>)
    requires p > 0 && AllValid(p, kept) && forall i :: 0 <= i < |extra| ==> AllValid(p, extra[i])
    ensures r.Done? ==> AllValid(p, r.value)
    ensures r.Done? ==> forall asg: Assignment :: Eval(r.value, asg) % p == (Eval(kept, asg) + Total(extra, asg)) % p
    ensures r.Done? && Free(kept, x) && (forall i :: 0 <= i < |extra| ==> Free(extra[i], x)) ==> Free(r.value, x)
    ensures DegreesAtMost(MAX_DEGREE, kept) && (forall i :: 0 <= i < |extra| ==> DegreesAtMost(MAX_DEGREE, extra[i]))
      ==> r.Done? && DegreesAtMost(MAX_DEGREE, r.value)
  {
    hide Eval, Normal, SamePoly, QuadraticAtMost, AllValid, Free, DegreesAtMost;
    ghost var low := DegreesAtMost(MAX_DEGREE, kept) && forall i :: 0 <= i < |extra| ==> DegreesAtMost(MAX_DEGREE, extra[i]);
    ghost var free := Free(kept, x) && forall i :: 0 <= i < |extra| ==> Free(extra[i], x);
    var sum := kept;
    assert extra[..0] == [];
    for k := 0 to |extra|
      invariant AllValid(p, sum)
      invariant forall asg: Assignment :: Eval(sum, asg) % p == (Eval(kept, asg) + Total(extra[..k], asg)) % p
      invariant low ==> DegreesAtMost(MAX_DEGREE, sum)
      invariant free ==> Free(sum, x)
    {
      if low { ConcatQuadratic(p, sum, extra[k]); }
      var next := Add(p, sum, extra[k]);
      if next.Panic? { return Panic; }
      SumStep(p, sum, kept, extra, k, next.value);
      if free {
        FreeConcat(sum, extra[k], x);
        FreeNormal(p, next.value, sum + extra[k], x);
      }
      NormalLow(p, next.value);
      sum := next.value;
    }
    assert extra[..|extra|] == extra;
    r := Done(sum);
  }

  lemma ConcatQuadratic(p: int, s: seq<Term>, t: seq<Term>)
    requires p > 0 && DegreesAtMost(MAX_DEGREE, s) && DegreesAtMost(MAX_DEGREE, t)
    ensures QuadraticAtMost(p, s + t)
  {
    LowListQuadratic(p, s + t);
  }

  lemma FreeConcat(s: seq<Term>, t: seq<Term>, x: Var)
    requires Free(s, x) && Free(t, x)
    ensures Free(s + t, x)
  {
  }

  /**
    Substitutes `e` for `x`: the result is worth, on every assignment, what the constraint is worth
    with `x` set to the value of `e`; and `x` is gone if `e` does not mention it.
   */
  method SubstituteVariable(p: int, c: seq<Term>, x: Var, e: seq<Term>) returns (r: Outcome<seq<Term>>)
    requires p > 0 && AllValid(p, c) && AllValid(p, e)
    ensures r.Done? ==> Normal(p, r.value) && Substitutable(p, c, x, e)
    ensures r.Done? ==> forall asg: Assignment :: Eval(r.value, asg) % p == Eval(c, Put(asg, x, e)) % p
    ensures r.Done? && Free(e, x) ==> Free(r.value, x)
    ensures DegreesAtMost(MAX_DEGREE, c) && DegreesAtMost(MAX_DEGREE, e) ==> (r.Done? <==> Substitutable(p, c, x, e))
  {
    hide Eval, Normal, SamePoly, QuadraticAtMost, AllValid, Free, DegreesAtMost, MaxMultiplicity, TermSubstitutable, Put, Total;
    if MaxMultiplicity(c, x) != 1 { return Panic; }
    var ok, kept, extra := ReplaceTerms(p, c, x, e);
    if !ok { return Panic; }
    r := AddAll(p, kept, extra, x);
    if r.Done? {
      var sum := r.value;
      if DegreesAtMost(MAX_DEGREE, sum) { LowListQuadratic(p, sum); }
      r := Normalize(p, sum);
      if r.Done? {
        SamePolyAgrees(p, r.value, sum);
        if Free(sum, x) { FreeNormal(p, r.value, sum, x); }
      }
    }
  }

  // --------------------------------------------------- when it is defined

  /** For normalised arguments: multiplicity one, and a quadratic expression only for a variable that stands alone. */
  lemma SubstitutableExactly(p: int, c: seq<Term>, x: Var, e: seq<Term>)
    requires IsPrime(p) && Normal(p, c) && Normal(p, e)
    ensures Substitutable(p, c, x, e)
       <==> MaxMultiplicity(c, x) == 1 && (MaxDegree(e) <= 1 || !QuadraticOccurrence(c, x))
  {
    if MaxMultiplicity(c, x) == 1 {
      forall i | 0 <= i < |c| && c[i].ContainsVar(x)
        ensures TermSubstitutable(p, c[i], x, e) <==> c[i].Degree() == 1 || MaxDegree(e) <= 1
      {
        assert Settled(p, c[i]) && c[i].Degree() <= MAX_DEGREE && !c[i].IsZero();
        if c[i].Degree() == 2 {
          hide Normal, MaxMultiplicity;
          FactorDefined(p, e, c[i].coeff, OtherVar(c[i], x));
        }
      }
      hide TermSubstitutable, MaxDegree, Settled;
      if Substitutable(p, c, x, e) && QuadraticOccurrence(c, x) {
        var i :| 0 <= i < |c| && c[i].Degree() == 2 && c[i].ContainsVar(x);
        assert TermSubstitutable(p, c[i], x, e);
      }
      forall i | 0 <= i < |c| && !c[i].ContainsVar(x)
        ensures TermSubstitutable(p, c[i], x, e)
      {
        KeptSubstitutable(p, c[i], x, e);
      }
    }
  }

  lemma FactorDefined(p: int, e: seq<Term>, b: int, y: Var)
    requires IsPrime(p) && Normal(p, e) && 0 < b < p
    ensures TermMulDefined(p, e, Expression(b, [y])) <==> MaxDegree(e) <= 1
  {
    var t := Expression(b, [y]);
    if MaxDegree(e) <= 1 {
      hide MaxDegree;
      forall k | 0 <= k <= |e|
        ensures QuadraticAtMost(p, Products(p, e[..k], t))
      {
        ProductsQuadratic(p, e[..k], t);
      }
    } else {
      HeadDegree(p, e);
      NormalTail(p, e);
      assert Products(p, e[..1], t) == [TermProduct(p, e[0], t)];
      HighProductRefused(p, e[0], t);
      hide QuadraticAtMost, Products, Normal;
    }
  }
}
