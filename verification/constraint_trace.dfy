/**
  What a whole run of the elimination pass leaves of the variables it removed. A removed variable
  never comes back into a constraint or a definition, and it never goes away later either: it is gone
  from the last system exactly if no constraint squared it when it was removed.
 */
module EliminationTrace {
  import opened ModArith
  import opened ConstraintTerms
  import opened ConstraintNormalize
  import opened ConstraintCanonical
  import opened ConstraintEliminate
  import opened ConstraintSubstitute
  import opened EliminationPass

  // ---------------------------------------- values that do not depend on a variable

  /** The terms without a variable, from the front. */
  function Kept(c: seq<Term>, y: Var): seq<Term> {
    if c == [] then [] else (if c[0].ContainsVar(y) then [] else [c[0]]) + Kept(c[1..], y)
  }

  lemma {:induction false} KeptTerms(c: seq<Term>, y: Var)
    ensures forall t :: t in Kept(c, y) ==> t in c && !t.ContainsVar(y)
  {
    if c != [] {
      KeptTerms(c[1..], y);
      assert c == [c[0]] + c[1..];
    }
  }

  lemma {:induction false} KeptNormal(p: int, c: seq<Term>, y: Var)
    requires Normal(p, c)
    ensures Normal(p, Kept(c, y))
  {
    if c != [] {
      NormalTail(p, c);
      KeptNormal(p, c[1..], y);
      KeptTerms(c[1..], y);
      var k := Kept(c[1..], y);
      assert [] + k == k;
      if k != [] { StrictHead(c, k[0]); }
      hide Normal;
      NormalCons(p, c, k);
    }
  }

  /** A smaller term in front of a normal list. */
  lemma NormalCons(p: int, c: seq<Term>, k: seq<Term>)
    requires c != [] && Normal(p, c) && Normal(p, k) && (k == [] || MonoLess(c[0].Vars(), k[0].Vars()))
    ensures Normal(p, [c[0]] + k)
  {
    var s := [c[0]] + k;
    assert s[1..] == k;
    assert forall i :: 0 < i < |s| ==> s[i] == k[i - 1];
  }

  lemma {:induction false} ProductWithZero(vs: seq<Var>, y: Var, asg: Assignment)
    ensures Product(With(asg, y, 0), vs) == if y in vs then 0 else Product(asg, vs)
  {
    if vs != [] {
      ProductWithZero(vs[1..], y, asg);
      assert vs == [vs[0]] + vs[1..];
    }
  }

  lemma {:induction false} KeptValue(c: seq<Term>, y: Var, asg: Assignment)
    ensures Eval(Kept(c, y), asg) == Eval(c, With(asg, y, 0))
  {
    if c != [] {
      KeptValue(c[1..], y, asg);
      ProductWithZero(c[0].Vars(), y, asg);
      var k := Kept(c[1..], y);
      assert ([c[0]] + k)[1..] == k && [] + k == k;
    }
  }

  /** The value is the same whatever the variable is. */
  ghost predicate Steady(p: int, c: seq<Term>, y: Var)
    requires p > 0
  {
    forall asg: Assignment, v: int :: Eval(c, With(asg, y, v)) % p == Eval(c, asg) % p
  }

  /** Then a normal constraint does not mention it. */
  lemma SteadyFree(p: int, c: seq<Term>, y: Var)
    requires IsPrime(p) && p > 2 && Normal(p, c) && Steady(p, c, y)
    ensures Free(c, y)
  {
    KeptNormal(p, c, y);
    hide Normal, IsPrime;
    forall asg: Assignment
      ensures Eval(c, asg) % p == Eval(Kept(c, y), asg) % p
    {
      KeptValue(c, y, asg);
    }
    Canonical(p, c, Kept(c, y));
    KeptTerms(c, y);
  }

  // ------------------------------------------------------ the square of a variable

  /** The second difference of the value in one variable. */
  function Curve(c: seq<Term>, y: Var, asg: Assignment): int {
    Eval(c, With(asg, y, 1)) - 2 * Eval(c, With(asg, y, 0)) + Eval(c, With(asg, y, -1))
  }

  function TermCurve(t: Term, y: Var, asg: Assignment): int {
    TermValue(t, With(asg, y, 1)) - 2 * TermValue(t, With(asg, y, 0)) + TermValue(t, With(asg, y, -1))
  }

  lemma TermCurveIs(t: Term, y: Var, asg: Assignment)
    requires t.Degree() <= 2
    ensures TermCurve(t, y, asg) == if t.Vars() == [y, y] then 2 * t.Coef() else 0
  {
    var vs := t.Vars();
    if |vs| == 0 {
      assert vs == [];
    } else if |vs| == 1 {
      OneFactor(vs, With(asg, y, 1));
      OneFactor(vs, With(asg, y, 0));
      OneFactor(vs, With(asg, y, -1));
    } else {
      TwoFactors(vs, With(asg, y, 1));
      TwoFactors(vs, With(asg, y, 0));
      TwoFactors(vs, With(asg, y, -1));
    }
  }

  lemma OneFactor(vs: seq<Var>, asg: Assignment)
    requires |vs| == 1
    ensures Product(asg, vs) == asg(vs[0])
  {
    assert vs[1..] == [];
  }

  lemma TwoFactors(vs: seq<Var>, asg: Assignment)
    requires |vs| == 2
    ensures Product(asg, vs) == asg(vs[0]) * asg(vs[1])
  {
    OneFactor(vs[1..], asg);
  }

  /** It is twice the coefficient of the square. */
  lemma {:induction false} CurveIs(p: int, c: seq<Term>, y: Var, asg: Assignment)
    requires Normal(p, c)
    ensures Curve(c, y, asg) == 2 * CoefOf(c, [y, y])
  {
    if c != [] {
      NormalTail(p, c);
      assert c[0].Degree() <= 2;
      TermCurveIs(c[0], y, asg);
      hide Normal, TermValue, Mono;
      CurveIs(p, c[1..], y, asg);
    }
  }

  /** A normal constraint has the variable with power two exactly if that coefficient is there. */
  lemma SquaredExactly(p: int, c: seq<Term>, y: Var)
    requires p > 0 && Normal(p, c)
    ensures MaxMultiplicity(c, y) >= 2 <==> CoefOf(c, [y, y]) % p != 0
  {
    if MaxMultiplicity(c, y) >= 2 {
      var i := Attained(c, y);
      TwoVars(c[i].Vars(), y);
      StrictApart(c);
      CoefPresent(p, c, i);
      assert 0 < c[i].Coef() < p;
      DivModUnique(c[i].Coef(), 0, c[i].Coef(), p);
    } else {
      hide Normal, CoefOf, MaxMultiplicity;
      if MaxMultiplicity(c, y) == 1 {
        NoSquare(p, c, y);
      } else {
        MaxMultiplicityFree(c, y);
        CoefOfFree(c, y, [y, y]);
      }
      DivModUnique(0, 0, 0, p);
    }
  }

  lemma {:induction false} Attained(c: seq<Term>, y: Var) returns (i: nat)
    requires MaxMultiplicity(c, y) > 0
    ensures i < |c| && Multiplicity(c[i].Vars(), y) == MaxMultiplicity(c, y)
  {
    var n := |c| - 1;
    if Multiplicity(c[n].Vars(), y) == MaxMultiplicity(c, y) { i := n; } else { i := Attained(c[..n], y); }
  }

  lemma TwoVars(vs: seq<Var>, y: Var)
    requires |vs| <= 2 && Multiplicity(vs, y) >= 2
    ensures vs == [y, y]
  {
    assert |vs| > 0 && |vs[1..]| > 0 && vs[1..][1..] == [];
  }

  // ----------------------------------------------------------------- one round

  /** Substituting an expression without y commutes with giving y a value. */
  lemma PutWith(p: int, c: seq<Term>, x: Var, e: seq<Term>, y: Var, v: int, asg: Assignment)
    requires p > 0 && x != y && Free(e, y)
    ensures Eval(c, Put(With(asg, y, v), x, e)) % p == Eval(c, With(Put(asg, x, e), y, v)) % p
  {
    hide Eval, Free;
    EvalFree(e, y, With(asg, y, v), asg);
    EvalCongruent(p, Put(With(asg, y, v), x, e), With(Put(asg, x, e), y, v), c);
  }

  lemma SteadyRewritten(p: int, s: Entry, x: Var, e: seq<Term>, o: Entry, y: Var)
    requires p > 0 && EntryRewritten(p, s, x, e, o) && MaxMultiplicity(s.terms, x) == 1
    requires x != y && Free(e, y) && Free(s.terms, y)
    ensures Steady(p, o.terms, y)
  {
    hide Eval, Free, Normal, MaxMultiplicity, Put;
    forall asg: Assignment, v: int
      ensures Eval(o.terms, With(asg, y, v)) % p == Eval(o.terms, asg) % p
    {
      PutWith(p, s.terms, x, e, y, v, asg);
      EvalFree(s.terms, y, With(Put(asg, x, e), y, v), Put(asg, x, e));
    }
  }

  lemma CurvesAgree(p: int, a1: int, a0: int, a2: int, b1: int, b0: int, b2: int)
    requires p > 0 && a1 % p == b1 % p && a0 % p == b0 % p && a2 % p == b2 % p
    ensures (a1 - 2 * a0 + a2) % p == (b1 - 2 * b0 + b2) % p
  {
    NegativesAgree(p, a0, b0);
    ReplaceInSum(p, a1 - 2 * a0, a2, b2);
    ReplaceInSum(p, b2 - 2 * a0, a1, b1);
    ReplaceInSum(p, b1 + b2 - a0, -a0, -b0);
    ReplaceInSum(p, b1 + b2 - b0, -a0, -b0);
  }

  lemma NegativesAgree(p: int, a: int, b: int)
    requires p > 0 && a % p == b % p
    ensures (-a) % p == (-b) % p
  {
    SubMod(0, a, p);
    SubMod(0, b, p);
  }

  lemma CurveRewritten(p: int, s: Entry, x: Var, e: seq<Term>, o: Entry, y: Var, asg: Assignment)
    requires p > 0 && EntryRewritten(p, s, x, e, o) && MaxMultiplicity(s.terms, x) == 1 && x != y && Free(e, y)
    ensures Curve(o.terms, y, asg) % p == Curve(s.terms, y, Put(asg, x, e)) % p
  {
    hide Eval, Free, Normal, MaxMultiplicity, Put;
    PutWith(p, s.terms, x, e, y, 1, asg);
    PutWith(p, s.terms, x, e, y, 0, asg);
    PutWith(p, s.terms, x, e, y, -1, asg);
    var a, b := o.terms, s.terms;
    var put := Put(asg, x, e);
    CurvesAgree(p, Eval(a, With(asg, y, 1)), Eval(a, With(asg, y, 0)), Eval(a, With(asg, y, -1)),
                Eval(b, With(put, y, 1)), Eval(b, With(put, y, 0)), Eval(b, With(put, y, -1)));
  }

  /** Another variable keeps its absence and keeps its square. */
  lemma EntryKeeps(p: int, s: Entry, x: Var, e: seq<Term>, o: Entry, y: Var)
    requires IsPrime(p) && p > 2 && EntryRewritten(p, s, x, e, o) && Normal(p, s.terms) && x != y && Free(e, y)
    ensures MaxMultiplicity(s.terms, y) == 0 ==> MaxMultiplicity(o.terms, y) == 0
    ensures MaxMultiplicity(s.terms, y) >= 2 ==> MaxMultiplicity(o.terms, y) >= 2
  {
    if MaxMultiplicity(s.terms, x) == 1 {
      assert Normal(p, o.terms);
      hide IsPrime, Normal, Free, MaxMultiplicity, EntryRewritten, CoefOf, Steady, Curve;
      MaxMultiplicityFree(s.terms, y);
      MaxMultiplicityFree(o.terms, y);
      if MaxMultiplicity(s.terms, y) == 0 {
        SteadyRewritten(p, s, x, e, o, y);
        SteadyFree(p, o.terms, y);
      }
      if MaxMultiplicity(s.terms, y) >= 2 {
        SquareKept(p, s, x, e, o, y);
      }
    }
  }

  lemma SquareKept(p: int, s: Entry, x: Var, e: seq<Term>, o: Entry, y: Var)
    requires IsPrime(p) && p > 2 && EntryRewritten(p, s, x, e, o) && Normal(p, s.terms) && Normal(p, o.terms) && x != y && Free(e, y)
    requires MaxMultiplicity(s.terms, x) == 1 && MaxMultiplicity(s.terms, y) >= 2
    ensures MaxMultiplicity(o.terms, y) >= 2
  {
    hide IsPrime, Normal, Free, MaxMultiplicity, EntryRewritten, CoefOf, Curve, Put;
    var asg: Assignment := (z: Var) => 0;
    CurveRewritten(p, s, x, e, o, y, asg);
    CurveIs(p, o.terms, y, asg);
    CurveIs(p, s.terms, y, Put(asg, x, e));
    SquaredExactly(p, s.terms, y);
    SquaredExactly(p, o.terms, y);
    HalfOrWhole(p, CoefOf(o.terms, [y, y]), CoefOf(s.terms, [y, y]));
  }

  lemma HalfOrWhole(p: int, a: int, b: int)
    requires IsPrime(p) && p > 2 && (2 * a) % p == (2 * b) % p
    ensures a % p == b % p
  {
    CongruentIff(2 * a, 2 * b, p);
    assert 2 * a - 2 * b == 2 * (a - b);
    HalfVanishes(p, a - b);
    CongruentIff(a, b, p);
  }

  /** The definition that a constraint gives mentions only what the constraint mentions. */
  lemma DefinitionFree(p: int, c: seq<Term>, x: Var, e: seq<Term>, y: Var)
    requires IsPrime(p) && p > 2 && Definition(p, c, x, e) && x != y && Free(c, y)
    ensures Free(e, y)
  {
    assert Normal(p, e);
    assert Steady(p, e, y) by {
      forall asg: Assignment, v: int
        ensures Eval(e, With(asg, y, v)) % p == Eval(e, asg) % p
      {
        DefinitionSteady(p, c, x, e, y, asg, v);
      }
    }
    SteadyFree(p, e, y);
  }

  lemma DefinitionSteady(p: int, c: seq<Term>, x: Var, e: seq<Term>, y: Var, asg: Assignment, v: int)
    requires p > 0 && Definition(p, c, x, e) && x != y && Free(c, y)
    ensures Eval(e, With(asg, y, v)) % p == Eval(e, asg) % p
  {
    hide Eval, Free, Normal, DegreesAtMost;
    var a := Put(asg, x, e);
    EvalFree(e, x, a, asg);
    assert Eval(c, a) % p == 0;
    var b := With(a, y, v);
    EvalFree(c, y, b, a);
    assert b(x) % p == Eval(e, b) % p;
    EvalFree(e, x, b, With(asg, y, v));
  }

  /** The variable is absent from every constraint or squared in it. */
  predicate AbsentOrSquared(sys: seq<Entry>, y: Var) { forall i :: 0 <= i < |sys| ==> MaxMultiplicity(sys[i].terms, y) != 1 }

  lemma RoundNormal(p: int, sys: seq<Entry>, x: Var, e: seq<Term>, out: seq<Entry>)
    requires p > 0 && Round(p, sys, x, e, out) && AllNormal(p, sys)
    ensures AllNormal(p, out)
  {
    hide Normal, MaxMultiplicity, Free, Eval, Definition, LastDefinition;
    var d: nat :| RoundAt(p, sys, x, d, e, out);
    forall k | 0 <= k < |out|
      ensures Normal(p, out[k].terms)
    {
      var i := if k < d then k else k + 1;
      assert EntryRewritten(p, sys[i], x, e, out[Shifted(d, i)]);
    }
  }

  /** After its removal a variable is in no constraint, or squared. */
  lemma RoundSettles(p: int, sys: seq<Entry>, x: Var, e: seq<Term>, out: seq<Entry>)
    requires p > 0 && Round(p, sys, x, e, out)
    ensures AbsentOrSquared(out, x) && (Gone(out, x) <==> SquareFree(sys, x))
  {
    hide Normal, MaxMultiplicity, Free, Eval, Definition, LastDefinition;
    var d: nat :| RoundAt(p, sys, x, d, e, out);
    GoneExactly(p, sys, x, d, e, out);
    forall k | 0 <= k < |out|
      ensures MaxMultiplicity(out[k].terms, x) != 1
    {
      var i := if k < d then k else k + 1;
      assert EntryRewritten(p, sys[i], x, e, out[Shifted(d, i)]);
      MaxMultiplicityFree(out[k].terms, x);
    }
  }

  /** And it stays so: it is not removed again, does not come back and does not go away. */
  lemma RoundKeeps(p: int, sys: seq<Entry>, x: Var, e: seq<Term>, out: seq<Entry>, y: Var)
    requires IsPrime(p) && p > 2 && Round(p, sys, x, e, out) && AllNormal(p, sys) && AbsentOrSquared(sys, y)
    ensures x != y && Free(e, y) && AbsentOrSquared(out, y) && (Gone(out, y) <==> Gone(sys, y))
  {
    var d: nat :| RoundAt(p, sys, x, d, e, out);
    hide Normal, MaxMultiplicity, Free, Eval, Definition, EntryRewritten, IsPrime, MaxDegree;
    assert x != y;
    assert Free(sys[d].terms, y) by { LinearAbsent(sys[d], x, y); }
    DefinitionFree(p, sys[d].terms, x, e, y);
    forall i | 0 <= i < |sys| && i != d
      ensures MaxMultiplicity(out[Shifted(d, i)].terms, y) != 1
      ensures Free(out[Shifted(d, i)].terms, y) <==> Free(sys[i].terms, y)
    {
      EntryKeeps(p, sys[i], x, e, out[Shifted(d, i)], y);
      MaxMultiplicityFree(sys[i].terms, y);
      MaxMultiplicityFree(out[Shifted(d, i)].terms, y);
    }
    ShiftedCovers(sys, out, d, y);
  }

  lemma LinearAbsent(s: Entry, x: Var, y: Var)
    requires Defines(s, x) && MaxMultiplicity(s.terms, y) != 1
    ensures Free(s.terms, y)
  {
    LinearMaxMultiplicity(s.terms, y);
    MaxMultiplicityFree(s.terms, y);
  }

  lemma ShiftedCovers(sys: seq<Entry>, out: seq<Entry>, d: nat, y: Var)
    requires d < |sys| && |out| == |sys| - 1 && Free(sys[d].terms, y)
    requires forall i :: 0 <= i < |sys| && i != d ==>
                           && MaxMultiplicity(out[Shifted(d, i)].terms, y) != 1
                           && (Free(out[Shifted(d, i)].terms, y) <==> Free(sys[i].terms, y))
    ensures AbsentOrSquared(out, y) && (Gone(out, y) <==> Gone(sys, y))
  {
    hide MaxMultiplicity, Free;
    forall k | 0 <= k < |out|
      ensures var i := if k < d then k else k + 1;
        MaxMultiplicity(out[k].terms, y) != 1 && (Free(out[k].terms, y) <==> Free(sys[i].terms, y))
    {
      var i := if k < d then k else k + 1;
      assert Shifted(d, i) == k;
    }
    if Gone(out, y) {
      forall i | 0 <= i < |sys|
        ensures Free(sys[i].terms, y)
      {
        if i != d { assert Free(out[Shifted(d, i)].terms, y); }
      }
    }
  }

  // --------------------------------------------------------------- whole runs

  lemma {:induction false} TraceNormal(p: int, steps: seq<seq<Entry>>, log: Log)
    requires p > 0 && Trace(p, steps, log) && AllNormal(p, steps[0])
    ensures AllNormal(p, steps[|log|])
  {
    hide Round, AllNormal;
    if log != [] {
      var n := |log| - 1;
      TracePrefix(p, steps, log);
      TraceNormal(p, steps[..|log|], log[..n]);
      RoundNormal(p, steps[n], log[n].0, log[n].1, steps[n + 1]);
    }
  }

  /**
    For every run and every variable it removes: the variable is not removed again, no later
    definition mentions it, and it is gone from the last system exactly if it was square-free when it
    was removed.
   */
  lemma {:induction false} TraceSettled(p: int, steps: seq<seq<Entry>>, log: Log, k: nat)
    requires IsPrime(p) && p > 2 && Trace(p, steps, log) && AllNormal(p, steps[0]) && k < |log|
    ensures AbsentOrSquared(steps[|log|], log[k].0)
    ensures Gone(steps[|log|], log[k].0) <==> SquareFree(steps[k], log[k].0)
    ensures forall j :: k < j < |log| ==> log[j].0 != log[k].0 && Free(log[j].1, log[k].0)
  {
    hide Round, AllNormal, IsPrime, Gone, SquareFree, AbsentOrSquared, Free;
    var n := |log| - 1;
    TracePrefix(p, steps, log);
    if k == n {
      RoundSettles(p, steps[n], log[n].0, log[n].1, steps[n + 1]);
    } else {
      TraceNormal(p, steps[..|log|], log[..n]);
      TraceSettled(p, steps[..|log|], log[..n], k);
      RoundKeeps(p, steps[n], log[n].0, log[n].1, steps[n + 1], log[k].0);
      forall j | k < j < |log|
        ensures log[j].0 != log[k].0 && Free(log[j].1, log[k].0)
      {
        if j < n { assert log[..n][j] == log[j]; }
      }
    }
  }

  /** No removed variable remains exactly if none was squared at its removal. */
  lemma TraceGoneExactly(p: int, steps: seq<seq<Entry>>, log: Log)
    requires IsPrime(p) && p > 2 && Trace(p, steps, log) && AllNormal(p, steps[0])
    ensures (forall k :: 0 <= k < |log| ==> Gone(steps[|log|], log[k].0))
       <==> (forall k :: 0 <= k < |log| ==> SquareFree(steps[k], log[k].0))
  {
    hide Trace, AllNormal, IsPrime, Gone, SquareFree, AbsentOrSquared, Free;
    assert |steps| == |log| + 1 by { TraceLength(p, steps, log); }
    forall k | 0 <= k < |log|
      ensures Gone(steps[|log|], log[k].0) <==> SquareFree(steps[k], log[k].0)
    {
      TraceSettled(p, steps, log, k);
    }
  }

  lemma TraceLength(p: int, steps: seq<seq<Entry>>, log: Log)
    requires p > 0 && Trace(p, steps, log)
    ensures |steps| == |log| + 1
  {
  }

  /**
    So the last system tells: if it mentions no removed variable, every solution of it becomes one of
    the given system by computing the removed variables back.
   */
  lemma LastSystemRecovers(p: int, steps: seq<seq<Entry>>, log: Log, asg: Assignment)
    requires IsPrime(p) && p > 2 && Trace(p, steps, log) && AllNormal(p, steps[0]) && Solves(p, steps[|log|], asg)
    requires forall k :: 0 <= k < |log| ==> Gone(steps[|log|], log[k].0)
    ensures Solves(p, steps[0], Replay(log, asg))
  {
    hide AllNormal, IsPrime, Gone, SquareFree, Solves, Round;
    TraceGoneExactly(p, steps, log);
    TraceRecovers(p, steps, log, asg);
  }

  // ------------------------------------------------------ protected constraints

  /** How many constraints are protected from optimisation. */
  ghost function ProtectedCount(sys: seq<Entry>): nat { multiset(Flags(sys))[true] }

  ghost function Flags(sys: seq<Entry>): seq<bool> { seq(|sys|, i requires 0 <= i < |sys| => sys[i].keep) }

  /** A round drops an unprotected linear constraint and keeps every flag. */
  lemma RoundProtects(p: int, sys: seq<Entry>, x: Var, e: seq<Term>, out: seq<Entry>)
    requires p > 0 && Round(p, sys, x, e, out)
    ensures exists d :: 0 <= d < |sys| && !sys[d].keep && MaxDegree(sys[d].terms) <= 1 && Flags(out) == Flags(sys)[..d] + Flags(sys)[d + 1..]
    ensures ProtectedCount(out) == ProtectedCount(sys)
  {
    var d: nat :| RoundAt(p, sys, x, d, e, out);
    assert d < |sys| == |out| + 1 && !sys[d].keep && MaxDegree(sys[d].terms) <= 1;
    forall k | 0 <= k < |out|
      ensures out[k].keep == sys[if k < d then k else k + 1].keep
    {
      hide Round, Definition, LastDefinition, EntryRewritten;
      var i := if k < d then k else k + 1;
      assert Shifted(d, i) == k && EntryRewritten(p, sys[i], x, e, out[Shifted(d, i)]);
      FlagKept(p, sys[i], x, e, out[k]);
    }
    hide Round, RoundAt;
    FlagsCut(sys, out, d);
  }

  lemma FlagKept(p: int, s: Entry, x: Var, e: seq<Term>, o: Entry)
    requires p > 0 && EntryRewritten(p, s, x, e, o)
    ensures o.keep == s.keep
  {
    hide Eval, Normal, Free, MaxMultiplicity;
  }

  lemma FlagsCut(sys: seq<Entry>, out: seq<Entry>, d: nat)
    requires d < |sys| == |out| + 1 && !sys[d].keep
    requires forall k :: 0 <= k < |out| ==> out[k].keep == sys[if k < d then k else k + 1].keep
    ensures Flags(out) == Flags(sys)[..d] + Flags(sys)[d + 1..] && ProtectedCount(out) == ProtectedCount(sys)
  {
    var f := Flags(sys);
    assert Flags(out) == f[..d] + f[d + 1..];
    hide Flags;
    assert f == f[..d] + [f[d]] + f[d + 1..];
  }

  /** No run loses a protected constraint. */
  lemma {:induction false} TraceProtects(p: int, steps: seq<seq<Entry>>, log: Log)
    requires p > 0 && Trace(p, steps, log)
    ensures ProtectedCount(steps[|log|]) == ProtectedCount(steps[0]) && |steps[|log|]| == |steps[0]| - |log|
  {
    hide Round, ProtectedCount;
    if log != [] {
      var n := |log| - 1;
      TracePrefix(p, steps, log);
      TraceProtects(p, steps[..|log|], log[..n]);
      RoundProtects(p, steps[n], log[n].0, log[n].1, steps[n + 1]);
      RoundLength(p, steps[n], log[n].0, log[n].1, steps[n + 1]);
    }
  }

  lemma RoundLength(p: int, sys: seq<Entry>, x: Var, e: seq<Term>, out: seq<Entry>)
    requires p > 0 && Round(p, sys, x, e, out)
    ensures |out| == |sys| - 1
  {
  }
}
