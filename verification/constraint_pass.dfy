/**
  The layout compiler's pass that removes variables defined by a linear constraint: the
  definition is dropped and substituted into every constraint where the variable has power one.
 */
module EliminationPass {
  import opened ModArith
  import opened ConstraintTerms
  import opened ConstraintNormalize
  import opened ConstraintCanonical
  import opened ConstraintOps
  import opened ConstraintEliminate
  import opened ConstraintSubstitute

  /** A stored constraint; `keep` is the flag that prevents optimisations. */
  datatype Entry = Entry(terms: seq<Term>, keep: bool)

  ghost predicate Solves(p: int, sys: seq<Entry>, asg: Assignment)
    requires p > 0
  {
    forall i :: 0 <= i < |sys| ==> Eval(sys[i].terms, asg) % p == 0
  }

  predicate AllNormal(p: int, sys: seq<Entry>) { forall i :: 0 <= i < |sys| ==> Normal(p, sys[i].terms) }

  predicate Defines(s: Entry, x: Var) { !s.keep && MaxDegree(s.terms) <= 1 && MaxMultiplicity(s.terms, x) != 0 }

  // ------------------------------------------------------------- one removal

  /** What becomes of an entry other than the defining one. */
  ghost predicate EntryRewritten(p: int, s: Entry, x: Var, e: seq<Term>, o: Entry)
    requires p > 0
  {
    if MaxMultiplicity(s.terms, x) == 1 then
      && o.keep == s.keep && Normal(p, o.terms) && Free(o.terms, x)
      && forall asg: Assignment :: Eval(o.terms, asg) % p == Eval(s.terms, Put(asg, x, e)) % p
    else o == s
  }

  function Shifted(d: nat, i: nat): int { if i < d then i else i - 1 }

  ghost predicate Rewritten(p: int, sys: seq<Entry>, x: Var, d: nat, e: seq<Term>, out: seq<Entry>)
    requires p > 0
  {
    && d < |sys| && |out| == |sys| - 1
    && forall i :: 0 <= i < |sys| && i != d ==> EntryRewritten(p, sys[i], x, e, out[Shifted(d, i)])
  }

  /** The expression is what the defining constraint says of `x`. */
  ghost predicate Definition(p: int, c: seq<Term>, x: Var, e: seq<Term>)
    requires p > 0
  {
    && Normal(p, e) && Free(e, x) && DegreesAtMost(1, e)
    && forall asg: Assignment :: Eval(c, asg) % p == 0 <==> asg(x) % p == Eval(e, asg) % p
  }

  lemma LinearMultiplicity(t: Term, x: Var)
    requires t.Degree() <= 1
    ensures Multiplicity(t.Vars(), x) <= 1
  {
    if t.Degree() == 1 { assert t.Vars()[1..] == []; }
  }

  lemma {:induction false} LinearMaxMultiplicity(c: seq<Term>, x: Var)
    requires DegreesAtMost(1, c)
    ensures MaxMultiplicity(c, x) <= 1
  {
    if c != [] {
      LinearMultiplicity(c[|c| - 1], x);
      LinearMaxMultiplicity(c[..|c| - 1], x);
    }
  }

  /** Solving a defining constraint never panics and gives its definition of `x`. */
  method SolveDefinition(p: int, c: seq<Term>, x: Var) returns (e: seq<Term>)
    requires IsPrime(p) && Normal(p, c) && MaxDegree(c) <= 1 && MaxMultiplicity(c, x) != 0
    ensures Definition(p, c, x, e)
  {
    NormalLow(p, c);
    WithoutQuadratic(p, c, x);
    LinearMaxMultiplicity(c, x);
    var i := NormalLinear(p, c, x);
    DivModUnique(c[i].coeff, 0, c[i].coeff, p);
    assert p >= 2 && DegreesAtMost(1, c) && !QuadraticOccurrence(c, x) && LastCoef(c, x) % p != 0;
    hide IsPrime, Normal, MaxMultiplicity, LastCoef, Without, Eval, LinearAt, Free, QuadraticAtMost, DegreesAtMost, SamePoly;
    hide QuadraticOccurrence, MaxDegree, Balances;
    var r := ExpressVariable(p, c, x);
    ExpressExact(p, c, x, r.value);
    NormalDefined(p, r.value);
    var again := Normalize(p, r.value);
    NormalFormUnique(p, r.value, again.value);
    e := again.value;
  }

  /** Substituting a linear definition never panics. */
  method SubstituteDefinition(p: int, s: Entry, x: Var, e: seq<Term>) returns (o: Entry)
    requires IsPrime(p) && Normal(p, s.terms) && Normal(p, e) && Free(e, x) && DegreesAtMost(1, e)
    requires MaxMultiplicity(s.terms, x) == 1
    ensures EntryRewritten(p, s, x, e, o) && MaxDegree(o.terms) <= MAX_DEGREE
  {
    NormalLow(p, s.terms);
    NormalLow(p, e);
    SubstitutableExactly(p, s.terms, x, e);
    hide IsPrime, Normal, MaxMultiplicity, Eval, Free, Put, Substitutable;
    var r := SubstituteVariable(p, s.terms, x, e);
    NormalLow(p, r.value);
    o := s.(terms := r.value);
  }

  lemma {:induction false} ProductCongruent(p: int, a: Assignment, b: Assignment, vs: seq<Var>)
    requires p > 0 && forall y :: a(y) % p == b(y) % p
    ensures Product(a, vs) % p == Product(b, vs) % p
  {
    if vs != [] {
      ProductCongruent(p, a, b, vs[1..]);
      MulMod(a(vs[0]), Product(a, vs[1..]), p);
      MulMod(b(vs[0]), Product(b, vs[1..]), p);
    }
  }

  /** Only residues matter to a constraint. */
  lemma {:induction false} EvalCongruent(p: int, a: Assignment, b: Assignment, s: seq<Term>)
    requires p > 0 && forall y :: a(y) % p == b(y) % p
    ensures Eval(s, a) % p == Eval(s, b) % p
  {
    if s != [] {
      EvalCongruent(p, a, b, s[1..]);
      ProductCongruent(p, a, b, s[0].Vars());
      var c, x, y := s[0].Coef(), Product(a, s[0].Vars()), Product(b, s[0].Vars());
      var u, v := Eval(s[1..], a), Eval(s[1..], b);
      hide Product;
      ScaleCongruent(p, c, x, y);
      SumBoth(p, c * x, 0, u, c * y, v);
    }
  }

  lemma ScaleCongruent(p: int, c: int, x: int, y: int)
    requires p > 0 && x % p == y % p
    ensures (c * x) % p == (c * y) % p
  {
    MulMod(c, x, p);
    MulMod(c, y, p);
  }

  lemma EntryAgrees(p: int, s: Entry, x: Var, e: seq<Term>, o: Entry, asg: Assignment)
    requires p > 0 && EntryRewritten(p, s, x, e, o) && asg(x) % p == Eval(e, asg) % p
    ensures Eval(o.terms, asg) % p == Eval(s.terms, asg) % p
  {
    hide Eval, MaxMultiplicity, Normal, Free;
    PutAgrees(p, s.terms, x, e, asg);
  }

  /** Where `x` has the value of `e`, substituting `e` changes nothing. */
  lemma PutAgrees(p: int, c: seq<Term>, x: Var, e: seq<Term>, asg: Assignment)
    requires p > 0 && asg(x) % p == Eval(e, asg) % p
    ensures Eval(c, Put(asg, x, e)) % p == Eval(c, asg) % p
  {
    hide Eval;
    var put := Put(asg, x, e);
    assert forall y :: put(y) % p == asg(y) % p;
    EvalCongruent(p, put, asg, c);
  }

  /**
    Solving one constraint, which may have quadratic terms in other variables, and substituting into
    another: the two say together exactly that `x` equals the expression and that the rewritten
    constraint, which no longer mentions `x`, holds.
   */
  method EliminateFrom(p: int, c1: seq<Term>, c2: seq<Term>, x: Var, ghost i: nat)
    returns (e: Outcome<seq<Term>>, r: Outcome<seq<Term>>)
    requires IsPrime(p) && AllValid(p, c1) && AllValid(p, c2) && LinearAt(c1, x, i)
    ensures e.Done? && r.Done? ==> Free(e.value, x) && Free(r.value, x) && Normal(p, r.value)
    ensures e.Done? && r.Done? ==> forall asg: Assignment ::
              Eval(c1, asg) % p == 0 && Eval(c2, asg) % p == 0
              <==> asg(x) % p == Eval(e.value, asg) % p && Eval(r.value, asg) % p == 0
    ensures e.Done? <==> c1[i].coeff % p != 0 && QuadraticAtMost(p, Without(c1, x))
    ensures DegreesAtMost(MAX_DEGREE, c2) && e.Done? ==> (r.Done? <==> Substitutable(p, c2, x, e.value))
  {
    assert p >= 2;
    hide Eval, Normal, Substitutable, MaxMultiplicity, IsPrime, QuadraticAtMost, Without, LastCoef, DegreesAtMost, Free, Balances;
    var any: Assignment := _ => 0;
    EvalLinear(c1, x, i, any);
    LinearOnce(c1, x, i);
    e := ExpressVariable(p, c1, x);
    r := Panic;
    if e.Done? {
      NormalLow(p, e.value);
      r := SubstituteVariable(p, c2, x, e.value);
      if r.Done? {
        forall asg: Assignment
          ensures Eval(c1, asg) % p == 0 && Eval(c2, asg) % p == 0
             <==> asg(x) % p == Eval(e.value, asg) % p && Eval(r.value, asg) % p == 0
        {
          ExpressSound(p, c1, x, i, e.value, asg);
          if asg(x) % p == Eval(e.value, asg) % p { PutAgrees(p, c2, x, e.value, asg); }
        }
      }
    }
  }

  lemma LinearOnce(c: seq<Term>, x: Var, i: nat)
    requires LinearAt(c, x, i)
    ensures MaxMultiplicity(c, x) == 1
  {
    MaxMultiplicityBounds(c, x, i);
    assert Multiplicity([x], x) == 1;
    LinearAtMost(c, x, i);
  }

  lemma {:induction false} LinearAtMost(c: seq<Term>, x: Var, i: nat)
    requires i < |c| ==> LinearAt(c, x, i)
    requires i >= |c| ==> Free(c, x)
    ensures MaxMultiplicity(c, x) <= 1
  {
    if c != [] {
      var n := |c| - 1;
      LinearAtMost(c[..n], x, i);
      MultiplicityZero(c[n].Vars(), x);
      assert Multiplicity([x], x) == 1;
    }
  }

  /** One removal: the old system says exactly what the new one says, and that `x` equals its definition. */
  lemma RemovalExact(p: int, sys: seq<Entry>, x: Var, d: nat, e: seq<Term>, out: seq<Entry>, asg: Assignment)
    requires p > 0 && Rewritten(p, sys, x, d, e, out) && Definition(p, sys[d].terms, x, e)
    ensures Solves(p, sys, asg) <==> Solves(p, out, asg) && asg(x) % p == Eval(e, asg) % p
  {
    hide Eval, EntryRewritten, Normal, Free;
    if asg(x) % p == Eval(e, asg) % p {
      forall i | 0 <= i < |sys| && i != d
        ensures Eval(out[Shifted(d, i)].terms, asg) % p == Eval(sys[i].terms, asg) % p
      {
        EntryAgrees(p, sys[i], x, e, out[Shifted(d, i)], asg);
      }
      if Solves(p, sys, asg) {
        forall k | 0 <= k < |out|
          ensures Eval(out[k].terms, asg) % p == 0
        {
          var i := if k < d then k else k + 1;
          assert Shifted(d, i) == k && Eval(sys[i].terms, asg) % p == 0;
        }
      }
      if Solves(p, out, asg) {
        forall i | 0 <= i < |sys| && i != d
          ensures Eval(sys[i].terms, asg) % p == 0
        {
          assert Eval(out[Shifted(d, i)].terms, asg) % p == 0;
        }
      }
    }
  }

  /** No power of `x` above one anywhere. */
  predicate SquareFree(sys: seq<Entry>, x: Var) { forall i :: 0 <= i < |sys| ==> MaxMultiplicity(sys[i].terms, x) <= 1 }

  predicate Gone(sys: seq<Entry>, x: Var) { forall i :: 0 <= i < |sys| ==> Free(sys[i].terms, x) }

  lemma EntryGone(p: int, s: Entry, x: Var, e: seq<Term>, o: Entry)
    requires p > 0 && EntryRewritten(p, s, x, e, o)
    ensures Free(o.terms, x) <==> MaxMultiplicity(s.terms, x) <= 1
  {
    hide Eval, Normal;
    MaxMultiplicityFree(s.terms, x);
  }

  /** The variable is gone from the new system exactly when it had no square in the old one. */
  lemma GoneExactly(p: int, sys: seq<Entry>, x: Var, d: nat, e: seq<Term>, out: seq<Entry>)
    requires p > 0 && Rewritten(p, sys, x, d, e, out) && MaxMultiplicity(sys[d].terms, x) <= 1
    ensures Gone(out, x) <==> SquareFree(sys, x)
  {
    hide EntryRewritten, Free, MaxMultiplicity;
    forall i | 0 <= i < |sys| && i != d
      ensures Free(out[Shifted(d, i)].terms, x) <==> MaxMultiplicity(sys[i].terms, x) <= 1
    {
      EntryGone(p, sys[i], x, e, out[Shifted(d, i)]);
    }
    if SquareFree(sys, x) {
      forall k | 0 <= k < |out|
        ensures Free(out[k].terms, x)
      {
        var i := if k < d then k else k + 1;
        assert Shifted(d, i) == k && MaxMultiplicity(sys[i].terms, x) <= 1;
      }
    }
    if Gone(out, x) {
      forall i | 0 <= i < |sys|
        ensures MaxMultiplicity(sys[i].terms, x) <= 1
      {
        if i != d { assert Free(out[Shifted(d, i)].terms, x); }
      }
    }
  }

  /** Then a solution of the new system becomes one of the old by computing `x` from its definition. */
  lemma RemovalRecovers(p: int, sys: seq<Entry>, x: Var, d: nat, e: seq<Term>, out: seq<Entry>, asg: Assignment)
    requires p > 0 && Rewritten(p, sys, x, d, e, out) && Definition(p, sys[d].terms, x, e)
    requires MaxMultiplicity(sys[d].terms, x) <= 1 && SquareFree(sys, x) && Solves(p, out, asg)
    ensures Solves(p, sys, Put(asg, x, e))
  {
    GoneExactly(p, sys, x, d, e, out);
    var put := Put(asg, x, e);
    assert AgreeOff(x, asg, put) && put(x) == Eval(e, asg);
    hide Eval, Rewritten, MaxMultiplicity, Normal, Free, Put;
    forall k | 0 <= k < |out|
      ensures Eval(out[k].terms, put) % p == 0
    {
      EvalFree(out[k].terms, x, asg, put);
    }
    EvalFree(e, x, asg, put);
    RemovalExact(p, sys, x, d, e, out, put);
  }

  // ------------------------------------------------ a square loses the definition

  /** x - y = 0, x * x - 1 = 0, x + z = 0, with x, y, z numbered 0, 1, 2. */
  function SquareSystem(p: int): seq<Entry> {
    [Entry([Expression(1, [0]), Expression(p - 1, [1])], false),
     Entry([Expression(1, [0, 0]), Constant(p - 1)], false),
     Entry([Expression(1, [0]), Expression(1, [2])], false)]
  }

  lemma TwoTerms(a: Term, b: Term, asg: Assignment)
    ensures Eval([a, b], asg) == TermValue(a, asg) + TermValue(b, asg)
  {
    assert [a, b][1..] == [b] && [b][1..] == [];
    assert Eval([b], asg) == TermValue(b, asg);
  }

  lemma SmallValues(k: int, x: Var, asg: Assignment)
    ensures TermValue(Expression(k, [x]), asg) == k * asg(x)
    ensures TermValue(Expression(k, [x, x]), asg) == k * (asg(x) * asg(x))
    ensures TermValue(Constant(k), asg) == k
  {
    assert [x, x][1..] == [x] && [x][1..] == [];
    assert Product(asg, [x]) == asg(x);
    assert Product(asg, [x, x]) == asg(x) * asg(x);
  }

  lemma SquareSystemValues(p: int, asg: Assignment)
    ensures var s := SquareSystem(p);
      && Eval(s[0].terms, asg) == asg(0) + (p - 1) * asg(1)
      && Eval(s[1].terms, asg) == asg(0) * asg(0) + (p - 1)
      && Eval(s[2].terms, asg) == asg(0) + asg(2)
  {
    hide TermValue, Eval;
    SmallValues(1, 0, asg);
    SmallValues(p - 1, 1, asg);
    SmallValues(p - 1, 0, asg);
    SmallValues(1, 2, asg);
    TwoTerms(Expression(1, [0]), Expression(p - 1, [1]), asg);
    TwoTerms(Expression(1, [0, 0]), Constant(p - 1), asg);
    TwoTerms(Expression(1, [0]), Expression(1, [2]), asg);
  }

  lemma SquareSystemPowers(p: int)
    ensures MaxMultiplicity(SquareSystem(p)[0].terms, 0) == 1
    ensures MaxMultiplicity(SquareSystem(p)[1].terms, 0) == 2 && MaxMultiplicity(SquareSystem(p)[2].terms, 0) == 1
  {
    var c0, c1, c2 := SquareSystem(p)[0].terms, SquareSystem(p)[1].terms, SquareSystem(p)[2].terms;
    assert c0[..1] == [c0[0]] && c0[..1][..0] == [] && [1][1..] == [] && Multiplicity([1], 0) == 0;
    assert Multiplicity([0], 0) == 1 by { assert [0][1..] == []; }
    assert MaxMultiplicity(c0[..1], 0) == 1;
    SquareMultiplicity(0);
    assert [0][1..] == [] && [2][1..] == [];
    assert Multiplicity([0], 0) == 1 && Multiplicity([2], 0) == 0 && Multiplicity([], 0) == 0;
    assert c1[..1] == [c1[0]] && c1[..1][..0] == [] && c2[..1] == [c2[0]] && c2[..1][..0] == [];
    assert MaxMultiplicity(c1[..1], 0) == 2 && MaxMultiplicity(c2[..1], 0) == 1;
  }

  lemma NoRepair(p: int, v: int)
    requires p > 3
    ensures (v + (p - 1) * 2) % p == 0 ==> (v * v + (p - 1)) % p != 0
  {
    if (v + (p - 1) * 2) % p == 0 {
      MinusOne(p, v, 2);
      CongruentIff(v, 2, p);
      MulMod(v, v, p);
      MulMod(2, 2, p);
      MinusOne(p, v * v, 1);
      ReplaceInSum(p, -1, v * v, 4);
      DivModUnique(3, 0, 3, p);
    }
  }

  /**
    Removing x by its last definition, x = -z, leaves x - y as -z - y and the square as it is: a
    system with a solution that no value of x repairs, for the remaining square keeps a variable
    whose definition is lost.
   */
  lemma DefinitionLost(p: int, e: seq<Term>, out: seq<Entry>) returns (asg: Assignment)
    requires p > 3 && Rewritten(p, SquareSystem(p), 0, 2, e, out) && Definition(p, SquareSystem(p)[2].terms, 0, e)
    ensures Solves(p, out, asg)
    ensures forall v :: !Solves(p, SquareSystem(p), With(asg, 0, v))
  {
    asg := (y: Var) => if y == 0 then 1 else if y == 1 then 2 else -2;
    var s := SquareSystem(p);
    assert EntryRewritten(p, s[0], 0, e, out[Shifted(2, 0)]) && EntryRewritten(p, s[1], 0, e, out[Shifted(2, 1)]);
    assert |out| == 2;
    hide Eval, MaxMultiplicity, Normal, Free, Rewritten, EntryRewritten, SquareSystem, Definition;
    SquareSystemLeft(p, asg, e, out[0], out[1]);
    forall v
      ensures !Solves(p, s, With(asg, 0, v))
    {
      Unrepaired(p, asg, v);
    }
  }

  /** The rewritten first constraint and the square hold at 1, 2, -2. */
  lemma SquareSystemLeft(p: int, asg: Assignment, e: seq<Term>, first: Entry, square: Entry)
    requires p > 3 && asg(0) == 1 && asg(1) == 2 && asg(2) == -2 && Definition(p, SquareSystem(p)[2].terms, 0, e)
    requires EntryRewritten(p, SquareSystem(p)[0], 0, e, first) && EntryRewritten(p, SquareSystem(p)[1], 0, e, square)
    ensures Eval(first.terms, asg) % p == 0 && Eval(square.terms, asg) % p == 0
  {
    var put := Put(asg, 0, e);
    SquareSystemPowers(p);
    assert put(1) == 2;
    assert Eval(first.terms, asg) % p == Eval(SquareSystem(p)[0].terms, put) % p && square == SquareSystem(p)[1];
    hide Eval, MaxMultiplicity, Normal, Free, EntryRewritten, Put;
    DefinedValue(p, e, asg, put);
    SquareSystemValues(p, asg);
    SquareSystemValues(p, put);
    hide SquareSystem, Definition;
    MinusOne(p, put(0), 2);
    CongruentIff(put(0), 2, p);
    ModShift(0, 1, p);
  }

  lemma Unrepaired(p: int, asg: Assignment, v: int)
    requires p > 3 && asg(1) == 2
    ensures !Solves(p, SquareSystem(p), With(asg, 0, v))
  {
    hide Eval;
    var s, w := SquareSystem(p), With(asg, 0, v);
    SquareSystemValues(p, w);
    NoRepair(p, v);
    assert Eval(s[0].terms, w) % p != 0 || Eval(s[1].terms, w) % p != 0;
  }

  /** Any definition taken from x + z gives x the value -z. */
  lemma DefinedValue(p: int, e: seq<Term>, asg: Assignment, put: Assignment)
    requires p > 0 && Definition(p, SquareSystem(p)[2].terms, 0, e) && put == Put(asg, 0, e)
    ensures put(0) % p == (-asg(2)) % p
  {
    hide Eval, Normal;
    EvalFree(e, 0, asg, put);
    SquareSystemValues(p, put);
    CongruentIff(put(0), -asg(2), p);
  }

  lemma SquareSystemNormal(p: int)
    requires p > 3
    ensures AllNormal(p, SquareSystem(p))
    ensures Defines(SquareSystem(p)[0], 0) && Defines(SquareSystem(p)[2], 0)
  {
    SquareSystemPowers(p);
    PairDegree(Expression(1, [0]), Expression(p - 1, [1]));
    PairDegree(Expression(1, [0]), Expression(1, [2]));
    LinearPair(p, 1, p - 1, 1);
    LinearPair(p, 1, 1, 2);
    SquarePair(p);
    hide Normal, MaxMultiplicity, MaxDegree;
  }

  lemma LinearPair(p: int, a: int, b: int, y: Var)
    requires 0 < a < p && 0 < b < p && y > 0
    ensures Normal(p, [Expression(a, [0]), Expression(b, [y])])
  {
    PairNormal(p, Expression(a, [0]), Expression(b, [y]));
  }

  lemma SquarePair(p: int)
    requires p > 1
    ensures Normal(p, [Expression(1, [0, 0]), Constant(p - 1)])
  {
    assert [0, 0][1..] == [0];
    PairNormal(p, Expression(1, [0, 0]), Constant(p - 1));
  }

  lemma PairDegree(a: Term, b: Term)
    requires a.Degree() <= 1 && b.Degree() <= 1
    ensures MaxDegree([a, b]) <= 1
  {
    hide MaxDegree;
  }

  lemma PairNormal(p: int, a: Term, b: Term)
    requires Settled(p, a) && Settled(p, b) && !a.IsZero() && !b.IsZero() && MonoLess(a.Vars(), b.Vars())
    requires a.Degree() <= MAX_DEGREE && b.Degree() <= MAX_DEGREE
    ensures Normal(p, [a, b])
  {
    var s := [a, b];
    assert s[1..] == [b] && StrictlySorted([b]);
    assert forall i :: 0 <= i < |s| ==> s[i] == a || s[i] == b;
  }

  // ---------------------------------------------------------------- the pass

  datatype Scan = Found(x: Var, defining: seq<nat>, occurrences: seq<nat>) | Nothing | Stuck

  method DefiningConstraints(sys: seq<Entry>, x: Var) returns (ds: seq<nat>)
    ensures forall i :: i in ds ==> i < |sys| && Defines(sys[i], x)
    ensures forall i :: 0 <= i < |sys| && Defines(sys[i], x) ==> i in ds
    ensures forall a, b :: 0 <= a < b < |ds| ==> ds[a] < ds[b]
  {
    hide Defines;
    ds := [];
    for k := 0 to |sys|
      invariant forall a :: 0 <= a < |ds| ==> ds[a] < k
      invariant forall a, b :: 0 <= a < b < |ds| ==> ds[a] < ds[b]
      invariant forall i :: i in ds ==> i < k && Defines(sys[i], x)
      invariant forall i :: 0 <= i < k && Defines(sys[i], x) ==> i in ds
    {
      if Defines(sys[k], x) { ds := ds + [k]; }
    }
  }

  method Occurrences(sys: seq<Entry>, x: Var) returns (os: seq<nat>)
    ensures forall i :: i in os ==> i < |sys| && MaxMultiplicity(sys[i].terms, x) == 1
    ensures forall i :: 0 <= i < |sys| && MaxMultiplicity(sys[i].terms, x) == 1 ==> i in os
    ensures forall a, b :: 0 <= a < b < |os| ==> os[a] < os[b]
  {
    hide MaxMultiplicity;
    os := [];
    for k := 0 to |sys|
      invariant forall i :: i in os ==> i < k && MaxMultiplicity(sys[i].terms, x) == 1
      invariant forall a :: 0 <= a < |os| ==> os[a] < k
      invariant forall a, b :: 0 <= a < b < |os| ==> os[a] < os[b]
      invariant forall i :: 0 <= i < k && MaxMultiplicity(sys[i].terms, x) == 1 ==> i in os
    {
      if MaxMultiplicity(sys[k].terms, x) == 1 { os := os + [k]; }
    }
  }

  /** A variable the pass may take: off the boundary, with a definition, and in two constraints with power one. */
  ghost predicate Removable(sys: seq<Entry>, boundary: set<Var>, x: Var) {
    && x !in boundary
    && (exists d :: 0 <= d < |sys| && Defines(sys[d], x))
    && (exists i, j :: 0 <= i < j < |sys| && MaxMultiplicity(sys[i].terms, x) == 1 && MaxMultiplicity(sys[j].terms, x) == 1)
  }

  /** What a scan brings: all definitions of the variable in order, and all constraints in which it has power one. */
  ghost predicate Usable(sys: seq<Entry>, s: Scan) {
    && s.Found? && s.defining != []
    && (forall i :: i in s.defining <==> 0 <= i < |sys| && Defines(sys[i], s.x))
    && (forall a, b :: 0 <= a < b < |s.defining| ==> s.defining[a] < s.defining[b])
    && (forall i :: i in s.occurrences <==> 0 <= i < |sys| && MaxMultiplicity(sys[i].terms, s.x) == 1)
  }

  /** Two occurrences collected are two constraints, and the other way round. */
  lemma OccurrencesCount(sys: seq<Entry>, x: Var, os: seq<nat>)
    requires forall i :: i in os <==> 0 <= i < |sys| && MaxMultiplicity(sys[i].terms, x) == 1
    requires forall a, b :: 0 <= a < b < |os| ==> os[a] < os[b]
    ensures |os| > 1 <==> exists i, j :: 0 <= i < j < |sys| && MaxMultiplicity(sys[i].terms, x) == 1 && MaxMultiplicity(sys[j].terms, x) == 1
  {
    hide MaxMultiplicity;
    if |os| > 1 { assert os[0] in os && os[1] in os; }
  }

  /** The first `k` variables to place are neither placeholders nor removable. */
  ghost predicate PassedOver(sys: seq<Entry>, toPlace: seq<Var>, substituted: set<Var>, boundary: set<Var>, k: nat) {
    k <= |toPlace| && forall j :: 0 <= j < k ==> toPlace[j] !in substituted && !Removable(sys, boundary, toPlace[j])
  }

  /** The variable is removable, and none before it is, nor a placeholder. */
  ghost predicate FirstRemovable(sys: seq<Entry>, toPlace: seq<Var>, substituted: set<Var>, boundary: set<Var>, x: Var) {
    && x !in substituted && Removable(sys, boundary, x)
    && exists k :: 0 <= k < |toPlace| && toPlace[k] == x && PassedOver(sys, toPlace, substituted, boundary, k)
  }

  /**
    The first variable that can be removed. A variable that is a placeholder substitution makes the
    source start over with nothing changed, which it then does forever: that is `Stuck`.
   */
  method FindCandidate(sys: seq<Entry>, toPlace: seq<Var>, substituted: set<Var>, boundary: set<Var>) returns (s: Scan)
    ensures s.Found? ==> FirstRemovable(sys, toPlace, substituted, boundary, s.x) && Usable(sys, s)
    ensures s.Stuck? ==> exists k :: 0 <= k < |toPlace| && toPlace[k] in substituted && PassedOver(sys, toPlace, substituted, boundary, k)
    ensures s.Nothing? ==> forall x :: x in toPlace ==> x !in substituted && !Removable(sys, boundary, x)
  {
    hide MaxMultiplicity, Defines;
    for k := 0 to |toPlace|
      invariant PassedOver(sys, toPlace, substituted, boundary, k)
    {
      var x := toPlace[k];
      var ds := DefiningConstraints(sys, x);
      if x in substituted { return Stuck; }
      if x !in boundary && ds != [] {
        assert ds[0] in ds;
        var os := Occurrences(sys, x);
        OccurrencesCount(sys, x, os);
        if |os| > 1 { return Found(x, ds, os); }
      }
    }
    s := Nothing;
  }

  /** Rewrites every other occurrence. */
  method Replacements(p: int, sys: seq<Entry>, x: Var, d: nat, os: seq<nat>, e: seq<Term>) returns (m: map<nat, Entry>)
    requires IsPrime(p) && AllNormal(p, sys) && Normal(p, e) && Free(e, x) && DegreesAtMost(1, e)
    requires forall i :: i in os ==> i < |sys| && MaxMultiplicity(sys[i].terms, x) == 1
    ensures forall i :: i in m <==> i in os && i != d
    ensures forall i :: i in m ==> i < |sys| && EntryRewritten(p, sys[i], x, e, m[i])
  {
    assert p >= 2;
    hide IsPrime, Normal, Free, DegreesAtMost, MaxMultiplicity, EntryRewritten;
    m := map[];
    for k := 0 to |os|
      invariant forall i :: i in m <==> i in os[..k] && i != d
      invariant forall i :: i in m ==> i < |sys| && EntryRewritten(p, sys[i], x, e, m[i])
    {
      assert os[k] in os;
      if os[k] != d {
        var o := SubstituteDefinition(p, sys[os[k]], x, e);
        m := m[os[k] := o];
      }
      assert os[..k + 1] == os[..k] + [os[k]];
    }
    assert os[..|os|] == os;
  }

  /** Drops the defining constraint and puts the replacements in. */
  method Replace(p: int, sys: seq<Entry>, x: Var, d: nat, ghost e: seq<Term>, m: map<nat, Entry>) returns (out: seq<Entry>)
    requires p > 0 && d < |sys| && AllNormal(p, sys) && d !in m
    requires forall i :: i in m ==> i < |sys| && EntryRewritten(p, sys[i], x, e, m[i]) && MaxMultiplicity(sys[i].terms, x) == 1
    requires forall i :: 0 <= i < |sys| && i != d && MaxMultiplicity(sys[i].terms, x) == 1 ==> i in m
    ensures Rewritten(p, sys, x, d, e, out) && AllNormal(p, out)
  {
    hide Normal, MaxMultiplicity, Free, Eval;
    out := [];
    for k := 0 to |sys|
      invariant |out| == (if k <= d then k else k - 1)
      invariant forall i :: 0 <= i < k && i != d ==> EntryRewritten(p, sys[i], x, e, out[Shifted(d, i)])
      invariant AllNormal(p, out)
    {
      if k != d {
        out := out + [if k in m then m[k] else sys[k]];
      }
    }
  }

  type Log = seq<(Var, seq<Term>)>

  /** Every removed variable has the value of its definition. */
  ghost predicate Defined(p: int, log: Log, asg: Assignment)
    requires p > 0
  {
    forall k :: 0 <= k < |log| ==> asg(log[k].0) % p == Eval(log[k].1, asg) % p
  }

  /** Computes the removed variables back, the last removed first. */
  ghost function Replay(log: Log, asg: Assignment): Assignment {
    if log == [] then asg
    else Replay(log[..|log| - 1], Put(asg, log[|log| - 1].0, log[|log| - 1].1))
  }

  lemma {:induction false} ReplayKeeps(log: Log, asg: Assignment, y: Var)
    requires forall k :: 0 <= k < |log| ==> log[k].0 != y
    ensures Replay(log, asg)(y) == asg(y)
  {
    if log != [] {
      var n := |log| - 1;
      ReplayKeeps(log[..n], Put(asg, log[n].0, log[n].1), y);
    }
  }

  function RemoveVar(s: seq<Var>, x: Var): (r: seq<Var>)
    requires x in s
    ensures WithoutFirst(s, x, r)
  {
    assert s == [s[0]] + s[1..];
    if s[0] == x then
      assert TakenOut(s, x, 0, s[1..]);
      s[1..]
    else
      var t := RemoveVar(s[1..], x);
      TakenOutLater(s, x, t);
      [s[0]] + t
  }

  /** The first occurrence of x is at k, and r is the rest in order. */
  ghost predicate TakenOut(s: seq<Var>, x: Var, k: nat, r: seq<Var>) {
    k < |s| && s[k] == x && x !in s[..k] && r == s[..k] + s[k + 1..]
  }

  ghost predicate WithoutFirst(s: seq<Var>, x: Var, r: seq<Var>) { exists k: nat :: TakenOut(s, x, k, r) }

  lemma TakenOutLater(s: seq<Var>, x: Var, t: seq<Var>)
    requires s != [] && s[0] != x && WithoutFirst(s[1..], x, t)
    ensures WithoutFirst(s, x, [s[0]] + t)
  {
    var k: nat :| TakenOut(s[1..], x, k, t);
    assert s[..k + 1] == [s[0]] + s[1..][..k] && s[k + 2..] == s[1..][k + 1..];
    assert TakenOut(s, x, k + 1, [s[0]] + t);
  }

  lemma RemoveVarCounts(s: seq<Var>, x: Var)
    requires x in s
    ensures |RemoveVar(s, x)| == |s| - 1 && multiset(RemoveVar(s, x)) + multiset{x} == multiset(s)
  {
    hide RemoveVar;
    var r := RemoveVar(s, x);
    var k: nat :| TakenOut(s, x, k, r);
    hide TakenOut;
    Joined(s[..k], x, s[k + 1..]);
    assert s == s[..k] + [x] + s[k + 1..];
  }

  lemma Joined(a: seq<Var>, x: Var, b: seq<Var>)
    ensures multiset(a + b) + multiset{x} == multiset(a + [x] + b)
  {
  }

  /** What is left to place after the removals of a log. */
  ghost predicate Leaves(vars: seq<Var>, log: Log, left: seq<seq<Var>>) {
    && |left| == |log| + 1 && left[0] == vars
    && forall n :: 0 <= n < |log| ==> WithoutFirst(left[n], log[n].0, left[n + 1])
  }

  /** In every round the variable removed is the first removable one of those left. */
  ghost predicate EachFirst(steps: seq<seq<Entry>>, left: seq<seq<Var>>, substituted: set<Var>, boundary: set<Var>, log: Log)
    requires |steps| == |left| == |log| + 1
  {
    forall n :: 0 <= n < |log| ==> FirstRemovable(steps[n], left[n], substituted, boundary, log[n].0)
  }

  /** One round of the pass: x is removed by the definition e, which constraint d gives. */
  ghost predicate RoundAt(p: int, sys: seq<Entry>, x: Var, d: nat, e: seq<Term>, out: seq<Entry>)
    requires p > 0
  {
    && Rewritten(p, sys, x, d, e, out) && Definition(p, sys[d].terms, x, e) && MaxMultiplicity(sys[d].terms, x) == 1
    && LastDefinition(sys, x, d)
  }

  /** No later constraint defines the variable. */
  ghost predicate LastDefinition(sys: seq<Entry>, x: Var, d: nat) {
    d < |sys| && Defines(sys[d], x) && forall i :: d < i < |sys| ==> !Defines(sys[i], x)
  }

  ghost predicate Round(p: int, sys: seq<Entry>, x: Var, e: seq<Term>, out: seq<Entry>)
    requires p > 0
  {
    exists d: nat :: RoundAt(p, sys, x, d, e, out)
  }

  /** One round: the last of the defining constraints is the one that is used. */
  method RemoveVariable(p: int, sys: seq<Entry>, s: Scan) returns (out: seq<Entry>, d: nat, e: seq<Term>)
    requires IsPrime(p) && AllNormal(p, sys) && Usable(sys, s)
    ensures RoundAt(p, sys, s.x, d, e, out) && AllNormal(p, out)
    ensures d == s.defining[|s.defining| - 1]
  {
    assert p >= 2;
    hide Defines, IsPrime, Normal, MaxMultiplicity, EntryRewritten, Free, Eval, Rewritten, DegreesAtMost, MaxDegree;
    d, e, out := 0, [], sys;
    for k := 0 to |s.defining|
      invariant k > 0 ==> d == s.defining[k - 1]
      invariant k > 0 ==> d < |sys| && Definition(p, sys[d].terms, s.x, e) && MaxMultiplicity(sys[d].terms, s.x) == 1
      invariant k > 0 ==> Rewritten(p, sys, s.x, d, e, out) && AllNormal(p, out)
    {
      d := s.defining[k];
      assert d in s.defining;
      DefiningOnce(p, sys[d], s.x);
      e := SolveDefinition(p, sys[d].terms, s.x);
      var m := Replacements(p, sys, s.x, d, s.occurrences, e);
      out := Replace(p, sys, s.x, d, e, m);
    }
    LastOfDefining(sys, s);
  }

  lemma LastOfDefining(sys: seq<Entry>, s: Scan)
    requires Usable(sys, s)
    ensures LastDefinition(sys, s.x, s.defining[|s.defining| - 1])
  {
    hide Defines, MaxMultiplicity;
    var last := s.defining[|s.defining| - 1];
    assert last in s.defining;
    forall i | i in s.defining
      ensures i <= last
    {
      var a :| 0 <= a < |s.defining| && s.defining[a] == i;
    }
  }

  lemma DefiningOnce(p: int, s: Entry, x: Var)
    requires Normal(p, s.terms) && Defines(s, x)
    ensures MaxMultiplicity(s.terms, x) == 1
  {
    LinearMaxMultiplicity(s.terms, x);
  }

  /** The systems a run goes through, and the variables it removes with their definitions. */
  ghost predicate Trace(p: int, steps: seq<seq<Entry>>, log: Log)
    requires p > 0
  {
    |steps| == |log| + 1 && forall k :: 0 <= k < |log| ==> Round(p, steps[k], log[k].0, log[k].1, steps[k + 1])
  }

  lemma TracePrefix(p: int, steps: seq<seq<Entry>>, log: Log)
    requires p > 0 && Trace(p, steps, log) && log != []
    ensures var n := |log| - 1;
      Trace(p, steps[..|log|], log[..n]) && steps[..|log|][n] == steps[n] && Round(p, steps[n], log[n].0, log[n].1, steps[n + 1])
  {
    hide Round;
    var short := steps[..|log|];
    forall k | 0 <= k < |log| - 1
      ensures Round(p, short[k], log[..|log| - 1][k].0, log[..|log| - 1][k].1, short[k + 1])
    {
    }
  }

  /** After any run, on every assignment, the given system says what the last one and all definitions say. */
  lemma {:induction false} TraceExact(p: int, steps: seq<seq<Entry>>, log: Log, asg: Assignment)
    requires p > 0 && Trace(p, steps, log)
    ensures Solves(p, steps[0], asg) <==> Solves(p, steps[|log|], asg) && Defined(p, log, asg)
  {
    hide Solves, Round, Defined, Eval;
    if log == [] {
      assert Defined(p, log, asg) by { NothingDefined(p, log, asg); }
    } else {
      var n := |log| - 1;
      TracePrefix(p, steps, log);
      TraceExact(p, steps[..|log|], log[..n], asg);
      RoundExact(p, steps[n], log[n].0, log[n].1, steps[n + 1], asg);
      assert log == log[..n] + [(log[n].0, log[n].1)];
      DefinedSnoc(p, log[..n], log[n].0, log[n].1, asg);
    }
  }

  lemma NothingDefined(p: int, log: Log, asg: Assignment)
    requires p > 0 && log == []
    ensures Defined(p, log, asg)
  {
  }

  /**
    If no variable had a square when it was removed, every solution of the last system becomes one
    of the given system by computing the removed variables back.
   */
  lemma {:induction false} TraceRecovers(p: int, steps: seq<seq<Entry>>, log: Log, asg: Assignment)
    requires p > 0 && Trace(p, steps, log) && Solves(p, steps[|log|], asg)
    requires forall k :: 0 <= k < |log| ==> SquareFree(steps[k], log[k].0)
    ensures Solves(p, steps[0], Replay(log, asg))
  {
    hide Solves, Round, SquareFree, Put;
    if log != [] {
      var n := |log| - 1;
      TracePrefix(p, steps, log);
      RoundRecovers(p, steps[n], log[n].0, log[n].1, steps[n + 1], asg);
      TraceRecovers(p, steps[..|log|], log[..n], Put(asg, log[n].0, log[n].1));
    }
  }

  lemma RoundExact(p: int, sys: seq<Entry>, x: Var, e: seq<Term>, out: seq<Entry>, asg: Assignment)
    requires p > 0 && Round(p, sys, x, e, out)
    ensures Solves(p, sys, asg) <==> Solves(p, out, asg) && asg(x) % p == Eval(e, asg) % p
  {
    hide Solves, Rewritten, Eval, Definition, MaxMultiplicity;
    var d: nat :| RoundAt(p, sys, x, d, e, out);
    RemovalExact(p, sys, x, d, e, out, asg);
  }

  lemma RoundRecovers(p: int, sys: seq<Entry>, x: Var, e: seq<Term>, out: seq<Entry>, asg: Assignment)
    requires p > 0 && Round(p, sys, x, e, out) && SquareFree(sys, x) && Solves(p, out, asg)
    ensures Solves(p, sys, Put(asg, x, e))
  {
    hide Solves, Rewritten, Eval, Definition, MaxMultiplicity, SquareFree;
    var d: nat :| RoundAt(p, sys, x, d, e, out);
    RemovalRecovers(p, sys, x, d, e, out, asg);
  }

  /** What the pass leaves: a run of rounds from the input, after which it ends or scans forever. */
  ghost predicate Passed(p: int, input: seq<Entry>, vars: seq<Var>, substituted: set<Var>, boundary: set<Var>,
                         finished: bool, sys: seq<Entry>, toPlace: seq<Var>, removed: seq<Var>, steps: seq<seq<Entry>>, log: Log)
    requires p > 0
  {
    && AllNormal(p, sys) && Accounts(vars, toPlace, removed, log, substituted + boundary)
    && Trace(p, steps, log) && steps[0] == input && steps[|log|] == sys
    && (exists left :: ChosenFrom(vars, substituted, boundary, steps, log, left, toPlace))
    && (finished ==> forall x :: x in toPlace ==> x !in substituted && !Removable(sys, boundary, x))
    && (!finished ==> exists k :: 0 <= k < |toPlace| && toPlace[k] in substituted && PassedOver(sys, toPlace, substituted, boundary, k))
  }

  /** The variables are chosen in order, and the last of what is left is still to be placed. */
  ghost predicate ChosenFrom(vars: seq<Var>, substituted: set<Var>, boundary: set<Var>, steps: seq<seq<Entry>>, log: Log,
                             left: seq<seq<Var>>, toPlace: seq<Var>) {
    && Leaves(vars, log, left) && |steps| == |log| + 1 && EachFirst(steps, left, substituted, boundary, log)
    && left[|log|] == toPlace
  }

  /** The whole pass. When it ends, nothing more can be removed. */
  method RemoveLinearVariables(p: int, input: seq<Entry>, vars: seq<Var>, substituted: set<Var>, boundary: set<Var>)
    returns (finished: bool, sys: seq<Entry>, toPlace: seq<Var>, removed: seq<Var>, ghost steps: seq<seq<Entry>>, ghost log: Log)
    requires IsPrime(p) && AllNormal(p, input)
    ensures Passed(p, input, vars, substituted, boundary, finished, sys, toPlace, removed, steps, log)
    ensures finished <==> forall x :: x in vars ==> x !in substituted
  {
    assert p >= 2;
    hide IsPrime, AllNormal, RoundAt, Trace, Removable, Usable, Accounts, RemoveVar, ChosenFrom, FirstRemovable;
    sys, toPlace, removed, steps, log := input, vars, [], [input], [];
    ghost var left := [vars];
    TraceStart(p, input);
    AccountsStart(vars, substituted + boundary);
    ChosenStart(vars, substituted, boundary, input);
    while true
      invariant AllNormal(p, sys) && Accounts(vars, toPlace, removed, log, substituted + boundary)
      invariant Trace(p, steps, log) && |steps| == |log| + 1 && steps[0] == input && steps[|log|] == sys
      invariant ChosenFrom(vars, substituted, boundary, steps, log, left, toPlace)
      decreases |toPlace|
    {
      var s := FindCandidate(sys, toPlace, substituted, boundary);
      if !s.Found? {
        PlacedOrRemoved(vars, toPlace, removed, log, substituted, boundary);
        return s.Nothing?, sys, toPlace, removed, steps, log;
      }
      FirstFacts(sys, toPlace, substituted, boundary, s.x);
      var out, d, e := RemoveVariable(p, sys, s);
      TraceSnoc(p, steps, log, s.x, d, e, out);
      RemoveVarCounts(toPlace, s.x);
      AccountsStep(vars, toPlace, removed, log, substituted + boundary, s.x, e);
      ChosenStep(vars, substituted, boundary, steps, log, left, toPlace, s.x, e, out);
      steps, log := steps + [out], log + [(s.x, e)];
      sys, toPlace, removed := out, RemoveVar(toPlace, s.x), removed + [s.x];
      left := left + [toPlace];
    }
  }

  lemma FirstFacts(sys: seq<Entry>, toPlace: seq<Var>, substituted: set<Var>, boundary: set<Var>, x: Var)
    requires FirstRemovable(sys, toPlace, substituted, boundary, x)
    ensures x in toPlace && x !in substituted && x !in boundary
  {
  }

  lemma ChosenStart(vars: seq<Var>, substituted: set<Var>, boundary: set<Var>, input: seq<Entry>)
    ensures ChosenFrom(vars, substituted, boundary, [input], [], [vars], vars)
  {
  }

  lemma ChosenStep(vars: seq<Var>, substituted: set<Var>, boundary: set<Var>, steps: seq<seq<Entry>>, log: Log,
                   left: seq<seq<Var>>, toPlace: seq<Var>, x: Var, e: seq<Term>, out: seq<Entry>)
    requires ChosenFrom(vars, substituted, boundary, steps, log, left, toPlace)
    requires x in toPlace && FirstRemovable(steps[|log|], toPlace, substituted, boundary, x)
    ensures ChosenFrom(vars, substituted, boundary, steps + [out], log + [(x, e)], left + [RemoveVar(toPlace, x)], RemoveVar(toPlace, x))
  {
    hide FirstRemovable, RemoveVar, WithoutFirst;
    var more, longer, rest := steps + [out], log + [(x, e)], left + [RemoveVar(toPlace, x)];
    forall n | 0 <= n < |longer|
      ensures WithoutFirst(rest[n], longer[n].0, rest[n + 1])
      ensures FirstRemovable(more[n], rest[n], substituted, boundary, longer[n].0)
    {
      if n < |log| { assert rest[n] == left[n] && rest[n + 1] == left[n + 1] && longer[n] == log[n] && more[n] == steps[n]; }
    }
  }

  /** Every variable is either still to be placed or removed, in the order of the log, and none removed was protected. */
  ghost predicate Accounts(vars: seq<Var>, toPlace: seq<Var>, removed: seq<Var>, log: Log, protected: set<Var>) {
    && multiset(toPlace) + multiset(removed) == multiset(vars)
    && |log| == |removed|
    && forall k :: 0 <= k < |removed| ==> log[k].0 == removed[k] && removed[k] !in protected
  }

  /** A placeholder among the given variables is still to be placed. */
  lemma PlacedOrRemoved(vars: seq<Var>, toPlace: seq<Var>, removed: seq<Var>, log: Log, substituted: set<Var>, boundary: set<Var>)
    requires Accounts(vars, toPlace, removed, log, substituted + boundary)
    ensures (exists x :: x in toPlace && x in substituted) <==> exists x :: x in vars && x in substituted
  {
    forall x: Var
      ensures x in vars <==> x in toPlace || x in removed
    {
      assert x in vars <==> x in multiset(vars);
    }
  }

  lemma AccountsStart(vars: seq<Var>, protected: set<Var>)
    ensures Accounts(vars, vars, [], [], protected)
  {
  }

  lemma AccountsStep(vars: seq<Var>, toPlace: seq<Var>, removed: seq<Var>, log: Log, protected: set<Var>, x: Var, e: seq<Term>)
    requires Accounts(vars, toPlace, removed, log, protected) && x in toPlace && x !in protected
    ensures Accounts(vars, RemoveVar(toPlace, x), removed + [x], log + [(x, e)], protected)
  {
    hide RemoveVar, WithoutFirst;
    RemoveVarCounts(toPlace, x);
    var rest := RemoveVar(toPlace, x);
    assert multiset(removed + [x]) == multiset(removed) + multiset{x};
    assert multiset(rest) + multiset(removed + [x]) == multiset(vars);
  }

  lemma TraceStart(p: int, input: seq<Entry>)
    requires p > 0
    ensures Trace(p, [input], [])
  {
  }

  lemma TraceSnoc(p: int, steps: seq<seq<Entry>>, log: Log, x: Var, d: nat, e: seq<Term>, out: seq<Entry>)
    requires p > 0 && Trace(p, steps, log) && |steps| == |log| + 1 && RoundAt(p, steps[|log|], x, d, e, out)
    ensures Trace(p, steps + [out], log + [(x, e)])
  {
    hide RoundAt;
    var more, longer := steps + [out], log + [(x, e)];
    forall k | 0 <= k < |longer|
      ensures Round(p, more[k], longer[k].0, longer[k].1, more[k + 1])
    {
      hide Round;
      if k < |log| {
        assert more[k] == steps[k] && more[k + 1] == steps[k + 1] && longer[k] == log[k];
      } else {
        assert more[k] == steps[k] && more[k + 1] == out && longer[k] == (x, e);
        assert Round(p, steps[k], x, e, out) by { IsRound(p, steps[k], x, d, e, out); }
      }
    }
  }

  lemma IsRound(p: int, sys: seq<Entry>, x: Var, d: nat, e: seq<Term>, out: seq<Entry>)
    requires p > 0 && RoundAt(p, sys, x, d, e, out)
    ensures Round(p, sys, x, e, out)
  {
  }

  lemma DefinedSnoc(p: int, log: Log, x: Var, e: seq<Term>, asg: Assignment)
    requires p > 0
    ensures Defined(p, log + [(x, e)], asg) <==> Defined(p, log, asg) && asg(x) % p == Eval(e, asg) % p
  {
    hide Eval;
    var l := log + [(x, e)];
    assert l[|log|] == (x, e) && forall k :: 0 <= k < |log| ==> l[k] == log[k];
  }

  // ------------------------------------------------------- two runs of the pass

  lemma SquareSystemRemovable(p: int)
    requires p > 3
    ensures Removable(SquareSystem(p), {}, 0)
  {
    SquareSystemNormal(p);
    SquareSystemPowers(p);
    hide AllNormal, Defines, MaxMultiplicity;
    var s := SquareSystem(p);
    assert 0 <= 0 < 2 < |s| && MaxMultiplicity(s[0].terms, 0) == 1 && MaxMultiplicity(s[2].terms, 0) == 1;
  }

  /** A run of one round on the square system uses the last definition. */
  lemma SquareSystemRound(p: int, e: seq<Term>, out: seq<Entry>)
    requires p > 3 && Round(p, SquareSystem(p), 0, e, out)
    ensures Rewritten(p, SquareSystem(p), 0, 2, e, out) && Definition(p, SquareSystem(p)[2].terms, 0, e)
  {
    var d: nat :| RoundAt(p, SquareSystem(p), 0, d, e, out);
    SquareSystemNormal(p);
    hide AllNormal, Defines, MaxMultiplicity, Rewritten, Definition;
  }

  /** The pass on the square system with x to place ends, and its result has a solution that no value of x repairs. */
  method LoseDefinition(p: int)
    returns (finished: bool, sys: seq<Entry>, toPlace: seq<Var>, removed: seq<Var>, ghost steps: seq<seq<Entry>>, ghost log: Log,
             ghost asg: Assignment)
    requires IsPrime(p) && p > 3
    ensures Passed(p, SquareSystem(p), [0], {}, {}, finished, sys, toPlace, removed, steps, log)
    ensures finished && removed == [0] && Solves(p, sys, asg)
    ensures forall v :: !Solves(p, SquareSystem(p), With(asg, 0, v))
  {
    SquareSystemNormal(p);
    SquareSystemRemovable(p);
    hide IsPrime, AllNormal, Removable, SquareSystem, Solves, Round, Defines;
    finished, sys, toPlace, removed, steps, log := RemoveLinearVariables(p, SquareSystem(p), [0], {}, {});
    OneRound(p, SquareSystem(p), sys, toPlace, removed, steps, log);
    SquareSystemRound(p, log[0].1, sys);
    asg := DefinitionLost(p, log[0].1, sys);
  }

  lemma OneRound(p: int, input: seq<Entry>, sys: seq<Entry>, toPlace: seq<Var>, removed: seq<Var>, steps: seq<seq<Entry>>, log: Log)
    requires p > 0 && Trace(p, steps, log) && steps[0] == input && steps[|log|] == sys && Removable(input, {}, 0)
    requires Accounts([0], toPlace, removed, log, {} + {}) && forall x :: x in toPlace ==> !Removable(sys, {}, x)
    ensures removed == [0] && |log| == 1 && log[0].0 == 0 && Round(p, input, 0, log[0].1, sys)
  {
    hide Round, Removable;
    assert |multiset(toPlace) + multiset(removed)| == |multiset([0])|;
    assert |toPlace| + |removed| == 1;
    assert 0 in toPlace || 0 in removed by { assert 0 in multiset([0]); }
    assert removed != [];
    assert removed[0] in multiset(toPlace) + multiset(removed);
    assert removed[0] in [0];
  }

  /** The pass on no constraints at all does not end when the variable to place is a placeholder. */
  method NeverEnds(p: int)
    returns (finished: bool, sys: seq<Entry>, toPlace: seq<Var>, removed: seq<Var>, ghost steps: seq<seq<Entry>>, ghost log: Log)
    requires IsPrime(p)
    ensures Passed(p, [], [0], {0}, {}, finished, sys, toPlace, removed, steps, log)
    ensures !finished && toPlace == [0] && removed == []
  {
    hide IsPrime, Removable, Trace;
    finished, sys, toPlace, removed, steps, log := RemoveLinearVariables(p, [], [0], {0}, {});
    assert 0 in [0];
    NothingRemoved(toPlace, removed, log);
  }

  lemma NothingRemoved(toPlace: seq<Var>, removed: seq<Var>, log: Log)
    requires Accounts([0], toPlace, removed, log, {0} + {})
    ensures toPlace == [0] && removed == []
  {
    EachGiven([0], toPlace, removed);
    assert |multiset(toPlace) + multiset(removed)| == |multiset([0])|;
  }

  lemma EachGiven(vars: seq<Var>, toPlace: seq<Var>, removed: seq<Var>)
    requires multiset(toPlace) + multiset(removed) == multiset(vars)
    ensures (forall k :: 0 <= k < |toPlace| ==> toPlace[k] in vars) && forall k :: 0 <= k < |removed| ==> removed[k] in vars
  {
    assert forall x: Var :: x in vars <==> x in multiset(toPlace) + multiset(removed);
  }
}
