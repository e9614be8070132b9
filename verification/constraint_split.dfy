/**
  The split of a constraint into quadratic, linear and constant parts, evaluation against a
  witness through that split, and the constraint object with its in-place operations.
 */
module ConstraintSplit {
  import opened ModArith
  import opened ConstraintTerms
  import opened ConstraintNormalize
  import opened ConstraintCanonical
  import opened ConstraintOps

  datatype Parts = Parts(quadratic: seq<(int, Var, Var)>, linear: seq<(int, Var)>, constant: seq<int>) {
    /** The constant term; zero when there is none. */
    function ConstantTerm(): int { if constant == [] then 0 else constant[0] }
  }

  function QuadTerms(q: seq<(int, Var, Var)>): seq<Term> { seq(|q|, i requires 0 <= i < |q| => Expression(q[i].0, [q[i].1, q[i].2])) }
  function LinTerms(l: seq<(int, Var)>): seq<Term> { seq(|l|, i requires 0 <= i < |l| => Expression(l[i].0, [l[i].1])) }
  function ConstTerms(k: seq<int>): seq<Term> { seq(|k|, i requires 0 <= i < |k| => Constant(k[i])) }

  /** The parts put back together as a list of terms. */
  function Rebuild(s: Parts): seq<Term> { QuadTerms(s.quadratic) + LinTerms(s.linear) + ConstTerms(s.constant) }

  lemma {:induction false} StrictAt(s: seq<Term>, k: nat)
    requires StrictlySorted(s) && 0 < k < |s|
    ensures s[k - 1].Degree() >= s[k].Degree() && (s[k - 1].Degree() == 0 ==> s[k].Degree() != 0)
  {
    if k > 1 { StrictAt(s[1..], k - 1); }
  }

  lemma RebuildQuadratic(s: Parts, coeff: int, a: Var, b: Var)
    requires s.linear == [] && s.constant == []
    ensures Rebuild(s.(quadratic := s.quadratic + [(coeff, a, b)])) == Rebuild(s) + [Expression(coeff, [a, b])]
  {
  }

  lemma RebuildLinear(s: Parts, coeff: int, a: Var)
    requires s.constant == []
    ensures Rebuild(s.(linear := s.linear + [(coeff, a)])) == Rebuild(s) + [Expression(coeff, [a])]
  {
  }

  lemma RebuildConstant(s: Parts, k: int)
    requires s.constant == []
    ensures Rebuild(s.(constant := [k])) == Rebuild(s) + [Constant(k)]
  {
  }

  lemma TermShape(p: int, t: Term)
    requires Settled(p, t)
    ensures t.Degree() == 2 ==> t == Expression(t.coeff, [t.inner[0], t.inner[1]])
    ensures t.Degree() == 1 ==> t == Expression(t.coeff, [t.inner[0]])
    ensures t.Degree() == 0 ==> t == Constant(t.Coef())
  {
  }

  /** Splits the normal form; putting the parts together again gives the normal form back. */
  method SplitMaxQuadratic(p: int, c: seq<Term>) returns (r: Outcome<Parts>)
    requires p > 0 && AllValid(p, c)
    ensures r.Done? <==> QuadraticAtMost(p, c)
    ensures r.Done? ==> |r.value.constant| <= 1
    ensures r.Done? ==> Normal(p, Rebuild(r.value)) && SamePoly(p, Rebuild(r.value), c)
  {
    hide QuadraticAtMost, SamePoly, Settled, StrictlySorted, Rebuild;
    var n := Normalize(p, c);
    if n.Panic? { return Panic; }
    var terms := n.value;
    var parts := Parts([], [], []);
    assert Rebuild(parts) == [] by { RebuildEmpty(); }
    for k := 0 to |terms|
      invariant terms[..k] == Rebuild(parts)
      invariant parts.linear != [] ==> k > 0 && terms[k - 1].Degree() <= 1
      invariant parts.constant != [] ==> k > 0 && terms[k - 1].Degree() == 0
      invariant |parts.constant| <= 1
    {
      var term := terms[k];
      TermShape(p, term);
      if k > 0 { StrictAt(terms, k); }
      assert term.Degree() <= MAX_DEGREE;
      assert terms[..k + 1] == terms[..k] + [term];
      if term.Degree() == 2 {
        RebuildQuadratic(parts, term.coeff, term.inner[0], term.inner[1]);
        parts := parts.(quadratic := parts.quadratic + [(term.coeff, term.inner[0], term.inner[1])]);
      } else if term.Degree() == 1 {
        RebuildLinear(parts, term.coeff, term.inner[0]);
        parts := parts.(linear := parts.linear + [(term.coeff, term.inner[0])]);
      } else {
        RebuildConstant(parts, term.Coef());
        parts := parts.(constant := [term.Coef()]);
      }
    }
    assert terms[..|terms|] == terms;
    r := Done(parts);
  }

  lemma RebuildEmpty()
    ensures Rebuild(Parts([], [], [])) == []
  {
  }

  // ------------------------------------------------------------- evaluation

  ghost predicate Extends(asg: Assignment, values: map<Var, int>) {
    forall v :: v in values ==> asg(v) == values[v]
  }

  /** Every variable of the list has a value. */
  predicate Assigned(s: seq<Term>, values: map<Var, int>) {
    forall i, j :: 0 <= i < |s| && 0 <= j < |s[i].Vars()| ==> s[i].Vars()[j] in values
  }

  method SumQuadratic(p: int, quads: seq<(int, Var, Var)>, start: int, values: map<Var, int>, ghost asg: Assignment)
    returns (r: Outcome<int>)
    requires p > 0 && Extends(asg, values)
    ensures r.Done? <==> Assigned(QuadTerms(quads), values)
    ensures r.Done? ==> r.value % p == (start + Eval(QuadTerms(quads), asg)) % p
  {
    hide Eval;
    ghost var q := QuadTerms(quads);
    var result := start;
    EvalEmpty(asg);
    for i := 0 to |quads|
      invariant Assigned(q[..i], values)
      invariant result % p == (start + Eval(q[..i], asg)) % p
    {
      var (coeff, a, b) := quads[i];
      assert q[i].Vars() == [a, b] && q[i].Vars()[0] == a && q[i].Vars()[1] == b;
      if a !in values || b !in values { return Panic; }
      assert q[..i + 1] == q[..i] + [q[i]];
      EvalSnoc(q[..i], q[i], asg);
      QuadValue(coeff, a, b, asg);
      var t := coeff * (values[a] * values[b]);
      Accumulate(p, result, start + Eval(q[..i], asg), t);
      result := (result + t) % p;
    }
    assert q[..|q|] == q;
    r := Done(result);
  }

  method SumLinear(p: int, lins: seq<(int, Var)>, start: int, values: map<Var, int>, ghost asg: Assignment)
    returns (r: Outcome<int>)
    requires p > 0 && Extends(asg, values)
    ensures r.Done? <==> Assigned(LinTerms(lins), values)
    ensures r.Done? ==> r.value % p == (start + Eval(LinTerms(lins), asg)) % p
  {
    hide Eval;
    ghost var l := LinTerms(lins);
    var result := start;
    EvalEmpty(asg);
    for i := 0 to |lins|
      invariant Assigned(l[..i], values)
      invariant result % p == (start + Eval(l[..i], asg)) % p
    {
      var (coeff, a) := lins[i];
      assert l[i].Vars() == [a] && l[i].Vars()[0] == a;
      if a !in values { return Panic; }
      assert l[..i + 1] == l[..i] + [l[i]];
      EvalSnoc(l[..i], l[i], asg);
      LinValue(coeff, a, asg);
      Accumulate(p, result, start + Eval(l[..i], asg), coeff * values[a]);
      result := (result + coeff * values[a]) % p;
    }
    assert l[..|l|] == l;
    r := Done(result);
  }

  datatype Reading = Value(value: int) | Missing

  /**
    Evaluates through the split. The panic is the one of the normalisation; a reading is missing
    exactly when a variable of the normal form `n` has no value.
   */
  method GetValue(p: int, c: seq<Term>, values: map<Var, int>, ghost asg: Assignment)
    returns (r: Outcome<Reading>, ghost n: seq<Term>)
    requires p > 0 && AllValid(p, c) && Extends(asg, values)
    ensures r.Done? <==> QuadraticAtMost(p, c)
    ensures r.Done? ==> Normal(p, n) && SamePoly(p, n, c) && (r.value.Value? <==> Assigned(n, values))
    ensures r.Done? && r.value.Value? ==> r.value.value == Eval(c, asg) % p
  {
    hide QuadraticAtMost, SamePoly, Normal, Eval, QuadTerms, LinTerms, ConstTerms, Assigned;
    var s := SplitMaxQuadratic(p, c);
    if s.Panic? { return Panic, []; }
    var parts := s.value;
    n := Rebuild(parts);
    ghost var q, l, k := QuadTerms(parts.quadratic), LinTerms(parts.linear), ConstTerms(parts.constant);
    AssignedParts(q, l, parts.constant, values);
    ConstantValue(p, parts, asg);
    var quad := SumQuadratic(p, parts.quadratic, parts.ConstantTerm(), values, asg);
    if quad.Panic? { return Done(Missing), n; }
    var all := SumLinear(p, parts.linear, quad.value, values, asg);
    if all.Panic? { return Done(Missing), n; }
    ReplaceInSum(p, Eval(l, asg), quad.value, parts.ConstantTerm() + Eval(q, asg));
    EvalAppend(q, l, asg);
    EvalAppend(q + l, k, asg);
    SamePolySameValue(p, n, c, asg);
    r := Done(Value(all.value % p));
  }

  lemma AssignedParts(q: seq<Term>, l: seq<Term>, k: seq<int>, values: map<Var, int>)
    ensures Assigned(q + l + ConstTerms(k), values) <==> Assigned(q, values) && Assigned(l, values)
  {
    var s := q + l + ConstTerms(k);
    assert forall i :: 0 <= i < |q| ==> s[i] == q[i];
    assert forall i :: 0 <= i < |l| ==> s[|q| + i] == l[i];
    assert forall i :: |q| + |l| <= i < |s| ==> s[i].Constant?;
  }

  lemma Accumulate(p: int, result: int, sum: int, v: int)
    requires p > 0 && result % p == sum % p
    ensures ((result + v) % p) % p == (sum + v) % p
  {
    ReplaceInSum(p, v, result, sum);
    DivModUnique((result + v) % p, 0, (result + v) % p, p);
  }

  lemma QuadValue(coeff: int, a: Var, b: Var, asg: Assignment)
    ensures TermValue(Expression(coeff, [a, b]), asg) == coeff * (asg(a) * asg(b))
  {
    assert [a, b][1..] == [b] && [b][1..] == [];
    assert Product(asg, [b]) == asg(b);
  }

  lemma LinValue(coeff: int, a: Var, asg: Assignment)
    ensures TermValue(Expression(coeff, [a]), asg) == coeff * asg(a)
  {
    assert [a][1..] == [];
    assert Product(asg, [a]) == asg(a);
  }

  lemma ConstantValue(p: int, parts: Parts, asg: Assignment)
    requires p > 0 && |parts.constant| <= 1
    ensures parts.ConstantTerm() == Eval(ConstTerms(parts.constant), asg) && Eval([], asg) == 0
  {
    var k := ConstTerms(parts.constant);
    if parts.constant != [] {
      assert k == [Constant(parts.constant[0])] && k[1..] == [];
      assert Product(asg, []) == 1;
    }
  }

  lemma Subtracted(p: int, a: int, neg: int, b: int)
    requires p > 0 && neg % p == ((p - 1) * b) % p
    ensures (a + neg) % p == (a - b) % p
  {
    ReplaceInSum(p, a, neg, (p - 1) * b);
    MinusOne(p, a, b);
  }

  // ------------------------------------------------- the constraint object

  /** A constraint under construction: terms are pushed, scaled and normalised in place. */
  class Constraint {
    const p: int
    var terms: seq<Term>

    constructor (p: int)
      ensures this.p == p && terms == []
    {
      this.p := p;
      terms := [];
    }

    method Normalize() returns (ok: bool)
      requires p > 0 && AllValid(p, terms)
      modifies this`terms
      ensures ok <==> QuadraticAtMost(p, old(terms))
      ensures ok ==> Normal(p, terms) && SamePoly(p, terms, old(terms)) && WrittenInOrder(p, terms)
      ensures Normal(p, old(terms)) ==> ok && terms == old(terms)
    {
      hide QuadraticAtMost, Normal, SamePoly, WrittenInOrder;
      var r := ConstraintNormalize.Normalize(p, terms);
      if Normal(p, terms) {
        NormalDefined(p, terms);
        NormalFormUnique(p, terms, r.value);
      }
      ok := r.Done?;
      if ok { terms := r.value; }
    }

    /** Multiplies every coefficient by `k`. */
    method Scale(k: int)
      requires p > 0
      modifies this`terms
      ensures terms == Scaled(p, old(terms), k)
    {
      for i := 0 to |terms|
        invariant |terms| == |old(terms)|
        invariant forall j :: 0 <= j < i ==> terms[j] == ScaleTerm(p, old(terms)[j], k)
        invariant forall j :: i <= j < |terms| ==> terms[j] == old(terms)[j]
      {
        terms := terms[i := ScaleTerm(p, terms[i], k)];
      }
    }

    /** Pushes a term without normalising. */
    method AddTerm(t: Term)
      requires p > 0
      modifies this`terms
      ensures terms == old(terms) + [t]
      ensures forall asg: Assignment :: Eval(terms, asg) == Eval(old(terms), asg) + TermValue(t, asg)
    {
      forall asg: Assignment
        ensures Eval(terms + [t], asg) == Eval(terms, asg) + TermValue(t, asg)
      {
        EvalSnoc(terms, t, asg);
      }
      terms := terms + [t];
    }

    /** Pushes the negated term without normalising. */
    method SubTerm(t: Term)
      requires p > 0
      modifies this`terms
      ensures terms == old(terms) + [ScaleTerm(p, t, p - 1)]
      ensures forall asg: Assignment :: Eval(terms, asg) % p == (Eval(old(terms), asg) - TermValue(t, asg)) % p
    {
      var neg := ScaleTerm(p, t, p - 1);
      hide TermValue, ScaleTerm, Eval;
      forall asg: Assignment
        ensures Eval(terms + [neg], asg) % p == (Eval(terms, asg) - TermValue(t, asg)) % p
      {
        EvalSnoc(terms, neg, asg);
        ScaleTermValue(p, t, p - 1, asg);
        Subtracted(p, Eval(terms, asg), TermValue(neg, asg), TermValue(t, asg));
      }
      terms := terms + [neg];
    }
  }
}
