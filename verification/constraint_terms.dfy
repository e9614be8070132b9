/**
  Terms and constraints: sparse polynomials over a prime field, as lists of monomials.
  A field element is its reduced representative; a term keeps as many variables as its degree.
 */
module ConstraintTerms {
  type Var = nat
  type Assignment = Var -> int
  /** A number for every monomial; the sum of coefficients times weights is linear in the terms. */
  type Weight = seq<Var> -> int

  const TERM_INNER_CAPACITY: nat := 4

  datatype Term = Constant(value: int) | Expression(coeff: int, inner: seq<Var>) {
    function Degree(): nat { if Constant? then 0 else |inner| }
    function Coef(): int { if Constant? then value else coeff }
    function Vars(): seq<Var> { if Constant? then [] else inner }
    predicate IsZero() { Coef() == 0 }
    predicate ContainsVar(x: Var) { x in Vars() }

    /** Reduced coefficient, and a variable count the four slots can hold. */
    predicate Valid(p: int) { 0 <= Coef() < p && (Expression? ==> 1 <= |inner| <= TERM_INNER_CAPACITY) }
  }

  predicate AllValid(p: int, s: seq<Term>) { forall i :: 0 <= i < |s| ==> s[i].Valid(p) }

  function MaxDegree(s: seq<Term>): (d: nat)
    ensures forall i :: 0 <= i < |s| ==> s[i].Degree() <= d
    ensures d > 0 ==> exists i :: 0 <= i < |s| && s[i].Degree() == d
  {
    if s == [] then 0
    else
      var d := MaxDegree(s[1..]);
      assert forall i :: 1 <= i < |s| ==> s[i] == s[1..][i - 1];
      if s[0].Degree() > d then s[0].Degree() else
        assert d > 0 ==> exists i :: 0 <= i < |s[1..]| && s[1..][i].Degree() == d && s[i + 1].Degree() == d;
        d
  }

  // ------------------------------------------------------ sorting variables

  predicate SortedVars(s: seq<Var>) { |s| <= 1 || (s[0] <= s[1] && SortedVars(s[1..])) }

  function InsertVar(x: Var, s: seq<Var>): (r: seq<Var>)
    ensures |r| == |s| + 1
    ensures r[0] == if s == [] || x <= s[0] then x else s[0]
    ensures SortedVars(s) ==> SortedVars(r)
  {
    if s == [] || x <= s[0] then
      var r := [x] + s;
      assert r[1..] == s;
      r
    else
      var t := InsertVar(x, s[1..]);
      var r := [s[0]] + t;
      assert r[1..] == t;
      r
  }

  function SortVars(s: seq<Var>): (r: seq<Var>)
    ensures |r| == |s| && SortedVars(r)
  {
    if s == [] then [] else InsertVar(s[0], SortVars(s[1..]))
  }

  /** The monomial of a term: its variables in order. */
  function Mono(t: Term): seq<Var> { SortVars(t.Vars()) }

  lemma {:induction false} SortOfSorted(s: seq<Var>)
    requires SortedVars(s)
    ensures SortVars(s) == s
  {
    if |s| > 1 {
      SortOfSorted(s[1..]);
    }
  }

  lemma {:induction false} InsertContains(x: Var, s: seq<Var>, y: Var)
    ensures y in InsertVar(x, s) <==> y == x || y in s
  {
    if s != [] && x > s[0] {
      InsertContains(x, s[1..], y);
      assert s == [s[0]] + s[1..];
    }
  }

  lemma {:induction false} SortContains(s: seq<Var>, y: Var)
    ensures y in SortVars(s) <==> y in s
  {
    if s != [] {
      SortContains(s[1..], y);
      InsertContains(s[0], SortVars(s[1..]), y);
      assert s == [s[0]] + s[1..];
    }
  }

  // ---------------------------------------------------------------- meaning

  function Product(asg: Assignment, s: seq<Var>): int {
    if s == [] then 1 else asg(s[0]) * Product(asg, s[1..])
  }

  /** The value of a term, and of a constraint, under an assignment (reduce modulo p to read it). */
  function TermValue(t: Term, asg: Assignment): int { t.Coef() * Product(asg, t.Vars()) }

  function Eval(s: seq<Term>, asg: Assignment): int {
    if s == [] then 0 else TermValue(s[0], asg) + Eval(s[1..], asg)
  }

  function Weigh(s: seq<Term>, w: Weight): int {
    if s == [] then 0 else s[0].Coef() * w(Mono(s[0])) + Weigh(s[1..], w)
  }

  /** Two lists of terms stand for the same polynomial: every weighing agrees modulo p. */
  ghost predicate SamePoly(p: int, s: seq<Term>, t: seq<Term>)
    requires p > 0
  {
    forall w: Weight :: Weigh(s, w) % p == Weigh(t, w) % p
  }

  lemma SwapFactors(a: int, b: int, c: int)
    ensures a * (b * c) == b * (a * c)
  {
    assert a * b * c == b * a * c;
  }

  lemma {:induction false} ProductInsert(asg: Assignment, x: Var, s: seq<Var>)
    ensures Product(asg, InsertVar(x, s)) == asg(x) * Product(asg, s)
  {
    if s == [] || x <= s[0] {
      assert ([x] + s)[1..] == s;
    } else {
      ProductInsert(asg, x, s[1..]);
      var r := InsertVar(x, s[1..]);
      assert ([s[0]] + r)[1..] == r;
      SwapFactors(asg(s[0]), asg(x), Product(asg, s[1..]));
    }
  }

  lemma {:induction false} ProductSort(asg: Assignment, s: seq<Var>)
    ensures Product(asg, SortVars(s)) == Product(asg, s)
  {
    if s != [] {
      ProductSort(asg, s[1..]);
      ProductInsert(asg, s[0], SortVars(s[1..]));
    }
  }

  /** Evaluation is the weighing by monomial values. */
  lemma {:induction false} EvalIsWeigh(s: seq<Term>, asg: Assignment)
    ensures Eval(s, asg) == Weigh(s, m => Product(asg, m))
  {
    if s != [] {
      EvalIsWeigh(s[1..], asg);
      ProductSort(asg, s[0].Vars());
    }
  }

  lemma SamePolySameValue(p: int, s: seq<Term>, t: seq<Term>, asg: Assignment)
    requires p > 0 && SamePoly(p, s, t)
    ensures Eval(s, asg) % p == Eval(t, asg) % p
  {
    EvalIsWeigh(s, asg);
    EvalIsWeigh(t, asg);
    var w: Weight := m => Product(asg, m);
    assert Weigh(s, w) % p == Weigh(t, w) % p;
  }

  /** The combined coefficient of a monomial. */
  function CoefOf(s: seq<Term>, m: seq<Var>): int {
    if s == [] then 0 else (if Mono(s[0]) == m then s[0].Coef() else 0) + CoefOf(s[1..], m)
  }

  lemma {:induction false} CoefIsWeigh(s: seq<Term>, m: seq<Var>)
    ensures CoefOf(s, m) == Weigh(s, k => if k == m then 1 else 0)
  {
    if s != [] { CoefIsWeigh(s[1..], m); }
  }

  lemma SamePolySameCoef(p: int, s: seq<Term>, t: seq<Term>, m: seq<Var>)
    requires p > 0 && SamePoly(p, s, t)
    ensures CoefOf(s, m) % p == CoefOf(t, m) % p
  {
    CoefIsWeigh(s, m);
    CoefIsWeigh(t, m);
    var w: Weight := k => if k == m then 1 else 0;
    assert Weigh(s, w) % p == Weigh(t, w) % p;
  }

  lemma {:induction false} WeighAppend(s: seq<Term>, t: seq<Term>, w: Weight)
    ensures Weigh(s + t, w) == Weigh(s, w) + Weigh(t, w)
  {
    if s == [] {
      assert s + t == t;
    } else {
      assert (s + t)[1..] == s[1..] + t;
      WeighAppend(s[1..], t, w);
    }
  }

  lemma {:induction false} WeighUpdate(s: seq<Term>, i: nat, t: Term, w: Weight)
    requires i < |s|
    ensures Weigh(s[i := t], w) == Weigh(s, w) - s[i].Coef() * w(Mono(s[i])) + t.Coef() * w(Mono(t))
  {
    var u := s[i := t];
    if i == 0 {
      assert u[1..] == s[1..];
    } else {
      assert u[1..] == s[1..][i - 1 := t];
      WeighUpdate(s[1..], i - 1, t, w);
    }
  }
}
