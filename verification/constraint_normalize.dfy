/**
  Normalisation of a constraint: settle each term, sort, merge like terms, drop zeros, check
  the degree, sort again.
 */
module ConstraintNormalize {
  import opened ModArith
  import opened ConstraintTerms

  datatype Outcome<T> = Done(value: T) | Panic

  const MAX_DEGREE: nat := 2

  // ------------------------------------------------------------------- order

  /** Lexicographic order on variable lists of equal length. */
  predicate LexLess(a: seq<Var>, b: seq<Var>) {
    a != [] && b != [] && (a[0] < b[0] || (a[0] == b[0] && LexLess(a[1..], b[1..])))
  }

  /** Higher degree first, then the variables in order. */
  predicate MonoLess(a: seq<Var>, b: seq<Var>) {
    |a| > |b| || (|a| == |b| && LexLess(a, b))
  }

  predicate TermLeq(s: Term, t: Term) {
    MonoLess(s.Vars(), t.Vars()) || (s.Vars() == t.Vars() && s.Coef() <= t.Coef())
  }

  lemma {:induction false} LexTotal(a: seq<Var>, b: seq<Var>)
    requires |a| == |b|
    ensures LexLess(a, b) || a == b || LexLess(b, a)
  {
    if a != [] {
      LexTotal(a[1..], b[1..]);
      assert a == [a[0]] + a[1..] && b == [b[0]] + b[1..];
    }
  }

  lemma {:induction false} LexTransitive(a: seq<Var>, b: seq<Var>, c: seq<Var>)
    requires LexLess(a, b) && LexLess(b, c)
    ensures LexLess(a, c)
  {
    if a[0] == b[0] == c[0] { LexTransitive(a[1..], b[1..], c[1..]); }
  }

  lemma {:induction false} LexIrreflexive(a: seq<Var>)
    ensures !LexLess(a, a)
  {
    if a != [] { LexIrreflexive(a[1..]); }
  }

  lemma MonoTotal(a: seq<Var>, b: seq<Var>)
    ensures MonoLess(a, b) || a == b || MonoLess(b, a)
  {
    if |a| == |b| { LexTotal(a, b); }
  }

  lemma MonoTransitive(a: seq<Var>, b: seq<Var>, c: seq<Var>)
    requires MonoLess(a, b) && MonoLess(b, c)
    ensures MonoLess(a, c)
  {
    if |a| == |b| == |c| { LexTransitive(a, b, c); }
  }

  lemma MonoIrreflexive(a: seq<Var>)
    ensures !MonoLess(a, a)
  {
    LexIrreflexive(a);
  }

  /** A longer list first; at equal length the smaller variable at the first difference. */
  ghost predicate Precedes(a: seq<Var>, b: seq<Var>) {
    |a| > |b| || (|a| == |b| && exists k :: 0 <= k < |a| && a[..k] == b[..k] && a[k] < b[k])
  }

  lemma {:induction false} LexDifference(a: seq<Var>, b: seq<Var>) returns (k: nat)
    requires |a| == |b| && LexLess(a, b)
    ensures k < |a| && a[..k] == b[..k] && a[k] < b[k]
  {
    k := 0;
    if a[0] == b[0] {
      var l := LexDifference(a[1..], b[1..]);
      k := l + 1;
      assert a[..k] == [a[0]] + a[1..][..l] && b[..k] == [b[0]] + b[1..][..l];
    }
  }

  lemma MonoPrecedes(a: seq<Var>, b: seq<Var>)
    requires MonoLess(a, b)
    ensures Precedes(a, b)
  {
    if |a| == |b| { var k := LexDifference(a, b); }
  }

  // ------------------------------------------------------------ sorted lists

  predicate Sorted(s: seq<Term>) { |s| <= 1 || (TermLeq(s[0], s[1]) && Sorted(s[1..])) }

  /** Monomials strictly in order, hence pairwise different. */
  predicate StrictlySorted(s: seq<Term>) {
    |s| <= 1 || (MonoLess(s[0].Vars(), s[1].Vars()) && StrictlySorted(s[1..]))
  }

  function InsertTerm(t: Term, s: seq<Term>): (r: seq<Term>)
    ensures |r| == |s| + 1
    ensures r[0] == if s == [] || TermLeq(t, s[0]) then t else s[0]
    ensures Sorted(s) ==> Sorted(r)
  {
    if s == [] || TermLeq(t, s[0]) then
      var r := [t] + s;
      assert r[1..] == s;
      r
    else
      var u := InsertTerm(t, s[1..]);
      var r := [s[0]] + u;
      assert r[1..] == u;
      assert TermLeq(s[0], t) by { MonoTotal(t.Vars(), s[0].Vars()); }
      r
  }

  function SortTerms(s: seq<Term>): (r: seq<Term>)
    ensures |r| == |s| && Sorted(r)
  {
    if s == [] then [] else InsertTerm(s[0], SortTerms(s[1..]))
  }

  lemma {:induction false} InsertTermContains(t: Term, s: seq<Term>, u: Term)
    ensures u in InsertTerm(t, s) <==> u == t || u in s
  {
    hide TermLeq;
    if s != [] && !TermLeq(t, s[0]) {
      InsertTermContains(t, s[1..], u);
      assert s == [s[0]] + s[1..];
    }
  }

  lemma {:induction false} SortTermsContains(s: seq<Term>, u: Term)
    ensures u in SortTerms(s) <==> u in s
  {
    if s != [] {
      SortTermsContains(s[1..], u);
      InsertTermContains(s[0], SortTerms(s[1..]), u);
      assert s == [s[0]] + s[1..];
    }
  }

  lemma {:induction false} WeighInsert(t: Term, s: seq<Term>, w: Weight)
    ensures Weigh(InsertTerm(t, s), w) == t.Coef() * w(Mono(t)) + Weigh(s, w)
  {
    hide TermLeq, Mono;
    if s == [] || TermLeq(t, s[0]) {
      assert ([t] + s)[1..] == s;
    } else {
      WeighInsert(t, s[1..], w);
      assert ([s[0]] + InsertTerm(t, s[1..]))[1..] == InsertTerm(t, s[1..]);
    }
  }

  lemma {:induction false} WeighSort(s: seq<Term>, w: Weight)
    ensures Weigh(SortTerms(s), w) == Weigh(s, w)
  {
    hide Mono;
    if s != [] {
      WeighSort(s[1..], w);
      WeighInsert(s[0], SortTerms(s[1..]), w);
    }
  }

  lemma {:induction false} StrictHead(s: seq<Term>, t: Term)
    requires s != [] && StrictlySorted(s) && t in s[1..]
    ensures MonoLess(s[0].Vars(), t.Vars())
  {
    var r := s[1..];
    if t != r[0] {
      assert t in r[1..] by { assert r == [r[0]] + r[1..]; }
      StrictHead(r, t);
      MonoTransitive(s[0].Vars(), r[0].Vars(), t.Vars());
    }
  }

  lemma {:induction false} InsertStrict(t: Term, s: seq<Term>)
    requires StrictlySorted(s)
    requires forall u :: u in s ==> u.Vars() != t.Vars()
    ensures StrictlySorted(InsertTerm(t, s))
  {
    if s == [] || TermLeq(t, s[0]) {
      assert ([t] + s)[1..] == s;
    } else {
      InsertStrict(t, s[1..]);
      MonoTotal(t.Vars(), s[0].Vars());
      assert ([s[0]] + InsertTerm(t, s[1..]))[1..] == InsertTerm(t, s[1..]);
    }
  }

  // ---------------------------------------------------------- one term

  /** In-place normalisation of a term: a zero coefficient collapses, the variables are sorted. */
  function NormTerm(t: Term): Term {
    if t.Constant? then t
    else if t.coeff == 0 then Constant(0)
    else Expression(t.coeff, SortVars(t.inner))
  }

  /** What NormTerm leaves behind. */
  predicate Settled(p: int, t: Term) {
    t.Valid(p) && SortedVars(t.Vars()) && (t.Expression? ==> t.coeff != 0)
  }

  predicate AllSettled(p: int, s: seq<Term>) { forall i :: 0 <= i < |s| ==> Settled(p, s[i]) }

  lemma NormTermSettles(p: int, t: Term, w: Weight)
    requires t.Valid(p)
    ensures Settled(p, NormTerm(t))
    ensures NormTerm(t).Coef() * w(Mono(NormTerm(t))) == t.Coef() * w(Mono(t))
  {
    if t.Expression? && t.coeff != 0 { SortOfSorted(SortVars(t.inner)); }
  }

  lemma NormTermKeeps(p: int, t: Term)
    requires Settled(p, t)
    ensures NormTerm(t) == t && Mono(t) == t.Vars()
  {
    SortOfSorted(t.Vars());
  }

  /** Like terms: both constants, or the same variables. */
  predicate SameMultiple(s: Term, t: Term) {
    match (s, t)
    case (Constant(_), Constant(_)) => true
    case (Expression(_, x), Expression(_, y)) => x == y
    case _ => false
  }

  /** Adds a like term in, then settles the sum. */
  function Combined(p: int, s: Term, t: Term): Term
    requires p > 0 && SameMultiple(s, t)
  {
    var c := (s.Coef() + t.Coef()) % p;
    NormTerm(if s.Constant? then Constant(c) else Expression(c, s.inner))
  }

  lemma DistributeCoef(p: int, a: int, b: int, k: int)
    requires p > 0
    ensures (((a + b) % p) * k) % p == (a * k + b * k) % p
  {
    var c := a + b;
    var l, r := c * k, a * k + b * k;
    assert l == r;
    assert ((c % p) * k) % p == l % p by { MulModLeft(c, k, p); }
  }

  /** Merging adds up the two contributions. */
  lemma CombinedAdds(p: int, s: Term, t: Term, w: Weight)
    requires p > 0 && Settled(p, s) && Settled(p, t) && SameMultiple(s, t)
    ensures
      var m := Combined(p, s, t);
      && Settled(p, m) && s.Vars() == t.Vars() && ((m.Constant? == s.Constant? && m.Vars() == s.Vars()) || m == Constant(0))
      && (m.Coef() * w(Mono(m))) % p == (s.Coef() * w(Mono(s)) + t.Coef() * w(Mono(t))) % p
  {
    var c := (s.Coef() + t.Coef()) % p;
    var m := if s.Constant? then Constant(c) else Expression(c, s.inner);
    NormTermSettles(p, m, w);
    hide SortVars, Mono;
    DistributeCoef(p, s.Coef(), t.Coef(), w(Mono(s)));
    if m.Expression? && m.coeff != 0 { SortOfSorted(m.inner); }
  }

  // ------------------------------------------------------ merging like terms

  /** A later like term is only ever the zero that a cancellation left behind. */
  predicate Merged(s: seq<Term>) {
    forall i, j :: 0 <= i < j < |s| && SameMultiple(s[i], s[j]) ==> s[j] == Constant(0)
  }

  predicate ConstantsZero(s: seq<Term>) {
    forall i :: 0 <= i < |s| && s[i].Constant? ==> s[i] == Constant(0)
  }

  predicate DegreesAtMost(d: nat, s: seq<Term>) { forall i :: 0 <= i < |s| ==> s[i].Degree() <= d }

  lemma MergedUpdate(p: int, s: seq<Term>, j: nat, el: Term)
    requires p > 0 && AllSettled(p, s) && Settled(p, el) && Merged(s) && j < |s| && SameMultiple(s[j], el)
    requires forall i :: 0 <= i < j ==> !SameMultiple(s[i], el)
    requires el.Expression? ==> ConstantsZero(s)
    ensures Merged(s[j := Combined(p, s[j], el)])
  {
    var m := Combined(p, s[j], el);
    CombinedAdds(p, s[j], el, _ => 0);
    hide Combined, Settled;
    var u := s[j := m];
    forall i, k | 0 <= i < k < |u| && SameMultiple(u[i], u[k])
      ensures u[k] == Constant(0)
    {
      assert i != j && k != j ==> SameMultiple(s[i], s[k]);
    }
  }

  lemma UpdateAdds(p: int, s: seq<Term>, j: nat, el: Term)
    requires p > 0 && j < |s| && Settled(p, s[j]) && Settled(p, el) && SameMultiple(s[j], el)
    ensures SamePoly(p, s[j := Combined(p, s[j], el)], s + [el])
  {
    var m := Combined(p, s[j], el);
    forall w: Weight
      ensures Weigh(s[j := m], w) % p == Weigh(s + [el], w) % p
    {
      WeighUpdate(s, j, m, w);
      WeighAppend(s, [el], w);
      CombinedAdds(p, s[j], el, w);
      hide Mono, Combined;
      assert Weigh([el], w) == el.Coef() * w(Mono(el)) by { assert [el][1..] == []; }
      ReplaceInSum(p, Weigh(s, w) - s[j].Coef() * w(Mono(s[j])), m.Coef() * w(Mono(m)),
                   s[j].Coef() * w(Mono(s[j])) + el.Coef() * w(Mono(el)));
    }
  }

  lemma ReplaceInSum(p: int, rest: int, a: int, b: int)
    requires p > 0 && a % p == b % p
    ensures (rest + a) % p == (rest + b) % p
  {
    AddMod(rest, a, p);
    AddMod(rest, b, p);
  }

  /** Adds `el` to the first like term, or appends it. */
  method MergeInto(p: int, combined: seq<Term>, el: Term, ghost d: nat) returns (out: seq<Term>)
    requires p > 0 && AllSettled(p, combined) && Merged(combined) && Settled(p, el)
    requires el.Expression? ==> ConstantsZero(combined)
    requires DegreesAtMost(d, combined) && el.Degree() <= d
    ensures AllSettled(p, out) && Merged(out) && DegreesAtMost(d, out)
    ensures el.Expression? ==> ConstantsZero(out)
    ensures SamePoly(p, out, combined + [el])
  {
    hide Settled, Mono, Weigh, Combined;
    for j := 0 to |combined|
      invariant forall i :: 0 <= i < j ==> !SameMultiple(combined[i], el)
    {
      if SameMultiple(combined[j], el) {
        MergedUpdate(p, combined, j, el);
        UpdateAdds(p, combined, j, el);
        CombinedAdds(p, combined[j], el, _ => 0);
        return combined[j := Combined(p, combined[j], el)];
      }
    }
    out := combined + [el];
  }

  // --------------------------------------------------------------- filtering

  function NonZero(s: seq<Term>): (r: seq<Term>)
    ensures forall t :: t in r ==> t in s && !t.IsZero()
  {
    if s == [] then []
    else
      assert forall t :: t in s[1..] ==> t in s;
      if s[0].IsZero() then NonZero(s[1..]) else [s[0]] + NonZero(s[1..])
  }

  lemma {:induction false} WeighNonZero(s: seq<Term>, w: Weight)
    ensures Weigh(NonZero(s), w) == Weigh(s, w)
  {
    hide Mono;
    if s != [] {
      WeighNonZero(s[1..], w);
      if !s[0].IsZero() { assert ([s[0]] + NonZero(s[1..]))[1..] == NonZero(s[1..]); }
    }
  }

  /** No two terms alike. */
  predicate Apart(s: seq<Term>) {
    s == [] || ((forall t :: t in s[1..] ==> t.Vars() != s[0].Vars()) && Apart(s[1..]))
  }

  lemma {:induction false} NonZeroApart(p: int, s: seq<Term>)
    requires AllSettled(p, s) && Merged(s)
    ensures Apart(NonZero(s))
  {
    if s != [] {
      var t := s[1..];
      assert forall i, j :: 0 <= i < j < |t| ==> t[i] == s[i + 1] && t[j] == s[j + 1];
      NonZeroApart(p, t);
      if !s[0].IsZero() {
        var r := [s[0]] + NonZero(t);
        assert r[1..] == NonZero(t);
        forall u | u in NonZero(t)
          ensures u.Vars() != s[0].Vars()
        {
          var k :| 0 <= k < |t| && t[k] == u;
          assert s[k + 1] == u && !SameMultiple(s[0], s[k + 1]);
        }
      }
    }
  }

  lemma {:induction false} SortStrict(s: seq<Term>)
    requires Apart(s)
    ensures StrictlySorted(SortTerms(s))
    ensures forall i, j :: 0 <= i < j < |SortTerms(s)| ==> Precedes(SortTerms(s)[i].Vars(), SortTerms(s)[j].Vars())
  {
    if s != [] {
      SortStrict(s[1..]);
      forall u | u in SortTerms(s[1..])
        ensures u.Vars() != s[0].Vars()
      {
        SortTermsContains(s[1..], u);
      }
      InsertStrict(s[0], SortTerms(s[1..]));
    }
    StrictPrecedes(SortTerms(s));
  }

  lemma StrictPrecedes(s: seq<Term>)
    requires StrictlySorted(s)
    ensures forall i, j :: 0 <= i < j < |s| ==> Precedes(s[i].Vars(), s[j].Vars())
  {
    forall i, j | 0 <= i < j < |s|
      ensures Precedes(s[i].Vars(), s[j].Vars())
    {
      StrictBetween(s, i, j);
      MonoPrecedes(s[i].Vars(), s[j].Vars());
    }
  }

  lemma {:induction false} StrictBetween(s: seq<Term>, i: nat, j: nat)
    requires StrictlySorted(s) && i < j < |s|
    ensures MonoLess(s[i].Vars(), s[j].Vars())
  {
    if i == 0 { StrictHead(s, s[j]); } else { StrictBetween(s[1..], i - 1, j - 1); }
  }

  // --------------------------------------------------------------- the result

  /** Canonical shape: monomials strictly in order, coefficients reduced and nonzero, degree at most two. */
  predicate Normal(p: int, s: seq<Term>) {
    AllSettled(p, s) && StrictlySorted(s) && DegreesAtMost(MAX_DEGREE, s) && forall i :: 0 <= i < |s| ==> !s[i].IsZero()
  }

  /** The order of two terms of a normal form, written out by degree. */
  ghost predicate TermsInOrder(s: Term, t: Term) {
    && s.Degree() >= t.Degree() && s.Degree() > 0
    && (s.Degree() == 1 == t.Degree() ==> s.Vars()[0] < t.Vars()[0])
    && (s.Degree() == 2 == t.Degree() ==> s.Vars()[0] < t.Vars()[0] || (s.Vars()[0] == t.Vars()[0] && s.Vars()[1] < t.Vars()[1]))
  }

  /** Quadratic terms, then linear ones, then a constant; coefficients reduced and not zero; variables ascending. */
  ghost predicate WrittenInOrder(p: int, s: seq<Term>) {
    && (forall i :: 0 <= i < |s| ==> 0 < s[i].Coef() < p && s[i].Degree() <= 2 && (s[i].Constant? <==> s[i].Degree() == 0))
    && (forall i :: 0 <= i < |s| && s[i].Degree() == 2 ==> s[i].Vars()[0] <= s[i].Vars()[1])
    && (forall i, j :: 0 <= i < j < |s| ==> TermsInOrder(s[i], s[j]))
  }

  lemma PrecedesByDegree(s: Term, t: Term)
    requires Precedes(s.Vars(), t.Vars()) && s.Degree() <= 2
    ensures TermsInOrder(s, t)
  {
  }

  /** A normal form is written in this order. */
  lemma NormalInOrder(p: int, s: seq<Term>)
    requires Normal(p, s)
    ensures WrittenInOrder(p, s)
  {
    StrictPrecedes(s);
    hide StrictlySorted, Precedes, TermsInOrder;
    forall i, j | 0 <= i < j < |s|
      ensures TermsInOrder(s[i], s[j])
    {
      PrecedesByDegree(s[i], s[j]);
    }
    forall i | 0 <= i < |s|
      ensures 0 < s[i].Coef() < p && (s[i].Degree() == 2 ==> s[i].Vars()[0] <= s[i].Vars()[1])
    {
      assert Settled(p, s[i]) && !s[i].IsZero();
    }
  }

  /** No monomial above degree two survives the addition of like terms. */
  ghost predicate QuadraticAtMost(p: int, s: seq<Term>)
    requires p > 0
  {
    forall m: seq<Var> :: |m| > MAX_DEGREE ==> CoefOf(s, m) % p == 0
  }

  lemma {:induction false} CoefAbsent(s: seq<Term>, m: seq<Var>)
    requires forall t :: t in s ==> Mono(t) != m
    ensures CoefOf(s, m) == 0
  {
    hide Mono;
    if s != [] {
      assert s[0] in s && forall t :: t in s[1..] ==> t in s;
      CoefAbsent(s[1..], m);
    }
  }

  lemma {:induction false} CoefPresent(p: int, s: seq<Term>, k: nat)
    requires AllSettled(p, s) && Apart(s) && k < |s|
    ensures CoefOf(s, s[k].Vars()) == s[k].Coef()
  {
    hide Mono, Settled, NormTerm;
    NormTermKeeps(p, s[0]);
    forall t | t in s[1..]
      ensures Mono(t) == t.Vars()
    {
      assert t in s;
      NormTermKeeps(p, t);
    }
    if k == 0 {
      CoefAbsent(s[1..], s[0].Vars());
    } else {
      assert s[k] in s[1..];
      CoefPresent(p, s[1..], k - 1);
    }
  }

  lemma SettledMono(p: int, s: seq<Term>, t: Term)
    requires AllSettled(p, s) && t in s
    ensures Mono(t) == t.Vars()
  {
    var k :| 0 <= k < |s| && s[k] == t;
    NormTermKeeps(p, s[k]);
  }

  lemma LowDegreeQuadratic(p: int, s: seq<Term>)
    requires p > 0 && AllSettled(p, s) && DegreesAtMost(MAX_DEGREE, s)
    ensures QuadraticAtMost(p, s)
  {
    hide Mono, CoefOf, Settled;
    forall m: seq<Var> | |m| > MAX_DEGREE
      ensures CoefOf(s, m) % p == 0
    {
      forall t | t in s
        ensures Mono(t) != m
      {
        SettledMono(p, s, t);
      }
      CoefAbsent(s, m);
    }
  }

  lemma HighDegreeSurvives(p: int, s: seq<Term>, k: nat)
    requires p > 0 && AllSettled(p, s) && Apart(s) && k < |s| && !s[k].IsZero() && s[k].Degree() > MAX_DEGREE
    ensures !QuadraticAtMost(p, s)
  {
    CoefPresent(p, s, k);
    assert 0 < s[k].Coef() < p;
    hide CoefOf, AllSettled, Apart;
    DivModUnique(s[k].Coef(), 0, s[k].Coef(), p);
    assert |s[k].Vars()| > MAX_DEGREE && CoefOf(s, s[k].Vars()) % p != 0;
  }

  /** The degree check passes exactly when no monomial above degree two survives. */
  lemma DegreeCheck(p: int, s: seq<Term>)
    requires p > 0 && AllSettled(p, s) && Apart(s) && forall i :: 0 <= i < |s| ==> !s[i].IsZero()
    ensures MaxDegree(s) <= MAX_DEGREE <==> QuadraticAtMost(p, s)
  {
    hide QuadraticAtMost, AllSettled, Apart, MaxDegree;
    if MaxDegree(s) <= MAX_DEGREE {
      LowDegreeQuadratic(p, s);
    } else {
      var k :| 0 <= k < |s| && s[k].Degree() == MaxDegree(s);
      HighDegreeSurvives(p, s, k);
    }
  }

  /** Settles every term in place. */
  method SettleTerms(p: int, terms: seq<Term>) returns (out: seq<Term>)
    requires p > 0 && AllValid(p, terms)
    ensures AllSettled(p, out) && SamePoly(p, out, terms)
    ensures AllSettled(p, terms) ==> out == terms
  {
    hide Mono, Settled, Weigh, NormTerm;
    out := terms;
    for i := 0 to |terms|
      invariant |out| == |terms| && out[i..] == terms[i..]
      invariant AllSettled(p, out[..i])
      invariant SamePoly(p, out, terms)
      invariant AllSettled(p, terms) ==> out == terms
    {
      assert out[i] == terms[i] by { assert out[i..][0] == terms[i..][0]; }
      assert AllSettled(p, terms) ==> NormTerm(terms[i]) == terms[i] by {
        if AllSettled(p, terms) { NormTermKeeps(p, terms[i]); }
      }
      var t := NormTerm(terms[i]);
      forall w: Weight
        ensures Settled(p, t) && Weigh(out[i := t], w) == Weigh(out, w)
      {
        NormTermSettles(p, terms[i], w);
        WeighUpdate(out, i, t, w);
      }
      ghost var was := out;
      out := out[i := t];
      assert Settled(p, t) by { NormTermSettles(p, terms[i], _ => 0); }
      assert out[..i + 1] == was[..i] + [t];
      assert out[i + 1..] == was[i..][1..] == terms[i..][1..] == terms[i + 1..];
    }
    assert out == out[..|terms|];
  }

  lemma {:induction false} SortedDegrees(s: seq<Term>, i: nat, k: nat)
    requires Sorted(s) && i <= k < |s|
    ensures s[i].Degree() >= s[k].Degree()
  {
    hide LexLess;
    if i > 0 {
      SortedDegrees(s[1..], i - 1, k - 1);
    } else if k > 0 {
      SortedDegrees(s[1..], 0, k - 1);
    }
  }

  lemma SamePolyAppend(p: int, s: seq<Term>, t: seq<Term>, u: seq<Term>)
    requires p > 0 && SamePoly(p, s, t)
    ensures SamePoly(p, s + u, t + u)
  {
    forall w: Weight
      ensures Weigh(s + u, w) % p == Weigh(t + u, w) % p
    {
      WeighAppend(s, u, w);
      WeighAppend(t, u, w);
      ReplaceInSum(p, Weigh(u, w), Weigh(s, w), Weigh(t, w));
    }
  }

  /** Merges like terms of a sorted list, one term at a time. */
  method MergeAll(p: int, terms: seq<Term>) returns (combined: seq<Term>)
    requires p > 0 && AllSettled(p, terms) && Sorted(terms)
    ensures AllSettled(p, combined) && Merged(combined)
    ensures SamePoly(p, combined, terms)
    ensures DegreesAtMost(MaxDegree(terms), combined)
  {
    hide Settled, Weigh, Sorted, MaxDegree;
    combined := [];
    for k := 0 to |terms|
      invariant AllSettled(p, combined) && Merged(combined) && DegreesAtMost(MaxDegree(terms), combined)
      invariant (forall i :: 0 <= i < k ==> terms[i].Degree() > 0) ==> ConstantsZero(combined)
      invariant SamePoly(p, combined, terms[..k])
    {
      var el := terms[k];
      if el.Expression? {
        ExpressionDegree(p, el);
        forall i | 0 <= i < k
          ensures terms[i].Degree() > 0
        {
          SortedDegrees(terms, i, k);
        }
      }
      ghost var was := combined;
      combined := MergeInto(p, combined, el, MaxDegree(terms));
      SamePolyAppend(p, was, terms[..k], [el]);
      assert terms[..k] + [el] == terms[..k + 1];
    }
    assert terms[..|terms|] == terms;
  }

  lemma ExpressionDegree(p: int, t: Term)
    requires Settled(p, t) && t.Expression?
    ensures t.Degree() > 0
  {
  }

  lemma SettledValid(p: int, s: seq<Term>)
    requires AllSettled(p, s)
    ensures AllValid(p, s)
  {
  }

  lemma SortTermsSettled(p: int, s: seq<Term>)
    requires p > 0 && AllSettled(p, s)
    ensures AllSettled(p, SortTerms(s)) && SamePoly(p, SortTerms(s), s)
  {
    hide SortTerms, Settled, Weigh;
    var r := SortTerms(s);
    forall i | 0 <= i < |r|
      ensures Settled(p, r[i])
    {
      SortTermsContains(s, r[i]);
    }
    forall w: Weight
      ensures Weigh(r, w) == Weigh(s, w)
    {
      WeighSort(s, w);
    }
  }

  lemma SamePolyQuadratic(p: int, s: seq<Term>, t: seq<Term>)
    requires p > 0 && SamePoly(p, s, t)
    ensures QuadraticAtMost(p, s) <==> QuadraticAtMost(p, t)
  {
    hide SamePoly, CoefOf;
    forall m: seq<Var>
      ensures CoefOf(s, m) % p == CoefOf(t, m) % p
    {
      SamePolySameCoef(p, s, t, m);
    }
  }

  lemma FilterFacts(p: int, s: seq<Term>, d: nat)
    requires p > 0 && AllSettled(p, s) && Merged(s) && DegreesAtMost(d, s)
    ensures var f := NonZero(s);
      && AllSettled(p, f) && Apart(f) && SamePoly(p, f, s) && DegreesAtMost(d, f)
      && forall i :: 0 <= i < |f| ==> !f[i].IsZero()
  {
    NonZeroApart(p, s);
    hide Weigh, Settled, Apart;
    var f := NonZero(s);
    forall w: Weight
      ensures Weigh(f, w) == Weigh(s, w)
    {
      WeighNonZero(s, w);
    }
    forall i | 0 <= i < |f|
      ensures Settled(p, f[i]) && f[i].Degree() <= d && !f[i].IsZero()
    {
      assert f[i] in s;
    }
  }

  /** The last two steps: settling changes nothing any more, sorting makes the order strict. */
  lemma SortedIsNormal(p: int, f: seq<Term>)
    requires p > 0 && AllSettled(p, f) && Apart(f) && DegreesAtMost(MAX_DEGREE, f)
    requires forall i :: 0 <= i < |f| ==> !f[i].IsZero()
    ensures Normal(p, SortTerms(f))
  {
    SortStrict(f);
    SortTermsSettled(p, f);
    hide SortTerms, Settled, StrictlySorted, Apart;
    var r := SortTerms(f);
    forall i | 0 <= i < |r|
      ensures r[i].Degree() <= MAX_DEGREE && !r[i].IsZero()
    {
      SortTermsContains(f, r[i]);
      assert r[i] in f;
    }
  }

  /** Normalisation returns, with the normal form of the same polynomial, exactly when no monomial above degree two survives. */
  method Normalize(p: int, input: seq<Term>) returns (r: Outcome<seq<Term>>)
    requires p > 0 && AllValid(p, input)
    ensures r.Done? <==> QuadraticAtMost(p, input)
    ensures r.Done? ==> Normal(p, r.value) && SamePoly(p, r.value, input) && WrittenInOrder(p, r.value)
  {
    hide WrittenInOrder, AllSettled, SortTerms, Normal, Apart, QuadraticAtMost, Weigh, MaxDegree, Merged;
    var settled := SettleTerms(p, input);
    var terms := SortTerms(settled);
    SortTermsSettled(p, settled);
    var initialDegree := MaxDegree(terms);
    var combined := MergeAll(p, terms);
    FilterFacts(p, combined, initialDegree);
    terms := NonZero(combined);
    var finalDegree := MaxDegree(terms);
    DegreeCheck(p, terms);
    SamePolyQuadratic(p, terms, input);
    if finalDegree > MAX_DEGREE { return Panic; }
    // The source's test for a lone zero constant cannot succeed: zeros were just removed.
    assert terms != [Constant(0)] by { assert terms == [] || !terms[0].IsZero(); }
    SettledValid(p, terms);
    var again := SettleTerms(p, terms);
    SortedIsNormal(p, terms);
    SortTermsSettled(p, terms);
    assert finalDegree <= initialDegree;
    r := Done(SortTerms(again));
    NormalInOrder(p, r.value);
  }
}
