/**
  Arithmetic on constraints: sums, differences, products and scaling, and when they are defined.
 */
module ConstraintOps {
  import opened ModArith
  import opened ConstraintTerms
  import opened ConstraintNormalize
  import opened ConstraintCanonical

  // ------------------------------------------------------------- evaluation

  lemma {:induction false} EvalAppend(s: seq<Term>, t: seq<Term>, asg: Assignment)
    ensures Eval(s + t, asg) == Eval(s, asg) + Eval(t, asg)
  {
    hide TermValue;
    if s == [] {
      assert s + t == t;
    } else {
      assert (s + t)[1..] == s[1..] + t;
      EvalAppend(s[1..], t, asg);
    }
  }

  lemma EvalSnoc(s: seq<Term>, t: Term, asg: Assignment)
    ensures Eval(s + [t], asg) == Eval(s, asg) + TermValue(t, asg)
  {
    EvalAppend(s, [t], asg);
    assert [t][1..] == [];
  }

  lemma {:induction false} ProductConcat(asg: Assignment, a: seq<Var>, b: seq<Var>)
    ensures Product(asg, a + b) == Product(asg, a) * Product(asg, b)
  {
    if a == [] {
      assert a + b == b;
    } else {
      assert (a + b)[1..] == a[1..] + b;
      ProductConcat(asg, a[1..], b);
      assert asg(a[0]) * (Product(asg, a[1..]) * Product(asg, b)) == asg(a[0]) * Product(asg, a[1..]) * Product(asg, b);
    }
  }

  // ------------------------------------------------------------------ scaling

  function ScaleTerm(p: int, t: Term, k: int): Term
    requires p > 0
  {
    match t
    case Constant(c) => Constant((c * k) % p)
    case Expression(c, vs) => Expression((c * k) % p, vs)
  }

  function Scaled(p: int, s: seq<Term>, k: int): (r: seq<Term>)
    requires p > 0
    ensures |r| == |s|
  {
    seq(|s|, i requires 0 <= i < |s| => ScaleTerm(p, s[i], k))
  }

  lemma ScaleTermValue(p: int, t: Term, k: int, asg: Assignment)
    requires p > 0
    ensures TermValue(ScaleTerm(p, t, k), asg) % p == (k * TermValue(t, asg)) % p
  {
    var c, v := t.Coef(), Product(asg, t.Vars());
    MulModLeft(c * k, v, p);
    assert c * k * v == k * (c * v) by { assert c * k == k * c; assert k * c * v == k * (c * v); }
  }

  lemma ScaledHead(p: int, s: seq<Term>, k: int)
    requires p > 0 && s != []
    ensures Scaled(p, s, k)[0] == ScaleTerm(p, s[0], k) && Scaled(p, s, k)[1..] == Scaled(p, s[1..], k)
  {
  }

  lemma {:induction false} EvalScaled(p: int, s: seq<Term>, k: int, asg: Assignment)
    requires p > 0
    ensures Eval(Scaled(p, s, k), asg) % p == (k * Eval(s, asg)) % p
  {
    if s != [] {
      var r := Scaled(p, s, k);
      ScaledHead(p, s, k);
      EvalScaled(p, s[1..], k, asg);
      ScaleTermValue(p, s[0], k, asg);
      assert Eval(r, asg) == TermValue(r[0], asg) + Eval(r[1..], asg);
      assert Eval(s, asg) == TermValue(s[0], asg) + Eval(s[1..], asg);
      hide Scaled, ScaleTerm, TermValue, Eval;
      SumScaled(p, k, TermValue(r[0], asg), TermValue(s[0], asg), Eval(r[1..], asg), Eval(s[1..], asg));
    }
  }

  lemma SumScaled(p: int, k: int, a: int, b: int, c: int, d: int)
    requires p > 0 && a % p == (k * b) % p && c % p == (k * d) % p
    ensures (a + c) % p == (k * (b + d)) % p
  {
    AddMod(a, c, p);
    AddMod(k * b, k * d, p);
    assert k * (b + d) == k * b + k * d;
  }

  lemma ScaledValid(p: int, s: seq<Term>, k: int)
    requires p > 0 && AllValid(p, s)
    ensures AllValid(p, Scaled(p, s, k))
  {
    var r := Scaled(p, s, k);
    forall i | 0 <= i < |r|
      ensures r[i].Valid(p)
    {
      assert s[i].Valid(p);
      assert 0 <= (s[i].Coef() * k) % p < p;
    }
  }

  // ----------------------------------------------------------- sum, difference

  /** Concatenates and normalises. */
  method Add(p: int, a: seq<Term>, b: seq<Term>) returns (r: Outcome<seq<Term>>)
    requires p > 0 && AllValid(p, a) && AllValid(p, b)
    ensures r.Done? <==> QuadraticAtMost(p, a + b)
    ensures r.Done? ==> Normal(p, r.value) && SamePoly(p, r.value, a + b)
    ensures r.Done? ==> forall asg: Assignment :: Eval(r.value, asg) % p == (Eval(a, asg) + Eval(b, asg)) % p
  {
    hide QuadraticAtMost, Normal, SamePoly, Eval;
    r := Normalize(p, a + b);
    if r.Done? {
      SamePolyAgrees(p, r.value, a + b);
      forall asg: Assignment
        ensures Eval(r.value, asg) % p == (Eval(a, asg) + Eval(b, asg)) % p
      {
        EvalAppend(a, b, asg);
      }
    }
  }

  /** Scales the right side by minus one, concatenates and normalises. */
  method Sub(p: int, a: seq<Term>, b: seq<Term>) returns (r: Outcome<seq<Term>>)
    requires p > 1 && AllValid(p, a) && AllValid(p, b)
    ensures r.Done? <==> QuadraticAtMost(p, a + Scaled(p, b, p - 1))
    ensures r.Done? ==> Normal(p, r.value)
    ensures r.Done? ==> forall asg: Assignment :: Eval(r.value, asg) % p == (Eval(a, asg) - Eval(b, asg)) % p
  {
    hide QuadraticAtMost, Normal, SamePoly, Eval, Scaled;
    ScaledValid(p, b, p - 1);
    r := Add(p, a, Scaled(p, b, p - 1));
    if r.Done? {
      forall asg: Assignment
        ensures Eval(r.value, asg) % p == (Eval(a, asg) - Eval(b, asg)) % p
      {
        EvalScaled(p, b, p - 1, asg);
        ReplaceInSum(p, Eval(a, asg), Eval(Scaled(p, b, p - 1), asg), (p - 1) * Eval(b, asg));
        MinusOne(p, Eval(a, asg), Eval(b, asg));
      }
    }
  }

  lemma MinusOne(p: int, a: int, b: int)
    requires p > 0
    ensures (a + (p - 1) * b) % p == (a - b) % p
  {
    ModShift(a - b, b, p);
    assert (p - 1) * b == b * p - b;
  }

  // ------------------------------------------------------------------ products

  /** The product of two terms; the slots hold four variables. */
  predicate Fits(s: Term, t: Term) { |s.Vars()| + |t.Vars()| <= TERM_INNER_CAPACITY }

  function TermProduct(p: int, s: Term, t: Term): Term
    requires p > 0
  {
    match (s, t)
    case (Constant(a), Constant(b)) => Constant((a * b) % p)
    case (Expression(a, x), Constant(b)) => Expression((a * b) % p, x)
    case (Constant(a), Expression(b, y)) => Expression((a * b) % p, y)
    case (Expression(a, x), Expression(b, y)) => Expression((a * b) % p, x + y)
  }

  lemma TermProductShape(p: int, s: Term, t: Term)
    requires p > 0
    ensures var r := TermProduct(p, s, t);
      r.Coef() == (s.Coef() * t.Coef()) % p && r.Vars() == s.Vars() + t.Vars() && r.Degree() == s.Degree() + t.Degree()
    ensures s.Valid(p) && t.Valid(p) && Fits(s, t) ==> TermProduct(p, s, t).Valid(p)
  {
  }

  lemma TermProductValue(p: int, s: Term, t: Term, asg: Assignment)
    requires p > 0
    ensures TermValue(TermProduct(p, s, t), asg) % p == (TermValue(t, asg) * TermValue(s, asg)) % p
  {
    TermProductShape(p, s, t);
    ProductConcat(asg, s.Vars(), t.Vars());
    hide TermProduct;
    var a, b, x, y := s.Coef(), t.Coef(), Product(asg, s.Vars()), Product(asg, t.Vars());
    hide Product;
    MulModLeft(a * b, x * y, p);
    Interchange(b, a, y, x);
    assert a * b == b * a && x * y == y * x;
  }

  lemma Interchange(a: int, b: int, x: int, y: int)
    ensures (a * b) * (x * y) == (a * x) * (b * y)
  {
    assert (a * b) * (x * y) == a * (b * (x * y));
    assert b * (x * y) == x * (b * y) by { SwapFactors(b, x, y); }
    assert a * (x * (b * y)) == (a * x) * (b * y);
  }

  /** Every term times `t`. */
  function Products(p: int, c: seq<Term>, t: Term): (r: seq<Term>)
    requires p > 0
    ensures |r| == |c|
  {
    seq(|c|, i requires 0 <= i < |c| => TermProduct(p, c[i], t))
  }

  lemma {:induction false} EvalProducts(p: int, c: seq<Term>, t: Term, asg: Assignment)
    requires p > 0
    ensures Eval(Products(p, c, t), asg) % p == (TermValue(t, asg) * Eval(c, asg)) % p
  {
    if c != [] {
      var r := Products(p, c, t);
      assert r[0] == TermProduct(p, c[0], t) && r[1..] == Products(p, c[1..], t);
      EvalProducts(p, c[1..], t, asg);
      TermProductValue(p, c[0], t, asg);
      var v := TermValue(t, asg);
      assert Eval(r, asg) == TermValue(r[0], asg) + Eval(r[1..], asg);
      assert Eval(c, asg) == TermValue(c[0], asg) + Eval(c[1..], asg);
      hide Products, TermProduct, TermValue, Eval;
      SumScaled(p, v, TermValue(r[0], asg), TermValue(c[0], asg), Eval(r[1..], asg), Eval(c[1..], asg));
    }
  }

  /** When multiplying by a term returns: every product fits, and no partial sum keeps a monomial above degree two. */
  ghost predicate TermMulDefined(p: int, c: seq<Term>, t: Term)
    requires p > 0
  {
    && (forall i :: 0 <= i < |c| ==> Fits(c[i], t))
    && (forall k :: 0 <= k <= |c| ==> QuadraticAtMost(p, Products(p, c[..k], t)))
  }

  lemma ProductsSnoc(p: int, c: seq<Term>, t: Term, k: nat)
    requires p > 0 && k < |c|
    ensures Products(p, c[..k + 1], t) == Products(p, c[..k], t) + [TermProduct(p, c[k], t)]
  {
  }

  /** Term by term, normalising after every addition. */
  method MulByTerm(p: int, c: seq<Term>, t: Term) returns (r: Outcome<seq<Term>>)
    requires p > 0 && AllValid(p, c) && t.Valid(p)
    ensures r.Done? <==> TermMulDefined(p, c, t)
    ensures r.Done? ==> Normal(p, r.value) && SamePoly(p, r.value, Products(p, c, t))
  {
    hide QuadraticAtMost, Products, TermProduct, SamePoly, Normal, Fits;
    var ans: seq<Term> := [];
    NormalEmpty(p);
    ProductsEmpty(p, c, t);
    SamePolyTransitive(p, [], [], []);
    for k := 0 to |c|
      invariant forall i :: 0 <= i < k ==> Fits(c[i], t)
      invariant forall l :: 0 <= l <= k ==> QuadraticAtMost(p, Products(p, c[..l], t))
      invariant Normal(p, ans) && AllValid(p, ans) && SamePoly(p, ans, Products(p, c[..k], t))
    {
      if !Fits(c[k], t) { return Panic; }
      TermProductShape(p, c[k], t);
      var next := [TermProduct(p, c[k], t)];
      SamePolyAppend(p, ans, Products(p, c[..k], t), next);
      ProductsSnoc(p, c, t, k);
      SamePolyQuadratic(p, ans + next, Products(p, c[..k + 1], t));
      var sum := Add(p, ans, next);
      if sum.Panic? {
        assert !QuadraticAtMost(p, Products(p, c[..k + 1], t));
        return Panic;
      }
      SamePolyTransitive(p, sum.value, ans + next, Products(p, c[..k + 1], t));
      ans := sum.value;
      NormalValid(p, ans);
    }
    assert c[..|c|] == c;
    NormalDefined(p, ans);
    r := Normalize(p, ans);
    SamePolyTransitive(p, r.value, ans, Products(p, c, t));
  }

  lemma SamePolyTransitive(p: int, s: seq<Term>, t: seq<Term>, u: seq<Term>)
    requires p > 0
    ensures SamePoly(p, s, s)
    ensures SamePoly(p, s, t) && SamePoly(p, t, u) ==> SamePoly(p, s, u)
  {
  }

  lemma NormalEmpty(p: int)
    requires p > 0
    ensures Normal(p, []) && QuadraticAtMost(p, [])
  {
    LowDegreeQuadratic(p, []);
  }

  lemma ProductsEmpty(p: int, c: seq<Term>, t: Term)
    requires p > 0
    ensures c[..0] == [] && Products(p, c[..0], t) == []
  {
  }

  lemma NormalValid(p: int, s: seq<Term>)
    requires Normal(p, s)
    ensures AllValid(p, s)
  {
  }

  lemma NormalDefined(p: int, s: seq<Term>)
    requires p > 0 && Normal(p, s)
    ensures QuadraticAtMost(p, s) && AllValid(p, s)
  {
    LowDegreeQuadratic(p, s);
  }

  /** All products of a term of `c` with a term of `d`. */
  function AllProducts(p: int, c: seq<Term>, d: seq<Term>): seq<Term>
    requires p > 0
  {
    if c == [] then [] else AllProducts(p, c[..|c| - 1], d) + Products(p, d, c[|c| - 1])
  }

  lemma AllProductsSnoc(p: int, c: seq<Term>, d: seq<Term>, k: nat)
    requires p > 0 && k < |c|
    ensures AllProducts(p, c[..k + 1], d) == AllProducts(p, c[..k], d) + Products(p, d, c[k])
  {
    assert c[..k + 1][..k] == c[..k];
  }

  lemma {:induction false} EvalAllProducts(p: int, c: seq<Term>, d: seq<Term>, asg: Assignment)
    requires p > 0
    ensures Eval(AllProducts(p, c, d), asg) % p == (Eval(d, asg) * Eval(c, asg)) % p
  {
    hide Products, Eval, TermValue;
    if c == [] {
      EvalEmpty(asg);
    } else {
      var n := |c| - 1;
      var v, ev, tv := Eval(d, asg), Eval(c[..n], asg), TermValue(c[n], asg);
      var a, b := Eval(AllProducts(p, c[..n], d), asg), Eval(Products(p, d, c[n]), asg);
      assert Eval(c, asg) == ev + tv by {
        assert c == c[..n] + [c[n]];
        EvalSnoc(c[..n], c[n], asg);
      }
      assert Eval(AllProducts(p, c, d), asg) == a + b by {
        EvalAppend(AllProducts(p, c[..n], d), Products(p, d, c[n]), asg);
      }
      EvalAllProducts(p, c[..n], d, asg);
      EvalProducts(p, d, c[n], asg);
      SumScaledFlipped(p, v, a, ev, b, tv);
    }
  }

  lemma EvalEmpty(asg: Assignment)
    ensures Eval([], asg) == 0
  {
  }

  lemma SumScaledFlipped(p: int, k: int, a: int, b: int, c: int, d: int)
    requires p > 0 && a % p == (k * b) % p && c % p == (d * k) % p
    ensures (a + c) % p == (k * (b + d)) % p
  {
    assert d * k == k * d;
    SumScaled(p, k, a, b, c, d);
  }

  ghost predicate MulDefined(p: int, c: seq<Term>, d: seq<Term>)
    requires p > 0
  {
    && (forall k :: 0 <= k < |c| ==> TermMulDefined(p, d, c[k]))
    && (forall k :: 0 <= k <= |c| ==> QuadraticAtMost(p, AllProducts(p, c[..k], d)))
  }

  /** Distributes over the terms of the left factor, normalising every partial sum. */
  method Mul(p: int, c: seq<Term>, d: seq<Term>) returns (r: Outcome<seq<Term>>)
    requires p > 0 && AllValid(p, c) && AllValid(p, d)
    ensures r.Done? <==> MulDefined(p, c, d)
    ensures r.Done? ==> Normal(p, r.value) && SamePoly(p, r.value, AllProducts(p, c, d))
  {
    hide QuadraticAtMost, Products, AllProducts, SamePoly, Normal, TermMulDefined;
    var ans: seq<Term> := [];
    NormalEmpty(p);
    AllProductsEmpty(p, c, d);
    SamePolyTransitive(p, [], [], []);
    for k := 0 to |c|
      invariant forall i :: 0 <= i < k ==> TermMulDefined(p, d, c[i])
      invariant forall l :: 0 <= l <= k ==> QuadraticAtMost(p, AllProducts(p, c[..l], d))
      invariant Normal(p, ans) && AllValid(p, ans) && SamePoly(p, ans, AllProducts(p, c[..k], d))
    {
      var part := MulByTerm(p, d, c[k]);
      if part.Panic? { return Panic; }
      NormalValid(p, part.value);
      var target := AllProducts(p, c[..k + 1], d);
      AllProductsSnoc(p, c, d, k);
      SamePolySum(p, ans, AllProducts(p, c[..k], d), part.value, Products(p, d, c[k]));
      SamePolyQuadratic(p, ans + part.value, target);
      var sum := Add(p, ans, part.value);
      if sum.Panic? {
        assert !QuadraticAtMost(p, AllProducts(p, c[..k + 1], d));
        return Panic;
      }
      SamePolyTransitive(p, sum.value, ans + part.value, target);
      ans := sum.value;
      NormalValid(p, ans);
    }
    assert c[..|c|] == c;
    r := Done(ans);
  }

  lemma AllProductsEmpty(p: int, c: seq<Term>, d: seq<Term>)
    requires p > 0
    ensures c[..0] == [] && AllProducts(p, c[..0], d) == []
  {
  }

  lemma SamePolySum(p: int, s: seq<Term>, s': seq<Term>, t: seq<Term>, t': seq<Term>)
    requires p > 0 && SamePoly(p, s, s') && SamePoly(p, t, t')
    ensures SamePoly(p, s + t, s' + t')
  {
    forall w: Weight
      ensures Weigh(s + t, w) % p == Weigh(s' + t', w) % p
    {
      assert Weigh(s, w) % p == Weigh(s', w) % p && Weigh(t, w) % p == Weigh(t', w) % p;
      WeighAppend(s, t, w);
      WeighAppend(s', t', w);
      hide Weigh, SamePoly;
      AddMod(Weigh(s, w), Weigh(t, w), p);
      AddMod(Weigh(s', w), Weigh(t', w), p);
    }
  }

  /** The product of two constraints has the product of their values. */
  lemma MulValue(p: int, c: seq<Term>, d: seq<Term>, r: seq<Term>, asg: Assignment)
    requires p > 0 && SamePoly(p, r, AllProducts(p, c, d))
    ensures Eval(r, asg) % p == (Eval(c, asg) * Eval(d, asg)) % p
  {
    SamePolySameValue(p, r, AllProducts(p, c, d), asg);
    EvalAllProducts(p, c, d, asg);
    assert Eval(c, asg) * Eval(d, asg) == Eval(d, asg) * Eval(c, asg);
  }

  // ------------------------------------------------- when a product is defined

  lemma ProductsQuadratic(p: int, c: seq<Term>, t: Term)
    requires p > 0 && t.Degree() <= MAX_DEGREE && DegreesAtMost(MAX_DEGREE - t.Degree(), c)
    ensures QuadraticAtMost(p, Products(p, c, t)) && forall u :: u in Products(p, c, t) ==> u.Degree() <= MAX_DEGREE
  {
    var r := Products(p, c, t);
    forall u | u in r
      ensures u.Degree() <= MAX_DEGREE
    {
      var i :| 0 <= i < |r| && r[i] == u;
      TermProductShape(p, c[i], t);
    }
    LowTermsQuadratic(p, r);
  }

  lemma LowTermsQuadratic(p: int, r: seq<Term>)
    requires p > 0 && forall u :: u in r ==> u.Degree() <= MAX_DEGREE
    ensures QuadraticAtMost(p, r)
  {
    forall m: seq<Var> | |m| > MAX_DEGREE
      ensures CoefOf(r, m) % p == 0
    {
      forall u | u in r
        ensures Mono(u) != m
      {
        assert |Mono(u)| == |u.Vars()|;
      }
      hide CoefOf, Mono;
      CoefAbsent(r, m);
    }
  }

  lemma {:induction false} AllProductsLow(p: int, c: seq<Term>, d: seq<Term>, a: nat, b: nat)
    requires p > 0 && DegreesAtMost(a, c) && DegreesAtMost(b, d) && a + b <= MAX_DEGREE
    ensures QuadraticAtMost(p, AllProducts(p, c, d)) && forall u :: u in AllProducts(p, c, d) ==> u.Degree() <= MAX_DEGREE
  {
    if c != [] {
      var n := |c| - 1;
      AllProductsLow(p, c[..n], d, a, b);
      ProductsQuadratic(p, d, c[n]);
    }
    hide Products, QuadraticAtMost;
    LowTermsQuadratic(p, AllProducts(p, c, d));
  }

  lemma LowDegreesDefined(p: int, c: seq<Term>, d: seq<Term>, a: nat, b: nat)
    requires p > 0 && DegreesAtMost(a, c) && DegreesAtMost(b, d) && a + b <= MAX_DEGREE
    ensures MulDefined(p, c, d)
  {
    forall k | 0 <= k < |c|
      ensures TermMulDefined(p, d, c[k])
    {
      forall l | 0 <= l <= |d|
        ensures QuadraticAtMost(p, Products(p, d[..l], c[k]))
      {
        ProductsQuadratic(p, d[..l], c[k]);
      }
    }
    hide AllProducts, Products, QuadraticAtMost;
    forall k | 0 <= k <= |c|
      ensures QuadraticAtMost(p, AllProducts(p, c[..k], d))
    {
      AllProductsLow(p, c[..k], d, a, b);
    }
  }

  /** One product term of degree above two with a nonzero coefficient is enough to refuse. */
  lemma HighProductRefused(p: int, s: Term, t: Term)
    requires IsPrime(p) && 0 < s.Coef() < p && 0 < t.Coef() < p && s.Degree() + t.Degree() > MAX_DEGREE
    ensures !QuadraticAtMost(p, [TermProduct(p, s, t)])
  {
    var r := TermProduct(p, s, t);
    TermProductShape(p, s, t);
    assert r.Coef() != 0 by {
      DivModUnique(s.Coef(), 0, s.Coef(), p);
      DivModUnique(t.Coef(), 0, t.Coef(), p);
      if (s.Coef() * t.Coef()) % p == 0 { NoZeroDivisors(s.Coef(), t.Coef(), p); }
    }
    assert 0 < r.Coef() < p;
    DivModUnique(r.Coef(), 0, r.Coef(), p);
    hide TermProduct, IsPrime;
    assert CoefOf([r], Mono(r)) == r.Coef() by { assert [r][1..] == []; }
    hide CoefOf;
    assert |Mono(r)| > MAX_DEGREE && CoefOf([r], Mono(r)) % p != 0;
  }

  lemma HeadDegree(p: int, s: seq<Term>)
    requires Normal(p, s) && s != []
    ensures s[0].Degree() == MaxDegree(s)
  {
    hide MaxDegree, MonoLess, Settled;
    forall t | t in s[1..]
      ensures t.Degree() <= s[0].Degree()
    {
      StrictHead(s, t);
      MonoLessDegree(s[0], t);
    }
    assert forall i :: 0 <= i < |s| ==> s[i].Degree() <= s[0].Degree() by {
      assert forall i :: 1 <= i < |s| ==> s[i] in s[1..];
    }
  }

  lemma MonoLessDegree(s: Term, t: Term)
    requires MonoLess(s.Vars(), t.Vars())
    ensures t.Degree() <= s.Degree()
  {
  }

  /** The product of two normalised constraints is defined exactly when the degrees add up to at most two. */
  lemma MulDefinedExactly(p: int, c: seq<Term>, d: seq<Term>)
    requires IsPrime(p) && Normal(p, c) && Normal(p, d) && c != [] && d != []
    ensures MulDefined(p, c, d) <==> MaxDegree(c) + MaxDegree(d) <= MAX_DEGREE
  {
    HeadDegree(p, c);
    HeadDegree(p, d);
    NormalTail(p, c);
    NormalTail(p, d);
    hide Normal, IsPrime, MaxDegree;
    if MaxDegree(c) + MaxDegree(d) <= MAX_DEGREE {
      LowDegreesDefined(p, c, d, MaxDegree(c), MaxDegree(d));
    } else {
      assert Products(p, d[..1], c[0]) == [TermProduct(p, d[0], c[0])];
      HighProductRefused(p, d[0], c[0]);
      hide QuadraticAtMost, TermProduct, Products, AllProducts;
      assert !TermMulDefined(p, d, c[0]);
    }
  }
}
