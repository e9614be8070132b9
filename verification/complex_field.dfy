/**
  The complex extension as a field in the sense of the generic code, so that batch inversion and the
  tables of powers apply to it; and what such a table holds for the generator of a domain.
 */
module ComplexField {
  import opened Options
  import opened ModArith
  import opened Gaussian
  import opened Mersenne31Prime
  import opened FieldOps
  import opened Complex
  import opened ComplexDomain
  import opened WorkerGeometry
  import opened FieldPowers

  type Element = g: G | 0 <= g.re < P && 0 <= g.im < P witness G(0, 0)

  function Reduced(g: G): Element { G(g.re % P, g.im % P) }

  lemma ReducedCong(x: G, y: G)
    ensures Reduced(x) == Reduced(y) <==> Cong(x, y, P)
    ensures Cong(Reduced(x), x, P)
  {
  }

  function Times(a: Element, b: Element): Element { Reduced(Gaussian.Mul(a, b)) }

  ghost function Inv(a: Element): (r: Option<Element>)
    ensures a == G(0, 0) ==> r.None?
    ensures a != G(0, 0) ==> r.Some? && Times(a, r.value) == ONE
  {
    if a == G(0, 0) then None
    else
      ElementInverse(a);
      var u: Element :| Times(a, u) == ONE;
      Some(u)
  }

  /** Conjugate over norm. */
  lemma ElementInverse(a: Element)
    requires a != G(0, 0)
    ensures exists u: Element :: Times(a, u) == ONE
  {
    hide IsPrime, Times;
    NormZero(a.re, a.im);
    PIsPrime();
    var n := (a.re * a.re + a.im * a.im) % P;
    var w := InverseExists(n, P);
    ConjugateOverNorm(a, n, w);
  }

  lemma ConjugateOverNorm(a: Element, n: int, w: int)
    requires n == (a.re * a.re + a.im * a.im) % P && (n * w) % P == 1
    ensures Times(a, Reduced(G(a.re * w, -(a.im * w)))) == ONE
  {
    var g := G(a.re * w, -(a.im * w));
    ReducedCong(g, g);
    var u := Reduced(g);
    InverseProduct(a.re, a.im, n, w, u.re, u.im);
    ReducedCong(Gaussian.Mul(a, u), ONE);
  }

  ghost function ComplexNumbers(): Field<Element> { Field(G(0, 0), ONE, Times, Inv) }

  lemma TimesAssoc(a: Element, b: Element, c: Element)
    ensures Times(Times(a, b), c) == Times(a, Times(b, c))
  {
    var ab, bc := Gaussian.Mul(a, b), Gaussian.Mul(b, c);
    ReducedCong(ab, ab);
    ReducedCong(bc, bc);
    CongMul(Reduced(ab), ab, c, c, P);
    CongMul(a, a, Reduced(bc), bc, P);
    MulAssoc(a, b, c);
    ReducedCong(Gaussian.Mul(Reduced(ab), c), Gaussian.Mul(a, Reduced(bc)));
  }

  lemma TimesUnits(a: Element, b: Element)
    ensures Times(a, b) == Times(b, a) && Times(ONE, a) == a && Times(G(0, 0), a) == G(0, 0)
  {
    MulComm(a, b);
    MulOne(a);
  }

  lemma ComplexLawful()
    ensures Lawful(ComplexNumbers())
  {
    var f := ComplexNumbers();
    forall a: Element, b: Element, c: Element
      ensures LawAt(f, a, b, c)
    {
      TimesAssoc(a, b, c);
      TimesUnits(a, b);
      hide Times, Inv;
      assert Inv(G(0, 0)).None?;
    }
  }

  /** Powers of the reduced element are the reduced powers. */
  lemma {:induction false} PowReduced(g: G, e: nat)
    ensures FieldOps.Pow(ComplexNumbers(), Reduced(g), e) == Reduced(Gaussian.Pow(g, e))
  {
    if e > 0 {
      PowReduced(g, e - 1);
      var w := Gaussian.Pow(g, e - 1);
      ReducedCong(w, w);
      ReducedCong(g, g);
      CongMul(Reduced(w), w, Reduced(g), g, P);
      MulComm(w, g);
      ReducedCong(Gaussian.Mul(Reduced(w), Reduced(g)), Gaussian.Mul(g, w));
    }
  }

  /** The table of the 2^k powers of a domain generator has no entry twice, and the next power is one again. */
  lemma DomainTable(g: G, k: nat, i: nat, j: nat)
    requires 0 < k <= TWO_ADICITY && GeneratorPower(g, TWO_ADICITY - k) && i < j < Exp2(k)
    ensures FieldOps.Pow(ComplexNumbers(), Reduced(g), i) != FieldOps.Pow(ComplexNumbers(), Reduced(g), j)
    ensures FieldOps.Pow(ComplexNumbers(), Reduced(g), Exp2(k)) == ONE
  {
    hide Gaussian.Pow, FieldOps.Pow, GeneratorPower, HasOrder;
    PowReduced(g, i);
    PowReduced(g, j);
    PowReduced(g, Exp2(k));
    PowersOfDomain(g, k, i, j);
    GeneratorOrder(g, k);
    OrderIsOne(g, k);
    ReducedCong(Gaussian.Pow(g, i), Gaussian.Pow(g, j));
    ReducedCong(Gaussian.Pow(g, Exp2(k)), ONE);
  }

  /** For the generator of any domain 2^32 steps make one, so the chunked table is the serial one at every size. */
  lemma DomainTableAnySize(g: G, k: nat, first: Element, geometry: Geometry, s: seq<Element>)
    requires k <= TWO_ADICITY && GeneratorPower(g, TWO_ADICITY - k)
    requires geometry.Covers(|s|) && Chunked(ComplexNumbers(), first, Reduced(g), geometry, s)
    ensures Serial(ComplexNumbers(), first, Reduced(g), s)
  {
    var f := ComplexNumbers();
    ComplexLawful();
    hide ComplexNumbers, Lawful, Gaussian.Pow, FieldOps.Pow, GeneratorPower, HasOrder, Chunked, Serial, Exp2;
    PowReduced(g, Exp2(k));
    GeneratorOrder(g, k);
    OrderIsOne(g, k);
    ReducedCong(Gaussian.Pow(g, Exp2(k)), ONE);
    Exp2Adds(k, 32 - k);
    Exp2At32();
    assert FieldOps.Pow(f, Reduced(g), Exp2(k)) == f.one by { UnitIsOne(); }
    PowOneMultiple(f, Reduced(g), Exp2(k), Exp2(32 - k));
    SerialAtSize(f, first, Reduced(g), geometry, s);
  }

  lemma UnitIsOne()
    ensures ComplexNumbers().one == Reduced(ONE)
  {
  }
}
