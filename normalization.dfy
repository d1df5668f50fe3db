/**
 * Main variable, degree, coefficients in the main variable, the sign of the
 * leading coefficient, and the content and unit normalisation built on them
 * (`unit_part`, `coprime_coefficients`, `normalized`, `is_normal`).
 */
module Normalization {
  import opened Wrappers
  import opened Integers
  import opened Contexts
  import opened Monomials
  import opened Polynomials
  import opened Traversal
  import opened VarCoefficients

  /** `is_zero`: no monomial. */
  predicate IsZero(p: Polynomial)
  {
    p.terms == []
  }

  /** `is_constant`: no variable occurs. */
  predicate IsConstant(p: Polynomial)
  {
    Vars(p.terms) == {}
  }

  /** `is_number`: the same test as `is_constant`. */
  predicate IsNumber(p: Polynomial)
  {
    IsConstant(p)
  }

  /** A valid polynomial is zero exactly when it gives every power product the coefficient 0. */
  lemma IsZeroMeaning(p: Polynomial)
    requires Valid(p)
    ensures IsZero(p) ==> forall pp :: CoeffAt(p.terms, pp) == 0
    ensures (forall pp :: CoeffAt(p.terms, pp) == 0) ==> IsZero(p)
  {
    if !IsZero(p) {
      CoeffAtPresent(p.terms, 0, p.terms[0].powers);
    }
  }

  lemma VarsOfEmpty(ps: seq<Power>)
    ensures VarsOf(ps) == {} <==> ps == []
  {
    if ps != [] {
      assert ps[0].v in VarsOf(ps);
    }
  }

  lemma TermVars(ts: seq<Monomial>, k: nat)
    requires k < |ts|
    ensures VarsOf(ts[k].powers) <= Vars(ts)
  {
    forall w | w in VarsOf(ts[k].powers) ensures w in Vars(ts) {
      VarsMember(ts, w);
    }
  }

  /** Every variable of a valid polynomial is known to its context. */
  lemma VarsKnown(p: Polynomial, w: VarId)
    requires Valid(p) && w in Vars(p.terms)
    ensures p.context.Has(w)
  {
    VarsMember(p.terms, w);
    var k :| 0 <= k < |p.terms| && w in VarsOf(p.terms[k].powers);
    var j :| 0 <= j < |p.terms[k].powers| && p.terms[k].powers[j].v == w;
    assert Known(p.context, p.terms[k].powers);
  }

  /** Two monomials with distinct power products cannot both be without variables. */
  lemma TwoPowerProducts(ts: seq<Monomial>)
    requires DistinctPowers(ts)
    ensures |ts| >= 2 ==> exists k :: 0 <= k < |ts| && ts[k].powers != []
  {
    if |ts| >= 2 {
      assert ts[0].powers != ts[1].powers;
    }
  }

  /**
   * A valid polynomial is constant exactly when it is zero or a single
   * monomial without variables, whose coefficient is then the constant part.
   */
  lemma ConstantShape(p: Polynomial)
    requires Valid(p)
    ensures IsConstant(p) <==> p.terms == [] || p.terms == [Monomial(ConstantPart(p.terms), [])]
    ensures IsConstant(p) && !IsZero(p) ==> ConstantPart(p.terms) != 0
  {
    var ts := p.terms;
    if IsConstant(p) {
      forall k | 0 <= k < |ts| ensures ts[k].powers == [] {
        TermVars(ts, k);
        VarsOfEmpty(ts[k].powers);
      }
      TwoPowerProducts(ts);
    }
    if |ts| == 1 {
      assert ts[..0] == [];
      VarsOfEmpty(ts[0].powers);
      assert Vars(ts) == VarsOf(ts[0].powers);
      assert ConstantPart(ts) == if ts[0].powers == [] then ts[0].coeff else 0;
    }
  }

  /** The variable of larger rank, either one when the other is absent. */
  function Higher(c: Context, a: Option<VarId>, b: Option<VarId>): Option<VarId>
  {
    if a.None? then b
    else if b.None? then a
    else if c.Rank(b.value) > c.Rank(a.value) then b
    else a
  }

  /** The variable of largest rank in a power product. */
  function TopOfPowers(c: Context, ps: seq<Power>): (r: Option<VarId>)
    ensures r.None? <==> VarsOf(ps) == {}
    ensures r.Some? ==> r.value in VarsOf(ps) && forall w :: w in VarsOf(ps) ==> c.Rank(w) <= c.Rank(r.value)
  {
    VarsOfEmpty(ps);
    if ps == [] then None
    else
      VarsOfSnoc(ps);
      Higher(c, TopOfPowers(c, ps[..|ps| - 1]), Some(ps[|ps| - 1].v))
  }

  /** `lp_polynomial_top_variable`: the variable of largest rank occurring in the polynomial. */
  function TopVar(c: Context, ts: seq<Monomial>): (r: Option<VarId>)
    ensures r.None? <==> Vars(ts) == {}
    ensures r.Some? ==> r.value in Vars(ts) && forall w :: w in Vars(ts) ==> c.Rank(w) <= c.Rank(r.value)
  {
    if ts == [] then None
    else Higher(c, TopVar(c, ts[..|ts| - 1]), TopOfPowers(c, ts[|ts| - 1].powers))
  }

  /** `main_var`: none for a constant polynomial, else the top variable. */
  function MainVar(p: Polynomial): (r: Option<VarId>)
    ensures r.None? <==> IsConstant(p)
    ensures r.Some? ==> r.value in Vars(p.terms) && forall w :: w in Vars(p.terms) ==> p.context.Rank(w) <= p.context.Rank(r.value)
  {
    TopVar(p.context, p.terms)
  }

  /** `degree()` (`lp_polynomial_degree`): the degree in the main variable, 0 for a constant. */
  function Degree(p: Polynomial): nat
  {
    match MainVar(p)
    case None => 0
    case Some(x) => DegreeOf(p.terms, x)
  }

  /**
   * `coeff(k)` (`lp_polynomial_get_coefficient`): the coefficient of the k-th
   * power of the main variable; a constant is its own coefficient of index 0.
   */
  function Coeff(p: Polynomial, k: nat): (r: Polynomial)
    ensures r.context == p.context
  {
    match MainVar(p)
    case None => if k == 0 then p else Polynomial(p.context, [])
    case Some(x) => Polynomial(p.context, CoefficientOf(p.terms, x, k))
  }

  /**
   * Meaning of `coeff(k)` for a non-constant polynomial: the coefficient it
   * gives a power product without the main variable is the coefficient the
   * polynomial gives that product times the k-th power of the main variable.
   */
  lemma CoeffMeaning(p: Polynomial, k: nat, qq: seq<Power>)
    requires Valid(p) && !IsConstant(p)
    requires WellFormed(p.context, qq) && ExpOf(qq, MainVar(p).value) == k
    ensures CoeffAt(Coeff(p, k).terms, StripVar(qq, MainVar(p).value)) == CoeffAt(p.terms, qq)
  {
    CoefficientOfMeaning(p.context, p.terms, MainVar(p).value, k, qq);
  }

  /** Every coefficient above the degree is zero. */
  lemma CoeffAboveDegree(p: Polynomial, k: nat)
    requires k > Degree(p)
    ensures IsZero(Coeff(p, k))
  {
    if !IsConstant(p) {
      var x := MainVar(p).value;
      CollectedEmpty(p.terms, x, k);
    }
  }

  /** `lcoeff()`: the coefficient of the highest power of the main variable. */
  function LCoeff(p: Polynomial): (r: Polynomial)
    ensures r.context == p.context
  {
    Coeff(p, Degree(p))
  }

  /** `level_of`: 0 for a number, else one more than the position of the main variable in the ordering. */
  function LevelOf(p: Polynomial): (r: nat)
    ensures IsNumber(p) ==> r == 0
    ensures Valid(p) && !IsNumber(p) ==> 1 <= r <= |p.context.order| && p.context.order[r - 1] == MainVar(p).value
  {
    if IsNumber(p) then 0
    else
      var x := MainVar(p).value;
      if Valid(p) then
        VarsKnown(p, x);
        p.context.Rank(x) + 1
      else p.context.Rank(x) + 1
  }

  lemma {:induction false} SubsetCard<T>(a: set<T>, b: set<T>)
    requires a <= b
    ensures |a| <= |b|
    decreases |a|
  {
    if a != {} {
      var y :| y in a;
      SubsetCard(a - {y}, b - {y});
    }
  }

  /** The leading coefficient of a non-constant polynomial has fewer variables. */
  lemma LCoeffShrinks(p: Polynomial)
    requires !IsConstant(p)
    ensures |Vars(LCoeff(p).terms)| < |Vars(p.terms)|
  {
    var x := MainVar(p).value;
    CoefficientOfVars(p.terms, x, Degree(p));
    SubsetCard(Vars(LCoeff(p).terms), Vars(p.terms) - {x});
  }

  /** The leading coefficient of a valid non-constant polynomial is a valid nonzero polynomial. */
  lemma LCoeffNonZero(p: Polynomial)
    requires Valid(p) && !IsConstant(p)
    ensures Valid(LCoeff(p)) && !IsZero(LCoeff(p))
  {
    var x := MainVar(p).value;
    var d := Degree(p);
    assert p.terms != [];
    var i :| 0 <= i < |p.terms| && ExpOf(p.terms[i].powers, x) == d;
    CoefficientOfNonZero(p, x, d, i);
    CoefficientOfValid(p, x, d);
  }

  /**
   * `lp_polynomial_lc_sgn`: the sign of the leading coefficient, taken
   * recursively through the leading coefficients in the main variables.
   */
  function LcSgn(p: Polynomial): int
    decreases |Vars(p.terms)|
  {
    match MainVar(p)
    case None => Sign(ConstantPart(p.terms))
    case Some(x) =>
      LCoeffShrinks(p);
      LcSgn(LCoeff(p))
  }

  /** The leading sign of a valid nonzero polynomial is 1 or -1. */
  lemma {:induction false} LcSgnUnit(p: Polynomial)
    requires Valid(p) && !IsZero(p)
    ensures LcSgn(p) == 1 || LcSgn(p) == -1
    decreases |Vars(p.terms)|
  {
    if IsConstant(p) {
      ConstantShape(p);
    } else {
      LCoeffShrinks(p);
      LCoeffNonZero(p);
      LcSgnUnit(LCoeff(p));
    }
  }

  lemma SignMul(a: int, b: int)
    ensures Sign(a * b) == Sign(a) * Sign(b)
  {
    if a == 0 || b == 0 {
      assert a * b == 0;
    } else if a > 0 && b > 0 {
      assert a * b > 0;
    } else if a < 0 && b < 0 {
      assert a * b == (-a) * (-b);
      assert (-a) * (-b) > 0;
    } else if a > 0 {
      assert a * (-b) > 0;
    } else {
      assert (-a) * b > 0;
    }
  }

  lemma {:induction false} VarsScale(ts: seq<Monomial>, n: int)
    ensures Vars(Scale(ts, n)) == Vars(ts)
  {
    if ts != [] {
      assert Scale(ts, n)[..|ts| - 1] == Scale(ts[..|ts| - 1], n);
      VarsScale(ts[..|ts| - 1], n);
    }
  }

  lemma {:induction false} TopVarScale(c: Context, ts: seq<Monomial>, n: int)
    ensures TopVar(c, Scale(ts, n)) == TopVar(c, ts)
  {
    if ts != [] {
      assert Scale(ts, n)[..|ts| - 1] == Scale(ts[..|ts| - 1], n);
      TopVarScale(c, ts[..|ts| - 1], n);
    }
  }

  lemma {:induction false} ConstantPartScale(ts: seq<Monomial>, n: int)
    ensures ConstantPart(Scale(ts, n)) == ConstantPart(ts) * n
  {
    if ts != [] {
      assert Scale(ts, n)[..|ts| - 1] == Scale(ts[..|ts| - 1], n);
      ConstantPartScale(ts[..|ts| - 1], n);
    }
  }

  /** Scaling by a nonzero integer multiplies the leading sign by the sign of the integer. */
  lemma {:induction false} LcSgnScale(p: Polynomial, n: int)
    requires n != 0
    ensures LcSgn(Polynomial(p.context, Scale(p.terms, n))) == Sign(n) * LcSgn(p)
    decreases |Vars(p.terms)|
  {
    var q := Polynomial(p.context, Scale(p.terms, n));
    TopVarScale(p.context, p.terms, n);
    VarsScale(p.terms, n);
    if IsConstant(p) {
      ConstantPartScale(p.terms, n);
      SignMul(ConstantPart(p.terms), n);
    } else {
      var x := MainVar(p).value;
      assert MonomialDegrees(q.terms, x) == MonomialDegrees(p.terms, x);
      var d := Degree(p);
      assert Degree(q) == d;
      CoefficientOfScale(p.terms, x, d, n);
      assert LCoeff(q) == Polynomial(p.context, Scale(LCoeff(p).terms, n));
      LCoeffShrinks(p);
      LcSgnScale(LCoeff(p), n);
    }
  }

  /** `unit_part`: 1 for the zero polynomial, else the sign of the leading coefficient. */
  function UnitPart(p: Polynomial): int
  {
    if IsZero(p) then 1 else LcSgn(p)
  }

  /** The unit part of a valid polynomial is a unit of the integers. */
  lemma UnitPartIsUnit(p: Polynomial)
    requires Valid(p)
    ensures UnitPart(p) == 1 || UnitPart(p) == -1
  {
    if !IsZero(p) {
      LcSgnUnit(p);
    }
  }

  /** `is_normal`: the unit part is 1. */
  predicate IsNormal(p: Polynomial)
  {
    UnitPart(p) == 1
  }

  /**
   * `coprime_coefficients` as written: `p` itself when the factor is 1, else
   * `p` divided by the constant polynomial of the factor. For the zero
   * polynomial the factor is 0 and the division by zero has no result.
   */
  function CoprimeCoefficientsAsWritten(p: Polynomial): (r: Option<Polynomial>)
    ensures r.None? <==> CoprimeFactor(p.terms) == 0
  {
    var g := CoprimeFactor(p.terms);
    if g == 1 then Some(p)
    else if g == 0 then None
    else Some(Polynomial(p.context, DivideTerms(p.terms, g)))
  }

  lemma ScaleOne(ts: seq<Monomial>)
    ensures Scale(ts, 1) == ts
  {
  }

  /**
   * `coprime_coefficients`, returning the zero polynomial unchanged: every
   * coefficient divided by the content, power products and order kept, and
   * the content scales the result back to `p`.
   */
  function CoprimeCoefficients(p: Polynomial): (r: Polynomial)
    ensures r.context == p.context
    ensures |r.terms| == |p.terms| && forall i :: 0 <= i < |p.terms| ==> r.terms[i].powers == p.terms[i].powers
    ensures CoprimeFactor(p.terms) != 0 ==> Scale(r.terms, CoprimeFactor(p.terms)) == p.terms
  {
    var g := CoprimeFactor(p.terms);
    if g == 0 || g == 1 then
      ScaleOne(p.terms);
      p
    else
      DivideThenScale(p.terms, g);
      Polynomial(p.context, DivideTerms(p.terms, g))
  }

  /** On the zero polynomial the code as written divides by zero; the corrected operation returns it. */
  lemma CoprimeCoefficientsOfZero(c: Context)
    ensures CoprimeCoefficientsAsWritten(Polynomial(c, [])).None?
    ensures CoprimeCoefficients(Polynomial(c, [])) == Polynomial(c, [])
  {
  }

  /** On every nonzero polynomial the code as written and the corrected operation agree. */
  lemma CoprimeCoefficientsAgree(p: Polynomial)
    requires NonZero(p.terms) && p.terms != []
    ensures CoprimeCoefficientsAsWritten(p) == Some(CoprimeCoefficients(p))
  {
    assert p.terms[0].coeff != 0;
  }

  /** The content-free part of a valid polynomial is valid, and its content is 1 unless it is zero. */
  lemma CoprimeCoefficientsValid(p: Polynomial)
    requires Valid(p)
    ensures Valid(CoprimeCoefficients(p))
    ensures p.terms != [] ==> CoprimeFactor(CoprimeCoefficients(p).terms) == 1
  {
    var r := CoprimeCoefficients(p);
    var g := CoprimeFactor(p.terms);
    if p.terms != [] {
      QuotientIsCoprime(p.terms);
      forall i | 0 <= i < |r.terms| ensures r.terms[i].coeff != 0 {
        assert Scale(r.terms, g)[i].coeff == p.terms[i].coeff;
      }
    }
  }

  /** `normalized`: the content-free part times its unit part. */
  function Normalized(p: Polynomial): (r: Polynomial)
    ensures r.context == p.context
  {
    var q := CoprimeCoefficients(p);
    TimesInt(q, UnitPart(q))
  }

  /**
   * `normalized` as written: it multiplies the result of `coprime_coefficients`
   * as written, so it inherits that division by zero on the zero polynomial.
   */
  function NormalizedAsWritten(p: Polynomial): (r: Option<Polynomial>)
    ensures r.None? <==> CoprimeFactor(p.terms) == 0
  {
    match CoprimeCoefficientsAsWritten(p)
    case None => None
    case Some(q) => Some(TimesInt(q, UnitPart(q)))
  }

  /** On the zero polynomial `normalized` as written divides by zero; the corrected operation returns it. */
  lemma NormalizedOfZero(c: Context)
    ensures NormalizedAsWritten(Polynomial(c, [])).None?
    ensures Normalized(Polynomial(c, [])) == Polynomial(c, [])
  {
    CoprimeCoefficientsOfZero(c);
  }

  /** On every nonzero polynomial `normalized` as written and the corrected operation agree. */
  lemma NormalizedAgrees(p: Polynomial)
    requires NonZero(p.terms) && p.terms != []
    ensures NormalizedAsWritten(p) == Some(Normalized(p))
  {
    CoprimeCoefficientsAgree(p);
  }

  lemma NormalizedTerms(p: Polynomial)
    requires Valid(p)
    ensures Normalized(p).terms == Scale(CoprimeCoefficients(p).terms, UnitPart(CoprimeCoefficients(p)))
  {
    var q := CoprimeCoefficients(p);
    CoprimeCoefficientsValid(p);
    UnitPartIsUnit(q);
    TimesIntScales(q, UnitPart(q));
  }

  /** The normal form of a valid polynomial is valid and normal. */
  lemma NormalizedIsNormal(p: Polynomial)
    requires Valid(p)
    ensures Valid(Normalized(p)) && IsNormal(Normalized(p))
  {
    var q := CoprimeCoefficients(p);
    CoprimeCoefficientsValid(p);
    var u := UnitPart(q);
    UnitPartIsUnit(q);
    NormalizedTerms(p);
    ScaleValid(q, u);
    if !IsZero(q) {
      LcSgnScale(q, u);
    }
  }

  lemma ScaleScale(ts: seq<Monomial>, a: int, b: int)
    ensures Scale(Scale(ts, a), b) == Scale(ts, a * b)
  {
    forall i | 0 <= i < |ts| ensures Scale(Scale(ts, a), b)[i] == Scale(ts, a * b)[i] {
      assert ts[i].coeff * a * b == ts[i].coeff * (a * b);
    }
  }

  /**
   * A nonzero polynomial is its normal form times a unit times its content:
   * normalisation only divides out the content and the sign.
   */
  lemma NormalizedContent(p: Polynomial)
    requires Valid(p) && !IsZero(p)
    ensures Scale(Normalized(p).terms, UnitPart(CoprimeCoefficients(p)) * CoprimeFactor(p.terms)) == p.terms
  {
    var q := CoprimeCoefficients(p);
    var u, g := UnitPart(q), CoprimeFactor(p.terms);
    UnitPartIsUnit(q);
    NormalizedTerms(p);
    QuotientIsCoprime(p.terms);
    ScaleScale(q.terms, u, u * g);
    UnitSquare(u, g);
  }

  lemma DivideByMinusOne(ts: seq<Monomial>)
    ensures DivideTerms(ts, -1) == Scale(ts, -1)
  {
  }

  /** A normal polynomial whose content is 1, or the zero polynomial, is its own normal form. */
  lemma NormalizedFixedContentOne(n: Polynomial)
    requires Valid(n) && IsNormal(n) && (IsZero(n) || CoprimeFactor(n.terms) == 1)
    ensures Normalized(n) == n
  {
    assert CoprimeCoefficients(n) == n;
    TimesIntScales(n, 1);
    ScaleOne(n.terms);
  }

  /** A normal polynomial whose content is -1 is also its own normal form: the two sign flips cancel. */
  lemma NormalizedFixedContentMinusOne(n: Polynomial)
    requires Valid(n) && IsNormal(n) && CoprimeFactor(n.terms) == -1
    ensures Normalized(n) == n
  {
    var q := CoprimeCoefficients(n);
    DivideByMinusOne(n.terms);
    assert q.terms == Scale(n.terms, -1);
    ScaleValid(n, -1);
    LcSgnScale(n, -1);
    assert UnitPart(q) == -1;
    TimesIntScales(q, -1);
    ScaleScale(n.terms, -1, -1);
    ScaleOne(n.terms);
  }

  /** The content of a nonzero normal form is a unit. */
  lemma NormalizedContentUnit(p: Polynomial)
    requires Valid(p) && !IsZero(Normalized(p))
    ensures Abs(CoprimeFactor(Normalized(p).terms)) == 1
  {
    var q := CoprimeCoefficients(p);
    var u := UnitPart(q);
    NormalizedTerms(p);
    assert Normalized(p).terms == Scale(q.terms, u);
    assert p.terms != [];
    CoprimeCoefficientsValid(p);
    assert CoprimeFactor(q.terms) == 1;
    UnitPartIsUnit(q);
    assert Abs(u) == 1;
    CoprimeFactorScale(q.terms, u);
  }

  /** Normalising twice gives the same polynomial as normalising once. */
  lemma NormalizedIdempotent(p: Polynomial)
    requires Valid(p)
    ensures Normalized(Normalized(p)) == Normalized(p)
  {
    NormalizedIsNormal(p);
    var n := Normalized(p);
    if IsZero(n) || CoprimeFactor(n.terms) == 1 {
      NormalizedFixedContentOne(n);
    } else {
      NormalizedContentUnit(p);
      NormalizedFixedContentMinusOne(n);
    }
  }

  /** The coefficients in the main variable of index below `n` that are nonzero, by increasing index. */
  function CoefficientsBelow(p: Polynomial, n: nat): (r: seq<Polynomial>)
    ensures |r| <= n
    ensures forall i :: 0 <= i < |r| ==> !IsZero(r[i])
  {
    if n == 0 then []
    else
      var c := Coeff(p, n - 1);
      CoefficientsBelow(p, n - 1) + (if IsZero(c) then [] else [c])
  }

  /** `coefficients()`: the nonzero `coeff(k)` for `k` from 0 up to the degree. */
  function Coefficients(p: Polynomial): (r: seq<Polynomial>)
    ensures |r| <= Degree(p) + 1
  {
    CoefficientsBelow(p, Degree(p) + 1)
  }

  /** The list of coefficients of a valid nonzero polynomial ends with its leading coefficient. */
  lemma CoefficientsEndWithLeading(p: Polynomial)
    requires Valid(p) && !IsZero(p)
    ensures Coefficients(p) != [] && Coefficients(p)[|Coefficients(p)| - 1] == LCoeff(p)
  {
    if IsConstant(p) {
      assert Degree(p) == 0;
      assert LCoeff(p) == p;
    } else {
      LCoeffNonZero(p);
    }
  }
}
