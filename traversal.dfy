/**
 * The queries `LPPolynomial` answers by visiting every monomial once
 * (`lp_polynomial_traverse`): degrees, the constant part, the variables and
 * the gcd of the coefficients. Each is a fold over the monomial list, which
 * the model keeps in insertion order in place of libpoly's traversal order,
 * characterized by what it means for the polynomial.
 */
module Traversal {
  import opened Integers
  import opened Contexts
  import opened Monomials
  import opened Polynomials

  /** The largest entry of `s`, 0 for the empty list. */
  function MaxOf(s: seq<nat>): (m: nat)
    ensures forall k :: 0 <= k < |s| ==> s[k] <= m
    ensures s == [] ==> m == 0
    ensures s != [] ==> exists k :: 0 <= k < |s| && s[k] == m
  {
    if s == [] then 0
    else
      var front := s[..|s| - 1];
      var m := MaxOf(front);
      assert forall k :: 0 <= k < |front| ==> front[k] == s[k];
      if front == [] || m < s[|s| - 1] then s[|s| - 1] else m
  }

  /** `monomial_total_degrees`: the total degree of each monomial, in list order. */
  function MonomialTotalDegrees(ts: seq<Monomial>): (r: seq<nat>)
    ensures |r| == |ts|
    ensures forall k :: 0 <= k < |ts| ==> r[k] == SumExps(ts[k].powers)
  {
    seq(|ts|, k requires 0 <= k < |ts| => SumExps(ts[k].powers))
  }

  /** `total_degree`: no monomial has a larger total degree, one has exactly this one; 0 for zero. */
  function TotalDegree(ts: seq<Monomial>): (d: nat)
    ensures forall k :: 0 <= k < |ts| ==> SumExps(ts[k].powers) <= d
    ensures ts == [] ==> d == 0
    ensures ts != [] ==> exists k :: 0 <= k < |ts| && SumExps(ts[k].powers) == d
  {
    var s := MonomialTotalDegrees(ts);
    var d := MaxOf(s);
    assert ts != [] ==> exists k :: 0 <= k < |s| && s[k] == d;
    d
  }

  /** The only bound of a nonempty list that is one of its entries is its maximum. */
  lemma MaxOfUnique(s: seq<nat>, m: nat)
    requires m in s
    requires forall k :: 0 <= k < |s| ==> s[k] <= m
    ensures m == MaxOf(s)
  {
    var j :| 0 <= j < |s| && s[j] == m;
    assert m <= MaxOf(s);
  }

  /**
   * `total_degree` is the maximum of `monomial_total_degrees`: any entry of that
   * list bounding all the others is the total degree.
   */
  lemma TotalDegreeIsMaxOfMonomials(ts: seq<Monomial>, d: nat)
    requires d in MonomialTotalDegrees(ts)
    requires forall k :: 0 <= k < |ts| ==> MonomialTotalDegrees(ts)[k] <= d
    ensures d == TotalDegree(ts) == MaxOf(MonomialTotalDegrees(ts))
  {
    MaxOfUnique(MonomialTotalDegrees(ts), d);
  }

  /** `monomial_degrees(v)`: the exponent of `v` in each monomial, in list order. */
  function MonomialDegrees(ts: seq<Monomial>, v: VarId): (r: seq<nat>)
    ensures |r| == |ts|
    ensures forall k :: 0 <= k < |ts| ==> r[k] == ExpOf(ts[k].powers, v)
  {
    seq(|ts|, k requires 0 <= k < |ts| => ExpOf(ts[k].powers, v))
  }

  /** `degree(v)`: the largest exponent of `v` in any monomial, attained by one of them; 0 for zero. */
  function DegreeOf(ts: seq<Monomial>, v: VarId): (d: nat)
    ensures forall k :: 0 <= k < |ts| ==> ExpOf(ts[k].powers, v) <= d
    ensures ts == [] ==> d == 0
    ensures ts != [] ==> exists k :: 0 <= k < |ts| && ExpOf(ts[k].powers, v) == d
  {
    var s := MonomialDegrees(ts, v);
    var d := MaxOf(s);
    assert ts != [] ==> exists k :: 0 <= k < |s| && s[k] == d;
    d
  }

  /**
   * `degree(v)` is the maximum of `monomial_degrees(v)`: any entry of that list
   * bounding all the others is the degree in `v`.
   */
  lemma DegreeIsMaxOfMonomials(ts: seq<Monomial>, v: VarId, d: nat)
    requires d in MonomialDegrees(ts, v)
    requires forall k :: 0 <= k < |ts| ==> MonomialDegrees(ts, v)[k] <= d
    ensures d == DegreeOf(ts, v) == MaxOf(MonomialDegrees(ts, v))
  {
    MaxOfUnique(MonomialDegrees(ts, v), d);
  }


  /** `degree_all_variables`: the largest exponent of any variable in any monomial. */
  function DegreeAllVariables(ts: seq<Monomial>): (d: nat)
    ensures forall k, j :: 0 <= k < |ts| && 0 <= j < |ts[k].powers| ==> ts[k].powers[j].e <= d
    ensures d == 0 || exists k, j :: 0 <= k < |ts| && 0 <= j < |ts[k].powers| && ts[k].powers[j].e == d
  {
    var s := seq(|ts|, k requires 0 <= k < |ts| => MaxExp(ts[k].powers));
    var d := MaxOf(s);
    forall k | 0 <= k < |ts| ensures MaxExp(ts[k].powers) <= d {
      assert s[k] == MaxExp(ts[k].powers);
    }
    if d == 0 then d
    else
      var k :| 0 <= k < |s| && s[k] == d;
      var j :| 0 <= j < |ts[k].powers| && ts[k].powers[j].e == d;
      d
  }

  /** No single exponent exceeds the total degree of its monomial. */
  lemma {:induction false} ExpBelowSum(ps: seq<Power>, j: nat)
    requires j < |ps|
    ensures ps[j].e <= SumExps(ps)
  {
    if j < |ps| - 1 {
      ExpBelowSum(ps[..|ps| - 1], j);
    }
  }

  /** The degree in one variable is bounded by the degree over all variables, which is bounded by the total degree. */
  lemma DegreeBounds(ts: seq<Monomial>, v: VarId)
    ensures DegreeOf(ts, v) <= DegreeAllVariables(ts) <= TotalDegree(ts)
  {
    if DegreeOf(ts, v) > 0 {
      var k :| 0 <= k < |ts| && ExpOf(ts[k].powers, v) == DegreeOf(ts, v);
      ExpOfBound(ts[k].powers, v);
      var ps := ts[k].powers;
      var j :| 0 <= j < |ps| && ps[j].e == MaxExp(ps);
    }
    var d := DegreeAllVariables(ts);
    if d > 0 {
      var k, j :| 0 <= k < |ts| && 0 <= j < |ts[k].powers| && ts[k].powers[j].e == d;
      ExpBelowSum(ts[k].powers, j);
    }
  }

  /** `constant_part`: the sum of the coefficients of the monomials without variables. */
  function ConstantPart(ts: seq<Monomial>): int
  {
    if ts == [] then 0
    else ConstantPart(ts[..|ts| - 1]) + (if |ts[|ts| - 1].powers| == 0 then ts[|ts| - 1].coeff else 0)
  }

  /** The constant part is the coefficient of the empty power product. */
  lemma {:induction false} ConstantPartMeaning(ts: seq<Monomial>)
    ensures ConstantPart(ts) == CoeffAt(ts, [])
  {
    if ts != [] {
      ConstantPartMeaning(ts[..|ts| - 1]);
    }
  }

  /** The variables occurring in some monomial (`lp_polynomial_get_variables`). */
  function Vars(ts: seq<Monomial>): set<VarId>
  {
    if ts == [] then {} else Vars(ts[..|ts| - 1]) + VarsOf(ts[|ts| - 1].powers)
  }

  lemma {:induction false} VarsMember(ts: seq<Monomial>, v: VarId)
    ensures v in Vars(ts) <==> exists k :: 0 <= k < |ts| && v in VarsOf(ts[k].powers)
  {
    if ts != [] {
      var front := ts[..|ts| - 1];
      VarsMember(front, v);
      if v in Vars(front) {
        var k :| 0 <= k < |front| && v in VarsOf(front[k].powers);
        assert ts[k] == front[k];
      }
      if exists k :: 0 <= k < |ts| && v in VarsOf(ts[k].powers) {
        var k :| 0 <= k < |ts| && v in VarsOf(ts[k].powers);
        if k < |ts| - 1 {
          assert front[k] == ts[k];
        }
      }
    }
  }

  /** `has(v)`: false for a variable the context does not know, else whether some monomial uses it. */
  predicate Has(p: Polynomial, v: VarId)
  {
    p.context.Lookup(v).Some? && v in Vars(p.terms)
  }

  /** In a valid polynomial a variable occurs exactly when its degree is positive. */
  lemma HasIffDegree(p: Polynomial, v: VarId)
    requires Valid(p)
    ensures Has(p, v) <==> DegreeOf(p.terms, v) > 0
  {
    var ts := p.terms;
    VarsMember(ts, v);
    if v in Vars(ts) {
      var k :| 0 <= k < |ts| && v in VarsOf(ts[k].powers);
      ExpOfPresent(ts[k].powers, v);
    }
    if DegreeOf(ts, v) > 0 {
      var k :| 0 <= k < |ts| && ExpOf(ts[k].powers, v) == DegreeOf(ts, v);
      ExpOfPresent(ts[k].powers, v);
      var j :| 0 <= j < |ts[k].powers| && ts[k].powers[j].v == v;
      assert p.context.Has(v);
    }
  }

  /**
   * `coprime_factor`: 0 for the zero polynomial, the coefficient itself for a
   * single monomial, otherwise the gcd of the first coefficient with each
   * following one, in list order.
   */
  function CoprimeFactor(ts: seq<Monomial>): (g: int)
    ensures forall k :: 0 <= k < |ts| ==> Divides(g, ts[k].coeff)
    ensures |ts| == 1 ==> g == ts[0].coeff
    ensures |ts| >= 2 ==> g >= 0
    ensures g == 0 <==> forall k :: 0 <= k < |ts| ==> ts[k].coeff == 0
  {
    if |ts| == 0 then 0
    else if |ts| == 1 then
      DividesSelf(ts[0].coeff);
      ts[0].coeff
    else
      var front := ts[..|ts| - 1];
      var f := CoprimeFactor(front);
      var g := Gcd(f, ts[|ts| - 1].coeff);
      assert forall k :: 0 <= k < |front| ==> front[k] == ts[k];
      assert forall k :: 0 <= k < |ts| - 1 ==> Divides(g, ts[k].coeff) by {
        forall k | 0 <= k < |ts| - 1 ensures Divides(g, ts[k].coeff) {
          DividesTransitive(g, f, ts[k].coeff);
        }
      }
      g
  }

  /** Every common divisor of the coefficients divides the factor: it is their greatest common divisor. */
  lemma {:induction false} CoprimeFactorGreatest(ts: seq<Monomial>, d: int)
    requires forall k :: 0 <= k < |ts| ==> Divides(d, ts[k].coeff)
    ensures Divides(d, CoprimeFactor(ts))
  {
    if |ts| == 0 {
      DividesZero(d);
    } else if |ts| >= 2 {
      var front := ts[..|ts| - 1];
      assert forall k :: 0 <= k < |front| ==> front[k] == ts[k];
      CoprimeFactorGreatest(front, d);
      GcdGreatest(CoprimeFactor(front), ts[|ts| - 1].coeff, d);
    }
  }

  /** Scaling every coefficient by `k` scales the factor by `|k|`, up to sign. */
  lemma {:induction false} CoprimeFactorScale(ts: seq<Monomial>, k: int)
    ensures Abs(CoprimeFactor(Scale(ts, k))) == Abs(CoprimeFactor(ts)) * Abs(k)
  {
    var st := Scale(ts, k);
    if |ts| == 1 {
      MulAbs(ts[0].coeff, k);
    } else if |ts| >= 2 {
      var front, sf := ts[..|ts| - 1], st[..|st| - 1];
      assert sf == Scale(front, k);
      CoprimeFactorScale(front, k);
      var c := ts[|ts| - 1].coeff;
      assert st[|st| - 1].coeff == c * k;
      GcdScale(CoprimeFactor(front), CoprimeFactor(sf), c, k);
      assert CoprimeFactor(st) == Gcd(CoprimeFactor(sf), c * k);
    }
  }

  /** The gcd only sees absolute values, so scaling both arguments by `k` scales it by `|k|`. */
  lemma GcdScale(f: int, f': int, c: int, k: int)
    requires Abs(f') == Abs(f) * Abs(k)
    ensures Gcd(f', c * k) == Gcd(f, c) * Abs(k)
  {
    MulAbs(c, k);
    GcdNatScale(Abs(f), Abs(c), Abs(k));
  }

  /** Every coefficient divided by `g` (`lp_polynomial_div` by a constant that divides them all). */
  function DivideTerms(ts: seq<Monomial>, g: int): (r: seq<Monomial>)
    requires g != 0
    ensures |r| == |ts|
    ensures forall i :: 0 <= i < |ts| ==> r[i].powers == ts[i].powers
  {
    seq(|ts|, i requires 0 <= i < |ts| => Monomial(ts[i].coeff / g, ts[i].powers))
  }

  /** Dividing by a common divisor and scaling back gives the monomials again. */
  lemma DivideThenScale(ts: seq<Monomial>, g: int)
    requires g != 0 && forall k :: 0 <= k < |ts| ==> Divides(g, ts[k].coeff)
    ensures Scale(DivideTerms(ts, g), g) == ts
  {
    forall i | 0 <= i < |ts| ensures Scale(DivideTerms(ts, g), g)[i] == ts[i] {
      DividesGivesWitness(g, ts[i].coeff);
    }
  }

  /** Scaling by `g` and dividing by it gives the monomials again. */
  lemma ScaleThenDivide(ts: seq<Monomial>, g: int)
    requires g != 0
    ensures DivideTerms(Scale(ts, g), g) == ts
  {
    forall i | 0 <= i < |ts| ensures DivideTerms(Scale(ts, g), g)[i] == ts[i] {
      ExactQuotient(ts[i].coeff, g);
    }
  }

  lemma ExactQuotient(a: int, g: int)
    requires g != 0
    ensures (a * g) / g == a
  {
    EuclideanUnique(a * g, g, a, 0);
  }

  /** After dividing out the factor of a nonzero list, the coefficients are coprime: the factor is 1. */
  lemma QuotientIsCoprime(ts: seq<Monomial>)
    requires NonZero(ts) && ts != []
    ensures CoprimeFactor(ts) != 0
    ensures CoprimeFactor(DivideTerms(ts, CoprimeFactor(ts))) == 1
  {
    var g := CoprimeFactor(ts);
    assert ts[0].coeff != 0;
    var q := DivideTerms(ts, g);
    DivideThenScale(ts, g);
    CoprimeFactorScale(q, g);
    UnitFactor(CoprimeFactor(q), g);
    if |ts| == 1 {
      ExactQuotient(1, ts[0].coeff);
      assert q[0].coeff == 1;
    }
  }
}
