/**
 * Equality and ordering of polynomials: `operator==` (`lp_polynomial_eq`), the
 * integer forms of `==` and `!=`, `one`/`is_one`, and the wrappers that lift
 * an integer to a constant polynomial before calling libpoly's comparison.
 * The total order of `lp_polynomial_cmp` itself is a parameter.
 */
module Comparisons {
  import opened Contexts
  import opened Monomials
  import opened Polynomials
  import opened Traversal
  import opened Normalization

  function TermSet(ts: seq<Monomial>): set<Monomial>
  {
    set m | m in ts
  }

  /** `operator==` on two polynomials: the same monomials. */
  predicate Eq(p: Polynomial, q: Polynomial)
  {
    TermSet(p.terms) == TermSet(q.terms)
  }

  /** `operator!=`: the negation of `==`. */
  predicate Neq(p: Polynomial, q: Polynomial)
  {
    !Eq(p, q)
  }

  /** The coefficient of `pp` is that of the monomial carrying it, or 0 when none does. */
  lemma CoeffAtFind(ts: seq<Monomial>, pp: seq<Power>)
    requires DistinctPowers(ts)
    ensures IndexOfPowers(ts, pp) >= 0 ==> CoeffAt(ts, pp) == ts[IndexOfPowers(ts, pp)].coeff
    ensures IndexOfPowers(ts, pp) < 0 ==> CoeffAt(ts, pp) == 0
  {
    var i := IndexOfPowers(ts, pp);
    if i >= 0 {
      CoeffAtPresent(ts, i, pp);
    } else {
      CoeffAtAbsent(ts, pp);
    }
  }

  /** Every monomial of `p` is one of `q` when `q` gives every power product the coefficient `p` gives it. */
  lemma SameMeaningIncluded(p: Polynomial, q: Polynomial)
    requires Valid(p) && Valid(q)
    requires forall pp :: CoeffAt(p.terms, pp) == CoeffAt(q.terms, pp)
    ensures TermSet(p.terms) <= TermSet(q.terms)
  {
    forall m | m in TermSet(p.terms) ensures m in TermSet(q.terms) {
      var i :| 0 <= i < |p.terms| && p.terms[i] == m;
      CoeffAtPresent(p.terms, i, m.powers);
      CoeffAtFind(q.terms, m.powers);
      assert CoeffAt(q.terms, m.powers) == m.coeff;
    }
  }

  /** Equal polynomials give every power product the same coefficient. */
  lemma EqSameMeaning(p: Polynomial, q: Polynomial, pp: seq<Power>)
    requires Valid(p) && Valid(q) && Eq(p, q)
    ensures CoeffAt(p.terms, pp) == CoeffAt(q.terms, pp)
  {
    CoeffAtFind(p.terms, pp);
    CoeffAtFind(q.terms, pp);
    var i, j := IndexOfPowers(p.terms, pp), IndexOfPowers(q.terms, pp);
    forall k | 0 <= k < |q.terms| ensures q.terms[k] in TermSet(p.terms) {
      assert q.terms[k] in TermSet(q.terms);
    }
    if i >= 0 {
      assert p.terms[i] in TermSet(q.terms);
      var j' :| 0 <= j' < |q.terms| && q.terms[j'] == p.terms[i];
      CoeffAtPresent(q.terms, j', pp);
    }
  }

  /** Two valid polynomials are equal exactly when they give every power product the same coefficient. */
  lemma EqMeaning(p: Polynomial, q: Polynomial)
    requires Valid(p) && Valid(q)
    ensures Eq(p, q) ==> forall pp :: CoeffAt(p.terms, pp) == CoeffAt(q.terms, pp)
    ensures (forall pp :: CoeffAt(p.terms, pp) == CoeffAt(q.terms, pp)) ==> Eq(p, q)
  {
    if Eq(p, q) {
      forall pp ensures CoeffAt(p.terms, pp) == CoeffAt(q.terms, pp) {
        EqSameMeaning(p, q, pp);
      }
    }
    if forall pp :: CoeffAt(p.terms, pp) == CoeffAt(q.terms, pp) {
      SameMeaningIncluded(p, q);
      SameMeaningIncluded(q, p);
      assert TermSet(p.terms) == TermSet(q.terms);
    }
  }

  /** Two valid polynomials are `!=` exactly when some power product gets different coefficients. */
  lemma NeqMeaning(p: Polynomial, q: Polynomial)
    requires Valid(p) && Valid(q)
    ensures Neq(p, q) ==> exists pp :: CoeffAt(p.terms, pp) != CoeffAt(q.terms, pp)
    ensures (exists pp :: CoeffAt(p.terms, pp) != CoeffAt(q.terms, pp)) ==> Neq(p, q)
  {
    EqMeaning(p, q);
  }

  /** `p == n`: false for a non-constant polynomial, else the constant part compared with `n`. */
  predicate EqInt(p: Polynomial, n: int)
  {
    IsNumber(p) && ConstantPart(p.terms) == n
  }

  /** `n == p`, answered as `p == n`. */
  predicate IntEq(n: int, p: Polynomial)
  {
    EqInt(p, n)
  }

  /** `p != n`. */
  predicate NeqInt(p: Polynomial, n: int)
  {
    !EqInt(p, n)
  }

  /** `n != p`. */
  predicate IntNeq(n: int, p: Polynomial)
  {
    !IntEq(n, p)
  }

  lemma {:induction false} NoPowersNoVars(ts: seq<Monomial>)
    requires forall k :: 0 <= k < |ts| ==> ts[k].powers == []
    ensures Vars(ts) == {}
  {
    if ts != [] {
      NoPowersNoVars(ts[..|ts| - 1]);
      VarsOfEmpty(ts[|ts| - 1].powers);
    }
  }

  /** The meaning of `p == n`: `p` is the constant polynomial `n`. */
  lemma EqIntSemantics(p: Polynomial, n: int)
    requires Valid(p)
    ensures EqInt(p, n) ==> forall pp :: CoeffAt(p.terms, pp) == if pp == [] then n else 0
    ensures (forall pp :: CoeffAt(p.terms, pp) == if pp == [] then n else 0) ==> EqInt(p, n)
  {
    var ts := p.terms;
    ConstantPartMeaning(ts);
    if EqInt(p, n) {
      ConstantShape(p);
      forall pp ensures CoeffAt(ts, pp) == if pp == [] then n else 0 {
        if ts != [] {
          CoeffAtSingle(ts[0], pp);
        }
      }
    }
    if forall pp :: CoeffAt(ts, pp) == if pp == [] then n else 0 {
      forall k | 0 <= k < |ts| ensures ts[k].powers == [] {
        CoeffAtPresent(ts, k, ts[k].powers);
      }
      NoPowersNoVars(ts);
      assert IsNumber(p);
      assert EqInt(p, n);
    }
  }

  /** Comparing with an integer agrees with comparing with its constant polynomial. */
  lemma EqIntMeaning(p: Polynomial, n: int)
    requires Valid(p)
    ensures EqInt(p, n) <==> Eq(p, Constant(p.context, n))
    ensures IntEq(n, p) == EqInt(p, n)
  {
    ConstantValid(p.context, n);
    EqMeaning(p, Constant(p.context, n));
    EqIntSemantics(p, n);
  }

  /** `p != n` holds exactly when `p` is not the constant `n`; `n != p` is the same test. */
  lemma NeqIntMeaning(p: Polynomial, n: int)
    requires Valid(p)
    ensures NeqInt(p, n) ==> exists pp :: CoeffAt(p.terms, pp) != if pp == [] then n else 0
    ensures (exists pp :: CoeffAt(p.terms, pp) != if pp == [] then n else 0) ==> NeqInt(p, n)
    ensures IntNeq(n, p) == NeqInt(p, n)
  {
    EqIntSemantics(p, n);
  }

  /** `one()`: the constant 1 in the same context. */
  function One(p: Polynomial): (r: Polynomial)
    ensures r.context == p.context
    ensures forall pp :: CoeffAt(r.terms, pp) == if pp == [] then 1 else 0
  {
    Constant(p.context, 1)
  }

  /** `is_one`: false for a non-constant polynomial, else equality with the constant 1. */
  predicate IsOne(p: Polynomial)
  {
    IsConstant(p) && Eq(p, Constant(p.context, 1))
  }

  /** `is_one(p)` holds exactly when `p == 1`. */
  lemma IsOneIffEqInt(p: Polynomial)
    requires Valid(p)
    ensures IsOne(p) <==> EqInt(p, 1)
  {
    EqIntMeaning(p, 1);
  }

  /** libpoly's three-way comparison: negative, zero or positive. */
  type Cmp = (Polynomial, Polynomial) -> int

  /** `cmp_util`: `p` compared with the constant polynomial `n` in the context of `p`. */
  function CmpInt(cmp: Cmp, p: Polynomial, n: int): int
  {
    cmp(p, Constant(p.context, n))
  }

  predicate Less(cmp: Cmp, p: Polynomial, q: Polynomial) { cmp(p, q) < 0 }
  predicate LessEq(cmp: Cmp, p: Polynomial, q: Polynomial) { cmp(p, q) <= 0 }
  predicate Greater(cmp: Cmp, p: Polynomial, q: Polynomial) { cmp(p, q) > 0 }
  predicate GreaterEq(cmp: Cmp, p: Polynomial, q: Polynomial) { cmp(p, q) >= 0 }

  predicate LessInt(cmp: Cmp, p: Polynomial, n: int) { CmpInt(cmp, p, n) < 0 }
  predicate LessEqInt(cmp: Cmp, p: Polynomial, n: int) { CmpInt(cmp, p, n) <= 0 }
  predicate GreaterInt(cmp: Cmp, p: Polynomial, n: int) { CmpInt(cmp, p, n) > 0 }
  predicate GreaterEqInt(cmp: Cmp, p: Polynomial, n: int) { CmpInt(cmp, p, n) >= 0 }

  /** `n < p` is answered as `cmp_util(p, n) > 0`; likewise for the other integer-first forms. */
  predicate IntLess(cmp: Cmp, n: int, p: Polynomial) { CmpInt(cmp, p, n) > 0 }
  predicate IntLessEq(cmp: Cmp, n: int, p: Polynomial) { CmpInt(cmp, p, n) >= 0 }
  predicate IntGreater(cmp: Cmp, n: int, p: Polynomial) { CmpInt(cmp, p, n) < 0 }
  predicate IntGreaterEq(cmp: Cmp, n: int, p: Polynomial) { CmpInt(cmp, p, n) <= 0 }

  /** The polynomial-first integer forms compare `p` with the constant polynomial `n` in the context of `p`. */
  lemma IntFormsLift(cmp: Cmp, p: Polynomial, n: int)
    ensures LessInt(cmp, p, n) <==> Less(cmp, p, Constant(p.context, n))
    ensures LessEqInt(cmp, p, n) <==> LessEq(cmp, p, Constant(p.context, n))
    ensures GreaterInt(cmp, p, n) <==> Greater(cmp, p, Constant(p.context, n))
    ensures GreaterEqInt(cmp, p, n) <==> GreaterEq(cmp, p, Constant(p.context, n))
  {
  }

  /**
   * With an antisymmetric comparison the flipped integer-first forms agree with
   * comparing the lifted constant on the left.
   */
  lemma FlippedFormsAgree(cmp: Cmp, n: int, p: Polynomial)
    requires forall a, b :: cmp(a, b) == -cmp(b, a)
    ensures IntLess(cmp, n, p) <==> Less(cmp, Constant(p.context, n), p)
    ensures IntLessEq(cmp, n, p) <==> LessEq(cmp, Constant(p.context, n), p)
    ensures IntGreater(cmp, n, p) <==> Greater(cmp, Constant(p.context, n), p)
    ensures IntGreaterEq(cmp, n, p) <==> GreaterEq(cmp, Constant(p.context, n), p)
  {
    assert cmp(Constant(p.context, n), p) == -cmp(p, Constant(p.context, n));
  }
}
