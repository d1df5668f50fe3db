/**
 * The `LPPolynomial` object: a context and a libpoly polynomial handle whose
 * monomials are kept in insertion order, standing in for libpoly's traversal
 * order. Constructors build the handle by
 * adding monomials one at a time, the queries fold over the monomials as the
 * traversal callbacks do, the compound assignments replace the handle's
 * contents, and `set_context` relabels or reorders.
 */
module LPPolynomials {
  import opened Integers
  import opened Contexts
  import opened Monomials
  import opened Polynomials
  import opened Traversal
  import opened VarCoefficients
  import opened Normalization
  import ClnOperations

  /** The power product `v^e`; the exponent 0 gives the empty product. */
  function VarPower(v: VarId, e: nat): (pp: seq<Power>)
    ensures e == 0 <==> pp == []
    ensures ExpOf(pp, v) == e
  {
    if e > 0 then [Power(v, e)] else []
  }

  lemma VarPowerInjective(v: VarId, a: nat, b: nat)
    ensures VarPower(v, a) == VarPower(v, b) ==> a == b
  {
  }

  lemma VarPowerWellFormed(c: Context, v: VarId, e: nat)
    requires c.Has(v)
    ensures WellFormed(c, VarPower(v, e))
  {
  }

  /** The monomial `coeff * v^e` built by the constructors. */
  function TermOf(v: VarId, coeff: int, e: nat): Monomial
  {
    Monomial(coeff, VarPower(v, e))
  }

  // ----- coefficient-list constructors -----

  /**
   * The monomials a coefficient list yields, in list order: the entry at
   * position i of a list of length n stands for `v^(n-1-i)`, and zero entries
   * yield nothing.
   */
  function ListMonomials(v: VarId, cs: seq<int>, n: nat): seq<Monomial>
    requires |cs| <= n
  {
    if cs == [] then []
    else
      var last := cs[|cs| - 1];
      ListMonomials(v, cs[..|cs| - 1], n) + (if last == 0 then [] else [TermOf(v, last, n - |cs|)])
  }

  /** The polynomial built from a coefficient list, highest power first. */
  function ListTerms(v: VarId, cs: seq<int>): seq<Monomial>
  {
    AddAll([], ListMonomials(v, cs, |cs|))
  }

  lemma {:induction false} ListMonomialsMeaning(v: VarId, cs: seq<int>, n: nat, pp: seq<Power>)
    requires |cs| <= n
    ensures forall i :: 0 <= i < |cs| && pp == VarPower(v, n - 1 - i) ==> CoeffAt(ListMonomials(v, cs, n), pp) == cs[i]
    ensures (forall e :: n - |cs| <= e < n ==> pp != VarPower(v, e)) ==> CoeffAt(ListMonomials(v, cs, n), pp) == 0
  {
    if cs != [] {
      var front, last := cs[..|cs| - 1], cs[|cs| - 1];
      var tail: seq<Monomial> := if last == 0 then [] else [TermOf(v, last, n - |cs|)];
      ListMonomialsMeaning(v, front, n, pp);
      CoeffAtAppend(ListMonomials(v, front, n), tail, pp);
      if last != 0 {
        CoeffAtSingle(TermOf(v, last, n - |cs|), pp);
      }
      VarPowerInjective(v, n - |cs|, n - |cs|);
      forall i | 0 <= i < |cs| && pp == VarPower(v, n - 1 - i)
        ensures CoeffAt(ListMonomials(v, cs, n), pp) == cs[i]
      {
        if i < |cs| - 1 {
          assert front[i] == cs[i];
          VarPowerInjective(v, n - |cs|, n - 1 - i);
        } else {
          forall e | n - |front| <= e < n ensures pp != VarPower(v, e) {
            VarPowerInjective(v, n - |cs|, e);
          }
        }
      }
    }
  }

  /**
   * The entry at position i of a coefficient list of length n becomes the
   * coefficient of `v^(n-1-i)`.
   */
  lemma ListEntryMeaning(v: VarId, cs: seq<int>, i: nat)
    requires i < |cs|
    ensures CoeffAt(ListTerms(v, cs), VarPower(v, |cs| - 1 - i)) == cs[i]
  {
    ListMonomialsMeaning(v, cs, |cs|, VarPower(v, |cs| - 1 - i));
    AddAllMeaning([], ListMonomials(v, cs, |cs|), VarPower(v, |cs| - 1 - i));
  }

  /** Every other power product has coefficient 0. */
  lemma ListOtherMeaning(v: VarId, cs: seq<int>, pp: seq<Power>)
    requires forall e: nat :: e < |cs| ==> pp != VarPower(v, e)
    ensures CoeffAt(ListTerms(v, cs), pp) == 0
  {
    ListMonomialsMeaning(v, cs, |cs|, pp);
    AddAllMeaning([], ListMonomials(v, cs, |cs|), pp);
  }

  lemma {:induction false} ListMonomialsWellFormed(c: Context, v: VarId, cs: seq<int>, n: nat)
    requires |cs| <= n && c.Has(v)
    ensures TermsWellFormed(c, ListMonomials(v, cs, n))
  {
    if cs != [] {
      ListMonomialsWellFormed(c, v, cs[..|cs| - 1], n);
      VarPowerWellFormed(c, v, n - |cs|);
    }
  }

  /** The coefficient list `[1, 0, -1, 5]` in `x` gives `x^3 - x + 5`. */
  lemma ListExample()
    ensures ListTerms(0, [1, 0, -1, 5]) == CubicExample().terms
  {
    CubicMonomials();
    CubicAdded();
  }

  /** The list `[1, 0, -1, 5]` yields the monomials of `x^3 - x + 5`, the zero entry yielding none. */
  lemma CubicMonomials()
    ensures ListMonomials(0, [1, 0, -1, 5], 4) == CubicExample().terms
  {
    var cs := [1, 0, -1, 5];
    assert cs[..4] == cs && cs[..4][..3] == cs[..3] && cs[..3][..2] == cs[..2] && cs[..2][..1] == cs[..1] && cs[..1][..0] == [];
    assert ListMonomials(0, cs[..1], 4) == [Monomial(1, [Power(0, 3)])];
    assert ListMonomials(0, cs[..2], 4) == [Monomial(1, [Power(0, 3)])];
    assert ListMonomials(0, cs[..3], 4) == [Monomial(1, [Power(0, 3)]), Monomial(-1, [Power(0, 1)])];
  }

  /** Adding the three monomials of `x^3 - x + 5` into the zero polynomial keeps all three. */
  lemma CubicAdded()
    ensures AddAll([], CubicExample().terms) == CubicExample().terms
  {
    var ms := CubicExample().terms;
    assert DistinctPowers(ms) && NonZero(ms);
    AddAllDistinct(ms);
  }

  // ----- exponent-map constructor -----

  /** The monomials an exponent-to-coefficient map yields, in key order; zero entries yield nothing. */
  function MapMonomials(v: VarId, es: seq<(nat, int)>): seq<Monomial>
  {
    if es == [] then []
    else
      var last := es[|es| - 1];
      MapMonomials(v, es[..|es| - 1]) + (if last.1 == 0 then [] else [TermOf(v, last.1, last.0)])
  }

  function MapTerms(v: VarId, es: seq<(nat, int)>): seq<Monomial>
  {
    AddAll([], MapMonomials(v, es))
  }

  predicate DistinctKeys(es: seq<(nat, int)>)
  {
    forall i, j :: 0 <= i < j < |es| ==> es[i].0 != es[j].0
  }

  /** A power product that is no `v^e` for a key `e` gets nothing from the map's monomials. */
  lemma {:induction false} MapMonomialsAbsent(v: VarId, es: seq<(nat, int)>, pp: seq<Power>)
    requires forall k :: 0 <= k < |es| ==> pp != VarPower(v, es[k].0)
    ensures CoeffAt(MapMonomials(v, es), pp) == 0
  {
    if es != [] {
      var front, last := es[..|es| - 1], es[|es| - 1];
      var tail: seq<Monomial> := if last.1 == 0 then [] else [TermOf(v, last.1, last.0)];
      assert forall k :: 0 <= k < |front| ==> front[k] == es[k];
      MapMonomialsAbsent(v, front, pp);
      CoeffAtAppend(MapMonomials(v, front), tail, pp);
      if last.1 != 0 {
        CoeffAtSingle(TermOf(v, last.1, last.0), pp);
      }
    }
  }

  /** The monomial for key `es[i].0` carries the coefficient `es[i].1`, the keys being distinct. */
  lemma {:induction false} MapMonomialsAt(v: VarId, es: seq<(nat, int)>, i: nat, pp: seq<Power>)
    requires DistinctKeys(es) && i < |es| && pp == VarPower(v, es[i].0)
    ensures CoeffAt(MapMonomials(v, es), pp) == es[i].1
  {
    var front, last := es[..|es| - 1], es[|es| - 1];
    var tail: seq<Monomial> := if last.1 == 0 then [] else [TermOf(v, last.1, last.0)];
    CoeffAtAppend(MapMonomials(v, front), tail, pp);
    if last.1 != 0 {
      CoeffAtSingle(TermOf(v, last.1, last.0), pp);
    }
    if i < |es| - 1 {
      assert front[i] == es[i];
      DistinctKeysFront(es);
      MapMonomialsAt(v, front, i, pp);
      VarPowerInjective(v, last.0, es[i].0);
    } else {
      LastKeyAbsent(v, es);
    }
  }

  /** Dropping the last pair keeps the keys distinct. */
  lemma DistinctKeysFront(es: seq<(nat, int)>)
    requires DistinctKeys(es) && es != []
    ensures DistinctKeys(es[..|es| - 1])
  {
    assert forall k :: 0 <= k < |es| - 1 ==> es[..|es| - 1][k] == es[k];
  }

  /** The last key's power product gets nothing from the monomials of the pairs before it. */
  lemma LastKeyAbsent(v: VarId, es: seq<(nat, int)>)
    requires DistinctKeys(es) && es != []
    ensures CoeffAt(MapMonomials(v, es[..|es| - 1]), VarPower(v, es[|es| - 1].0)) == 0
  {
    var front, pp := es[..|es| - 1], VarPower(v, es[|es| - 1].0);
    forall k | 0 <= k < |front| ensures pp != VarPower(v, front[k].0) {
      assert front[k] == es[k];
      VarPowerInjective(v, es[|es| - 1].0, front[k].0);
    }
    MapMonomialsAbsent(v, front, pp);
  }

  /** Each pair `(e, c)` of the map becomes the coefficient of `v^e`. */
  lemma MapEntryMeaning(v: VarId, es: seq<(nat, int)>, i: nat)
    requires DistinctKeys(es) && i < |es|
    ensures CoeffAt(MapTerms(v, es), VarPower(v, es[i].0)) == es[i].1
  {
    MapMonomialsAt(v, es, i, VarPower(v, es[i].0));
    AddAllMeaning([], MapMonomials(v, es), VarPower(v, es[i].0));
  }

  /** A power product that is no `v^e` for a key `e` has coefficient 0. */
  lemma MapOtherMeaning(v: VarId, es: seq<(nat, int)>, pp: seq<Power>)
    requires DistinctKeys(es)
    requires forall k :: 0 <= k < |es| ==> pp != VarPower(v, es[k].0)
    ensures CoeffAt(MapTerms(v, es), pp) == 0
  {
    MapMonomialsAbsent(v, es, pp);
    AddAllMeaning([], MapMonomials(v, es), pp);
  }

  lemma {:induction false} MapMonomialsWellFormed(c: Context, v: VarId, es: seq<(nat, int)>)
    requires c.Has(v)
    ensures TermsWellFormed(c, MapMonomials(v, es))
  {
    if es != [] {
      MapMonomialsWellFormed(c, v, es[..|es| - 1]);
      VarPowerWellFormed(c, v, es[|es| - 1].0);
    }
  }

  lemma ListMonomialsStep(v: VarId, cs: seq<int>, i: nat)
    requires i < |cs|
    ensures ListMonomials(v, cs[..i + 1], |cs|)
      == ListMonomials(v, cs[..i], |cs|) + (if cs[i] == 0 then [] else [TermOf(v, cs[i], |cs| - 1 - i)])
  {
    assert cs[..i + 1][..i] == cs[..i];
  }

  lemma MapMonomialsStep(v: VarId, es: seq<(nat, int)>, i: nat)
    requires i < |es|
    ensures MapMonomials(v, es[..i + 1])
      == MapMonomials(v, es[..i]) + (if es[i].1 == 0 then [] else [TermOf(v, es[i].1, es[i].0)])
  {
    assert es[..i + 1][..i] == es[..i];
  }

  lemma AddAllSnoc(ts: seq<Monomial>, ms: seq<Monomial>, m: Monomial)
    ensures AddAll(ts, ms + [m]) == AddMonomial(AddAll(ts, ms), m)
  {
    assert (ms + [m])[..|ms|] == ms;
  }

  lemma BuiltValid(c: Context, ms: seq<Monomial>)
    requires c.Valid() && TermsWellFormed(c, ms)
    ensures Polynomials.Valid(Polynomial(c, AddAll([], ms)))
  {
    AddAllWellFormed(c, [], ms);
  }

  // ----- folds over one monomial (the inner loops of the traversal callbacks) -----

  /** The total degree of a monomial: its exponents added up. */
  method SumOfExponents(ps: seq<Power>) returns (s: nat)
    ensures s == SumExps(ps)
  {
    s := 0;
    for j := 0 to |ps|
      invariant s == SumExps(ps[..j])
    {
      assert ps[..j + 1][..j] == ps[..j];
      s := s + ps[j].e;
    }
    assert ps[..|ps|] == ps;
  }

  /** The exponent of the first pair naming `v`, 0 when none does. */
  method ExponentOf(ps: seq<Power>, v: VarId) returns (e: nat)
    ensures e == ExpOf(ps, v)
  {
    e := 0;
    var j := 0;
    while j < |ps|
      invariant j <= |ps|
      invariant ExpOf(ps[j..], v) == ExpOf(ps, v)
    {
      if ps[j].v == v {
        e := ps[j].e;
        return;
      }
      assert ps[j..][1..] == ps[j + 1..];
      j := j + 1;
    }
  }

  /** Whether the pair `x` occurs in the monomial. */
  method FindPair(ps: seq<Power>, x: Power) returns (found: bool)
    ensures found <==> x in ps
  {
    found := false;
    for j := 0 to |ps|
      invariant x !in ps[..j]
    {
      if ps[j] == x {
        found := true;
        return;
      }
      assert ps[..j + 1] == ps[..j] + [ps[j]];
    }
    assert ps[..|ps|] == ps;
  }

  /** A copy of the monomial's pairs without `x`. */
  method CopyWithout(ps: seq<Power>, x: Power) returns (qs: seq<Power>)
    ensures qs == StripPair(ps, x)
  {
    qs := [];
    for j := 0 to |ps|
      invariant qs + StripPair(ps[j..], x) == StripPair(ps, x)
    {
      assert ps[j..][1..] == ps[j + 1..];
      if ps[j] != x {
        qs := qs + [ps[j]];
      }
    }
  }

  /** `lp_polynomial_add_monomial` applied to each monomial in turn, starting from the zero polynomial. */
  method AddInto(ms: seq<Monomial>) returns (acc: seq<Monomial>)
    ensures acc == AddAll([], ms)
  {
    acc := [];
    for i := 0 to |ms|
      invariant acc == AddAll([], ms[..i])
    {
      assert ms[..i + 1] == ms[..i] + [ms[i]];
      AddAllSnoc([], ms[..i], ms[i]);
      acc := AddMonomial(acc, ms[i]);
    }
    assert ms[..|ms|] == ms;
  }

  /** The variables of a monomial added to `vars`. */
  method AddVariables(ps: seq<Power>, vars: set<VarId>) returns (vars': set<VarId>)
    ensures vars' == vars + VarsOf(ps)
  {
    vars' := vars;
    for j := 0 to |ps|
      invariant vars' == vars + VarsOf(ps[..j])
    {
      VarsOfSnoc(ps[..j + 1]);
      assert ps[..j + 1][..j] == ps[..j];
      vars' := vars' + {ps[j].v};
    }
    assert ps[..|ps|] == ps;
  }

  // ----- set_context -----

  /** Every monomial's pairs listed in the order of `c` (`lp_polynomial_ensure_order`). */
  function Reorder(c: Context, ts: seq<Monomial>): (r: seq<Monomial>)
    ensures |r| == |ts|
    ensures forall k :: 0 <= k < |ts| ==> r[k].coeff == ts[k].coeff
    ensures c.Valid() ==> forall k :: 0 <= k < |ts| ==> WellFormed(c, r[k].powers)
    ensures c.Valid() ==> forall k, w :: 0 <= k < |ts| && c.Has(w) ==> ExpOf(r[k].powers, w) == ExpOf(ts[k].powers, w)
  {
    var r := seq(|ts|, k requires 0 <= k < |ts| => Monomial(ts[k].coeff, Canon(c, ts[k].powers)));
    if c.Valid() then
      CanonAll(c, ts);
      r
    else r
  }

  /** Re-sorting every power product of `ts` for a valid context: well-formed, with every known exponent kept. */
  lemma CanonAll(c: Context, ts: seq<Monomial>)
    requires c.Valid()
    ensures forall k :: 0 <= k < |ts| ==> WellFormed(c, Canon(c, ts[k].powers))
    ensures forall k, w :: 0 <= k < |ts| && c.Has(w) ==> ExpOf(Canon(c, ts[k].powers), w) == ExpOf(ts[k].powers, w)
  {
    forall k | 0 <= k < |ts| ensures WellFormed(c, Canon(c, ts[k].powers)) {
      CanonWellFormed(c, ts[k].powers);
    }
    forall k, w | 0 <= k < |ts| && c.Has(w) ensures ExpOf(Canon(c, ts[k].powers), w) == ExpOf(ts[k].powers, w) {
      CanonExp(c, ts[k].powers, w);
    }
  }

  /** Every variable of the polynomial is known to `c`. */
  predicate KnownTo(c: Context, ts: seq<Monomial>)
  {
    forall v :: v in Vars(ts) ==> c.Has(v)
  }

  lemma KnownToMonomial(c: Context, ts: seq<Monomial>, k: nat, w: VarId)
    requires KnownTo(c, ts) && k < |ts| && w in VarsOf(ts[k].powers)
    ensures c.Has(w)
  {
    VarsMember(ts, w);
  }

  /**
   * When one context extends the other, a power product sorted for the old
   * order is sorted for the new one: relabelling suffices.
   */
  lemma RelabelKeepsSorted(a: Context, c: Context, ps: seq<Power>)
    requires a.Valid() && c.Valid() && WellFormed(a, ps)
    requires forall k :: 0 <= k < |ps| ==> c.Has(ps[k].v)
    requires c.IsExtensionOf(a) || a.IsExtensionOf(c)
    ensures Sorted(c, ps)
  {
    forall i, j | 0 <= i < j < |ps| ensures c.Rank(ps[i].v) < c.Rank(ps[j].v) {
      var x, y := ps[i].v, ps[j].v;
      var ix, iy := a.Rank(x), a.Rank(y);
      assert ix < iy;
      if c.IsExtensionOf(a) {
        assert a.order[ix] == x && a.order[iy] == y;
      } else {
        var jx, jy := c.Rank(x), c.Rank(y);
        assert c.order[jx] == x && c.order[jy] == y;
      }
    }
  }

  /** Relabelling keeps a valid polynomial valid under the new context. */
  lemma RelabelValid(p: Polynomial, c: Context)
    requires Polynomials.Valid(p) && c.Valid() && KnownTo(c, p.terms)
    requires c.IsExtensionOf(p.context) || p.context.IsExtensionOf(c)
    ensures Polynomials.Valid(Polynomial(c, p.terms))
  {
    forall k | 0 <= k < |p.terms| ensures WellFormed(c, p.terms[k].powers) {
      var ps := p.terms[k].powers;
      forall j | 0 <= j < |ps| ensures c.Has(ps[j].v) {
        KnownToMonomial(c, p.terms, k, ps[j].v);
      }
      RelabelKeepsSorted(p.context, c, ps);
    }
  }

  /** Reordering keeps the exponent of every variable in every monomial. */
  lemma ReorderKeepsExponents(c: Context, ts: seq<Monomial>, k: nat, w: VarId)
    requires c.Valid() && KnownTo(c, ts) && k < |ts|
    requires forall j :: 0 <= j < |ts[k].powers| ==> ts[k].powers[j].e > 0
    ensures Reorder(c, ts)[k].coeff == ts[k].coeff
    ensures ExpOf(Reorder(c, ts)[k].powers, w) == ExpOf(ts[k].powers, w)
  {
    CanonExp(c, ts[k].powers, w);
    ExpOfPresent(ts[k].powers, w);
    if w in VarsOf(ts[k].powers) {
      KnownToMonomial(c, ts, k, w);
    }
  }

  /** Reordering keeps a valid polynomial valid under the new context. */
  lemma ReorderValid(p: Polynomial, c: Context)
    requires Polynomials.Valid(p) && c.Valid() && KnownTo(c, p.terms)
    ensures Polynomials.Valid(Polynomial(c, Reorder(c, p.terms)))
  {
    var ts, r := p.terms, Reorder(c, p.terms);
    forall k | 0 <= k < |r| ensures WellFormed(c, r[k].powers) {
      CanonWellFormed(c, ts[k].powers);
    }
    forall i, j | 0 <= i < j < |r| ensures r[i].powers != r[j].powers {
      if r[i].powers == r[j].powers {
        forall w ensures ExpOf(ts[i].powers, w) == ExpOf(ts[j].powers, w) {
          ReorderKeepsExponents(c, ts, i, w);
          ReorderKeepsExponents(c, ts, j, w);
        }
        PowersExtensional(p.context, ts[i].powers, ts[j].powers);
      }
    }
  }

  /** Swapping the order of `x0` and `x1` lists the pairs of `x0 * x1^2` the other way round. */
  lemma ReorderExample()
    ensures Reorder(Context([1, 0]), [Monomial(1, [Power(0, 1), Power(1, 2)])]) == [Monomial(1, [Power(1, 2), Power(0, 1)])]
  {
    var c := Context([1, 0]);
    var ps := [Power(0, 1), Power(1, 2)];
    assert c.Rank(1) == 0 && c.Rank(0) == 1;
    assert ExpOf(ps, 0) == 1 && ExpOf(ps, 1) == 2;
    assert CanonFrom(c, ps, 2) == [];
    assert CanonFrom(c, ps, 1) == [Power(0, 1)];
    assert Canon(c, ps) == [Power(1, 2), Power(0, 1)];
  }

  /** A polynomial object: its context and the monomials of its libpoly handle, kept in insertion order in place of libpoly's traversal order. */
  class LPPolynomial {
    var context: Context
    var terms: seq<Monomial>

    function Value(): Polynomial
      reads this
    {
      Polynomial(context, terms)
    }

    /** The representation invariant libpoly's order check asserts. */
    predicate Valid()
      reads this
    {
      Polynomials.Valid(Value())
    }

    /** The zero polynomial of a context. */
    constructor Zero(c: Context)
      requires c.Valid()
      ensures context == c && terms == []
      ensures Valid()
    {
      context := c;
      terms := [];
    }

    /** The constant `n`. */
    constructor FromInteger(c: Context, n: int)
      requires c.Valid()
      ensures Value() == Constant(c, n)
      ensures Valid()
    {
      ConstantValid(c, n);
      context := c;
      terms := Constant(c, n).terms;
    }

    /** A rational keeps only its numerator. */
    constructor FromRational(c: Context, q: ClnOperations.Rational)
      requires c.Valid() && ClnOperations.Canonical(q)
      ensures Value() == Constant(c, q.num)
      ensures Valid()
    {
      ConstantValid(c, q.num);
      context := c;
      terms := Constant(c, q.num).terms;
    }

    /** `coeff * v^degree`. */
    constructor FromVarPower(c: Context, v: VarId, coeff: int, degree: nat)
      requires c.Valid() && c.Has(v)
      ensures context == c && terms == AddMonomial([], TermOf(v, coeff, degree))
      ensures Valid()
    {
      VarPowerWellFormed(c, v, degree);
      BuiltValid(c, [TermOf(v, coeff, degree)]);
      assert [TermOf(v, coeff, degree)][..0] == [];
      context := c;
      terms := AddMonomial([], TermOf(v, coeff, degree));
    }

    /** The variable `v` itself. */
    constructor FromVariable(c: Context, v: VarId)
      requires c.Valid() && c.Has(v)
      ensures context == c && terms == [Monomial(1, [Power(v, 1)])]
      ensures Valid()
    {
      context := c;
      terms := [Monomial(1, [Power(v, 1)])];
    }

    /** A univariate polynomial from its coefficients, highest power first. */
    constructor FromCoefficients(c: Context, v: VarId, cs: seq<int>)
      requires c.Valid() && c.Has(v)
      ensures context == c && terms == ListTerms(v, cs)
      ensures Valid()
    {
      var acc: seq<Monomial> := [];
      var pow := |cs|;
      for i := 0 to |cs|
        invariant pow == |cs| - i
        invariant acc == AddAll([], ListMonomials(v, cs[..i], |cs|))
      {
        pow := pow - 1;
        ListMonomialsStep(v, cs, i);
        if cs[i] == 0 {
          var ms := ListMonomials(v, cs[..i], |cs|);
          assert ms + [] == ms;
          continue;
        }
        var t := Monomial(cs[i], if pow > 0 then [Power(v, pow)] else []);
        AddAllSnoc([], ListMonomials(v, cs[..i], |cs|), t);
        acc := AddMonomial(acc, t);
      }
      assert cs[..|cs|] == cs;
      ListMonomialsWellFormed(c, v, cs, |cs|);
      BuiltValid(c, ListMonomials(v, cs, |cs|));
      context := c;
      terms := acc;
    }

    /** A univariate polynomial from an exponent-to-coefficient map, visited by increasing exponent. */
    constructor FromCoefficientMap(c: Context, v: VarId, es: seq<(nat, int)>)
      requires c.Valid() && c.Has(v)
      requires forall i, j :: 0 <= i < j < |es| ==> es[i].0 < es[j].0
      ensures context == c && terms == MapTerms(v, es)
      ensures Valid()
    {
      var acc: seq<Monomial> := [];
      for i := 0 to |es|
        invariant acc == AddAll([], MapMonomials(v, es[..i]))
      {
        MapMonomialsStep(v, es, i);
        if es[i].1 == 0 {
          var ms := MapMonomials(v, es[..i]);
          assert ms + [] == ms;
          continue;
        }
        var t := Monomial(es[i].1, if es[i].0 > 0 then [Power(v, es[i].0)] else []);
        AddAllSnoc([], MapMonomials(v, es[..i]), t);
        acc := AddMonomial(acc, t);
      }
      assert es[..|es|] == es;
      MapMonomialsWellFormed(c, v, es);
      BuiltValid(c, MapMonomials(v, es));
      context := c;
      terms := acc;
    }

    /** `total_degree`: the largest exponent sum over the monomials, 0 for zero. */
    method TotalDegree() returns (d: nat)
      ensures d == Traversal.TotalDegree(terms)
    {
      d := 0;
      for i := 0 to |terms|
        invariant forall k :: 0 <= k < i ==> SumExps(terms[k].powers) <= d
        invariant d == 0 || exists k :: 0 <= k < i && SumExps(terms[k].powers) == d
      {
        var current := SumOfExponents(terms[i].powers);
        if d < current {
          d := current;
        }
      }
    }

    /** `degree(v)`: the largest exponent of `v` over the monomials, 0 where it does not occur. */
    method Degree(v: VarId) returns (d: nat)
      ensures d == DegreeOf(terms, v)
    {
      d := 0;
      for i := 0 to |terms|
        invariant forall k :: 0 <= k < i ==> ExpOf(terms[k].powers, v) <= d
        invariant d == 0 || exists k :: 0 <= k < i && ExpOf(terms[k].powers, v) == d
      {
        var current := ExponentOf(terms[i].powers, v);
        if d < current {
          d := current;
        }
      }
    }

    /** `monomial_total_degrees`: one exponent sum per monomial, in list order. */
    method MonomialTotalDegrees() returns (r: seq<nat>)
      ensures r == Traversal.MonomialTotalDegrees(terms)
    {
      r := [];
      for i := 0 to |terms|
        invariant |r| == i
        invariant forall k :: 0 <= k < i ==> r[k] == SumExps(terms[k].powers)
      {
        var current := SumOfExponents(terms[i].powers);
        r := r + [current];
      }
    }

    /** `monomial_degrees(v)`: the exponent of `v` in each monomial, in list order. */
    method MonomialDegrees(v: VarId) returns (r: seq<nat>)
      ensures r == Traversal.MonomialDegrees(terms, v)
    {
      r := [];
      for i := 0 to |terms|
        invariant |r| == i
        invariant forall k :: 0 <= k < i ==> r[k] == ExpOf(terms[k].powers, v)
      {
        var current := ExponentOf(terms[i].powers, v);
        r := r + [current];
      }
    }

    /** `degree_all_variables`: the largest single exponent in any monomial. */
    method DegreeAllVariables() returns (d: nat)
      ensures d == Traversal.DegreeAllVariables(terms)
    {
      d := 0;
      for i := 0 to |terms|
        invariant forall k, j :: 0 <= k < i && 0 <= j < |terms[k].powers| ==> terms[k].powers[j].e <= d
        invariant d == 0 || exists k, j :: 0 <= k < i && 0 <= j < |terms[k].powers| && terms[k].powers[j].e == d
      {
        var ps := terms[i].powers;
        for j := 0 to |ps|
          invariant forall k, j' :: 0 <= k < i && 0 <= j' < |terms[k].powers| ==> terms[k].powers[j'].e <= d
          invariant forall j' :: 0 <= j' < j ==> ps[j'].e <= d
          invariant d == 0 || (exists k, j' :: 0 <= k < i && 0 <= j' < |terms[k].powers| && terms[k].powers[j'].e == d) || (exists j' :: 0 <= j' < j && ps[j'].e == d)
        {
          if d < ps[j].e {
            d := ps[j].e;
          }
        }
      }
      DegreeAllVariablesUnique(terms, d);
    }

    /** `constant_part`: the coefficients of the variable-free monomials added up. */
    method ConstantPart() returns (part: int)
      ensures part == Traversal.ConstantPart(terms)
      ensures part == CoeffAt(terms, [])
    {
      part := 0;
      for i := 0 to |terms|
        invariant part == Traversal.ConstantPart(terms[..i])
      {
        assert terms[..i + 1][..i] == terms[..i];
        if |terms[i].powers| == 0 {
          part := part + terms[i].coeff;
        }
      }
      assert terms[..|terms|] == terms;
      ConstantPartMeaning(terms);
    }

    /** `coprime_factor`: 0 for zero, else the gcd fold from the first traversed coefficient. */
    method CoprimeFactor() returns (g: int)
      ensures g == Traversal.CoprimeFactor(terms)
    {
      var coefficients: seq<int> := [];
      for i := 0 to |terms|
        invariant |coefficients| == i
        invariant forall k :: 0 <= k < i ==> coefficients[k] == terms[k].coeff
      {
        coefficients := coefficients + [terms[i].coeff];
      }
      if |coefficients| == 0 {
        return 0;
      }
      g := coefficients[0];
      assert terms[..1] == [terms[0]];
      for i := 1 to |coefficients|
        invariant g == Traversal.CoprimeFactor(terms[..i])
      {
        assert terms[..i + 1][..i] == terms[..i];
        g := Gcd(g, coefficients[i]);
      }
      assert terms[..|terms|] == terms;
    }

    /**
     * `coeff(v, e)`: the monomials carrying the pair `(v, e)`, each copied
     * without that pair, added into a new zero polynomial of the same context.
     */
    method CoeffVarExp(v: VarId, e: nat) returns (r: Polynomial)
      ensures r == Polynomial(context, VarCoefficients.CoeffVarExp(terms, v, e))
    {
      var collected: seq<Monomial> := [];
      for i := 0 to |terms|
        invariant collected == CollectedPair(terms[..i], Power(v, e))
      {
        assert terms[..i + 1][..i] == terms[..i];
        var found := FindPair(terms[i].powers, Power(v, e));
        if found {
          var rest := CopyWithout(terms[i].powers, Power(v, e));
          collected := collected + [Monomial(terms[i].coeff, rest)];
        }
      }
      assert terms[..|terms|] == terms;
      var acc := AddInto(collected);
      r := Polynomial(context, acc);
    }

    /** `coefficients()`: the nonzero `coeff(k)` for `k` from 0 up to the degree. */
    method Coefficients() returns (r: seq<Polynomial>)
      ensures r == Normalization.Coefficients(Value())
    {
      var p := Value();
      r := [];
      for deg := 0 to Normalization.Degree(p) + 1
        invariant r == CoefficientsBelow(p, deg)
      {
        var cf := Coeff(p, deg);
        CoefficientsBelowStep(p, deg, r);
        if !IsZero(cf) {
          r := r + [cf];
        }
      }
    }

    /** `variables(p, vars)`: every variable of every monomial added to `vars`. */
    method Variables(vars: set<VarId>) returns (vars': set<VarId>)
      ensures vars' == vars + Vars(terms)
    {
      vars' := vars;
      for i := 0 to |terms|
        invariant vars' == vars + Vars(terms[..i])
      {
        assert terms[..i + 1][..i] == terms[..i];
        vars' := AddVariables(terms[i].powers, vars');
      }
      assert terms[..|terms|] == terms;
    }

    /** `+=`: the sum replaces the left operand; the context stays. */
    method AddAssign(rhs: LPPolynomial)
      requires rhs.context == context
      modifies this
      ensures Value() == Plus(old(Value()), old(rhs.Value()))
      ensures old(Valid()) && old(rhs.Valid()) ==> Valid()
    {
      terms := Plus(Value(), rhs.Value()).terms;
    }

    /** `+=` with an integer, lifted to a constant of this context. */
    method AddAssignInt(n: int)
      modifies this
      ensures Value() == PlusInt(old(Value()), n)
      ensures old(Valid()) ==> Valid()
    {
      if context.Valid() {
        ConstantValid(context, n);
      }
      terms := PlusInt(Value(), n).terms;
    }

    /** `-=`. */
    method SubAssign(rhs: LPPolynomial)
      requires rhs.context == context
      modifies this
      ensures Value() == Minus(old(Value()), old(rhs.Value()))
      ensures old(Valid()) && old(rhs.Valid()) ==> Valid()
    {
      terms := Minus(Value(), rhs.Value()).terms;
    }

    /** `-=` with an integer. */
    method SubAssignInt(n: int)
      modifies this
      ensures Value() == MinusInt(old(Value()), n)
      ensures old(Valid()) ==> Valid()
    {
      if context.Valid() {
        ConstantValid(context, n);
      }
      terms := MinusInt(Value(), n).terms;
    }

    /** `*=`. */
    method MulAssign(rhs: LPPolynomial)
      requires rhs.context == context
      modifies this
      ensures Value() == Times(old(Value()), old(rhs.Value()))
      ensures old(Valid()) && old(rhs.Valid()) ==> Valid()
    {
      terms := Times(Value(), rhs.Value()).terms;
    }

    /** `*=` with an integer. */
    method MulAssignInt(n: int)
      modifies this
      ensures Value() == TimesInt(old(Value()), n)
      ensures old(Valid()) ==> Valid()
    {
      if context.Valid() {
        ConstantValid(context, n);
      }
      terms := TimesInt(Value(), n).terms;
    }

    /**
     * `set_context(c)`: nothing happens when `c` is the current context; the
     * monomials are relabelled when one context extends the other and
     * reordered otherwise.
     */
    method SetContext(c: Context)
      requires Valid() && c.Valid() && KnownTo(c, terms)
      modifies this
      ensures context == c
      ensures old(context) == c ==> terms == old(terms)
      ensures c.IsExtensionOf(old(context)) || old(context).IsExtensionOf(c) ==> terms == old(terms)
      ensures !(c.IsExtensionOf(old(context)) || old(context).IsExtensionOf(c)) ==> terms == Reorder(c, old(terms))
      ensures Valid()
    {
      if context == c {
        ExtensionReflexive(c);
        return;
      }
      var reorder := !(c.IsExtensionOf(context) || context.IsExtensionOf(c));
      var p := Value();
      context := c;
      if reorder {
        ReorderValid(p, c);
        terms := Reorder(c, terms);
      } else {
        RelabelValid(p, c);
      }
    }
  }

  lemma CoefficientsBelowStep(p: Polynomial, d: nat, r: seq<Polynomial>)
    requires r == CoefficientsBelow(p, d)
    ensures IsZero(Coeff(p, d)) ==> CoefficientsBelow(p, d + 1) == r
    ensures !IsZero(Coeff(p, d)) ==> CoefficientsBelow(p, d + 1) == r + [Coeff(p, d)]
  {
    assert r + [] == r;
  }

  /** A bound attained by some exponent (or 0) is the largest exponent. */
  lemma DegreeAllVariablesUnique(ts: seq<Monomial>, d: nat)
    requires forall k, j :: 0 <= k < |ts| && 0 <= j < |ts[k].powers| ==> ts[k].powers[j].e <= d
    requires d == 0 || exists k, j :: 0 <= k < |ts| && 0 <= j < |ts[k].powers| && ts[k].powers[j].e == d
    ensures d == Traversal.DegreeAllVariables(ts)
  {
  }
}
