/**
 * Sparse polynomials as lists of monomials tied to a context, and the
 * libpoly arithmetic the class delegates to (`lp_polynomial_add_monomial`,
 * `lp_polynomial_add`, `lp_polynomial_sub`, `lp_polynomial_mul`), each
 * proved against its meaning: the coefficient the result gives to every
 * power product.
 */
module Polynomials {
  import opened Contexts
  import opened Monomials

  datatype Polynomial = Polynomial(context: Context, terms: seq<Monomial>)

  /** No two monomials share a power product. */
  predicate DistinctPowers(ts: seq<Monomial>)
  {
    forall i, j :: 0 <= i < j < |ts| ==> ts[i].powers != ts[j].powers
  }

  /** No monomial has a zero coefficient. */
  predicate NonZero(ts: seq<Monomial>)
  {
    forall k :: 0 <= k < |ts| ==> ts[k].coeff != 0
  }

  predicate TermsWellFormed(c: Context, ts: seq<Monomial>)
  {
    forall k :: 0 <= k < |ts| ==> WellFormed(c, ts[k].powers)
  }

  /** The invariant libpoly keeps for every polynomial it hands out. */
  predicate Valid(p: Polynomial)
  {
    p.context.Valid() && NonZero(p.terms) && DistinctPowers(p.terms) && TermsWellFormed(p.context, p.terms)
  }

  /** The meaning of a list of monomials: the coefficient it gives to the power product `pp`. */
  function CoeffAt(ts: seq<Monomial>, pp: seq<Power>): int
  {
    if ts == [] then 0
    else CoeffAt(ts[..|ts| - 1], pp) + (if ts[|ts| - 1].powers == pp then ts[|ts| - 1].coeff else 0)
  }

  lemma {:induction false} CoeffAtAppend(a: seq<Monomial>, b: seq<Monomial>, pp: seq<Power>)
    ensures CoeffAt(a + b, pp) == CoeffAt(a, pp) + CoeffAt(b, pp)
  {
    if b == [] {
      assert a + b == a;
    } else {
      assert (a + b)[..|a + b| - 1] == a + b[..|b| - 1];
      CoeffAtAppend(a, b[..|b| - 1], pp);
    }
  }

  lemma CoeffAtSingle(m: Monomial, pp: seq<Power>)
    ensures CoeffAt([m], pp) == if m.powers == pp then m.coeff else 0
  {
    assert [m][..0] == [];
  }

  /** A power product no monomial carries has coefficient zero. */
  lemma {:induction false} CoeffAtAbsent(ts: seq<Monomial>, pp: seq<Power>)
    requires forall k :: 0 <= k < |ts| ==> ts[k].powers != pp
    ensures CoeffAt(ts, pp) == 0
  {
    if ts != [] {
      CoeffAtAbsent(ts[..|ts| - 1], pp);
    }
  }

  /** With distinct power products, the coefficient of a carried power product is that monomial's. */
  lemma CoeffAtPresent(ts: seq<Monomial>, i: nat, pp: seq<Power>)
    requires DistinctPowers(ts) && i < |ts| && ts[i].powers == pp
    ensures CoeffAt(ts, pp) == ts[i].coeff
  {
    assert ts == ts[..i] + [ts[i]] + ts[i + 1..];
    CoeffAtAppend(ts[..i] + [ts[i]], ts[i + 1..], pp);
    CoeffAtAppend(ts[..i], [ts[i]], pp);
    CoeffAtSingle(ts[i], pp);
    CoeffAtAbsent(ts[..i], pp);
    var tail := ts[i + 1..];
    forall k | 0 <= k < |tail| ensures tail[k].powers != pp {
      assert tail[k] == ts[i + 1 + k];
    }
    CoeffAtAbsent(tail, pp);
  }

  /** The position of the monomial carrying `pp`, or -1. */
  function IndexOfPowers(ts: seq<Monomial>, pp: seq<Power>): (i: int)
    ensures -1 <= i < |ts|
    ensures i >= 0 ==> ts[i].powers == pp
    ensures i < 0 ==> forall k :: 0 <= k < |ts| ==> ts[k].powers != pp
  {
    if ts == [] then -1
    else if ts[|ts| - 1].powers == pp then |ts| - 1
    else IndexOfPowers(ts[..|ts| - 1], pp)
  }

  /** `ts` without its i-th monomial. */
  function RemoveAt(ts: seq<Monomial>, i: nat): (r: seq<Monomial>)
    requires i < |ts|
    ensures |r| == |ts| - 1
    ensures forall k :: 0 <= k < |r| ==> r[k] == ts[if k < i then k else k + 1]
  {
    ts[..i] + ts[i + 1..]
  }

  lemma RemoveAtKeeps(ts: seq<Monomial>, i: nat)
    requires i < |ts|
    ensures DistinctPowers(ts) ==> DistinctPowers(RemoveAt(ts, i))
    ensures NonZero(ts) ==> NonZero(RemoveAt(ts, i))
    ensures forall k :: 0 <= k < |ts| - 1 ==> RemoveAt(ts, i)[k] in ts
  {
    var r := RemoveAt(ts, i);
    if DistinctPowers(ts) {
      forall a, b | 0 <= a < b < |r| ensures r[a].powers != r[b].powers {
        var a', b' := if a < i then a else a + 1, if b < i then b else b + 1;
        assert r[a] == ts[a'] && r[b] == ts[b'] && a' < b';
      }
    }
    forall k | 0 <= k < |r| ensures r[k] in ts {
      var k' := if k < i then k else k + 1;
      assert r[k] == ts[k'];
    }
  }

  lemma ReplaceKeeps(ts: seq<Monomial>, i: nat, x: Monomial)
    requires i < |ts| && x.powers == ts[i].powers && x.coeff != 0
    ensures DistinctPowers(ts) ==> DistinctPowers(ts[i := x])
    ensures NonZero(ts) ==> NonZero(ts[i := x])
  {
  }

  lemma AppendKeeps(ts: seq<Monomial>, m: Monomial)
    requires m.coeff != 0 && forall k :: 0 <= k < |ts| ==> ts[k].powers != m.powers
    ensures DistinctPowers(ts) ==> DistinctPowers(ts + [m])
    ensures NonZero(ts) ==> NonZero(ts + [m])
  {
  }

  /**
   * `lp_polynomial_add_monomial`: adds `m` to the monomial with the same power
   * product, dropping it when the sum is zero, or appends `m` when there is
   * none; a zero `m` changes nothing.
   */
  function AddMonomial(ts: seq<Monomial>, m: Monomial): (r: seq<Monomial>)
    ensures DistinctPowers(ts) ==> DistinctPowers(r)
    ensures NonZero(ts) ==> NonZero(r)
    ensures forall k :: 0 <= k < |r| ==> r[k] in ts || r[k].powers == m.powers
  {
    var i := IndexOfPowers(ts, m.powers);
    if m.coeff == 0 then ts
    else if i < 0 then
      AppendKeeps(ts, m);
      ts + [m]
    else
      var c := ts[i].coeff + m.coeff;
      if c == 0 then
        RemoveAtKeeps(ts, i);
        RemoveAt(ts, i)
      else
        ReplaceKeeps(ts, i, Monomial(c, m.powers));
        ts[i := Monomial(c, m.powers)]
  }

  /** Splitting off the i-th monomial of a list. */
  lemma CoeffAtSplit(ts: seq<Monomial>, i: nat, pp: seq<Power>)
    requires i < |ts|
    ensures CoeffAt(ts, pp) == CoeffAt(ts[..i], pp) + (if ts[i].powers == pp then ts[i].coeff else 0) + CoeffAt(ts[i + 1..], pp)
  {
    assert ts == ts[..i] + [ts[i]] + ts[i + 1..];
    CoeffAtAppend(ts[..i] + [ts[i]], ts[i + 1..], pp);
    CoeffAtAppend(ts[..i], [ts[i]], pp);
    CoeffAtSingle(ts[i], pp);
  }

  lemma RemoveAtMeaning(ts: seq<Monomial>, i: nat, pp: seq<Power>)
    requires i < |ts|
    ensures CoeffAt(RemoveAt(ts, i), pp) == CoeffAt(ts, pp) - (if ts[i].powers == pp then ts[i].coeff else 0)
  {
    CoeffAtSplit(ts, i, pp);
    CoeffAtAppend(ts[..i], ts[i + 1..], pp);
  }

  lemma ReplaceMeaning(ts: seq<Monomial>, i: nat, x: Monomial, pp: seq<Power>)
    requires i < |ts|
    ensures CoeffAt(ts[i := x], pp) == CoeffAt(ts, pp) - (if ts[i].powers == pp then ts[i].coeff else 0) + (if x.powers == pp then x.coeff else 0)
  {
    var r := ts[i := x];
    CoeffAtSplit(ts, i, pp);
    CoeffAtSplit(r, i, pp);
    assert r[..i] == ts[..i] && r[i + 1..] == ts[i + 1..];
  }

  lemma AddMonomialMeaning(ts: seq<Monomial>, m: Monomial, pp: seq<Power>)
    ensures CoeffAt(AddMonomial(ts, m), pp) == CoeffAt(ts, pp) + (if m.powers == pp then m.coeff else 0)
  {
    var i := IndexOfPowers(ts, m.powers);
    if m.coeff != 0 {
      if i < 0 {
        CoeffAtAppend(ts, [m], pp);
        CoeffAtSingle(m, pp);
      } else if ts[i].coeff + m.coeff == 0 {
        RemoveAtMeaning(ts, i, pp);
      } else {
        ReplaceMeaning(ts, i, Monomial(ts[i].coeff + m.coeff, m.powers), pp);
      }
    }
  }

  /** Adds every monomial of `ms`, in order, into `ts`. */
  function AddAll(ts: seq<Monomial>, ms: seq<Monomial>): (r: seq<Monomial>)
    ensures DistinctPowers(ts) ==> DistinctPowers(r)
    ensures NonZero(ts) ==> NonZero(r)
  {
    if ms == [] then ts else AddMonomial(AddAll(ts, ms[..|ms| - 1]), ms[|ms| - 1])
  }

  lemma {:induction false} AddAllMeaning(ts: seq<Monomial>, ms: seq<Monomial>, pp: seq<Power>)
    ensures CoeffAt(AddAll(ts, ms), pp) == CoeffAt(ts, pp) + CoeffAt(ms, pp)
  {
    if ms != [] {
      AddAllMeaning(ts, ms[..|ms| - 1], pp);
      AddMonomialMeaning(AddAll(ts, ms[..|ms| - 1]), ms[|ms| - 1], pp);
    }
  }

  /** Monomials with distinct power products and nonzero coefficients, added into the zero polynomial, are kept as they are. */
  lemma {:induction false} AddAllDistinct(ms: seq<Monomial>)
    requires DistinctPowers(ms) && NonZero(ms)
    ensures AddAll([], ms) == ms
  {
    if ms != [] {
      var front, m := ms[..|ms| - 1], ms[|ms| - 1];
      assert forall k :: 0 <= k < |front| ==> front[k] == ms[k];
      AddAllDistinct(front);
      assert forall k :: 0 <= k < |front| ==> front[k].powers != ms[|ms| - 1].powers;
      assert front + [m] == ms;
    }
  }

  lemma {:induction false} AddAllWellFormed(c: Context, ts: seq<Monomial>, ms: seq<Monomial>)
    requires TermsWellFormed(c, ts) && TermsWellFormed(c, ms)
    ensures TermsWellFormed(c, AddAll(ts, ms))
  {
    if ms != [] {
      AddAllWellFormed(c, ts, ms[..|ms| - 1]);
      var acc := AddAll(ts, ms[..|ms| - 1]);
      var r := AddMonomial(acc, ms[|ms| - 1]);
      forall k | 0 <= k < |r| ensures WellFormed(c, r[k].powers) {
        if r[k] in acc {
          var j :| 0 <= j < |acc| && acc[j] == r[k];
        }
      }
    }
  }

  /** Every coefficient multiplied by `k`. */
  function Scale(ts: seq<Monomial>, k: int): (r: seq<Monomial>)
    ensures |r| == |ts|
    ensures forall i :: 0 <= i < |ts| ==> r[i] == Monomial(ts[i].coeff * k, ts[i].powers)
  {
    seq(|ts|, i requires 0 <= i < |ts| => Monomial(ts[i].coeff * k, ts[i].powers))
  }

  lemma {:induction false} ScaleMeaning(ts: seq<Monomial>, k: int, pp: seq<Power>)
    ensures CoeffAt(Scale(ts, k), pp) == CoeffAt(ts, pp) * k
  {
    if ts != [] {
      assert Scale(ts, k)[..|ts| - 1] == Scale(ts[..|ts| - 1], k);
      ScaleMeaning(ts[..|ts| - 1], k, pp);
    }
  }

  lemma ScaleValid(p: Polynomial, k: int)
    requires Valid(p) && k != 0
    ensures Valid(Polynomial(p.context, Scale(p.terms, k)))
  {
  }

  lemma {:induction false} IndexOfScaled(ts: seq<Monomial>, k: int, pp: seq<Power>)
    ensures IndexOfPowers(Scale(ts, k), pp) == IndexOfPowers(ts, pp)
  {
    if ts != [] {
      assert Scale(ts, k)[..|ts| - 1] == Scale(ts[..|ts| - 1], k);
      IndexOfScaled(ts[..|ts| - 1], k, pp);
    }
  }

  /** Scaling by a nonzero constant commutes with adding a monomial. */
  lemma ScaleAddMonomial(ts: seq<Monomial>, m: Monomial, k: int)
    requires k != 0
    ensures AddMonomial(Scale(ts, k), Monomial(m.coeff * k, m.powers)) == Scale(AddMonomial(ts, m), k)
  {
    IndexOfScaled(ts, k, m.powers);
    var i := IndexOfPowers(ts, m.powers);
    if m.coeff != 0 {
      NonZeroProduct(m.coeff, k);
      if i < 0 {
        assert Scale(ts + [m], k) == Scale(ts, k) + [Monomial(m.coeff * k, m.powers)];
      } else {
        var s := ts[i].coeff + m.coeff;
        assert ts[i].coeff * k + m.coeff * k == s * k;
        if s == 0 {
          assert Scale(RemoveAt(ts, i), k) == RemoveAt(Scale(ts, k), i);
        } else {
          NonZeroProduct(s, k);
          assert Scale(ts[i := Monomial(s, m.powers)], k) == Scale(ts, k)[i := Monomial(s * k, m.powers)];
        }
      }
    } else {
      assert m.coeff * k == 0;
    }
  }

  /** Scaling by a nonzero constant commutes with adding a list of monomials. */
  lemma {:induction false} ScaleAddAll(ts: seq<Monomial>, ms: seq<Monomial>, k: int)
    requires k != 0
    ensures AddAll(Scale(ts, k), Scale(ms, k)) == Scale(AddAll(ts, ms), k)
  {
    if ms != [] {
      assert Scale(ms, k)[..|ms| - 1] == Scale(ms[..|ms| - 1], k);
      ScaleAddAll(ts, ms[..|ms| - 1], k);
      ScaleAddMonomial(AddAll(ts, ms[..|ms| - 1]), ms[|ms| - 1], k);
    }
  }

  /** The monomial `m` times every monomial of `qs`. */
  function MulMonomial(c: Context, m: Monomial, qs: seq<Monomial>): (r: seq<Monomial>)
    ensures |r| == |qs|
    ensures forall j :: 0 <= j < |qs| ==> r[j] == Monomial(m.coeff * qs[j].coeff, Merge(c, m.powers, qs[j].powers))
  {
    seq(|qs|, j requires 0 <= j < |qs| => Monomial(m.coeff * qs[j].coeff, Merge(c, m.powers, qs[j].powers)))
  }

  /** `lp_polynomial_mul` on the monomial lists: every product of a monomial of `ps` with one of `qs`, summed. */
  function MulTerms(c: Context, ps: seq<Monomial>, qs: seq<Monomial>): (r: seq<Monomial>)
    ensures DistinctPowers(r) && NonZero(r)
  {
    if ps == [] then [] else AddAll(MulTerms(c, ps[..|ps| - 1], qs), MulMonomial(c, ps[|ps| - 1], qs))
  }

  /** Sum of the products of `m` with the monomials of `qs` landing on `pp`. */
  function RowCoeff(c: Context, m: Monomial, qs: seq<Monomial>, pp: seq<Power>): int
  {
    if qs == [] then 0
    else
      var n := qs[|qs| - 1];
      RowCoeff(c, m, qs[..|qs| - 1], pp) + (if Merge(c, m.powers, n.powers) == pp then m.coeff * n.coeff else 0)
  }

  /** The coefficient of `pp` in the product: the sum over all pairs of monomials whose product lands on `pp`. */
  function ProductCoeff(c: Context, ps: seq<Monomial>, qs: seq<Monomial>, pp: seq<Power>): int
  {
    if ps == [] then 0 else ProductCoeff(c, ps[..|ps| - 1], qs, pp) + RowCoeff(c, ps[|ps| - 1], qs, pp)
  }

  lemma {:induction false} MulMonomialMeaning(c: Context, m: Monomial, qs: seq<Monomial>, pp: seq<Power>)
    ensures CoeffAt(MulMonomial(c, m, qs), pp) == RowCoeff(c, m, qs, pp)
  {
    if qs != [] {
      assert MulMonomial(c, m, qs)[..|qs| - 1] == MulMonomial(c, m, qs[..|qs| - 1]);
      MulMonomialMeaning(c, m, qs[..|qs| - 1], pp);
    }
  }

  lemma {:induction false} MulTermsMeaning(c: Context, ps: seq<Monomial>, qs: seq<Monomial>, pp: seq<Power>)
    ensures CoeffAt(MulTerms(c, ps, qs), pp) == ProductCoeff(c, ps, qs, pp)
  {
    if ps != [] {
      MulTermsMeaning(c, ps[..|ps| - 1], qs, pp);
      AddAllMeaning(MulTerms(c, ps[..|ps| - 1], qs), MulMonomial(c, ps[|ps| - 1], qs), pp);
      MulMonomialMeaning(c, ps[|ps| - 1], qs, pp);
    }
  }

  lemma {:induction false} MulTermsWellFormed(c: Context, ps: seq<Monomial>, qs: seq<Monomial>)
    requires TermsWellFormed(c, ps) && TermsWellFormed(c, qs)
    ensures TermsWellFormed(c, MulTerms(c, ps, qs))
  {
    if ps != [] {
      MulTermsWellFormed(c, ps[..|ps| - 1], qs);
      var m := ps[|ps| - 1];
      forall j | 0 <= j < |qs| ensures WellFormed(c, Merge(c, m.powers, qs[j].powers)) {
        MergeWellFormed(c, m.powers, qs[j].powers);
      }
      AddAllWellFormed(c, MulTerms(c, ps[..|ps| - 1], qs), MulMonomial(c, m, qs));
    }
  }

  /** The monomial list of the integer `n` (`poly_helper::construct_lp_poly`): no monomial for zero. */
  function ConstantTerms(n: int): (r: seq<Monomial>)
    ensures forall pp :: CoeffAt(r, pp) == if pp == [] then n else 0
  {
    CoeffAtSingle(Monomial(n, []), []);
    assert forall pp :: pp != [] ==> CoeffAt([Monomial(n, [])], pp) == 0 by {
      forall pp | pp != [] ensures CoeffAt([Monomial(n, [])], pp) == 0 {
        CoeffAtSingle(Monomial(n, []), pp);
      }
    }
    if n == 0 then [] else [Monomial(n, [])]
  }

  /** Multiplying by a nonzero constant scales every coefficient and keeps the order of the monomials. */
  lemma {:induction false} MulByConstant(c: Context, ps: seq<Monomial>, n: int)
    requires DistinctPowers(ps) && NonZero(ps) && n != 0
    ensures MulTerms(c, ps, ConstantTerms(n)) == Scale(ps, n)
  {
    if ps != [] {
      var front := ps[..|ps| - 1];
      var m := ps[|ps| - 1];
      assert DistinctPowers(front) && NonZero(front);
      MulByConstant(c, front, n);
      MergeEmpty(c, m.powers);
      var acc := Scale(front, n);
      var x := Monomial(m.coeff * n, m.powers);
      assert x.coeff != 0 by {
        NonZeroProduct(m.coeff, n);
      }
      assert ConstantTerms(n) == [Monomial(n, [])];
      assert MulMonomial(c, m, ConstantTerms(n)) == [x];
      assert IndexOfPowers(acc, m.powers) == -1 by {
        forall k | 0 <= k < |acc| ensures acc[k].powers != m.powers {
          assert ps[k].powers != ps[|ps| - 1].powers;
        }
      }
      assert [x][..0] == [];
      assert AddAll(acc, [x]) == AddMonomial(acc, x);
      assert acc + [x] == Scale(ps, n);
    }
  }

  lemma NonZeroProduct(a: int, b: int)
    requires a != 0 && b != 0
    ensures a * b != 0
  {
  }

  /** Multiplying by zero leaves no monomial. */
  lemma {:induction false} MulByZero(c: Context, ps: seq<Monomial>)
    ensures MulTerms(c, ps, []) == []
  {
    if ps != [] {
      MulByZero(c, ps[..|ps| - 1]);
      assert MulMonomial(c, ps[|ps| - 1], []) == [];
    }
  }

  /** The constant polynomial `n` in context `c` (the integer constructors and the lifting of integers). */
  function Constant(c: Context, n: int): (p: Polynomial)
    ensures p.context == c
    ensures forall pp :: CoeffAt(p.terms, pp) == if pp == [] then n else 0
  {
    Polynomial(c, ConstantTerms(n))
  }

  lemma ConstantValid(c: Context, n: int)
    requires c.Valid()
    ensures Valid(Constant(c, n))
  {
  }

  /** `operator+` on two polynomials of the same context (`lp_polynomial_add`). */
  function Plus(p: Polynomial, q: Polynomial): (r: Polynomial)
    requires p.context == q.context
    ensures r.context == p.context
    ensures forall pp :: CoeffAt(r.terms, pp) == CoeffAt(p.terms, pp) + CoeffAt(q.terms, pp)
    ensures Valid(p) && Valid(q) ==> Valid(r)
  {
    var r := Polynomial(p.context, AddAll(p.terms, q.terms));
    assert forall pp :: CoeffAt(r.terms, pp) == CoeffAt(p.terms, pp) + CoeffAt(q.terms, pp) by {
      forall pp ensures CoeffAt(r.terms, pp) == CoeffAt(p.terms, pp) + CoeffAt(q.terms, pp) {
        AddAllMeaning(p.terms, q.terms, pp);
      }
    }
    if Valid(p) && Valid(q) then
      AddAllWellFormed(p.context, p.terms, q.terms);
      r
    else r
  }

  /** `operator-` on two polynomials of the same context (`lp_polynomial_sub`). */
  function Minus(p: Polynomial, q: Polynomial): (r: Polynomial)
    requires p.context == q.context
    ensures r.context == p.context
    ensures forall pp :: CoeffAt(r.terms, pp) == CoeffAt(p.terms, pp) - CoeffAt(q.terms, pp)
    ensures Valid(p) && Valid(q) ==> Valid(r)
  {
    var neg := Scale(q.terms, -1);
    var r := Polynomial(p.context, AddAll(p.terms, neg));
    assert forall pp :: CoeffAt(r.terms, pp) == CoeffAt(p.terms, pp) - CoeffAt(q.terms, pp) by {
      forall pp ensures CoeffAt(r.terms, pp) == CoeffAt(p.terms, pp) - CoeffAt(q.terms, pp) {
        AddAllMeaning(p.terms, neg, pp);
        ScaleMeaning(q.terms, -1, pp);
      }
    }
    if Valid(p) && Valid(q) then
      AddAllWellFormed(p.context, p.terms, neg);
      r
    else r
  }

  /** `operator*` on two polynomials of the same context (`lp_polynomial_mul`). */
  function Times(p: Polynomial, q: Polynomial): (r: Polynomial)
    requires p.context == q.context
    ensures r.context == p.context
    ensures forall pp :: CoeffAt(r.terms, pp) == ProductCoeff(p.context, p.terms, q.terms, pp)
    ensures Valid(p) && Valid(q) ==> Valid(r)
  {
    var r := Polynomial(p.context, MulTerms(p.context, p.terms, q.terms));
    assert forall pp :: CoeffAt(r.terms, pp) == ProductCoeff(p.context, p.terms, q.terms, pp) by {
      forall pp ensures CoeffAt(r.terms, pp) == ProductCoeff(p.context, p.terms, q.terms, pp) {
        MulTermsMeaning(p.context, p.terms, q.terms, pp);
      }
    }
    if Valid(p) && Valid(q) then
      MulTermsWellFormed(p.context, p.terms, q.terms);
      r
    else r
  }

  /** `p + n`: the integer lifted to a constant polynomial in the context of `p`. */
  function PlusInt(p: Polynomial, n: int): (r: Polynomial)
    ensures r.context == p.context
    ensures forall pp :: CoeffAt(r.terms, pp) == CoeffAt(p.terms, pp) + (if pp == [] then n else 0)
  {
    Plus(p, Constant(p.context, n))
  }

  /** `n + p`, computed as `p + n`. */
  function IntPlus(n: int, p: Polynomial): (r: Polynomial)
    ensures r.context == p.context
  {
    PlusInt(p, n)
  }

  /** `p - n`. */
  function MinusInt(p: Polynomial, n: int): (r: Polynomial)
    ensures r.context == p.context
    ensures forall pp :: CoeffAt(r.terms, pp) == CoeffAt(p.terms, pp) - (if pp == [] then n else 0)
  {
    Minus(p, Constant(p.context, n))
  }

  /** `n - p`: the constant `n` minus `p`. */
  function IntMinus(n: int, p: Polynomial): (r: Polynomial)
    ensures r.context == p.context
    ensures forall pp :: CoeffAt(r.terms, pp) == (if pp == [] then n else 0) - CoeffAt(p.terms, pp)
  {
    Minus(Constant(p.context, n), p)
  }

  /** `p * n`. */
  function TimesInt(p: Polynomial, n: int): (r: Polynomial)
    ensures r.context == p.context
  {
    Times(p, Constant(p.context, n))
  }

  /** `n * p`, computed as `p * n`. */
  function IntTimes(n: int, p: Polynomial): (r: Polynomial)
    ensures r.context == p.context
  {
    TimesInt(p, n)
  }

  /** Lifting an integer on the left gives the same coefficients as adding it on the right. */
  lemma IntPlusIsLifted(n: int, p: Polynomial, pp: seq<Power>)
    ensures CoeffAt(IntPlus(n, p).terms, pp) == CoeffAt(Plus(Constant(p.context, n), p).terms, pp)
  {
  }

  /** Multiplying by an integer scales the coefficients; by zero it gives the zero polynomial. */
  lemma TimesIntScales(p: Polynomial, n: int)
    requires Valid(p)
    ensures TimesInt(p, n).terms == if n == 0 then [] else Scale(p.terms, n)
    ensures IntTimes(n, p) == TimesInt(p, n)
  {
    if n == 0 {
      MulByZero(p.context, p.terms);
    } else {
      MulByConstant(p.context, p.terms, n);
    }
  }
}
