/**
 * libpoly monomials (`lp_monomial_t`): an integer coefficient and a list of
 * (variable, exponent) pairs. In a well-formed monomial every exponent is
 * positive, every variable is known to the context, and the variables are
 * listed by strictly increasing rank.
 */
module Monomials {
  import opened Contexts

  datatype Power = Power(v: VarId, e: nat)

  datatype Monomial = Monomial(coeff: int, powers: seq<Power>)

  /** Every ranked pair of `ps` lies strictly above rank `r`. */
  predicate Above(c: Context, ps: seq<Power>, r: int)
  {
    forall k :: 0 <= k < |ps| ==> c.Rank(ps[k].v) > r
  }

  /** Variables listed by strictly increasing rank. */
  predicate Sorted(c: Context, ps: seq<Power>)
  {
    forall i, j :: 0 <= i < j < |ps| ==> c.Rank(ps[i].v) < c.Rank(ps[j].v)
  }

  /** Every exponent is positive and every variable is known to `c`. */
  predicate Known(c: Context, ps: seq<Power>)
  {
    forall k :: 0 <= k < |ps| ==> ps[k].e > 0 && c.Has(ps[k].v)
  }

  /** A well-formed power product over context `c`. */
  predicate WellFormed(c: Context, ps: seq<Power>)
  {
    Known(c, ps) && Sorted(c, ps)
  }

  lemma KnownCons(c: Context, p: Power, ps: seq<Power>)
    requires p.e > 0 && c.Has(p.v) && Known(c, ps)
    ensures Known(c, [p] + ps)
  {
    var r := [p] + ps;
    forall k | 0 <= k < |r| ensures r[k].e > 0 && c.Has(r[k].v) {
      if k > 0 {
        assert r[k] == ps[k - 1];
      }
    }
  }

  lemma KnownTail(c: Context, ps: seq<Power>)
    requires Known(c, ps) && ps != []
    ensures Known(c, ps[1..])
  {
    forall k | 0 <= k < |ps[1..]| ensures ps[1..][k].e > 0 && c.Has(ps[1..][k].v) {
      assert ps[1..][k] == ps[k + 1];
    }
  }

  /** Sum of the exponents: the total degree of the monomial. */
  function SumExps(ps: seq<Power>): nat
  {
    if ps == [] then 0 else SumExps(ps[..|ps| - 1]) + ps[|ps| - 1].e
  }

  /** The exponent of the first pair naming `v`, 0 if there is none. */
  function ExpOf(ps: seq<Power>, v: VarId): nat
  {
    if ps == [] then 0 else if ps[0].v == v then ps[0].e else ExpOf(ps[1..], v)
  }

  /** The largest exponent of any single variable, 0 for the empty product. */
  function MaxExp(ps: seq<Power>): (m: nat)
    ensures forall k :: 0 <= k < |ps| ==> ps[k].e <= m
    ensures m == 0 || exists k :: 0 <= k < |ps| && ps[k].e == m
  {
    if ps == [] then 0
    else
      var m := MaxExp(ps[..|ps| - 1]);
      var last := ps[|ps| - 1].e;
      assert forall k :: 0 <= k < |ps| - 1 ==> ps[..|ps| - 1][k] == ps[k];
      if m < last then last else m
  }

  function VarsOf(ps: seq<Power>): set<VarId>
  {
    set k | 0 <= k < |ps| :: ps[k].v
  }

  lemma VarsOfSnoc(ps: seq<Power>)
    requires ps != []
    ensures VarsOf(ps) == VarsOf(ps[..|ps| - 1]) + {ps[|ps| - 1].v}
  {
    var front := ps[..|ps| - 1];
    forall w | w in VarsOf(ps) ensures w in VarsOf(front) + {ps[|ps| - 1].v} {
      var k :| 0 <= k < |ps| && ps[k].v == w;
      if k < |ps| - 1 {
        assert front[k] == ps[k];
      }
    }
    forall w | w in VarsOf(front) ensures w in VarsOf(ps) {
      var k :| 0 <= k < |front| && front[k].v == w;
      assert ps[k] == front[k];
    }
  }

  lemma ExpOfPresent(ps: seq<Power>, v: VarId)
    requires forall k :: 0 <= k < |ps| ==> ps[k].e > 0
    ensures ExpOf(ps, v) > 0 <==> v in VarsOf(ps)
  {
    if ps != [] {
      ExpOfPresent(ps[1..], v);
      assert VarsOf(ps) == {ps[0].v} + VarsOf(ps[1..]) by {
        forall w | w in VarsOf(ps) ensures w in {ps[0].v} + VarsOf(ps[1..]) {
          var k :| 0 <= k < |ps| && ps[k].v == w;
          if k > 0 {
            assert ps[1..][k - 1] == ps[k];
          }
        }
        forall w | w in VarsOf(ps[1..]) ensures w in VarsOf(ps) {
          var k :| 0 <= k < |ps[1..]| && ps[1..][k].v == w;
          assert ps[k + 1].v == w;
        }
      }
    }
  }

  lemma {:induction false} ExpOfBound(ps: seq<Power>, v: VarId)
    ensures ExpOf(ps, v) <= MaxExp(ps)
    ensures ExpOf(ps, v) <= SumExps(ps)
  {
    if ps != [] {
      if ps[0].v != v {
        ExpOfBound(ps[1..], v);
        MaxExpOfTail(ps);
        SumExpsOfTail(ps);
      } else {
        SumExpsOfTail(ps);
      }
    }
  }

  lemma {:induction false} SumExpsOfTail(ps: seq<Power>)
    requires ps != []
    ensures SumExps(ps) == ps[0].e + SumExps(ps[1..])
  {
    if |ps| > 1 {
      var front := ps[..|ps| - 1];
      assert front[1..] == ps[1..][..|ps[1..]| - 1];
      SumExpsOfTail(front);
    } else {
      assert ps[..0] == [];
    }
  }

  lemma MaxExpOfTail(ps: seq<Power>)
    requires ps != []
    ensures MaxExp(ps[1..]) <= MaxExp(ps)
  {
    var m := MaxExp(ps[1..]);
    if m > 0 {
      var k :| 0 <= k < |ps[1..]| && ps[1..][k].e == m;
      assert ps[k + 1].e == m;
    }
  }

  /** Merging two sorted power products multiplies them: equal variables add exponents. */
  function Merge(c: Context, a: seq<Power>, b: seq<Power>): seq<Power>
    decreases |a| + |b|
  {
    if a == [] then b
    else if b == [] then a
    else if c.Rank(a[0].v) < c.Rank(b[0].v) then [a[0]] + Merge(c, a[1..], b)
    else if c.Rank(b[0].v) < c.Rank(a[0].v) then [b[0]] + Merge(c, a, b[1..])
    else [Power(a[0].v, a[0].e + b[0].e)] + Merge(c, a[1..], b[1..])
  }

  lemma SortedTail(c: Context, ps: seq<Power>)
    requires Sorted(c, ps) && ps != []
    ensures Sorted(c, ps[1..]) && Above(c, ps[1..], c.Rank(ps[0].v))
  {
    forall k | 0 <= k < |ps[1..]| ensures c.Rank(ps[1..][k].v) > c.Rank(ps[0].v) {
      assert ps[1..][k] == ps[k + 1];
    }
  }

  lemma SortedCons(c: Context, p: Power, ps: seq<Power>)
    requires Sorted(c, ps) && Above(c, ps, c.Rank(p.v))
    ensures Sorted(c, [p] + ps)
  {
    var r := [p] + ps;
    forall i, j | 0 <= i < j < |r| ensures c.Rank(r[i].v) < c.Rank(r[j].v) {
      assert r[j] == ps[j - 1];
      if i > 0 {
        assert r[i] == ps[i - 1];
      }
    }
  }

  lemma AboveWeaken(c: Context, ps: seq<Power>, r: int, s: int)
    requires Above(c, ps, r) && s <= r
    ensures Above(c, ps, s)
  {
  }

  lemma {:induction false} MergeAbove(c: Context, a: seq<Power>, b: seq<Power>, r: int)
    requires Above(c, a, r) && Above(c, b, r)
    ensures Above(c, Merge(c, a, b), r)
    decreases |a| + |b|
  {
    if a != [] && b != [] {
      var ra, rb := c.Rank(a[0].v), c.Rank(b[0].v);
      if ra < rb {
        MergeAbove(c, a[1..], b, r);
      } else if rb < ra {
        MergeAbove(c, a, b[1..], r);
      } else {
        MergeAbove(c, a[1..], b[1..], r);
      }
    }
  }

  lemma {:induction false} MergeSorted(c: Context, a: seq<Power>, b: seq<Power>)
    requires Sorted(c, a) && Sorted(c, b)
    ensures Sorted(c, Merge(c, a, b))
    decreases |a| + |b|
  {
    if a != [] && b != [] {
      var ra, rb := c.Rank(a[0].v), c.Rank(b[0].v);
      SortedTail(c, a);
      SortedTail(c, b);
      if ra < rb {
        MergeSorted(c, a[1..], b);
        MergeAbove(c, a[1..], b, ra);
        SortedCons(c, a[0], Merge(c, a[1..], b));
      } else if rb < ra {
        MergeSorted(c, a, b[1..]);
        MergeAbove(c, a, b[1..], rb);
        SortedCons(c, b[0], Merge(c, a, b[1..]));
      } else {
        MergeSorted(c, a[1..], b[1..]);
        MergeAbove(c, a[1..], b[1..], ra);
        SortedCons(c, Power(a[0].v, a[0].e + b[0].e), Merge(c, a[1..], b[1..]));
      }
    }
  }

  /** Every pair of a merge has a positive exponent and a known variable when those of the inputs do. */
  lemma {:induction false} MergeKnown(c: Context, a: seq<Power>, b: seq<Power>)
    requires Known(c, a) && Known(c, b)
    ensures Known(c, Merge(c, a, b))
    decreases |a| + |b|
  {
    if a != [] && b != [] {
      KnownTail(c, a);
      KnownTail(c, b);
      var ra, rb := c.Rank(a[0].v), c.Rank(b[0].v);
      if ra < rb {
        MergeKnown(c, a[1..], b);
        KnownCons(c, a[0], Merge(c, a[1..], b));
      } else if rb < ra {
        MergeKnown(c, a, b[1..]);
        KnownCons(c, b[0], Merge(c, a, b[1..]));
      } else {
        MergeKnown(c, a[1..], b[1..]);
        KnownCons(c, Power(a[0].v, a[0].e + b[0].e), Merge(c, a[1..], b[1..]));
      }
    }
  }

  lemma MergeWellFormed(c: Context, a: seq<Power>, b: seq<Power>)
    requires WellFormed(c, a) && WellFormed(c, b)
    ensures WellFormed(c, Merge(c, a, b))
  {
    MergeSorted(c, a, b);
    MergeKnown(c, a, b);
  }

  /** Multiplying by the empty product changes nothing. */
  lemma MergeEmpty(c: Context, a: seq<Power>)
    ensures Merge(c, a, []) == a && Merge(c, [], a) == a
  {
  }

  /**
   * The pairs of `ps` listed in the order of context `c` (libpoly's reordering
   * of a monomial under a new variable order).
   */
  function Canon(c: Context, ps: seq<Power>): seq<Power>
  {
    CanonFrom(c, ps, 0)
  }

  function CanonFrom(c: Context, ps: seq<Power>, i: nat): seq<Power>
    requires i <= |c.order|
    decreases |c.order| - i
  {
    if i == |c.order| then []
    else
      var v := c.order[i];
      var rest := CanonFrom(c, ps, i + 1);
      if ExpOf(ps, v) > 0 then [Power(v, ExpOf(ps, v))] + rest else rest
  }

  lemma {:induction false} CanonFromAbove(c: Context, ps: seq<Power>, i: nat)
    requires c.Valid() && i <= |c.order|
    ensures Above(c, CanonFrom(c, ps, i), i - 1)
    decreases |c.order| - i
  {
    if i < |c.order| {
      CanonFromAbove(c, ps, i + 1);
      RankOfPosition(c, i);
    }
  }

  lemma {:induction false} CanonFromSorted(c: Context, ps: seq<Power>, i: nat)
    requires c.Valid() && i <= |c.order|
    ensures Sorted(c, CanonFrom(c, ps, i))
    decreases |c.order| - i
  {
    if i < |c.order| {
      CanonFromSorted(c, ps, i + 1);
      CanonFromAbove(c, ps, i + 1);
      RankOfPosition(c, i);
      var v := c.order[i];
      if ExpOf(ps, v) > 0 {
        SortedCons(c, Power(v, ExpOf(ps, v)), CanonFrom(c, ps, i + 1));
      }
    }
  }

  /** Reordering lists each known variable of `ps` once, with its exponent in `ps`. */
  lemma {:induction false} CanonFromExp(c: Context, ps: seq<Power>, i: nat, v: VarId)
    requires c.Valid() && i <= |c.order|
    ensures ExpOf(CanonFrom(c, ps, i), v) == if c.Has(v) && c.Rank(v) >= i then ExpOf(ps, v) else 0
    decreases |c.order| - i
  {
    if i < |c.order| {
      CanonFromExp(c, ps, i + 1, v);
      RankOfPosition(c, i);
      var w := c.order[i];
      if ExpOf(ps, w) > 0 && w != v {
        assert ([Power(w, ExpOf(ps, w))] + CanonFrom(c, ps, i + 1))[1..] == CanonFrom(c, ps, i + 1);
      }
    }
  }

  lemma CanonWellFormed(c: Context, ps: seq<Power>)
    requires c.Valid()
    ensures WellFormed(c, Canon(c, ps))
  {
    CanonFromSorted(c, ps, 0);
    CanonFromKnown(c, ps, 0);
  }

  lemma {:induction false} CanonFromKnown(c: Context, ps: seq<Power>, i: nat)
    requires i <= |c.order|
    ensures Known(c, CanonFrom(c, ps, i))
    decreases |c.order| - i
  {
    if i < |c.order| {
      CanonFromKnown(c, ps, i + 1);
      var v := c.order[i];
      if ExpOf(ps, v) > 0 {
        KnownCons(c, Power(v, ExpOf(ps, v)), CanonFrom(c, ps, i + 1));
      }
    }
  }

  lemma CanonExp(c: Context, ps: seq<Power>, v: VarId)
    requires c.Valid()
    ensures ExpOf(Canon(c, ps), v) == if c.Has(v) then ExpOf(ps, v) else 0
  {
    CanonFromExp(c, ps, 0, v);
  }
  /** A positive exponent comes from a pair naming the variable. */
  lemma {:induction false} ExpOfWitness(ps: seq<Power>, v: VarId)
    requires ExpOf(ps, v) > 0
    ensures exists k :: 0 <= k < |ps| && ps[k] == Power(v, ExpOf(ps, v))
  {
    if ps[0].v != v {
      ExpOfWitness(ps[1..], v);
      var k :| 0 <= k < |ps[1..]| && ps[1..][k] == Power(v, ExpOf(ps[1..], v));
      assert ps[k + 1] == ps[1..][k];
    } else {
      assert ps[0] == Power(v, ExpOf(ps, v));
    }
  }

  /** In a sorted product every variable with a positive exponent ranks at or above the first one. */
  lemma HeadRankBound(c: Context, ps: seq<Power>, w: VarId)
    requires Sorted(c, ps) && ExpOf(ps, w) > 0
    ensures ps != [] && c.Rank(w) >= c.Rank(ps[0].v)
  {
    ExpOfWitness(ps, w);
    var k :| 0 <= k < |ps| && ps[k] == Power(w, ExpOf(ps, w));
  }

  /** The first variable of a sorted product does not occur again. */
  lemma TailLacksHead(c: Context, ps: seq<Power>)
    requires Sorted(c, ps) && ps != []
    ensures ExpOf(ps[1..], ps[0].v) == 0
  {
    SortedTail(c, ps);
    if ExpOf(ps[1..], ps[0].v) > 0 {
      HeadRankBound(c, ps[1..], ps[0].v);
    }
  }

  /** Merging multiplies power products: every variable's exponent in the merge is the sum of its exponents. */
  lemma {:induction false} MergeExp(c: Context, a: seq<Power>, b: seq<Power>, v: VarId)
    requires c.Valid() && WellFormed(c, a) && WellFormed(c, b)
    ensures ExpOf(Merge(c, a, b), v) == ExpOf(a, v) + ExpOf(b, v)
    decreases |a| + |b|
  {
    if a != [] && b != [] {
      SortedTail(c, a);
      SortedTail(c, b);
      KnownTail(c, a);
      KnownTail(c, b);
      var ra, rb := c.Rank(a[0].v), c.Rank(b[0].v);
      if ra < rb {
        MergeExp(c, a[1..], b, v);
        if ExpOf(b, a[0].v) > 0 {
          HeadRankBound(c, b, a[0].v);
        }
      } else if rb < ra {
        MergeExp(c, a, b[1..], v);
        if ExpOf(a, b[0].v) > 0 {
          HeadRankBound(c, a, b[0].v);
        }
      } else {
        MergeExp(c, a[1..], b[1..], v);
        RankInjective(c, a[0].v, b[0].v);
        TailLacksHead(c, a);
        TailLacksHead(c, b);
      }
    }
  }

  /**
   * Two well-formed power products that give every variable the same exponent
   * are the same list: the sorted representation is unique.
   */
  lemma {:induction false} PowersExtensional(c: Context, a: seq<Power>, b: seq<Power>)
    requires c.Valid() && WellFormed(c, a) && WellFormed(c, b)
    requires forall w :: ExpOf(a, w) == ExpOf(b, w)
    ensures a == b
    decreases |a| + |b|
  {
    assert a != [] ==> ExpOf(a, a[0].v) == a[0].e > 0;
    assert b != [] ==> ExpOf(b, b[0].v) == b[0].e > 0;
    if a != [] && b != [] {
      var x, y := a[0], b[0];
      HeadRankBound(c, b, x.v);
      HeadRankBound(c, a, y.v);
      RankInjective(c, x.v, y.v);
      assert x == y;
      TailLacksHead(c, a);
      TailLacksHead(c, b);
      SortedTail(c, a);
      SortedTail(c, b);
      KnownTail(c, a);
      KnownTail(c, b);
      forall w ensures ExpOf(a[1..], w) == ExpOf(b[1..], w) {
        assert ExpOf(a, w) == ExpOf(b, w);
      }
      PowersExtensional(c, a[1..], b[1..]);
      assert a == [x] + a[1..] && b == [y] + b[1..];
    }
  }
}
