/**
 * `LPPolynomial::coeff(var, exp)`: the coefficient of `var^exp`, a polynomial
 * in the remaining variables. `CoeffVarExp` is the traversal as written (it
 * keeps the monomials carrying the pair `(var, exp)`); `CoefficientOf` is the
 * documented operation (it keeps the monomials whose exponent of `var` is
 * `exp`, which for `exp = 0` are those without `var`). The two agree for every
 * positive exponent and differ at exponent 0.
 */
module VarCoefficients {
  import opened Contexts
  import opened Monomials
  import opened Polynomials
  import opened Traversal

  /** `ps` without the pairs naming `v`. */
  function StripVar(ps: seq<Power>, v: VarId): seq<Power>
  {
    if ps == [] then []
    else if ps[0].v == v then StripVar(ps[1..], v)
    else [ps[0]] + StripVar(ps[1..], v)
  }

  /** `ps` without the pairs equal to `x`. */
  function StripPair(ps: seq<Power>, x: Power): seq<Power>
  {
    if ps == [] then []
    else if ps[0] == x then StripPair(ps[1..], x)
    else [ps[0]] + StripPair(ps[1..], x)
  }

  /** Removing `v` sets its exponent to 0 and keeps every other exponent. */
  lemma {:induction false} StripExp(ps: seq<Power>, v: VarId, w: VarId)
    ensures ExpOf(StripVar(ps, v), w) == if w == v then 0 else ExpOf(ps, w)
  {
    if ps != [] {
      StripExp(ps[1..], v, w);
      if ps[0].v != v {
        assert ([ps[0]] + StripVar(ps[1..], v))[1..] == StripVar(ps[1..], v);
      }
    }
  }

  lemma {:induction false} StripAbove(c: Context, ps: seq<Power>, v: VarId, r: int)
    requires Above(c, ps, r)
    ensures Above(c, StripVar(ps, v), r)
  {
    if ps != [] {
      StripAbove(c, ps[1..], v, r);
      var rest := StripVar(ps[1..], v);
      if ps[0].v != v {
        forall k | 0 <= k < |[ps[0]] + rest| ensures c.Rank(([ps[0]] + rest)[k].v) > r {
          if k > 0 {
            assert ([ps[0]] + rest)[k] == rest[k - 1];
          }
        }
      }
    }
  }

  /** Removing a variable keeps a power product well-formed. */
  lemma {:induction false} StripWellFormed(c: Context, ps: seq<Power>, v: VarId)
    requires WellFormed(c, ps)
    ensures WellFormed(c, StripVar(ps, v))
  {
    if ps != [] {
      SortedTail(c, ps);
      KnownTail(c, ps);
      StripWellFormed(c, ps[1..], v);
      if ps[0].v != v {
        StripAbove(c, ps[1..], v, c.Rank(ps[0].v));
        SortedCons(c, ps[0], StripVar(ps[1..], v));
        KnownCons(c, ps[0], StripVar(ps[1..], v));
      }
    }
  }

  /** Removing `v` from a well-formed product leaves exactly the other variables. */
  lemma StripVarsOf(c: Context, ps: seq<Power>, v: VarId)
    requires WellFormed(c, ps)
    ensures VarsOf(StripVar(ps, v)) == VarsOf(ps) - {v}
  {
    StripWellFormed(c, ps, v);
    var s := StripVar(ps, v);
    forall w ensures w in VarsOf(s) <==> w in VarsOf(ps) && w != v {
      StripExp(ps, v, w);
      ExpOfPresent(s, w);
      ExpOfPresent(ps, w);
    }
  }

  /** Two well-formed products with the same exponent of `v` and the same remainder are equal. */
  lemma StripInjective(c: Context, a: seq<Power>, b: seq<Power>, v: VarId)
    requires c.Valid() && WellFormed(c, a) && WellFormed(c, b)
    requires ExpOf(a, v) == ExpOf(b, v) && StripVar(a, v) == StripVar(b, v)
    ensures a == b
  {
    forall w ensures ExpOf(a, w) == ExpOf(b, w) {
      StripExp(a, v, w);
      StripExp(b, v, w);
    }
    PowersExtensional(c, a, b);
  }

  /** In a sorted product each pair gives its variable's exponent. */
  lemma {:induction false} ExpOfAt(c: Context, ps: seq<Power>, j: nat)
    requires Sorted(c, ps) && j < |ps|
    ensures ExpOf(ps, ps[j].v) == ps[j].e
  {
    if j > 0 {
      SortedTail(c, ps);
      assert ps[1..][j - 1] == ps[j];
      ExpOfAt(c, ps[1..], j - 1);
    }
  }

  /** In a sorted product the pair `(v, e)` occurs exactly when `v` occurs with exponent `e`. */
  lemma PairPresent(c: Context, ps: seq<Power>, v: VarId, e: nat)
    requires Sorted(c, ps) && e > 0
    ensures Power(v, e) in ps <==> ExpOf(ps, v) == e
  {
    if Power(v, e) in ps {
      var j :| 0 <= j < |ps| && ps[j] == Power(v, e);
      ExpOfAt(c, ps, j);
    }
    if ExpOf(ps, v) == e {
      ExpOfWitness(ps, v);
    }
  }

  lemma {:induction false} StripAbsent(ps: seq<Power>, v: VarId, e: nat)
    requires forall k :: 0 <= k < |ps| ==> ps[k].v != v
    ensures StripVar(ps, v) == ps && StripPair(ps, Power(v, e)) == ps
  {
    if ps != [] {
      StripAbsent(ps[1..], v, e);
      assert ps == [ps[0]] + ps[1..];
    }
  }

  /** In a sorted product, removing the pair `(v, e)` where `e` is the exponent of `v` removes `v`. */
  lemma {:induction false} StripPairIsStripVar(c: Context, ps: seq<Power>, v: VarId)
    requires Sorted(c, ps)
    ensures StripPair(ps, Power(v, ExpOf(ps, v))) == StripVar(ps, v)
  {
    if ps != [] {
      SortedTail(c, ps);
      if ps[0].v == v {
        StripAbsent(ps[1..], v, ExpOf(ps, v));
      } else {
        StripPairIsStripVar(c, ps[1..], v);
      }
    }
  }

  /** The monomials whose exponent of `v` is `k`, with `v` removed, in list order. */
  function Collected(ts: seq<Monomial>, v: VarId, k: nat): seq<Monomial>
  {
    if ts == [] then []
    else
      var m := ts[|ts| - 1];
      Collected(ts[..|ts| - 1], v, k) + (if ExpOf(m.powers, v) == k then [Monomial(m.coeff, StripVar(m.powers, v))] else [])
  }

  /** The coefficient of `v^k`: the collected monomials added into the zero polynomial. */
  function CoefficientOf(ts: seq<Monomial>, v: VarId, k: nat): (r: seq<Monomial>)
    ensures DistinctPowers(r) && NonZero(r)
  {
    AddAll([], Collected(ts, v, k))
  }

  /** No monomial has exponent `k` in `v`: nothing is collected. */
  lemma {:induction false} CollectedEmpty(ts: seq<Monomial>, v: VarId, k: nat)
    requires forall j :: 0 <= j < |ts| ==> ExpOf(ts[j].powers, v) != k
    ensures Collected(ts, v, k) == []
  {
    if ts != [] {
      CollectedEmpty(ts[..|ts| - 1], v, k);
    }
  }

  /** As written: the monomials carrying the pair `(v, e)`, with that pair removed. */
  function CollectedPair(ts: seq<Monomial>, x: Power): seq<Monomial>
  {
    if ts == [] then []
    else
      var m := ts[|ts| - 1];
      CollectedPair(ts[..|ts| - 1], x) + (if x in m.powers then [Monomial(m.coeff, StripPair(m.powers, x))] else [])
  }

  /** `coeff(var, exp)` as written: the monomials carrying `(var, exp)` added into the zero polynomial. */
  function CoeffVarExp(ts: seq<Monomial>, v: VarId, e: nat): (r: seq<Monomial>)
    ensures DistinctPowers(r) && NonZero(r)
  {
    AddAll([], CollectedPair(ts, Power(v, e)))
  }

  /**
   * Meaning of the coefficient: for every well-formed power product `qq` in
   * which `v` has exponent `k`, the coefficient of `qq` without `v` in the
   * result is the coefficient of `qq` in the polynomial.
   */
  lemma {:induction false} CollectedMeaning(c: Context, ts: seq<Monomial>, v: VarId, k: nat, qq: seq<Power>)
    requires c.Valid() && TermsWellFormed(c, ts) && WellFormed(c, qq) && ExpOf(qq, v) == k
    ensures CoeffAt(Collected(ts, v, k), StripVar(qq, v)) == CoeffAt(ts, qq)
  {
    if ts != [] {
      var front, m := ts[..|ts| - 1], ts[|ts| - 1];
      assert TermsWellFormed(c, front) by {
        forall j | 0 <= j < |front| ensures WellFormed(c, front[j].powers) {
          assert front[j] == ts[j];
        }
      }
      CollectedMeaning(c, front, v, k, qq);
      var extra := if ExpOf(m.powers, v) == k then [Monomial(m.coeff, StripVar(m.powers, v))] else [];
      CoeffAtAppend(Collected(front, v, k), extra, StripVar(qq, v));
      if ExpOf(m.powers, v) == k {
        CoeffAtSingle(Monomial(m.coeff, StripVar(m.powers, v)), StripVar(qq, v));
        if StripVar(m.powers, v) == StripVar(qq, v) {
          StripInjective(c, m.powers, qq, v);
        }
      }
    }
  }

  lemma CoefficientOfMeaning(c: Context, ts: seq<Monomial>, v: VarId, k: nat, qq: seq<Power>)
    requires c.Valid() && TermsWellFormed(c, ts) && WellFormed(c, qq) && ExpOf(qq, v) == k
    ensures CoeffAt(CoefficientOf(ts, v, k), StripVar(qq, v)) == CoeffAt(ts, qq)
  {
    AddAllMeaning([], Collected(ts, v, k), StripVar(qq, v));
    CollectedMeaning(c, ts, v, k, qq);
  }

  lemma {:induction false} CollectedWellFormed(c: Context, ts: seq<Monomial>, v: VarId, k: nat)
    requires TermsWellFormed(c, ts)
    ensures TermsWellFormed(c, Collected(ts, v, k))
  {
    if ts != [] {
      var front, m := ts[..|ts| - 1], ts[|ts| - 1];
      assert TermsWellFormed(c, front) by {
        forall j | 0 <= j < |front| ensures WellFormed(c, front[j].powers) {
          assert front[j] == ts[j];
        }
      }
      CollectedWellFormed(c, front, v, k);
      StripWellFormed(c, m.powers, v);
    }
  }

  lemma {:induction false} StripElements(ps: seq<Power>, v: VarId)
    ensures forall k :: 0 <= k < |StripVar(ps, v)| ==> StripVar(ps, v)[k] in ps && StripVar(ps, v)[k].v != v
  {
    if ps != [] {
      StripElements(ps[1..], v);
      var rest := StripVar(ps[1..], v);
      if ps[0].v != v {
        var s := [ps[0]] + rest;
        forall k | 0 <= k < |s| ensures s[k] in ps && s[k].v != v {
          if k > 0 {
            assert s[k] == rest[k - 1];
            assert rest[k - 1] in ps[1..];
          }
        }
      }
    }
  }

  /** Removing `v` leaves only variables of `ps` other than `v`. */
  lemma StripVarsSubset(ps: seq<Power>, v: VarId)
    ensures VarsOf(StripVar(ps, v)) <= VarsOf(ps) - {v}
  {
    StripElements(ps, v);
    var s := StripVar(ps, v);
    forall w | w in VarsOf(s) ensures w in VarsOf(ps) && w != v {
      var k :| 0 <= k < |s| && s[k].v == w;
      var j :| 0 <= j < |ps| && ps[j] == s[k];
    }
  }

  lemma {:induction false} CollectedVars(ts: seq<Monomial>, v: VarId, k: nat)
    ensures Vars(Collected(ts, v, k)) <= Vars(ts) - {v}
  {
    if ts != [] {
      var front, m := ts[..|ts| - 1], ts[|ts| - 1];
      CollectedVars(front, v, k);
      StripVarsSubset(m.powers, v);
      var extra := if ExpOf(m.powers, v) == k then [Monomial(m.coeff, StripVar(m.powers, v))] else [];
      VarsAppend(Collected(front, v, k), extra);
      if extra != [] {
        assert extra[..0] == [];
      }
    }
  }

  /** The coefficient of `v^k` mentions only variables of the polynomial other than `v`. */
  lemma CoefficientOfVars(ts: seq<Monomial>, v: VarId, k: nat)
    ensures Vars(CoefficientOf(ts, v, k)) <= Vars(ts) - {v}
  {
    CollectedVars(ts, v, k);
    AddAllVars([], Collected(ts, v, k));
  }

  lemma {:induction false} VarsAppend(a: seq<Monomial>, b: seq<Monomial>)
    ensures Vars(a + b) == Vars(a) + Vars(b)
  {
    if b == [] {
      assert a + b == a;
    } else {
      assert (a + b)[..|a + b| - 1] == a + b[..|b| - 1];
      VarsAppend(a, b[..|b| - 1]);
    }
  }

  /** Adding monomials introduces no variable that none of them carries. */
  lemma {:induction false} AddAllVars(ts: seq<Monomial>, ms: seq<Monomial>)
    ensures Vars(AddAll(ts, ms)) <= Vars(ts) + Vars(ms)
  {
    if ms != [] {
      var front, m := ms[..|ms| - 1], ms[|ms| - 1];
      AddAllVars(ts, front);
      var acc := AddAll(ts, front);
      var r := AddMonomial(acc, m);
      forall w | w in Vars(r) ensures w in Vars(acc) + VarsOf(m.powers) {
        VarsMember(r, w);
        var j :| 0 <= j < |r| && w in VarsOf(r[j].powers);
        if r[j] in acc {
          var i :| 0 <= i < |acc| && acc[i] == r[j];
          VarsMember(acc, w);
        }
      }
    }
  }

  /** The coefficient of `v^k` of a valid polynomial is a valid polynomial. */
  lemma CoefficientOfValid(p: Polynomial, v: VarId, k: nat)
    requires Valid(p)
    ensures Valid(Polynomial(p.context, CoefficientOf(p.terms, v, k)))
  {
    CollectedWellFormed(p.context, p.terms, v, k);
    AddAllWellFormed(p.context, [], Collected(p.terms, v, k));
  }

  /** When some monomial has exponent `k` in `v`, the coefficient of `v^k` is not zero. */
  lemma CoefficientOfNonZero(p: Polynomial, v: VarId, k: nat, i: nat)
    requires Valid(p) && i < |p.terms| && ExpOf(p.terms[i].powers, v) == k
    ensures CoefficientOf(p.terms, v, k) != []
  {
    var qq := p.terms[i].powers;
    CoefficientOfMeaning(p.context, p.terms, v, k, qq);
    CoeffAtPresent(p.terms, i, qq);
  }

  lemma {:induction false} CollectedScale(ts: seq<Monomial>, v: VarId, k: nat, n: int)
    ensures Collected(Scale(ts, n), v, k) == Scale(Collected(ts, v, k), n)
  {
    if ts != [] {
      assert Scale(ts, n)[..|ts| - 1] == Scale(ts[..|ts| - 1], n);
      CollectedScale(ts[..|ts| - 1], v, k, n);
    }
  }

  /** Scaling a polynomial by a nonzero constant scales each of its coefficients. */
  lemma CoefficientOfScale(ts: seq<Monomial>, v: VarId, k: nat, n: int)
    requires n != 0
    ensures CoefficientOf(Scale(ts, n), v, k) == Scale(CoefficientOf(ts, v, k), n)
  {
    CollectedScale(ts, v, k, n);
    ScaleAddAll([], Collected(ts, v, k), n);
  }

  lemma {:induction false} CollectedPairAgrees(c: Context, ts: seq<Monomial>, v: VarId, e: nat)
    requires TermsWellFormed(c, ts) && e > 0
    ensures CollectedPair(ts, Power(v, e)) == Collected(ts, v, e)
  {
    if ts != [] {
      var front, m := ts[..|ts| - 1], ts[|ts| - 1];
      assert TermsWellFormed(c, front) by {
        forall j | 0 <= j < |front| ensures WellFormed(c, front[j].powers) {
          assert front[j] == ts[j];
        }
      }
      CollectedPairAgrees(c, front, v, e);
      PairPresent(c, m.powers, v, e);
      StripPairIsStripVar(c, m.powers, v);
    }
  }

  /** For every positive exponent the traversal as written computes the coefficient of `v^e`. */
  lemma AsWrittenAgrees(c: Context, ts: seq<Monomial>, v: VarId, e: nat)
    requires TermsWellFormed(c, ts) && e > 0
    ensures CoeffVarExp(ts, v, e) == CoefficientOf(ts, v, e)
  {
    CollectedPairAgrees(c, ts, v, e);
  }

  lemma {:induction false} CollectedPairZero(c: Context, ts: seq<Monomial>, v: VarId)
    requires TermsWellFormed(c, ts)
    ensures CollectedPair(ts, Power(v, 0)) == []
  {
    if ts != [] {
      var front, m := ts[..|ts| - 1], ts[|ts| - 1];
      assert TermsWellFormed(c, front) by {
        forall j | 0 <= j < |front| ensures WellFormed(c, front[j].powers) {
          assert front[j] == ts[j];
        }
      }
      CollectedPairZero(c, front, v);
      assert Power(v, 0) !in m.powers by {
        assert Known(c, m.powers);
      }
    }
  }

  /** As written, the coefficient of `v^0` of every well-formed polynomial is zero: no pair has exponent 0. */
  lemma AsWrittenZeroExponent(c: Context, ts: seq<Monomial>, v: VarId)
    requires TermsWellFormed(c, ts)
    ensures CoeffVarExp(ts, v, 0) == []
  {
    CollectedPairZero(c, ts, v);
  }

  /** `x^3 - x + 5` over the order `[x]`, with `x` the variable 0. */
  function CubicExample(): Polynomial
  {
    Polynomial(Context([0]), [Monomial(1, [Power(0, 3)]), Monomial(-1, [Power(0, 1)]), Monomial(5, [])])
  }

  /**
   * The coefficient of `x^0` in `x^3 - x + 5` is `5`; the traversal as written
   * returns the zero polynomial.
   */
  lemma CoeffZeroExponentExample()
    ensures Valid(CubicExample())
    ensures CoeffVarExp(CubicExample().terms, 0, 0) == []
    ensures CoefficientOf(CubicExample().terms, 0, 0) == [Monomial(5, [])]
  {
    var p := CubicExample();
    CubicValid();
    AsWrittenZeroExponent(p.context, p.terms, 0);
    CubicCollected();
    assert [Monomial(5, [])][..0] == [];
    assert AddAll([], [Monomial(5, [])]) == AddMonomial([], Monomial(5, []));
  }

  lemma CubicValid()
    ensures Valid(CubicExample())
  {
    assert CubicExample().context.Rank(0) == 0;
  }

  /** Only the constant monomial of `x^3 - x + 5` has exponent 0 in `x`. */
  lemma CubicCollected()
    ensures Collected(CubicExample().terms, 0, 0) == [Monomial(5, [])]
  {
    var ts := CubicExample().terms;
    assert ts[..2][..1][..0] == [];
    assert ts[..2] == [Monomial(1, [Power(0, 3)]), Monomial(-1, [Power(0, 1)])];
    assert ts[..2][..1] == [Monomial(1, [Power(0, 3)])];
    assert ExpOf([Power(0, 3)], 0) == 3 && ExpOf([Power(0, 1)], 0) == 1;
    assert Collected(ts[..2][..1], 0, 0) == [];
    assert Collected(ts[..2], 0, 0) == [];
    assert StripVar([], 0) == [];
  }
}
