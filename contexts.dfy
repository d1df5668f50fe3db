/**
 * Variable orderings (`LPContext`): a sequence of distinct variables, the
 * position of a variable being its rank in the order. A variable is known
 * to a context when it occurs in the sequence.
 */
module Contexts {
  import opened Wrappers

  /** carl variables and libpoly variables share one identifier space in this model. */
  type VarId = nat

  datatype Context = Context(order: seq<VarId>)
  {
    /** No variable occurs twice in the ordering. */
    predicate Valid()
    {
      forall i, j :: 0 <= i < j < |order| ==> order[i] != order[j]
    }

    predicate Has(v: VarId)
    {
      v in order
    }

    /** The position of `v` in the ordering, or `|order|` for a variable the context does not know. */
    function Rank(v: VarId): (r: nat)
      ensures r <= |order|
      ensures r < |order| <==> Has(v)
      ensures r < |order| ==> order[r] == v
      ensures forall i :: 0 <= i < r ==> order[i] != v
    {
      RankFrom(v, 0)
    }

    function RankFrom(v: VarId, i: nat): (r: nat)
      requires i <= |order|
      ensures i <= r <= |order|
      ensures r < |order| ==> order[r] == v
      ensures forall k :: i <= k < r ==> order[k] != v
      ensures r == |order| ==> forall k :: i <= k < |order| ==> order[k] != v
      decreases |order| - i
    {
      if i == |order| then i else if order[i] == v then i else RankFrom(v, i + 1)
    }

    /** `lp_variable_opt`: the position of a known variable, `None` for an unknown one. */
    function Lookup(v: VarId): (r: Option<nat>)
      ensures r.Some? <==> Has(v)
      ensures r.Some? ==> r.value < |order| && order[r.value] == v
    {
      if Has(v) then Some(Rank(v)) else None
    }

    /**
     * `is_extension_of`: every variable of `other` is known here, and any two
     * of them keep their relative order.
     */
    predicate IsExtensionOf(other: Context)
    {
      (forall i :: 0 <= i < |other.order| ==> Has(other.order[i])) &&
      (forall i, j :: 0 <= i < j < |other.order| ==> Rank(other.order[i]) < Rank(other.order[j]))
    }
  }

  /** In a valid context the rank of the variable at position i is i. */
  lemma RankOfPosition(c: Context, i: nat)
    requires c.Valid() && i < |c.order|
    ensures c.Rank(c.order[i]) == i
  {
    var r := c.Rank(c.order[i]);
    assert c.order[r] == c.order[i];
  }

  /** Distinct known variables of a valid context have distinct ranks. */
  lemma RankInjective(c: Context, v: VarId, w: VarId)
    requires c.Valid() && c.Has(v) && c.Has(w) && c.Rank(v) == c.Rank(w)
    ensures v == w
  {
  }

  /** Every context extends itself, and an extension of an extension is an extension. */
  lemma ExtensionReflexive(c: Context)
    requires c.Valid()
    ensures c.IsExtensionOf(c)
  {
    forall i, j | 0 <= i < j < |c.order|
      ensures c.Rank(c.order[i]) < c.Rank(c.order[j])
    {
      RankOfPosition(c, i);
      RankOfPosition(c, j);
    }
  }

  lemma ExtensionTransitive(a: Context, b: Context, c: Context)
    requires a.Valid() && b.Valid() && c.Valid()
    requires a.IsExtensionOf(b) && b.IsExtensionOf(c)
    ensures a.IsExtensionOf(c)
  {
    forall i | 0 <= i < |c.order|
      ensures a.Has(c.order[i])
    {
      assert b.order[b.Rank(c.order[i])] == c.order[i];
    }
    forall i, j | 0 <= i < j < |c.order|
      ensures a.Rank(c.order[i]) < a.Rank(c.order[j])
    {
      var bi, bj := b.Rank(c.order[i]), b.Rank(c.order[j]);
      assert b.order[bi] == c.order[i] && b.order[bj] == c.order[j];
    }
  }
}
