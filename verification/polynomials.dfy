/** Generic polynomials: a coefficient array over a base ring with an explicit
    length, kept in normalised form. elem_poly_init, elem_poly_fit_length,
    elem_poly_set_length and elem_poly_normalise are defined in files that
    are not part of this model; Poly gives them the contracts elem_poly_add
    relies on. */
module Polynomials {
  import opened Rings
  import opened Elements

  /** Normalised form: empty, or the top coefficient is not zero. */
  predicate IsNormalised<T>(kind: RingType, ops: ElemOps<T>, s: seq<Elem<T>>) {
    |s| == 0 || !ElemIsZero(kind, ops, s[|s| - 1])
  }

  /** The coefficients with their trailing zeros dropped: the longest prefix
      that is normalised, everything after it being zero. */
  function Normalised<T>(kind: RingType, ops: ElemOps<T>, s: seq<Elem<T>>): (r: seq<Elem<T>>)
    ensures |r| <= |s| && r == s[..|r|]
    ensures IsNormalised(kind, ops, r)
    ensures forall i :: |r| <= i < |s| ==> ElemIsZero(kind, ops, s[i])
    decreases |s|
  {
    if |s| > 0 && ElemIsZero(kind, ops, s[|s| - 1]) then Normalised(kind, ops, s[..|s| - 1]) else s
  }

  /** Normalising a normalised sequence changes nothing. */
  lemma NormalisedIdempotent<T>(kind: RingType, ops: ElemOps<T>, s: seq<Elem<T>>)
    requires IsNormalised(kind, ops, s)
    ensures Normalised(kind, ops, s) == s
  {
  }

  /** Trimming keeps every coefficient exactly when the sequence is already
      normalised: a zero top coefficient is always dropped. */
  lemma NormalisedKeepsAll<T>(kind: RingType, ops: ElemOps<T>, s: seq<Elem<T>>)
    ensures |Normalised(kind, ops, s)| == |s| <==> IsNormalised(kind, ops, s)
  {
    if IsNormalised(kind, ops, s) {
      NormalisedIdempotent(kind, ops, s);
    }
  }

  /** Normalised is the only way to trim: any prefix that is normalised and
      leaves only zeros behind is the normalised sequence. */
  lemma {:induction false} NormalisedUnique<T>(kind: RingType, ops: ElemOps<T>, s: seq<Elem<T>>, p: seq<Elem<T>>)
    requires |p| <= |s| && p == s[..|p|] && IsNormalised(kind, ops, p)
    requires forall i :: |p| <= i < |s| ==> ElemIsZero(kind, ops, s[i])
    ensures p == Normalised(kind, ops, s)
    decreases |s|
  {
    if |p| == |s| {
      assert p == s;
    } else {
      assert ElemIsZero(kind, ops, s[|s| - 1]);
      var t := s[..|s| - 1];
      assert p == t[..|p|];
      NormalisedUnique(kind, ops, t, p);
    }
  }

  /** A polynomial (elem_poly_struct): `coeffs` is the allocated storage, its
      Length the capacity, and the first `length` slots the coefficients. */
  class Poly<T> {
    var coeffs: array<Elem<T>>
    var length: nat

    ghost predicate Valid()
      reads this
    {
      length <= coeffs.Length
    }

    /** The coefficients, lowest degree first. */
    ghost function Contents(): seq<Elem<T>>
      reads this, coeffs
      requires Valid()
    {
      coeffs[..length]
    }

    /** elem_poly_init: the zero polynomial with no storage. */
    constructor Init()
      ensures Valid() && Contents() == [] && coeffs.Length == 0 && fresh(coeffs)
    {
      coeffs := new Elem<T>[0];
      length := 0;
    }

    /** elem_poly_fit_length: afterwards the capacity is at least n. When the
        storage grows, it moves to a fresh array that keeps every slot of the
        old one and fills the new slots with zeros of the coefficient ring. */
    method FitLength(n: nat, ring: Ring, ops: ElemOps<T>)
      requires Valid() && ring.parent != null
      modifies this
      ensures Valid() && length == old(length)
      ensures n <= coeffs.Length && old(coeffs.Length) <= coeffs.Length
      ensures coeffs[..old(coeffs.Length)] == old(coeffs[..])
      ensures forall i :: old(coeffs.Length) <= i < coeffs.Length ==> coeffs[i] == ElemZero(ring.parent.kind, ops)
      ensures coeffs == old(coeffs) || fresh(coeffs)
      ensures Contents() == old(Contents())
      ensures old(AllSlots(ring.parent.kind, coeffs)) ==> AllSlots(ring.parent.kind, coeffs)
    {
      if coeffs.Length < n {
        var zero := ElemZero(ring.parent.kind, ops);
        var grown := new Elem<T>[n](_ => zero);
        var i := 0;
        while i < coeffs.Length
          invariant coeffs == old(coeffs) && length == old(length) && coeffs.Length < n
          invariant 0 <= i <= coeffs.Length
          invariant forall k :: 0 <= k < i ==> grown[k] == coeffs[k]
          invariant forall k :: i <= k < n ==> grown[k] == zero
        {
          grown[i] := coeffs[i];
          i := i + 1;
        }
        coeffs := grown;
      }
    }

    /** elem_poly_set_length: the first n slots become the coefficients. */
    method SetLength(n: nat)
      requires Valid() && n <= coeffs.Length
      modifies this
      ensures Valid() && coeffs == old(coeffs) && length == n
      ensures Contents() == coeffs[..n]
    {
      length := n;
    }

    /** elem_poly_normalise: drop trailing zero coefficients. */
    method Normalise(ring: Ring, ops: ElemOps<T>)
      requires Valid() && ring.parent != null
      modifies this
      ensures Valid() && coeffs == old(coeffs)
      ensures Contents() == Normalised(ring.parent.kind, ops, old(Contents()))
      ensures old(AllSlots(ring.parent.kind, coeffs)) ==> AllSlots(ring.parent.kind, coeffs)
    {
      var kind := ring.parent.kind;
      while length > 0 && ElemIsZero(kind, ops, coeffs[length - 1])
        invariant Valid() && coeffs == old(coeffs)
        invariant Normalised(kind, ops, Contents()) == Normalised(kind, ops, old(Contents()))
        decreases length
      {
        assert Contents()[..length - 1] == coeffs[..length - 1];
        length := length - 1;
      }
    }
  }
}
