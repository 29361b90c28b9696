/** Generic polynomial addition, with its fast path for integer coefficients.
    Coefficient storage is an array of element slots; a pointer to a
    coefficient is an (array, index) pair, and two pointers are equal when
    both parts are. Two coefficient arrays either are the same array or do
    not overlap at all. */
module PolyAdd {
  import opened Integer
  import opened Rings
  import opened Elements
  import opened Polynomials

  /** The coefficientwise sum of two coefficient sequences of possibly
      different lengths: the sum where both have a coefficient, the longer
      one's coefficient where only it has one. Defined from the front. */
  function CoeffwiseSum<T>(kind: RingType, ops: ElemOps<T>, a: seq<Elem<T>>, b: seq<Elem<T>>): (r: seq<Elem<T>>)
    ensures |r| == Max(|a|, |b|)
    ensures forall i :: 0 <= i < Min(|a|, |b|) ==> r[i] == ElemAdd(kind, ops, a[i], b[i])
    ensures forall i :: |b| <= i < |a| ==> r[i] == a[i]
    ensures forall i :: |a| <= i < |b| ==> r[i] == b[i]
  {
    if |a| == 0 then b
    else if |b| == 0 then a
    else [ElemAdd(kind, ops, a[0], b[0])] + CoeffwiseSum(kind, ops, a[1..], b[1..])
  }

  /** fmpz_set_inline: slot f[fi] takes the value of slot g[gi]. When the two
      are the same slot nothing happens. An inline source is copied into an
      inline destination (a heap-backed destination is demoted first); a
      heap-backed source is copied into a heap-backed destination (an inline
      destination is promoted first). The copy is therefore in the same
      representation as the source, and canonical when the source is. */
  method SetInline<T>(f: array<Elem<T>>, fi: nat, g: array<Elem<T>>, gi: nat)
    requires fi < f.Length && gi < g.Length
    requires f[fi].Int? && g[gi].Int?
    modifies f
    ensures f[fi] == old(g[gi])
    ensures forall k :: 0 <= k < f.Length && k != fi ==> f[k] == old(f[k])
  {
    if f == g && fi == gi {
      return;
    }
    if g[gi].z.Small? {
      f[fi] := Int(Demote(f[fi].z));
      f[fi] := g[gi];
    } else {
      f[fi] := Int(Promote(f[fi].z));
      f[fi] := Int(Large(g[gi].z.v));
    }
  }

  /** fmpz_add_inline: slot z[zi] takes the sum of slots x[xi] and y[yi].
      When both operands are inline their native word sum is exact (see
      InlineSum) and fmpz_set_si stores it canonically; otherwise the
      big-integer backend adds. Both paths store the canonical fmpz of the
      mathematical sum. The destination may be either operand. */
  method AddInline<T>(z: array<Elem<T>>, zi: nat, x: array<Elem<T>>, xi: nat, y: array<Elem<T>>, yi: nat)
    requires zi < z.Length && xi < x.Length && yi < y.Length
    requires IsElem(TypeFmpz, x[xi]) && IsElem(TypeFmpz, y[yi])
    modifies z
    ensures z[zi] == Int(FmpzAdd(old(x[xi]).z, old(y[yi]).z))
    ensures z[zi].z.v == old(x[xi]).z.v + old(y[yi]).z.v && Canonical(z[zi].z)
    ensures forall k :: 0 <= k < z.Length && k != zi ==> z[k] == old(z[k])
  {
    var f := x[xi].z;
    var g := y[yi].z;
    if f.Small? && g.Small? {
      z[zi] := Int(Canon(InlineSum(f, g) as int));
    } else {
      z[zi] := Int(FmpzAdd(f, g));
    }
  }

  /** _fmpz_poly_add2: the integer fast path of _elem_poly_add. Below the
      shorter length the coefficients are added; above it the longer input's
      coefficients are copied, except when `res` is that input, whose
      coefficients are then already in place. Nothing at or above the longer
      length is written. */
  method FmpzPolyAdd2<T>(res: array<Elem<T>>, poly1: array<Elem<T>>, len1: nat, poly2: array<Elem<T>>, len2: nat)
    requires len1 <= poly1.Length && len2 <= poly2.Length && Max(len1, len2) <= res.Length
    requires AllElems(TypeFmpz, poly1[..len1]) && AllElems(TypeFmpz, poly2[..len2])
    requires AllElems(TypeFmpz, res[..Max(len1, len2)])
    modifies res
    ensures forall i :: 0 <= i < Min(len1, len2) ==> res[i] == Int(FmpzAdd(old(poly1[i]).z, old(poly2[i]).z))
    ensures forall i :: Min(len1, len2) <= i < len1 ==> res[i] == old(poly1[i])
    ensures forall i :: Min(len1, len2) <= i < len2 ==> res[i] == old(poly2[i])
    ensures forall i :: Max(len1, len2) <= i < res.Length ==> res[i] == old(res[i])
  {
    var min := Min(len1, len2);
    FmpzAddPrefix(res, poly1, poly2, min);
    if poly1 != res {
      FmpzCopyRange(res, poly1, min, len1);
    }
    if poly2 != res {
      FmpzCopyRange(res, poly2, min, len2);
    }
  }

  /** The first loop of _fmpz_poly_add2: res[i] := poly1[i] + poly2[i] for
      i < n, through fmpz_add_inline. */
  method FmpzAddPrefix<T>(res: array<Elem<T>>, poly1: array<Elem<T>>, poly2: array<Elem<T>>, n: nat)
    requires n <= res.Length && n <= poly1.Length && n <= poly2.Length
    requires forall k :: 0 <= k < n ==> poly1[k].Int? && Canonical(poly1[k].z)
    requires forall k :: 0 <= k < n ==> poly2[k].Int? && Canonical(poly2[k].z)
    modifies res
    ensures forall k :: 0 <= k < n ==> res[k] == Int(FmpzAdd(old(poly1[k]).z, old(poly2[k]).z))
    ensures forall k :: n <= k < res.Length ==> res[k] == old(res[k])
  {
    var i := 0;
    while i < n
      invariant 0 <= i <= n
      invariant forall k :: 0 <= k < i ==> res[k] == Int(FmpzAdd(old(poly1[k]).z, old(poly2[k]).z))
      invariant forall k :: i <= k < res.Length ==> res[k] == old(res[k])
      invariant forall k :: i <= k < n ==> poly1[k] == old(poly1[k]) && poly2[k] == old(poly2[k])
    {
      AddInline(res, i, poly1, i, poly2, i);
      i := i + 1;
    }
  }

  /** A tail loop of _fmpz_poly_add2: res[i] := src[i] for lo <= i < hi,
      through fmpz_set_inline; `src` is not `res`. */
  method FmpzCopyRange<T>(res: array<Elem<T>>, src: array<Elem<T>>, lo: nat, hi: nat)
    requires res != src && lo <= hi <= res.Length && hi <= src.Length
    requires forall k :: lo <= k < hi ==> res[k].Int? && src[k].Int?
    modifies res
    ensures forall k :: lo <= k < hi ==> res[k] == src[k]
    ensures forall k :: 0 <= k < res.Length && !(lo <= k < hi) ==> res[k] == old(res[k])
  {
    var i := lo;
    while i < hi
      invariant lo <= i <= hi
      invariant forall k :: lo <= k < i ==> res[k] == src[k]
      invariant forall k :: 0 <= k < res.Length && !(lo <= k < i) ==> res[k] == old(res[k])
    {
      SetInline(res, i, src, i);
      i := i + 1;
    }
  }

  /** _elem_poly_add: writes the coefficientwise sum of poly1[..len1] and
      poly2[..len2] into res[..max(len1, len2)] and nothing above. The
      integer ring takes the fast path, every other ring the generic path
      through elem_add and elem_set; both produce the same coefficients,
      CoeffwiseSum. `res` may be poly1 and/or poly2. */
  method ElemPolyAddCoeffs<T>(res: array<Elem<T>>, poly1: array<Elem<T>>, len1: nat, poly2: array<Elem<T>>, len2: nat,
                              ring: Ring, ops: ElemOps<T>)
    requires len1 <= poly1.Length && len2 <= poly2.Length && Max(len1, len2) <= res.Length
    requires ring.kind == TypeFmpz ==>
               AllElems(TypeFmpz, poly1[..len1]) && AllElems(TypeFmpz, poly2[..len2])
               && AllElems(TypeFmpz, res[..Max(len1, len2)])
    modifies res
    ensures res[..Max(len1, len2)] == CoeffwiseSum(ring.kind, ops, old(poly1[..len1]), old(poly2[..len2]))
    ensures res[Max(len1, len2)..] == old(res[Max(len1, len2)..])
    ensures (AllElems(ring.kind, old(poly1[..len1])) && AllElems(ring.kind, old(poly2[..len2]))
             && old(AllSlots(ring.kind, res))) ==> AllSlots(ring.kind, res)
  {
    var max := Max(len1, len2);
    if ring.kind == TypeFmpz {
      FmpzPolyAdd2(res, poly1, len1, poly2, len2);
      FmpzPathIsCoeffwiseSum(ops, old(poly1[..len1]), old(poly2[..len2]), res[..max]);
    } else {
      ElemPolyAddGeneric(res, poly1, len1, poly2, len2, ring, ops);
      CoeffwiseSumFromPointwise(ring.kind, ops, old(poly1[..len1]), old(poly2[..len2]), res[..max]);
    }
    assert res[max..] == old(res[max..]);
    if AllElems(ring.kind, old(poly1[..len1])) && AllElems(ring.kind, old(poly2[..len2])) && old(AllSlots(ring.kind, res)) {
      forall k | 0 <= k < res.Length
        ensures IsElem(ring.kind, res[k])
      {
        if k < max {
          CoeffwiseSumElems(ring.kind, ops, old(poly1[..len1]), old(poly2[..len2]), k);
          assert res[k] == res[..max][k];
        } else {
          assert res[k] == res[max..][k - max] == old(res[k]);
        }
      }
    }
  }

  /** The generic path of _elem_poly_add: elem_add below the shorter length,
      elem_set from the longer input above it unless `res` is that input. */
  method ElemPolyAddGeneric<T>(res: array<Elem<T>>, poly1: array<Elem<T>>, len1: nat, poly2: array<Elem<T>>, len2: nat,
                               ring: Ring, ops: ElemOps<T>)
    requires len1 <= poly1.Length && len2 <= poly2.Length && Max(len1, len2) <= res.Length
    modifies res
    ensures forall i :: 0 <= i < Min(len1, len2) ==> res[i] == ElemAdd(ring.kind, ops, old(poly1[i]), old(poly2[i]))
    ensures forall i :: Min(len1, len2) <= i < len1 ==> res[i] == old(poly1[i])
    ensures forall i :: Min(len1, len2) <= i < len2 ==> res[i] == old(poly2[i])
    ensures forall i :: Max(len1, len2) <= i < res.Length ==> res[i] == old(res[i])
  {
    var min := Min(len1, len2);
    ElemAddPrefix(res, poly1, poly2, min, ring, ops);
    if poly1 != res {
      ElemCopyRange(res, poly1, min, len1);
    }
    if poly2 != res {
      ElemCopyRange(res, poly2, min, len2);
    }
  }

  /** The first loop of the generic path: res[i] := poly1[i] + poly2[i] for
      i < n, through elem_add. */
  method ElemAddPrefix<T>(res: array<Elem<T>>, poly1: array<Elem<T>>, poly2: array<Elem<T>>, n: nat,
                          ring: Ring, ops: ElemOps<T>)
    requires n <= res.Length && n <= poly1.Length && n <= poly2.Length
    modifies res
    ensures forall k :: 0 <= k < n ==> res[k] == ElemAdd(ring.kind, ops, old(poly1[k]), old(poly2[k]))
    ensures forall k :: n <= k < res.Length ==> res[k] == old(res[k])
  {
    var i := 0;
    while i < n
      invariant 0 <= i <= n
      invariant forall k :: 0 <= k < i ==> res[k] == ElemAdd(ring.kind, ops, old(poly1[k]), old(poly2[k]))
      invariant forall k :: i <= k < res.Length ==> res[k] == old(res[k])
      invariant forall k :: i <= k < n ==> poly1[k] == old(poly1[k]) && poly2[k] == old(poly2[k])
    {
      res[i] := ElemAdd(ring.kind, ops, poly1[i], poly2[i]);
      i := i + 1;
    }
  }

  /** A tail loop of the generic path: res[i] := src[i] for lo <= i < hi,
      through elem_set; `src` is not `res`. */
  method ElemCopyRange<T>(res: array<Elem<T>>, src: array<Elem<T>>, lo: nat, hi: nat)
    requires res != src && lo <= hi <= res.Length && hi <= src.Length
    modifies res
    ensures forall k :: lo <= k < hi ==> res[k] == src[k]
    ensures forall k :: 0 <= k < res.Length && !(lo <= k < hi) ==> res[k] == old(res[k])
  {
    var i := lo;
    while i < hi
      invariant lo <= i <= hi
      invariant forall k :: lo <= k < i ==> res[k] == src[k]
      invariant forall k :: 0 <= k < res.Length && !(lo <= k < i) ==> res[k] == old(res[k])
    {
      res[i] := src[i];
      i := i + 1;
    }
  }

  /** Three pointwise facts determine the coefficientwise sum. */
  lemma CoeffwiseSumFromPointwise<T>(kind: RingType, ops: ElemOps<T>, a: seq<Elem<T>>, b: seq<Elem<T>>, r: seq<Elem<T>>)
    requires |r| == Max(|a|, |b|)
    requires forall i :: 0 <= i < Min(|a|, |b|) ==> r[i] == ElemAdd(kind, ops, a[i], b[i])
    requires forall i :: Min(|a|, |b|) <= i < |a| ==> r[i] == a[i]
    requires forall i :: Min(|a|, |b|) <= i < |b| ==> r[i] == b[i]
    ensures r == CoeffwiseSum(kind, ops, a, b)
  {
  }

  /** The integer fast path computes what the generic path computes on the
      integer ring: coefficients that satisfy the pointwise description of
      _fmpz_poly_add2 (fmpz_add_inline below the shorter length, copies above
      it) are exactly the coefficientwise sum under elem_add. */
  lemma FmpzPathIsCoeffwiseSum<T>(ops: ElemOps<T>, a: seq<Elem<T>>, b: seq<Elem<T>>, r: seq<Elem<T>>)
    requires AllElems(TypeFmpz, a) && AllElems(TypeFmpz, b)
    requires |r| == Max(|a|, |b|)
    requires forall i :: 0 <= i < Min(|a|, |b|) ==> r[i] == Int(FmpzAdd(a[i].z, b[i].z))
    requires forall i :: Min(|a|, |b|) <= i < |a| ==> r[i] == a[i]
    requires forall i :: Min(|a|, |b|) <= i < |b| ==> r[i] == b[i]
    ensures r == CoeffwiseSum(TypeFmpz, ops, a, b)
  {
    forall i | 0 <= i < Min(|a|, |b|)
      ensures r[i] == ElemAdd(TypeFmpz, ops, a[i], b[i])
    {
      assert IsElem(TypeFmpz, a[i]) && IsElem(TypeFmpz, b[i]);
    }
    CoeffwiseSumFromPointwise(TypeFmpz, ops, a, b, r);
  }

  /** elem_poly_add: res := op1 + op2 over the polynomial ring `ring`, whose
      coefficient ring is ring.parent. `res` may be op1 and/or op2. The result
      is the coefficientwise sum with its trailing zeros dropped, so it is
      normalised and no longer than the longer operand. Only `res` and its
      storage are written (the modifies clause), and an operand that is not
      `res` has storage apart from that of `res`, so such an operand is left
      as it was. */
  method ElemPolyAdd<T>(res: Poly<T>, op1: Poly<T>, op2: Poly<T>, ring: Ring, ops: ElemOps<T>)
    requires res.Valid() && op1.Valid() && op2.Valid() && ring.parent != null
    requires op1 != res ==> op1.coeffs != res.coeffs
    requires op2 != res ==> op2.coeffs != res.coeffs
    requires AllElems(ring.parent.kind, op1.Contents()) && AllElems(ring.parent.kind, op2.Contents())
    requires AllSlots(ring.parent.kind, res.coeffs)
    modifies res, res.coeffs
    ensures res.Valid()
    ensures res.Contents()
         == Normalised(ring.parent.kind, ops, CoeffwiseSum(ring.parent.kind, ops, old(op1.Contents()), old(op2.Contents())))
    ensures IsNormalised(ring.parent.kind, ops, res.Contents())
    ensures res.length <= Max(old(op1.length), old(op2.length))
    ensures Max(old(op1.length), old(op2.length)) <= res.coeffs.Length && old(res.coeffs.Length) <= res.coeffs.Length
    ensures AllSlots(ring.parent.kind, res.coeffs)
  {
    ghost var c1, c2 := op1.coeffs, op2.coeffs;
    ghost var a, b := op1.Contents(), op2.Contents();
    ghost var kind := ring.parent.kind;
    var max := Max(op1.length, op2.length);
    assert max == Max(|a|, |b|);
    res.FitLength(max, ring, ops);
    assert op1 != res ==> op1.coeffs == c1 && c1 != res.coeffs && op1.Contents() == a;
    assert op2 != res ==> op2.coeffs == c2 && c2 != res.coeffs && op2.Contents() == b;
    assert op1.Contents() == a && op2.Contents() == b;
    StoreSum(res, op1, op2, ring, ops);
    ghost var sum := res.Contents();
    assert sum == CoeffwiseSum(kind, ops, a, b) && |sum| == max;
    res.Normalise(ring, ops);
    assert res.length == |res.Contents()| <= |sum|;
  }

  /** The part of elem_poly_add between fitting and normalising: the
      coefficientwise sum goes into the storage of `res`, which is long
      enough, and becomes its coefficients. */
  method StoreSum<T>(res: Poly<T>, op1: Poly<T>, op2: Poly<T>, ring: Ring, ops: ElemOps<T>)
    requires res.Valid() && op1.Valid() && op2.Valid() && ring.parent != null
    requires Max(op1.length, op2.length) <= res.coeffs.Length
    requires op1 != res ==> op1.coeffs != res.coeffs
    requires op2 != res ==> op2.coeffs != res.coeffs
    requires AllElems(ring.parent.kind, op1.Contents()) && AllElems(ring.parent.kind, op2.Contents())
    requires AllSlots(ring.parent.kind, res.coeffs)
    modifies res, res.coeffs
    ensures res.Valid() && res.coeffs == old(res.coeffs)
    ensures res.Contents() == CoeffwiseSum(ring.parent.kind, ops, old(op1.Contents()), old(op2.Contents()))
    ensures AllSlots(ring.parent.kind, res.coeffs)
    ensures op1 != res ==> op1.Valid() && op1.Contents() == old(op1.Contents())
    ensures op2 != res ==> op2.Valid() && op2.Contents() == old(op2.Contents())
  {
    var max := Max(op1.length, op2.length);
    ElemPolyAddCoeffs(res.coeffs, op1.coeffs, op1.length, op2.coeffs, op2.length, ring.parent, ops);
    res.SetLength(max);
  }

  /** The coefficientwise sum of two sequences of ring elements holds ring
      elements. */
  lemma CoeffwiseSumElems<T>(kind: RingType, ops: ElemOps<T>, a: seq<Elem<T>>, b: seq<Elem<T>>, k: nat)
    requires AllElems(kind, a) && AllElems(kind, b) && k < Max(|a|, |b|)
    ensures IsElem(kind, CoeffwiseSum(kind, ops, a, b)[k])
  {
    if k < Min(|a|, |b|) {
      assert IsElem(kind, a[k]) && IsElem(kind, b[k]);
    } else if k < |a| {
      assert IsElem(kind, a[k]);
    } else {
      assert IsElem(kind, b[k]);
    }
  }
}
