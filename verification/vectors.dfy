/** The generic vector primitive: elementwise subtraction over arrays of
    elements of one ring. */
module Vectors {
  import opened Integer
  import opened Rings
  import opened Elements

  /** The elementwise difference of two equally long element sequences under
      the ring's subtraction, defined from the front. */
  function VecSub<T>(kind: RingType, ops: ElemOps<T>, a: seq<Elem<T>>, b: seq<Elem<T>>): (r: seq<Elem<T>>)
    requires |a| == |b|
    ensures |r| == |a|
    ensures forall i :: 0 <= i < |r| ==> r[i] == ElemSub(kind, ops, a[i], b[i])
  {
    if a == [] then [] else [ElemSub(kind, ops, a[0], b[0])] + VecSub(kind, ops, a[1..], b[1..])
  }

  /** _elem_vec_sub: res[i] := vec1[i] - vec2[i] for every i < len. `res` may
      be the same array as `vec1` and/or `vec2`: element i of the inputs is
      read before element i of `res` is written, and nothing else is written
      at that step. Element i lives at byte offset Index(i, ring.size) in all
      three arrays (see Elements.StrideDisjoint). Nothing is normalised. */
  method ElemVecSub<T>(res: array<Elem<T>>, vec1: array<Elem<T>>, vec2: array<Elem<T>>, len: nat,
                       ring: Ring, ops: ElemOps<T>)
    requires len <= res.Length && len <= vec1.Length && len <= vec2.Length
    modifies res
    ensures res[..len] == VecSub(ring.kind, ops, old(vec1[..len]), old(vec2[..len]))
    ensures res[len..] == old(res[len..])
  {
    var i := 0;
    while i < len
      invariant 0 <= i <= len
      invariant forall k :: 0 <= k < i ==> res[k] == ElemSub(ring.kind, ops, old(vec1[k]), old(vec2[k]))
      invariant forall k :: i <= k < res.Length ==> res[k] == old(res[k])
      invariant forall k :: i <= k < len ==> vec1[k] == old(vec1[k]) && vec2[k] == old(vec2[k])
    {
      res[i] := ElemSub(ring.kind, ops, vec1[i], vec2[i]);
      i := i + 1;
    }
  }

  /** The inline integer with value v. */
  function SmallInt<T>(v: int): Elem<T> {
    Int(Small(v))
  }

  /** Over the integers, [3, -1, 7] - [1, 1, 7] is [2, -2, 0]: the zero
      difference at the top stays in place. */
  lemma VecSubKeepsTrailingZero<T>(ops: ElemOps<T>)
    ensures VecSub(TypeFmpz, ops, [SmallInt(3), SmallInt(-1), SmallInt(7)], [SmallInt(1), SmallInt(1), SmallInt(7)])
         == [SmallInt<T>(2), SmallInt(-2), SmallInt(0)]
  {
    var r := VecSub(TypeFmpz, ops, [SmallInt(3), SmallInt(-1), SmallInt(7)], [SmallInt(1), SmallInt(1), SmallInt(7)]);
    assert r[0] == SmallInt(2) && r[1] == SmallInt(-2) && r[2] == SmallInt(0);
  }

  /** Subtraction is undone by addition: over the integers, adding b back to
      a - b gives a again, element by element and in canonical form. */
  lemma VecSubThenAdd<T>(ops: ElemOps<T>, a: seq<Elem<T>>, b: seq<Elem<T>>, i: nat)
    requires |a| == |b| && i < |a|
    requires AllElems(TypeFmpz, a) && AllElems(TypeFmpz, b)
    ensures ElemAdd(TypeFmpz, ops, VecSub(TypeFmpz, ops, a, b)[i], b[i]) == a[i]
  {
    var d := VecSub(TypeFmpz, ops, a, b)[i];
    assert IsElem(TypeFmpz, a[i]) && IsElem(TypeFmpz, b[i]);
    var s := ElemAdd(TypeFmpz, ops, d, b[i]);
    assert s.z.v == a[i].z.v;
    CanonicalUnique(s.z, a[i].z);
  }
}
