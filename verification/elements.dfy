/** The element dispatch layer: how an element slot is read under a ring,
    and the generic add, sub, zero test and zero element, which branch on the
    ring's kind. The integer ring's arithmetic is the fmpz arithmetic; the
    arithmetic of every other ring is not part of this model and is given as
    an abstract set of operations on that ring's own representation. */
module Elements {
  import opened Integer
  import opened Rings

  /** The contents of one element slot: an fmpz for the integer ring, a value
      of the ring's own representation T for any other ring. */
  datatype Elem<T> = Int(z: Fmpz) | Other(x: T)

  /** The arithmetic of a ring other than the integers, on its representation. */
  datatype ElemOps<!T> = ElemOps(add: (T, T) -> T, sub: (T, T) -> T, isZero: T -> bool, zero: T)

  function Min(a: int, b: int): int { if a < b then a else b }
  function Max(a: int, b: int): int { if a < b then b else a }

  /** A slot holds a valid element of a ring of this kind: a canonical fmpz for
      the integer ring, a value of the ring's representation otherwise. */
  predicate IsElem<T>(kind: RingType, e: Elem<T>) {
    if kind == TypeFmpz then e.Int? && Canonical(e.z) else e.Other?
  }

  predicate AllElems<T>(kind: RingType, s: seq<Elem<T>>) {
    forall i :: 0 <= i < |s| ==> IsElem(kind, s[i])
  }

  /** Every slot of the array holds a valid element of a ring of this kind. */
  ghost predicate AllSlots<T>(kind: RingType, a: array<Elem<T>>)
    reads a
  {
    forall i :: 0 <= i < a.Length ==> IsElem(kind, a[i])
  }

  /** elem_add. A slot that is not an element of the ring is read as junk and
      returned unchanged; IsElem excludes it everywhere it matters. */
  function ElemAdd<T>(kind: RingType, ops: ElemOps<T>, x: Elem<T>, y: Elem<T>): (r: Elem<T>)
    ensures IsElem(kind, x) && IsElem(kind, y) ==> IsElem(kind, r)
    ensures kind == TypeFmpz && IsElem(kind, x) && IsElem(kind, y) ==> r.z.v == x.z.v + y.z.v
    ensures kind != TypeFmpz && IsElem(kind, x) && IsElem(kind, y) ==> r.x == ops.add(x.x, y.x)
  {
    if kind == TypeFmpz then
      if x.Int? && y.Int? then Int(FmpzAdd(x.z, y.z)) else x
    else
      if x.Other? && y.Other? then Other(ops.add(x.x, y.x)) else x
  }

  /** elem_sub. */
  function ElemSub<T>(kind: RingType, ops: ElemOps<T>, x: Elem<T>, y: Elem<T>): (r: Elem<T>)
    ensures IsElem(kind, x) && IsElem(kind, y) ==> IsElem(kind, r)
    ensures kind == TypeFmpz && IsElem(kind, x) && IsElem(kind, y) ==> r.z.v == x.z.v - y.z.v
    ensures kind != TypeFmpz && IsElem(kind, x) && IsElem(kind, y) ==> r.x == ops.sub(x.x, y.x)
  {
    if kind == TypeFmpz then
      if x.Int? && y.Int? then Int(FmpzSub(x.z, y.z)) else x
    else
      if x.Other? && y.Other? then Other(ops.sub(x.x, y.x)) else x
  }

  /** elem_is_zero. */
  predicate ElemIsZero<T>(kind: RingType, ops: ElemOps<T>, x: Elem<T>) {
    if kind == TypeFmpz then x.Int? && FmpzIsZero(x.z) else x.Other? && ops.isZero(x.x)
  }

  /** On ring elements, elem_is_zero is the value test: an integer is zero
      exactly when its value is 0, any other element exactly when that
      ring's own zero test says so. */
  lemma ElemIsZeroMeaning<T>(kind: RingType, ops: ElemOps<T>, x: Elem<T>)
    requires IsElem(kind, x)
    ensures kind == TypeFmpz ==> (ElemIsZero(kind, ops, x) <==> x.z.v == 0)
    ensures kind != TypeFmpz ==> (ElemIsZero(kind, ops, x) <==> ops.isZero(x.x))
  {
    if kind == TypeFmpz {
      FmpzIsZeroIffZero(x.z);
    }
  }

  /** The zero element a freshly initialised slot holds (elem_init). */
  function ElemZero<T>(kind: RingType, ops: ElemOps<T>): (r: Elem<T>)
    ensures IsElem(kind, r)
    ensures kind == TypeFmpz ==> ElemIsZero(kind, ops, r)
  {
    if kind == TypeFmpz then Int(Small(0)) else Other(ops.zero)
  }

  /** INDEX(ptr, i, size): element i starts at byte offset i * size. The same
      stride is used for every array of one ring. */
  function Index(i: nat, size: nat): nat {
    i * size
  }

  /** With a non-zero element size, the byte regions of two distinct elements
      of one array do not overlap, so writing element i never changes element
      j: the arrays of this model, indexed by element, are faithful to the
      strided layout. */
  lemma StrideDisjoint(i: nat, j: nat, size: nat)
    requires 0 < size && i < j
    ensures Index(i, size) + size <= Index(j, size)
  {
    assert Index(j, size) - Index(i, size) == (j - i) * size;
    assert (j - i) * size >= size by {
      assert j - i >= 1;
    }
  }
}
