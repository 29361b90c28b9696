/** A client of the model: it builds the integer ring and the ring of
    polynomials over it, then adds two polynomials and subtracts two vectors
    of integers, so the operations are shown to be callable on the rings the
    library builds. */
module Usage {
  import opened Integer
  import opened Rings
  import opened Elements
  import opened Vectors
  import opened Polynomials
  import opened PolyAdd

  /** A fresh polynomial over the integers with the three given word-sized
      coefficients, lowest degree first. */
  method NewIntegerPoly<T>(ring: Ring, ops: ElemOps<T>, c0: int, c1: int, c2: int) returns (p: Poly<T>)
    requires ring.parent != null && ring.parent.kind == TypeFmpz
    requires FitsInline(c0) && FitsInline(c1) && FitsInline(c2)
    ensures fresh(p) && fresh(p.coeffs) && p.Valid()
    ensures p.Contents() == [SmallInt(c0), SmallInt(c1), SmallInt(c2)]
    ensures AllSlots(TypeFmpz, p.coeffs)
  {
    p := new Poly<T>.Init();
    p.FitLength(3, ring, ops);
    p.coeffs[0], p.coeffs[1], p.coeffs[2] := SmallInt(c0), SmallInt(c1), SmallInt(c2);
    p.SetLength(3);
    assert forall i :: 3 <= i < p.coeffs.Length ==> p.coeffs[i] == ElemZero(TypeFmpz, ops);
  }

  /** The sum PolyAddUsage computes, on values: the coefficientwise sum is
      [4, 0, 0], and trimming leaves [4]. */
  lemma IntegerPolyAddExample<T>(ops: ElemOps<T>)
    ensures Normalised(TypeFmpz, ops, CoeffwiseSum(TypeFmpz, ops, [SmallInt(3), SmallInt(-1), SmallInt(7)],
                                                                 [SmallInt(1), SmallInt(1), SmallInt(-7)]))
         == [SmallInt(4)]
  {
    var s := CoeffwiseSum(TypeFmpz, ops, [SmallInt(3), SmallInt(-1), SmallInt(7)], [SmallInt(1), SmallInt(1), SmallInt(-7)]);
    assert s == [SmallInt(4), SmallInt(0), SmallInt(0)];
    assert s[..2][..1] == s[..1] == [SmallInt(4)];
  }

  /** Over Z[x], (3 - x + 7x^2) + (1 + x - 7x^2) is the constant 4: the top
      coefficients cancel and elem_poly_add trims them. */
  method PolyAddUsage<T>(ops: ElemOps<T>) returns (sum: seq<Elem<T>>)
    ensures sum == [SmallInt(4)]
  {
    var zz := new Ring.InitFmpz();
    var zx := new Ring.InitPoly(zz, 24);
    var p := NewIntegerPoly(zx, ops, 3, -1, 7);
    var q := NewIntegerPoly(zx, ops, 1, 1, -7);
    var r := new Poly<T>.Init();
    ElemPolyAdd(r, p, q, zx, ops);
    IntegerPolyAddExample(ops);
    sum := r.coeffs[..r.length];
  }

  /** The differences VecSubUsage computes, on values. */
  lemma IntegerVecSubExample<T>(ops: ElemOps<T>)
    ensures VecSub(TypeFmpz, ops, [SmallInt(3), SmallInt(-1), SmallInt(7)], [SmallInt(1), SmallInt(1), SmallInt(-7)])
         == [SmallInt(2), SmallInt(-2), SmallInt(14)]
  {
  }

  /** Over Z, [3, -1, 7] - [1, 1, -7] is [2, -2, 14]. */
  method VecSubUsage<T>(ops: ElemOps<T>) returns (diff: seq<Elem<T>>)
    ensures diff == [SmallInt(2), SmallInt(-2), SmallInt(14)]
  {
    var zz := new Ring.InitFmpz();
    var u := new Elem<T>[3];
    u[0], u[1], u[2] := SmallInt(3), SmallInt(-1), SmallInt(7);
    var w := new Elem<T>[3];
    w[0], w[1], w[2] := SmallInt(1), SmallInt(1), SmallInt(-7);
    var d := new Elem<T>[3](_ => SmallInt(0));
    assert u[..3] == [SmallInt(3), SmallInt(-1), SmallInt(7)];
    assert w[..3] == [SmallInt(1), SmallInt(1), SmallInt(-7)];
    ElemVecSub(d, u, w, 3, zz, ops);
    IntegerVecSubExample(ops);
    assert d[..] == d[..3];
    diff := d[..];
  }
}
