/** What elem_poly_add computes, read as polynomials: the length of the
    result, its coefficients as integers, and its agreement with the vector
    subtraction. */
module PolyAddProperties {
  import opened Integer
  import opened Elements
  import opened Rings
  import opened Polynomials
  import opened Vectors
  import opened PolyAdd

  /** Coefficient i of an integer polynomial, zero beyond its length. */
  function CoeffValue<T>(s: seq<Elem<T>>, i: nat): int {
    if i < |s| && s[i].Int? then s[i].z.v else 0
  }

  /** The result of elem_poly_add over the integers is the sum of the two
      operands as polynomials: every coefficient, of every degree, is the sum
      of the operands' coefficients of that degree. */
  lemma IntegerPolyAddIsSum<T>(ops: ElemOps<T>, a: seq<Elem<T>>, b: seq<Elem<T>>, i: nat)
    requires AllElems(TypeFmpz, a) && AllElems(TypeFmpz, b)
    ensures CoeffValue(Normalised(TypeFmpz, ops, CoeffwiseSum(TypeFmpz, ops, a, b)), i)
         == CoeffValue(a, i) + CoeffValue(b, i)
  {
    var s := CoeffwiseSum(TypeFmpz, ops, a, b);
    var r := Normalised(TypeFmpz, ops, s);
    if i < |s| {
      CoeffwiseSumElems(TypeFmpz, ops, a, b, i);
      assert CoeffValue(s, i) == CoeffValue(a, i) + CoeffValue(b, i) by {
        if i < Min(|a|, |b|) {
          assert IsElem(TypeFmpz, a[i]) && IsElem(TypeFmpz, b[i]);
        } else if i < |a| {
          assert IsElem(TypeFmpz, a[i]);
        } else {
          assert IsElem(TypeFmpz, b[i]);
        }
      }
      if i < |r| {
        assert r[i] == s[i];
      } else {
        assert ElemIsZero(TypeFmpz, ops, s[i]);
      }
    }
  }

  /** The length of the result of elem_poly_add, for normalised operands: it
      is the longer operand's length when the lengths differ; when they are
      equal, it is that length exactly when the top coefficients do not
      cancel. It never exceeds the longer length. */
  lemma PolyAddLength<T>(kind: RingType, ops: ElemOps<T>, a: seq<Elem<T>>, b: seq<Elem<T>>)
    requires IsNormalised(kind, ops, a) && IsNormalised(kind, ops, b)
    ensures |Normalised(kind, ops, CoeffwiseSum(kind, ops, a, b))| <= Max(|a|, |b|)
    ensures |a| != |b| ==> |Normalised(kind, ops, CoeffwiseSum(kind, ops, a, b))| == Max(|a|, |b|)
    ensures |a| == |b| > 0 ==>
              (|Normalised(kind, ops, CoeffwiseSum(kind, ops, a, b))| == |a|
               <==> !ElemIsZero(kind, ops, ElemAdd(kind, ops, a[|a| - 1], b[|b| - 1])))
  {
    var s := CoeffwiseSum(kind, ops, a, b);
    NormalisedKeepsAll(kind, ops, s);
    if |a| < |b| {
      assert s[|s| - 1] == b[|b| - 1];
    } else if |b| < |a| {
      assert s[|s| - 1] == a[|a| - 1];
    } else if |a| > 0 {
      assert s[|s| - 1] == ElemAdd(kind, ops, a[|a| - 1], b[|b| - 1]);
    }
  }

  /** Over the integers, adding b back to a - b gives a: elem_vec_sub is
      undone by the coefficientwise addition of _elem_poly_add. */
  lemma SubThenAddRoundTrip<T>(ops: ElemOps<T>, a: seq<Elem<T>>, b: seq<Elem<T>>)
    requires |a| == |b|
    requires AllElems(TypeFmpz, a) && AllElems(TypeFmpz, b)
    ensures CoeffwiseSum(TypeFmpz, ops, VecSub(TypeFmpz, ops, a, b), b) == a
  {
    var s := CoeffwiseSum(TypeFmpz, ops, VecSub(TypeFmpz, ops, a, b), b);
    forall i | 0 <= i < |a|
      ensures s[i] == a[i]
    {
      VecSubThenAdd(ops, a, b, i);
    }
  }

  /** Integer polynomial addition is commutative, coefficient by coefficient
      and in canonical form. */
  lemma IntegerCoeffwiseSumCommutes<T>(ops: ElemOps<T>, a: seq<Elem<T>>, b: seq<Elem<T>>)
    requires AllElems(TypeFmpz, a) && AllElems(TypeFmpz, b)
    ensures CoeffwiseSum(TypeFmpz, ops, a, b) == CoeffwiseSum(TypeFmpz, ops, b, a)
  {
    var s, t := CoeffwiseSum(TypeFmpz, ops, a, b), CoeffwiseSum(TypeFmpz, ops, b, a);
    forall i | 0 <= i < |s|
      ensures s[i] == t[i]
    {
      if i < Min(|a|, |b|) {
        assert IsElem(TypeFmpz, a[i]) && IsElem(TypeFmpz, b[i]);
        CanonicalUnique(s[i].z, t[i].z);
      }
    }
  }
}
