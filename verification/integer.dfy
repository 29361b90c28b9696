/** The element type of the integer ring (FLINT's fmpz): a signed integer of
    any size, held either inline in one machine word or as a pointer to a heap
    big integer. Only the value-level view is modelled: a heap big integer is
    its value, and allocation and freeing are not modelled. */
module Integer {

  /** The signed machine word `slong` of a 64-bit platform. Arithmetic on this
      type is checked: Dafny proves that no result leaves the range. */
  newtype slong = x: int | -0x8000_0000_0000_0000 <= x < 0x8000_0000_0000_0000

  /** Largest value stored inline (COEFF_MAX = 2^62 - 1 on a 64-bit platform). */
  const COEFF_MAX: int := 0x3FFF_FFFF_FFFF_FFFF
  /** Smallest value stored inline (COEFF_MIN = -COEFF_MAX). */
  const COEFF_MIN: int := -COEFF_MAX

  predicate FitsInline(v: int) {
    COEFF_MIN <= v <= COEFF_MAX
  }

  /** One fmpz slot: `Small(v)` is the inline word; `Large(v)` is a slot whose
      word points to a heap big integer of value v (COEFF_IS_MPZ holds). */
  datatype Fmpz = Small(v: int) | Large(v: int)

  /** The canonical form every fmpz is kept in: a value is inline exactly when
      it fits the inline range. */
  predicate Canonical(x: Fmpz) {
    x.Small? <==> FitsInline(x.v)
  }

  /** The canonical fmpz of value v: what fmpz_set_si stores for a word, and
      what the big-integer backend leaves after demoting a result that fits. */
  function Canon(v: int): (r: Fmpz)
    ensures r.v == v && Canonical(r)
    ensures r.Small? <==> FitsInline(v)
  {
    if FitsInline(v) then Small(v) else Large(v)
  }

  /** The canonical form is unique: two canonical slots of one value are equal. */
  lemma CanonicalUnique(x: Fmpz, y: Fmpz)
    requires Canonical(x) && Canonical(y) && x.v == y.v
    ensures x == y
  {
  }

  /** The native sum `f + g` of two inline values, computed in `slong`. Since
      both lie within [COEFF_MIN, COEFF_MAX], the sum lies within
      [-2^63 + 2, 2^63 - 2]: it cannot overflow the word and is the exact sum. */
  function InlineSum(f: Fmpz, g: Fmpz): (s: slong)
    requires f.Small? && g.Small? && Canonical(f) && Canonical(g)
    ensures s as int == f.v + g.v
    ensures -0x7FFF_FFFF_FFFF_FFFE <= s as int <= 0x7FFF_FFFF_FFFF_FFFE
  {
    f.v as slong + g.v as slong
  }

  /** fmpz_add, the full-precision addition of the big-integer backend: the
      canonical fmpz of the exact sum. */
  function FmpzAdd(x: Fmpz, y: Fmpz): (r: Fmpz)
    ensures r.v == x.v + y.v && Canonical(r)
  {
    Canon(x.v + y.v)
  }

  /** fmpz_sub: the canonical fmpz of the exact difference. */
  function FmpzSub(x: Fmpz, y: Fmpz): (r: Fmpz)
    ensures r.v == x.v - y.v && Canonical(r)
  {
    Canon(x.v - y.v)
  }

  /** fmpz_is_zero: the slot's word is the inline zero. */
  predicate FmpzIsZero(x: Fmpz) {
    x == Small(0)
  }

  /** On canonical slots the zero test is exactly "the value is 0". */
  lemma FmpzIsZeroIffZero(x: Fmpz)
    requires Canonical(x)
    ensures FmpzIsZero(x) <==> x.v == 0
  {
  }

  /** _fmpz_demote: a heap-backed slot releases its big integer and becomes
      the inline zero; an inline slot is left as it is. */
  function Demote(x: Fmpz): (r: Fmpz)
    ensures r.Small?
    ensures x.Small? ==> r == x
  {
    if x.Large? then Small(0) else x
  }

  /** _fmpz_promote: an inline slot gets a fresh heap big integer, modelled
      with value zero (the caller overwrites it); a heap-backed slot keeps its
      big integer. */
  function Promote(x: Fmpz): (r: Fmpz)
    ensures r.Large?
    ensures x.Large? ==> r == x
  {
    if x.Small? then Large(0) else x
  }
}
