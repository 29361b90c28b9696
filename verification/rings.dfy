/** Ring descriptors: the runtime value that says how the bytes of an element
    are to be read, and the constructors of the integer ring, of a
    polynomial ring and of a fraction ring. */
module Rings {

  /** The closed set of ring kinds a descriptor is tagged with. */
  datatype RingType = TypeFmpz | TypeLimb | TypeMod | TypePoly | TypeFrac | TypeComplex

  /** The byte width of an fmpz: one `slong` word on a 64-bit platform. */
  const FMPZ_SIZE: nat := 8

  /** A ring descriptor (ring_struct). `kind` is the C field `type`; `size` is
      the byte width of one element; `denomOffset` is where the denominator
      starts inside a fraction element; `numer` and `denom` are the sub-rings
      of a fraction ring; `parent` is the coefficient ring of a polynomial
      ring. Sub-rings are referenced, never copied. A descriptor is filled in
      once, when the ring is initialised, and only read afterwards. */
  class Ring {
    const kind: RingType
    const size: nat
    const denomOffset: nat
    const numer: Ring?
    const denom: Ring?
    const parent: Ring?

    /** ring_init_fmpz: the integer ring, a leaf ring without sub-rings whose
        element is one fmpz, a single machine word of FMPZ_SIZE bytes. */
    constructor InitFmpz()
      ensures kind == TypeFmpz && size == FMPZ_SIZE
      ensures numer == null && denom == null && parent == null
    {
      kind := TypeFmpz;
      size := FMPZ_SIZE;
      denomOffset := 0;
      numer := null;
      denom := null;
      parent := null;
    }

    /** ring_init_poly: the ring of polynomials over `base`. An element is a
        polynomial struct of `structSize` bytes; `parent` is the coefficient
        ring, referenced and not copied. A C struct is never empty, so the
        size is positive and Elements.StrideDisjoint applies to its arrays. */
    constructor InitPoly(base: Ring, structSize: nat)
      requires 0 < structSize
      ensures kind == TypePoly && size == structSize
      ensures parent == base && numer == null && denom == null
    {
      kind := TypePoly;
      size := structSize;
      denomOffset := 0;
      numer := null;
      denom := null;
      parent := base;
    }

    /** ring_init_frac: the descriptor of the fractions of `numerRing` over
        `denomRing`. An element is the numerator's bytes followed directly by
        the denominator's bytes. The argument rings are only read. */
    constructor InitFrac(numerRing: Ring, denomRing: Ring)
      ensures kind == TypeFrac
      ensures size == numerRing.size + denomRing.size
      ensures denomOffset == numerRing.size
      ensures numer == numerRing && denom == denomRing
      ensures parent == null
    {
      kind := TypeFrac;
      size := numerRing.size + denomRing.size;
      denomOffset := numerRing.size;
      numer := numerRing;
      denom := denomRing;
      parent := null;
    }
  }

  /** The byte offsets lo, lo + 1, ..., hi - 1: a set of hi - lo offsets. */
  ghost function ByteRange(lo: int, hi: int): (r: set<int>)
    ensures forall b :: b in r <==> lo <= b < hi
    ensures lo <= hi ==> |r| == hi - lo
    decreases hi - lo
  {
    if hi <= lo then {} else {lo} + ByteRange(lo + 1, hi)
  }

  /** The bytes of a fraction element that hold the numerator. */
  ghost function NumerRegion(r: Ring): set<int> {
    ByteRange(0, r.denomOffset)
  }

  /** The bytes of a fraction element that hold the denominator. */
  ghost function DenomRegion(r: Ring): set<int> {
    ByteRange(r.denomOffset, r.size)
  }

  /** The layout InitFrac builds: the numerator region and the denominator
      region are disjoint, together cover the whole element, and are exactly
      as wide as an element of the numerator ring and of the denominator ring;
      the offset lies inside the element whenever the denominator is non-empty. */
  lemma FracLayout(r: Ring, numerRing: Ring, denomRing: Ring)
    requires r.kind == TypeFrac && r.numer == numerRing && r.denom == denomRing
    requires r.size == numerRing.size + denomRing.size
    requires r.denomOffset == numerRing.size
    ensures r.denomOffset <= r.size
    ensures denomRing.size > 0 ==> r.denomOffset < r.size
    ensures NumerRegion(r) !! DenomRegion(r)
    ensures NumerRegion(r) + DenomRegion(r) == ByteRange(0, r.size)
    ensures |NumerRegion(r)| == numerRing.size
    ensures |DenomRegion(r)| == denomRing.size
  {
  }
}
