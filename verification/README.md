# Generic rings: polynomial addition, fraction rings, vector subtraction

This project models three pieces of the generic-ring kernel of the bland
library, which is built on FLINT. It proves properties of each piece in
Dafny.

- **Ring descriptors.** A ring descriptor is a runtime value. Its type tag
  (`kind`) tells how the bytes of an element are read. Its `size` is the byte
  width of one element. A fraction ring also refers to its numerator and
  denominator rings, and records where the denominator starts inside an
  element. `ring_init_frac` fills in such a descriptor.
- **Elements and dispatch.** An element slot holds an fmpz when the ring is
  the integers. For any other ring it holds a value of that ring's own
  representation. `elem_add`, `elem_sub`, `elem_is_zero` and the zero element
  branch on the ring's kind. Integer arithmetic is modelled exactly. The
  arithmetic of every other ring is an abstract set of operations (`ElemOps`).
- **fmpz.** An integer is stored either inline in one machine word (`Small`)
  or as a pointer to a heap big integer (`Large`). It is kept canonical: it is
  inline exactly when its value lies in `[COEFF_MIN, COEFF_MAX]`, where
  `COEFF_MAX = 2^62 - 1`.
- **Polynomial addition.** `_elem_poly_add` adds two coefficient arrays.
  Below the shorter length it adds the coefficients. Above it, it copies the
  longer input's coefficients, unless the result array is that input. The
  integer ring takes a fast path, `_fmpz_poly_add2`, built on
  `fmpz_add_inline` and `fmpz_set_inline`. `elem_poly_add` wraps this: it
  grows the result's storage, adds, sets the length and normalises. A
  normalised polynomial is empty or has a nonzero top coefficient.
- **Vector subtraction.** `_elem_vec_sub` subtracts two element arrays
  elementwise. The result array may be either input.

Storage is an `array<Elem<T>>` indexed by element number. The byte stride
`i * size` of the C code is the same for every array a call touches, and
`Elements.StrideDisjoint` shows that distinct element numbers give disjoint
byte regions under it. Pointer
aliasing, such as `poly1 != res`, is array identity. A polynomial is a class
(`Polynomials.Poly`) with its coefficient array and length as fields. A ring
descriptor is a class (`Rings.Ring`) whose fields are set once, when it is
initialised.

Modules, one file each: `Integer` (integer.dfy), `Rings` (rings.dfy),
`Elements` (elements.dfy), `Vectors` (vectors.dfy), `Polynomials`
(polynomials.dfy), `PolyAdd` (poly_add.dfy), `PolyAddProperties`
(poly_add_props.dfy) and `Usage` (usage.dfy), a client that builds the
integer ring and the polynomial ring over it and calls the operations.

## Model

| member | source | states |
|---|---|---|
| Integer.InlineSum | generics/poly_add.c:55-56 | The native word sum of two canonical inline values is their exact sum. It lies in `[-2^63 + 2, 2^63 - 2]`, so it cannot overflow `slong`; Dafny checks this bound. |
| Integer.Canon | generics/poly_add.c:56 | What `fmpz_set_si` stores: an fmpz with value v, in canonical form. It is inline exactly when v fits the inline range. |
| Integer.FmpzAdd | generics/poly_add.c:58 | `fmpz_add` yields the canonical fmpz whose value is the exact sum. |
| Integer.FmpzSub | generics/vec_sub.c:34 | The integer case of `elem_sub`: the canonical fmpz whose value is the exact difference. |
| Integer.FmpzIsZeroIffZero | generics/poly_add.c:118 | For a canonical fmpz, the zero test `fmpz_is_zero` holds exactly when the value is zero: zero is never heap-backed. |
| Integer.Demote | generics/poly_add.c:37 | `_fmpz_demote`: the slot becomes inline, and an inline slot keeps its value. |
| Integer.Promote | generics/poly_add.c:42 | `_fmpz_promote`: the slot becomes heap-backed, and a heap-backed slot is kept as it is. |
| Elements.ElemAdd | generics/poly_add.c:98 | `elem_add` maps ring elements to a ring element. Over the integers the value is the sum. For any other ring it is that ring's own addition. |
| Elements.ElemSub | generics/vec_sub.c:34 | `elem_sub` maps ring elements to a ring element. Over the integers the value is the difference. For any other ring it is that ring's own subtraction. |
| Elements.ElemIsZeroMeaning | generics/poly_add.c:118 | `elem_is_zero`, which normalisation relies on, holds of an integer element exactly when its value is zero, and of any other element exactly when that ring's own zero test holds. |
| Elements.ElemZero | generics/poly_add.c:115 | The zero element that fills new storage: an element of the ring, and for the integers one that `elem_is_zero` accepts. |
| Elements.StrideDisjoint | generics/vec_sub.c:31-34 | With a nonzero element size, the byte region of element i, which starts at `INDEX(ptr, i, size)`, ends before element j's region starts, for every i < j. |
| Vectors.VecSub | generics/vec_sub.c:33-34 | The specification of the loop. It has the length of its inputs, and element i is `elem_sub` of the inputs' elements i. |
| Vectors.ElemVecSub | generics/vec_sub.c:28-35 | `_elem_vec_sub` leaves `res[..len]` equal to the elementwise difference of the inputs' initial contents. This holds even when `res` is `vec1` and/or `vec2`. Slots at index `len` or above are unchanged, so `len = 0` changes nothing. |
| Vectors.VecSubKeepsTrailingZero | generics/vec_sub.c:33-34 | No normalisation happens: over the integers, `[3, -1, 7] - [1, 1, 7]` is `[2, -2, 0]`. |
| Vectors.VecSubThenAdd | generics/vec_sub.c:33-34 | Over the integers, adding `b[i]` back to element i of `a - b` gives `a[i]` again, in canonical form. |
| Rings.Ring.InitFmpz | generics/test/t-pow_ui.c:125 | `ring_init_fmpz`: the integer ring, of kind `TYPE_FMPZ`, one word wide, with no sub-rings and no parent. |
| Rings.Ring.InitPoly | generics/test/t-pow_ui.c:126 | `ring_init_poly`: a ring of kind `TYPE_POLY` whose `parent` is the given coefficient ring itself, not a copy. An element is a struct of positive size. |
| Rings.Ring.InitFrac | generics/ring_init_frac.c:28-39 | The new descriptor has kind `TYPE_FRAC`. Its size is the sum of the two sub-ring sizes, and its denominator offset is the numerator ring's size. `numer` and `denom` are the argument rings themselves, not copies. Descriptor fields are constants, so the argument rings cannot change. |
| Rings.FracLayout | generics/ring_init_frac.c:34-35 | For a descriptor built this way, the offset is at most the size, and strictly less when the denominator ring's size is positive. The numerator bytes `[0, offset)` and the denominator bytes `[offset, size)` are disjoint, cover the element, and are as wide as the numerator ring's and the denominator ring's elements. |
| Polynomials.Normalised | generics/poly_add.c:118 | The result of trimming trailing zeros. It is a prefix of the input and is normalised, and every coefficient dropped from the input is zero. |
| Polynomials.NormalisedUnique | generics/poly_add.c:118 | Trimming has one answer: any prefix of the coefficients that is normalised and leaves only zeros above it is `Normalised` of the coefficients. |
| Polynomials.NormalisedKeepsAll | generics/poly_add.c:118 | Trimming keeps every coefficient exactly when the coefficients are already normalised, so a zero top coefficient is always dropped. |
| Polynomials.Poly.FitLength | generics/poly_add.c:115 | `elem_poly_fit_length`. Afterwards the capacity is at least n and has not shrunk. Every old slot keeps its value; new slots hold the coefficient ring's zero. The coefficients and the length are unchanged. If every slot held a ring element before, every slot holds one after. |
| Polynomials.Poly.SetLength | generics/poly_add.c:117 | `elem_poly_set_length`: the first n slots of the storage become the coefficients. |
| Polynomials.Poly.Normalise | generics/poly_add.c:118 | `elem_poly_normalise`: the new coefficients are exactly the old ones with trailing zeros trimmed. The storage is not touched. |
| PolyAdd.SetInline | generics/poly_add.c:29-45 | `fmpz_set_inline`: slot f takes exactly slot g's initial value and representation. A small g gives an inline f, and a large g gives a heap-backed f, so a canonical g yields a canonical f. When f and g are the same slot, nothing changes. No other slot of f's array changes. |
| PolyAdd.AddInline | generics/poly_add.c:47-59 | `fmpz_add_inline`: slot z holds the canonical fmpz of the exact sum of the operands' initial values. This is the same on the small/small path and on the big-integer path. The destination may be an operand. No other slot of z's array changes. |
| PolyAdd.FmpzPolyAdd2 | generics/poly_add.c:62-78 | `_fmpz_poly_add2`. Below the shorter length, `res[i]` is the fmpz sum of the inputs' initial `i`-th coefficients. Between the two lengths, `res[i]` is the longer input's initial coefficient; when `res` is that input the copy is skipped and the coefficient is already in place. Slots at the longer length or above are unchanged. |
| PolyAdd.FmpzAddPrefix | generics/poly_add.c:66-69 | The first loop of `_fmpz_poly_add2`: `res[i]` is the fmpz sum of the inputs' initial `i`-th coefficients for `i < min`. Nothing at `min` or above is written. |
| PolyAdd.FmpzCopyRange | generics/poly_add.c:71-77 | A tail loop of `_fmpz_poly_add2` when `res` is not the source: `res[i] = src[i]` on `[min, len)`, and every other slot is unchanged. |
| PolyAdd.ElemAddPrefix | generics/poly_add.c:95-98 | The first loop of the generic path: `res[i]` is `elem_add` of the inputs' initial `i`-th coefficients for `i < min`. Nothing at `min` or above is written. |
| PolyAdd.ElemCopyRange | generics/poly_add.c:100-106 | A tail loop of the generic path when `res` is not the source: `res[i] = src[i]` on `[min, len)`, and every other slot is unchanged. |
| PolyAdd.ElemPolyAddGeneric | generics/poly_add.c:95-106 | The generic path of `_elem_poly_add`. It gives the same three pointwise facts as `FmpzPolyAdd2`, with `elem_add` in place of the fmpz sum, and leaves slots at the longer length or above unchanged. |
| PolyAdd.CoeffwiseSum | generics/poly_add.c:66-77 | The coefficientwise sum of two coefficient sequences. Its length is the longer length. Below the shorter length, coefficient i is `elem_add` of the inputs' coefficients; above it, it is the longer input's coefficient. |
| PolyAdd.FmpzPathIsCoeffwiseSum | generics/poly_add.c:89-93 | The coefficients the integer fast path `_fmpz_poly_add2` leaves behind are `CoeffwiseSum` over the integers, the same as the generic path's: the two paths agree on every input. |
| PolyAdd.CoeffwiseSumFromPointwise | generics/poly_add.c:89-106 | Those pointwise facts determine the coefficientwise sum, so both paths produce `CoeffwiseSum`. |
| PolyAdd.ElemPolyAddCoeffs | generics/poly_add.c:82-107 | `_elem_poly_add`: `res[..max]` is the coefficientwise sum of the inputs' initial coefficients. The integer fast path and the generic path produce the same coefficients. Nothing at or above `max` is written. The result holds ring elements wherever the inputs did. |
| PolyAdd.StoreSum | generics/poly_add.c:116-117 | After the storage is large enough, `_elem_poly_add` followed by `elem_poly_set_length` makes the coefficients of `res` exactly the coefficientwise sum of the operands' initial coefficients. An operand that is not `res` is left as it was. |
| PolyAdd.ElemPolyAdd | generics/poly_add.c:109-119 | `elem_poly_add`: the coefficients of `res` are the coefficientwise sum of the operands' initial coefficients, with trailing zeros trimmed. The result is normalised, and its length is at most the longer operand's length. The capacity of `res` is at least that longer length and has not shrunk. Every slot of the storage holds a ring element. This holds when `res` is `op1`, `op2` or both, so an aliased call gives what a separate destination would. |
| PolyAddProperties.IntegerPolyAddIsSum | generics/poly_add.c:109-119 | Over the integers, coefficient i of the result of `elem_poly_add`, taken as zero beyond the length, is the sum of the operands' zero-padded coefficients i, for every degree i. |
| PolyAddProperties.PolyAddLength | generics/poly_add.c:113-118 | For normalised operands the result length is at most the longer length. It equals that length when the operand lengths differ. When the lengths are equal and nonzero, it equals that length exactly when the sum of the top coefficients is not zero. |
| PolyAddProperties.SubThenAddRoundTrip | generics/vec_sub.c:33-34 | Over the integers, the coefficientwise addition of `_elem_poly_add` undoes `_elem_vec_sub`: `(a - b) + b == a` on whole sequences. |
| PolyAddProperties.IntegerCoeffwiseSumCommutes | generics/poly_add.c:66-69 | Over the integers, the coefficientwise sum does not depend on the order of the operands, including the representation of each coefficient. |
| Usage.IntegerPolyAddExample | generics/poly_add.c:113-118 | On values: the coefficientwise sum of `[3, -1, 7]` and `[1, 1, -7]` over the integers, trimmed, is `[4]`. |
| Usage.PolyAddUsage | generics/test/t-pow_ui.c:125-126 | With the integer ring and the polynomial ring over it built as the test driver builds them, `elem_poly_add` of `3 - x + 7x^2` and `1 + x - 7x^2` gives the constant polynomial `4`: the cancelled top coefficients are trimmed. |
| Usage.IntegerVecSubExample | generics/vec_sub.c:33-34 | On values: the elementwise difference of `[3, -1, 7]` and `[1, 1, -7]` over the integers is `[2, -2, 14]`. |
| Usage.VecSubUsage | generics/vec_sub.c:28-35 | Over the integer ring, `_elem_vec_sub` of `[3, -1, 7]` and `[1, 1, -7]` gives `[2, -2, 14]`. |

## Left out

- The big-integer backend (`mpz_set`, `fmpz_add` on heap operands, `_fmpz_promote` and `_fmpz_demote`) is modelled at the value level only. A heap-backed slot is its value. Allocating, reusing and freeing big integers is not modelled.
- `slong` is a 64-bit `newtype`, and `COEFF_MAX` is `2^62 - 1` as on a 64-bit platform. FLINT defines `COEFF_MAX` outside the modelled files.
- The byte layout of elements is not modelled. Arrays are indexed by element, and the `i * size` stride is related to them by `Elements.StrideDisjoint`. The misalignment hazard noted at generics/ring_init_frac.c:33 lies below this level.
- The arithmetic of the fraction, complex, quotient and other non-integer rings behind `elem_add`, `elem_sub` and `elem_is_zero` is not in the modelled files. It is abstract (`ElemOps`), given as total functions on the ring's representation.
- `elem_poly_fit_length`, `elem_poly_set_length`, `elem_poly_normalise` and `elem_poly_init` are defined in files that are not part of this model. `Polynomials.Poly` gives them the behaviour `elem_poly_add` relies on; `Polynomials.Poly.Init` is the empty polynomial with no storage.
- The `INDEX` macro is defined in a header that is not part of this model. `Elements.Index` is its byte offset `i * size`; its one stated property is `Elements.StrideDisjoint`.
- `ring_init_fmpz` and `ring_init_poly` are defined in files that are not part of this model; `Rings.Ring.InitFmpz` and `Rings.Ring.InitPoly` give them the fields the modelled code reads. `FMPZ_SIZE` is 8 bytes, as on a 64-bit platform, and the byte width of a polynomial struct is a positive parameter.
- Polynomials.Poly.FitLength grows the storage to exactly `n` slots; the real growth policy is not part of this model.
- Rings.Ring.InitFrac also sets `parent` to null, because Dafny initialises every field of a new object. The C function leaves that field as it was.
- Lengths are `nat`. A negative `long` length is a caller error and is not modelled. It is harmless only in `_elem_vec_sub`, where the loop then runs zero times. In `_elem_poly_add` and `_fmpz_poly_add2` it is not: with `len1 = -1` and `len2 = 2` the copy loop from `poly2` starts at `i = -1` and writes `res[-1]`.
- Partial overlap of two coefficient arrays is not representable: two arrays are either the same array or disjoint. The C code does not support partial overlap either.
- PolyAdd.ElemPolyAdd does not restate in its postcondition that an operand other than `res` is unchanged. This follows from its `modifies res, res.coeffs` clause together with the precondition that such an operand's storage is not that of `res`. `PolyAdd.StoreSum` states it explicitly.
- PolyAdd.ElemPolyAdd requires every slot of the storage of `res` to hold an initialised element of the coefficient ring, for every ring kind. The fast path reads the fmpz it overwrites, and the generic `elem_add` and `elem_set` write into an existing element. What an uninitialised slot would do is not modelled.
- generics/test/t-pow_ui.c is a randomised test driver for `elem_pow_ui` and `elem_mul`, whose code is not part of this model. Its power laws are not stated.
- Printing, random element generation, clearing rings and freeing memory are not modelled.
