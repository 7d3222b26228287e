/**
 The parts of the ficus runtime that the hash-map index tier relies on:
 the native integer `int_`, the exceptions an index operation raises,
 the C conversions that narrow an `int_` into a smaller cell, and the
 runtime's arrays, modelled as a heap of typed cell sequences so that
 sharing an array and copying it can be told apart.
 */
module Runtime {

  /** `int_`, the native signed integer, on a 64-bit target. */
  const NativeMin: int := -0x8000_0000_0000_0000
  const NativeMax: int := 0x7fff_ffff_ffff_ffff

  type Native = x: int | NativeMin <= x <= NativeMax

  /** The exceptions the index operations can raise. */
  datatype Error = OutOfRangeError | NoMatchError | OutOfMemError

  /** An operation either returns a value or raises one of the exceptions above. */
  datatype Result<+T> = Ok(value: T) | Err(error: Error)

  /** Element types of the arrays an index can hold: `uint8_t`, `uint16_t` and `int_`. */
  datatype Width = U8 | U16 | I64

  /** The values a cell of the given element type can hold. */
  predicate Fits(w: Width, x: int) {
    match w
    case U8 => 0 <= x < 0x100
    case U16 => 0 <= x < 0x1_0000
    case I64 => NativeMin <= x <= NativeMax
  }

  /** Orders element types from the narrowest to the widest. */
  function Rank(w: Width): nat {
    match w
    case U8 => 0
    case U16 => 1
    case I64 => 2
  }

  /**
   The C cast of an `int_` to the element type, `(uint8_t)v` or `(uint16_t)v`:
   conversion to an unsigned type keeps the residue of `v` modulo 2^8 or 2^16,
   which is never negative (Dafny's `%` is Euclidean, so it agrees for negative
   `v` as well). A cast to `int_` itself changes nothing.
   */
  function Narrow(w: Width, v: Native): (r: int)
    ensures Fits(w, r)
    ensures Fits(w, v) ==> r == v
    ensures w == U8 ==> (v - r) % 0x100 == 0
    ensures w == U16 ==> (v - r) % 0x1_0000 == 0
  {
    match w
    case U8 => v % 0x100
    case U16 => v % 0x1_0000
    case I64 => v
  }

  /** A runtime array (`fx_arr_t`), identified by the address of its data. */
  type Ref = nat

  /** The contents of a one-dimensional array: its element type and its cells. */
  datatype Array = Array(width: Width, cells: seq<int>)

  /** Every cell holds a value of the element type, and the length is an `int_`. */
  predicate WellTyped(a: Array) {
    && |a.cells| <= NativeMax
    && forall k :: 0 <= k < |a.cells| ==> Fits(a.width, a.cells[k])
  }

  /** All live arrays; `next` is an address no live array uses yet. */
  datatype Heap = Heap(arrays: map<Ref, Array>, next: Ref)

  predicate Valid(h: Heap) {
    forall p :: p in h.arrays ==> p < h.next && WellTyped(h.arrays[p])
  }

  /** Every array of `h` is still live in `h'` with the same contents. */
  predicate Extends(h: Heap, h': Heap) {
    forall p :: p in h.arrays ==> p in h'.arrays && h'.arrays[p] == h.arrays[p]
  }

  /**
   `fx_make_arr` followed by the loop that fills the new array with `a`'s cells.
   Whether the allocation succeeds is outside the model, so `ok` says it.
   */
  function Alloc(h: Heap, a: Array, ok: bool): (r: Result<(Ref, Heap)>)
    requires Valid(h) && WellTyped(a)
    ensures r.Ok? <==> ok
    ensures !ok ==> r == Err(OutOfMemError)
    ensures r.Ok? ==>
      && r.value.0 !in h.arrays
      && r.value.1.arrays == h.arrays[r.value.0 := a]
      && Valid(r.value.1)
      && Extends(h, r.value.1)
  {
    if ok then Ok((h.next, Heap(h.arrays[h.next := a], h.next + 1)))
    else Err(OutOfMemError)
  }
}
