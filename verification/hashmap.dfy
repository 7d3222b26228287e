/**
 The index tier of the bootstrap compiler's hash map, `Hashmap.index_t`:
 a tagged union over three arrays of slot numbers, of which `makeindex`
 picks the narrowest one able to number every slot.
 */
module Hashmap {
  import opened Runtime

  /** Any tag value other than the three the union defines. */
  type BadTag = t: int | t != 1 && t != 2 && t != 3

  /**
   The tagged union: tag 1 holds an array of `uint8_t`, tag 2 an array of
   `uint16_t`, tag 3 an array of `int_`. A struct whose tag is anything else
   (0 after `free`, or a corrupted value) is `Unmatched`; its array is never
   reached, so the model does not keep one.
   */
  datatype Index =
    | IndexByte(arr: Ref)
    | IndexWord(arr: Ref)
    | IndexLarge(arr: Ref)
    | Unmatched(tag: BadTag)

  const ByteTag: int := 1
  const WordTag: int := 2
  const LargeTag: int := 3

  /** The value of the struct's `tag` field. */
  function Tag(idx: Index): int {
    match idx
    case IndexByte(_) => ByteTag
    case IndexWord(_) => WordTag
    case IndexLarge(_) => LargeTag
    case Unmatched(t) => t
  }

  /** The element type of the array a matched tag selects. */
  function WidthOf(idx: Index): Width
    requires !idx.Unmatched?
  {
    match idx
    case IndexByte(_) => U8
    case IndexWord(_) => U16
    case IndexLarge(_) => I64
  }

  /** The variant whose array has element type `w`. */
  function Wrap(w: Width, p: Ref): (idx: Index)
    ensures !idx.Unmatched? && idx.arr == p && WidthOf(idx) == w
  {
    match w
    case U8 => IndexByte(p)
    case U16 => IndexWord(p)
    case I64 => IndexLarge(p)
  }

  /** A matched index refers to a live array of the element type its tag names. */
  predicate Live(h: Heap, idx: Index) {
    idx.Unmatched? || (idx.arr in h.arrays && h.arrays[idx.arr].width == WidthOf(idx))
  }

  /** The cells of the array a matched index refers to. */
  function Cells(h: Heap, idx: Index): seq<int>
    requires Live(h, idx) && !idx.Unmatched?
  {
    h.arrays[idx.arr].cells
  }

  /** The element type able to number every slot `0 .. size-1` that `makeindex` uses. */
  function TierFor(size: Native): Width {
    if size <= 256 then U8
    else if size <= 65536 then U16
    else I64
  }

  /**
   `makeindex(size)`: allocates an array of `size` zero cells of the narrowest
   element type for `size` and wraps it in the matching variant. An allocation
   failure raises and leaves nothing behind.
   */
  function MakeIndex(h: Heap, size: Native, ok: bool): (r: Result<(Index, Heap)>)
    requires Valid(h) && 0 <= size
    ensures r.Ok? <==> ok
    ensures !ok ==> r == Err(OutOfMemError)
    ensures r.Ok? ==>
      var (idx, h') := r.value;
      && Valid(h') && Live(h', idx) && !idx.Unmatched?
      && (Tag(idx) == ByteTag <==> size <= 256)
      && (Tag(idx) == WordTag <==> 256 < size <= 65536)
      && (Tag(idx) == LargeTag <==> 65536 < size)
      && |Cells(h', idx)| == size
      && (forall k :: 0 <= k < size ==> Cells(h', idx)[k] == 0)
      && idx.arr !in h.arrays
      && h'.arrays.Keys == h.arrays.Keys + {idx.arr}
      && Extends(h, h')
  {
    var w := TierFor(size);
    match Alloc(h, Array(w, seq(size, _ => 0)), ok)
    case Err(e) => Err(e)
    case Ok((p, h')) => Ok((Wrap(w, p), h'))
  }

  /** `size(idx)`: the length of the array, whatever the tier. */
  function Size(h: Heap, idx: Index): (r: Result<Native>)
    requires Valid(h) && Live(h, idx)
    ensures r.Err? <==> idx.Unmatched?
    ensures r.Err? ==> r.error == NoMatchError
    ensures r.Ok? ==> r.value == |Cells(h, idx)|
  {
    match idx
    case Unmatched(_) => Err(NoMatchError)
    case _ => Ok(|h.arrays[idx.arr].cells|)
  }

  /**
   `get(idx, i)`: the bounds-checked read of cell `i`, widened to `int_`;
   a narrow cell is unsigned, so it widens without sign extension.
   */
  function Get(h: Heap, idx: Index, i: Native): (r: Result<Native>)
    requires Valid(h) && Live(h, idx)
    ensures idx.Unmatched? ==> r == Err(NoMatchError)
    ensures !idx.Unmatched? ==>
      && (r.Ok? <==> 0 <= i < |Cells(h, idx)|)
      && (r.Err? ==> r.error == OutOfRangeError)
      && (r.Ok? ==> r.value == Cells(h, idx)[i] && Fits(WidthOf(idx), r.value))
  {
    match idx
    case Unmatched(_) => Err(NoMatchError)
    case _ =>
      var a := h.arrays[idx.arr];
      if 0 <= i < |a.cells| then Ok(a.cells[i]) else Err(OutOfRangeError)
  }

  /**
   `set(idx, i, v)`: the bounds-checked write of `v`, narrowed to the cell's
   element type, into cell `i`. It changes that one cell of that one array.
   */
  function Set(h: Heap, idx: Index, i: Native, v: Native): (r: Result<Heap>)
    requires Valid(h) && Live(h, idx)
    ensures idx.Unmatched? ==> r == Err(NoMatchError)
    ensures !idx.Unmatched? ==>
      && (r.Ok? <==> 0 <= i < |Cells(h, idx)|)
      && (r.Err? ==> r.error == OutOfRangeError)
    ensures r.Ok? ==>
      var h' := r.value;
      && Valid(h') && Live(h', idx) && !idx.Unmatched?
      && h'.next == h.next
      && h'.arrays.Keys == h.arrays.Keys
      && (forall p :: p in h.arrays && p != idx.arr ==> h'.arrays[p] == h.arrays[p])
      && |Cells(h', idx)| == |Cells(h, idx)|
      && Cells(h', idx)[i] == Narrow(WidthOf(idx), v)
      && (forall k :: 0 <= k < |Cells(h, idx)| && k != i ==> Cells(h', idx)[k] == Cells(h, idx)[k])
  {
    match idx
    case Unmatched(_) => Err(NoMatchError)
    case _ =>
      var a := h.arrays[idx.arr];
      if 0 <= i < |a.cells| then
        var a' := Array(a.width, a.cells[i := Narrow(a.width, v)]);
        Ok(Heap(h.arrays[idx.arr := a'], h.next))
      else Err(OutOfRangeError)
  }

  /**
   `copy(idx)`: a new array of the same element type receives the cells one by
   one, and the result wraps it in the same variant as `idx`.
   */
  function Copy(h: Heap, idx: Index, ok: bool): (r: Result<(Index, Heap)>)
    requires Valid(h) && Live(h, idx)
    ensures idx.Unmatched? ==> r == Err(NoMatchError)
    ensures !idx.Unmatched? ==> (r.Ok? <==> ok) && (!ok ==> r == Err(OutOfMemError))
    ensures r.Ok? ==>
      var (c, h') := r.value;
      && Valid(h') && Live(h', c) && Live(h', idx) && !c.Unmatched?
      && Tag(c) == Tag(idx)
      && c.arr !in h.arrays
      && h'.arrays.Keys == h.arrays.Keys + {c.arr}
      && Cells(h', c) == Cells(h, idx)
      && Extends(h, h')
  {
    match idx
    case Unmatched(_) => Err(NoMatchError)
    case _ =>
      var a := h.arrays[idx.arr];
      match Alloc(h, Array(a.width, a.cells), ok)
      case Err(e) => Err(e)
      case Ok((p, h')) => Ok((Wrap(a.width, p), h'))
  }

  /**
   `free`: resets the tag to 0. Releasing the array's reference count is not
   modelled, so the heap is left as it is.
   */
  function Free(idx: Index): (r: Index)
    ensures Tag(r) == 0
  {
    Unmatched(0)
  }

  /** One `set` call: the cell and the value. */
  datatype Write = Write(i: Native, v: Native)

  /**
   The state a run of `set` calls leaves: the heap as it stands once the run
   ends, and whether a call raised. The array is written in place, so the
   writes made before the raising call stay in the heap.
   */
  datatype Run = Done(heap: Heap) | Raised(heap: Heap, error: Error)

  /**
   A run of `set` calls on one index, as a caller makes them; the first call
   to raise stops the rest. This composition has no function of its own in
   the source.
   */
  function SetAll(h: Heap, idx: Index, ws: seq<Write>): (r: Run)
    requires Valid(h) && Live(h, idx)
    ensures
      var h' := r.heap;
      && Valid(h') && Live(h', idx)
      && h'.arrays.Keys == h.arrays.Keys
      && (forall p :: p in h.arrays && (idx.Unmatched? || p != idx.arr) ==> h'.arrays[p] == h.arrays[p])
      && (!idx.Unmatched? ==> |Cells(h', idx)| == |Cells(h, idx)|)
    ensures idx.Unmatched? ==> r.heap == h
    decreases |ws|
  {
    if |ws| == 0 then Done(h)
    else
      match Set(h, idx, ws[0].i, ws[0].v)
      case Err(e) => Raised(h, e)
      case Ok(h1) => SetAll(h1, idx, ws[1..])
  }
}
