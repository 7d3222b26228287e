# Hash-map index tier of the ficus bootstrap compiler

This project models `Hashmap.index_t` from the ficus bootstrap compiler's
generated C code, and proves properties of the model in Dafny. `index_t` is
the index table under the compiler's hash map: a tagged union over three
arrays of slot numbers.

- Tag 1, `IndexByte`, holds an array of `uint8_t`.
- Tag 2, `IndexWord`, holds an array of `uint16_t`.
- Tag 3, `IndexLarge`, holds an array of native `int_`.

`makeindex(size)` picks the narrowest of these that can number every slot
and fills it with zeros. `size`, `get`, `set` and `copy` dispatch on the tag.
Each of them raises `NoMatchError` on any other tag, which is what `free`
leaves behind.

The model has three modules.

- `Runtime` (`runtime.dfy`) holds the pieces of the ficus runtime the index
  relies on. These are the 64-bit `int_` (`Native`), the exceptions
  (`OutOfRangeError`, `NoMatchError`, `OutOfMemError`), and the C casts that
  narrow an `int_` into a `uint8_t`/`uint16_t` cell (`Narrow`, a Euclidean
  residue modulo 2^8 or 2^16). It also models the runtime's arrays as a heap
  of typed cell sequences addressed by `Ref`.
- `Hashmap` (`hashmap.dfy`) holds the tagged union and its operations, as
  pure functions over a heap that return a `Result`. The union is the
  datatype `Index`. Its `Unmatched(tag)` variant carries any tag other than
  1, 2 or 3, so the `NoMatchError` path stays reachable.
- `HashmapProps` (`hashmap_props.dfy`) holds lemmas that relate several
  operations.

Arrays live in a heap rather than inside the index value. That way the
model can tell sharing from copying. The variant constructors and the
struct copy `_fx_copy_N16Hashmap__index_t` share the caller's array through
the runtime's reference counting. The struct copy is modelled as Dafny's
plain copy of an `Index` value: a matched index keeps the same `Ref`, and an
unmatched one keeps its tag. `copy` allocates a new array and copies the
cells into it.

An unknown tag raises `NoMatchError`. A bad index raises `OutOfRangeError`.
`set` truncates silently and does not range-check the value.

## Model

| member | source | states |
|---|---|---|
| `Runtime.Narrow` | compiler/bootstrap/Hashmap.c:190-202 | the stored cell value fits the element type, is congruent to the written value modulo 2^8 or 2^16 for the narrow tiers, and equals the written value whenever that already fits |
| `Runtime.Alloc` | compiler/bootstrap/Hashmap.c:84-86 | allocation succeeds exactly when the allocator does, and otherwise raises `OutOfMemError`; a new array has an address no live array had, and every existing array is left as it was |
| `Hashmap.Wrap` | compiler/bootstrap/Hashmap.c:54-70 | the variant chosen for an element type is a matched index over exactly the given array, whose element type is the one asked for |
| `Hashmap.MakeIndex` | compiler/bootstrap/Hashmap.c:72-123 | tag 1 exactly when size <= 256, tag 2 exactly when 256 < size <= 65536, tag 3 exactly when size > 65536; the array is new and is the only array added to the heap, has `size` cells and all of them are 0; a failed allocation raises `OutOfMemError` |
| `Hashmap.Size` | compiler/bootstrap/Hashmap.c:125-144 | the result is the array length of whichever tier is active; it raises `NoMatchError` exactly when the tag is not 1, 2 or 3 |
| `Hashmap.Get` | compiler/bootstrap/Hashmap.c:146-178 | an unknown tag raises `NoMatchError`; otherwise the read succeeds exactly when 0 <= i < length, and it returns cell i, which lies in the range of the tier's element type; any other index raises `OutOfRangeError` |
| `Hashmap.Set` | compiler/bootstrap/Hashmap.c:180-212 | an unknown tag raises `NoMatchError`; otherwise the write succeeds exactly when 0 <= i < length; cell i then holds the value narrowed to the tier; all other cells, all other arrays, the tag and the length are unchanged, and every cell still fits its type |
| `Hashmap.Copy` | compiler/bootstrap/Hashmap.c:214-290 | an unknown tag raises `NoMatchError`; a failed allocation raises `OutOfMemError`; otherwise the result has the same tag and the same cells, held in an array that no existing index refers to and that is the only array added to the heap; the original is unchanged |
| `Hashmap.Free` | compiler/bootstrap/Hashmap.c:24-37 | the tag becomes 0 |
| `Hashmap.SetAll` | compiler/bootstrap/Hashmap.c:180-212 | a caller's run of `set` calls, a fold written for the model with no source function of its own, that stops at the first raise and keeps the heap reached so far, writes before the raise included; the heap stays well typed, only the index's own array changes, its length is kept, and an unmatched index leaves the heap as it was |
| `HashmapProps.MakeIndexNarrowest` | compiler/bootstrap/Hashmap.c:81-116 | the element type `makeindex` picks can number every slot 0 .. size-1, and no narrower element type can |
| `HashmapProps.MakeIndexReadsZero` | compiler/bootstrap/Hashmap.c:81-116 | a new index reports the requested size; every in-range read returns 0, and every out-of-range read raises `OutOfRangeError` |
| `HashmapProps.GetAfterSet` | compiler/bootstrap/Hashmap.c:188-202 | after a successful set, cell i reads v mod 256 on the byte tier, v mod 65536 on the word tier, and v on the large tier; every other cell reads as before, and the size is unchanged |
| `HashmapProps.OutOfRangeRaises` | compiler/bootstrap/Hashmap.c:154-202 | on a matched index, both get and set with i outside [0, length) raise `OutOfRangeError` and produce no new heap |
| `HashmapProps.SlotNumberRoundTrip` | compiler/bootstrap/Hashmap.c:81-116 | storing any slot number of the table into a new index and reading it back gives that slot number unchanged |
| `HashmapProps.SetAllReads` | compiler/bootstrap/Hashmap.c:180-212 | a run of sets completes exactly when it is empty, or when the index is matched and every write is in bounds; otherwise it raises `NoMatchError` on an unmatched index and `OutOfRangeError` at the first write out of bounds; either way each cell reads its last write before the run stopped, narrowed to the tier, or its old value if nothing wrote it |
| `HashmapProps.CopyIndependent` | compiler/bootstrap/Hashmap.c:214-290 | a copy has the original's size and reads; any run of writes through the copy, completed or stopped by a raise, leaves every read of the original unchanged, and any run of writes through the original leaves every read of the copy unchanged |
| `HashmapProps.SharedArrayWriteVisible` | compiler/bootstrap/Hashmap.c:39-70 | two indices over the same array, made by a constructor or a struct copy, have the same tag; a write through one of them is read back through the other |
| `HashmapProps.ConstructorsWrapArray` | compiler/bootstrap/Hashmap.c:54-70 | `IndexByte`/`IndexWord`/`IndexLarge` applied to a live array of their element type give tag 1/2/3, and the resulting index's cells are exactly that array's cells |
| `HashmapProps.FreedIndexRaises` | compiler/bootstrap/Hashmap.c:24-37 | after `free`, each of `size`, `get`, `set` and `copy` raises `NoMatchError` |
| `HashmapProps.WordTierExample` | compiler/bootstrap/Hashmap.c:93-104 | a 300-slot table is on the word tier; writing 65000 to cell 299 reads back 65000, writing 70000 reads back 4464, and reading cell 300 raises `OutOfRangeError` |

## Left out

- Reference counting is not modelled. This covers the counting in
  `fx_copy_arr`, `fx_free_arr` and `FX_FREE_ARR`. Arrays are never
  reclaimed in the model. `free` only resets the tag, and a freed index
  never reaches its array again.
- Allocation failure is not modelled from `fx_make_arr`'s code, which is not
  part of this model. The boolean `ok` parameter of `Alloc`, `MakeIndex` and
  `Copy` decides it instead.
- `Runtime.Alloc`: the address of a new array is modelled as the heap's next
  free address. The real allocator's choice is not modelled, and only the
  address's freshness is promised.
- `Hashmap.MakeIndex`: requires size >= 0. What `fx_make_arr` does with a
  negative shape is not part of this model.
- `int_` is fixed at 64 bits. A 32-bit target would change only `NativeMin`
  and `NativeMax`.
- Stale union contents are not modelled. In `_fx_copy_N16Hashmap__index_t`,
  the default branch copies the union of an unmatched struct. Nothing ever
  reads that union, so `Unmatched` carries no array.
- `fx_init_Hashmap` and `fx_deinit_Hashmap` are left out because they are
  empty. The `Exit`/`Fail` exception payload structs are left out because
  the index operations never use them.
- The buffered file reader/writer (`file.impl.h`) and the tick clock
  (`system.impl.h`) are left out. They are libc I/O and platform clock
  queries, and they are not part of the index.
