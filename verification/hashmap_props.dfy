/**
 Properties of the index tier that relate several operations: the choice of
 tier, reads after writes, the independence of a copy against the sharing
 done by the variant constructors, and what a freed index does.
 */
module HashmapProps {
  import opened Runtime
  import opened Hashmap

  /** Every slot number `0 .. size-1` is a value of element type `w`. */
  predicate SlotsFit(w: Width, size: nat) {
    forall j :: 0 <= j < size ==> Fits(w, j)
  }

  /**
   `makeindex` picks the narrowest element type in which every slot of the
   table can be numbered: the chosen one is wide enough, and no narrower one is.
   */
  lemma MakeIndexNarrowest(h: Heap, size: Native)
    requires Valid(h) && 0 <= size
    ensures MakeIndex(h, size, true).Ok?
    ensures var idx := MakeIndex(h, size, true).value.0;
      && SlotsFit(WidthOf(idx), size)
      && forall w :: Rank(w) < Rank(WidthOf(idx)) ==> !SlotsFit(w, size)
  {
    var idx := MakeIndex(h, size, true).value.0;
    assert WidthOf(idx) == TierFor(size);
    forall w | Rank(w) < Rank(WidthOf(idx))
      ensures !SlotsFit(w, size)
    {
      assert !Fits(w, size - 1);
    }
  }

  /** A fresh index reports the requested size and reads 0 from every cell. */
  lemma MakeIndexReadsZero(h: Heap, size: Native, j: Native)
    requires Valid(h) && 0 <= size
    ensures var r := MakeIndex(h, size, true);
      && r.Ok?
      && Size(r.value.1, r.value.0) == Ok(size)
      && (0 <= j < size ==> Get(r.value.1, r.value.0, j) == Ok(0))
      && (!(0 <= j < size) ==> Get(r.value.1, r.value.0, j) == Err(OutOfRangeError))
  {
  }

  /**
   After a successful `set(idx, i, v)` cell `i` reads `v` modulo 2^8 for the
   byte tier, modulo 2^16 for the word tier and `v` itself for the large tier;
   every other cell reads as before, and the size is unchanged.
   */
  lemma GetAfterSet(h: Heap, idx: Index, i: Native, v: Native, j: Native)
    requires Valid(h) && Live(h, idx)
    requires Set(h, idx, i, v).Ok?
    ensures var h' := Set(h, idx, i, v).value;
      && Get(h', idx, i) == Ok(match idx
                               case IndexByte(_) => v % 256
                               case IndexWord(_) => v % 65536
                               case IndexLarge(_) => v)
      && (j != i ==> Get(h', idx, j) == Get(h, idx, j))
      && Size(h', idx) == Size(h, idx)
  {
  }

  /** A read or write outside `[0, size)` raises an index error and changes nothing. */
  lemma OutOfRangeRaises(h: Heap, idx: Index, i: Native, v: Native)
    requires Valid(h) && Live(h, idx) && !idx.Unmatched?
    requires !(0 <= i < |Cells(h, idx)|)
    ensures Get(h, idx, i) == Err(OutOfRangeError)
    ensures Set(h, idx, i, v) == Err(OutOfRangeError)
  {
  }

  /**
   Storing a slot number of the table into a fresh index loses nothing: the
   tier `makeindex` picks is wide enough for every slot number.
   */
  lemma SlotNumberRoundTrip(h: Heap, size: Native, i: Native, s: Native)
    requires Valid(h) && 0 <= i < size && 0 <= s < size
    ensures var (idx, h1) := MakeIndex(h, size, true).value;
      && Set(h1, idx, i, s).Ok?
      && Get(Set(h1, idx, i, s).value, idx, i) == Ok(s)
  {
    MakeIndexNarrowest(h, size);
  }

  /**
   The value a cell holds after a sequence of writes, read from the end:
   the last write to it, narrowed, or `before` when there is none.
   */
  function LastWrite(w: Width, before: int, ws: seq<Write>, j: int): int
    decreases |ws|
  {
    if |ws| == 0 then before
    else if ws[|ws| - 1].i == j then Narrow(w, ws[|ws| - 1].v)
    else LastWrite(w, before, ws[..|ws| - 1], j)
  }

  /** Peeling the first write off the front: it only sets the starting value. */
  lemma {:induction false} LastWriteFront(w: Width, before: int, ws: seq<Write>, j: int)
    requires |ws| > 0
    ensures LastWrite(w, before, ws, j)
         == LastWrite(w, if ws[0].i == j then Narrow(w, ws[0].v) else before, ws[1..], j)
    decreases |ws|
  {
    var start := if ws[0].i == j then Narrow(w, ws[0].v) else before;
    if |ws| == 1 {
      assert ws[1..] == [];
    } else {
      var n := |ws| - 1;
      assert ws[1..][..|ws[1..]| - 1] == ws[..n][1..];
      assert ws[1..][|ws[1..]| - 1] == ws[n];
      if ws[n].i != j {
        LastWriteFront(w, before, ws[..n], j);
        assert ws[..n][0] == ws[0];
      }
    }
  }

  /** Every write of `ws` addresses a cell of an array of `len` cells. */
  predicate InBounds(ws: seq<Write>, len: int) {
    forall k :: 0 <= k < |ws| ==> 0 <= ws[k].i < len
  }

  /** The number of leading writes of `ws` that address a cell of an array of `len` cells. */
  function InBoundsPrefix(ws: seq<Write>, len: int): (n: nat)
    ensures n <= |ws|
    ensures InBounds(ws[..n], len)
    ensures n < |ws| ==> !(0 <= ws[n].i < len)
    decreases |ws|
  {
    if |ws| == 0 || !(0 <= ws[0].i < len) then 0
    else
      var m := InBoundsPrefix(ws[1..], len);
      assert ws[..m + 1][1..] == ws[1..][..m];
      m + 1
  }

  /**
   A run of `set` calls completes exactly when it is empty or the index is
   matched and every write is in bounds; otherwise it raises `NoMatchError` on
   an unmatched index, leaving the heap as it was, or `OutOfRangeError` at the
   first write out of bounds. Either way each cell then reads the last write
   made to it before the run stopped, narrowed to the tier, or its old value
   when none was.
   */
  lemma {:induction false} SetAllReads(h: Heap, idx: Index, ws: seq<Write>, j: Native)
    requires Valid(h) && Live(h, idx)
    ensures SetAll(h, idx, ws).Done? <==>
      (|ws| == 0 || (!idx.Unmatched? && InBounds(ws, |Cells(h, idx)|)))
    ensures SetAll(h, idx, ws).Raised? ==>
      SetAll(h, idx, ws).error == (if idx.Unmatched? then NoMatchError else OutOfRangeError)
    ensures !idx.Unmatched? && 0 <= j < |Cells(h, idx)| ==>
      var len := |Cells(h, idx)|;
      Get(SetAll(h, idx, ws).heap, idx, j)
        == Ok(LastWrite(WidthOf(idx), Cells(h, idx)[j], ws[..InBoundsPrefix(ws, len)], j))
    decreases |ws|
  {
    if |ws| == 0 {
    } else if idx.Unmatched? {
    } else {
      var len := |Cells(h, idx)|;
      var r := Set(h, idx, ws[0].i, ws[0].v);
      if r.Ok? {
        var h1 := r.value;
        SetAllReads(h1, idx, ws[1..], j);
        assert InBounds(ws, len) <==> InBounds(ws[1..], len) by {
          if InBounds(ws[1..], len) {
            forall k | 0 <= k < |ws|
              ensures 0 <= ws[k].i < len
            {
              if k > 0 {
                assert ws[k] == ws[1..][k - 1];
              }
            }
          }
        }
        if 0 <= j < len {
          var n := InBoundsPrefix(ws, len);
          var m := InBoundsPrefix(ws[1..], len);
          assert n == m + 1;
          assert ws[..n][1..] == ws[1..][..m];
          assert ws[..n][0] == ws[0];
          LastWriteFront(WidthOf(idx), Cells(h, idx)[j], ws[..n], j);
        }
      } else {
        assert !(0 <= ws[0].i < len);
        assert ws[..InBoundsPrefix(ws, len)] == [];
      }
    }
  }

  /**
   `copy` yields an independent array: any run of writes through the copy,
   whether it completes or raises part way, leaves every read of the original
   as it was, and any run through the original leaves every read of the copy
   equal to the original's contents at copy time.
   */
  lemma CopyIndependent(h: Heap, idx: Index, ws: seq<Write>, j: Native)
    requires Valid(h) && Live(h, idx) && Copy(h, idx, true).Ok?
    ensures var (c, h1) := Copy(h, idx, true).value;
      && Size(h1, c) == Size(h, idx)
      && Get(h1, c, j) == Get(h, idx, j)
      && Get(SetAll(h1, c, ws).heap, idx, j) == Get(h, idx, j)
      && Get(SetAll(h1, idx, ws).heap, c, j) == Get(h, idx, j)
  {
    var (c, h1) := Copy(h, idx, true).value;
    assert c.arr != idx.arr;
  }

  /**
   The variant constructors and the struct copy share the array rather than
   copy it: a write through one index is seen by every index on that array.
   */
  lemma SharedArrayWriteVisible(h: Heap, a: Index, b: Index, i: Native, v: Native)
    requires Valid(h) && Live(h, a) && Live(h, b)
    requires !a.Unmatched? && !b.Unmatched? && a.arr == b.arr
    requires Set(h, a, i, v).Ok?
    ensures Tag(b) == Tag(a)
    ensures Get(Set(h, a, i, v).value, b, i) == Ok(Narrow(WidthOf(a), v))
  {
  }

  /**
   A constructor applied to a live array of its element type gives a matched
   index of its tag whose cells are that array's cells.
   */
  lemma ConstructorsWrapArray(h: Heap, p: Ref)
    requires Valid(h) && p in h.arrays
    ensures var idx := Wrap(h.arrays[p].width, p);
      && Live(h, idx)
      && Tag(idx) == (match h.arrays[p].width case U8 => 1 case U16 => 2 case I64 => 3)
      && Cells(h, idx) == h.arrays[p].cells
  {
  }

  /** After `free` every operation that dispatches on the tag raises `NoMatchError`. */
  lemma FreedIndexRaises(h: Heap, idx: Index, i: Native, v: Native, ok: bool)
    requires Valid(h)
    ensures Live(h, Free(idx))
    ensures Size(h, Free(idx)) == Err(NoMatchError)
    ensures Get(h, Free(idx), i) == Err(NoMatchError)
    ensures Set(h, Free(idx), i, v) == Err(NoMatchError)
    ensures Copy(h, Free(idx), ok) == Err(NoMatchError)
  {
  }

  /**
   A table of 300 slots gets the word tier; 65000 is stored as is, 70000 as
   70000 - 65536 = 4464, and cell 300 is out of range.
   */
  lemma WordTierExample(h: Heap)
    requires Valid(h)
    ensures var (idx, h1) := MakeIndex(h, 300, true).value;
      && Tag(idx) == WordTag
      && Set(h1, idx, 299, 65000).Ok?
      && Get(Set(h1, idx, 299, 65000).value, idx, 299) == Ok(65000)
      && Set(h1, idx, 299, 70000).Ok?
      && Get(Set(h1, idx, 299, 70000).value, idx, 299) == Ok(4464)
      && Get(h1, idx, 300) == Err(OutOfRangeError)
  {
  }
}
