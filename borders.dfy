/**
 * The border slots of a chest-style grid nine slots wide (`getBorders`).
 */
module Grid {

  /**
   * The `getBorders` filter for slot `i` of a grid of `size` slots: every slot
   * of a grid shorter than three rows, and otherwise the first row, the left
   * column, the right column and the last row. Java's `%` and Dafny's agree on
   * these divisibility tests, including `(i - 8) % 9 == 0` for `i < 8`.
   */
  predicate IsBorder(size: int, i: int)
  {
    size < 27 || i < 9 || i % 9 == 0 || (i - 8) % 9 == 0 || i > size - 9
  }

  /** The border slots in `[lo, size)`, in increasing order. */
  function BordersFrom(size: int, lo: nat): (r: seq<nat>)
    ensures forall k :: 0 <= k < |r| ==> lo <= r[k] < size && IsBorder(size, r[k])
    ensures forall j, k :: 0 <= j < k < |r| ==> r[j] < r[k]
    ensures forall i: nat :: lo <= i < size && IsBorder(size, i) ==> i in r
    decreases size - lo
  {
    if lo >= size then []
    else (if IsBorder(size, lo) then [lo] else []) + BordersFrom(size, lo + 1)
  }

  /**
   * `IntStream.range(0, size).filter(IsBorder).toArray()`: strictly increasing,
   * and holding exactly the border slots of `[0, size)`.
   */
  function Borders(size: int): (r: seq<nat>)
    ensures forall j, k :: 0 <= j < k < |r| ==> r[j] < r[k]
    ensures forall i: nat :: i in r <==> i < size && IsBorder(size, i)
  {
    BordersFrom(size, 0)
  }

  lemma {:induction false} SmallBordersFrom(size: int, lo: nat)
    requires size < 27 && lo <= size
    ensures |BordersFrom(size, lo)| == size - lo
    ensures forall k :: 0 <= k < size - lo ==> BordersFrom(size, lo)[k] == lo + k
    decreases size - lo
  {
    if lo < size {
      SmallBordersFrom(size, lo + 1);
    }
  }

  /** A grid of fewer than three rows is all border: `Borders(size)` is `0, 1, …, size - 1`. */
  lemma SmallGridIsAllBorder(size: int)
    requires size < 27
    ensures |Borders(size)| == if size < 0 then 0 else size
    ensures forall k :: 0 <= k < |Borders(size)| ==> Borders(size)[k] == k
  {
    if size >= 0 {
      SmallBordersFrom(size, 0);
    }
  }

  /** Slot `i` of a grid of three rows or more is an inner slot exactly when it is off every edge. */
  lemma InnerSlots(size: int, i: nat)
    requires size >= 27 && i < size
    ensures i !in Borders(size) <==> 9 <= i <= size - 9 && i % 9 != 0 && i % 9 != 8
  {
    assert (i - 8) % 9 == 0 <==> i % 9 == 8;
  }
}
