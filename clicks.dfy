/**
 * The cell pass of a click, as both container versions run it: what the
 * event's `cancelled` flag ends as and which consumers run, stated over what
 * the pass reads of each cell.
 */
module Clicks {
  import opened Host
  import opened Lists

  /** What the click pass reads of a cell: its slot, its protection flag and its consumer. */
  datatype CellView = CellView(slot: nat, cancelled: bool, consumer: Callback)

  function ViewSlot(v: CellView): nat
  {
    v.slot
  }

  /**
   * The `cancelled` flag a click on `slot` ends with, from `initial`: the
   * protection flag of the last cell on the slot when the click carries an item,
   * and `initial` when it carries none or no cell is on the slot.
   */
  function SlotCancelled(cells: seq<CellView>, slot: nat, hasCurrent: bool, initial: bool): (r: bool)
    ensures (forall k :: 0 <= k < |cells| ==> cells[k].slot != slot) || !hasCurrent ==> r == initial
    ensures r != initial ==> exists k :: 0 <= k < |cells| && cells[k].slot == slot && r == cells[k].cancelled
  {
    match LastIndex(cells, ViewSlot, slot)
    case Some(k) => if hasCurrent then cells[k].cancelled else initial
    case None => initial
  }

  /** When the click carries an item, the last cell on the slot decides the flag, whatever the cells before it say. */
  lemma LastCellDecides(cells: seq<CellView>, slot: nat, initial: bool, k: nat)
    requires k < |cells| && cells[k].slot == slot
    requires forall j :: k < j < |cells| ==> cells[j].slot != slot
    ensures SlotCancelled(cells, slot, true, initial) == cells[k].cancelled
  {
    var i := LastIndex(cells, ViewSlot, slot);
    assert i.Some? && i.value >= k;
  }

  /**
   * The invocations of the consumers of the cells on `slot`, in list order
   * (`ItemCallsInOrder` and `ItemCallsAreSlotConsumers` state which).
   */
  function ItemCalls(cells: seq<CellView>, slot: nat): (r: seq<Call>)
    ensures |r| <= |cells|
    ensures forall k :: 0 <= k < |r| ==> r[k].ItemClicked? && r[k].slot == slot
  {
    if cells == [] then []
    else
      var v := cells[|cells| - 1];
      ItemCalls(cells[..|cells| - 1], slot) + (if v.slot == slot then [ItemClicked(v.consumer, slot)] else [])
  }

  /** The positions of the cells on `slot`, in increasing order. */
  function SlotPositions(cells: seq<CellView>, slot: nat): (idx: seq<nat>)
    ensures forall k :: 0 <= k < |idx| ==> idx[k] < |cells| && cells[idx[k]].slot == slot
    ensures forall i, k :: 0 <= i < k < |idx| ==> idx[i] < idx[k]
    ensures forall j :: 0 <= j < |cells| && cells[j].slot == slot ==> j in idx
  {
    if cells == [] then []
    else
      var n := |cells| - 1;
      var front := cells[..n];
      assert forall j :: 0 <= j < n ==> front[j] == cells[j];
      SlotPositions(front, slot) + if cells[n].slot == slot then [n] else []
  }

  /**
   * The invocations are exactly the cells on `slot`, once each, in list order:
   * the `k`-th invocation is the consumer of the cell at the `k`-th of those
   * positions.
   */
  lemma {:induction false} ItemCallsInOrder(cells: seq<CellView>, slot: nat)
    ensures |ItemCalls(cells, slot)| == |SlotPositions(cells, slot)|
    ensures forall k :: 0 <= k < |SlotPositions(cells, slot)| ==>
              ItemCalls(cells, slot)[k] == ItemClicked(cells[SlotPositions(cells, slot)[k]].consumer, slot)
  {
    if cells != [] {
      var n := |cells| - 1;
      var front := cells[..n];
      ItemCallsInOrder(front, slot);
      var r0, p0 := ItemCalls(front, slot), SlotPositions(front, slot);
      assert forall k :: 0 <= k < |p0| ==> p0[k] < n && front[p0[k]] == cells[p0[k]];
      if cells[n].slot == slot {
        assert ItemCalls(cells, slot) == r0 + [ItemClicked(cells[n].consumer, slot)];
        assert SlotPositions(cells, slot) == p0 + [n];
      } else {
        assert ItemCalls(cells, slot) == r0;
        assert SlotPositions(cells, slot) == p0;
      }
    }
  }

  /**
   * Whose consumers a click runs, both ways: every invocation is that of a cell
   * on `slot`, and every cell on `slot` has its consumer run.
   */
  lemma ItemCallsAreSlotConsumers(cells: seq<CellView>, slot: nat)
    ensures forall c :: c in ItemCalls(cells, slot) ==>
              exists j :: 0 <= j < |cells| && cells[j].slot == slot && c == ItemClicked(cells[j].consumer, slot)
    ensures forall j :: 0 <= j < |cells| && cells[j].slot == slot ==> ItemClicked(cells[j].consumer, slot) in ItemCalls(cells, slot)
  {
    ItemCallsInOrder(cells, slot);
    var r, p := ItemCalls(cells, slot), SlotPositions(cells, slot);
    forall c | c in r
      ensures exists j :: 0 <= j < |cells| && cells[j].slot == slot && c == ItemClicked(cells[j].consumer, slot)
    {
      var k :| 0 <= k < |r| && r[k] == c;
      assert cells[p[k]].slot == slot && c == ItemClicked(cells[p[k]].consumer, slot);
    }
    forall j | 0 <= j < |cells| && cells[j].slot == slot
      ensures ItemClicked(cells[j].consumer, slot) in r
    {
      var k :| 0 <= k < |p| && p[k] == j;
      assert r[k] == ItemClicked(cells[j].consumer, slot);
    }
  }

  /** One more cell seen by the click pass: it counts only when it is on the slot. */
  lemma ClickStep(cells: seq<CellView>, k: nat, slot: nat, hasCurrent: bool, initial: bool)
    requires k < |cells|
    ensures LastIndex(cells[..k + 1], ViewSlot, slot).Some? <==> LastIndex(cells[..k], ViewSlot, slot).Some? || cells[k].slot == slot
    ensures SlotCancelled(cells[..k + 1], slot, hasCurrent, initial)
            == if cells[k].slot == slot && hasCurrent then cells[k].cancelled else SlotCancelled(cells[..k], slot, hasCurrent, initial)
    ensures ItemCalls(cells[..k + 1], slot)
            == ItemCalls(cells[..k], slot) + if cells[k].slot == slot then [ItemClicked(cells[k].consumer, slot)] else []
  {
    assert cells[..k + 1][..k] == cells[..k];
  }
}
