/**
 * `fr.bakaaless.api.inventory.InventoryAPI` and its refresh `Scheduler`: a
 * container that is configured through guarded setters, holds a list of cells,
 * materialises a host surface on `build`, routes the host's close, click, drag
 * and move events, and is repainted by the scheduler every other tick while it
 * is registered there.
 */
module ApiInventory {
  import opened Host
  import opened Events
  import opened Lists
  import opened Clicks
  import opened Grid
  import opened ApiItem

  /**
   * The `setSize` guard. It tests the size already stored, not the requested
   * one; Java's `%` agrees with Dafny's here since non-positive sizes are
   * refused before it is applied.
   */
  predicate SizeAccepted(current: int)
  {
    0 < current && current % 9 == 0 && current < 54
  }

  /** The size `setSize(requested)` leaves behind. */
  function NextSize(build: bool, current: int, requested: int): int
  {
    if !build && SizeAccepted(current) then requested else current
  }

  /** `setSize` never looks at the requested value: any value is taken while the stored one is acceptable. */
  lemma RequestedSizeUnchecked(current: int, requested: int)
    requires SizeAccepted(current)
    ensures NextSize(false, current, requested) == requested
  {
  }

  /** Once an unacceptable size is stored, every later `setSize` is refused, whatever it asks for. */
  lemma SizeLocksAfterBadValue(build: bool, current: int, requested: int)
    requires !SizeAccepted(current)
    ensures NextSize(build, current, requested) == current
  {
  }

  /** The slot count of the surface `generate()` asks the host for: the type's capacity, or else the size. */
  function Capacity(inventoryType: Option<InventoryType>, size: int): nat
    requires inventoryType.None? ==> size >= 0
  {
    if inventoryType.Some? then inventoryType.value.capacity else size
  }

  /** `n` invocations of the refresh function, or none when there is no refresh function. */
  function PopulateCalls(populate: Option<Callback>, n: nat): seq<Call>
  {
    match populate
    case None => []
    case Some(p) => Repeat(Populate(p), n)
  }

  /** The invocation of the close consumer, which may be null. */
  function CloseCalls(consumer: Option<Callback>): seq<Call>
  {
    match consumer
    case None => []
    case Some(c) => [Closed(c)]
  }

  /** The invocation of the click consumer, which may be null. */
  function ClickCalls(consumer: Option<Callback>): seq<Call>
  {
    match consumer
    case None => []
    case Some(c) => [Clicked(c)]
  }

  /**
   * The `setItem` calls of `build`, one per cell in list order: the cell's
   * `getItem()` after `refresh(container)`. The calls for cells beyond the
   * surface are skipped when they are painted.
   */
  function BuildWrites(items: seq<ItemAPI>, container: Argument): (r: seq<(nat, ItemStack)>)
    reads items
    ensures |r| == |items|
    ensures forall k :: 0 <= k < |items| ==>
              r[k] == (items[k].slot, Shown(items[k].generator, Refreshed(items[k].generator, items[k].item, container), items[k].Self()))
  {
    seq(|items|, k reads items requires 0 <= k < |items| =>
      (items[k].slot, Shown(items[k].generator, Refreshed(items[k].generator, items[k].item, container), items[k].Self())))
  }

  /**
   * The `setItem` calls of the scheduler's paint tick, one per cell in list
   * order: what the cell's `getItem()` returns while its stored stack is
   * `stacks(it)`.
   */
  function RenderWrites(items: seq<ItemAPI>, stacks: ItemAPI -> Option<ItemStack>): (r: seq<(nat, ItemStack)>)
    reads items`generator
    ensures |r| == |items|
  {
    if items == [] then []
    else
      var it := items[|items| - 1];
      RenderWrites(items[..|items| - 1], stacks) + [(it.slot, Shown(it.generator, stacks(it), it.Self()))]
  }

  /** The paint write of the cell at position `k`. */
  lemma {:induction false} RenderWritesAt(items: seq<ItemAPI>, stacks: ItemAPI -> Option<ItemStack>, k: nat)
    requires k < |items|
    ensures RenderWrites(items, stacks)[k] == (items[k].slot, Shown(items[k].generator, stacks(items[k]), items[k].Self()))
  {
    if k < |items| - 1 {
      RenderWritesAt(items[..|items| - 1], stacks, k);
    }
  }

  /** The length of the longest prefix of `s` whose slots lie below `n`. */
  function FittingCells(s: seq<ItemAPI>, n: nat): (f: nat)
    ensures f <= |s|
    ensures forall k :: 0 <= k < f ==> s[k].slot < n
    ensures f < |s| ==> s[f].slot >= n
  {
    if s == [] || s[0].slot >= n then 0 else 1 + FittingCells(s[1..], n)
  }

  /**
   * A surface of `n` slots after the paint tick's cell loop: cleared, then
   * painted with the cells' writes up to the first cell whose slot lies
   * beyond it.
   */
  function PaintTick(items: seq<ItemAPI>, n: nat, stacks: ItemAPI -> Option<ItemStack>): seq<Option<ItemStack>>
    reads items`generator
  {
    Painted(Blank(n), RenderWrites(items, stacks)[..FittingCells(items, n)])
  }

  /** What the click pass reads of each cell, in list order. */
  function Views(items: seq<ItemAPI>): (r: seq<CellView>)
    reads items
    ensures |r| == |items|
    ensures forall k :: 0 <= k < |items| ==> r[k] == CellView(items[k].slot, items[k].cancelled, items[k].consumer)
  {
    seq(|items|, k reads items requires 0 <= k < |items| => CellView(items[k].slot, items[k].cancelled, items[k].consumer))
  }

  /** What a new cell holds: a static stack, or a generator (both may be null). */
  datatype Content = StackContent(stack: Option<ItemStack>) | GeneratorContent(generator: Option<Generator>)

  class InventoryAPI {
    var inventory: Option<Surface>          // the materialised surface, null until `build`
    var size: int
    var title: string
    var inventoryType: Option<InventoryType>
    var items: seq<ItemAPI>
    var populate: Option<Callback>          // the refresh function (`function`)
    var closeEvent: Option<Callback>
    var clickEvent: Option<Callback>
    var interactionCancel: bool
    var refreshed: bool
    var build: bool
    var listening: bool                     // registered with the host's event dispatcher
    ghost var log: seq<Call>                // the user and host code invoked, in order

    /** A surface is only ever held while built, and the container listens for events exactly while it holds one. */
    predicate Valid()
      reads this
    {
      (inventory.Some? ==> build) && listening == inventory.Some?
    }

    /** `create(plugin)`. */
    constructor ()
      ensures Valid()
      ensures inventory == None && size == 9 && title == "" && inventoryType == None && items == []
      ensures populate == None && closeEvent == None && clickEvent == None
      ensures !interactionCancel && !refreshed && !build && !listening && log == []
    {
      inventory := None;
      size := 9;
      title := "";
      inventoryType := None;
      items := [];
      populate := None;
      closeEvent := None;
      clickEvent := None;
      interactionCancel := false;
      refreshed := false;
      build := false;
      listening := false;
      log := [];
    }

    /** `setSize`: refused once built, and refused while the stored size is outside 9, 18, …, 45. */
    method SetSize(s: int)
      requires Valid()
      modifies `size
      ensures Valid()
      ensures size == NextSize(build, old(size), s)
    {
      if build {
        return;
      }
      if !SizeAccepted(size) {
        return;
      }
      if inventory.Some? && size != s {
        assert false;   // a held surface implies `build`
      }
      size := s;
    }

    /** `setTitle`: refused once built. */
    method SetTitle(t: string)
      requires Valid()
      modifies `title
      ensures Valid()
      ensures title == if old(build) then old(title) else t
    {
      if build {
        return;
      }
      if inventory.Some? && title != t {
        assert false;   // a held surface implies `build`
      }
      title := t;
    }

    /** `setType`: refused once built. */
    method SetType(t: Option<InventoryType>)
      requires Valid()
      modifies `inventoryType
      ensures Valid()
      ensures inventoryType == if old(build) then old(inventoryType) else t
    {
      if build {
        return;
      }
      if inventory.Some? {
        assert false;   // a held surface implies `build`
      }
      inventoryType := t;
    }

    /** `setRefresh`: refused once built. */
    method SetRefresh(r: bool)
      modifies `refreshed
      ensures refreshed == if build then old(refreshed) else r
    {
      if !build {
        refreshed := r;
      }
    }

    /** `setFunction`: refused once built. */
    method SetPopulate(p: Option<Callback>)
      modifies `populate
      ensures populate == if build then old(populate) else p
    {
      if !build {
        populate := p;
      }
    }

    /** `setCloseFunction`: not guarded. */
    method SetCloseFunction(c: Option<Callback>)
      modifies `closeEvent
      ensures closeEvent == c
    {
      closeEvent := c;
    }

    /** `setClickFunction`: not guarded. */
    method SetClickFunction(c: Option<Callback>)
      modifies `clickEvent
      ensures clickEvent == c
    {
      clickEvent := c;
    }

    /** `setInteractionCancelled`: not guarded. */
    method SetInteractionCancelled(b: bool)
      modifies `interactionCancel
      ensures interactionCancel == b
    {
      interactionCancel := b;
    }

    /** `clearSlot(slot)`: the iterator loop, which never inspects the last cell. */
    method ClearSlot(slot: nat)
      modifies `items
      ensures items == Cleared(old(items), SlotOf, slot)
    {
      items := IterateClear(items, SlotOf, slot);
    }

    /** `getItem(slot)`: the first cell on `slot`, if any. */
    function GetItem(slot: nat): (r: Option<ItemAPI>)
      reads this
      ensures r.None? <==> forall k :: 0 <= k < |items| ==> items[k].slot != slot
      ensures r.Some? ==> r.value in items && r.value.slot == slot
      ensures r.Some? ==> exists k :: 0 <= k < |items| && items[k] == r.value
                                      && forall j :: 0 <= j < k ==> items[j].slot != slot
    {
      FirstWithSlot(items, SlotOf, slot)
    }

    /** `addItem(itemAPI)`: `clearSlot` on the cell's slot, then append the cell. */
    method AddItem(it: ItemAPI)
      modifies `items
      ensures items == Cleared(old(items), SlotOf, it.slot) + [it]
    {
      ClearSlot(it.slot);
      items := items + [it];
    }

    /**
     * The `addItem(slot, …)` overloads: a new cell object added with
     * `addItem(itemAPI)`. The short overloads pass `cancelled = true` and the
     * empty consumer `NoOp`.
     */
    method AddNew(slot: nat, content: Content, cancelled: bool, consumer: Callback)
      returns (ghost cell: ItemAPI)
      modifies `items
      ensures fresh(cell) && cell.slot == slot && Holds(cell, content, cancelled, consumer)
      ensures items == Cleared(old(items), SlotOf, slot) + [cell]
    {
      var c := NewCell(slot, content, cancelled, consumer);
      AddItem(c);
      cell := c;
    }

    /** One step of `setBorder`: `AddNew`, stated as extending a run of adds. */
    method AddNext(ghost prior: seq<ItemAPI>, ghost added: seq<ItemAPI>, slot: nat, content: Content, cancelled: bool, consumer: Callback)
      returns (ghost cell: ItemAPI)
      requires items == AddAll(prior, added, SlotOf)
      modifies `items
      ensures fresh(cell) && cell.slot == slot && Holds(cell, content, cancelled, consumer)
      ensures items == AddAll(prior, added + [cell], SlotOf)
    {
      cell := AddNew(slot, content, cancelled, consumer);
      AddAllStep(prior, added, cell, SlotOf);
    }

    /**
     * The loop of `setBorder(…)`: one new cell per slot of `slots`, in order,
     * each added with `addItem`; every new cell is a distinct new object.
     */
    method AddRun(slots: seq<nat>, content: Content, cancelled: bool, consumer: Callback)
      returns (ghost added: seq<ItemAPI>)
      modifies `items
      ensures |added| == |slots|
      ensures forall k :: 0 <= k < |added| ==> added[k].slot == slots[k]
      ensures forall j, k :: 0 <= j < k < |added| ==> added[j] != added[k]
      ensures forall c :: c in added ==> fresh(c) && Holds(c, content, cancelled, consumer)
      ensures items == AddAll(old(items), added, SlotOf)
    {
      added := [];
      for k := 0 to |slots|
        invariant |added| == k
        invariant forall j :: 0 <= j < k ==> added[j].slot == slots[j]
        invariant forall i, j :: 0 <= i < j < k ==> added[i] != added[j]
        invariant forall c :: c in added ==> fresh(c) && Holds(c, content, cancelled, consumer)
        invariant items == AddAll(old(items), added, SlotOf)
      {
        ghost var c := AddNext(old(items), added, slots[k], content, cancelled, consumer);
        added := added + [c];
      }
    }

    /**
     * `setBorder(…)`: a new cell on every border slot of the configured size, in
     * increasing slot order. Since border slots are distinct, the new cells end
     * the list in that order, after whatever of the old list they did not replace.
     */
    method SetBorder(content: Content, cancelled: bool, consumer: Callback)
      returns (ghost added: seq<ItemAPI>)
      modifies `items
      ensures |added| == |Borders(size)|
      ensures forall k :: 0 <= k < |added| ==> added[k].slot == Borders(size)[k]
      ensures forall c :: c in added ==> fresh(c) && Holds(c, content, cancelled, consumer)
      ensures items == AddAll(old(items), added, SlotOf)
      ensures EndsWith(items, added)
    {
      added := AddRun(Borders(size), content, cancelled, consumer);
      assert DistinctSlots(added, SlotOf);
      AddAllEndsWithAdded(old(items), added, SlotOf);
    }

    /**
     * `build(player)`. The first call creates the surface (identity `surfaceId`
     * from the host), runs the refresh function, paints every cell whose slot
     * fits (after `refresh(this)`), opens the surface for `viewer`, registers
     * with `sched` when refreshing is on, and starts listening. A later call
     * only reruns the refresh function and repaints over the current slots.
     */
    method Build(viewer: Viewer, surfaceId: SurfaceId, sched: Scheduler)
      requires Valid() && sched.Valid()
      requires inventory.None? && inventoryType.None? ==> size >= 0
      modifies `build, `inventory, `listening, `log, items`item
      modifies sched`inventories, sched`isRunning, sched`step
      ensures Valid() && sched.Valid() && build
      ensures var n := if old(inventory).Some? then |old(inventory).value.slots| else Capacity(inventoryType, size);
              var base := if old(inventory).Some? then old(inventory).value.slots else Blank(n);
              var sid := if old(inventory).Some? then old(inventory).value.id else surfaceId;
              inventory == Some(Surface(sid, Painted(base, old(BuildWrites(items, Handed(this))))))
              && forall it :: it in items ==>
                   it.item == if it.slot < n then old(Settled(it.generator, it.item, Handed(this), it.Self())) else old(it.item)
      ensures log == old(log) + PopulateCalls(populate, 1) + (if old(inventory).None? then [Opened(viewer)] else [])
      ensures old(inventory).None? && refreshed ==> sched.Added(old(sched.inventories), old(sched.isRunning), old(sched.step), this)
      ensures old(inventory).Some? || !refreshed ==>
                sched.inventories == old(sched.inventories) && sched.isRunning == old(sched.isRunning) && sched.step == old(sched.step)
    {
      build := true;
      if inventory.None? {
        Open(viewer, surfaceId, sched);
      } else {
        Repaint();
      }
    }

    /** The first `build`: create the surface, paint it, open it, register with the scheduler and start listening. */
    method Open(viewer: Viewer, surfaceId: SurfaceId, sched: Scheduler)
      requires inventory.None? && sched.Valid()
      requires inventoryType.None? ==> size >= 0
      modifies `inventory, `listening, `log, items`item
      modifies sched`inventories, sched`isRunning, sched`step
      ensures sched.Valid() && listening
      ensures var n := Capacity(inventoryType, size);
              inventory == Some(Surface(surfaceId, Painted(Blank(n), old(BuildWrites(items, Handed(this))))))
              && forall it :: it in items ==>
                   it.item == if it.slot < n then old(Settled(it.generator, it.item, Handed(this), it.Self())) else old(it.item)
      ensures log == old(log) + PopulateCalls(populate, 1) + [Opened(viewer)]
      ensures refreshed ==> sched.Added(old(sched.inventories), old(sched.isRunning), old(sched.step), this)
      ensures !refreshed ==>
                sched.inventories == old(sched.inventories) && sched.isRunning == old(sched.isRunning) && sched.step == old(sched.step)
    {
      inventory := Some(Surface(surfaceId, Blank(Capacity(inventoryType, size))));
      Repaint();
      log := log + [Opened(viewer)];
      if refreshed {
        sched.Add(this);
      }
      listening := true;
    }

    /** The part of `build` both branches share: run the refresh function, then the cell loop over the surface. */
    method Repaint()
      requires inventory.Some?
      modifies `inventory, `log, items`item
      ensures inventory == Some(Surface(old(inventory).value.id, Painted(old(inventory).value.slots, old(BuildWrites(items, Handed(this))))))
      ensures forall it :: it in items ==>
                it.item == if it.slot < |old(inventory).value.slots| then old(Settled(it.generator, it.item, Handed(this), it.Self())) else old(it.item)
      ensures log == old(log) + PopulateCalls(populate, 1)
    {
      log := log + PopulateCalls(populate, 1);
      var slots := PaintForBuild(inventory.value.slots);
      inventory := Some(inventory.value.(slots := slots));
    }

    /**
     * One pass of the cell loop of `build`: a cell whose slot fits is refreshed
     * with the container and painted with `getItem()`. The cell holds `orig`, or,
     * when it was already painted by an earlier pass, what that pass left.
     */
    static method PaintCell(it: ItemAPI, me: Argument, slots0: seq<Option<ItemStack>>, ghost orig: Option<ItemStack>)
      returns (slots: seq<Option<ItemStack>>)
      requires it.item == orig || (it.slot < |slots0| && it.item == Settled(it.generator, orig, me, it.Self()))
      modifies it`item
      ensures slots == if it.slot < |slots0| then slots0[it.slot := Some(Shown(it.generator, Refreshed(it.generator, orig, me), it.Self()))] else slots0
      ensures it.item == if it.slot < |slots0| then Settled(it.generator, orig, me, it.Self()) else orig
    {
      SettledStable(it.generator, orig, me, it.Self());
      slots := slots0;
      if it.slot < |slots| {
        it.Refresh(me);
        var v := it.GetItem();
        slots := slots[it.slot := Some(v)];
      }
    }

    /** The cell loop of `build`: `refresh(this)` and `setItem(slot, getItem())` for each cell whose slot fits. */
    method PaintForBuild(slots0: seq<Option<ItemStack>>) returns (slots: seq<Option<ItemStack>>)
      modifies items`item
      ensures slots == Painted(slots0, old(BuildWrites(items, Handed(this))))
      ensures forall it :: it in items ==>
                it.item == if it.slot < |slots0| then old(Settled(it.generator, it.item, Handed(this), it.Self())) else old(it.item)
    {
      var me := Handed(this);
      ghost var writes := BuildWrites(items, me);
      ghost var pre := PaintedByPrefix(slots0, writes);
      ghost var done: set<ItemAPI> := {};
      slots := slots0;
      for k := 0 to |items|
        invariant slots == pre[k]
        invariant forall j :: 0 <= j < k ==> items[j] in done
        invariant forall it :: it in items ==>
                    it.item == if it in done && it.slot < |slots0| then old(Settled(it.generator, it.item, me, it.Self())) else old(it.item)
      {
        var it := items[k];
        label before:
        slots := PaintCell(it, me, slots, old(it.item));
        done := done + {it};
        forall x | x in items
          ensures x.item == if x in done && x.slot < |slots0| then old(Settled(x.generator, x.item, me, x.Self())) else old(x.item)
        {
          if x != it {
            assert x.item == old@before(x.item);
          }
        }
      }
    }

    /** The surface exists and every cell's slot lies on it, so no `setItem` of the paint tick throws. */
    predicate Renderable()
      reads this
    {
      Fits(items, inventory)
    }

    /** `getItem()` on a cell that holds `orig`, or what an earlier `getItem()` left of it. */
    static method ShowCell(it: ItemAPI, ghost orig: Option<ItemStack>) returns (v: ItemStack)
      requires it.item == orig || it.item == Filled(it.generator, orig, it.Self())
      modifies it`item
      ensures v == Shown(it.generator, orig, it.Self())
      ensures it.item == Filled(it.generator, orig, it.Self())
    {
      GetItemStable(it.generator, orig, it.Self());
      v := it.GetItem();
    }

    /**
     * The scheduler's paint tick for this container: `getInventory().clear()`,
     * the refresh function, then `setItem(slot, getItem())` for each cell in
     * order. A missing surface makes the first call throw, and a slot beyond the
     * surface makes `setItem` throw once that cell's `getItem()` has run; `ok`
     * is false then, and the surface keeps the writes made before. `stacks` is
     * what each cell held when the tick began; a cell an earlier container of
     * the same tick has already read holds the filled version of it.
     */
    method Render(ghost stacks: ItemAPI -> Option<ItemStack>) returns (ok: bool)
        requires forall it :: it in items ==> it.item == stacks(it) || it.item == Filled(it.generator, stacks(it), it.Self())
      modifies `inventory, `log, items`item
      ensures ok <==> old(Renderable())
      ensures old(inventory).None? ==> inventory == old(inventory) && log == old(log)
      ensures old(inventory).Some? ==>
                var n := |old(inventory).value.slots|;
                inventory == Some(Surface(old(inventory).value.id, PaintTick(items, n, stacks)))
                && log == old(log) + PopulateCalls(populate, 1)
      ensures forall it :: it in items ==> it.item == old(it.item) || it.item == Filled(it.generator, stacks(it), it.Self())
      ensures ok ==> forall it :: it in items ==> it.item == Filled(it.generator, stacks(it), it.Self())
    {
      if inventory.None? {
        return false;
      }
      var n := |inventory.value.slots|;
      inventory := Some(inventory.value.(slots := Blank(n)));
      log := log + PopulateCalls(populate, 1);
      var slots;
      slots, ok := PaintCells(n, stacks);
      inventory := Some(inventory.value.(slots := slots));
    }

    /**
     * The cell loop of the paint tick over a cleared surface of `n` slots: it
     * stops at the first cell whose slot lies beyond the surface, after that
     * cell's `getItem()`.
     */
    method PaintCells(n: nat, ghost stacks: ItemAPI -> Option<ItemStack>) returns (slots: seq<Option<ItemStack>>, ok: bool)
        requires forall it :: it in items ==> it.item == stacks(it) || it.item == Filled(it.generator, stacks(it), it.Self())
      modifies items`item
      ensures ok <==> forall it :: it in items ==> it.slot < n
      ensures slots == PaintTick(items, n, stacks)
      ensures forall it :: it in items ==> it.item == old(it.item) || it.item == Filled(it.generator, stacks(it), it.Self())
      ensures ok ==> forall it :: it in items ==> it.item == Filled(it.generator, stacks(it), it.Self())
    {
      var k;
      ghost var done;
      slots, k, done := PaintPrefix(n, stacks);
      ok := k == |items|;
      if !ok {
        // the `getItem()` whose `setItem` then throws
        var _ := ShowCell(items[k], stacks(items[k]));
      }
    }

    /** The cells of the paint tick whose `setItem` succeeds: the longest prefix whose slots fit. */
    method PaintPrefix(n: nat, ghost stacks: ItemAPI -> Option<ItemStack>)
      returns (slots: seq<Option<ItemStack>>, k: nat, ghost done: set<ItemAPI>)
        requires forall it :: it in items ==> it.item == stacks(it) || it.item == Filled(it.generator, stacks(it), it.Self())
      modifies items`item
      ensures k == FittingCells(items, n)
      ensures slots == PaintTick(items, n, stacks)
      ensures forall j :: 0 <= j < k ==> items[j] in done
      ensures forall it :: it in items ==> it.item == if it in done then Filled(it.generator, stacks(it), it.Self()) else old(it.item)
    {
      slots := Blank(n);
      ghost var writes := RenderWrites(items, stacks);
      done := {};
      k := FittingCells(items, n);
      for i := 0 to k
        invariant forall j :: 0 <= j < i ==> items[j] in done
        invariant slots == Painted(Blank(n), writes[..i])
        invariant forall it :: it in items ==> it.item == if it in done then Filled(it.generator, stacks(it), it.Self()) else old(it.item)
      {
        var it := items[i];
        assert writes[i] == (it.slot, Shown(it.generator, stacks(it), it.Self())) by {
          RenderWritesAt(items, stacks, i);
        }
        var v := ShowCell(it, stacks(it));
        done := done + {it};
        assert Painted(Blank(n), writes[..i + 1]) == slots[it.slot := Some(v)] by {
          assert writes[..i + 1] == writes[..i] + [(it.slot, v)];
          PaintedSnoc(Blank(n), writes[..i], (it.slot, v));
        }
        slots := slots[it.slot := Some(v)];
      }
    }

    /** The scheduler's refresh tick for this container: `refresh(this)` on each cell in order. */
    method RefreshCells()
      modifies items`item
      ensures forall it :: it in items ==> it.item == Refreshed(it.generator, old(it.item), Handed(this))
    {
      ghost var done: set<ItemAPI> := {};
      for k := 0 to |items|
        invariant forall j :: 0 <= j < k ==> items[j] in done
        invariant forall it :: it in items ==>
                    it.item == if it in done then Refreshed(it.generator, old(it.item), Handed(this)) else old(it.item)
      {
        var it := items[k];
        it.Refresh(Handed(this));
        done := done + {it};
      }
    }

    /** `stop()`: stop listening, leave the scheduler when refreshing is on, drop the surface and the built flag. */
    method Stop(sched: Scheduler)
      requires sched.Valid()
      modifies `listening, `inventory, `build, sched`inventories, sched`isRunning
      ensures Valid() && sched.Valid()
      ensures inventory == None && !build && !listening
      ensures refreshed ==> sched.Removed(old(sched.inventories), old(sched.isRunning), this)
      ensures !refreshed ==> sched.inventories == old(sched.inventories) && sched.isRunning == old(sched.isRunning)
    {
      listening := false;
      if refreshed {
        sched.Remove(this);
      }
      inventory := None;
      build := false;
    }

    /**
     * `onClose(e)`: the container closes (close consumer, then `stop()`) when
     * the view's top surface is its own, or else when the event's surface is
     * its own and has no holder; at most once per event.
     */
    method OnClose(e: CloseEvent, sched: Scheduler)
      requires Valid() && sched.Valid()
      modifies `listening, `inventory, `build, `log, sched`inventories, sched`isRunning
      ensures Valid() && sched.Valid()
      ensures var closes := Targets(old(inventory), e.top) || (Targets(old(inventory), e.inventory) && e.holderIsNull);
              if closes then
                inventory == None && !build && !listening && log == old(log) + CloseCalls(closeEvent)
                && (refreshed ==> sched.Removed(old(sched.inventories), old(sched.isRunning), this))
                && (!refreshed ==> sched.inventories == old(sched.inventories) && sched.isRunning == old(sched.isRunning))
              else
                inventory == old(inventory) && build == old(build) && listening == old(listening) && log == old(log)
                && sched.inventories == old(sched.inventories) && sched.isRunning == old(sched.isRunning)
    {
      if Targets(inventory, e.top) {
        log := log + CloseCalls(closeEvent);
        Stop(sched);
      }
      if !Targets(inventory, e.inventory) {
        return;
      }
      if e.holderIsNull {
        log := log + CloseCalls(closeEvent);
        Stop(sched);
      }
    }

    /**
     * The cell pass of `onInteract`: every cell on `slot` marks the slot as
     * registered and, when the event has a current item, sets the event's
     * `cancelled` to its own flag and runs its consumer.
     */
    method ClickCells(slot: nat, hasCurrent: bool, initial: bool) returns (cancelled: bool, calls: seq<Call>, registered: bool)
      ensures registered <==> exists k :: 0 <= k < |items| && items[k].slot == slot
      ensures cancelled == SlotCancelled(Views(items), slot, hasCurrent, initial)
      ensures calls == if hasCurrent then ItemCalls(Views(items), slot) else []
    {
      cancelled, calls, registered := initial, [], false;
      for k := 0 to |items|
        invariant registered == LastIndex(Views(items)[..k], ViewSlot, slot).Some?
        invariant cancelled == SlotCancelled(Views(items)[..k], slot, hasCurrent, initial)
        invariant calls == if hasCurrent then ItemCalls(Views(items)[..k], slot) else []
      {
        var it := items[k];
        ClickStep(Views(items), k, slot, hasCurrent, initial);
        if it.slot == slot {
          registered := true;
          if hasCurrent {
            cancelled := it.cancelled;
            calls := calls + [ItemClicked(it.consumer, slot)];
          }
        }
      }
      assert Views(items)[..|items|] == Views(items);
    }

    /**
     * `onInteract(e)`, returning the event as the handler leaves it. The click
     * consumer runs when the view's top surface is this container's. When the
     * clicked surface is this container's, `cancelled` starts from the
     * container's protection flag and the cells on the slot take over; a slot
     * no cell is on is reconciled with what the surface shows there: left as is
     * when empty or AIR, otherwise adopted as a new unprotected static cell
     * with the empty consumer.
     */
    method OnInteract(e: ClickEvent) returns (r: ClickEvent, ghost adopted: Option<ItemAPI>)
      requires Valid()
      modifies `log, `items
      ensures Valid()
      ensures var top := e.top.Some? && Targets(inventory, e.top.value);
              var acts := e.top.Some? && e.clicked.Some? && Targets(inventory, e.clicked.value);
              log == old(log) + (if top then ClickCalls(clickEvent) else [])
                              + (if acts && e.current.Some? then ItemCalls(Views(old(items)), e.slot) else [])
      ensures !(e.top.Some? && e.clicked.Some? && Targets(inventory, e.clicked.value)) ==>
                r == e && items == old(items) && adopted == None
      ensures e.top.Some? && e.clicked.Some? && Targets(inventory, e.clicked.value) ==>
                r == e.(cancelled := SlotCancelled(Views(old(items)), e.slot, e.current.Some?, interactionCancel))
                && Adopted(old(items), e.slot, e.shown, adopted)
    {
      r, adopted := e, None;
      if e.top.None? {
        return;
      }
      if Targets(inventory, e.top.value) {
        log := log + ClickCalls(clickEvent);
      }
      if e.clicked.None? || !Targets(inventory, e.clicked.value) {
        return;
      }
      r, adopted := ClickHere(e);
    }

    /**
     * The part of `onInteract` for a click on this container's surface: the
     * protection flag, the cells' consumers, and the reconciliation of a slot
     * no cell is on.
     */
    method ClickHere(e: ClickEvent) returns (r: ClickEvent, ghost adopted: Option<ItemAPI>)
      modifies `log, `items
      ensures log == old(log) + (if e.current.Some? then ItemCalls(Views(old(items)), e.slot) else [])
      ensures r == e.(cancelled := SlotCancelled(Views(old(items)), e.slot, e.current.Some?, interactionCancel))
      ensures Adopted(old(items), e.slot, e.shown, adopted)
    {
      var cancelled, calls, registered := ClickCells(e.slot, e.current.Some?, interactionCancel);
      log := log + calls;
      r := e.(cancelled := cancelled);
      adopted := None;
      if !registered {
        adopted := Reconcile(e.slot, e.shown);
      }
    }

    /**
     * How a click on this container's surface leaves the cell list: a new cell
     * is adopted exactly when no cell is on the slot and the surface shows a
     * stack other than AIR there; otherwise nothing changes.
     */
    twostate predicate Adopted(items0: seq<ItemAPI>, slot: nat, shown: Option<ItemStack>, new adopted: Option<ItemAPI>)
      reads this, if adopted.Some? then {adopted.value} else {}
    {
      && (adopted.Some? <==> (forall k :: 0 <= k < |items0| ==> items0[k].slot != slot) && shown.Some? && shown != Some(Air))
      && (adopted.None? ==> items == items0)
      && (adopted.Some? ==> fresh(adopted.value) && items == items0 + [adopted.value])
      && (adopted.Some? ==> adopted.value.slot == slot)
      && (adopted.Some? ==> Holds(adopted.value, StackContent(shown), false, NoOp))
    }

    /**
     * The end of `onInteract` for a slot no cell is on: an empty or AIR slot is
     * cleared (which changes nothing, as no cell is on it), and any other stack
     * the surface shows there is adopted as a new unprotected static cell with
     * the empty consumer.
     */
    method Reconcile(slot: nat, shown: Option<ItemStack>) returns (ghost adopted: Option<ItemAPI>)
      requires forall k :: 0 <= k < |items| ==> items[k].slot != slot
      modifies `items
      ensures adopted.None? <==> shown.None? || shown == Some(Air)
      ensures adopted.None? ==> items == old(items)
      ensures adopted.Some? ==>
                fresh(adopted.value) && items == old(items) + [adopted.value]
                && adopted.value.slot == slot
                && Holds(adopted.value, StackContent(shown), false, NoOp)
    {
      ClearedUnowned(items, SlotOf, slot);
      if shown.None? || shown == Some(Air) {
        ClearSlot(slot);
        adopted := None;
      } else {
        var c := AddNew(slot, StackContent(shown), false, NoOp);
        adopted := Some(c);
      }
    }

    /**
     * `onMove(e)`: when the source is this container's surface and so is the
     * initiator or the destination, `cancelled` becomes the protection flag.
     */
    function OnMove(e: MoveEvent): (r: MoveEvent)
      reads this
      ensures r.source == e.source && r.initiator == e.initiator && r.destination == e.destination
      ensures Targets(inventory, e.source) && (Targets(inventory, e.initiator) || Targets(inventory, e.destination))
              ==> r.cancelled == interactionCancel
      ensures !(Targets(inventory, e.source) && (Targets(inventory, e.initiator) || Targets(inventory, e.destination)))
              ==> r == e
    {
      if !Targets(inventory, e.source) || (!Targets(inventory, e.initiator) && !Targets(inventory, e.destination)) then e
      else e.(cancelled := interactionCancel)
    }

    /**
     * `onDrag(e)`: on this container's surface, a drag covering the slot of a
     * protected cell (as an inventory slot or a raw slot) is cancelled; a
     * cancelled drag stays cancelled.
     */
    method OnDrag(e: DragEvent) returns (r: DragEvent)
      ensures r == e.(cancelled := e.cancelled || (Targets(inventory, e.inventory)
                        && exists k :: 0 <= k < |items| && Covers(e, items[k].slot) && items[k].cancelled))
    {
      r := e;
      if !Targets(inventory, e.inventory) {
        return;
      }
      for k := 0 to |items|
        invariant r == e.(cancelled := e.cancelled || exists j :: 0 <= j < k && Covers(e, items[j].slot) && items[j].cancelled)
      {
        var it := items[k];
        if Covers(e, it.slot) {
          r := r.(cancelled := r.cancelled || it.cancelled);
        }
      }
    }
  }

  /** Whether a drag covers `slot`, by inventory slot or by raw slot. */
  predicate Covers(e: DragEvent, slot: nat)
  {
    slot in e.inventorySlots || slot in e.rawSlots
  }

  /** The generator a new cell with `content` starts with. */
  function InitialGenerator(content: Content): Option<Generator>
  {
    match content
    case StackContent(_) => None
    case GeneratorContent(g) => g
  }

  /**
   * The stack a new cell handed to generators as `self`, made with `content`,
   * starts with: the static stack, or the generator's value on the new cell (AIR when the
   * generator is null).
   */
  function InitialItem(content: Content, self: Argument): Option<ItemStack>
  {
    match content
    case StackContent(s) => s
    case GeneratorContent(g) => Refreshed(g, Some(Air), self)
  }

  /** The state of a cell made with `content`, `cancelled` and `consumer`, apart from its identity and slot. */
  ghost predicate Holds(c: ItemAPI, content: Content, cancelled: bool, consumer: Callback)
    reads c
  {
    c.cancelled == cancelled && c.consumer == consumer
    && c.generator == InitialGenerator(content) && c.item == InitialItem(content, c.Self())
  }

  /** `new ItemAPI(slot, …)` with the constructor that matches the content. */
  method NewCell(slot: nat, content: Content, cancelled: bool, consumer: Callback) returns (c: ItemAPI)
    ensures fresh(c) && c.slot == slot && Holds(c, content, cancelled, consumer)
  {
    if content.StackContent? {
      c := new ItemAPI.Static(slot, content.stack, cancelled, consumer);
    } else {
      c := new ItemAPI.Generated(slot, content.generator, cancelled, consumer);
    }
  }

  const IntMin := -0x8000_0000
  const IntMax := 0x7fff_ffff

  /** The values of a Java `int`. */
  predicate IsInt(x: int)
  {
    IntMin <= x <= IntMax
  }

  /** Java's `x + 1` on an `int`: the `int` congruent to `x + 1` modulo 2^32. */
  function Inc(x: int): (r: int)
    requires IsInt(x)
    ensures IsInt(r) && (r - (x + 1)) % 0x1_0000_0000 == 0
  {
    if x == IntMax then IntMin else x + 1
  }

  /**
   * Consecutive ticks alternate between painting and refreshing, also across
   * the wrap-around. Java's `%` truncates and Dafny's does not, but both give
   * `0` for exactly the even values, which is all `step % 2 == 0` asks.
   */
  lemma TicksAlternate(step: int)
    requires IsInt(step)
    ensures (Inc(step) % 2 == 0) != (step % 2 == 0)
  {
  }

  /** The refresh function's invocations add up over consecutive paint ticks. */
  lemma PopulateCallsStep(populate: Option<Callback>, n: nat)
    ensures PopulateCalls(populate, n) + PopulateCalls(populate, 1) == PopulateCalls(populate, n + 1)
  {
    if populate.Some? {
      assert Repeat(Populate(populate.value), 1) == [Populate(populate.value)];
    }
  }

  /** The cells of a list, as a set. */
  function Elements(items: seq<ItemAPI>): (r: set<ItemAPI>)
    ensures forall it :: it in r ==> it in items
    ensures forall k :: 0 <= k < |items| ==> items[k] in r
  {
    set k | 0 <= k < |items| :: items[k]
  }

  /** Every cell of the containers `cs`. */
  function AllItems(cs: seq<InventoryAPI>): set<ItemAPI>
    reads cs`items
  {
    if cs == [] then {} else AllItems(cs[..|cs| - 1]) + Elements(cs[|cs| - 1].items)
  }

  /** The position of the last container of `cs` that lists `it`, if any. */
  function LastOwner(cs: seq<InventoryAPI>, it: ItemAPI): (r: Option<nat>)
    reads cs`items
    ensures r.Some? ==> r.value < |cs| && it in cs[r.value].items
    ensures r.Some? ==> forall j :: r.value < j < |cs| ==> it !in cs[j].items
    ensures r.None? <==> forall j :: 0 <= j < |cs| ==> it !in cs[j].items
  {
    if cs == [] then None
    else if it in cs[|cs| - 1].items then Some(|cs| - 1)
    else LastOwner(cs[..|cs| - 1], it)
  }

  /** A cell is among the containers' cells exactly when some container lists it. */
  lemma {:induction false} AllItemsOwned(cs: seq<InventoryAPI>, it: ItemAPI)
    ensures it in AllItems(cs) <==> LastOwner(cs, it).Some?
  {
    if cs != [] {
      AllItemsOwned(cs[..|cs| - 1], it);
    }
  }

  /** The cells of one more container. */
  lemma AllItemsSnoc(cs: seq<InventoryAPI>, k: nat)
    requires k < |cs|
    ensures AllItems(cs[..k + 1]) == AllItems(cs[..k]) + Elements(cs[k].items)
    ensures AllItems(cs[..k + 1]) <= AllItems(cs)
  {
    assert cs[..k + 1][..k] == cs[..k];
    forall it | it in AllItems(cs[..k + 1])
      ensures it in AllItems(cs)
    {
      AllItemsOwned(cs[..k + 1], it);
      AllItemsOwned(cs, it);
      assert cs[LastOwner(cs[..k + 1], it).value] in cs;
    }
  }

  /** A surface exists and every cell's slot lies on it. */
  predicate Fits(items: seq<ItemAPI>, surface: Option<Surface>)
  {
    surface.Some? && forall it :: it in items ==> it.slot < |surface.value.slots|
  }

  /** The number of leading containers of `cs` whose paint tick would not throw. */
  function RenderablePrefix(cs: seq<InventoryAPI>): (f: nat)
    reads cs
    ensures f <= |cs|
    ensures forall j :: 0 <= j < f ==> cs[j].Renderable()
    ensures f < |cs| ==> !cs[f].Renderable()
  {
    if cs == [] || !cs[0].Renderable() then 0 else 1 + RenderablePrefix(cs[1..])
  }

  /**
   * Container `c` after `count` paint ticks from a surface `surface0` and a
   * trace `log0`: with a surface and at least one tick, it shows the cells'
   * writes from `stacks` and has run its refresh function once per tick;
   * otherwise it is as it was.
   */
  ghost predicate PaintedTimes(c: InventoryAPI, surface0: Option<Surface>, log0: seq<Call>, count: nat, stacks: ItemAPI -> Option<ItemStack>)
    reads c, c.items`generator
  {
    if count > 0 && surface0.Some? then
      c.inventory == Some(Surface(surface0.value.id, PaintTick(c.items, |surface0.value.slots|, stacks)))
      && c.log == log0 + PopulateCalls(c.populate, count)
    else
      c.inventory == surface0 && c.log == log0
  }

  /** Every cell of `cells` holds its stack from `stacks`, or what a `getItem()` left of it. */
  ghost predicate AtTick(cells: set<ItemAPI>, stacks: ItemAPI -> Option<ItemStack>)
    reads cells
  {
    forall it :: it in cells ==> it.item == stacks(it) || it.item == Filled(it.generator, stacks(it), it.Self())
  }

  /** Every cell of `cells` holds what a `getItem()` leaves of its stack from `stacks`. */
  ghost predicate AllFilled(cells: set<ItemAPI>, stacks: ItemAPI -> Option<ItemStack>)
    reads cells
  {
    forall it :: it in cells ==> it.item == Filled(it.generator, stacks(it), it.Self())
  }

  /** `stacks` gives what every cell of `cs` holds now. */
  ghost predicate HeldBy(cs: seq<InventoryAPI>, stacks: ItemAPI -> Option<ItemStack>)
    reads cs, AllItems(cs)
  {
    AllItemsHas(cs);
    forall c, it :: c in cs && it in c.items ==> stacks(it) == it.item
  }

  /** What every cell of `cs` holds now, as a function of the cell. */
  ghost function Holding(cs: seq<InventoryAPI>): (stacks: ItemAPI -> Option<ItemStack>)
    reads cs, AllItems(cs)
    ensures forall it :: it in AllItems(cs) ==> stacks(it) == it.item
    ensures HeldBy(cs, stacks)
  {
    AllItemsHas(cs);
    var held := map it | it in AllItems(cs) :: it.item;
    it => if it in held then held[it] else None
  }

  /** Each container's surface, as a value. */
  ghost function Surfaces(cs: seq<InventoryAPI>): (r: map<InventoryAPI, Option<Surface>>)
    reads cs
    ensures forall c :: c in cs ==> c in r && r[c] == c.inventory
  {
    map c | c in cs :: c.inventory
  }

  /** Each container's host-call log, as a value. */
  ghost function Logs(cs: seq<InventoryAPI>): (r: map<InventoryAPI, seq<Call>>)
    reads cs
    ensures forall c :: c in cs ==> c in r && r[c] == c.log
  {
    map c | c in cs :: c.log
  }

  /**
   * The outcome of the paint half of a timer tick over `cs`, which began with
   * the surfaces `surfaces0`, the logs `logs0`, the cells `all` holding
   * `stacks`, and the first `f` containers renderable: `ok` exactly when all
   * were; each container painted once per occurrence among those reached (up
   * to and including the one that threw); every cell either untouched or
   * filled, and all filled when nothing threw.
   */
  ghost predicate TickPainted(cs: seq<InventoryAPI>, surfaces0: map<InventoryAPI, Option<Surface>>,
                              logs0: map<InventoryAPI, seq<Call>>, f: nat, all: set<ItemAPI>,
                              stacks: ItemAPI -> Option<ItemStack>, ok: bool)
    reads cs, AllItems(cs), all
  {
    AllItemsHas(cs);
    && (ok <==> f == |cs|)
    && (var m := if ok then |cs| else f + 1;
        && m <= |cs|
        && forall c :: c in cs ==>
             c in surfaces0 && c in logs0 && PaintedTimes(c, surfaces0[c], logs0[c], multiset(cs[..m])[c], stacks))
    && AtTick(all, stacks)
    && (ok ==> AllFilled(all, stacks))
  }

  /**
   * The refresh half of a timer tick over `cs`, whose cells held `stacks`
   * when it began: each cell holds its generator's value on the last container
   * of `cs` that lists it, and a cell without a generator is unchanged.
   */
  ghost predicate TickRefreshed(cs: seq<InventoryAPI>, stacks: ItemAPI -> Option<ItemStack>)
    reads cs, AllItems(cs)
  {
    AllItemsHas(cs);
    forall c, it :: c in cs && it in c.items ==>
      LastOwner(cs, it).Some?
      && it.item == Refreshed(it.generator, stacks(it), Handed(cs[LastOwner(cs, it).value]))
  }

  /**
   * One timer tick over the registered containers `cs`: the paint half when
   * `paint`, the refresh half otherwise. `stacks` is what every cell holds
   * when the tick begins, and `ok` is false when the tick threw.
   */
  method Tick(cs: seq<InventoryAPI>, paint: bool) returns (ok: bool, ghost stacks: ItemAPI -> Option<ItemStack>)
    modifies cs`inventory, cs`log, AllItems(cs)`item
    ensures old(HeldBy(cs, stacks))
    ensures paint ==> TickPainted(cs, old(Surfaces(cs)), old(Logs(cs)), old(RenderablePrefix(cs)), old(AllItems(cs)), stacks, ok)
    ensures !paint ==> ok && TickRefreshed(cs, stacks)
    ensures !paint ==> Surfaces(cs) == old(Surfaces(cs)) && Logs(cs) == old(Logs(cs))
  {
    stacks := Holding(cs);
    AllItemsHas(cs);
    if paint {
      ghost var surfaces0 := Surfaces(cs);
      ghost var logs0 := Logs(cs);
      ghost var f := RenderablePrefix(cs);
      ok := PaintAll(cs, stacks, surfaces0, logs0, AllItems(cs), f);
    } else {
      RefreshAll(cs, stacks);
      ok := true;
    }
  }

  /**
   * The paint half of `exec()`: each container of `cs` in order, until the first
   * one whose tick throws. `stacks` is what every cell holds when the tick
   * begins. A container listed twice is painted twice.
   */
  method PaintAll(cs: seq<InventoryAPI>, ghost stacks: ItemAPI -> Option<ItemStack>,
                  ghost surfaces0: map<InventoryAPI, Option<Surface>>, ghost logs0: map<InventoryAPI, seq<Call>>,
                  ghost all: set<ItemAPI>, ghost f: nat)
    returns (ok: bool)
    requires forall c :: c in cs ==> c in surfaces0 && c in logs0 && c.inventory == surfaces0[c] && c.log == logs0[c]
    requires all == AllItems(cs)
    requires f <= |cs| && (forall j :: 0 <= j < f ==> Fits(cs[j].items, surfaces0[cs[j]]))
    requires f < |cs| ==> !Fits(cs[f].items, surfaces0[cs[f]])
    requires forall it :: it in all ==> it.item == stacks(it)
    modifies cs`inventory, cs`log, all`item
    ensures ok <==> f == |cs|
    ensures var m := if ok then |cs| else f + 1;
            forall c :: c in cs ==> PaintedTimes(c, surfaces0[c], logs0[c], multiset(cs[..m])[c], stacks)
    ensures AtTick(all, stacks)
    ensures ok ==> AllFilled(all, stacks)
  {
    ghost var pre := ItemsByPrefix(cs);
    ghost var done: set<ItemAPI> := {};
    ok := true;
    var k := 0;
    while k < |cs| && ok
      invariant k <= |cs|
      invariant if ok then k <= f else f < |cs| && k == f + 1
      invariant forall c :: c in cs ==> PaintedTimes(c, surfaces0[c], logs0[c], multiset(cs[..k])[c], stacks)
      invariant AtTick(all, stacks)
      invariant done == pre[k]
      invariant ok ==> AllFilled(done, stacks)
    {
      ok := PaintStep(cs, k, cs[k], stacks, surfaces0, logs0, all, done);
      done := done + Elements(cs[k].items);
      k := k + 1;
    }
  }

  /** The cells of each prefix of `cs`: `pre[j]` holds those of the entries before `j`. */
  lemma ItemsByPrefix(cs: seq<InventoryAPI>) returns (pre: seq<set<ItemAPI>>)
    ensures |pre| == |cs| + 1 && pre[0] == {} && pre[|cs|] == AllItems(cs)
    ensures forall j :: 0 <= j < |cs| ==> pre[j + 1] == pre[j] + Elements(cs[j].items)
    ensures forall j, it :: 0 <= j < |cs| && it in cs[j].items ==> it in AllItems(cs)
  {
    pre := seq(|cs| + 1, j requires 0 <= j <= |cs| reads cs => AllItems(cs[..j]));
    forall j | 0 <= j < |cs|
      ensures pre[j + 1] == pre[j] + Elements(cs[j].items)
    {
      AllItemsSnoc(cs, j);
    }
    assert cs[..|cs|] == cs;
    AllItemsHas(cs);
  }

  /** Each cell a container of `cs` lists is among `AllItems(cs)`. */
  lemma AllItemsHas(cs: seq<InventoryAPI>)
    ensures forall c, it :: c in cs && it in c.items ==> it in AllItems(cs)
  {
    forall c, it | c in cs && it in c.items
      ensures it in AllItems(cs)
    {
      AllItemsOwned(cs, it);
    }
  }

  /**
   * One container of the paint half of `exec()`: `c`, the entry at `k`, runs
   * its paint tick on top of the ticks of the entries before it.
   */
  method PaintStep(cs: seq<InventoryAPI>, k: nat, c: InventoryAPI, ghost stacks: ItemAPI -> Option<ItemStack>,
                   ghost surfaces0: map<InventoryAPI, Option<Surface>>, ghost logs0: map<InventoryAPI, seq<Call>>,
                   ghost all: set<ItemAPI>, ghost done: set<ItemAPI>)
    returns (ok: bool)
    requires k < |cs| && c == cs[k] && forall d :: d in cs ==> d in surfaces0 && d in logs0
    requires forall d :: d in cs ==> PaintedTimes(d, surfaces0[d], logs0[d], multiset(cs[..k])[d], stacks)
    requires forall it :: it in c.items ==> it in all
    requires AtTick(all, stacks)
    requires AllFilled(done, stacks)
    modifies c`inventory, c`log, c.items`item
    ensures ok == Fits(c.items, surfaces0[c])
    ensures forall d :: d in cs ==> PaintedTimes(d, surfaces0[d], logs0[d], multiset(cs[..k + 1])[d], stacks)
    ensures AtTick(all, stacks)
    ensures ok ==> AllFilled(done + Elements(c.items), stacks)
  {
    ok := c.Render(stacks);
    PaintedStep(cs, k, c, stacks, surfaces0, logs0);
  }

  /** The paint tick of `cs[k]` extends the ticks of the entries before it to those up to `k`. */
  twostate lemma PaintedStep(new cs: seq<InventoryAPI>, k: nat, new c: InventoryAPI, new stacks: ItemAPI -> Option<ItemStack>,
                             new surfaces0: map<InventoryAPI, Option<Surface>>, new logs0: map<InventoryAPI, seq<Call>>)
    requires old(allocated(cs)) && old(allocated(stacks)) && old(allocated(surfaces0)) && old(allocated(logs0))
    requires k < |cs| && c == cs[k] && forall d :: d in cs ==> d in surfaces0 && d in logs0
    requires forall d :: d in cs ==> old(PaintedTimes(d, surfaces0[d], logs0[d], multiset(cs[..k])[d], stacks))
    requires forall d :: d in cs && d != c ==> unchanged(d) && unchanged(d.items`generator)
    requires c.items == old(c.items) && unchanged(c.items`generator) && c.populate == old(c.populate)
    requires old(c.inventory).None? ==> c.inventory == old(c.inventory) && c.log == old(c.log)
    requires old(c.inventory).Some? ==>
               c.inventory == Some(Surface(old(c.inventory).value.id, PaintTick(c.items, |old(c.inventory).value.slots|, stacks)))
               && c.log == old(c.log) + PopulateCalls(c.populate, 1)
    ensures forall d :: d in cs ==> PaintedTimes(d, surfaces0[d], logs0[d], multiset(cs[..k + 1])[d], stacks)
  {
    PrefixSnoc(cs, k);
    forall d | d in cs
      ensures PaintedTimes(d, surfaces0[d], logs0[d], multiset(cs[..k + 1])[d], stacks)
    {
      if d == c {
        assert multiset(cs[..k + 1])[c] == multiset(cs[..k])[c] + 1;
        PopulateCallsStep(c.populate, multiset(cs[..k])[c]);
      } else {
        assert multiset(cs[..k + 1])[d] == multiset(cs[..k])[d];
      }
    }
  }

  /** What `item0` becomes once the containers `cs` have refreshed their cells: the last one listing `it` decides. */
  function RefreshedBy(cs: seq<InventoryAPI>, it: ItemAPI, item0: Option<ItemStack>): Option<ItemStack>
    reads cs`items, it`generator
  {
    match LastOwner(cs, it)
    case Some(j) => Refreshed(it.generator, item0, Handed(cs[j]))
    case None => item0
  }

  /** One more container's refresh: it decides for its own cells, and leaves the others' as they were. */
  lemma RefreshedBySnoc(cs: seq<InventoryAPI>, k: nat, it: ItemAPI, item0: Option<ItemStack>)
    requires k < |cs|
    ensures it in cs[k].items ==>
              RefreshedBy(cs[..k + 1], it, item0) == Refreshed(it.generator, RefreshedBy(cs[..k], it, item0), Handed(cs[k]))
    ensures it !in cs[k].items ==> RefreshedBy(cs[..k + 1], it, item0) == RefreshedBy(cs[..k], it, item0)
  {
    assert cs[..k + 1][..k] == cs[..k];
    if it in cs[k].items {
      RefreshedLastWins(it.generator, item0, Handed(cs[k]), Handed(cs[k]));
      match LastOwner(cs[..k], it)
      case Some(j) =>
        RefreshedLastWins(it.generator, item0, Handed(cs[j]), Handed(cs[k]));
      case None =>
    }
  }

  /** Every cell of `cs`, which held `stacks`, holds what the first `k` containers' refreshes make of it. */
  ghost predicate RefreshedUpTo(cs: seq<InventoryAPI>, k: nat, stacks: ItemAPI -> Option<ItemStack>)
    requires k <= |cs|
    reads cs, AllItems(cs)
  {
    AllItemsHas(cs);
    forall c, it :: c in cs && it in c.items ==> it.item == RefreshedBy(cs[..k], it, stacks(it))
  }

  /**
   * The refresh half of `exec()`: `refresh(container)` on each cell of each
   * container of `cs` in order, from the stacks `stacks`. A cell listed by
   * several containers ends refreshed with the last of them.
   */
  method RefreshAll(cs: seq<InventoryAPI>, ghost stacks: ItemAPI -> Option<ItemStack>)
    requires HeldBy(cs, stacks)
    modifies AllItems(cs)`item
    ensures TickRefreshed(cs, stacks)
  {
    AllItemsHas(cs);
    for k := 0 to |cs|
      invariant RefreshedUpTo(cs, k, stacks)
    {
      RefreshStep(cs, k, cs[k], stacks);
    }
    assert cs[..|cs|] == cs;
    forall c, it | c in cs && it in c.items
      ensures LastOwner(cs, it).Some?
    {
      AllItemsOwned(cs, it);
    }
  }

  /** The `k`-th container's refresh of its cells. */
  method RefreshStep(cs: seq<InventoryAPI>, k: nat, c: InventoryAPI, ghost stacks: ItemAPI -> Option<ItemStack>)
    requires k < |cs| && c == cs[k]
    requires RefreshedUpTo(cs, k, stacks)
    modifies c.items`item
    ensures RefreshedUpTo(cs, k + 1, stacks)
  {
    AllItemsHas(cs);
    label before:
    c.RefreshCells();
    forall d, it | d in cs && it in d.items
      ensures it.item == RefreshedBy(cs[..k + 1], it, stacks(it))
    {
      assert old@before(it.item) == RefreshedBy(cs[..k], it, stacks(it));
      RefreshedBySnoc(cs, k, it, stacks(it));
    }
  }

  /** What a tick starts from is kept by any change outside the containers and their cells. */
  twostate lemma TickInputsKept(cs: seq<InventoryAPI>)
    requires unchanged(cs) && old(allocated(AllItems(cs))) && unchanged(AllItems(cs))
    ensures old(Surfaces(cs)) == Surfaces(cs) && old(Logs(cs)) == Logs(cs)
    ensures old(RenderablePrefix(cs)) == RenderablePrefix(cs) && old(AllItems(cs)) == AllItems(cs)
    ensures forall stacks :: old(HeldBy(cs, stacks)) == HeldBy(cs, stacks)
  {
  }

  /**
   * The refresh scheduler (one instance per process): the registered
   * containers, whether the periodic task runs, and the tick counter.
   */
  class Scheduler {
    var inventories: seq<InventoryAPI>
    var isRunning: bool
    var step: int

    /** The task only runs while some container is registered, and `step` is a Java `int`. */
    predicate Valid()
      reads this
    {
      (inventories == [] ==> !isRunning) && IsInt(step)
    }

    /** `getInstance()` the first time. */
    constructor ()
      ensures Valid() && inventories == [] && !isRunning && step == 0
    {
      inventories := [];
      isRunning := false;
      step := 0;
    }

    /** The state `add(c)` leaves from the registry, running flag and step before it. */
    ghost predicate Added(inventories0: seq<InventoryAPI>, isRunning0: bool, step0: int, c: InventoryAPI)
      reads this
    {
      inventories == inventories0 + [c]
      && (inventories0 == [] ==> isRunning && step == 0)
      && (inventories0 != [] ==> isRunning == isRunning0 && step == step0)
    }

    /** The state `remove(c)` leaves from the registry and running flag before it. */
    ghost predicate Removed(inventories0: seq<InventoryAPI>, isRunning0: bool, c: InventoryAPI)
      reads this
    {
      inventories == RemoveFirst(inventories0, c)
      && isRunning == (isRunning0 && inventories != [])
    }

    /**
     * `exec()`, one timer tick: `step++ % 2 == 0` selects the paint half, and
     * the step is incremented before the tick runs, so whether or not it throws.
     */
    method Exec() returns (ok: bool, ghost stacks: ItemAPI -> Option<ItemStack>)
      requires Valid()
      modifies `step, inventories`inventory, inventories`log, AllItems(inventories)`item
      ensures Valid() && step == Inc(old(step)) && inventories == old(inventories) && isRunning == old(isRunning)
      ensures old(HeldBy(inventories, stacks))
      ensures old(step) % 2 == 0 ==>
                TickPainted(inventories, old(Surfaces(inventories)), old(Logs(inventories)),
                            old(RenderablePrefix(inventories)), old(AllItems(inventories)), stacks, ok)
      ensures old(step) % 2 != 0 ==> ok && TickRefreshed(inventories, stacks)
      ensures old(step) % 2 != 0 ==>
                Surfaces(inventories) == old(Surfaces(inventories)) && Logs(inventories) == old(Logs(inventories))
    {
      var paint := step % 2 == 0;
      step := Inc(step);
      TickInputsKept(inventories);
      ok, stacks := Tick(inventories, paint);
    }

    /** `start()`: a stopped scheduler starts over from step 0. */
    method Start()
      requires IsInt(step)
      modifies `isRunning, `step
      ensures isRunning
      ensures step == if old(isRunning) then old(step) else 0
    {
      if !isRunning {
        isRunning := true;
        step := 0;
      }
    }

    /** `stop()`: the periodic task stops; the step counter is kept. */
    method Stop()
      modifies `isRunning
      ensures !isRunning
    {
      if isRunning {
        isRunning := false;
      }
    }

    /** `forceStop(plugin)`: logs a warning and stops. */
    method ForceStop()
      requires Valid()
      modifies `isRunning
      ensures Valid() && !isRunning
    {
      Stop();
    }

    /** `add(c)`: append `c`; the first registration starts the task. */
    method Add(c: InventoryAPI)
      requires Valid()
      modifies `inventories, `isRunning, `step
      ensures Valid() && Added(old(inventories), old(isRunning), old(step), c)
    {
      inventories := inventories + [c];
      if |inventories| == 1 {
        Start();
      }
    }

    /** `remove(c)`: drop the first registration of `c`; an empty registry stops the task. */
    method Remove(c: InventoryAPI)
      requires Valid()
      modifies `inventories, `isRunning
      ensures Valid() && Removed(old(inventories), old(isRunning), c)
    {
      inventories := RemoveFirst(inventories, c);
      if |inventories| == 0 {
        Stop();
      }
    }
  }
}
