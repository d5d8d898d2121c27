/**
 * `fr.bakaaless.inventory.InventoryAPI`, the older container: guarded setters,
 * the same cell list as the newer container, borders taken from the built
 * surface, `build` and `stop`, and the close and click handlers. Unlike the
 * newer container it has no type, no close or click consumer and no
 * protection flag of its own, `stop` keeps `build` set, and a click on a slot
 * no cell is on changes nothing. Its scheduler is not part of this model:
 * registering with it and leaving it are recorded in the trace.
 */
module LegacyInventory {
  import opened Host
  import opened Events
  import opened Lists
  import opened Clicks
  import opened Grid
  import opened LegacyItem
  import ApiItem
  import ApiInventory

  /**
   * The `setItem` calls of `build`, one per cell in list order: the cell's
   * `getItem()` after `refresh(container)`.
   */
  function BuildWrites(items: seq<ItemAPI>, container: Argument): (r: seq<(nat, ItemStack)>)
    reads items
    ensures |r| == |items|
    ensures forall k :: 0 <= k < |items| ==>
              r[k] == (items[k].slot, ApiItem.Shown(items[k].generator, ApiItem.Refreshed(items[k].generator, items[k].item, container), items[k].Self()))
  {
    seq(|items|, k reads items requires 0 <= k < |items| =>
      (items[k].slot, ApiItem.Shown(items[k].generator, ApiItem.Refreshed(items[k].generator, items[k].item, container), items[k].Self())))
  }

  /** What the click pass reads of each cell, in list order. */
  function Views(items: seq<ItemAPI>): (r: seq<CellView>)
    ensures |r| == |items|
    ensures forall k :: 0 <= k < |items| ==> r[k] == CellView(items[k].slot, items[k].cancelled, items[k].consumer)
  {
    seq(|items|, k requires 0 <= k < |items| => CellView(items[k].slot, items[k].cancelled, items[k].consumer))
  }

  /** The state of a cell made with `content`, `cancelled` and `consumer`, apart from its identity and slot. */
  ghost predicate Holds(c: ItemAPI, content: ApiInventory.Content, cancelled: bool, consumer: Callback)
    reads c
  {
    c.cancelled == cancelled && c.consumer == consumer
    && c.generator == ApiInventory.InitialGenerator(content) && c.item == ApiInventory.InitialItem(content, c.Self())
  }

  /** `new ItemAPI(slot, …)` with the constructor that matches the content. */
  method NewCell(slot: nat, content: ApiInventory.Content, cancelled: bool, consumer: Callback) returns (c: ItemAPI)
    ensures fresh(c) && c.slot == slot && Holds(c, content, cancelled, consumer)
  {
    if content.StackContent? {
      c := new ItemAPI.Static(slot, content.stack, cancelled, consumer);
    } else {
      c := new ItemAPI.Generated(slot, content.generator, cancelled, consumer);
    }
  }

  class InventoryAPI {
    var inventory: Option<Surface>          // the materialised surface, null until `build` and after `stop`
    var size: int
    var title: string
    var items: seq<ItemAPI>
    var populate: Option<Callback>          // the refresh function (`function`)
    var refreshed: bool
    var build: bool
    var listening: bool                     // registered with the host's event dispatcher
    ghost var log: seq<Call>                // the user, host and scheduler code invoked, in order

    /** A surface is only ever held once built, and the container listens for events exactly while it holds one. */
    predicate Valid()
      reads this
    {
      (inventory.Some? ==> build) && listening == inventory.Some?
    }

    /** `create(plugin)`. */
    constructor ()
      ensures Valid()
      ensures inventory == None && size == 9 && title == "" && items == [] && populate == None
      ensures !refreshed && !build && !listening && log == []
    {
      inventory := None;
      size := 9;
      title := "";
      items := [];
      populate := None;
      refreshed := false;
      build := false;
      listening := false;
      log := [];
    }

    /**
     * `setSize`: refused once built (also after `stop`), and refused while the
     * stored size is outside 9, 18, …, 45; the requested size itself is not checked.
     */
    method SetSize(s: int)
      requires Valid()
      modifies `size
      ensures Valid()
      ensures size == ApiInventory.NextSize(build, old(size), s)
    {
      if build {
        return;
      }
      if !ApiInventory.SizeAccepted(size) {
        return;
      }
      if inventory.Some? && size != s {
        assert false;   // a held surface implies `build`
      }
      size := s;
    }

    /** `setTitle`: refused once built. */
    method SetTitle(t: string)
      requires Valid()
      modifies `title
      ensures Valid()
      ensures title == if old(build) then old(title) else t
    {
      if build {
        return;
      }
      if inventory.Some? && title != t {
        assert false;   // a held surface implies `build`
      }
      title := t;
    }

    /** `setRefresh`: refused once built. */
    method SetRefresh(r: bool)
      modifies `refreshed
      ensures refreshed == if build then old(refreshed) else r
    {
      if !build {
        refreshed := r;
      }
    }

    /** `setFunction`: refused once built. */
    method SetPopulate(p: Option<Callback>)
      modifies `populate
      ensures populate == if build then old(populate) else p
    {
      if !build {
        populate := p;
      }
    }

    /** `clearSlot(slot)`: the iterator loop, which never inspects the last cell. */
    method ClearSlot(slot: nat)
      modifies `items
      ensures items == Cleared(old(items), SlotOf, slot)
    {
      items := IterateClear(items, SlotOf, slot);
    }

    /** `getItem(slot)`: the first cell on `slot`, if any. */
    function GetItem(slot: nat): (r: Option<ItemAPI>)
      reads this
      ensures r.None? <==> forall k :: 0 <= k < |items| ==> items[k].slot != slot
      ensures r.Some? ==> r.value in items && r.value.slot == slot
      ensures r.Some? ==> exists k :: 0 <= k < |items| && items[k] == r.value
                                      && forall j :: 0 <= j < k ==> items[j].slot != slot
    {
      FirstWithSlot(items, SlotOf, slot)
    }

    /** `addItem(itemAPI)`: `clearSlot` on the cell's slot, then append the cell. */
    method AddItem(it: ItemAPI)
      modifies `items
      ensures items == Cleared(old(items), SlotOf, it.slot) + [it]
    {
      ClearSlot(it.slot);
      items := items + [it];
    }

    /**
     * The `addItem(slot, …)` overloads: a new cell object added with
     * `addItem(itemAPI)`. The short overloads pass `cancelled = true` and the
     * empty consumer `NoOp`.
     */
    method AddNew(slot: nat, content: ApiInventory.Content, cancelled: bool, consumer: Callback)
      returns (ghost cell: ItemAPI)
      modifies `items
      ensures fresh(cell) && cell.slot == slot && Holds(cell, content, cancelled, consumer)
      ensures items == Cleared(old(items), SlotOf, slot) + [cell]
    {
      var c := NewCell(slot, content, cancelled, consumer);
      AddItem(c);
      cell := c;
    }

    /**
     * `getBorders()`: the border slots of the built surface, from its own size.
     * Without a surface the call dereferences null; that is the `None` result.
     */
    function GetBorders(): (r: Option<seq<nat>>)
      reads this
      ensures r.Some? <==> inventory.Some?
      ensures r.Some? ==> forall j, k :: 0 <= j < k < |r.value| ==> r.value[j] < r.value[k]
      ensures r.Some? ==> var n := |inventory.value.slots|;
                          forall i: nat :: i in r.value <==> i < n && IsBorder(n, i)
    {
      if inventory.None? then None else Some(Borders(|inventory.value.slots|))
    }

    /** One step of `setBorder`: `AddNew`, stated as extending a run of adds. */
    method AddNext(ghost prior: seq<ItemAPI>, ghost added: seq<ItemAPI>, slot: nat,
                   content: ApiInventory.Content, cancelled: bool, consumer: Callback)
      returns (ghost cell: ItemAPI)
      requires items == AddAll(prior, added, SlotOf)
      modifies `items
      ensures fresh(cell) && cell.slot == slot && Holds(cell, content, cancelled, consumer)
      ensures items == AddAll(prior, added + [cell], SlotOf)
    {
      cell := AddNew(slot, content, cancelled, consumer);
      AddAllStep(prior, added, cell, SlotOf);
    }

    /**
     * The loop of `setBorder(…)`: one new cell per slot of `slots`, in order,
     * each added with `addItem`; every new cell is a distinct new object.
     */
    method AddRun(slots: seq<nat>, content: ApiInventory.Content, cancelled: bool, consumer: Callback)
      returns (ghost added: seq<ItemAPI>)
      modifies `items
      ensures |added| == |slots|
      ensures forall k :: 0 <= k < |added| ==> added[k].slot == slots[k]
      ensures forall j, k :: 0 <= j < k < |added| ==> added[j] != added[k]
      ensures forall c :: c in added ==> fresh(c) && Holds(c, content, cancelled, consumer)
      ensures items == AddAll(old(items), added, SlotOf)
    {
      added := [];
      for k := 0 to |slots|
        invariant |added| == k
        invariant forall j :: 0 <= j < k ==> added[j].slot == slots[j]
        invariant forall i, j :: 0 <= i < j < k ==> added[i] != added[j]
        invariant forall c :: c in added ==> fresh(c) && Holds(c, content, cancelled, consumer)
        invariant items == AddAll(old(items), added, SlotOf)
      {
        ghost var c := AddNext(old(items), added, slots[k], content, cancelled, consumer);
        added := added + [c];
      }
    }

    /**
     * `setBorder(…)`: a new cell on every border slot of the built surface, in
     * increasing slot order; the new cells end the list in that order. Without
     * a surface `getBorders()` throws before any cell is added (`ok` false).
     */
    method SetBorder(content: ApiInventory.Content, cancelled: bool, consumer: Callback)
      returns (ok: bool, ghost added: seq<ItemAPI>)
      modifies `items
      ensures ok <==> inventory.Some?
      ensures !ok ==> added == [] && items == old(items)
      ensures ok ==> var b := Borders(|inventory.value.slots|);
                     |added| == |b| && forall k :: 0 <= k < |added| ==> added[k].slot == b[k]
      ensures forall c :: c in added ==> fresh(c) && Holds(c, content, cancelled, consumer)
      ensures items == AddAll(old(items), added, SlotOf)
      ensures EndsWith(items, added)
    {
      var borders := GetBorders();
      if borders.None? {
        assert items == AddFirst(old(items), [], 0, SlotOf);
        return false, [];
      }
      ok := true;
      added := AddRun(borders.value, content, cancelled, consumer);
      assert DistinctSlots(added, SlotOf);
      AddAllEndsWithAdded(old(items), added, SlotOf);
    }

    /**
     * `build(player)`. Without a surface (the first call, or the first after
     * `stop`) it creates one of `size` slots (identity `surfaceId` from the
     * host), runs the refresh function, paints every cell whose slot fits
     * (after `refresh(this)`), opens the surface for `viewer`, registers with
     * the scheduler when refreshing is on, and starts listening. With a surface
     * it only reruns the refresh function and repaints over the current slots.
     */
    method Build(viewer: Viewer, surfaceId: SurfaceId)
      requires Valid()
      requires inventory.None? ==> size >= 0
      modifies `build, `inventory, `listening, `log, items`item
      ensures Valid() && build
      ensures var n := if old(inventory).Some? then |old(inventory).value.slots| else size;
              var base := if old(inventory).Some? then old(inventory).value.slots else Blank(n);
              var sid := if old(inventory).Some? then old(inventory).value.id else surfaceId;
              inventory == Some(Surface(sid, Painted(base, old(BuildWrites(items, Handed(this))))))
              && forall it :: it in items ==>
                   it.item == if it.slot < n then old(ApiItem.Settled(it.generator, it.item, Handed(this), it.Self())) else old(it.item)
      ensures log == old(log) + ApiInventory.PopulateCalls(populate, 1)
                              + (if old(inventory).None? then [Opened(viewer)] + (if refreshed then [SchedulerAdd] else []) else [])
    {
      build := true;
      if inventory.None? {
        Open(viewer, surfaceId);
      } else {
        Repaint();
      }
    }

    /** `build` without a surface: create it, paint it, open it, register with the scheduler and start listening. */
    method Open(viewer: Viewer, surfaceId: SurfaceId)
      requires inventory.None? && size >= 0
      modifies `inventory, `listening, `log, items`item
      ensures listening
      ensures inventory == Some(Surface(surfaceId, Painted(Blank(size), old(BuildWrites(items, Handed(this))))))
              && forall it :: it in items ==>
                   it.item == if it.slot < size then old(ApiItem.Settled(it.generator, it.item, Handed(this), it.Self())) else old(it.item)
      ensures log == old(log) + ApiInventory.PopulateCalls(populate, 1) + [Opened(viewer)] + (if refreshed then [SchedulerAdd] else [])
    {
      inventory := Some(Surface(surfaceId, Blank(size)));
      Repaint();
      log := log + [Opened(viewer)];
      if refreshed {
        log := log + [SchedulerAdd];
      }
      listening := true;
    }

    /** The part of `build` both branches share: run the refresh function, then the cell loop over the surface. */
    method Repaint()
      requires inventory.Some?
      modifies `inventory, `log, items`item
      ensures inventory == Some(Surface(old(inventory).value.id, Painted(old(inventory).value.slots, old(BuildWrites(items, Handed(this))))))
      ensures forall it :: it in items ==>
                it.item == if it.slot < |old(inventory).value.slots| then old(ApiItem.Settled(it.generator, it.item, Handed(this), it.Self())) else old(it.item)
      ensures log == old(log) + ApiInventory.PopulateCalls(populate, 1)
    {
      log := log + ApiInventory.PopulateCalls(populate, 1);
      var slots := PaintForBuild(inventory.value.slots);
      inventory := Some(inventory.value.(slots := slots));
    }

    /**
     * One pass of the cell loop of `build`: a cell whose slot fits is refreshed
     * with the container and painted with `getItem()`. The cell holds `orig`, or,
     * when it was already painted by an earlier pass, what that pass left.
     */
    static method PaintCell(it: ItemAPI, me: Argument, slots0: seq<Option<ItemStack>>, ghost orig: Option<ItemStack>)
      returns (slots: seq<Option<ItemStack>>)
      requires it.item == orig || (it.slot < |slots0| && it.item == ApiItem.Settled(it.generator, orig, me, it.Self()))
      modifies it`item
      ensures slots == if it.slot < |slots0| then slots0[it.slot := Some(ApiItem.Shown(it.generator, ApiItem.Refreshed(it.generator, orig, me), it.Self()))] else slots0
      ensures it.item == if it.slot < |slots0| then ApiItem.Settled(it.generator, orig, me, it.Self()) else orig
    {
      ApiItem.SettledStable(it.generator, orig, me, it.Self());
      slots := slots0;
      if it.slot < |slots| {
        it.Refresh(me);
        var v := it.GetItem();
        slots := slots[it.slot := Some(v)];
      }
    }

    /** The cell loop of `build`: `refresh(this)` and `setItem(slot, getItem())` for each cell whose slot fits. */
    method PaintForBuild(slots0: seq<Option<ItemStack>>) returns (slots: seq<Option<ItemStack>>)
      modifies items`item
      ensures slots == Painted(slots0, old(BuildWrites(items, Handed(this))))
      ensures forall it :: it in items ==>
                it.item == if it.slot < |slots0| then old(ApiItem.Settled(it.generator, it.item, Handed(this), it.Self())) else old(it.item)
    {
      var me := Handed(this);
      ghost var writes := BuildWrites(items, me);
      ghost var pre := PaintedByPrefix(slots0, writes);
      ghost var done: set<ItemAPI> := {};
      slots := slots0;
      for k := 0 to |items|
        invariant slots == pre[k]
        invariant forall j :: 0 <= j < k ==> items[j] in done
        invariant forall it :: it in items ==>
                    it.item == if it in done && it.slot < |slots0| then old(ApiItem.Settled(it.generator, it.item, me, it.Self())) else old(it.item)
      {
        var it := items[k];
        label before:
        slots := PaintCell(it, me, slots, old(it.item));
        done := done + {it};
        forall x | x in items
          ensures x.item == if x in done && x.slot < |slots0| then old(ApiItem.Settled(x.generator, x.item, me, x.Self())) else old(x.item)
        {
          if x != it {
            assert x.item == old@before(x.item);
          }
        }
      }
    }

    /**
     * `stop()`: stop listening, leave the scheduler when refreshing is on, and
     * drop the surface. `build` stays set, so the guarded setters stay refused.
     */
    method Stop()
      modifies `listening, `inventory, `log
      ensures Valid()
      ensures inventory == None && !listening && build == old(build)
      ensures log == old(log) + if refreshed then [SchedulerRemove] else []
    {
      listening := false;
      if refreshed {
        log := log + [SchedulerRemove];
      }
      inventory := None;
    }

    /**
     * `onClose(e)`: the container stops when the view's top surface is its own,
     * or else when the event's surface is its own and has no holder; at most
     * once per event, since a stopped container holds no surface. No consumer runs.
     */
    method OnClose(e: CloseEvent)
      requires Valid()
      modifies `listening, `inventory, `log
      ensures Valid() && build == old(build)
      ensures var closes := Targets(old(inventory), e.top) || (Targets(old(inventory), e.inventory) && e.holderIsNull);
              if closes then
                inventory == None && !listening && log == old(log) + (if refreshed then [SchedulerRemove] else [])
              else
                inventory == old(inventory) && listening == old(listening) && log == old(log)
    {
      if Targets(inventory, e.top) {
        Stop();
      }
      if !Targets(inventory, e.inventory) {
        return;
      }
      if e.holderIsNull {
        Stop();
      }
    }

    /**
     * The cell pass of `onInteract`: every cell on `slot`, when the event has a
     * current item, sets the event's `cancelled` to its own flag and runs its consumer.
     */
    method ClickCells(slot: nat, hasCurrent: bool, initial: bool) returns (cancelled: bool, calls: seq<Call>)
      ensures cancelled == SlotCancelled(Views(items), slot, hasCurrent, initial)
      ensures calls == if hasCurrent then ItemCalls(Views(items), slot) else []
    {
      cancelled, calls := initial, [];
      for k := 0 to |items|
        invariant cancelled == SlotCancelled(Views(items)[..k], slot, hasCurrent, initial)
        invariant calls == if hasCurrent then ItemCalls(Views(items)[..k], slot) else []
      {
        var it := items[k];
        ClickStep(Views(items), k, slot, hasCurrent, initial);
        if it.slot == slot && hasCurrent {
          cancelled := it.cancelled;
          calls := calls + [ItemClicked(it.consumer, slot)];
        }
      }
      assert Views(items)[..|items|] == Views(items);
    }

    /**
     * `onInteract(e)`, returning the event as the handler leaves it: on a click
     * in this container's surface the cells on the slot take over `cancelled`
     * from the event's own flag; the cell list never changes.
     */
    method OnInteract(e: ClickEvent) returns (r: ClickEvent)
      modifies `log
      ensures var acts := e.clicked.Some? && Targets(inventory, e.clicked.value);
              && r == (if acts then e.(cancelled := SlotCancelled(Views(items), e.slot, e.current.Some?, e.cancelled)) else e)
              && log == old(log) + (if acts && e.current.Some? then ItemCalls(Views(items), e.slot) else [])
    {
      r := e;
      if e.clicked.None? || !Targets(inventory, e.clicked.value) {
        return;
      }
      var cancelled, calls := ClickCells(e.slot, e.current.Some?, e.cancelled);
      log := log + calls;
      r := e.(cancelled := cancelled);
    }
  }
}
