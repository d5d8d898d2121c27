# InventoryAPI, modelled in Dafny

InventoryAPI is a library for building chest-style GUIs on a Bukkit server. It
ships in two versions, and this project models the core of both.

- **Newer version (`fr.bakaaless.api.inventory`):**
  - `InventoryAPI`, a container. It is configured through setters that freeze once it is built. It holds a list of cells (`ItemAPI`) keyed by slot. It materialises a host surface on `build` and routes the host's close, click, move and drag events.
  - `ItemAPI`, a cell. It holds a static stack or a generator that recomputes it. It also has an interaction-protection flag and a click consumer.
  - `Scheduler`, a process-wide registry of refreshed containers. Its timer tick alternates between repainting every registered container and refreshing every cell.
- **Older version (`fr.bakaaless.inventory`):** the same container and cell with fewer features. `stop` does not reset `build`. Borders are taken from the built surface. A click on an empty slot changes nothing.

What stands in for the host:

- An item stack is an opaque value with an `Air` sentinel. Java's `null` is `None`.
- A surface is an identity plus a sequence of optional stacks.
- Events are datatypes carrying surface identities, slots, the clicked stack and the `cancelled` flag.
- A generator is a function of the object it is handed, compared by reference: the container, or the cell itself.
- User callbacks are identities. Each invocation is appended to a ghost trace (`log`) on the container.

Modules:

| module | file | contents |
|---|---|---|
| `Host` | `host.dfy` | Stacks, surfaces, generators, the trace, and `Painted` (a sequence of `setItem` writes). |
| `Events` | `events.dfy` | The host's events, and `Targets` (`id.equals(inventory)`). |
| `Lists` | `lists.dfy` | The cell-list operations both containers share: the iterator loop of `clearSlot`, the `findFirst` of `getItem`, the repeated `addItem` of `setBorder`, and `List.remove(Object)`. |
| `Grid` | `borders.dfy` | The `getBorders` filter. |
| `Clicks` | `clicks.dfy` | The cell pass of a click, which both containers run: the flag it leaves and the consumers it runs, over what it reads of each cell. |
| `ApiItem` | `api_item.dfy` | The newer cell: `Refreshed`, `Filled` and `Shown` say what `refresh` and `getItem` do to a stored stack. |
| `ApiInventory` | `api_inventory.dfy` | The newer container and the `Scheduler`. They share a module because `build` registers with the scheduler and the scheduler paints containers. |
| `LegacyItem` | `legacy_item.dfy` | The older cell. It reuses the stack functions of `ApiItem`. |
| `LegacyInventory` | `legacy_inventory.dfy` | The older container. It reuses the size guard of `ApiInventory`. |

Some loops in the source throw part-way:

- `setItem` on a slot beyond the surface.
- Any call on a null surface during a scheduler tick.
- `getBorders` on the older container before `build`.

The model returns an `ok` flag or an `Option` for these. It states what was done before the throw.

## Model

| member | source | states |
|---|---|---|
| ApiInventory.RequestedSizeUnchecked | src/main/java/fr/bakaaless/api/inventory/InventoryAPI.java:84-92 | While the stored size is acceptable, `setSize` stores any requested value, even one outside 9..45. |
| ApiInventory.SizeLocksAfterBadValue | src/main/java/fr/bakaaless/api/inventory/InventoryAPI.java:84-87 | Once an unacceptable size is stored, every later `setSize` is refused, whatever it asks for. |
| ApiInventory.FittingCells | src/main/java/fr/bakaaless/api/inventory/Scheduler.java:47 | The number of leading cells whose slot lies on the surface; the next cell, if any, is the one whose `setItem` throws. |
| Clicks.SlotCancelled | src/main/java/fr/bakaaless/api/inventory/InventoryAPI.java:532-542 | The flag a click ends with: the starting flag when no cell is on the slot or the click carries no item, and otherwise the flag of some cell on the slot. |
| Clicks.LastCellDecides | src/main/java/fr/bakaaless/inventory/InventoryAPI.java:266-273 | When the click carries an item, the last cell on the slot decides the flag, whatever the cells before it say. |
| Clicks.ItemCalls | src/main/java/fr/bakaaless/api/inventory/InventoryAPI.java:534-542 | The consumers run by a click: each an invocation on the clicked slot, at most one per cell. |
| Clicks.SlotPositions | src/main/java/fr/bakaaless/api/inventory/InventoryAPI.java:534-536 | The cells the loop stops at: exactly the positions of the cells on the slot, in increasing order. |
| Clicks.ItemCallsInOrder | src/main/java/fr/bakaaless/inventory/InventoryAPI.java:266-273 | The invocations are the consumers of the cells on the slot, one per cell, in list order: the `k`-th is that of the `k`-th cell on the slot. |
| Clicks.ItemCallsAreSlotConsumers | src/main/java/fr/bakaaless/api/inventory/InventoryAPI.java:533-542 | Both ways: every invocation is the consumer of a cell on the slot, and every cell on the slot has its consumer run. |
| ApiInventory.NewCell | src/main/java/fr/bakaaless/api/inventory/InventoryAPI.java:358-371 | `new ItemAPI(...)` with the constructor matching the content: a fresh cell on the slot with the given flag, consumer and generator, holding the static stack or the generator's value on the cell. |
| ApiInventory.InventoryAPI.constructor | src/main/java/fr/bakaaless/api/inventory/InventoryAPI.java:43-51 | A new container has size 9, an empty title, no type, no cells, no callbacks, no surface, and is neither refreshed, built nor protected. |
| ApiInventory.InventoryAPI.SetSize | src/main/java/fr/bakaaless/api/inventory/InventoryAPI.java:79-94 | Size unchanged once built or while the stored size is not one of 9, 18, …, 45; otherwise the requested size is stored unchecked. |
| ApiInventory.InventoryAPI.SetTitle | src/main/java/fr/bakaaless/api/inventory/InventoryAPI.java:101-112 | Title unchanged once built, otherwise replaced. |
| ApiInventory.InventoryAPI.SetType | src/main/java/fr/bakaaless/api/inventory/InventoryAPI.java:119-130 | Type unchanged once built, otherwise replaced. |
| ApiInventory.InventoryAPI.SetRefresh | src/main/java/fr/bakaaless/api/inventory/InventoryAPI.java:137-144 | Refresh flag unchanged once built, otherwise replaced. |
| ApiInventory.InventoryAPI.SetPopulate | src/main/java/fr/bakaaless/api/inventory/InventoryAPI.java:151-158 | Refresh function unchanged once built, otherwise replaced. |
| ApiInventory.InventoryAPI.SetCloseFunction | src/main/java/fr/bakaaless/api/inventory/InventoryAPI.java:165-168 | Not guarded by `build`: the close consumer is replaced and nothing else changes. |
| ApiInventory.InventoryAPI.SetClickFunction | src/main/java/fr/bakaaless/api/inventory/InventoryAPI.java:175-178 | Not guarded by `build`: the click consumer is replaced and nothing else changes. |
| ApiInventory.InventoryAPI.SetInteractionCancelled | src/main/java/fr/bakaaless/api/inventory/InventoryAPI.java:185-188 | Not guarded by `build`: the protection flag is replaced and nothing else changes. |
| ApiInventory.InventoryAPI.ClearSlot | src/main/java/fr/bakaaless/api/inventory/InventoryAPI.java:284-293 | The list becomes `Cleared`: every element but the last that is on the slot is removed, the rest keep their order, and the last element always stays. |
| ApiInventory.InventoryAPI.GetItem | src/main/java/fr/bakaaless/api/inventory/InventoryAPI.java:300-302 | `None` exactly when no cell is on the slot; otherwise a listed cell on the slot with no cell on the slot before it. |
| ApiInventory.InventoryAPI.AddItem | src/main/java/fr/bakaaless/api/inventory/InventoryAPI.java:379-383 | The list becomes `clearSlot` of the cell's slot followed by the cell, so the new cell is last. |
| ApiInventory.InventoryAPI.AddNew | src/main/java/fr/bakaaless/api/inventory/InventoryAPI.java:310-372 | The `addItem(slot, …)` overloads: a fresh cell with the given content, flag and consumer, appended after `clearSlot` of its slot. |
| ApiInventory.InventoryAPI.AddRun | src/main/java/fr/bakaaless/api/inventory/InventoryAPI.java:398-452 | One new cell per given slot, in order, each a distinct new object, each added with `addItem`; the list is the fold of `addItem` over them. |
| ApiInventory.InventoryAPI.SetBorder | src/main/java/fr/bakaaless/api/inventory/InventoryAPI.java:398-452 | One fresh cell per border slot of the configured size, in increasing slot order, each added with `addItem`; the new cells end the list in that order. |
| ApiInventory.InventoryAPI.Build | src/main/java/fr/bakaaless/api/inventory/InventoryAPI.java:458-485 | Sets `build`. The surface (new with the type's capacity or the size, or the current one) ends painted with each in-bounds cell's `getItem()` after `refresh(this)`, in list order. Out-of-bounds cells are untouched. The refresh function runs once. On first build: opened for the player, registered with the scheduler exactly when refreshed, listening. |
| ApiInventory.InventoryAPI.Open | src/main/java/fr/bakaaless/api/inventory/InventoryAPI.java:460-474 | The first `build`: a blank surface of the capacity, painted as above, opened for the viewer, registered when refreshed, listening. |
| ApiInventory.InventoryAPI.Repaint | src/main/java/fr/bakaaless/api/inventory/InventoryAPI.java:475-484 | A later `build`: the refresh function once, then the cell loop over the current surface, which keeps its identity. |
| ApiInventory.InventoryAPI.PaintCell | src/main/java/fr/bakaaless/api/inventory/InventoryAPI.java:464-469 | One pass of the build loop: an out-of-bounds cell is skipped untouched; an in-bounds one is refreshed with the container and its `getItem()` is written at its slot. |
| ApiInventory.InventoryAPI.PaintForBuild | src/main/java/fr/bakaaless/api/inventory/InventoryAPI.java:464-469 | The whole build loop: the surface is the given slots after the list's writes, and each in-bounds cell ends refreshed then read, each other cell unchanged. |
| ApiInventory.InventoryAPI.ShowCell | src/main/java/fr/bakaaless/api/inventory/Scheduler.java:47 | `getItem()` on a cell that an earlier container of the same tick may already have read: the same value and stored stack as a first read. |
| ApiInventory.InventoryAPI.Render | src/main/java/fr/bakaaless/api/inventory/Scheduler.java:43-47 | One container's paint tick: succeeds exactly when it has a surface and every cell's slot fits. Without a surface nothing changes. Otherwise the surface is cleared, the refresh function runs, and the fitting prefix of cells is painted; cells are read lazily and never otherwise changed. |
| ApiInventory.InventoryAPI.PaintCells | src/main/java/fr/bakaaless/api/inventory/Scheduler.java:47 | The cell loop of the paint tick: succeeds exactly when every slot fits, paints the fitting prefix, and leaves every cell filled when it succeeds. |
| ApiInventory.InventoryAPI.PaintPrefix | src/main/java/fr/bakaaless/api/inventory/Scheduler.java:47 | The writes that succeed are those of the longest prefix of cells whose slots fit; exactly the cells of that prefix are read. |
| ApiInventory.InventoryAPI.RefreshCells | src/main/java/fr/bakaaless/api/inventory/Scheduler.java:50 | One container's refresh tick: every listed cell ends refreshed with the container. |
| ApiInventory.InventoryAPI.Stop | src/main/java/fr/bakaaless/api/inventory/InventoryAPI.java:490-496 | No surface, not built, not listening; deregistered from the scheduler exactly when refreshed. These fields are the same after a second `stop`. |
| ApiInventory.InventoryAPI.OnClose | src/main/java/fr/bakaaless/api/inventory/InventoryAPI.java:506-519 | The container closes exactly when the view's top surface is its own, or the event's surface is its own and has no holder. Closing means the close consumer runs once and `stop` follows; otherwise nothing changes. |
| ApiInventory.InventoryAPI.ClickCells | src/main/java/fr/bakaaless/api/inventory/InventoryAPI.java:533-542 | The cell loop of `onInteract`: the slot is registered exactly when some cell is on it; the flag is `Clicks.SlotCancelled` of the cells; the consumers run are `Clicks.ItemCalls` of the cells when the click carries an item. |
| ApiInventory.InventoryAPI.OnInteract | src/main/java/fr/bakaaless/api/inventory/InventoryAPI.java:522-549 | Without a top surface nothing happens. The click consumer runs when the top surface is this container's. A click on another surface changes neither the event nor the cells. A click on this container's surface sets `cancelled` from the protection flag and the cells on the slot, and reconciles an unowned slot. |
| ApiInventory.InventoryAPI.ClickHere | src/main/java/fr/bakaaless/api/inventory/InventoryAPI.java:532-548 | A click on this container's surface: the event's flag, the cells' consumers, and the reconciliation of an unowned slot. |
| ApiInventory.InventoryAPI.Reconcile | src/main/java/fr/bakaaless/api/inventory/InventoryAPI.java:543-548 | On a slot no cell is on, a new cell is adopted exactly when the surface shows a stack other than AIR there: unprotected, static, with the empty consumer. Otherwise the list is unchanged. |
| ApiInventory.InventoryAPI.OnMove | src/main/java/fr/bakaaless/api/inventory/InventoryAPI.java:552-556 | `cancelled` becomes the protection flag exactly when the source is this container's surface and so is the initiator or the destination; otherwise the event is unchanged. |
| ApiInventory.InventoryAPI.OnDrag | src/main/java/fr/bakaaless/api/inventory/InventoryAPI.java:559-564 | On this container's surface the drag ends cancelled exactly when it was already, or it covers the slot of a protected cell; a cancelled drag stays cancelled. |
| ApiInventory.Inc | src/main/java/fr/bakaaless/api/inventory/Scheduler.java:42 | `step++` on a Java `int`: the result is an `int` congruent to the step plus one modulo 2^32. |
| ApiInventory.TicksAlternate | src/main/java/fr/bakaaless/api/inventory/Scheduler.java:42 | Consecutive ticks alternate between painting and refreshing, also across the wrap-around. |
| ApiInventory.RenderablePrefix | src/main/java/fr/bakaaless/api/inventory/Scheduler.java:42-48 | The number of leading registered containers whose paint tick does not throw; the next one, if any, throws. |
| ApiInventory.Tick | src/main/java/fr/bakaaless/api/inventory/Scheduler.java:42-50 | One timer tick, from the cells' stacks when it begins: `TickPainted` for the paint half, `TickRefreshed` for the refresh half, which leaves every surface and every trace unchanged. |
| ApiInventory.PaintAll | src/main/java/fr/bakaaless/api/inventory/Scheduler.java:42-48 | The paint half. Containers are processed in order up to and including the first that throws, which is the first not renderable. Each is painted once per occurrence reached. Every cell is untouched or lazily filled, and all are filled when nothing throws. |
| ApiInventory.RefreshAll | src/main/java/fr/bakaaless/api/inventory/Scheduler.java:49-50 | The refresh half never throws. Each cell ends refreshed with the last registered container that lists it; surfaces are untouched. |
| ApiInventory.Scheduler.constructor | src/main/java/fr/bakaaless/api/inventory/Scheduler.java:28-38 | An empty registry, not running, step 0. |
| ApiInventory.Scheduler.Exec | src/main/java/fr/bakaaless/api/inventory/Scheduler.java:41-51 | The step advances by exactly one, as a Java `int`. The old step's parity picks the half: paint when even, refresh when odd, and the refresh half leaves every surface and every trace unchanged. The registry and the running flag are unchanged. |
| ApiInventory.Scheduler.Start | src/main/java/fr/bakaaless/api/inventory/Scheduler.java:53-59 | Running afterwards; the step is reset to 0 only when it was stopped. |
| ApiInventory.Scheduler.Stop | src/main/java/fr/bakaaless/api/inventory/Scheduler.java:61-76 | Not running afterwards; the step is kept. |
| ApiInventory.Scheduler.ForceStop | src/main/java/fr/bakaaless/api/inventory/Scheduler.java:78-81 | Not running afterwards, whatever the registry holds; the registry invariant still holds. |
| ApiInventory.Scheduler.Add | src/main/java/fr/bakaaless/api/inventory/Scheduler.java:83-87 | The container is appended. The task starts, from step 0, exactly when the registry was empty; otherwise the running flag and the step are kept. |
| ApiInventory.Scheduler.Remove | src/main/java/fr/bakaaless/api/inventory/Scheduler.java:89-93 | The first occurrence of the container is removed, if any. The task stops when the registry is then empty, even if nothing was removed. |
| ApiItem.Filled | src/main/java/fr/bakaaless/api/inventory/ItemAPI.java:72-75 | After `getItem()` a stored stack is kept as is, and a null one is replaced by the generator's value on the cell, which may still be null. |
| ApiItem.Shown | src/main/java/fr/bakaaless/api/inventory/ItemAPI.java:72-78 | `getItem()` never returns null: the stored stack, else the generator's value on the cell, else AIR. |
| ApiItem.GetItemStable | src/main/java/fr/bakaaless/api/inventory/ItemAPI.java:72-78 | A second `getItem()` returns what the first returned and changes nothing more. |
| ApiItem.SettledStable | src/main/java/fr/bakaaless/api/inventory/InventoryAPI.java:467-468 | A second `refresh(o)` plus `getItem()` ends where the first did and writes the same stack. |
| ApiItem.RefreshedLastWins | src/main/java/fr/bakaaless/api/inventory/ItemAPI.java:54-58 | Refreshing with one argument and then another ends as refreshing with the second alone. |
| ApiItem.ItemAPI.Static | src/main/java/fr/bakaaless/api/inventory/ItemAPI.java:27-33 | The stack is stored as given, with no generator. |
| ApiItem.ItemAPI.Generated | src/main/java/fr/bakaaless/api/inventory/ItemAPI.java:41-48 | The stack starts as AIR and is refreshed once with the cell itself. It holds the generator's (possibly null) value on the cell, or AIR when the generator is null. |
| ApiItem.ItemAPI.Refresh | src/main/java/fr/bakaaless/api/inventory/ItemAPI.java:54-58 | The stored stack becomes the generator's value on the argument, and is unchanged without a generator. |
| ApiItem.ItemAPI.GetItem | src/main/java/fr/bakaaless/api/inventory/ItemAPI.java:72-78 | Returns `Shown` and leaves `Filled`: never null, and a stored stack is returned as it is and stays stored. |
| ApiItem.ItemAPI.SetGenerator | src/main/java/fr/bakaaless/api/inventory/ItemAPI.java:100-102 | Replaces the generator only. |
| ApiItem.ItemAPI.SetItem | src/main/java/fr/bakaaless/api/inventory/ItemAPI.java:108-110 | Replaces the stored stack only. |
| ApiItem.ItemAPI.SetCancelled | src/main/java/fr/bakaaless/api/inventory/ItemAPI.java:116-118 | Replaces the protection flag only. |
| ApiItem.ItemAPI.SetConsumer | src/main/java/fr/bakaaless/api/inventory/ItemAPI.java:124-126 | Replaces the consumer only. |
| Grid.Borders | src/main/java/fr/bakaaless/api/inventory/InventoryAPI.java:389-391 | Strictly increasing, and holding exactly the slots of `[0, size)` in the first row, the last row, the left column or the right column, or all of them when the grid is shorter than three rows. |
| Grid.SmallGridIsAllBorder | src/main/java/fr/bakaaless/api/inventory/InventoryAPI.java:390 | Below 27 slots the borders are `0, 1, …, size - 1`. |
| Grid.InnerSlots | src/main/java/fr/bakaaless/api/inventory/InventoryAPI.java:390 | From 27 slots on, a slot is not a border exactly when it is off the first and last rows and off both side columns. |
| Lists.FilterMembers | src/main/java/fr/bakaaless/api/inventory/InventoryAPI.java:286-290 | The removal the iterator performs keeps exactly the elements not on the slot. |
| Lists.Cleared | src/main/java/fr/bakaaless/api/inventory/InventoryAPI.java:284-293 | After `clearSlot` the last element is still last, and no element before it is on the slot. |
| Lists.ClearedMembers | src/main/java/fr/bakaaless/api/inventory/InventoryAPI.java:284-293 | What survives `clearSlot`: the last element, and exactly the earlier elements not on the slot. |
| Lists.ClearedUnowned | src/main/java/fr/bakaaless/api/inventory/InventoryAPI.java:544-545 | `clearSlot` on a slot no cell is on leaves the list as it was. |
| Lists.IterateClear | src/main/java/fr/bakaaless/api/inventory/InventoryAPI.java:284-293 | The iterator loop, with its one-step lag between `next()` and the slot test, computes `Cleared`. |
| Lists.FirstWithSlot | src/main/java/fr/bakaaless/api/inventory/InventoryAPI.java:300-302 | `findFirst`: `None` exactly when no element is on the slot, else an element on the slot with none on it before. |
| Lists.RepeatedAddKeepsStale | src/main/java/fr/bakaaless/api/inventory/InventoryAPI.java:379-383 | Two `addItem` on the same slot in a row leave both cells, the first just before the second, and `getItem` then returns the first. |
| Lists.AddAllEndsWithAdded | src/main/java/fr/bakaaless/api/inventory/InventoryAPI.java:398-452 | Adding cells on distinct slots leaves every added cell in the list, at the end, in the order added. |
| Lists.RemoveFirst | src/main/java/fr/bakaaless/api/inventory/Scheduler.java:90 | `List.remove(Object)`: unchanged when absent; otherwise exactly the first occurrence is dropped and the rest keep their order. |
| Host.PaintedAt | src/main/java/fr/bakaaless/api/inventory/InventoryAPI.java:468 | After a series of `setItem` writes, each slot holds its last write, and a slot nobody writes keeps its content. |
| LegacyItem.ItemAPI.Static | src/main/java/fr/bakaaless/inventory/ItemAPI.java:27-33 | The stack is stored as given with no generator. Every other field is final, so with no generator `refresh` never changes the stack. |
| LegacyItem.ItemAPI.Generated | src/main/java/fr/bakaaless/inventory/ItemAPI.java:41-48 | The stack starts as AIR and is refreshed once with the cell itself as argument. |
| LegacyItem.ItemAPI.Refresh | src/main/java/fr/bakaaless/inventory/ItemAPI.java:54-58 | The stored stack becomes the generator's value on the argument; without a generator nothing changes. |
| LegacyItem.ItemAPI.GetItem | src/main/java/fr/bakaaless/inventory/ItemAPI.java:72-78 | Never null. A stored stack is returned as is and not changed; a null one is refreshed with the cell, then AIR is returned if it is still null. |
| LegacyInventory.NewCell | src/main/java/fr/bakaaless/inventory/InventoryAPI.java:165-171 | `new ItemAPI(...)` for the older cell: fresh, on the slot, with the given flag, consumer and content. |
| LegacyInventory.InventoryAPI.constructor | src/main/java/fr/bakaaless/inventory/InventoryAPI.java:35-41 | Size 9, an empty title, no cells, no refresh function, no surface, not refreshed, not built. |
| LegacyInventory.InventoryAPI.SetSize | src/main/java/fr/bakaaless/inventory/InventoryAPI.java:54-69 | The same guard as the newer `setSize`: refused once built or while the stored size is unacceptable, otherwise the request is stored unchecked. |
| LegacyInventory.InventoryAPI.SetTitle | src/main/java/fr/bakaaless/inventory/InventoryAPI.java:71-82 | Title unchanged once built, otherwise replaced. |
| LegacyInventory.InventoryAPI.SetRefresh | src/main/java/fr/bakaaless/inventory/InventoryAPI.java:84-91 | Refresh flag unchanged once built, otherwise replaced. |
| LegacyInventory.InventoryAPI.SetPopulate | src/main/java/fr/bakaaless/inventory/InventoryAPI.java:93-100 | Refresh function unchanged once built, otherwise replaced. |
| LegacyInventory.InventoryAPI.ClearSlot | src/main/java/fr/bakaaless/inventory/InventoryAPI.java:130-139 | The same iterator loop as the newer version: the list becomes `Cleared`. |
| LegacyInventory.InventoryAPI.GetItem | src/main/java/fr/bakaaless/inventory/InventoryAPI.java:141-143 | `None` exactly when no cell is on the slot; otherwise the first cell on it. |
| LegacyInventory.InventoryAPI.AddItem | src/main/java/fr/bakaaless/inventory/InventoryAPI.java:173-177 | `clearSlot` of the cell's slot, then the cell is appended last. |
| LegacyInventory.InventoryAPI.AddNew | src/main/java/fr/bakaaless/inventory/InventoryAPI.java:145-171 | The `addItem(slot, …)` overloads: a fresh cell appended after `clearSlot` of its slot. |
| LegacyInventory.InventoryAPI.GetBorders | src/main/java/fr/bakaaless/inventory/InventoryAPI.java:179-182 | Defined exactly when a surface exists (otherwise the call dereferences null). The borders of the surface's own size, strictly increasing and exactly the border slots. |
| LegacyInventory.InventoryAPI.AddRun | src/main/java/fr/bakaaless/inventory/InventoryAPI.java:184-212 | One new cell per given slot, in order, each a distinct new object, each added with `addItem`. |
| LegacyInventory.InventoryAPI.SetBorder | src/main/java/fr/bakaaless/inventory/InventoryAPI.java:184-212 | Without a surface it throws before adding anything. Otherwise one fresh cell per border slot of the surface, in increasing order; they end the list in that order. |
| LegacyInventory.InventoryAPI.Build | src/main/java/fr/bakaaless/inventory/InventoryAPI.java:214-241 | Sets `build`. Without a surface (first call, or first after `stop`), one of `size` slots is created, painted, opened, registered with the scheduler when refreshed, and starts listening. With one, it is repainted in place. The refresh function runs once and out-of-bounds cells are untouched. |
| LegacyInventory.InventoryAPI.Open | src/main/java/fr/bakaaless/inventory/InventoryAPI.java:216-229 | `build` without a surface: a blank surface of `size` slots, painted, opened, registered when refreshed, listening. |
| LegacyInventory.InventoryAPI.Repaint | src/main/java/fr/bakaaless/inventory/InventoryAPI.java:231-240 | `build` with a surface: the refresh function once, then the cell loop over the current surface. |
| LegacyInventory.InventoryAPI.PaintCell | src/main/java/fr/bakaaless/inventory/InventoryAPI.java:220-225 | One pass of the build loop: an out-of-bounds cell is skipped untouched, an in-bounds one refreshed and written. |
| LegacyInventory.InventoryAPI.PaintForBuild | src/main/java/fr/bakaaless/inventory/InventoryAPI.java:220-225 | The build loop: the surface after the list's writes; in-bounds cells refreshed then read, others unchanged. |
| LegacyInventory.InventoryAPI.Stop | src/main/java/fr/bakaaless/inventory/InventoryAPI.java:243-248 | No surface and not listening, but `build` is kept, so the guarded setters stay refused; deregistered exactly when refreshed. |
| LegacyInventory.InventoryAPI.OnClose | src/main/java/fr/bakaaless/inventory/InventoryAPI.java:250-259 | Stops exactly when the top surface is its own, or the event's surface is its own and has no holder. No consumer runs, and `build` is kept. |
| LegacyInventory.InventoryAPI.ClickCells | src/main/java/fr/bakaaless/inventory/InventoryAPI.java:266-273 | The cell loop of `onInteract`: the flag is `Clicks.SlotCancelled` of the cells from the event's own flag, and the consumers run are `Clicks.ItemCalls` of the cells when the click carries an item. |
| LegacyInventory.InventoryAPI.OnInteract | src/main/java/fr/bakaaless/inventory/InventoryAPI.java:261-275 | Only a click on this container's surface acts: the cells on the slot set `cancelled` and run their consumers. A slot no cell is on leaves the flag as it was, and the cell list never changes. |

## Left out

- **Host calls.** The logger, `createInventory`/`generate`, `openInventory`, `registerEvents` and `HandlerList.unregisterAll` are not modelled as calls. The host supplies the new surface's identity; opening is recorded in the trace; listening is a boolean.
- **Generators and callbacks.** They are assumed not to touch cells, containers or the event. The refresh function (`setFunction`) appears only as a trace entry. A generator is a deterministic function of the object it is handed, and its invocations are not recorded; the lines below name the members this affects.
- ApiItem.GetItemStable: states that a second `getItem()` returns and stores what the first did; with a generator that returns a different stack on each call, a second read of a stack the first left null can differ, and this is not captured.
- ApiItem.SettledStable: states that a second `refresh(o)` plus `getItem()` ends where the first did, which holds only for a generator that returns the same stack for the same argument.
- ApiItem.RefreshedLastWins: states that the second refresh decides the stack; that the first refresh invoked the generator at all is not recorded.
- ApiInventory.InventoryAPI.ShowCell: states that a repeated read gives the same value as a first read, which relies on the generator being deterministic.
- ApiItem.ItemAPI.GetItem: states the stack returned and stored, not how often the generator ran; that a stored stack is returned without invoking the generator is visible only through the unchanged stored value.
- ApiItem.ItemAPI.Generated: states the stack the cell starts with, not that the generator ran exactly once.
- LegacyItem.ItemAPI.GetItem: as `ApiItem.ItemAPI.GetItem`.
- ApiInventory.Tick: the refresh half states each cell's final stack, the one the last container listing it computes; the generator's earlier invocations on other containers, and the paint half's lazy invocations inside `getItem()`, are not recorded.
- **Timing.** The timer thread, the 50 ms period, `synchronized`, and a `Timer` dying after an exception in a tick are not modelled. `exec` is a sequential method, and `start` and `stop` only update the running flag and the step.
- **Exceptions.** An exception in a tick is the `ok` result. What the timer does with it afterwards is not modelled.
- **Negative slots.** Slots are natural numbers. A negative slot makes the host's `setItem` throw, and that path is not modelled.
- **Surface sizes.** `ApiInventory.InventoryAPI.Build` and `LegacyInventory.InventoryAPI.Build` require a non-negative size when they must create a size-based surface, and accept any other size (0, 10, 60, …) that `setSize` stored. The host's own check of the size (Bukkit wants a multiple of 9 up to 54, and refuses other values with an exception) is not modelled.
- **Setter branches that rebuild the surface.** The branches of `setSize`, `setTitle` and `setType` that clear and regenerate an existing surface cannot run: a surface exists only once `build` is set, and these setters return early then. This includes `setType`'s null dereference. The model proves those branches dead.
- **Older scheduler.** `fr.bakaaless.inventory.Scheduler` is not part of this model. The older container's registration and deregistration appear only as `SchedulerAdd` and `SchedulerRemove` trace entries.
- **Other classes.** `InventoryPlugin` (plugin bootstrap and logging) and `Template` (a copy that relies on an `ItemAPI.clone` the cell does not define) are not part of this model. Neither are the getters.
- **Item stacks.** `ItemStack`, `Material` and `InventoryType` are opaque values with an AIR sentinel. A type is just a name and its capacity.
- **Identity of events.** `e.getView()` and `getTopInventory()` are reduced to an optional surface identity.
