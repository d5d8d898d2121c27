/**
 * The host's inventory events, reduced to the surface identities, slots, items
 * and the `cancelled` flag the handlers read and write.
 */
module Events {
  import opened Host

  /**
   * `InventoryCloseEvent`: the view's top surface, the event's surface, and
   * whether that surface has no holder.
   */
  datatype CloseEvent = CloseEvent(top: SurfaceId, inventory: SurfaceId, holderIsNull: bool)

  /**
   * `InventoryClickEvent`. `top` is `None` when the event has no view or the
   * view no top surface; `clicked` is `None` when no surface was clicked.
   * `current` is `getCurrentItem()`, and `shown` is what the event's surface
   * holds at `slot` (`getInventory().getItem(getSlot())`).
   */
  datatype ClickEvent = ClickEvent(
    top: Option<SurfaceId>,
    clicked: Option<SurfaceId>,
    slot: nat,
    current: Option<ItemStack>,
    shown: Option<ItemStack>,
    cancelled: bool)

  /** `InventoryDragEvent`: the target surface and the slots the drag covers. */
  datatype DragEvent = DragEvent(inventory: SurfaceId, inventorySlots: set<nat>, rawSlots: set<nat>, cancelled: bool)

  /** `InventoryMoveItemEvent`: the three surfaces involved in the transfer. */
  datatype MoveEvent = MoveEvent(source: SurfaceId, initiator: SurfaceId, destination: SurfaceId, cancelled: bool)

  /** `id.equals(inventory)`: false while the container holds no surface. */
  predicate Targets(inventory: Option<Surface>, id: SurfaceId)
  {
    inventory.Some? && inventory.value.id == id
  }
}
