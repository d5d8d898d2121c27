/**
 * `fr.bakaaless.inventory.ItemAPI`, the older cell: a fixed slot, an optional
 * generator, a protection flag and a click consumer, all final; only the
 * stored stack changes. Refreshing and reading follow the same rules as the
 * newer cell (`ApiItem.Refreshed`, `ApiItem.Filled`, `ApiItem.Shown`).
 */
module LegacyItem {
  import opened Host
  import ApiItem

  class ItemAPI {
    const slot: nat
    const generator: Option<Generator>
    const cancelled: bool
    const consumer: Callback
    var item: Option<ItemStack>

    /** The static-stack constructor: no generator, so the stack is kept as given for good. */
    constructor Static(slot: nat, item: Option<ItemStack>, cancelled: bool, consumer: Callback)
      ensures this.slot == slot && this.item == item && generator == None
      ensures this.cancelled == cancelled && this.consumer == consumer
    {
      this.slot := slot;
      this.item := item;
      this.generator := None;
      this.cancelled := cancelled;
      this.consumer := consumer;
    }

    /**
     * The generator constructor: the stack starts as AIR and is then refreshed
     * once with the cell itself as argument.
     */
    constructor Generated(slot: nat, generator: Option<Generator>, cancelled: bool, consumer: Callback)
      ensures this.slot == slot && this.generator == generator
      ensures this.cancelled == cancelled && this.consumer == consumer
      ensures item == ApiItem.Refreshed(generator, Some(Air), Handed(this))
    {
      this.slot := slot;
      this.generator := generator;
      this.cancelled := cancelled;
      this.consumer := consumer;
      this.item := Some(Air);
      new;
      Refresh(Handed(this));
    }

    /** The cell itself, as a generator's argument. */
    function Self(): Argument
    {
      Handed(this)
    }

    /** `refresh(o)`: recompute the stack from the generator; a cell without one keeps its stack. */
    method Refresh(o: Argument)
      modifies `item
      ensures item == ApiItem.Refreshed(generator, old(item), o)
      ensures generator.None? ==> item == old(item)
    {
      if generator.Some? {
        item := generator.value(o);
      }
    }

    /**
     * `getItem()`: a null stack is refreshed with the cell itself; the result is
     * the stack, or AIR if it is still null. A stored stack is returned as is
     * and the generator is not run.
     */
    method GetItem() returns (r: ItemStack)
      modifies `item
      ensures r == ApiItem.Shown(generator, old(item), Self())
      ensures item == ApiItem.Filled(generator, old(item), Self())
      ensures old(item).Some? ==> r == old(item).value && item == old(item)
    {
      if item.None? {
        Refresh(Handed(this));
      }
      if item.None? {
        return Air;
      }
      r := item.value;
    }
  }

  /** `getSlot()`, as a function the list operations can take. */
  function SlotOf(it: ItemAPI): nat
  {
    it.slot
  }
}
