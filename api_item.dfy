/**
 * `fr.bakaaless.api.inventory.ItemAPI`: one cell of a container, bound to a
 * fixed slot, holding either a static item stack or a generator that recomputes
 * it, an interaction-protection flag and a click consumer.
 */
module ApiItem {
  import opened Host

  /**
   * The stored stack after `refresh(o)`: the generator's value on `o` when the
   * cell has a generator, and the stored stack unchanged otherwise.
   */
  function Refreshed(generator: Option<Generator>, item: Option<ItemStack>, o: Argument): Option<ItemStack>
  {
    match generator
    case None => item
    case Some(g) => g(o)
  }

  /**
   * The stored stack after `getItem()`: a null stack is first refreshed with the
   * cell itself (`self`) as the generator's argument.
   */
  function Filled(generator: Option<Generator>, item: Option<ItemStack>, self: Argument): (r: Option<ItemStack>)
    ensures item.Some? ==> r == item
    ensures generator.None? ==> r == item
    ensures item.None? && generator.Some? ==> r == generator.value(self)
  {
    if item.None? then Refreshed(generator, item, self) else item
  }

  /**
   * What `getItem()` returns: the filled stack, or AIR when it is still null.
   * It is never null, and a stored stack is returned as it is.
   */
  function Shown(generator: Option<Generator>, item: Option<ItemStack>, self: Argument): (r: ItemStack)
    ensures item.Some? ==> r == item.value
    ensures item.None? && generator.None? ==> r == Air
    ensures item.None? && generator.Some? ==> r == match generator.value(self) case Some(s) => s case None => Air
  {
    match Filled(generator, item, self)
    case Some(s) => s
    case None => Air
  }

  /** A second `getItem()` returns what the first returned and leaves the stored stack as the first left it. */
  lemma GetItemStable(generator: Option<Generator>, item: Option<ItemStack>, self: Argument)
    ensures Filled(generator, Filled(generator, item, self), self) == Filled(generator, item, self)
    ensures Shown(generator, Filled(generator, item, self), self) == Shown(generator, item, self)
  {
  }

  /**
   * The stored stack after `refresh(o)` followed by `getItem()`, the pair the
   * container's `build` applies to each cell.
   */
  function Settled(generator: Option<Generator>, item: Option<ItemStack>, o: Argument, self: Argument): Option<ItemStack>
  {
    Filled(generator, Refreshed(generator, item, o), self)
  }

  /**
   * Refreshing and reading a cell twice with the same argument ends as once, and
   * the second read shows what the first showed: a cell listed twice in a
   * container is painted the same way both times.
   */
  lemma SettledStable(generator: Option<Generator>, item: Option<ItemStack>, o: Argument, self: Argument)
    ensures Settled(generator, Settled(generator, item, o, self), o, self) == Settled(generator, item, o, self)
    ensures Shown(generator, Refreshed(generator, Settled(generator, item, o, self), o), self)
            == Shown(generator, Refreshed(generator, item, o), self)
  {
  }

  /** Refreshing with `o1` and then `o2` ends as refreshing with `o2` alone. */
  lemma RefreshedLastWins(generator: Option<Generator>, item: Option<ItemStack>, o1: Argument, o2: Argument)
    ensures Refreshed(generator, Refreshed(generator, item, o1), o2) == Refreshed(generator, item, o2)
  {
  }

  class ItemAPI {
    const slot: nat
    var generator: Option<Generator>
    var item: Option<ItemStack>
    var cancelled: bool
    var consumer: Callback

    /** The static-stack constructor: no generator. */
    constructor Static(slot: nat, item: Option<ItemStack>, cancelled: bool, consumer: Callback)
      ensures this.slot == slot && this.item == item && generator == None
      ensures this.cancelled == cancelled && this.consumer == consumer
    {
      this.slot := slot;
      this.item := item;
      this.generator := None;
      this.cancelled := cancelled;
      this.consumer := consumer;
    }

    /**
     * The generator constructor: the stack starts as AIR and is then refreshed
     * with the cell itself as argument, so a cell with a generator holds that
     * generator's value on the cell, and one built with a null generator holds AIR.
     */
    constructor Generated(slot: nat, generator: Option<Generator>, cancelled: bool, consumer: Callback)
      ensures this.slot == slot && this.generator == generator
      ensures this.cancelled == cancelled && this.consumer == consumer
      ensures item == Refreshed(generator, Some(Air), Handed(this))
    {
      this.slot := slot;
      this.generator := generator;
      this.item := Some(Air);
      new;
      Refresh(Handed(this));
      this.cancelled := cancelled;
      this.consumer := consumer;
    }

    /** The cell itself, as a generator's argument. */
    function Self(): Argument
    {
      Handed(this)
    }

    /** `refresh(o)`: recompute the stack from the generator, if there is one. */
    method Refresh(o: Argument)
      modifies `item
      ensures item == Refreshed(generator, old(item), o)
    {
      if generator.Some? {
        item := generator.value(o);
      }
    }

    /**
     * `getItem()`: a null stack is refreshed with the cell itself; the result is
     * the stack, or AIR if it is still null.
     */
    method GetItem() returns (r: ItemStack)
      modifies `item
      ensures r == Shown(generator, old(item), Handed(this))
      ensures item == Filled(generator, old(item), Handed(this))
    {
      if item.None? {
        Refresh(Handed(this));
      }
      if item.None? {
        return Air;
      }
      r := item.value;
    }

    /** `setFunction`. */
    method SetGenerator(generator: Option<Generator>)
      modifies `generator
      ensures this.generator == generator
    {
      this.generator := generator;
    }

    /** `setItem`. */
    method SetItem(item: Option<ItemStack>)
      modifies `item
      ensures this.item == item
    {
      this.item := item;
    }

    /** `setCancelled`. */
    method SetCancelled(cancelled: bool)
      modifies `cancelled
      ensures this.cancelled == cancelled
    {
      this.cancelled := cancelled;
    }

    /** `setConsumer`. */
    method SetConsumer(consumer: Callback)
      modifies `consumer
      ensures this.consumer == consumer
    {
      this.consumer := consumer;
    }
  }

  /** `getSlot()`, as a function the list operations can take. */
  function SlotOf(it: ItemAPI): nat
  {
    it.slot
  }
}
