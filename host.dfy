/**
 * What the inventory library consumes from its host server, reduced to values:
 * item stacks with an AIR sentinel, display surfaces with an identity and a
 * fixed number of slots, and user callbacks whose only observable effect is
 * that they were invoked.
 */
module Host {

  /** `None` stands for Java's `null`. */
  datatype Option<+T> = None | Some(value: T)

  /** An opaque item stack; `Air` is `new ItemStack(Material.AIR)`. */
  datatype ItemStack = Air | Stack(material: nat, amount: nat)

  /** Identity of a host display surface (a Bukkit `Inventory`). */
  type SurfaceId = nat

  /** Identity of the player a surface is opened for. */
  type Viewer = nat

  /** Identity of a user-supplied consumer; the model only records its invocations. */
  type Callback = nat

  /** The empty consumer `inventoryClickEvent -> {}` the short `addItem` overloads pass. */
  const NoOp: Callback := 0

  /**
   * The object a generator is handed, compared by reference: a container
   * (`refresh(this)` from the container's code) or the cell itself
   * (`refresh(this)` from the cell's own code). The wrapper lets a field hold
   * a generator over objects without the field's type naming a class.
   */
  datatype Argument = Handed(obj: object)

  /**
   * A user-supplied item generator (`Function<Object, ItemStack>`), applied to the
   * object it is handed; a `None` result is a generator returning `null`.
   */
  type Generator = Argument -> Option<ItemStack>

  /** A host-defined fixed layout (`InventoryType`) with the capacity the host gives it. */
  datatype InventoryType = InventoryType(name: string, capacity: nat)

  /** A materialised display surface: its identity and its slots (`None` is an empty slot). */
  datatype Surface = Surface(id: SurfaceId, slots: seq<Option<ItemStack>>)

  /** The slots of a freshly created or cleared surface. */
  function Blank(n: nat): (r: seq<Option<ItemStack>>)
    ensures |r| == n
    ensures forall k :: 0 <= k < n ==> r[k] == None
  {
    seq(n, _ => None)
  }

  /** One invocation of user or host code, as recorded in a container's trace. */
  datatype Call =
    | Populate(callback: Callback)                  // the container's refresh function
    | Closed(callback: Callback)                    // the container's close consumer
    | Clicked(callback: Callback)                   // the container's click consumer
    | ItemClicked(callback: Callback, slot: nat)    // an item's click consumer
    | Opened(viewer: Viewer)                        // the host opening the surface for a player
    | SchedulerAdd                                  // registration with the older package's scheduler
    | SchedulerRemove                               // deregistration from the older package's scheduler

  /** `n` copies of `c`. */
  function Repeat(c: Call, n: nat): (r: seq<Call>)
    ensures |r| == n
    ensures forall k :: 0 <= k < n ==> r[k] == c
  {
    if n == 0 then [] else Repeat(c, n - 1) + [c]
  }

  /** The value of the last write aimed at slot `k`, if any. */
  function LastWrite(writes: seq<(nat, ItemStack)>, k: nat): Option<ItemStack>
  {
    if writes == [] then None
    else if writes[|writes| - 1].0 == k then Some(writes[|writes| - 1].1)
    else LastWrite(writes[..|writes| - 1], k)
  }

  /**
   * The slots after `setItem(slot, value)` for each write in order; a write whose
   * slot lies beyond the surface is skipped.
   */
  function Painted(slots: seq<Option<ItemStack>>, writes: seq<(nat, ItemStack)>): (r: seq<Option<ItemStack>>)
    ensures |r| == |slots|
  {
    if writes == [] then slots
    else
      var before := Painted(slots, writes[..|writes| - 1]);
      var (k, v) := writes[|writes| - 1];
      if k < |before| then before[k := Some(v)] else before
  }

  /** One more write on top of earlier ones. */
  lemma PaintedSnoc(slots: seq<Option<ItemStack>>, writes: seq<(nat, ItemStack)>, w: (nat, ItemStack))
    ensures Painted(slots, writes + [w]) == if w.0 < |slots| then Painted(slots, writes)[w.0 := Some(w.1)] else Painted(slots, writes)
  {
    assert (writes + [w])[..|writes|] == writes;
  }

  /** The slots after each prefix of `writes`: `pre[j]` is `slots` after the first `j` writes. */
  lemma PaintedByPrefix(slots: seq<Option<ItemStack>>, writes: seq<(nat, ItemStack)>) returns (pre: seq<seq<Option<ItemStack>>>)
    ensures |pre| == |writes| + 1 && pre[0] == slots && pre[|writes|] == Painted(slots, writes)
    ensures forall j :: 0 <= j <= |writes| ==> |pre[j]| == |slots|
    ensures forall j :: 0 <= j < |writes| ==>
              pre[j + 1] == if writes[j].0 < |slots| then pre[j][writes[j].0 := Some(writes[j].1)] else pre[j]
  {
    pre := seq(|writes| + 1, j requires 0 <= j <= |writes| => Painted(slots, writes[..j]));
    forall j | 0 <= j < |writes|
      ensures pre[j + 1] == if writes[j].0 < |slots| then pre[j][writes[j].0 := Some(writes[j].1)] else pre[j]
    {
      assert writes[..j + 1] == writes[..j] + [writes[j]];
      PaintedSnoc(slots, writes[..j], writes[j]);
    }
    assert writes[..|writes|] == writes;
  }

  /** Each slot ends up holding its last write, and a slot nobody writes keeps its content. */
  lemma {:induction false} PaintedAt(slots: seq<Option<ItemStack>>, writes: seq<(nat, ItemStack)>, k: nat)
    requires k < |slots|
    ensures Painted(slots, writes)[k] == match LastWrite(writes, k)
                                         case Some(v) => Some(v)
                                         case None => slots[k]
  {
    if writes != [] {
      PaintedAt(slots, writes[..|writes| - 1], k);
    }
  }
}
