/**
 * The `List<ItemAPI>` operations both container versions share, stated over a
 * sequence of cells and the function that gives each cell's slot: the
 * iterator-driven `clearSlot`, the stream lookup `getItem`, the repeated
 * `addItem` of `setBorder`, and `ArrayList.remove(Object)`.
 */
module Lists {
  import opened Host

  /** The elements of `s` whose slot is not `slot`, in their original order. */
  function Filter<T>(s: seq<T>, slotOf: T -> nat, slot: nat): (r: seq<T>)
    ensures |r| <= |s|
    ensures forall k :: 0 <= k < |r| ==> slotOf(r[k]) != slot
  {
    if s == [] then []
    else Filter(s[..|s| - 1], slotOf, slot) + (if slotOf(s[|s| - 1]) == slot then [] else [s[|s| - 1]])
  }

  /** Filtering keeps exactly the elements whose slot differs. */
  lemma {:induction false} FilterMembers<T>(s: seq<T>, slotOf: T -> nat, slot: nat, x: T)
    ensures x in Filter(s, slotOf, slot) <==> x in s && slotOf(x) != slot
  {
    if s != [] {
      FilterMembers(s[..|s| - 1], slotOf, slot, x);
      assert s == s[..|s| - 1] + [s[|s| - 1]];
    }
  }

  /** Filtering a concatenation filters each part. */
  lemma {:induction false} FilterAppend<T>(a: seq<T>, b: seq<T>, slotOf: T -> nat, slot: nat)
    ensures Filter(a + b, slotOf, slot) == Filter(a, slotOf, slot) + Filter(b, slotOf, slot)
  {
    if b != [] {
      FilterAppend(a, b[..|b| - 1], slotOf, slot);
      assert (a + b)[..|a + b| - 1] == a + b[..|b| - 1];
    } else {
      assert a + b == a;
    }
  }

  /** Filtering a sequence with no element on `slot` changes nothing. */
  lemma {:induction false} FilterUnowned<T>(s: seq<T>, slotOf: T -> nat, slot: nat)
    requires forall k :: 0 <= k < |s| ==> slotOf(s[k]) != slot
    ensures Filter(s, slotOf, slot) == s
  {
    if s != [] {
      FilterUnowned(s[..|s| - 1], slotOf, slot);
    }
  }

  /**
   * The list after `clearSlot(slot)`. The loop inspects the element fetched on
   * the previous step before fetching the next one, so the final element is
   * never inspected: every earlier element on `slot` is removed, the others keep
   * their order, and the last element always stays.
   */
  function Cleared<T>(s: seq<T>, slotOf: T -> nat, slot: nat): (r: seq<T>)
    ensures s == [] ==> r == []
    ensures s != [] ==> |r| > 0 && r[|r| - 1] == s[|s| - 1]
    ensures forall k :: 0 <= k < |r| - 1 ==> slotOf(r[k]) != slot
  {
    if s == [] then [] else Filter(s[..|s| - 1], slotOf, slot) + [s[|s| - 1]]
  }

  /** What survives `clearSlot`: the last element, and the earlier ones not on `slot`. */
  lemma ClearedMembers<T>(s: seq<T>, slotOf: T -> nat, slot: nat, x: T)
    requires s != []
    ensures x in Cleared(s, slotOf, slot) <==> (x in s[..|s| - 1] && slotOf(x) != slot) || x == s[|s| - 1]
  {
    FilterMembers(s[..|s| - 1], slotOf, slot, x);
  }

  /** `clearSlot` on a slot no element occupies leaves the list as it was. */
  lemma ClearedUnowned<T>(s: seq<T>, slotOf: T -> nat, slot: nat)
    requires forall k :: 0 <= k < |s| ==> slotOf(s[k]) != slot
    ensures Cleared(s, slotOf, slot) == s
  {
    if s != [] {
      FilterUnowned(s[..|s| - 1], slotOf, slot);
      assert s == s[..|s| - 1] + [s[|s| - 1]];
    }
  }

  /**
   * The `clearSlot` loop itself: an iterator over the list, a `pending` element
   * (the one `next()` returned last), and `it.remove()` deleting that element in
   * place when its slot matches.
   */
  method IterateClear<T>(items: seq<T>, slotOf: T -> nat, slot: nat) returns (r: seq<T>)
    ensures r == Cleared(items, slotOf, slot)
  {
    r := items;
    var cursor := 0;                  // index of the element `next()` would return
    var pending: Option<T> := None;   // the element `next()` returned last
    ghost var fetched := 0;           // how many elements of `items` `next()` has returned
    ghost var front: seq<T> := [];    // what is left of the elements before `pending`
    while cursor < |r|                // it.hasNext()
      invariant 0 <= fetched <= |items|
      invariant fetched == 0 ==> r == items && cursor == 0 && pending.None? && front == []
      invariant fetched > 0 ==> pending == Some(items[fetched - 1])
      invariant fetched > 0 ==> front == Filter(items[..fetched - 1], slotOf, slot)
      invariant fetched > 0 ==> r == front + items[fetched - 1..] && cursor == |front| + 1
      decreases |items| - fetched
    {
      ghost var rest := items[fetched..];
      if fetched > 0 {
        FilterStep(items, fetched - 1, slotOf, slot);
        assert items[fetched - 1..] == [items[fetched - 1]] + rest;
        assert r == front + [items[fetched - 1]] + rest;
        DropAt(front, items[fetched - 1], rest);
      } else {
        assert rest == items && items[..0] == [];
      }
      if pending.Some? && slotOf(pending.value) == slot {
        r := r[..cursor - 1] + r[cursor..];   // it.remove()
        cursor := cursor - 1;
        assert r == front + rest;
      } else if fetched > 0 {
        front := front + [items[fetched - 1]];
        assert r == front + rest;
      }
      pending := Some(r[cursor]);             // itemAPI = it.next()
      cursor := cursor + 1;
      fetched := fetched + 1;
    }
    assert fetched > 0 ==> items[fetched - 1..] == [items[|items| - 1]];
  }

  /** Removing the element just after `a` from `a + [x] + b` leaves `a + b`. */
  lemma DropAt<T>(a: seq<T>, x: T, b: seq<T>)
    ensures (a + [x] + b)[..|a|] + (a + [x] + b)[|a| + 1..] == a + b
  {
    assert (a + [x] + b)[..|a|] == a;
    assert (a + [x] + b)[|a| + 1..] == b;
  }

  /** Filtering one more element of a prefix appends it unless it is on `slot`. */
  lemma FilterStep<T>(s: seq<T>, n: nat, slotOf: T -> nat, slot: nat)
    requires n < |s|
    ensures slotOf(s[n]) == slot ==> Filter(s[..n + 1], slotOf, slot) == Filter(s[..n], slotOf, slot)
    ensures slotOf(s[n]) != slot ==> Filter(s[..n + 1], slotOf, slot) == Filter(s[..n], slotOf, slot) + [s[n]]
  {
    assert s[..n + 1][..n] == s[..n];
    assert Filter(s[..n], slotOf, slot) + [] == Filter(s[..n], slotOf, slot);
  }

  /** Index of the first element on `slot`. */
  function FirstIndex<T>(s: seq<T>, slotOf: T -> nat, slot: nat): (r: Option<nat>)
    ensures r.None? <==> forall k :: 0 <= k < |s| ==> slotOf(s[k]) != slot
    ensures r.Some? ==> r.value < |s| && slotOf(s[r.value]) == slot
    ensures r.Some? ==> forall j :: 0 <= j < r.value ==> slotOf(s[j]) != slot
  {
    if s == [] then None
    else if slotOf(s[0]) == slot then Some(0)
    else match FirstIndex(s[1..], slotOf, slot)
      case None => None
      case Some(i) => Some(i + 1)
  }

  /** Index of the last element on `slot`: the one whose effects a forward pass over `s` leaves standing. */
  function LastIndex<T>(s: seq<T>, slotOf: T -> nat, slot: nat): (r: Option<nat>)
    ensures r.None? <==> forall k :: 0 <= k < |s| ==> slotOf(s[k]) != slot
    ensures r.Some? ==> r.value < |s| && slotOf(s[r.value]) == slot
    ensures r.Some? ==> forall j :: r.value < j < |s| ==> slotOf(s[j]) != slot
  {
    if s == [] then None
    else if slotOf(s[|s| - 1]) == slot then Some(|s| - 1)
    else LastIndex(s[..|s| - 1], slotOf, slot)
  }

  /** `getItem(slot)`: the first element on `slot` (`findFirst`), if any. */
  function FirstWithSlot<T>(s: seq<T>, slotOf: T -> nat, slot: nat): (r: Option<T>)
    ensures r.None? <==> forall k :: 0 <= k < |s| ==> slotOf(s[k]) != slot
    ensures r.Some? ==> slotOf(r.value) == slot
    ensures r.Some? ==> exists k :: 0 <= k < |s| && s[k] == r.value
                                    && forall j :: 0 <= j < k ==> slotOf(s[j]) != slot
  {
    match FirstIndex(s, slotOf, slot)
    case None => None
    case Some(i) => Some(s[i])
  }

  /**
   * Two `addItem` calls on the same slot in a row leave both cells in the list,
   * the first just before the second, and `getItem` then returns the first.
   */
  lemma RepeatedAddKeepsStale<T>(items: seq<T>, a: T, b: T, slotOf: T -> nat)
    requires slotOf(a) == slotOf(b)
    ensures var once := Cleared(items, slotOf, slotOf(a)) + [a];
            var twice := Cleared(once, slotOf, slotOf(b)) + [b];
            |twice| >= 2 && twice[|twice| - 2] == a && twice[|twice| - 1] == b
            && FirstWithSlot(twice, slotOf, slotOf(a)) == Some(a)
  {
    var s := slotOf(a);
    var once := Cleared(items, slotOf, s) + [a];
    var twice := Cleared(once, slotOf, s) + [b];
    var front := Filter(once[..|once| - 1], slotOf, s);
    assert twice == front + [a] + [b];
    assert twice[|front|] == a;
    var first := FirstIndex(twice, slotOf, s);
    assert first.Some?;
    assert first.value <= |front|;
  }

  /** The list after `addItem` of each element of `added`, in order. */
  function AddAll<T>(items: seq<T>, added: seq<T>, slotOf: T -> nat): seq<T>
  {
    AddFirst(items, added, |added|, slotOf)
  }

  /** The list after `addItem` of the first `n` elements of `added`, in order. */
  function AddFirst<T>(items: seq<T>, added: seq<T>, n: nat, slotOf: T -> nat): seq<T>
    requires n <= |added|
  {
    if n == 0 then items
    else Cleared(AddFirst(items, added, n - 1, slotOf), slotOf, slotOf(added[n - 1])) + [added[n - 1]]
  }

  /** The first `n` adds depend on the first `n` elements only. */
  lemma {:induction false} AddFirstPrefix<T>(items: seq<T>, a: seq<T>, b: seq<T>, n: nat, slotOf: T -> nat)
    requires n <= |a| && n <= |b| && a[..n] == b[..n]
    ensures AddFirst(items, a, n, slotOf) == AddFirst(items, b, n, slotOf)
  {
    if n > 0 {
      assert a[..n - 1] == a[..n][..n - 1] && b[..n - 1] == b[..n][..n - 1];
      AddFirstPrefix(items, a, b, n - 1, slotOf);
      assert a[n - 1] == a[..n][n - 1] && b[n - 1] == b[..n][n - 1];
    }
  }

  /** One more `addItem` after a series of them. */
  lemma AddAllStep<T>(items: seq<T>, added: seq<T>, x: T, slotOf: T -> nat)
    ensures AddAll(items, added + [x], slotOf) == Cleared(AddAll(items, added, slotOf), slotOf, slotOf(x)) + [x]
  {
    assert (added + [x])[..|added|] == added[..|added|];
    AddFirstPrefix(items, added + [x], added, |added|, slotOf);
  }

  /** No two elements of `s` share a slot. */
  predicate DistinctSlots<T>(s: seq<T>, slotOf: T -> nat)
  {
    forall i, j :: 0 <= i < j < |s| ==> slotOf(s[i]) != slotOf(s[j])
  }

  /** One `addItem` after a run of adds whose slots differ from the new one's. */
  lemma {:induction false} AddAfterRun<T>(p: seq<T>, run: seq<T>, x: T, slotOf: T -> nat)
    requires run != []
    requires forall k :: 0 <= k < |run| ==> slotOf(run[k]) != slotOf(x)
    ensures Cleared(p + run, slotOf, slotOf(x)) + [x] == Filter(p, slotOf, slotOf(x)) + run + [x]
  {
    var sx := slotOf(x);
    var whole := p + run;
    var mid := run[..|run| - 1];
    var last := run[|run| - 1];
    assert whole[..|whole| - 1] == p + mid;
    assert whole[|whole| - 1] == last;
    assert Cleared(whole, slotOf, sx) == Filter(p + mid, slotOf, sx) + [last];
    FilterAppend(p, mid, slotOf, sx);
    FilterUnowned(mid, slotOf, sx);
    assert Filter(p + mid, slotOf, sx) == Filter(p, slotOf, sx) + mid;
    assert run == mid + [last];
  }

  /** `s` ends with the elements of `t`, in order. */
  ghost predicate EndsWith<T>(s: seq<T>, t: seq<T>)
  {
    |s| >= |t| && forall k :: 0 <= k < |t| ==> s[|s| - |t| + k] == t[k]
  }

  /**
   * One more `addItem`, on a slot the run of adds before it does not use,
   * extends that run at the end of the list.
   */
  lemma AddOneAfterRun<T>(a: seq<T>, run: seq<T>, x: T, slotOf: T -> nat)
    requires run != [] && EndsWith(a, run)
    requires forall k :: 0 <= k < |run| ==> slotOf(run[k]) != slotOf(x)
    ensures EndsWith(Cleared(a, slotOf, slotOf(x)) + [x], run + [x])
  {
    var p := a[..|a| - |run|];
    assert a == p + run;
    AddAfterRun(p, run, x, slotOf);
    assert Cleared(a, slotOf, slotOf(x)) + [x] == Filter(p, slotOf, slotOf(x)) + (run + [x]);
  }

  /** The first `n` adds, on pairwise distinct slots, leave those cells at the end of the list, in order. */
  lemma {:induction false} AddFirstEndsWithAdded<T>(items: seq<T>, added: seq<T>, n: nat, slotOf: T -> nat)
    requires n <= |added| && DistinctSlots(added, slotOf)
    ensures EndsWith(AddFirst(items, added, n, slotOf), added[..n])
  {
    if n > 0 {
      AddFirstEndsWithAdded(items, added, n - 1, slotOf);
      var a := AddFirst(items, added, n - 1, slotOf);
      var x := added[n - 1];
      assert AddFirst(items, added, n, slotOf) == Cleared(a, slotOf, slotOf(x)) + [x];
      var run := added[..n - 1];
      assert added[..n] == run + [x];
      if n > 1 {
        assert forall k :: 0 <= k < |run| ==> slotOf(run[k]) != slotOf(x) by {
          forall k | 0 <= k < |run| ensures slotOf(run[k]) != slotOf(x) {
            assert run[k] == added[k];
          }
        }
        AddOneAfterRun(a, run, x, slotOf);
      }
    }
  }

  /**
   * Adding cells on pairwise distinct slots leaves every added cell in the list,
   * at the end and in the order added.
   */
  lemma AddAllEndsWithAdded<T>(items: seq<T>, added: seq<T>, slotOf: T -> nat)
    requires DistinctSlots(added, slotOf)
    ensures EndsWith(AddAll(items, added, slotOf), added)
  {
    AddFirstEndsWithAdded(items, added, |added|, slotOf);
    assert added[..|added|] == added;
  }

  /** Index of the first occurrence of `x`. */
  function IndexOf<T(==)>(s: seq<T>, x: T): (r: Option<nat>)
    ensures r.None? <==> x !in s
    ensures r.Some? ==> r.value < |s| && s[r.value] == x && x !in s[..r.value]
  {
    if s == [] then None
    else if s[0] == x then Some(0)
    else match IndexOf(s[1..], x)
      case None => None
      case Some(i) => assert s[..i + 1] == [s[0]] + s[1..][..i]; Some(i + 1)
  }

  /** `List.remove(Object)`: drop the first occurrence of `x`, if any, keeping the order of the rest. */
  function RemoveFirst<T(==)>(s: seq<T>, x: T): (r: seq<T>)
    ensures x !in s ==> r == s
    ensures x in s ==> |r| == |s| - 1 && multiset(r) == multiset(s) - multiset{x}
    ensures x in s ==> exists k :: 0 <= k < |s| && s[k] == x && x !in s[..k] && r == s[..k] + s[k + 1..]
  {
    match IndexOf(s, x)
    case None => s
    case Some(k) =>
      assert s == s[..k] + [s[k]] + s[k + 1..];
      s[..k] + s[k + 1..]
  }

  /** A prefix one element longer. */
  lemma PrefixSnoc<T>(s: seq<T>, k: nat)
    requires k < |s|
    ensures s[..k + 1] == s[..k] + [s[k]]
    ensures multiset(s[..k + 1]) == multiset(s[..k]) + multiset{s[k]}
  {
    assert s[..k + 1] == s[..k] + [s[k]];
  }
}
