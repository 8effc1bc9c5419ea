/**
 * SmartMemoryPool: a fixed-capacity pool of slots for values of one type.
 *
 * The pool owns a slab of `capacity` blocks allocated once. Unused blocks form
 * a LIFO free list threaded through their links, starting at `head`; `avail`
 * counts the free slots. `Construct` claims the head slot and stores a value
 * in it, handing out a handle; `Destruct` and the handle's deleter push the
 * slot back. The deleter reaches the pool through a weak reference, modelled
 * by the pool's `alive` flag: once the pool is destroyed, releasing a handle
 * does nothing.
 *
 * Slots are named by their index in the slab, and NULL stands for `nullptr`.
 * The ghost fields `free` and `inUse` give the abstract state: the free list
 * in order from the head, and the slots handed out.
 */
module SmartMemoryPool {
  import opened FreeList

  /** One more than the largest `uint64_t`: the capacity and the counter are
      64-bit unsigned in the pool. */
  const UINT64_LIMIT: int := 0x1_0000_0000_0000_0000

  datatype Option<T> = None | Some(value: T)

  /** The deleter attached to every handle: a weak reference to its pool. */
  datatype Deleter<T> = Deleter(parent: Pool<T>)
  {
    /** Releasing a slot through the deleter: only if the pool is still
        alive is the slot returned to it; otherwise nothing happens at all
        (the value's destructor is not run either). */
    method Apply(ptr: int)
      requires parent.alive ==> parent.Valid() && ptr in parent.inUse
      modifies parent, parent.slab
      ensures !old(parent.alive) ==> unchanged(parent) && unchanged(parent.slab)
      ensures old(parent.alive) ==>
        && parent.Valid()
        && parent.head == ptr
        && parent.slab[..] == old(parent.slab[..])[ptr := Link(old(parent.head))]
        && parent.free == [ptr] + old(parent.free)
        && parent.inUse == old(parent.inUse) - {ptr}
        && parent.avail == old(parent.avail) + 1
    {
      if parent.alive {
        parent.Deallocate(ptr);
      }
    }
  }

  /** What `construct` returns: the slot holding the new value, or None for
      the null handle, together with the deleter bound to the pool. */
  datatype Handle<T> = Handle(ptr: Option<int>, deleter: Deleter<T>)

  /** A handle going out of scope: the deleter runs only for a non-null
      handle, so releasing the null handle is a no-op. */
  method ReleaseHandle<T>(h: Handle<T>)
    requires h.ptr.Some? && h.deleter.parent.alive ==>
      h.deleter.parent.Valid() && h.ptr.value in h.deleter.parent.inUse
    modifies h.deleter.parent, h.deleter.parent.slab
    ensures h.ptr.None? || !old(h.deleter.parent.alive) ==>
      unchanged(h.deleter.parent) && unchanged(h.deleter.parent.slab)
    ensures h.ptr.Some? && old(h.deleter.parent.alive) ==>
      var pool := h.deleter.parent;
      && pool.Valid()
      && pool.head == h.ptr.value
      && pool.slab[..] == old(pool.slab[..])[h.ptr.value := Link(old(pool.head))]
      && pool.free == [h.ptr.value] + old(pool.free)
      && pool.inUse == old(pool.inUse) - {h.ptr.value}
      && pool.avail == old(pool.avail) + 1
  {
    if h.ptr.Some? {
      h.deleter.Apply(h.ptr.value);
    }
  }

  class Pool<T> {
    const capacity: nat
    /** The slab: one block per slot. */
    const slab: array<Block<T>>
    /** The first free slot, or NULL when every slot is in use. */
    var head: int
    /** The counter of free slots reported by `Available`. */
    var avail: nat
    /** Whether the pool still exists, as seen through a deleter's weak
        reference. */
    var alive: bool

    /** The free slots, in the order the free list visits them. */
    ghost var free: seq<int>
    /** The slots handed out and not yet returned. */
    ghost var inUse: set<int>

    /** The links of the slab form the free list: a duplicate-free chain
        from `head`, and every slot either on it or in use. */
    ghost predicate LinksValid()
      reads this, slab
    {
      && alive
      && 0 < capacity < UINT64_LIMIT
      && slab.Length == capacity
      && FreeListOf(slab[..], head, free, inUse)
    }

    /** The pool invariant between public operations: the free list is well
        formed, the counter equals its length, and every slot in use holds a
        value. */
    ghost predicate Valid()
      reads this, slab
    {
      && LinksValid()
      && avail == |free|
      && HoldValues(slab[..], inUse)
    }

    /** Building the pool: every slot is free, linked in index order
        0 -> 1 -> ... -> capacity-1 -> NULL, none is in use and the counter
        equals the capacity. The last slot's link is NULL because the slab is
        value-initialised; the loop never writes it. */
    constructor (capacity: nat)
      requires 0 < capacity < UINT64_LIMIT
      ensures Valid() && fresh(slab)
      ensures this.capacity == capacity
      ensures head == 0 && avail == capacity
      ensures free == seq(capacity, k => k) && inUse == {}
      ensures forall k :: 0 <= k < capacity ==>
        slab[k] == Link(if k + 1 < capacity then k + 1 else NULL)
    {
      this.capacity := capacity;
      slab := new Block<T>[capacity](_ => Link(NULL));
      new;
      var i := 1;
      while i < capacity
        invariant 1 <= i <= capacity
        invariant forall k :: 0 <= k < capacity ==>
          slab[k] == Link(if k + 1 < i then k + 1 else NULL)
      {
        slab[i - 1] := Link(i);
        i := i + 1;
      }
      head := 0;
      avail := capacity;
      alive := true;
      free := seq(capacity, k => k);
      inUse := {};
      InitialFreeList(slab[..]);
    }

    /** `allocate`: pop the head of the free list. None exactly when the
        list is empty, and then nothing changes; otherwise the old head, the
        new head being its former link. The counter is left alone (the
        caller, `Construct`, decrements it). */
    method Allocate() returns (slot: Option<int>)
      requires Valid()
      modifies this
      ensures LinksValid()
      ensures slot.None? <==> old(head) == NULL
      ensures slot.None? <==> old(free) == []
      ensures slot.None? ==> unchanged(this)
      ensures slot.Some? ==>
        && slot.value == old(head)
        && 0 <= slot.value < capacity
        && old(slab[slot.value]) == Link(head)
        && slot.value !in old(inUse)
        && free == old(free)[1..]
        && inUse == old(inUse) + {slot.value}
      ensures avail == old(avail)
      ensures HoldValues(slab[..], old(inUse))
    {
      if head == NULL {
        return None;
      }
      PopKeeps(slab[..], head, free, inUse);
      slot := Some(head);
      head := slab[head].next;
      free := free[1..];
      inUse := inUse + {slot.value};
    }

    /** `deallocate`: push a slot in use back; it becomes the head, linked to
        the old head, and the counter goes up by one (it cannot wrap: the
        counter never exceeds the capacity). */
    method Deallocate(p: int)
      requires Valid()
      requires p in inUse
      modifies this, slab
      ensures Valid()
      ensures head == p
      ensures slab[..] == old(slab[..])[p := Link(old(head))]
      ensures free == [p] + old(free)
      ensures inUse == old(inUse) - {p}
      ensures avail == old(avail) + 1
    {
      SlotCounts(capacity, free, inUse);
      assert avail + 1 <= capacity < UINT64_LIMIT;
      PushKeeps(slab[..], head, free, inUse, p);
      slab[p] := Link(head);
      head := p;
      free := [p] + free;
      inUse := inUse - {p};
      avail := avail + 1;
    }

    /** `construct`: when every slot is in use (the free list is empty) the
        null handle, and nothing changes; otherwise the head slot moves from
        free to in use, now holding `v`, and the counter goes down by one.
        Either way the handle's deleter is bound to this pool. */
    method Construct(v: T) returns (h: Handle<T>)
      requires Valid()
      modifies this, slab
      ensures Valid()
      ensures h.deleter == Deleter(this)
      ensures h.ptr.None? <==> old(|inUse|) == capacity
      ensures h.ptr.None? <==> old(head) == NULL
      ensures h.ptr.None? ==> unchanged(this) && unchanged(slab)
      ensures h.ptr.Some? ==>
        && h.ptr.value == old(head)
        && h.ptr.value !in old(inUse)
        && old(slab[h.ptr.value]) == Link(head)
        && slab[..] == old(slab[..])[h.ptr.value := Holds(v)]
        && free == old(free)[1..]
        && inUse == old(inUse) + {h.ptr.value}
        && avail == old(avail) - 1
    {
      SlotCounts(capacity, free, inUse);
      var slot := Allocate();
      if slot.None? {
        return Handle(None, Deleter(this));
      }
      avail := avail - 1;
      StoreKeeps(slab[..], head, free, inUse, slot.value, v);
      slab[slot.value] := Holds(v);
      h := Handle(slot, Deleter(this));
    }

    /** `destruct(pointer)`: a null pointer changes nothing; otherwise the
        slot is returned exactly as by `Deallocate`. */
    method DestructRaw(p: Option<int>)
      requires Valid()
      requires p.Some? ==> p.value in inUse
      modifies this, slab
      ensures Valid()
      ensures p.None? ==> unchanged(this) && unchanged(slab)
      ensures p.Some? ==>
        && head == p.value
        && slab[..] == old(slab[..])[p.value := Link(old(head))]
        && free == [p.value] + old(free)
        && inUse == old(inUse) - {p.value}
        && avail == old(avail) + 1
    {
      if p.None? {
        return;
      }
      Deallocate(p.value);
    }

    /** `destruct(handle)`: takes the pointer out of the handle (so its
        deleter never runs) and destructs that pointer. */
    method DestructHandle(h: Handle<T>)
      requires Valid()
      requires h.ptr.Some? ==> h.ptr.value in inUse
      modifies this, slab
      ensures Valid()
      ensures h.ptr.None? ==> unchanged(this) && unchanged(slab)
      ensures h.ptr.Some? ==>
        && head == h.ptr.value
        && slab[..] == old(slab[..])[h.ptr.value := Link(old(head))]
        && free == [h.ptr.value] + old(free)
        && inUse == old(inUse) - {h.ptr.value}
        && avail == old(avail) + 1
    {
      var raw := h.ptr;
      DestructRaw(raw);
    }

    /** `available`: the counter, which is the length of the free list and
        the number of slots not in use. */
    function Available(): (r: nat)
      reads this, slab
      requires Valid()
      ensures r == |free|
      ensures r + |inUse| == capacity
    {
      SlotCounts(capacity, free, inUse);
      avail
    }

    /** Destroying the pool: from then on every deleter's weak reference to
        it fails. */
    method Destroy()
      requires alive
      modifies this`alive
      ensures !alive
    {
      alive := false;
    }
  }
}
