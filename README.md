# SmartMemoryPool in Dafny

A model of `jshellen::SmartMemoryPool`, a fixed-capacity object pool. The pool
allocates a slab of `capacity` slots once. Its unused slots form a LIFO free
list threaded through the slots themselves, and an `available` counter
tracks how many slots are free. `construct` claims the head slot and builds a
value in it. It hands back a `unique_ptr` whose `SmartDeleter` holds a weak
reference to the pool. `destruct` and the deleter give the slot back.

The model has four modules:

- `FreeList` (`free_list.dfy`): the free list as a specification over slot
  indices.
  - A slot is a `Block`: either `Link(next)` or `Holds(value)`. This is the
    `MemoryBlock` union, with a tag for which member is live.
  - `Chain` says an abstract sequence of free slots is exactly what the links
    spell out from the head, without repeats.
  - `Partition` says every slot is free or in use, never both.
  - `Walk` reads the slots that successive pops of the head would return,
    one link per pop.
  - The lemmas cover the constructor's slab, popping, pushing and storing a
    value. They also prove the counting facts: the free slots plus the slots
    in use add up to the capacity.
- `SmartMemoryPool` (`smart_memory_pool.dfy`): the pool as a class.
  - The fields are the slab (`array<Block<T>>`), the head slot, the counter
    and an `alive` flag.
  - Ghost fields `free` and `inUse` hold the abstract state.
  - Every public operation except `Destroy` keeps `Valid()`: the links form
    the free list, the slots are partitioned, the counter equals the free
    list's length, and every slot in use holds a value. `Destroy` ends the
    pool, so `Valid()`, which requires a live pool, no longer holds.
  - `Deleter` and `Handle` model `SmartDeleter` and the pool's `unique_ptr`.
- `ConstructorLoop` (`constructor_loop.dfy`): the constructor's linking loop
  with its 32-bit `int` counter (see Findings).
- `Scenarios` (`scenarios.dfy`): caller-side consequences, derived only from
  the operations' contracts.
  - LIFO reuse.
  - Exhausting a pool.
  - The capacity-two walk-through.
  - Releasing a handle after its pool is gone.

Slots are named by their index in the slab, and `NULL` (-1) stands for
`nullptr`. A handle is a slot index or `None`, together with a deleter bound
to the pool. The pool's weak self-reference (`mThisPtr`) is modelled by
`alive`: a deleter's `lock()` succeeds exactly while the pool is alive.

Two facts about the code shape the model:

- **The deleter.** The liveness check guards both the value's destructor
  and `deallocate` (inc/SmartMemoryPool.hh:29-32). So a dead pool's deleter
  does nothing at all.
- **The counter.** `construct` decrements the counter
  (inc/SmartMemoryPool.hh:142), not `allocate`. So `Pool.Allocate` leaves
  `avail` alone, and `Valid()` holds again only after `Construct`
  decrements it.

## Model

| member | source | states |
|---|---|---|
| `SmartMemoryPool.Pool.constructor` | inc/SmartMemoryPool.hh:85-95 | for 0 < capacity < 2^64: every slot is free, linked in index order 0 -> 1 -> ... -> capacity-1 -> NULL, with head 0, no slot in use, counter = capacity, and the pool invariant holds |
| `SmartMemoryPool.Pool.Allocate` | inc/SmartMemoryPool.hh:101-111 | returns None exactly when the head is NULL (the free list is empty), and then nothing changes; otherwise returns the old head, whose former link becomes the head, the rest of the free list is unchanged, the slot moves to in use, and the counter is untouched |
| `SmartMemoryPool.Pool.Deallocate` | inc/SmartMemoryPool.hh:116-125 | on a slot in use: it becomes the head, linked to the old head, is pushed on the free list and leaves the slots in use; only that slot changes; the counter goes up by exactly one without wrapping; the invariant is kept |
| `SmartMemoryPool.Pool.Construct` | inc/SmartMemoryPool.hh:132-150 | null handle exactly when all `capacity` slots are in use (head NULL), and then nothing changes; otherwise the old head slot goes from free to in use holding the value, the counter drops by one, and the invariant is kept; the handle's deleter is bound to this pool either way |
| `SmartMemoryPool.Pool.DestructRaw` | inc/SmartMemoryPool.hh:166-176 | a null pointer changes nothing; a slot in use is returned to the free list as by `deallocate` |
| `SmartMemoryPool.Pool.DestructHandle` | inc/SmartMemoryPool.hh:155-161 | the same effect as `DestructRaw` on the handle's pointer |
| `SmartMemoryPool.Pool.Available` | inc/SmartMemoryPool.hh:181-183 | the counter equals the length of the free list, and it plus the number of slots in use equals the capacity |
| `SmartMemoryPool.Pool.Destroy` | inc/SmartMemoryPool.hh:57-65 | after the pool is destroyed its weak self-reference no longer resolves (`alive` is false) |
| `SmartMemoryPool.Deleter.Apply` | inc/SmartMemoryPool.hh:28-33 | with the pool alive, the slot is returned exactly as by `deallocate`; with the pool gone, nothing at all changes |
| `SmartMemoryPool.ReleaseHandle` | inc/SmartMemoryPool.hh:41 | a handle going out of scope runs its deleter only if it is non-null: releasing the null handle, or any handle of a dead pool, changes nothing; releasing a non-null handle of a live pool returns its slot exactly as by `deallocate`, and no other slot of the slab changes |
| `FreeList.Walk` | inc/SmartMemoryPool.hh:103-105 | the slots that successive pops would return, following one link per pop from a slot: at most `fuel` of them, the first being the start slot |
| `FreeList.WalkFollowsChain` | inc/SmartMemoryPool.hh:103-105 | from any slot of a linked free list, following the links reads off the rest of the list, given enough steps |
| `FreeList.ChainIsWalk` | inc/SmartMemoryPool.hh:53 | the abstract free list is exactly what following the links from the head yields, within as many steps as there are slots |
| `FreeList.SlotCounts` | inc/SmartMemoryPool.hh:55 | for a duplicate-free free list partitioning the slots with the set in use: free + in use = capacity, so at most `capacity` slots are in use, and the free list is empty exactly when all of them are |
| `FreeList.InitialFreeList` | inc/SmartMemoryPool.hh:90-94 | the slab the constructor builds, with head 0, is a free list of all slots in index order with none in use |
| `FreeList.PopKeeps` | inc/SmartMemoryPool.hh:105 | popping a non-NULL head: it was the first free slot and not in use, and the slab with its link as head describes the rest of the list, the popped slot now in use |
| `FreeList.PushKeeps` | inc/SmartMemoryPool.hh:120-122 | pushing a slot in use, linked to the old head, gives a free list with it in front and it no longer in use |
| `FreeList.StoreKeeps` | inc/SmartMemoryPool.hh:144 | constructing a value in a slot in use leaves the free list and the partition intact |
| `ConstructorLoop.LinkLoopInt32` | inc/SmartMemoryPool.hh:90-92 | the loop as written links slot i-1 to i while i < capacity; it ends in `SignedOverflow`, when it must increment INT32_MAX, exactly when the capacity exceeds INT32_MAX, and otherwise finishes with a slab of the same length |
| `ConstructorLoop.AsWrittenOverflows` | inc/SmartMemoryPool.hh:90-92 | with its `int` counter, the linking loop overflows the counter for every capacity above INT32_MAX that the 64-bit parameter admits |
| `ConstructorLoop.AsWrittenLinksSmallSlab` | inc/SmartMemoryPool.hh:90-92 | for capacities up to INT32_MAX, the loop as written finishes and links slot k to k+1, leaving the last slot's value-initialised NULL link |
| `Scenarios.ReleaseThenClaimIsLifo` | inc/SmartMemoryPool.hh:118-122 | releasing slots A, B, C and then constructing three times hands out C, B, A and leaves the free list and the slots in use as they were |
| `Scenarios.FillPool` | inc/SmartMemoryPool.hh:134-140 | a fresh pool of capacity n hands out n distinct slots, all below n, and the next `construct` returns the null handle |
| `Scenarios.CapacityTwo` | inc/SmartMemoryPool.hh:132-150 | capacity two: two claims get distinct slots holding 5 and 7, the third fails, releasing the first lets the next claim reuse its slot now holding 9, and after all releases `available()` is 2 |
| `Scenarios.ReleaseAfterTeardown` | inc/SmartMemoryPool.hh:28-33 | releasing a handle after its pool was destroyed leaves the pool's head, counter and slab as they were |

## Left out

- Atomics and the compare-and-swap retry loops in `allocate` and `deallocate`
  are not modelled. Each loop is modelled as one sequential pop or push. Also
  not modelled: the relaxed load in `available`, memory ordering, the ABA
  hazard, and the fact that the counter is updated apart from the head.
  These concern concurrency only.
- Raw memory is not modelled: the `aligned_storage` union, the
  `reinterpret_cast`s between slot, value and base pointers, and placement
  `new`. Slots are indices and a tagged `Block`.
- Explicit destructor calls are not modelled. The value's destructor
  has no effect on pool state. In `Deallocate`, the value is overwritten by
  the link.
- Reference counting is not modelled: `shared_ptr`/`weak_ptr` and the
  `unique_ptr` deleter mechanics. They are reduced to the pool's `alive`
  flag and a `Handle` holding an optional slot and a `Deleter`.
- The `ISmartMemoryPool` virtual interface and the `DerivedType`/`BaseType`
  template parameters are not modelled. The deleter calls the pool's
  `Deallocate` directly. There is a single value type `T`.
- Double release and foreign pointers are not detected by the code. They are
  preconditions here (`p in inUse`), not modelled errors.
- `Pool.Construct` takes an already-built value and cannot fail. In the
  code the value's constructor runs (inc/SmartMemoryPool.hh:144) after
  `allocate` has popped the slot (line 134) and after the counter was
  decremented (line 142). If that constructor throws, the slot is neither
  free nor handed out and the counter stays lowered, so the slot is lost
  for the pool's lifetime and `available()` never returns to the capacity.
  The model does not capture this loss.
- `Pool.constructor` cannot fail. In the code the slab allocation
  (inc/SmartMemoryPool.hh:87) may throw `std::bad_alloc`, and then no
  pool exists. Exceptions are not modelled.
- A pool of capacity 0 is excluded by a precondition. The code would point
  the head at `&mPool[0]` of an empty slab.
- `Pool.Destroy` models only the one effect of the pool's destructor
  that anything can observe afterwards: weak references stop resolving.
  Freeing the slab is not modelled.
- `FreeList.Walk` stops at a slot that holds a value. The code would read
  that value's bytes as a link. This cannot happen on a well-formed free
  list (`ChainIsWalk`).

## Findings

| source | as written | input that shows it | evidently intended | confidence | as-written member | corrected member |
|---|---|---|---|---|---|---|
| inc/SmartMemoryPool.hh:90 | the linking loop's counter is `auto i = 1`, a 32-bit signed `int`, while the capacity is `uint64_t`; for capacity > INT32_MAX the loop increments `i` past INT32_MAX, which is undefined behaviour; from capacity 2^31 + 1 on, this happens before the last slots are linked | capacity = 2^31 | a 64-bit unsigned counter, linking all capacity slots | high, not executed | `ConstructorLoop.AsWrittenOverflows` | `SmartMemoryPool.Pool.constructor` |

`ConstructorLoop.LinkLoopInt32` models the loop as written. The counter
starts at 1 and the loop runs while it is below the capacity. The increment of
INT32_MAX is the outcome `SignedOverflow`. `AsWrittenOverflows` proves that
every capacity from 2^31 up to 2^64 - 1 reaches that outcome.
`AsWrittenLinksSmallSlab` proves that smaller capacities link the slab
correctly. The pool constructor uses an unbounded counter instead. It proves
the full free list 0 -> ... -> capacity-1 for every capacity below 2^64.
