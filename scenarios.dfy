/**
 * What callers of SmartMemoryPool can rely on, derived from the operations'
 * contracts alone: LIFO reuse, the capacity bound, and releasing a handle
 * after the pool is gone.
 */
module Scenarios {
  import opened FreeList
  import opened SmartMemoryPool

  /** Releasing slots A, B, C in that order pushes them on the free list,
      which then starts with C, B, A. */
  method ReleaseThree<T>(pool: Pool<T>, a: int, b: int, c: int)
    requires pool.Valid()
    requires a in pool.inUse && b in pool.inUse && c in pool.inUse
    requires a != b && b != c && a != c
    modifies pool, pool.slab
    ensures pool.Valid()
    ensures pool.free == [c] + ([b] + ([a] + old(pool.free)))
    ensures pool.inUse == old(pool.inUse) - {a} - {b} - {c}
  {
    pool.DestructRaw(Some(a));
    pool.DestructRaw(Some(b));
    pool.DestructRaw(Some(c));
  }

  /** Three successful claims take the first three slots of the free list,
      in order. */
  method ClaimThree<T>(pool: Pool<T>, v: T) returns (first: Handle<T>, second: Handle<T>, third: Handle<T>)
    requires pool.Valid()
    requires |pool.free| >= 3
    modifies pool, pool.slab
    ensures pool.Valid()
    ensures first.ptr == Some(old(pool.free)[0])
    ensures second.ptr == Some(old(pool.free)[1])
    ensures third.ptr == Some(old(pool.free)[2])
    ensures pool.free == old(pool.free)[3..]
    ensures pool.inUse == old(pool.inUse) + {old(pool.free)[0]} + {old(pool.free)[1]} + {old(pool.free)[2]}
  {
    first := pool.Construct(v);
    second := pool.Construct(v);
    third := pool.Construct(v);
  }

  /** Releasing slots A, B, C and then constructing three times hands out
      C, B, A: the free list is a stack, and the pool ends as it began. */
  method ReleaseThenClaimIsLifo<T>(pool: Pool<T>, a: int, b: int, c: int, v: T)
    returns (first: Handle<T>, second: Handle<T>, third: Handle<T>)
    requires pool.Valid()
    requires a in pool.inUse && b in pool.inUse && c in pool.inUse
    requires a != b && b != c && a != c
    modifies pool, pool.slab
    ensures pool.Valid()
    ensures first.ptr == Some(c) && second.ptr == Some(b) && third.ptr == Some(a)
    ensures pool.free == old(pool.free) && pool.inUse == old(pool.inUse)
    ensures pool.avail == old(pool.avail)
  {
    ghost var free0, inUse0 := pool.free, pool.inUse;
    ReleaseThree(pool, a, b, c);
    first, second, third := ClaimThree(pool, v);
    PopThreeAfterPushThree(pool.free, free0, c, b, a);
    RemoveThenAddBack(inUse0, a, b, c);
  }

  /** Popping three slots after pushing three gives back the old list. */
  lemma PopThreeAfterPushThree(s: seq<int>, s0: seq<int>, x: int, y: int, z: int)
    requires s == ([x] + ([y] + ([z] + s0)))[3..]
    ensures s == s0
  {
  }

  /** Taking three slots in use out and putting them back gives back the
      old set. */
  lemma RemoveThenAddBack(s: set<int>, a: int, b: int, c: int)
    requires a in s && b in s && c in s
    ensures s - {a} - {b} - {c} + {c} + {b} + {a} == s
  {
  }

  /** A fresh pool of capacity `n` hands out `n` distinct slots, after which
      `Construct` returns the null handle: at most `n` slots are in use at
      once. */
  method FillPool<T>(n: nat, v: T) returns (slots: seq<int>, last: Handle<T>)
    requires 0 < n < UINT64_LIMIT
    ensures |slots| == n && Distinct(slots)
    ensures forall k :: 0 <= k < n ==> 0 <= slots[k] < n
    ensures last.ptr == None
  {
    var pool := new Pool<T>(n);
    slots := [];
    while |slots| < n
      invariant pool.Valid() && pool.capacity == n && fresh(pool.slab)
      invariant |slots| <= n && Distinct(slots) && pool.inUse == Members(slots)
      decreases n - |slots|
    {
      DistinctCount(slots);
      var h := pool.Construct(v);
      ClaimedSlotIsNew(slots, h.ptr.value);
      slots := slots + [h.ptr.value];
    }
    DistinctCount(slots);
    SlotsInRange(n, slots, pool.free, pool.inUse);
    last := pool.Construct(v);
  }

  /** Appending a slot not yet on a duplicate-free list keeps it so, and adds
      just that slot to its members. */
  lemma ClaimedSlotIsNew(slots: seq<int>, x: int)
    requires Distinct(slots) && x !in Members(slots)
    ensures Distinct(slots + [x])
    ensures Members(slots + [x]) == Members(slots) + {x}
  {
    assert x !in slots;
  }

  /** The slots on a list of slots in use are slots of the pool. */
  lemma SlotsInRange(n: nat, slots: seq<int>, free: seq<int>, inUse: set<int>)
    requires Partition(n, free, inUse) && inUse == Members(slots)
    ensures forall k :: 0 <= k < |slots| ==> 0 <= slots[k] < n
  {
    forall k | 0 <= k < |slots| ensures 0 <= slots[k] < n {
      assert slots[k] in Members(slots);
    }
  }

  /** A fresh pool of capacity two whose two slots are claimed for `x` and
      `y`, in index order. */
  method ClaimBoth(x: int, y: int) returns (pool: Pool<int>, hx: Handle<int>, hy: Handle<int>)
    ensures fresh(pool) && fresh(pool.slab)
    ensures pool.Valid() && pool.capacity == 2
    ensures pool.free == [] && pool.inUse == {0, 1}
    ensures hx == Handle(Some(0), Deleter(pool)) && hy == Handle(Some(1), Deleter(pool))
    ensures pool.slab[..] == [Holds(x), Holds(y)]
  {
    pool := new Pool<int>(2);
    hx := pool.Construct(x);
    hy := pool.Construct(y);
  }

  /** Capacity two: claim A holding 5 and B holding 7, the third claim
      fails, releasing A lets the next claim reuse A's slot with the new
      value, and after every release the counter is back to two. */
  method CapacityTwo()
    returns (a: int, b: int, heldA: int, heldB: int, failed: bool, reused: int, held: int, finalAvailable: nat)
    ensures a != b
    ensures heldA == 5 && heldB == 7
    ensures failed
    ensures reused == a && held == 9
    ensures finalAvailable == 2
  {
    var pool, ha, hb := ClaimBoth(5, 7);
    a, b := ha.ptr.value, hb.ptr.value;
    heldA, heldB := pool.slab[a].value, pool.slab[b].value;
    var hc := pool.Construct(9);
    failed := hc.ptr.None?;
    ReleaseHandle(ha);
    var hd := pool.Construct(9);
    reused := hd.ptr.value;
    held := pool.slab[reused].value;
    ReleaseHandle(hb);
    ReleaseHandle(hc);
    ReleaseHandle(hd);
    finalAvailable := pool.Available();
  }

  /** A handle released after its pool was destroyed leaves the pool's
      state as it was: the head, the counter and every slot of the slab. */
  method ReleaseAfterTeardown<T>(v: T)
    returns (headBefore: int, headAfter: int, availBefore: nat, availAfter: nat,
             slabBefore: seq<Block<T>>, slabAfter: seq<Block<T>>)
    ensures headBefore == headAfter
    ensures availBefore == availAfter
    ensures slabBefore == slabAfter
  {
    var pool := new Pool<T>(1);
    var h := pool.Construct(v);
    pool.Destroy();
    headBefore, availBefore, slabBefore := pool.head, pool.avail, pool.slab[..];
    ReleaseHandle(h);
    headAfter, availAfter, slabAfter := pool.head, pool.avail, pool.slab[..];
  }
}
