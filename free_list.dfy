/**
 * The free list of SmartMemoryPool, stated over slot indices.
 *
 * The pool's slab is an array of blocks, each the union of a free-list link
 * and the storage of one value. Unused blocks form a singly linked stack
 * through their links; the head of that stack is the pool's first free slot.
 * This module says, as predicates over a snapshot of the slab, when a head
 * and an abstract sequence of free slots describe that stack, and proves what
 * popping a slot, pushing a slot and storing a value do to it.
 */
module FreeList {

  /** The null link (`nullptr`): the last free slot links to it, and so does
      the head of an empty free list. */
  const NULL: int := -1

  /** One slot of the slab: while free it holds the link to the next free
      slot, while in use it holds a value, never both. */
  datatype Block<T> = Link(next: int) | Holds(value: T)

  /** No slot appears twice. */
  ghost predicate Distinct(s: seq<int>)
  {
    forall j, k :: 0 <= j < k < |s| ==> s[j] != s[k]
  }

  /** The link the `k`-th free slot has to hold: the slot after it, or NULL
      for the last one. */
  function Successor(free: seq<int>, k: nat): int
    requires k < |free|
  {
    if k + 1 < |free| then free[k + 1] else NULL
  }

  /** `free` is the list of slots read from `head` by following the links of
      `slab`: it starts at `head`, every slot on it is a slot of the slab
      holding a link to its successor, the last one links to NULL, and no
      slot repeats. */
  ghost predicate Chain<T>(slab: seq<Block<T>>, head: int, free: seq<int>)
  {
    && head == (if free == [] then NULL else free[0])
    && Distinct(free)
    && Linked(slab, free)
  }

  /** Every slot on `free` is a slot of the slab holding the link to the
      slot after it on `free`, the last one the link NULL. */
  ghost predicate Linked<T>(slab: seq<Block<T>>, free: seq<int>)
  {
    forall k :: 0 <= k < |free| ==>
      0 <= free[k] < |slab| && slab[free[k]] == Link(Successor(free, k))
  }

  /** Every slot `0 .. n-1` is in exactly one of the free list and the set of
      slots in use, and both hold only such slots. */
  ghost predicate Partition(n: int, free: seq<int>, inUse: set<int>)
  {
    && (forall s :: s in inUse ==> 0 <= s < n)
    && (forall s :: s in free ==> 0 <= s < n)
    && (forall s :: 0 <= s < n ==> (s in free <==> s !in inUse))
  }

  /** The bookkeeping of a pool whose slab is `slab`: a duplicate-free chain
      from `head`, and a partition of the slots into free and in use. */
  ghost predicate FreeListOf<T>(slab: seq<Block<T>>, head: int, free: seq<int>, inUse: set<int>)
  {
    Chain(slab, head, free) && Partition(|slab|, free, inUse)
  }

  /** Every slot in use holds a value. */
  ghost predicate HoldValues<T>(slab: seq<Block<T>>, inUse: set<int>)
  {
    forall s :: s in inUse && 0 <= s < |slab| ==> slab[s].Holds?
  }

  /** The slots that successive pops of the head would return, starting
      at `node` and reading one link per pop: at most `fuel` of them,
      stopping at NULL. */
  function Walk<T>(slab: seq<Block<T>>, node: int, fuel: nat): (r: seq<int>)
    ensures |r| <= fuel
    ensures r != [] ==> r[0] == node
    decreases fuel
  {
    if fuel == 0 || node < 0 || |slab| <= node || slab[node].Holds? then []
    else [node] + Walk(slab, slab[node].next, fuel - 1)
  }

  /** The set of slots on a list. */
  function Members(s: seq<int>): set<int>
  {
    set x | x in s
  }

  /** The slot indices `0 .. n-1`, and there are `n` of them. */
  function Slots(n: nat): (r: set<int>)
    ensures forall s :: s in r <==> 0 <= s < n
    ensures |r| == n
  {
    if n == 0 then {} else Slots(n - 1) + {n - 1}
  }

  lemma {:induction false} DistinctCount(s: seq<int>)
    requires Distinct(s)
    ensures |Members(s)| == |s|
  {
    if s != [] {
      assert Distinct(s[1..]) by {
        forall j, k | 0 <= j < k < |s[1..]| ensures s[1..][j] != s[1..][k] {
          assert s[1..][j] == s[j + 1] && s[1..][k] == s[k + 1];
        }
      }
      DistinctCount(s[1..]);
      assert Members(s) == {s[0]} + Members(s[1..]);
      assert s[0] !in Members(s[1..]);
    }
  }

  /** A free list without repeats and a set of slots in use that partition
      the `n` slots account for all of them: the free list is as long as
      the number of slots not in use, so at most `n` slots are ever in use,
      and the free list is empty exactly when all `n` are. */
  lemma SlotCounts(n: nat, free: seq<int>, inUse: set<int>)
    requires Distinct(free) && Partition(n, free, inUse)
    ensures |free| + |inUse| == n
    ensures |inUse| <= n && |free| <= n
    ensures free == [] <==> |inUse| == n
  {
    DistinctCount(free);
    assert Members(free) + inUse == Slots(n);
    assert Members(free) * inUse == {};
  }

  /** Walking the links from a slot of a chain reads off the rest of the
      chain, provided there is fuel for every slot of it. */
  lemma {:induction false} WalkFollowsChain<T>(slab: seq<Block<T>>, free: seq<int>, k: nat, fuel: nat)
    requires Linked(slab, free)
    requires k <= |free| && |free| - k <= fuel
    ensures Walk(slab, if k < |free| then free[k] else NULL, fuel) == free[k..]
    decreases |free| - k
  {
    if k < |free| {
      var node, succ := free[k], Successor(free, k);
      assert 0 <= node < |slab| && slab[node] == Link(succ);
      assert Walk(slab, node, fuel) == [node] + Walk(slab, succ, fuel - 1);
      WalkFollowsChain(slab, free, k + 1, fuel - 1);
      assert free[k..] == [node] + free[k + 1..];
    }
  }

  /** The abstract free list is exactly what following the links from the
      head yields: walking as many steps as there are slots reaches NULL
      after the last free slot. */
  lemma ChainIsWalk<T>(slab: seq<Block<T>>, head: int, free: seq<int>, inUse: set<int>)
    requires FreeListOf(slab, head, free, inUse)
    ensures Walk(slab, head, |slab|) == free
  {
    SlotCounts(|slab|, free, inUse);
    WalkFollowsChain(slab, free, 0, |slab|);
  }

  /** The slab the constructor builds (slot `k` links to `k + 1`, the last
      slot to NULL) with head 0 has every slot free, in index order, and none
      in use. */
  lemma InitialFreeList<T>(slab: seq<Block<T>>)
    requires 0 < |slab|
    requires forall k :: 0 <= k < |slab| ==> slab[k] == Link(if k + 1 < |slab| then k + 1 else NULL)
    ensures FreeListOf(slab, 0, seq(|slab|, k => k), {})
  {
    var free := seq(|slab|, k => k);
    forall s | 0 <= s < |slab| ensures s in free {
      assert free[s] == s;
    }
  }

  /** Popping the head (what `allocate` does): the head is a free slot, its
      link is the new head, the rest of the list is unchanged and the popped
      slot moves to the slots in use. */
  lemma PopKeeps<T>(slab: seq<Block<T>>, head: int, free: seq<int>, inUse: set<int>)
    requires FreeListOf(slab, head, free, inUse)
    requires head != NULL
    ensures free != [] && head == free[0]
    ensures 0 <= head < |slab| && slab[head].Link?
    ensures head !in inUse
    ensures FreeListOf(slab, slab[head].next, free[1..], inUse + {head})
  {
    assert free != [];
    assert slab[free[0]] == Link(Successor(free, 0));
    var rest := free[1..];
    forall k | 0 <= k < |rest| ensures Successor(rest, k) == Successor(free, k + 1) && rest[k] == free[k + 1] {
    }
    forall s | s in rest ensures s != head && s in free {
      var k :| 0 <= k < |rest| && rest[k] == s;
      assert free[k + 1] == s;
    }
    assert free[0] in free;
  }

  /** Pushing a slot in use (what `deallocate` does): it becomes the head,
      links to the old head, and leaves the slots in use. */
  lemma PushKeeps<T>(slab: seq<Block<T>>, head: int, free: seq<int>, inUse: set<int>, p: int)
    requires FreeListOf(slab, head, free, inUse)
    requires p in inUse
    ensures FreeListOf(slab[p := Link(head)], p, [p] + free, inUse - {p})
  {
    var slab', free' := slab[p := Link(head)], [p] + free;
    assert p !in free;
    forall k | 0 <= k < |free'|
      ensures 0 <= free'[k] < |slab'| && slab'[free'[k]] == Link(Successor(free', k))
    {
      if k > 0 {
        assert free'[k] == free[k - 1] && Successor(free', k) == Successor(free, k - 1);
        assert free[k - 1] in free;
      }
    }
  }

  /** Writing a value into a slot in use (what `construct` does after
      claiming the slot) leaves the free list alone. */
  lemma StoreKeeps<T>(slab: seq<Block<T>>, head: int, free: seq<int>, inUse: set<int>, p: int, v: T)
    requires FreeListOf(slab, head, free, inUse)
    requires p in inUse
    ensures FreeListOf(slab[p := Holds(v)], head, free, inUse)
  {
    forall k | 0 <= k < |free| ensures free[k] != p {
      assert free[k] in free;
    }
  }
}
