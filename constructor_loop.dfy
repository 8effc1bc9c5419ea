/**
 * The linking loop of the pool constructor, with the loop counter it is
 * declared with.
 *
 * The constructor links slot i-1 to slot i for i = 1 .. capacity-1 in a loop
 * whose counter is declared `auto i = 1`, a 32-bit signed `int`, while the
 * capacity is a 64-bit unsigned integer. For a capacity above INT32_MAX the
 * loop must increment the counter past INT32_MAX, which C++ leaves
 * undefined. This module models the loop as written and proves where it
 * goes wrong; the pool constructor in SmartMemoryPool uses an unbounded
 * counter instead.
 */
module ConstructorLoop {
  import opened FreeList

  const INT32_MAX: int := 0x7fff_ffff

  /** How a run of the loop ends: with the linked slab, or by incrementing
      the counter past INT32_MAX. */
  datatype LoopRun<T> = Finished(slab: seq<Block<T>>) | SignedOverflow

  /** The loop as written, from counter value `i` on: while `i < capacity`,
      link slot `i - 1` to slot `i` and increment `i`, where the increment
      of INT32_MAX overflows. The run overflows exactly when the capacity
      exceeds INT32_MAX, and a finished run keeps the slab's length. */
  function LinkLoopInt32<T>(capacity: nat, i: int, slab: seq<Block<T>>): (r: LoopRun<T>)
    requires 1 <= i <= INT32_MAX
    requires |slab| == capacity
    ensures r.SignedOverflow? <==> INT32_MAX < capacity
    ensures r.Finished? ==> |r.slab| == capacity
    decreases INT32_MAX - i
  {
    if capacity <= i then Finished(slab)
    else if i == INT32_MAX then SignedOverflow
    else LinkLoopInt32(capacity, i + 1, slab[i - 1 := Link(i)])
  }

  /** Every capacity above INT32_MAX, all of which the 64-bit capacity
      parameter admits (2^31 is the smallest), drives the loop as written
      into signed overflow. */
  lemma AsWrittenOverflows<T>(capacity: nat, slab: seq<Block<T>>)
    requires INT32_MAX < capacity < 0x1_0000_0000_0000_0000
    requires |slab| == capacity
    ensures LinkLoopInt32(capacity, 1, slab) == SignedOverflow
  {
  }

  lemma {:induction false} LinkedFrom<T>(capacity: nat, i: int, slab: seq<Block<T>>)
    requires capacity <= INT32_MAX
    requires 1 <= i <= capacity
    requires |slab| == capacity
    requires forall k :: 0 <= k < i - 1 ==> slab[k] == Link(k + 1)
    ensures LinkLoopInt32(capacity, i, slab).Finished?
    ensures var r := LinkLoopInt32(capacity, i, slab).slab;
      && |r| == capacity
      && (forall k :: 0 <= k < capacity - 1 ==> r[k] == Link(k + 1))
      && r[capacity - 1] == slab[capacity - 1]
    decreases capacity - i
  {
    if i < capacity {
      LinkedFrom(capacity, i + 1, slab[i - 1 := Link(i)]);
    }
  }

  /** Up to INT32_MAX slots the loop as written is fine: it links every
      slot to the next one and leaves the last slot's link as it was (NULL in
      the value-initialised slab), which is the slab the pool constructor
      builds. */
  lemma AsWrittenLinksSmallSlab<T>(capacity: nat, slab: seq<Block<T>>)
    requires 0 < capacity <= INT32_MAX
    requires |slab| == capacity
    requires forall k :: 0 <= k < capacity ==> slab[k] == Link(NULL)
    ensures LinkLoopInt32(capacity, 1, slab).Finished?
    ensures var r := LinkLoopInt32(capacity, 1, slab).slab;
      |r| == capacity && forall k :: 0 <= k < capacity ==> r[k] == Link(if k + 1 < capacity then k + 1 else NULL)
  {
    LinkedFrom(capacity, 1, slab);
  }
}
