/**
 * Client runs of the queue, as the unit tests drive it, with the outcome
 * each test checks stated as a postcondition for every accepted capacity
 * (and, for the wrap-around run, every number of cycles) rather than for
 * one. The misuse checks are stated for the inputs the death tests use.
 */
module Scenarios {
  import opened Common
  import opened Indices
  import opened SPSC

  /** 0, 1, ..., n - 1. */
  function Iota(n: nat): (r: seq<int>)
    ensures |r| == n && forall i :: 0 <= i < n ==> r[i] == i
  {
    seq(n, i => i)
  }

  /** base, base + 1, ..., base + n - 1. */
  function Run(base: int, n: nat): (r: seq<int>)
    ensures |r| == n && forall i :: 0 <= i < n ==> r[i] == base + i
  {
    seq(n, i => base + i)
  }

  /** A run that starts where Iota stops extends it. */
  lemma IotaThenRun(base: nat, n: nat)
    ensures Iota(base) + Run(base, n) == Iota(base + n)
  {
    assert forall i :: 0 <= i < base + n ==> (Iota(base) + Run(base, n))[i] == i;
  }

  /** An allocated, empty queue of the given capacity. */
  method NewQueue(waiting: WaitPolicy, capacity: int) returns (q: Queue<int>)
    requires WrapsTwice(capacity)
    ensures fresh(q) && fresh(q.storage)
    ensures q.Valid() && q.IsAllocated() && q.waiting == waiting
    ensures q.capacity == capacity && q.contents == [] && !q.ending
  {
    q := new Queue(waiting);
    q.Allocate(capacity);
  }

  /**
   * A new queue is unallocated and empty; Allocate makes it allocated and
   * still empty; Free makes it unallocated again. On the unallocated queue
   * Emplace is refused and Pop finds nothing.
   */
  method Lifecycle(capacity: int)
    returns (allocatedNew: bool, sizeNew: int, pushedUnallocated: bool,
             owning: bool, sizeAllocated: int, allocatedFreed: bool)
    requires WrapsTwice(capacity)
    ensures !allocatedNew && sizeNew == 0 && !pushedUnallocated
    ensures owning && sizeAllocated == 0
    ensures !allocatedFreed
  {
    var q := new Queue<int>(NoWaits);
    allocatedNew := q.IsAllocated();
    sizeNew := q.Size();
    pushedUnallocated := q.Emplace(7);
    q.Allocate(capacity);
    owning := q.IsAllocated();
    sizeAllocated := q.Size();
    q.Free();
    allocatedFreed := q.IsAllocated();
  }

  /** Misuse aborts with the diagnostic the death tests look for. */
  lemma MisuseAborts()
    ensures AllocateChecks(false, 0) == Abort("Invalid capacity {}!\n")
    ensures AllocateChecks(false, -1) == Abort("Invalid capacity {}!\n")
    ensures AllocateChecks(true, 5) == Abort("Can't allocate while still owning memory!\n")
    ensures FreeChecks(false, true) == Abort("No memory to free!\n")
  {
  }

  /**
   * One value pushed into an empty queue makes size() 1 and comes back out
   * of Pop, after which the queue is empty and Pop finds nothing.
   */
  method SingleElement(capacity: int) returns (pushed: bool, sizePushed: int, popped: bool,
                                               value: int, emptyAfter: bool, poppedAgain: bool)
    requires WrapsTwice(capacity)
    ensures pushed && sizePushed == 1
    ensures popped && value == 42 && emptyAfter
    ensures !poppedAgain
  {
    var q := NewQueue(NoWaits, capacity);
    pushed := q.Emplace(42);
    sizePushed := q.Size();
    popped, value := q.Pop(0);
    emptyAfter := q.Empty();
    var ignored;
    poppedAgain, ignored := q.Pop(0);
  }

  /** Emplace base, base + 1, ..., base + n - 1 into an empty queue with room for them. */
  method Fill(q: Queue<int>, base: int, n: int)
    requires q.Valid() && q.IsAllocated() && q.contents == [] && 0 <= n <= q.capacity
    modifies q, q.storage
    ensures q.Valid() && q.storage == old(q.storage) && q.capacity == old(q.capacity)
    ensures q.contents == Run(base, n)
  {
    var i := 0;
    while i < n
      invariant 0 <= i <= n
      invariant q.Valid() && q.IsAllocated()
      invariant q.storage == old(q.storage) && q.capacity == old(q.capacity)
      invariant q.contents == Run(base, i)
    {
      var ok := q.Emplace(base + i);
      assert q.contents == Run(base, i + 1);
      i := i + 1;
    }
  }

  /** Pop every queued element, in order. */
  method Drain(q: Queue<int>) returns (values: seq<int>)
    requires q.Valid() && q.IsAllocated()
    modifies q, q.storage
    ensures q.Valid() && q.storage == old(q.storage) && q.capacity == old(q.capacity)
    ensures values == old(q.contents) && q.contents == []
  {
    values := [];
    ghost var queued := q.contents;
    var n := q.Size();
    for i := 0 to n
      invariant q.Valid() && q.IsAllocated()
      invariant q.storage == old(q.storage) && q.capacity == old(q.capacity)
      invariant values == queued[..i] && q.contents == queued[i..]
    {
      var ok, value := q.Pop(0);
      values := values + [value];
    }
  }

  /**
   * Fill a queue with 0 .. capacity - 1, one Emplace at a time, until
   * size() is the capacity; one more Emplace is refused; then Pop returns
   * the values in order and leaves the queue empty.
   */
  method FillRefuseDrain(capacity: int) returns (sizeFull: int, refused: bool, popped: seq<int>, emptyAfter: bool)
    requires WrapsTwice(capacity)
    ensures sizeFull == capacity && refused
    ensures popped == Iota(capacity)
    ensures emptyAfter
  {
    var q := NewQueue(NoWaits, capacity);
    Fill(q, 0, capacity);
    sizeFull := q.Size();
    var ok := q.Emplace(100);
    refused := !ok;
    popped := Drain(q);
    assert popped == Iota(capacity);
    emptyAfter := q.Empty();
  }

  /**
   * Fill and drain a queue `cycles` times, the values numbered on across
   * cycles. The unwrapped indices run past the boundary of the queue as
   * often as the cycles take them, and the values still come back in the
   * order they went in.
   */
  method WrapAround(capacity: int, cycles: nat) returns (popped: seq<int>)
    requires WrapsTwice(capacity)
    ensures popped == Iota(cycles * capacity)
  {
    var q := NewQueue(NoWaits, capacity);
    popped := [];
    var cycle: nat, base: nat := 0, 0;
    while cycle < cycles
      invariant 0 <= cycle <= cycles && base == cycle * capacity
      invariant fresh(q) && fresh(q.storage) && q.Valid() && q.IsAllocated()
      invariant q.capacity == capacity && q.contents == []
      invariant popped == Iota(base)
    {
      Fill(q, base, capacity);
      var values := Drain(q);
      IotaThenRun(base, capacity);
      popped := popped + values;
      cycle, base := cycle + 1, base + capacity;
    }
  }

  /**
   * Emplace_Multiple of capacity + 2 values, 1 .. capacity + 2, into an
   * empty queue pushes the first `capacity`, hands back the last two and
   * leaves the queue full.
   */
  method EmplaceMultiplePartial(capacity: int) returns (remaining: seq<int>, size: int)
    requires WrapsTwice(capacity)
    ensures remaining == [capacity + 1, capacity + 2]
    ensures size == capacity
  {
    var q := NewQueue(NoWaits, capacity);
    remaining := q.EmplaceMultiple(Run(1, capacity + 2));
    size := q.Size();
  }

  /**
   * The values 0 .. n - 1, pushed one by one into an empty queue, come out
   * of one Pop_Multiple into an empty destination with room for `capacity`
   * elements, in order, and the queue is empty afterwards.
   */
  method PopMultipleAll(capacity: int, n: int) returns (output: seq<int>, emptyAfter: bool)
    requires WrapsTwice(capacity) && 0 <= n <= capacity
    ensures output == Iota(n)
    ensures emptyAfter
  {
    var q := NewQueue(NoWaits, capacity);
    Fill(q, 0, n);
    output := q.PopMultiple([], capacity);
    assert output == Iota(n);
    emptyAfter := q.Empty();
  }

  /**
   * Under a pop-awaiting policy: once End_PopWaiting has run, Pop_Await on
   * the empty queue returns false instead of parking; after
   * Reset_PopWaiting and one Emplace, Pop_Await returns that value.
   */
  method EndThenResetPopWaiting(capacity: int) returns (ended: Round, resumed: Round, value: int)
    requires WrapsTwice(capacity)
    ensures ended == Returned(false)
    ensures resumed == Returned(true) && value == 42
  {
    var q := NewQueue(PopAwait, capacity);
    var _ := q.EndPopWaiting();
    ended, value := q.PopAwait(0);
    q.ResetPopWaiting();
    var ok := q.Emplace(42);
    resumed, value := q.PopAwait(0);
  }
}
