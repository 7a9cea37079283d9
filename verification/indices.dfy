/**
 * Index arithmetic of the single-producer/single-consumer queue.
 *
 * The queue keeps two "unwrapped" counters, the push index and the pop
 * index, each in [0, indexEnd). The physical storage slot of an unwrapped
 * index is the index modulo the capacity. indexEnd is the largest multiple
 * of the capacity that fits in a signed 32-bit int, so that wrapping an
 * unwrapped index back to zero never disturbs the slot sequence.
 *
 * All quantities are mathematical integers; the source's 32-bit `int` is
 * modelled by IntMax/IntMin and, where the source can overflow, by Wrap32.
 * Signed overflow is undefined behaviour in C++; Wrap32 gives the outcome
 * of the usual two's complement wrap-around.
 */
module Indices {

  /** std::numeric_limits<int>::max() for the 32-bit int the source assumes. */
  const IntMax: int := 0x7fff_ffff
  const IntMin: int := -0x8000_0000

  predicate IsInt32(x: int) {
    IntMin <= x <= IntMax
  }

  /** The value a 32-bit two's complement addition or subtraction leaves behind. */
  function Wrap32(x: int): (r: int)
    ensures IsInt32(r)
    ensures (x - r) % 0x1_0000_0000 == 0
    ensures IsInt32(x) ==> r == x
  {
    (x - IntMin) % 0x1_0000_0000 + IntMin
  }

  // ---------------------------------------------------------------------
  // Division facts used by the slot lemmas
  // ---------------------------------------------------------------------

  /** Multiplying by a positive number keeps the order. */
  lemma MulCompare(a: int, b: int, d: int)
    requires 0 < d
    ensures a <= b ==> a * d <= b * d
    ensures a >= b ==> a * d >= b * d
  {
  }

  /** Euclidean division has exactly one quotient and remainder. */
  lemma DivModUnique(x: int, d: int, q: int, r: int)
    requires 0 < d && 0 <= r < d && x == q * d + r
    ensures x % d == r && x / d == q
  {
    var q', r' := x / d, x % d;
    assert (q - q') * d == r' - r;
    MulCompare(q - q', 1, d);
    MulCompare(q - q', -1, d);
  }

  // ---------------------------------------------------------------------
  // Wrap-around boundary
  // ---------------------------------------------------------------------

  /** The wrap-around boundary Allocate computes: capacity * (IntMax / capacity). */
  function IndexEnd(capacity: int): (r: int)
    requires 0 < capacity
    ensures r % capacity == 0
    ensures IntMax - capacity < r <= IntMax
    ensures IntMax / capacity >= 2 ==> 2 * capacity <= r
  {
    var wraps := IntMax / capacity;
    DivModUnique(capacity * wraps, capacity, wraps, 0);
    MulCompare(wraps, 2, capacity);
    capacity * wraps
  }

  /** Allocate accepts a capacity only when the index space wraps at least twice. */
  predicate WrapsTwice(capacity: int): (r: bool)
    ensures r ==> 0 < capacity && 2 * capacity <= IndexEnd(capacity)
  {
    0 < capacity && IntMax / capacity >= 2
  }

  lemma WrapsTwiceBound(capacity: int)
    ensures WrapsTwice(capacity) <==> 0 < capacity <= IntMax / 2
  {
    if 0 < capacity {
      var wraps := IntMax / capacity;
      assert IntMax == wraps * capacity + IntMax % capacity;
      MulCompare(wraps, 1, capacity);
      MulCompare(wraps, 2, capacity);
    }
  }

  // ---------------------------------------------------------------------
  // Index helpers (Bump_Index, Increase_Index)
  // ---------------------------------------------------------------------

  /** Bump_Index: the next unwrapped index, back to zero at indexEnd. */
  function Bump(index: int, indexEnd: int): (r: int)
    ensures 0 <= index < indexEnd ==> 0 <= r < indexEnd
  {
    var incremented := index + 1;
    if incremented < indexEnd then incremented else 0
  }

  lemma BumpIsSuccessor(index: int, indexEnd: int)
    requires 0 <= index < indexEnd
    ensures Bump(index, indexEnd) == (index + 1) % indexEnd
  {
    if index + 1 < indexEnd {
      DivModUnique(index + 1, indexEnd, 0, index + 1);
    } else {
      DivModUnique(index + 1, indexEnd, 1, 0);
    }
  }

  /**
   * Increase_Index as the source writes it: `aIndex + aIncrease` in 32-bit
   * int, then one subtraction of indexEnd. The sum is not guarded against
   * overflow; Wrap32 gives the two's complement outcome.
   */
  function IncreaseIndexAsWritten(index: int, increase: int, indexEnd: int): (r: int)
    ensures IsInt32(index + increase) && 0 <= index < indexEnd && 0 <= increase <= indexEnd
            ==> 0 <= r < indexEnd
  {
    var newIndex := Wrap32(index + increase);
    newIndex - (if newIndex >= indexEnd then indexEnd else 0)
  }

  /**
   * Increase_Index without the overflow: the same single correction by
   * indexEnd, decided before the addition so that no intermediate value
   * leaves [0, indexEnd).
   */
  function IncreaseIndex(index: int, increase: int, indexEnd: int): (r: int)
    requires 0 <= index < indexEnd && 0 <= increase <= indexEnd
    ensures 0 <= r < indexEnd
  {
    if index < indexEnd - increase then index + increase else index - (indexEnd - increase)
  }

  lemma IncreaseIndexIsSum(index: int, increase: int, indexEnd: int)
    requires 0 <= index < indexEnd && 0 <= increase <= indexEnd
    ensures IncreaseIndex(index, increase, indexEnd) == (index + increase) % indexEnd
  {
    if index + increase < indexEnd {
      DivModUnique(index + increase, indexEnd, 0, index + increase);
    } else {
      DivModUnique(index + increase, indexEnd, 1, index + increase - indexEnd);
    }
  }

  lemma BumpIsIncreaseByOne(index: int, indexEnd: int)
    requires 0 <= index < indexEnd
    ensures Bump(index, indexEnd) == IncreaseIndex(index, 1, indexEnd)
  {
  }

  /** Where the as-written sum stays in range, the two definitions agree. */
  lemma IncreaseIndexAsWrittenAgrees(index: int, increase: int, indexEnd: int)
    requires 0 <= index < indexEnd && 0 <= increase <= indexEnd
    requires index + increase <= IntMax
    ensures IncreaseIndexAsWritten(index, increase, indexEnd) == IncreaseIndex(index, increase, indexEnd)
  {
  }

  /**
   * With capacity 3 the boundary is 2147483646; pushing three elements at
   * unwrapped index 2147483645 makes the as-written sum exceed IntMax and
   * the new index comes out negative instead of 2.
   */
  lemma IncreaseIndexOverflows()
    ensures IndexEnd(3) == 2147483646
    ensures IncreaseIndex(2147483645, 3, IndexEnd(3)) == 2
    ensures IncreaseIndexAsWritten(2147483645, 3, IndexEnd(3)) == IntMin
  {
  }

  // ---------------------------------------------------------------------
  // Physical slots
  // ---------------------------------------------------------------------

  /** The slot `offset` places after `slot`, wrapping once at the capacity. */
  function Ring(slot: int, offset: int, capacity: int): int {
    if slot + offset < capacity then slot + offset else slot + offset - capacity
  }

  /**
   * Because indexEnd is a multiple of the capacity, advancing an unwrapped
   * index by n (with its wrap at indexEnd) advances its slot by n (with its
   * wrap at the capacity).
   */
  lemma SlotAfterIncrease(index: int, increase: int, capacity: int, indexEnd: int)
    requires 0 < capacity <= indexEnd && indexEnd % capacity == 0
    requires 0 <= index < indexEnd && 0 <= increase <= capacity
    ensures IncreaseIndex(index, increase, indexEnd) % capacity == Ring(index % capacity, increase, capacity)
    ensures IncreaseIndex(index, increase, indexEnd) % capacity == (index % capacity + increase) % capacity
  {
    var q, s := index / capacity, index % capacity;
    var m := indexEnd / capacity;
    assert indexEnd == m * capacity;
    var r := IncreaseIndex(index, increase, indexEnd);
    var qr := if index + increase < indexEnd then q else q - m;
    assert r == qr * capacity + s + increase;
    if s + increase < capacity {
      DivModUnique(r, capacity, qr, s + increase);
      DivModUnique(s + increase, capacity, 0, s + increase);
    } else {
      DivModUnique(r, capacity, qr + 1, s + increase - capacity);
      DivModUnique(s + increase, capacity, 1, s + increase - capacity);
    }
  }

  // ---------------------------------------------------------------------
  // Live count, full and empty
  // ---------------------------------------------------------------------

  /**
   * Elements pushed but not yet popped, computed as Pop_Multiple does:
   * push - pop, plus indexEnd when the push index has wrapped past zero.
   */
  function Live(push: int, pop: int, indexEnd: int): (r: int)
    ensures 0 <= push < indexEnd && 0 <= pop < indexEnd ==> 0 <= r < indexEnd
    ensures push == pop ==> r == 0
  {
    var delta := push - pop;
    delta + (if delta < 0 then indexEnd else 0)
  }

  lemma LiveIsDifferenceMod(push: int, pop: int, indexEnd: int)
    requires 0 <= push < indexEnd && 0 <= pop < indexEnd
    ensures Live(push, pop, indexEnd) == (push - pop) % indexEnd
  {
    if push >= pop {
      DivModUnique(push - pop, indexEnd, 0, push - pop);
    } else {
      DivModUnique(push - pop, indexEnd, -1, push - pop + indexEnd);
    }
  }

  /** The push index is the pop index advanced by the live count. */
  lemma PushIsPopPlusLive(push: int, pop: int, indexEnd: int)
    requires 0 <= push < indexEnd && 0 <= pop < indexEnd
    ensures IncreaseIndex(pop, Live(push, pop, indexEnd), indexEnd) == push
  {
  }

  /** The slot the next push writes is `live` slots after the pop slot. */
  lemma PushSlot(push: int, pop: int, capacity: int, indexEnd: int)
    requires 0 < capacity <= indexEnd && indexEnd % capacity == 0
    requires 0 <= push < indexEnd && 0 <= pop < indexEnd
    requires Live(push, pop, indexEnd) <= capacity
    ensures push % capacity == Ring(pop % capacity, Live(push, pop, indexEnd), capacity)
  {
    PushIsPopPlusLive(push, pop, indexEnd);
    SlotAfterIncrease(pop, Live(push, pop, indexEnd), capacity, indexEnd);
  }

  /** Emplace's full test on the raw difference of the two indices. */
  predicate IsFull(push: int, pop: int, capacity: int, indexEnd: int): (r: bool)
    ensures r && 0 < capacity < indexEnd ==> push != pop
  {
    var delta := push - pop;
    delta == capacity || delta == capacity - indexEnd
  }

  lemma FullIffLiveIsCapacity(push: int, pop: int, capacity: int, indexEnd: int)
    requires 0 < capacity < indexEnd
    requires 0 <= push < indexEnd && 0 <= pop < indexEnd
    ensures IsFull(push, pop, capacity, indexEnd) <==> Live(push, pop, indexEnd) == capacity
  {
  }

  /** Pop's empty test: the two indices are equal exactly when nothing is live. */
  lemma EmptyIffLiveIsZero(push: int, pop: int, indexEnd: int)
    requires 0 <= push < indexEnd && 0 <= pop < indexEnd
    ensures push == pop <==> Live(push, pop, indexEnd) == 0
  {
  }

  lemma BumpPushAddsOne(push: int, pop: int, indexEnd: int)
    requires 0 <= push < indexEnd && 0 <= pop < indexEnd
    requires Live(push, pop, indexEnd) < indexEnd - 1
    ensures Live(Bump(push, indexEnd), pop, indexEnd) == Live(push, pop, indexEnd) + 1
  {
  }

  lemma BumpPopRemovesOne(push: int, pop: int, indexEnd: int)
    requires 0 <= push < indexEnd && 0 <= pop < indexEnd
    requires push != pop
    ensures Live(push, Bump(pop, indexEnd), indexEnd) == Live(push, pop, indexEnd) - 1
  {
  }

  lemma IncreasePushAddsCount(push: int, pop: int, count: int, indexEnd: int)
    requires 0 <= push < indexEnd && 0 <= pop < indexEnd
    requires 0 <= count && Live(push, pop, indexEnd) + count < indexEnd
    ensures Live(IncreaseIndex(push, count, indexEnd), pop, indexEnd) == Live(push, pop, indexEnd) + count
  {
  }

  lemma IncreasePopRemovesCount(push: int, pop: int, count: int, indexEnd: int)
    requires 0 <= push < indexEnd && 0 <= pop < indexEnd
    requires 0 <= count <= Live(push, pop, indexEnd)
    ensures Live(push, IncreaseIndex(pop, count, indexEnd), indexEnd) == Live(push, pop, indexEnd) - count
  {
  }

  // ---------------------------------------------------------------------
  // Free slots seen by Emplace_Multiple
  // ---------------------------------------------------------------------

  /**
   * Emplace_Multiple's free-slot count as the source writes it:
   * `(pop + capacity) - push` in 32-bit int, less indexEnd when it reaches
   * indexEnd. Both the sum and the difference can overflow.
   */
  function PushRoomAsWritten(push: int, pop: int, capacity: int, indexEnd: int): (r: int)
    ensures 0 <= indexEnd ==> IsInt32(r)
  {
    var maxPushIndex := Wrap32(pop + capacity);
    var available := Wrap32(maxPushIndex - push);
    available - (if available >= indexEnd then indexEnd else 0)
  }

  /** Free slots computed from the live count, with no intermediate overflow. */
  function PushRoom(push: int, pop: int, capacity: int, indexEnd: int): (r: int)
    requires 0 <= Live(push, pop, indexEnd) <= capacity
    ensures 0 <= r <= capacity
  {
    capacity - Live(push, pop, indexEnd)
  }

  /** When `pop + capacity` fits in an int the source's expression is right. */
  lemma PushRoomAsWrittenAgrees(push: int, pop: int, capacity: int, indexEnd: int)
    requires 0 < capacity < indexEnd <= IntMax
    requires 0 <= push < indexEnd && 0 <= pop < indexEnd
    requires Live(push, pop, indexEnd) <= capacity
    requires pop + capacity <= IntMax
    ensures PushRoomAsWritten(push, pop, capacity, indexEnd) == PushRoom(push, pop, capacity, indexEnd)
  {
  }

  /**
   * With capacity 3, one element live at pop index 2147483645 and push index
   * 0, `pop + capacity` overflows and the free-slot count comes out as
   * IntMin instead of 2.
   */
  lemma PushRoomOverflows()
    ensures PushRoom(0, 2147483645, 3, IndexEnd(3)) == 2
    ensures PushRoomAsWritten(0, 2147483645, 3, IndexEnd(3)) == IntMin
  {
  }

  // ---------------------------------------------------------------------
  // Splitting a batch transfer at the end of the storage array
  // ---------------------------------------------------------------------

  /**
   * The two contiguous chunks of a batch transfer of `count` elements that
   * starts at `slot`: the first up to the end of the array, the second (if
   * any) from slot 0.
   */
  function SplitAtEnd(slot: int, count: int, capacity: int): (chunks: (int, int))
    requires 0 <= slot < capacity && 0 <= count <= capacity
    ensures chunks.0 + chunks.1 == count
    ensures 0 <= chunks.0 && slot + chunks.0 <= capacity
    ensures 0 <= chunks.1 <= slot
    ensures chunks.1 > 0 ==> slot + chunks.0 == capacity
  {
    var distanceBeyondEnd := slot + count - capacity;
    if distanceBeyondEnd <= 0 then (count, 0)
    else (count - distanceBeyondEnd, distanceBeyondEnd)
  }

  /** The j-th element of the batch lands on Ring(slot, j). */
  lemma SplitAtEndPlacesInRing(slot: int, count: int, capacity: int, j: int)
    requires 0 <= slot < capacity && 0 <= count <= capacity && 0 <= j < count
    ensures var (initial, _) := SplitAtEnd(slot, count, capacity);
            Ring(slot, j, capacity) == if j < initial then slot + j else j - initial
  {
  }

  // ---------------------------------------------------------------------
  // Indices kept across Free and Allocate
  // ---------------------------------------------------------------------

  /**
   * Free keeps both unwrapped indices and Allocate does not reset them. A
   * capacity-1 queue (boundary IntMax) can reach push == pop == 1431655767;
   * freed and re-allocated with capacity 715827883 its boundary becomes
   * 1431655766, below both indices. Three pushes then pass the full test
   * (the queue holds at most three of 715827883 elements), and the third
   * lands in the slot of the first, which no pop has emptied.
   */
  lemma StaleIndicesOverwrite()
    ensures IndexEnd(1) == IntMax && 1431655767 < IndexEnd(1)
    ensures var capacity := 715827883;
            var indexEnd := IndexEnd(capacity);
            var pop, push0 := 1431655767, 1431655767;
            var push1 := Bump(push0, indexEnd);
            var push2 := Bump(push1, indexEnd);
            && indexEnd == 1431655766 && indexEnd <= push0
            && !IsFull(push0, pop, capacity, indexEnd)
            && !IsFull(push1, pop, capacity, indexEnd)
            && !IsFull(push2, pop, capacity, indexEnd)
            && push2 % capacity == push0 % capacity
  {
    assert IntMax / 715827883 == 2;
  }
}
