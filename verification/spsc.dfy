/**
 * The bounded single-producer/single-consumer queue, run sequentially.
 *
 * Storage is an array of slots, each empty (None) or holding a constructed
 * element (Some). The unwrapped push and pop indices live in [0, indexEnd);
 * slot `i % capacity` belongs to unwrapped index i. The size cell is kept as
 * a count and an "ending" flag (module SizeCell relates them to the packed
 * 32-bit word). The ghost sequence `contents` is the queue as its callers
 * see it, oldest element first; Valid() ties it to the slots.
 */
module SPSC {
  import opened Common
  import opened Indices
  import SizeCell

  datatype Option<T> = None | Some(value: T)

  /** How one round of a blocking operation ends. */
  datatype Round = Returned(result: bool) | Blocked

  function Min(a: int, b: int): int {
    if a < b then a else b
  }

  /** The Assert calls at the top of Allocate, in order. */
  function AllocateChecks(isAllocated: bool, capacity: int): (r: Outcome)
    ensures r.Continue? <==> !isAllocated && WrapsTwice(capacity)
    ensures isAllocated ==> r == Abort("Can't allocate while still owning memory!\n")
    ensures !isAllocated && capacity <= 0 ==> r == Abort("Invalid capacity {}!\n")
    ensures !isAllocated && 0 < capacity && !WrapsTwice(capacity) ==> r == Abort("Not enough wrap-arounds!\n")
  {
    var checks := [Check(!isAllocated, "Can't allocate while still owning memory!\n"),
                   Check(capacity > 0, "Invalid capacity {}!\n"),
                   Check(WrapsTwice(capacity), "Not enough wrap-arounds!\n")];
    assert checks[0].condition && checks[1].condition && checks[2].condition
           <==> !isAllocated && WrapsTwice(capacity);
    RunChecks(checks)
  }

  /** The Assert calls at the top of Free, in order. */
  function FreeChecks(isAllocated: bool, isEmpty: bool): (r: Outcome)
    ensures r.Continue? <==> isAllocated && isEmpty
    ensures !isAllocated ==> r == Abort("No memory to free!\n")
    ensures isAllocated && !isEmpty ==> r == Abort("Can't free until empty!\n")
  {
    var checks := [Check(isAllocated, "No memory to free!\n"),
                   Check(isEmpty, "Can't free until empty!\n")];
    assert checks[0].condition && checks[1].condition <==> isAllocated && isEmpty;
    RunChecks(checks)
  }

  /**
   * The slots hold `contents`, oldest first, from slot `p` on around the
   * ring, and every other slot is empty.
   */
  ghost predicate Laid<T>(slots: seq<Option<T>>, p: int, contents: seq<T>) {
    && 0 <= p < |slots|
    && |contents| <= |slots|
    && (forall k :: 0 <= k < |contents| ==> slots[Ring(p, k, |slots|)] == Some(contents[k]))
    && (forall k :: |contents| <= k < |slots| ==> slots[Ring(p, k, |slots|)] == None)
  }

  /**
   * Constructing `items` in the free slots after the last element, in the
   * two chunks SplitAtEnd gives (the second from slot 0), appends them to
   * the laid-out contents.
   */
  lemma {:induction false} LaidAppend<T>(before: seq<Option<T>>, after: seq<Option<T>>, p: int,
                                         contents: seq<T>, items: seq<T>)
    requires Laid(before, p, contents) && |after| == |before|
    requires |contents| + |items| <= |before|
    requires var capacity, slot := |before|, Ring(p, |contents|, |before|);
             var (initial, wrapped) := SplitAtEnd(slot, |items|, capacity);
             forall j :: 0 <= j < capacity ==>
               after[j] == if slot <= j < slot + initial then Some(items[j - slot])
                           else if j < wrapped then Some(items[initial + j])
                           else before[j]
    ensures Laid(after, p, contents + items)
  {
    var capacity, len := |before|, |contents|;
    var slot := Ring(p, len, capacity);
    var (initial, wrapped) := SplitAtEnd(slot, |items|, capacity);
    var grown := contents + items;
    forall k | 0 <= k < |grown|
      ensures after[Ring(p, k, capacity)] == Some(grown[k])
    {
      if k >= len {
        SplitAtEndPlacesInRing(slot, |items|, capacity, k - len);
      }
    }
    forall k | |grown| <= k < capacity
      ensures after[Ring(p, k, capacity)] == None
    {
    }
  }

  /** Every slot holds a constructed element. */
  predicate AllSome<T>(slots: seq<Option<T>>) {
    forall i :: 0 <= i < |slots| ==> slots[i].Some?
  }

  /** The elements held by a run of constructed slots, in slot order. */
  function Values<T>(slots: seq<Option<T>>): (values: seq<T>)
    requires AllSome(slots)
    ensures |values| == |slots|
    ensures forall i :: 0 <= i < |slots| ==> slots[i] == Some(values[i])
  {
    seq(|slots|, i requires 0 <= i < |slots| && AllSome(slots) => slots[i].value)
  }

  /**
   * The first `n` elements lie in the two chunks SplitAtEnd gives from slot
   * `p`: the first chunk from slot p on, the second from slot 0.
   */
  lemma {:induction false} LaidHead<T>(slots: seq<Option<T>>, p: int, contents: seq<T>, n: int)
    requires Laid(slots, p, contents) && 0 <= n <= |contents|
    ensures var (initial, wrapped) := SplitAtEnd(p, n, |slots|);
            && AllSome(slots[p..p + initial]) && AllSome(slots[..wrapped])
            && Values(slots[p..p + initial]) + Values(slots[..wrapped]) == contents[..n]
  {
    var capacity := |slots|;
    var (initial, wrapped) := SplitAtEnd(p, n, capacity);
    var first, second := slots[p..p + initial], slots[..wrapped];
    forall j | 0 <= j < initial
      ensures first[j] == Some(contents[j])
    {
      SplitAtEndPlacesInRing(p, n, capacity, j);
    }
    forall j | 0 <= j < wrapped
      ensures second[j] == Some(contents[initial + j])
    {
      SplitAtEndPlacesInRing(p, n, capacity, initial + j);
    }
    assert Values(first) + Values(second) == contents[..n];
  }

  /**
   * Destroying the first `n` elements, in the two chunks SplitAtEnd gives
   * from slot `p`, leaves the rest laid out from Ring(p, n).
   */
  lemma {:induction false} LaidDrop<T>(before: seq<Option<T>>, after: seq<Option<T>>, p: int,
                                       contents: seq<T>, n: int)
    requires Laid(before, p, contents) && |after| == |before|
    requires 0 <= n <= |contents|
    requires var capacity := |before|;
             var (initial, wrapped) := SplitAtEnd(p, n, capacity);
             forall j :: 0 <= j < capacity ==>
               after[j] == if p <= j < p + initial || j < wrapped then None else before[j]
    ensures Laid(after, Ring(p, n, |before|), contents[n..])
  {
    var capacity := |before|;
    var p' := Ring(p, n, capacity);
    var rest := contents[n..];
    forall k | 0 <= k < |rest|
      ensures after[Ring(p', k, capacity)] == Some(rest[k])
    {
      assert Ring(p', k, capacity) == Ring(p, n + k, capacity);
    }
    forall k | |rest| <= k < capacity
      ensures after[Ring(p', k, capacity)] == None
    {
      if n + k < capacity {
        assert Ring(p', k, capacity) == Ring(p, n + k, capacity);
      } else {
        SplitAtEndPlacesInRing(p, n, capacity, n + k - capacity);
        assert Ring(p', k, capacity) == Ring(p, n + k - capacity, capacity);
      }
    }
  }

  class Queue<T> {
    /** The Waiting template parameter. */
    const waiting: WaitPolicy

    var storage: array?<Option<T>>  // mStorage, null while unallocated
    var capacity: int               // mCapacity
    var indexEnd: int               // mIndexEnd
    var pushIndex: int              // mPushIndex
    var popIndex: int               // mPopIndex
    var sizeCount: int              // mSize without its high bit
    var ending: bool                // the high bit of mSize

    /** The queued elements, oldest first. */
    ghost var contents: seq<T>

    ghost predicate Valid()
      reads this, storage
    {
      && sizeCount == |contents|
      && (storage == null ==> capacity == 0 && contents == [] && pushIndex == popIndex)
      && (storage != null ==>
            && storage.Length == capacity
            && WrapsTwice(capacity)
            && indexEnd == IndexEnd(capacity)
            && 0 <= pushIndex < indexEnd
            && 0 <= popIndex < indexEnd
            && |contents| == Live(pushIndex, popIndex, indexEnd)
            && Laid(storage[..], popIndex % capacity, contents))
    }

    /** Queue(): unallocated, every counter zero. */
    constructor (waiting: WaitPolicy)
      ensures Valid() && this.waiting == waiting
      ensures storage == null && capacity == 0 && indexEnd == 0
      ensures pushIndex == 0 && popIndex == 0 && !ending && contents == []
    {
      this.waiting := waiting;
      storage := null;
      capacity, indexEnd := 0, 0;
      pushIndex, popIndex := 0, 0;
      sizeCount, ending := 0, false;
      contents := [];
    }

    /** Is_Allocated. */
    function IsAllocated(): (r: bool)
      reads this, storage
      requires Valid()
      ensures r ==> capacity > 0 && indexEnd >= 2 * capacity
      ensures !r ==> capacity == 0 && contents == []
    {
      storage != null
    }

    /** The packed size cell. */
    function SizeWord(): (word: int)
      reads this
      requires SizeCell.IsCount(sizeCount)
      ensures SizeCell.IsWord(word)
      ensures SizeCell.Count(word) == sizeCount && SizeCell.IsEnding(word) == ending
    {
      SizeCell.UnpackPack(sizeCount, ending);
      SizeCell.Pack(sizeCount, ending)
    }

    /** size(): the size cell with the ending bit masked off. */
    function Size(): (n: int)
      reads this, storage
      requires Valid()
      ensures n == |contents|
      ensures 0 <= n <= capacity
    {
      WrapsTwiceBound(capacity);
      SizeCell.UnpackPack(sizeCount, ending);
      SizeCell.Count(SizeWord())
    }

    /** empty(). */
    function Empty(): (r: bool)
      reads this, storage
      requires Valid()
      ensures r <==> contents == []
    {
      Size() == 0
    }

    /**
     * Allocate: binds fresh storage of `aCapacity` slots (the allocator is
     * taken to succeed) and computes the wrap-around boundary. The indices
     * restart at zero; see the Findings section of README.md.
     */
    method Allocate(aCapacity: int)
      requires Valid()
      requires AllocateChecks(IsAllocated(), aCapacity) == Continue
      modifies this
      ensures Valid() && fresh(storage) && IsAllocated()
      ensures capacity == aCapacity && indexEnd == IndexEnd(aCapacity)
      ensures pushIndex == 0 && popIndex == 0 && contents == []
      ensures ending == old(ending)
    {
      storage := new Option<T>[aCapacity](_ => None);
      capacity := aCapacity;
      var maxNumWrapArounds := IntMax / capacity;
      indexEnd := capacity * maxNumWrapArounds;
      pushIndex, popIndex := 0, 0;
    }

    /** Free: hands the storage back; the queue must be allocated and empty. */
    method Free()
      requires Valid()
      requires FreeChecks(IsAllocated(), Empty()) == Continue
      modifies this
      ensures Valid() && !IsAllocated() && capacity == 0 && contents == []
      ensures indexEnd == old(indexEnd) && pushIndex == old(pushIndex) && popIndex == old(popIndex)
      ensures ending == old(ending)
    {
      EmptyIffLiveIsZero(pushIndex, popIndex, indexEnd);
      storage := null;
      capacity := 0;
    }

    /**
     * Increase_Size: adds to the count (fetch_add on the cell) and reports
     * whether parked consumers are woken: only under a pop-awaiting policy
     * and only when the prior cell was 0.
     */
    method IncreaseSize(numPushed: int) returns (notify: bool)
      requires 0 <= sizeCount && 0 <= numPushed && sizeCount + numPushed < SizeCell.Mask
      modifies this`sizeCount
      ensures sizeCount == old(sizeCount) + numPushed
      ensures SizeWord() == SizeCell.FetchAdd(old(SizeWord()), numPushed)
      ensures notify <==> AwaitPops(waiting) && old(sizeCount) == 0 && !ending
    {
      var priorSize := SizeWord();
      SizeCell.AddKeepsEnding(sizeCount, ending, numPushed);
      SizeCell.ZeroIffOpenAndEmpty(sizeCount, ending);
      sizeCount := sizeCount + numPushed;
      notify := AwaitPops(waiting) && priorSize == 0;
    }

    /**
     * Decrease_Size: subtracts from the count (fetch_sub on the cell) and
     * reports whether parked producers are woken: only under a
     * push-awaiting policy and only when the prior count was the capacity.
     */
    method DecreaseSize(numPopped: int) returns (notify: bool)
      requires 0 <= numPopped <= sizeCount < SizeCell.Mask
      modifies this`sizeCount
      ensures sizeCount == old(sizeCount) - numPopped
      ensures SizeWord() == SizeCell.FetchSub(old(SizeWord()), numPopped)
      ensures notify <==> AwaitPushes(waiting) && old(sizeCount) == capacity
    {
      var priorSize := SizeWord();
      SizeCell.SubKeepsEnding(sizeCount, ending, numPopped);
      SizeCell.UnpackPack(sizeCount, ending);
      sizeCount := sizeCount - numPopped;
      notify := AwaitPushes(waiting) && SizeCell.Count(priorSize) == capacity;
    }

    /**
     * Emplace: constructs `value` in the slot of the push index unless the
     * queue is full; a full queue is left exactly as it was.
     */
    method Emplace(value: T) returns (ok: bool)
      requires Valid()
      modifies this, storage
      ensures Valid() && storage == old(storage)
      ensures capacity == old(capacity) && indexEnd == old(indexEnd)
      ensures popIndex == old(popIndex) && ending == old(ending)
      ensures ok <==> |old(contents)| < capacity
      ensures ok <==> !IsFull(old(pushIndex), old(popIndex), capacity, indexEnd)
      ensures ok ==> contents == old(contents) + [value]
      ensures ok ==> pushIndex == Bump(old(pushIndex), indexEnd)
      ensures ok ==> storage[old(pushIndex) % capacity] == Some(value)
      ensures ok ==> forall j :: 0 <= j < capacity && j != old(pushIndex) % capacity ==>
                       storage[j] == old(storage[j])
      ensures !ok ==> contents == old(contents) && pushIndex == old(pushIndex)
      ensures !ok && storage != null ==> storage[..] == old(storage[..])
    {
      var unwrappedPushIndex := pushIndex;
      var unwrappedPopIndex := popIndex;
      if storage != null {
        FullIffLiveIsCapacity(unwrappedPushIndex, unwrappedPopIndex, capacity, indexEnd);
      }
      if IsFull(unwrappedPushIndex, unwrappedPopIndex, capacity, indexEnd) {
        return false;
      }

      var slot := unwrappedPushIndex % capacity;
      PushSlot(unwrappedPushIndex, unwrappedPopIndex, capacity, indexEnd);
      ghost var before := storage[..];
      storage[slot] := Some(value);
      LaidAppend(before, storage[..], popIndex % capacity, contents, [value]);

      pushIndex := Bump(unwrappedPushIndex, indexEnd);
      BumpPushAddsOne(unwrappedPushIndex, unwrappedPopIndex, indexEnd);
      contents := contents + [value];
      WrapsTwiceBound(capacity);
      var _ := IncreaseSize(1);
      ok := true;
    }

    /**
     * Pop: moves the oldest element out of its slot and destroys the slot,
     * unless the queue is empty; an empty queue is left exactly as it was
     * and `aPopped` comes back unchanged.
     */
    method Pop(aPopped: T) returns (ok: bool, popped: T)
      requires Valid()
      modifies this, storage
      ensures Valid() && storage == old(storage)
      ensures capacity == old(capacity) && indexEnd == old(indexEnd)
      ensures pushIndex == old(pushIndex) && ending == old(ending)
      ensures ok <==> old(contents) != []
      ensures ok <==> old(pushIndex) != old(popIndex)
      ensures ok ==> popped == old(contents)[0] && contents == old(contents)[1..]
      ensures ok ==> popIndex == Bump(old(popIndex), indexEnd)
      ensures ok ==> storage[old(popIndex) % capacity] == None
      ensures ok ==> forall j :: 0 <= j < capacity && j != old(popIndex) % capacity ==>
                       storage[j] == old(storage[j])
      ensures !ok ==> popped == aPopped && contents == old(contents) && popIndex == old(popIndex)
      ensures !ok && storage != null ==> storage[..] == old(storage[..])
    {
      var unwrappedPushIndex := pushIndex;
      var unwrappedPopIndex := popIndex;
      if storage != null {
        EmptyIffLiveIsZero(unwrappedPushIndex, unwrappedPopIndex, indexEnd);
      }
      if unwrappedPopIndex == unwrappedPushIndex {
        return false, aPopped;
      }

      var slot := unwrappedPopIndex % capacity;
      ghost var before := storage[..];
      assert Ring(slot, 0, capacity) == slot;
      popped := storage[slot].value;
      storage[slot] := None;
      LaidDrop(before, storage[..], slot, contents, 1);

      popIndex := Bump(unwrappedPopIndex, indexEnd);
      BumpPopRemovesOne(unwrappedPushIndex, unwrappedPopIndex, indexEnd);
      BumpIsIncreaseByOne(unwrappedPopIndex, indexEnd);
      SlotAfterIncrease(unwrappedPopIndex, 1, capacity, indexEnd);
      contents := contents[1..];
      var _ := DecreaseSize(1);
      ok := true;
    }

    /** uninitialized_move_n: constructs `count` elements of `source`, from `from` on, in the slots from `slot` on. */
    method ConstructRange(source: seq<T>, from: int, slot: int, count: int)
      requires storage != null
      requires 0 <= from && 0 <= count && from + count <= |source|
      requires 0 <= slot && slot + count <= storage.Length
      modifies storage
      ensures forall j :: 0 <= j < storage.Length ==>
                storage[j] == if slot <= j < slot + count then Some(source[from + j - slot]) else old(storage[j])
    {
      forall j | slot <= j < slot + count {
        storage[j] := Some(source[from + j - slot]);
      }
    }

    /**
     * cPopAndDestroy: appends the `count` elements constructed in the slots
     * from `slot` on to `popped`, then destroys those slots.
     */
    method PopAndDestroy(popped: seq<T>, slot: int, count: int) returns (result: seq<T>)
      requires storage != null
      requires 0 <= slot && 0 <= count && slot + count <= storage.Length
      requires AllSome(storage[slot..slot + count])
      modifies storage
      ensures result == popped + Values(old(storage[slot..slot + count]))
      ensures forall j :: 0 <= j < storage.Length ==>
                storage[j] == if slot <= j < slot + count then None else old(storage[j])
    {
      result := popped;
      var i := 0;
      while i < count
        invariant 0 <= i <= count
        invariant AllSome(storage[slot..slot + i])
        invariant result == popped + Values(storage[slot..slot + i])
      {
        assert storage[slot..slot + count][i] == storage[slot + i];
        assert storage[slot..slot + i + 1] == storage[slot..slot + i] + [storage[slot + i]];
        result := result + [storage[slot + i].value];
        i := i + 1;
      }
      forall j | slot <= j < slot + count {
        storage[j] := None;
      }
    }

    /**
     * The uninitialized_move_n calls of Emplace_Multiple: the first `n`
     * elements of `span` are constructed after the laid-out `queued`, from
     * `pushSlot` to the end of the storage and then from slot 0.
     */
    method PushChunks(span: seq<T>, pushSlot: int, n: int, ghost p: int, ghost queued: seq<T>)
      requires storage != null && Laid(storage[..], p, queued)
      requires pushSlot == Ring(p, |queued|, storage.Length)
      requires 0 < n <= |span| && |queued| + n <= storage.Length
      modifies storage
      ensures Laid(storage[..], p, queued + span[..n])
    {
      ghost var before := storage[..];
      var (initialLength, wrappedLength) := SplitAtEnd(pushSlot, n, storage.Length);
      ConstructRange(span, 0, pushSlot, initialLength);
      if wrappedLength > 0 {
        ConstructRange(span, initialLength, 0, wrappedLength);
      }
      LaidAppend(before, storage[..], p, queued, span[..n]);
    }

    /**
     * Emplace_Multiple: pushes as many leading elements of `span` as there
     * are free slots, in order, in at most two contiguous chunks (the second
     * from slot 0), and returns the elements it did not push.
     */
    method EmplaceMultiple(span: seq<T>) returns (remaining: seq<T>)
      requires Valid()
      modifies this, storage
      ensures Valid() && storage == old(storage)
      ensures capacity == old(capacity) && indexEnd == old(indexEnd)
      ensures popIndex == old(popIndex) && ending == old(ending)
      ensures var numToPush := Min(|span|, capacity - |old(contents)|);
              && contents == old(contents) + span[..numToPush]
              && remaining == span[numToPush..]
              && (numToPush == 0 ==> pushIndex == old(pushIndex))
              && (numToPush > 0 ==> pushIndex == IncreaseIndex(old(pushIndex), numToPush, indexEnd))
    {
      var unwrappedPushIndex := pushIndex;
      var unwrappedPopIndex := popIndex;

      var maxSlotsAvailable := PushRoom(unwrappedPushIndex, unwrappedPopIndex, capacity, indexEnd);
      var spanSize := |span|;
      var numToPush := Min(spanSize, maxSlotsAvailable);
      if numToPush == 0 {
        return span;
      }

      var pushSlot := unwrappedPushIndex % capacity;
      PushSlot(unwrappedPushIndex, unwrappedPopIndex, capacity, indexEnd);
      PushChunks(span, pushSlot, numToPush, popIndex % capacity, contents);

      pushIndex := IncreaseIndex(unwrappedPushIndex, numToPush, indexEnd);
      IncreasePushAddsCount(unwrappedPushIndex, unwrappedPopIndex, numToPush, indexEnd);
      contents := contents + span[..numToPush];
      WrapsTwiceBound(capacity);
      var _ := IncreaseSize(numToPush);
      remaining := span[numToPush..];
    }

    /**
     * The two cPopAndDestroy calls of Pop_Multiple: the first `n` laid-out
     * elements, from `popSlot` to the end of the storage and then from slot
     * 0, are appended to `popped` in queue order and their slots destroyed.
     */
    method PopChunks(popped: seq<T>, popSlot: int, n: int, ghost queued: seq<T>) returns (result: seq<T>)
      requires storage != null && Laid(storage[..], popSlot, queued)
      requires 0 < n <= |queued|
      modifies storage
      ensures result == popped + queued[..n]
      ensures Laid(storage[..], Ring(popSlot, n, storage.Length), queued[n..])
    {
      ghost var before := storage[..];
      var (initialLength, wrappedLength) := SplitAtEnd(popSlot, n, storage.Length);
      LaidHead(before, popSlot, queued, n);
      assert storage[popSlot..popSlot + initialLength] == before[popSlot..popSlot + initialLength];
      result := PopAndDestroy(popped, popSlot, initialLength);
      assert storage[..wrappedLength] == before[..wrappedLength];
      if wrappedLength > 0 {
        result := PopAndDestroy(result, 0, wrappedLength);
      }
      LaidDrop(before, storage[..], popSlot, queued, n);
      assert result == popped + queued[..n];
    }

    /**
     * Pop_Multiple: moves the oldest elements, as many as the destination
     * has spare room for, to the end of `popped` (whose reserved capacity is
     * `poppedCapacity`), in queue order, and destroys their slots.
     */
    method PopMultiple(popped: seq<T>, poppedCapacity: int) returns (result: seq<T>)
      requires Valid()
      requires |popped| <= poppedCapacity
      modifies this, storage
      ensures Valid() && storage == old(storage)
      ensures capacity == old(capacity) && indexEnd == old(indexEnd)
      ensures pushIndex == old(pushIndex) && ending == old(ending)
      ensures var numToPop := Min(poppedCapacity - |popped|, |old(contents)|);
              && result == popped + old(contents)[..numToPop]
              && contents == old(contents)[numToPop..]
              && (numToPop == 0 ==> popIndex == old(popIndex))
              && (numToPop > 0 ==> popIndex == IncreaseIndex(old(popIndex), numToPop, indexEnd))
    {
      var unwrappedPushIndex := pushIndex;
      var unwrappedPopIndex := popIndex;

      var maxSlotsAvailable := Live(unwrappedPushIndex, unwrappedPopIndex, indexEnd);
      var outputSpaceAvailable := poppedCapacity - |popped|;
      var numToPop := Min(outputSpaceAvailable, maxSlotsAvailable);
      if numToPop == 0 {
        return popped;
      }

      var popSlot := unwrappedPopIndex % capacity;
      result := PopChunks(popped, popSlot, numToPop, contents);

      popIndex := IncreaseIndex(unwrappedPopIndex, numToPop, indexEnd);
      IncreasePopRemovesCount(unwrappedPushIndex, unwrappedPopIndex, numToPop, indexEnd);
      SlotAfterIncrease(unwrappedPopIndex, numToPop, capacity, indexEnd);
      contents := contents[numToPop..];
      var _ := DecreaseSize(numToPop);
    }

    /**
     * End_PopWaiting: sets the ending flag (fetch_or) without touching the
     * count, and wakes parked consumers when the prior cell was 0.
     */
    method EndPopWaiting() returns (notify: bool)
      requires Valid() && AwaitPops(waiting)
      modifies this`ending
      ensures Valid() && ending
      ensures SizeWord() == SizeCell.SetEnding(old(SizeWord()))
      ensures notify <==> old(contents) == [] && !old(ending)
    {
      WrapsTwiceBound(capacity);
      var priorSize := SizeWord();
      SizeCell.SetEndingKeepsCount(sizeCount, ending);
      SizeCell.ZeroIffOpenAndEmpty(sizeCount, ending);
      ending := true;
      notify := priorSize == 0;
    }

    /** Reset_PopWaiting: clears the ending flag (fetch_and) without touching the count. */
    method ResetPopWaiting()
      requires Valid() && AwaitPops(waiting)
      modifies this`ending
      ensures Valid() && !ending
      ensures SizeWord() == SizeCell.ClearEnding(old(SizeWord()))
    {
      WrapsTwiceBound(capacity);
      SizeCell.ClearEndingKeepsCount(sizeCount, ending);
      ending := false;
    }

    /**
     * One round of Pop_Await. A successful Pop returns true. Otherwise the
     * consumer parks until the cell is no longer 0; after a failed Pop the
     * count is 0, so the cell is either 0 (no producer runs in this model:
     * the consumer stays parked) or the sentinel sSizeMask, in which case
     * Pop_Await returns false.
     */
    method PopAwait(aPopped: T) returns (round: Round, popped: T)
      requires Valid() && AwaitPops(waiting)
      modifies this, storage
      ensures Valid() && storage == old(storage) && ending == old(ending)
      ensures round == Returned(true) <==> old(contents) != []
      ensures round == Returned(false) <==> old(contents) == [] && ending
      ensures round == Blocked <==> old(contents) == [] && !ending
      ensures round == Returned(true) ==> popped == old(contents)[0] && contents == old(contents)[1..]
      ensures round != Returned(true) ==> popped == aPopped && contents == old(contents)
      ensures capacity == old(capacity) && indexEnd == old(indexEnd) && pushIndex == old(pushIndex)
      ensures round == Returned(true) ==> popIndex == Bump(old(popIndex), indexEnd)
      ensures round != Returned(true) ==> popIndex == old(popIndex)
      ensures round != Returned(true) && storage != null ==> storage[..] == old(storage[..])
    {
      var ok;
      ok, popped := Pop(aPopped);
      if ok {
        return Returned(true), popped;
      }
      SizeCell.SentinelIffEndingAndEmpty(sizeCount, ending);
      if SizeCell.PopWaitEnded(SizeWord()) {
        round := Returned(false);
      } else {
        round := Blocked;
      }
    }

    /**
     * One round of Pop_Multiple_Await: it returns once the destination is
     * non-empty, or once the cell is the sentinel after the wake-up. It does
     * not return when the queue is empty and not ending (the consumer parks),
     * nor when the destination is empty and has no room while elements are
     * queued (Pop_Multiple moves nothing, the cell is not 0, and the loop
     * retries for ever).
     */
    method PopMultipleAwait(popped: seq<T>, poppedCapacity: int) returns (blocked: bool, result: seq<T>)
      requires Valid() && AwaitPops(waiting)
      requires |popped| <= poppedCapacity
      modifies this, storage
      ensures Valid() && storage == old(storage) && ending == old(ending)
      ensures var numToPop := Min(poppedCapacity - |popped|, |old(contents)|);
              && result == popped + old(contents)[..numToPop]
              && contents == old(contents)[numToPop..]
              && (numToPop == 0 ==> popIndex == old(popIndex))
              && (numToPop > 0 ==> popIndex == IncreaseIndex(old(popIndex), numToPop, indexEnd))
      ensures capacity == old(capacity) && indexEnd == old(indexEnd) && pushIndex == old(pushIndex)
      ensures !blocked <==> result != [] || (old(contents) == [] && ending)
    {
      result := PopMultiple(popped, poppedCapacity);
      if result != [] {
        return false, result;
      }
      WrapsTwiceBound(capacity);
      SizeCell.SentinelIffEndingAndEmpty(sizeCount, ending);
      SizeCell.ZeroIffOpenAndEmpty(sizeCount, ending);
      var cell := SizeWord();
      if cell == 0 {
        blocked := true;
      } else if SizeCell.PopWaitEnded(cell) {
        blocked := false;
      } else {
        blocked := true;
      }
    }

    /**
     * One round of Emplace_Await: a successful Emplace returns; on a full
     * queue the producer waits on the cell and retries, which in a run with
     * no consumer never ends.
     */
    method EmplaceAwait(value: T) returns (blocked: bool)
      requires Valid() && AwaitPushes(waiting)
      modifies this, storage
      ensures Valid() && storage == old(storage) && ending == old(ending)
      ensures blocked <==> |old(contents)| == capacity
      ensures !blocked ==> contents == old(contents) + [value]
      ensures blocked ==> contents == old(contents)
      ensures capacity == old(capacity) && indexEnd == old(indexEnd) && popIndex == old(popIndex)
      ensures !blocked ==> pushIndex == Bump(old(pushIndex), indexEnd)
      ensures blocked ==> pushIndex == old(pushIndex)
      ensures blocked && storage != null ==> storage[..] == old(storage[..])
    {
      var ok := Emplace(value);
      blocked := !ok;
    }

    /**
     * One round of Emplace_Multiple_Await: it returns once the whole span
     * has been pushed; otherwise the queue is now full and the producer
     * waits on the cell and retries.
     */
    method EmplaceMultipleAwait(span: seq<T>) returns (blocked: bool)
      requires Valid() && AwaitPushes(waiting)
      modifies this, storage
      ensures Valid() && storage == old(storage) && ending == old(ending)
      ensures var numToPush := Min(|span|, capacity - |old(contents)|);
              && contents == old(contents) + span[..numToPush]
              && (numToPush == 0 ==> pushIndex == old(pushIndex))
              && (numToPush > 0 ==> pushIndex == IncreaseIndex(old(pushIndex), numToPush, indexEnd))
      ensures capacity == old(capacity) && indexEnd == old(indexEnd) && popIndex == old(popIndex)
      ensures blocked <==> |span| > capacity - |old(contents)|
      ensures blocked ==> |contents| == capacity
    {
      var remaining := EmplaceMultiple(span);
      blocked := remaining != [];
    }
  }
}
