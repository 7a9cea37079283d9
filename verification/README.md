# SPSC ring-buffer queue, modelled in Dafny

This project models the bounded single-producer/single-consumer queue of
`lockfree-queue/src/SPSC.hpp` and the policy helpers of
`lockfree-queue/src/common.hpp`, run by one thread at a time.

The queue is a fixed-capacity circular buffer. Two "unwrapped" counters, the
push index and the pop index, run through `[0, indexEnd)`. `indexEnd` is the
largest multiple of the capacity that fits in a 32-bit `int`. Each counter
addresses the slot `index % capacity`.

A third cell, the size cell, holds the live count in its low 31 bits. Its top
bit is the "ending" flag: `End_PopWaiting` sets it and `Reset_PopWaiting`
clears it. A consumer blocked in `Pop_Await` or `Pop_Multiple_Await` gives
up when it wakes and finds the cell equal to that bit alone.

Modules:

- `Common` (`common.dfy`): the wait policy, `Await_Pushes` and `Await_Pops`.
  It also models the aborting `Assert` as an `Outcome` value. A member's
  checks then become a list, and the first check that fails decides the
  diagnostic.
- `Indices` (`indices.dfy`): the index arithmetic as pure functions.
  - `Bump_Index`, `Increase_Index` and the boundary `indexEnd`;
  - the live count, and the full and empty tests;
  - the free-slot count of `Emplace_Multiple`;
  - the split of a batch at the end of the array;
  - how an unwrapped index maps to its slot (`Ring`).
- `SizeCell` (`size_cell.dfy`): the packed 32-bit size cell, read as an
  unsigned word. It covers `fetch_add`, `fetch_sub`, `fetch_or` and
  `fetch_and`, the mask in `size()`, and the wake-up sentinel test. The
  source declares `sSizeMask` as an `int`, but only its bit pattern matters,
  so the unsigned reading is equivalent.
- `SPSC` (`spsc.dfy`): the class `Queue<T>`.
  - Its storage is an `array<Option<T>>`: `None` is an unconstructed slot and
    `Some(v)` a constructed one.
  - The size cell is kept as a count and a flag.
  - A ghost sequence `contents` is the queue as its callers see it, oldest
    first.
  - `Valid()` ties the three together. The live count `push − pop (mod indexEnd)`
    is `|contents|`, and the k-th element sits `k` slots after
    `pop % capacity`, wrapping once (`Laid`). Every other slot is empty.
  - Every public operation keeps `Valid()` and states its effect on
    `contents`, the indices and the cell. The private helpers (the size
    updates and the chunk moves) run while `Valid()` is broken and are
    stated on the storage and the cell alone.
  - Allocate's fatal checks are a list of `Assert`s (`AllocateChecks`),
    including the "Not enough wrap-arounds!" abort for a capacity above
    INT_MAX / 2 (`lockfree-queue/src/SPSC.hpp:57-58`).
  - The class runs the corrected program of "## Findings": Allocate restarts
    both indices at 0, and the batch operations use the overflow-free
    `IncreaseIndex` and `PushRoom`.
- `Scenarios` (`scenarios.dfy`): the unit tests' single-threaded runs, as
  client methods. Each outcome is proved for every accepted capacity and,
  for the wrap-around run, for every number of cycles. The misuse
  diagnostics are stated for the inputs the death tests use.

## Model

| member | source | states |
|---|---|---|
| Common.AwaitPushes | lockfree-queue/src/common.hpp:7-9 | the producer may block under every policy except NoWaits and PopAwait |
| Common.AwaitPops | lockfree-queue/src/common.hpp:11-13 | the consumer may block under every policy except NoWaits and PushAwait |
| Common.PolicyOf | lockfree-queue/src/common.hpp:5-13 | the policy with given push/pop blocking flags has exactly those flags |
| Common.PolicyIsItsCapabilities | lockfree-queue/src/common.hpp:5-13 | the two flags determine the policy; NoWaits enables neither side and BothAwait both |
| Common.Assert | lockfree-queue/src/common.hpp:27-32 | control continues exactly when the condition holds; otherwise it aborts with the message |
| Common.RunChecks | lockfree-queue/src/common.hpp:27-44 | a run of Asserts continues exactly when all hold; otherwise it aborts with the message of the first one that fails |
| Indices.IndexEnd | lockfree-queue/src/SPSC.hpp:56-59 | `capacity * (INT_MAX / capacity)` is a multiple of the capacity, lies in `(INT_MAX − capacity, INT_MAX]`, and is at least twice the capacity when it wraps twice |
| Indices.WrapsTwice | lockfree-queue/src/SPSC.hpp:56-58 | an accepted capacity is positive and its boundary holds at least two full wraps of the ring |
| Indices.WrapsTwiceBound | lockfree-queue/src/SPSC.hpp:56-58 | the "Not enough wrap-arounds" check passes exactly when `0 < capacity <= INT_MAX / 2` |
| Indices.Bump | lockfree-queue/src/SPSC.hpp:314-317 | Bump_Index keeps an index inside `[0, indexEnd)` |
| Indices.BumpIsSuccessor | lockfree-queue/src/SPSC.hpp:314-317 | Bump_Index(i) is `(i + 1) mod indexEnd` |
| Indices.IncreaseIndexAsWritten | lockfree-queue/src/SPSC.hpp:319-323 | Increase_Index with its 32-bit sum stays in `[0, indexEnd)` whenever the sum does not overflow |
| Indices.IncreaseIndex | lockfree-queue/src/SPSC.hpp:319-323 | Increase_Index without intermediate overflow stays in `[0, indexEnd)` |
| Indices.IncreaseIndexIsSum | lockfree-queue/src/SPSC.hpp:319-323 | Increase_Index(i, n) is `(i + n) mod indexEnd` for `n <= indexEnd` |
| Indices.BumpIsIncreaseByOne | lockfree-queue/src/SPSC.hpp:314-323 | Bump_Index(i) equals Increase_Index(i, 1) |
| Indices.IncreaseIndexAsWrittenAgrees | lockfree-queue/src/SPSC.hpp:319-323 | when `i + n` fits in an int, the written Increase_Index equals the overflow-free one |
| Indices.IncreaseIndexOverflows | lockfree-queue/src/SPSC.hpp:319-323 | with capacity 3, Increase_Index(2147483645, 3) as written overflows `int` (undefined behaviour; INT_MIN under two's-complement wrap-around), where 2 is intended |
| Indices.SlotAfterIncrease | lockfree-queue/src/SPSC.hpp:319-323 | since indexEnd is a multiple of the capacity, the slot of Increase_Index(i, n) is the slot of i moved n places around the ring, which is `(i % capacity + n) % capacity` |
| Indices.Live | lockfree-queue/src/SPSC.hpp:189-191 | the live count `push − pop (+ indexEnd if negative)` lies in `[0, indexEnd)` for indices in range, and is 0 when the indices are equal |
| Indices.LiveIsDifferenceMod | lockfree-queue/src/SPSC.hpp:189-191 | the live count is `(push − pop) mod indexEnd` |
| Indices.PushIsPopPlusLive | lockfree-queue/src/SPSC.hpp:189-191 | advancing the pop index by the live count gives the push index |
| Indices.PushSlot | lockfree-queue/src/SPSC.hpp:84-90 | the slot Emplace writes, `push % capacity`, is the live count's distance around the ring from the pop slot |
| Indices.IsFull | lockfree-queue/src/SPSC.hpp:84-86 | Emplace's full test never holds on equal indices, so a full queue is never taken for an empty one |
| Indices.FullIffLiveIsCapacity | lockfree-queue/src/SPSC.hpp:84-86 | Emplace's full test (`delta == capacity` or `delta == capacity − indexEnd`) holds exactly when the live count is the capacity |
| Indices.EmptyIffLiveIsZero | lockfree-queue/src/SPSC.hpp:112-113 | Pop's empty test `pop == push` holds exactly when the live count is 0 |
| Indices.BumpPushAddsOne | lockfree-queue/src/SPSC.hpp:94-97 | advancing the push index by one adds one to the live count |
| Indices.BumpPopRemovesOne | lockfree-queue/src/SPSC.hpp:122-125 | advancing the pop index of a non-empty queue by one removes one from the live count |
| Indices.IncreasePushAddsCount | lockfree-queue/src/SPSC.hpp:168-171 | advancing the push index by n adds n to the live count |
| Indices.IncreasePopRemovesCount | lockfree-queue/src/SPSC.hpp:224-227 | advancing the pop index by n, at most the live count, removes n |
| Indices.PushRoomAsWritten | lockfree-queue/src/SPSC.hpp:140-143 | the free-slot count with 32-bit intermediate sums, as written, is an int |
| Indices.PushRoom | lockfree-queue/src/SPSC.hpp:140-143 | the free-slot count lies in `[0, capacity]` |
| Indices.PushRoomAsWrittenAgrees | lockfree-queue/src/SPSC.hpp:140-143 | when `pop + capacity` fits in an int, the written free-slot count equals `capacity − live` |
| Indices.PushRoomOverflows | lockfree-queue/src/SPSC.hpp:140-143 | with capacity 3, pop 2147483645 and push 0, the written free-slot count overflows `int` (undefined behaviour; INT_MIN under two's-complement wrap-around), where 2 is intended |
| Indices.SplitAtEnd | lockfree-queue/src/SPSC.hpp:153-166 | a batch from `slot` splits into a chunk that ends at or before the array end and a second chunk from slot 0, which is non-empty only when the first reaches the end and is no longer than `slot`; the two lengths sum to the count |
| Indices.SplitAtEndPlacesInRing | lockfree-queue/src/SPSC.hpp:153-166 | the j-th element of a split batch lands in the slot j places around the ring from `slot` |
| Indices.StaleIndicesOverwrite | lockfree-queue/src/SPSC.hpp:67-74 | a capacity-1 queue can reach index 1431655767; once freed and re-allocated with capacity 715827883 (boundary 1431655766), three Emplaces pass the full test and the third writes the first one's slot |
| SizeCell.Pack | lockfree-queue/src/SPSC.hpp:33 | a count below the flag bit with the flag on top is a 32-bit word |
| SizeCell.Count | lockfree-queue/src/SPSC.hpp:286-290 | masking off the flag bit leaves a count below the flag bit |
| SizeCell.FetchAdd | lockfree-queue/src/SPSC.hpp:329 | fetch_add gives a 32-bit word |
| SizeCell.FetchSub | lockfree-queue/src/SPSC.hpp:343 | fetch_sub gives a 32-bit word |
| SizeCell.SetEnding | lockfree-queue/src/SPSC.hpp:300 | fetch_or with the mask gives a 32-bit word |
| SizeCell.ClearEnding | lockfree-queue/src/SPSC.hpp:309 | fetch_and with the inverted mask gives a 32-bit word |
| SizeCell.UnpackPack | lockfree-queue/src/SPSC.hpp:286-290 | size() of a packed cell is its count, and the flag bit is its ending flag |
| SizeCell.PackUnpack | lockfree-queue/src/SPSC.hpp:33 | every 32-bit cell is the packing of its masked count and its flag bit |
| SizeCell.PopWaitEnded | lockfree-queue/src/SPSC.hpp:263 | a cell equal to sSizeMask has the ending flag set and a count of 0 |
| SizeCell.SentinelIffEndingAndEmpty | lockfree-queue/src/SPSC.hpp:261-264 | the wake-up test `cell == sSizeMask` holds exactly when the flag is set and the count is 0 |
| SizeCell.ZeroIffOpenAndEmpty | lockfree-queue/src/SPSC.hpp:300-304 | the prior cell is 0 exactly when the flag is clear and the count is 0 |
| SizeCell.SetEndingKeepsCount | lockfree-queue/src/SPSC.hpp:297-305 | End_PopWaiting's fetch_or sets the flag and keeps the count |
| SizeCell.ClearEndingKeepsCount | lockfree-queue/src/SPSC.hpp:307-310 | Reset_PopWaiting's fetch_and clears the flag and keeps the count |
| SizeCell.AddKeepsEnding | lockfree-queue/src/SPSC.hpp:325-337 | Increase_Size's fetch_add adds to the count and keeps the flag |
| SizeCell.SubKeepsEnding | lockfree-queue/src/SPSC.hpp:339-350 | Decrease_Size's fetch_sub subtracts from the count and keeps the flag |
| SPSC.AllocateChecks | lockfree-queue/src/SPSC.hpp:44-58 | Allocate continues exactly when the queue is unallocated and the capacity wraps twice; otherwise it aborts with the double-allocation, invalid-capacity or wrap-around diagnostic, checked in that order |
| SPSC.FreeChecks | lockfree-queue/src/SPSC.hpp:68-69 | Free continues exactly when the queue is allocated and empty; otherwise it aborts with "No memory to free!" or "Can't free until empty!", checked in that order |
| SPSC.Values | lockfree-queue/src/SPSC.hpp:200-201 | moving out a run of constructed slots yields one element per slot, in slot order |
| SPSC.LaidAppend | lockfree-queue/src/SPSC.hpp:153-166 | constructing a batch in the two chunks after the last element appends the batch to the queue's contents |
| SPSC.LaidHead | lockfree-queue/src/SPSC.hpp:207-222 | the two chunks Pop_Multiple reads hold, in order, exactly the first n queued elements |
| SPSC.LaidDrop | lockfree-queue/src/SPSC.hpp:207-222 | destroying those chunks leaves the remaining elements laid out from the advanced pop slot, with every other slot empty |
| SPSC.Queue.constructor | lockfree-queue/src/SPSC.hpp:357-365 | a new queue is unallocated with zero counters, an empty cell and no elements |
| SPSC.Queue.IsAllocated | lockfree-queue/src/SPSC.hpp:62-64 | an allocated queue has a positive capacity and a boundary of at least two wraps; an unallocated one has capacity 0 and no elements |
| SPSC.Queue.SizeWord | lockfree-queue/src/SPSC.hpp:359 | the class's count and flag pack into one 32-bit cell from which the count and the flag read back unchanged |
| SPSC.Queue.Size | lockfree-queue/src/SPSC.hpp:286-290 | size() is the number of queued elements, whatever the ending flag |
| SPSC.Queue.Empty | lockfree-queue/src/SPSC.hpp:292-294 | empty() holds exactly when no element is queued |
| SPSC.Queue.Allocate | lockfree-queue/src/SPSC.hpp:44-60 | after the checks pass, the queue owns fresh storage of `aCapacity` empty slots with boundary IndexEnd(aCapacity), holds no element, and keeps the flag; both indices restart at 0, the correction of the third finding (the source leaves them as they were) |
| SPSC.Queue.Free | lockfree-queue/src/SPSC.hpp:67-74 | after the checks pass, the queue is unallocated with capacity 0; the indices and the boundary stay as they were |
| SPSC.Queue.IncreaseSize | lockfree-queue/src/SPSC.hpp:325-337 | the cell becomes fetch_add(cell, n) with the count up by n; consumers are woken exactly under a pop-awaiting policy when the prior cell was 0 |
| SPSC.Queue.DecreaseSize | lockfree-queue/src/SPSC.hpp:339-350 | the cell becomes fetch_sub(cell, n) with the count down by n; producers are woken exactly under a push-awaiting policy when the prior masked count was the capacity |
| SPSC.Queue.Emplace | lockfree-queue/src/SPSC.hpp:76-102 | false, with nothing changed, exactly when the raw full test holds (live count = capacity, so always on an unallocated queue); otherwise the value is appended, it is in slot `push % capacity`, the push index is bumped, every other slot and the pop index are unchanged |
| SPSC.Queue.Pop | lockfree-queue/src/SPSC.hpp:104-130 | false, with nothing changed and the output untouched, exactly when `push == pop`; otherwise it yields the oldest element, removes it, empties its slot, bumps the pop index and leaves every other slot unchanged |
| SPSC.Queue.ConstructRange | lockfree-queue/src/SPSC.hpp:156-166 | uninitialized_move_n: the `count` slots from `slot` hold the source elements in order; every other slot is unchanged |
| SPSC.Queue.PopAndDestroy | lockfree-queue/src/SPSC.hpp:198-205 | the destination gains the run's elements in slot order, its old contents kept; the run's slots are destroyed and all others are unchanged |
| SPSC.Queue.PushChunks | lockfree-queue/src/SPSC.hpp:153-166 | the two moves of Emplace_Multiple lay the first n span elements out after the queued ones |
| SPSC.Queue.EmplaceMultiple | lockfree-queue/src/SPSC.hpp:132-179 | pushes the first `min(|span|, capacity − live)` span elements in order, returns exactly the rest (the whole span when full), and advances the push index by that count mod indexEnd |
| SPSC.Queue.PopChunks | lockfree-queue/src/SPSC.hpp:207-222 | the two cPopAndDestroy calls append the first n queued elements in order and leave the rest laid out from the advanced pop slot |
| SPSC.Queue.PopMultiple | lockfree-queue/src/SPSC.hpp:181-231 | appends the `min(spare room, live)` oldest elements in order after the destination's old contents, removes them, and advances the pop index by that count mod indexEnd; moves nothing when either side is 0 |
| SPSC.Queue.EndPopWaiting | lockfree-queue/src/SPSC.hpp:297-305 | the cell becomes fetch_or(cell, mask): the flag is set and the count kept; consumers are woken exactly when the prior cell was 0 |
| SPSC.Queue.ResetPopWaiting | lockfree-queue/src/SPSC.hpp:307-310 | the cell becomes fetch_and(cell, ~mask): the flag is cleared and the count kept |
| SPSC.Queue.PopAwait | lockfree-queue/src/SPSC.hpp:252-266 | one round returns true with the oldest element when one is queued, bumping the pop index; otherwise it returns false when the flag is set, and parks when it is not, with the pop index and the storage unchanged; the push index never changes |
| SPSC.Queue.PopMultipleAwait | lockfree-queue/src/SPSC.hpp:268-283 | one round does Pop_Multiple (the oldest elements appended in order, the pop index advanced by their number, the push index unchanged) and returns exactly when the destination is non-empty or when the queue was empty with the flag set; otherwise it parks or retries |
| SPSC.Queue.EmplaceAwait | lockfree-queue/src/SPSC.hpp:233-238 | one round appends the value, bumps the push index and returns unless the queue is full, in which case the contents, the push index and the storage are unchanged and the producer waits; the pop index never changes |
| SPSC.Queue.EmplaceMultipleAwait | lockfree-queue/src/SPSC.hpp:240-250 | one round pushes what fits, advancing the push index by that count, and returns exactly when the whole span fitted; otherwise the queue is now full and the producer waits; the pop index never changes |
| Scenarios.Lifecycle | lockfree-queue/test/spsc_nowait.cpp:35-56 | a new queue is unallocated with size() 0 and refuses Emplace; after Allocate it is allocated with size() 0; after Free it is unallocated |
| Scenarios.MisuseAborts | lockfree-queue/test/spsc_nowait.cpp:58-80 | Allocate with capacity 0 or −1 aborts with "Invalid capacity", a second Allocate with "Can't allocate while still owning memory", Free of an unallocated queue with "No memory to free" |
| Scenarios.SingleElement | lockfree-queue/test/spsc_nowait.cpp:83-100 | for any capacity: Emplace(42) succeeds with size() 1, Pop returns 42 and leaves the queue empty, and a further Pop finds nothing |
| Scenarios.FillRefuseDrain | lockfree-queue/test/spsc_nowait.cpp:102-124 | for any capacity: filling with 0..capacity−1 brings size() to the capacity, one more Emplace is refused, and popping returns 0..capacity−1 in order and leaves the queue empty |
| Scenarios.WrapAround | lockfree-queue/test/spsc_nowait.cpp:126-145 | for any capacity and any number of fill/drain cycles, including past the index boundary, the values come back in push order |
| Scenarios.EmplaceMultiplePartial | lockfree-queue/test/spsc_nowait.cpp:227-240 | for any capacity c: Emplace_Multiple of [1..c+2] into an empty queue returns [c+1, c+2] and leaves size() c (the test's c = 3 gives [4, 5] and 3) |
| Scenarios.PopMultipleAll | lockfree-queue/test/spsc_nowait.cpp:249-268 | for any capacity and any n up to it: the values 0..n−1 pushed one by one come out of one Pop_Multiple, into room for the capacity, in order, leaving the queue empty (the test's capacity 10 and n = 5) |
| Scenarios.EndThenResetPopWaiting | lockfree-queue/test/await_policies.cpp:183-234 | after End_PopWaiting, Pop_Await on an empty queue returns false; after Reset_PopWaiting and an Emplace of 42, Pop_Await returns true with 42 |

## Left out

- Atomics and memory orderings: every atomic cell is a plain field and operations run one at a time. Inter-thread visibility and the acquire/release pairing cannot be stated in a sequential model.
- Blocking: `wait` and `notify_all` are not modelled as parking. Each `*_Await` member is modelled as one round of its retry loop. The round reports whether the caller returns or stays blocked. `IncreaseSize`, `DecreaseSize` and `EndPopWaiting` report whether they would notify.
- SPSC.Queue.PopAwait: models one round; the source's loop retries Pop after a wake-up that is not the sentinel, which needs a second thread.
- SPSC.Queue.PopMultipleAwait: models one round; when the destination is empty and has no spare room and elements are queued, the source spins for ever, which the model reports as blocked.
- SPSC.Queue.EmplaceAwait: models one round; on a full queue the source waits for a consumer, which the model reports as blocked.
- SPSC.Queue.EmplaceMultipleAwait: models one round; the source keeps the unpushed suffix and retries after a consumer frees room.
- Raw memory: placement `new`, `std::launder`, byte addresses, alignment and padding are left out. Storage is an array of optional values, and element moves are plain copies.
- Allocator: the allocator is taken to succeed, so the "Memory allocation failed!" abort is not modelled. The allocator object and `Free`'s hand-back of memory are not modelled.
- Diagnostics: the text written to stderr, and the `{}` value substitution of the three-argument `Assert`, are left out. Only the message chosen is modelled.
- Integer casts: `static_cast<int>` of the span size and of the destination's spare room are taken to be exact. Spans or containers beyond INT_MAX elements are not modelled.
- SPSC.Queue.PopMultiple: the destination container is a sequence plus its reserved capacity (`popped` and `poppedCapacity`); reallocation inside `insert` is not modelled.
- The unused `ThreadsPolicy` values SPMC, MPSC and MPMC are left out; only the SPSC specialisation exists.
- Overflow of the size cell's count into the flag bit cannot happen here: Allocate caps the capacity at INT_MAX / 2, so that case is not modelled.
- SPSC.Queue.Allocate: the model restarts both indices at 0, which `lockfree-queue/src/SPSC.hpp:44-60` does not do; this is the correction of the third row under "## Findings", so the stale-index overwrite is shown only by `Indices.StaleIndicesOverwrite`.
- SPSC.Queue.EmplaceMultiple: it advances the push index with the overflow-free `IncreaseIndex` and counts free slots with the overflow-free `PushRoom`, so at the overflowing states of "## Findings" it follows the corrected program, not the code as written.
- SPSC.Queue.PopMultiple: it advances the pop index with the overflow-free `IncreaseIndex`, so at the overflowing state of the first row under "## Findings" it follows the corrected program.

## Findings

| source | as written | input that shows it | evidently intended | confidence | as-written member | corrected member |
|---|---|---|---|---|---|---|
| lockfree-queue/src/SPSC.hpp:319-323 | `aIndex + aIncrease` is computed in `int` before the correction by `mIndexEnd`, so it can exceed INT_MAX | capacity 3 (indexEnd 2147483646), index 2147483645, increase 3: the sum overflows (undefined behaviour; INT_MIN under two's-complement wrap-around) | `(index + increase) mod indexEnd`, here 2 | not executed | Indices.IncreaseIndexOverflows | Indices.IncreaseIndexIsSum |
| lockfree-queue/src/SPSC.hpp:140-143 | `cUnwrappedPopIndex + mCapacity` is computed in `int` and can exceed INT_MAX | capacity 3, pop index 2147483645, push index 0 (one element live): `pop + capacity` overflows (undefined behaviour; the free-slot count is INT_MIN under two's-complement wrap-around) | `capacity − live`, here 2 | not executed | Indices.PushRoomOverflows | Indices.PushRoom |
| lockfree-queue/src/SPSC.hpp:67-74 | Free keeps both indices and Allocate (44-60) does not reset them, so a smaller boundary can leave them at or beyond the new indexEnd | capacity 1 to index 1431655767, Free, Allocate(715827883): boundary 1431655766, and the third Emplace overwrites the first, still queued, element | Allocate starts both indices at 0, inside the new boundary | not executed | Indices.StaleIndicesOverwrite | SPSC.Queue.Allocate |
