# go-priority-queue in Dafny

A model of the generic, addressable min-priority queue of the Go package `pq`
(`pq.go`, with its error values in `errors.go`), together with proofs of what
it promises.

The queue keeps two structures in step:

- the item heap: a slice of records (value, priority), ordered as a binary
  min-heap on priority;
- the lookup map: from each enqueued value to its record.

`Push` rejects a value that is already present. `Pop` returns a value of least
priority, or `ErrQueueEmpty`. `Update` changes an enqueued value's priority and
re-heapifies from that record's slot, or returns `ErrItemNotFound`. `Contains`
and `Len` answer from the map and the slice.

The Go code calls the standard library's `container/heap` (`heap.Push`,
`heap.Pop`, `heap.Fix`) over the slice's `Len`/`Less`/`Swap`/`Push`/`Pop`
methods. The library's source is not part of this model. Its sift-up,
sift-down and fix routines are written out here as methods that follow the
library's algorithm:

- `up` stops at the root;
- `down` takes the left child unless the right one is strictly smaller;
- `Fix` sifts down first, and sifts up only if the record did not move;
- `Pop` swaps the root with the last slot, sifts down over the remaining
  slots, then removes the last slot.

Layout:

- `errors.dfy`, module `Errors`:
  - the three error values and their messages (`errors.go`);
  - `Outcome`, the result of `Push`/`Update` (nil or an error);
  - `Result`, the result of `Pop` (a value or an error).
- `pq.dfy`, module `PQ`:
  - the class `PriorityQueue` with fields `heap` (the slice) and `lookup`
    (value → slot);
  - a ghost field `Contents` (value → priority) as the public view;
  - the invariant `Valid()`: index consistency, heap order, and `Contents`
    equal to what the two fields represent;
  - the heap primitives, and lemmas about them.
- `pq_scenarios.dfy`, module `PQScenarios`: cases drawn from the test suite
  (`pq_test.go`), proved from the public contracts alone.

Go's record keeps its own slot in an `index` field, and the lookup map points
at the record. Both say the same thing: which slot a value sits in. The model
stores that once, as `lookup: map<T, nat>`. `Swap` rewrites the entries of
both values it exchanges, as Go's `Swap` rewrites both records' `index`.

Two small members have no contract beyond their definitions, so they have no
row below:

- `PQ.PriorityQueue.Less` is the strict priority comparison of two slots
  (`pq.go:91-93`), used by the sifts;
- `Errors.Message` gives the text of each error value (`errors.go:5-12`).

The pop order stated for the queue is one of least priority first. Ties are
broken however the heap happens to fall, and the contracts say nothing about
them.

## Model

| member | source | states |
|---|---|---|
| PQ.PriorityQueue.New | pq.go:24-29 | a new queue is valid and holds nothing |
| PQ.PriorityQueue.Len | pq.go:31-33 | the slice length equals the number of enqueued values |
| PQ.IndexSize | pq.go:87-89 | under index consistency the lookup map has exactly one entry per slot, so the slice length is the number of enqueued values |
| PQ.PriorityQueue.Contains | pq.go:74-77 | the map lookup is true exactly when the value is enqueued, and exactly when some slot of the slice holds the value |
| PQ.PriorityQueue.Push | pq.go:35-49 | an already enqueued value gives ErrItemExists and changes nothing; otherwise the value is added with its priority, the length grows by one, Contains is true for it, and both invariants hold |
| PQ.PriorityQueue.Pop | pq.go:51-61 | an empty queue gives ErrQueueEmpty and changes nothing; otherwise the result is an enqueued value whose priority is no larger than any other's, it alone is removed, the length drops by one, and both invariants hold |
| PQ.PriorityQueue.Update | pq.go:63-72 | an unknown value gives ErrItemNotFound and changes nothing; otherwise only that value's priority changes, to the new one, the length is unchanged, and both invariants hold |
| PQ.PriorityQueue.Swap | pq.go:95-99 | the two slots are exchanged, no other slot changes, both values' slot entries are rewritten, and the index stays consistent with unchanged contents |
| PQ.SwapKeepsIndex | pq.go:95-99 | exchanging two slots and rewriting both slot entries keeps index consistency and the value-to-priority contents |
| PQ.PriorityQueue.PushItem | pq.go:101-105 | the record is appended in slot old length, its value maps to that slot, and it is added to the contents |
| PQ.PriorityQueue.PopItem | pq.go:107-112 | the last record is returned and the slice loses exactly its last slot |
| PQ.DropLast | pq.go:107-112 | removing the last slot and its value's entry keeps index consistency and removes exactly that value from the contents |
| PQ.PriorityQueue.Up | pq.go:45 | sifting up from the one slot that may be smaller than its parent restores heap order, keeps the index consistent and keeps the contents |
| PQ.UpStep | pq.go:91-99 | swapping a record with a strictly larger parent moves the only possible disorder up to the parent's slot |
| PQ.PriorityQueue.HeapPush | pq.go:45 | appending and sifting up keeps both invariants and adds exactly the new value with its priority |
| PQ.PriorityQueue.DownOnce | pq.go:57 | one sift-down round either stops, changing nothing, when no child is smaller than the slot, or, when the smaller child (the left one unless the right one is strictly smaller) is strictly smaller than the slot, exchanges exactly those two slots; the index and contents are kept and order holds around the new slot |
| PQ.DownStep | pq.go:91-99 | swapping a record with its smaller child, when that child is strictly smaller, moves the only possible disorder down to the child's slot |
| PQ.DownStepAround | pq.go:91-99 | after that swap every link not touching the child's slot is in order |
| PQ.SettledAt | pq.go:57 | when sifting down stops, the heap is ordered if the record moved, and otherwise ordered except above the starting slot |
| PQ.PriorityQueue.Down | pq.go:57 | sifting down over the first n slots keeps the index and contents and leaves later slots alone; moved means the starting slot now holds a strictly smaller priority and heap order holds, not moved means nothing changed and only the link above the start may be out of order |
| PQ.PriorityQueue.HeapPop | pq.go:57 | the returned record is the old root, no priority in the heap is smaller, the remaining slots form an ordered heap, and the contents lose exactly that value |
| PQ.RootIsMinimal | pq.go:51-61 | in a heap-ordered slice the root's priority is no larger than any slot's |
| PQ.ChangePriority | pq.go:69 | overwriting one record's priority leaves every link not touching that slot in order, and the slot's parent no larger than its children |
| PQ.PriorityQueue.Fix | pq.go:70 | after a priority change at slot i, sifting down and then, if it did not move, up, restores heap order with the index and contents kept |
| PQ.PopOrderSorted | pq.go:51-61 | values taken in pop order are distinct enqueued values whose priorities never decrease |
| PQ.PopOrderExtend | pq.go:51-61 | a pop order extends by any not-yet-popped value of least remaining priority, which is what each successful Pop returns |
| PQScenarios.LenAfterTwoPushes | pq_test.go:9-38 | an empty queue has length 0, and after pushing two distinct values it has length 2 |
| PQScenarios.PushDuplicate | pq_test.go:74-85 | pushing an enqueued value again gives ErrItemExists and the length stays 1 |
| PQScenarios.LargerPriorityPopsSecond | pq_test.go:60-72 | pushing 2 at 2.0 onto a queue holding 1 at 1.0 gives length 2, and 2 pops second, after 1 |
| PQScenarios.SmallerPriorityPopsFirst | pq_test.go:86-111 | a value pushed with a strictly smaller priority (zero and negative included) is popped first |
| PQScenarios.PopEmptyThenSingle | pq_test.go:146-182 | popping an empty queue gives ErrQueueEmpty; popping a one-value queue returns that value and leaves length 0 |
| PQScenarios.UpdateUnknown | pq_test.go:193-200 | updating a value never pushed gives ErrItemNotFound and the queue stays empty |
| PQScenarios.UpdateSingle | pq_test.go:202-250 | updating the only enqueued value to any priority (2.0, 0.0 and -1.0 in the tests) succeeds, and that value pops first |
| PQScenarios.ThreeValues | pq_test.go:214-220 | pushing 1, 2, 3 into a new queue gives a valid queue holding exactly those values with their priorities |
| PQScenarios.UpdateMovesToFront | pq_test.go:213-226 | with 1, 2, 3 at priorities 1.0, 2.0, 3.0, updating 2 to 0.5 succeeds and 2 is popped next |
| PQScenarios.ContainsAfterPush | pq_test.go:282-318 | Contains is false on an empty queue and true after the value is pushed |
| PQScenarios.DrainAll | pq_test.go:124-140 | popping as many times as the queue's length returns every value once, in pop order, and empties the queue |
| PQScenarios.ExtractionOrder | pq_test.go:114-141 | three pushes followed by popping everything return the three values once each, in non-decreasing priority |

## Left out

- Priorities are mathematical integers, not `float64`. The code only compares them with `<`. NaN, infinities and rounding are not modelled. The scenarios scale the test suite's priorities by ten.
- The source of `container/heap` is not part of this model. The sifts are written after the library's published algorithm: `PQ.PriorityQueue.Up`, `Down`, `Fix`, `HeapPush` and `HeapPop`.
- Go's `down` has a `j1 < 0` guard against `int` overflow of `2*i+1`. Slot numbers here are unbounded, so that branch cannot occur and is not modelled.
- Go's `Pop` on an empty queue also returns the zero value of `T`. `Failure(QueueEmpty)` carries no value.
- Pointer identity and aliasing of the `*item` records shared between the slice and the map are not modelled. The record's `index` field and the map's reference are merged into one value-to-slot map.
- Concurrency is not modelled. The type is not safe for concurrent use, and the model is single-threaded.
- The test suite's early `break` at the expected position is not modelled. `PQScenarios.DrainAll` pops the whole queue, and the scenarios state the position directly.
- The test harness (`t.Run`, `t.Errorf`) and the `ptr` test helper are not modelled.
- The relative order of values with equal priority is unspecified, and no contract states it.
