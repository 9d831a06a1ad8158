# A verified model of the Concurrency library's containers, thread pool and parallel algorithms

This project models, in Dafny, the core of a small C++ concurrency library:

- `LockFreeRing<T, N>`: a single-producer/single-consumer ring buffer of N slots (N a power of two). Its 32-bit `head` and `tail` counters wrap at 2^32; the slot is `counter & (N - 1)`; one slot stays free.
- `ConcurrentQueue<T>`: a FIFO protected by a mutex. The thread pool uses it as its global queue.
- `WorkStealingQueue`: the per-worker deque. The owner pushes and pops at the front; thieves take the back.
- `ThreadPool`: `submit` routes a task to the caller's own deque when the caller is a pool worker and to the global queue otherwise. `runPendingTask` tries the caller's own deque, then the global queue, then every deque in a rotation that starts at the caller's own index. `workerFunc` calls it until the pool is done.
- Two quicksorts, one with `std::async` and one with the pool, and two block-partitioned parallel accumulations.

Concurrency is removed. Every call that holds a mutex, and every ring operation, is one atomic step of a sequential history. The containers and the pool are classes whose methods update their fields in place. Each method is proved against a specification: ghost histories, ghost contents and pure functions.

- **Pool specification.** The rules of the pool are pure functions over a value `Scheduling.Queues`: the global queue plus the local deques. `ThreadPool.State()` maps the object graph onto that value. Each pool method is proved to move `State()` exactly as its specification function does.
- **Pool properties.** Routing, conservation and draining are lemmas about those functions: no task is lost or duplicated, and repeated `runPendingTask` drains every queue.
- **Algorithms.** They are functions over sequences of integers, or methods with the source's loops. A future is read as the value it delivers.

Modules and files:

| file | module | models |
|---|---|---|
| `bits.dfy` | `Bits` | `uint32_t`/`size_t` wrap-around, powers of two, `&` and `~` |
| `wrappers.dfy` | `Wrappers` | `Option`, for `std::optional` |
| `lock_free_ring.dfy` | `SpscRing` | `containers/include/lock_free_ring.h` |
| `lock_based_queue.dfy` | `LockedFifo` | `containers/include/lock_based_queue.h` |
| `work_stealing_queue.dfy` | `WorkStealing` | `threadpool/include/internal/work_stealing_queue.h` and its copy nested in `threadpool.h` |
| `scheduling.dfy` | `Scheduling` | the pool's scheduling rules as functions on values |
| `threadpool.dfy` | `Pool` | `threadpool/include/threadpool.h`, `threadpool/src/threadpool.cpp` |
| `quicksort.dfy` | `QuickSort` | `algorithms/include/quicksort.h` |
| `parallel_sum.dfy` | `ParallelSum` | `algorithms/include/parallel_sum.h` |

How the model represents the code:

- **Integers.** Counters are `u32` and `u64`, unbounded integers restricted to the word range. Every `+` and `-` the source performs on them is written out modulo the word size. Bitwise `&` is the recursive `Bits.BitAnd`.
- **Allocation failure.** The `catch (std::exception&)` branches of `push` and `enqueue` become an explicit `allocFails` parameter.
- **Hardware concurrency.** `std::thread::hardware_concurrency()` is a parameter.
- **Thread identity.** The thread-local `_this_thread_idx` and `_this_thread_local_tasks` of the calling thread become an explicit `Pool.ThreadCtx`.
- **Tasks.** A task is a natural number (its id). Running a task appends its id to the pool's `executed` log.

## Model

| member | source | states |
|---|---|---|
| Bits.PowerOfTwoBitTest | containers/include/lock_free_ring.h:45-48 | `n != 0 && (n & (n - 1)) == 0` holds exactly when n is a power of two (both directions) |
| Bits.MaskIsMod | containers/include/lock_free_ring.h:95-96 | masking with `2^k - 1` is reduction modulo `2^k`, so `counter & size_mask` is `counter % N` |
| Bits.ClearLowBits | containers/include/lock_free_ring.h:50-53 | `y & (2^w - 2^k)`, which is `y & ~(2^k - 1)` on a w-bit word, clears the low k bits: it is `y - y % 2^k` |
| Bits.WrapKeepsResidue | containers/include/lock_free_ring.h:95-111 | a power of two N below 2^32 divides 2^32, so wrapping a counter at 2^32 does not change its slot |
| Bits.DistinctResidues | containers/include/lock_free_ring.h:95 | positions fewer than N apart fall in different slots |
| SpscRing.IsPowerOf2 | containers/include/lock_free_ring.h:45-48 | the 32-bit bit test is true exactly for the powers of two |
| SpscRing.AlignToIsLeastMultiple | containers/include/lock_free_ring.h:50-53 | for a power-of-two `align` and no overflow, `alignTo` is a multiple of `align`, at least `number`, and less than `number + align`, that is, the least such multiple |
| SpscRing.AlignTo | containers/include/lock_free_ring.h:50-53 | `alignTo` on `size_t`: clearing the low bits never raises the value above the wrapped `number + (align - 1)`; `AlignToIsLeastMultiple` gives its meaning |
| SpscRing.SizePlusFreeSpace | containers/include/lock_free_ring.h:35-43 | `size + freeSpace == capacity` modulo 2^32 for any counters, and exactly (as integers) when the occupancy is at most the capacity |
| SpscRing.FreeSpaceOf | containers/include/lock_free_ring.h:35-38 | the two-argument `freeSpace`: advancing `head` by it, in 32-bit arithmetic, reaches `tail + capacity`, the head at which the ring is full |
| SpscRing.SizeOf | containers/include/lock_free_ring.h:40-43 | the two-argument `size`: advancing `tail` by it, in 32-bit arithmetic, reaches `head`, so it counts the items between them across either wrap |
| SpscRing.HeadSlot | containers/include/lock_free_ring.h:86-96 | when the 32-bit difference `head - tail` is s, head's slot is s slots after tail's, even after head has wrapped |
| SpscRing.Slot | containers/include/lock_free_ring.h:95-96 | `counter & size_mask` is `counter % N` |
| SpscRing.LockFreeRing.Capacity | containers/include/lock_free_ring.h:32-33 | the capacity is N - 1 (the 32-bit `N - 1`) |
| SpscRing.LockFreeRing.constructor | containers/include/lock_free_ring.h:57-63 | only a power-of-two N is accepted; the counters start at 0 and the ring is empty, with N slots |
| SpscRing.LockFreeRing.Size | containers/include/lock_free_ring.h:81-84 | `size()` is the number of items held |
| SpscRing.LockFreeRing.FreeSpace | containers/include/lock_free_ring.h:76-79 | `freeSpace()` is N - 1 minus the items held, and `size() + freeSpace() == N - 1` |
| SpscRing.LockFreeRing.Enqueue | containers/include/lock_free_ring.h:86-99 | succeeds exactly when fewer than N - 1 items are held. On success it writes slot `head & (N - 1)` and no other, advances head by 1 modulo 2^32 and appends the item to the contents. On refusal nothing changes. The ring invariant survives counter wrap |
| SpscRing.LockFreeRing.Dequeue | containers/include/lock_free_ring.h:101-113 | none exactly when the ring is empty, and then nothing changes. Otherwise it returns the oldest item, read from slot `tail & (N - 1)`, advances tail by 1 modulo 2^32 and drops that item from the contents |
| SpscRing.FillFromEmpty | containers/include/lock_free_ring.h:57-99 | from empty, exactly N - 1 enqueues succeed and the next is refused, for every power-of-two N |
| SpscRing.EightSlotBoundary | containers/include/lock_free_ring.h:86-113 | with N = 8: seven enqueues accepted, the eighth refused, seven dequeues give 0..6 in order, and then the ring is empty |
| SpscRing.DequeueAll | containers/include/lock_free_ring.h:101-113 | dequeuing until empty returns exactly the contents, oldest first |
| SpscRing.FifoOrder | containers/tests/lock_free_ring_unit_test.cpp:70-85 | enqueue 42 then 11: dequeues give 42, 11, then none |
| SpscRing.SixSlotsRefused | containers/include/lock_free_ring.h:60 | 6 fails the power-of-two test and 8 passes it |
| LockedFifo.ConcurrentQueue.Push | containers/include/lock_based_queue.h:32-44 | true and appends at the back unless allocation fails; then false and nothing changes; the pushed history is extended likewise |
| LockedFifo.ConcurrentQueue.Pop | containers/include/lock_based_queue.h:46-58 | none exactly on an empty queue (nothing changes); otherwise removes and returns the front; popped history + queue == pushed history is kept |
| LockedFifo.FifoOrder | concurrent_queue/tests/concurrent_queue_unit_test.cpp:63-72 | push 42, 11: pops give 42, 11, none |
| LockedFifo.RunSchedule | concurrent_queue/tests/concurrent_queue_unit_test.cpp:74-103 | for any interleaving of pushes of 0, 1, 2, ... and pops, what was popped followed by what is left is exactly 0..pushed-1 in order: nothing lost, nothing popped twice |
| WorkStealing.WorkStealingQueue.MoveFrom | threadpool/include/internal/work_stealing_queue.h:25-28 | the new queue takes `other`'s contents and `other` is left empty |
| WorkStealing.WorkStealingQueue.MoveAssign | threadpool/include/internal/work_stealing_queue.h:30-34 | the two deques exchange contents |
| WorkStealing.WorkStealingQueue.Enqueue | threadpool/include/internal/work_stealing_queue.h:39-51 | true and pushes at the front unless allocation fails; then false and nothing changes |
| WorkStealing.WorkStealingQueue.Dequeue | threadpool/include/internal/work_stealing_queue.h:53-65 | none exactly when empty; otherwise removes and returns the front (newest) |
| WorkStealing.WorkStealingQueue.Steal | threadpool/include/internal/work_stealing_queue.h:67-79 | none exactly when empty; otherwise removes and returns the back (oldest) |
| WorkStealing.OwnerLifoThiefFifo | threadpool/include/internal/work_stealing_queue.h:39-79 | after enqueuing 1, 2, 3 the owner gets 3, a thief 1, the owner 2, then both get none |
| WorkStealing.RunSchedule | threadpool/include/internal/work_stealing_queue.h:39-79 | for any interleaving of owner pushes, owner pops and steals, the elements handed out plus those left are exactly the elements pushed, as multisets |
| Scheduling.Visit | threadpool/src/threadpool.cpp:79 | the rotation index `(idx + i) % n` is a valid deque index |
| Scheduling.RotationReachesEvery | threadpool/src/threadpool.cpp:77-80 | from any start, every deque j is visited at step `(j - idx) % n` of the scan |
| Scheduling.RotationVisitsOnce | threadpool/src/threadpool.cpp:77-80 | different steps of one scan visit different deques |
| Scheduling.FirstNonEmptyStep | threadpool/src/threadpool.cpp:77-87 | the scan stops at the first step whose deque is non-empty, every earlier step's deque being empty; it finds none exactly when every visited deque is empty |
| Scheduling.ScanNoneIffAllEmpty | threadpool/src/threadpool.cpp:70-88 | the steal scan comes back empty exactly when every local deque is empty |
| Scheduling.TakeLocal | threadpool/src/threadpool.cpp:80 | dequeuing deque j yields its front and changes deque j alone |
| Scheduling.StealScan | threadpool/src/threadpool.cpp:70-88 | `stealTasksFromOtherThreads` never touches the global queue and keeps the deque count; it finds nothing exactly when every deque is empty, and then changes nothing |
| Scheduling.RunPending | threadpool/src/threadpool.cpp:30-57 | `runPendingTask` serves the caller's own deque first and then leaves the global queue alone; otherwise the global front, leaving every deque alone; the steal scan only once the global queue is empty; the deque count never changes |
| Scheduling.Submit | threadpool/include/threadpool.h:175-200 | `submit` hands out a future exactly when the push does not fail, changes nothing when it fails, and keeps the deque count |
| Scheduling.WorkerScanStartsAtNext | threadpool/src/threadpool.cpp:72-79 | a worker whose own deque is empty finds nothing at step 0, so the scan in effect starts at the next worker's deque, as the comment intends |
| Scheduling.RunPendingConserves | threadpool/src/threadpool.cpp:30-57 | `runPendingTask` removes exactly the task it runs from the pool, and nothing else |
| Scheduling.TakeLocalConserves | threadpool/src/threadpool.cpp:33-36 | taking from a local deque removes exactly that task |
| Scheduling.GlobalPopConserves | threadpool/src/threadpool.cpp:39-42 | taking from the global queue removes exactly that task |
| Scheduling.StealScanConserves | threadpool/src/threadpool.cpp:70-88 | the steal scan removes exactly the task it finds |
| Scheduling.RunPendingIdleIffAllEmpty | threadpool/src/threadpool.cpp:30-57 | `runPendingTask` runs nothing exactly when every queue is empty, and then nothing changes |
| Scheduling.SubmitRouting | threadpool/include/threadpool.h:175-200 | a successful submit adds exactly its task. A worker's task goes to its own deque and no other queue changes. An outside thread's task goes to the global queue and no deque changes. A failed push adds nothing and gives no future |
| Scheduling.Ran | threadpool/src/threadpool.cpp:49-53 | a round runs the task it found, or nothing |
| Scheduling.RunRounds | threadpool/src/threadpool.cpp:64-67 | k consecutive `runPendingTask` calls keep the number of deques |
| Scheduling.RoundsConserve | threadpool/src/threadpool.cpp:30-67 | over any number of rounds every pending task is either run once or still pending, and each round shrinks the pool by one until it is empty |
| Scheduling.DrainRunsEveryTaskOnce | threadpool/src/threadpool.cpp:30-88 | one caller running as many rounds as there are pending tasks runs each exactly once, wherever it was queued, and empties every queue |
| Scheduling.LocalPendingUpdate | threadpool/include/threadpool.h:157 | replacing one deque changes the pool's pending tasks by exactly that deque's difference |
| Scheduling.LocalPendingEmpty | threadpool/include/threadpool.h:157 | no task sits in any deque exactly when every deque is empty |
| Scheduling.OuterThenInnerSubmit | threadpool/tests/threadpool_unit_test.cpp:49-66 | an outside submit lands in the global queue; the worker that runs it submits into its own deque and its next `runPendingTask` runs that inner task, leaving all queues empty |
| Pool.ThreadPool.constructor | threadpool/src/threadpool.cpp:5-18 | the worker count is clamped to the hardware concurrency, and one fresh empty deque is made per worker; the global queue is empty |
| Pool.ThreadPool.Destroy | threadpool/src/threadpool.cpp:20-23 | the destructor's body sets `done` and changes no queue and runs no task; the member destruction that follows it is listed under "Left out" |
| Pool.ThreadPool.IsCurrentThreadAPoolThread | threadpool/src/threadpool.cpp:25-28 | true exactly for the worker thread that owns deque `idx` of this pool |
| Pool.ThreadPool.Submit | threadpool/include/threadpool.h:175-200 | moves the pool's state exactly as `Scheduling.Submit`: own deque for a worker, global queue otherwise, no future on a failed push |
| Pool.ThreadPool.StealTasksFromOtherThreads | threadpool/src/threadpool.cpp:70-88 | the index loop with early return moves the state exactly as `Scheduling.StealScan` |
| Pool.ThreadPool.RunPendingTask | threadpool/src/threadpool.cpp:30-57 | moves the state exactly as `Scheduling.RunPending` and appends the task it ran (if any) to the executed log |
| Pool.ThreadPool.TakePending | threadpool/src/threadpool.cpp:32-47 | the three tries of `runPendingTask` move the pool's state exactly as `Scheduling.RunPending` does and return the task it takes |
| Pool.ThreadPool.WorkerFunc | threadpool/src/threadpool.cpp:59-68 | sets up thread identity i, then runs `rounds` rounds unless done is already set; executed log and state are exactly `Scheduling.RunRounds` of that many rounds |
| Pool.FirstNonEmptyStepIs | threadpool/src/threadpool.cpp:77-85 | a step i with a non-empty deque after only empty ones is the step the scan stops at |
| Pool.OuterThenInnerSubmitOnPool | threadpool/tests/threadpool_unit_test.cpp:49-66 | on an actual pool object, the outer task is run first by worker 0, the inner one submitted there is run next, and then there is nothing left |
| QuickSort.Lower | algorithms/include/quicksort.h:23-32 | the elements `std::partition` moves before the divide point are all less than the pivot |
| QuickSort.Higher | algorithms/include/quicksort.h:30-39 | the elements left in `input` are all at least the pivot |
| QuickSort.PartitionSplits | algorithms/include/quicksort.h:23-32 | the two parts hold exactly the elements of the rest, so each recursive call is on a strictly shorter list |
| QuickSort.ManualThreadingQuickSort | algorithms/include/quicksort.h:12-44 | the result has as many elements as the input |
| QuickSort.ThreadPoolQuickSort | algorithms/include/quicksort.h:47-94 | a returned list has as many elements as the input |
| QuickSort.QuickSortSortsAndPermutes | algorithms/test/quicksort.cpp:32-41 | the result is sorted ascending and a permutation of the input |
| QuickSort.PivotPosition | algorithms/include/quicksort.h:14-44 | an empty list comes back empty; otherwise the first element sits right after all elements smaller than it, and everything after it is at least as large |
| QuickSort.SortedPermutationUnique | algorithms/include/quicksort.h:23-28 | two sorted sequences with the same elements are equal |
| QuickSort.QuickSortIsTheSortedPermutation | algorithms/include/quicksort.h:12-44 | any sorted permutation of the input equals the quicksort result |
| QuickSort.PartitionOrderIrrelevant | algorithms/include/quicksort.h:23-28 | rearranging the input, for example the order `std::partition` leaves, does not change the result |
| QuickSort.ThreadPoolAgreesWhenItReturns | algorithms/include/quicksort.h:47-94 | whenever the pool quicksort returns, it returns the manual quicksort's list |
| QuickSort.ThreadPoolReturnsWithoutFailures | algorithms/test/quicksort.cpp:43-53 | when no submit fails it returns, and returns that list |
| QuickSort.FirstSubmitFailureThrows | algorithms/include/quicksort.h:77-80 | a failed submit makes the call throw |
| ParallelSum.Accumulate | algorithms/include/parallel_sum.h:18-21 | `AccumulateBlock(start, end, init)`, the left fold of `std::accumulate`, is `init` plus the sum of the range, for every range |
| ParallelSum.SumConcat | algorithms/include/parallel_sum.h:37-52 | the sum of two adjacent sub-ranges is the sum of their concatenation |
| ParallelSum.NumBlocks | algorithms/include/parallel_sum.h:76 | `num_of_blocks` is 0 exactly for an empty range; `NumBlocksIsCeiling` shows it is the ceiling of `length / chunk_size` |
| ParallelSum.NumBlocksIsCeiling | algorithms/include/parallel_sum.h:76 | `num_of_blocks` is `ceil(length / chunk_size)`, so the full earlier chunks fit and a non-empty remainder of at most one chunk is left |
| ParallelSum.BlockedAccumulate | algorithms/include/parallel_sum.h:80-111 | the block loop, the caller's last block and the `+=` loop together give the range's sum plus `(count - 1)` block starting values plus the last block's starting value. The blocks cover the range exactly, all but the last have `size` elements, and the last holds the rest |
| ParallelSum.AddResults | algorithms/include/parallel_sum.h:103-109 | adding all block results once each |
| ParallelSum.ParallelAccumulateThreadPool | algorithms/include/parallel_sum.h:67-112 | an empty range gives `init`. Otherwise the result is the sum plus `(num_of_blocks - 1) * init`, over `num_of_blocks` blocks of `chunk_size` elements and a non-empty rest. With `init == 0` it equals `std::accumulate` |
| ParallelSum.SingleBlockDropsInit | algorithms/include/parallel_sum.h:86-101 | on [1] with init 5 the result is 1 where `std::accumulate` gives 6 |
| ParallelSum.ParallelAccumulateThreadPoolCorrected | algorithms/include/parallel_sum.h:67-112 | with init added once, the result equals `std::accumulate` on every range |
| ParallelSum.ManualThreadCount | algorithms/include/parallel_sum.h:28-31 | `number_of_threads` is 0 exactly for an empty range and never exceeds the hardware threads (2 when unknown) |
| ParallelSum.ManualThreadCountBounds | algorithms/include/parallel_sum.h:28-31 | for a non-empty range, `number_of_threads` is at least 1, at most the hardware threads (2 when 0 is reported), and the range needs every thread |
| ParallelSum.EmptyRangeHasNoThreads | algorithms/include/parallel_sum.h:30-32 | on an empty range `number_of_threads` is 0, the divisor at line 32 |
| ParallelSum.BlocksFit | algorithms/include/parallel_sum.h:32-52 | `k - 1` blocks of `length / k` elements fit, and the last block is at least as long |
| ParallelSum.ParallelAccumulateManualThreading | algorithms/include/parallel_sum.h:26-64 | for a non-empty range: the range's sum plus `(k - 1) * init`, over k blocks of `length / k` elements, the last holding the rest. With `init == 0` it equals `std::accumulate` |
| ParallelSum.ThreeThreadsCountInitTwice | algorithms/include/parallel_sum.h:38-61 | on [1, 2, 3] with init 5 and three threads the result is 16 where `std::accumulate` gives 11 |
| ParallelSum.ParallelAccumulateManualThreadingCorrected | algorithms/include/parallel_sum.h:26-64 | answering an empty range with init and adding init once, the result equals `std::accumulate` on every range |

## Left out

- Atomics, memory orders, mutexes, `std::jthread`, `std::this_thread::yield` and `std::async` are left out. Each locked or ring operation is one atomic step of a sequential history, and yield is a no-op. What concurrent interleavings do inside a step is not modelled.
- `MovableFunction`, `std::packaged_task` and `std::future` are left out. A task is an abstract id, running it appends the id to a log, and a future is the value it delivers.
- Allocation failure is not computed. It is the `allocFails` parameter of `push`, `enqueue` and `submit`.
- `std::thread::hardware_concurrency()` is not computed. It is a parameter of the pool constructor and of the manual accumulation.
- The thread-local state is not modelled as static across pools. `_this_thread_idx` and `_this_thread_local_tasks` are an explicit context, which must be "outside thread" or "worker i of this pool". A worker of one pool calling another pool is not modelled.
- Pool.ThreadPool.WorkerFunc: the endless `while (!_done)` loop is bounded by a `rounds` argument. The destructor setting `_done` from another thread while the loop runs is not modelled.
- Pool.ThreadPool.Destroy: only the destructor's body, which sets `_done`, is modelled. The member destruction after it is not: the `std::jthread`s in `_threads` are joined first, so a worker already past its `_done` test runs one more task, and then the deques and the global queue are destroyed, dropping every task still queued and leaving its future with a broken promise.
- Pool.ThreadPool.constructor: spawning the worker threads is not modelled. A worker is modelled by calling `WorkerFunc(i)`.
- The pool keeps no ghost history of submitted tasks. That no task is lost or run twice is proved on the `Scheduling` values: `RunPendingConserves`, `RoundsConserve` and `DrainRunsEveryTaskOnce`.
- The code and its comment disagree on the steal scan. The comment says each thread starts from the next thread's queue. The code starts at the caller's own index and takes the front (`dequeue`), not the back (`steal`). The model follows the code, and `Scheduling.WorkerScanStartsAtNext` shows that for an idle worker the two agree.
- The `WorkStealingQueue` copy nested in `threadpool.h` is the same code as `internal/work_stealing_queue.h`. It is modelled once, by `WorkStealing.WorkStealingQueue`.
- The ring is modelled for `LockFreeRingType::SPSC` only. The `cache_line_size` alignment and the destructor's `delete[]` are not modelled.
- The element order `std::partition` leaves is not modelled: it is a stable filter here. `QuickSort.PartitionOrderIrrelevant` shows that the order cannot change the result.
- QuickSort: the element type is `int`, the one the tests use, and not a generic ordered `T`.
- QuickSort.ThreadPoolQuickSort: the `runPendingTask` polling loop while the future is not ready is not modelled. It only runs other tasks and does not change the list returned.
- ParallelSum: the element type is an unbounded `int`. Overflow of `T` and of the `size_t` sums `length + chunk_size - 1` is not modelled.
- ParallelSum.ParallelAccumulateThreadPool: a failed submit throws `std::runtime_error`; that path is not modelled (every submit succeeds here).
- ParallelSum.ParallelAccumulateThreadPool: the model assumes every submitted block runs. The function's own `ThreadPool` takes its size from `hardware_concurrency()`, and when that reports 0 the pool has no worker; the caller never calls `runPendingTask`, so with two or more blocks `block_result.get()` waits forever. Progress of the pool's workers is not modelled, so this hang is not captured.
- QuickSort.ThreadPoolQuickSort: the submitted task captures `lower_part` and the pool by reference. When the recursive call on the higher part throws, the frame unwinds while that task may still be queued, leaving it with a dangling reference. The model only returns none; lifetimes of captured references are not modelled.
- ParallelSum: a `chunk_size` or `min_per_thread` of 0, which divides by zero, is excluded by a precondition.
- `std::clog` output, `utils/include/interruptible_thread.h`, the benchmarks and the third-party ring are not part of this model.

## Findings

| source | as written | input that shows it | evidently intended | confidence | as-written member | corrected member |
|---|---|---|---|---|---|---|
| algorithms/include/parallel_sum.h:86-101 | every submitted block is accumulated from `init`, and the caller's last block from `T()`, so `init` is counted `num_of_blocks - 1` times | `[1]`, init 5, chunk 25: one block gives 1 (`std::accumulate` gives 6) | the result equals `std::accumulate(start, end, init)`: `init` counted once | not executed | ParallelSum.SingleBlockDropsInit | ParallelSum.ParallelAccumulateThreadPoolCorrected |
| algorithms/include/parallel_sum.h:43-52 | every thread's block is accumulated from `init`, and the last block from `T()`, so `init` is counted `number_of_threads - 1` times | `[1, 2, 3]`, init 5, 4 hardware threads, `min_per_thread` 1: 16 (`std::accumulate` gives 11) | the result equals `std::accumulate(start, end, init)` | not executed | ParallelSum.ThreeThreadsCountInitTwice | ParallelSum.ParallelAccumulateManualThreadingCorrected |
| algorithms/include/parallel_sum.h:30-32 | on an empty range `maximum_threads` and hence `number_of_threads` are 0, and `length / number_of_threads` divides by zero | any empty range | an empty range returns `init`, as the thread-pool variant does at lines 71-74 | not executed | ParallelSum.EmptyRangeHasNoThreads | ParallelSum.ParallelAccumulateManualThreadingCorrected |
