# Parallel quicksort over a work queue: a Dafny model

The repository `multithread` is a small thread-pool library. Its integration
test `tests/it.rs` sorts a byte buffer with a quicksort driven by a shared
work queue:

- `partition` splits a slice in place around its first element, the pivot.
  It walks the rest of the slice once. An element at most the pivot is
  swapped into the slot just after the small elements seen so far. At the
  end the pivot is swapped between the two groups. The two groups are
  returned as disjoint sub-slices.
- `Queue` holds a stack of pending items and two counters. `sent` counts
  every item ever sent. `done` counts the received items a worker reported
  finished. `recv` pops the most recent item. With nothing queued, it
  returns `None` once every sent item is done, and otherwise it waits.
- `par_quick_sort` sends the whole buffer to the queue. A worker then loops:
  it receives a sub-slice, partitions it when it holds more than one
  element, sends both parts back, and reports the sub-slice done. The test
  checks that "Hello, world!" comes out as " !,Hdellloorw".

This model has three modules:

- `Partition` (`partition.dfy`): `partition`, working on a window
  `a[lo..hi]` of an array. A returned sub-slice is a `Range` of indices into
  the same array.
- `WorkQueue` (`queue.dfy`): the queue as a class whose fields are the
  stack and the two counters. The wait in `recv` becomes the outcome
  `WouldBlock`.
- `QuickSort` (`quick_sort.dfy`): the driver loop run by a single worker,
  and the concrete test.

The proof of the driver rests on one loop invariant, `QuickSort.Driving`:

- The pending sub-slices (queued plus the one held) do not overlap.
- Every pair of positions that no pending sub-slice holds together is
  already in order.
- Each pending sub-slice is counted as sent and not yet done.
- The worker is never told to wait.

When the loop ends, nothing is pending, so the buffer is sorted. The loop
terminates because the measure `Work` drops on every turn.

## Model

| member | source | states |
|---|---|---|
| `Partition.CountsCover` | tests/it.rs:35-45 | every element after the pivot is counted either as at most the pivot or as above it, so `l_count + r_count + 1` is the slice length (the assertion at line 45) |
| `Partition.SwapAt` | tests/it.rs:39 | `xs.swap(i, j)` exchanges the two elements, leaves every other element alone and keeps the buffer's elements |
| `Partition.Visit` | tests/it.rs:38-43 | one turn of the loop visiting `xs[i]`: it moves exactly when `xs[i] <= xs[0]`, and it extends the small block, the large block and the untouched tail by that element while keeping the pivot first and the rest of the buffer unchanged |
| `Partition.Scatter` | tests/it.rs:35-45 | after the loop, `xs[1..=l_count]` are at most the pivot and the rest are above it, with `l_count`/`r_count` the number of elements at most / above the pivot and `l_count + r_count + 1 == len`; the slice is permuted and nothing outside it changes |
| `Partition.WindowPermutation` | tests/it.rs:34-54 | a reordering of the whole buffer that fixes everything outside the slice reorders the slice itself (the slice is a permutation of its old contents) |
| `Partition.Partition` | tests/it.rs:34-54 | the left part has `l_count` elements and the right part `r_count`, laid out left / pivot / right over the whole slice; the old first element sits between them; left elements are at most it and right elements above it; the slice holds a permutation of its old contents; elements outside the slice are unchanged |
| `WorkQueue.Queue.constructor` | tests/it.rs:67-71 | a new queue has no items and both counters at zero |
| `WorkQueue.Queue.Send` | tests/it.rs:73-79 | `send` pushes the item on top, raises `sent` by one and leaves `done` alone |
| `WorkQueue.Queue.Done` | tests/it.rs:81-88 | `done` raises `done` by one and changes neither the items nor `sent` |
| `WorkQueue.Queue.Recv` | tests/it.rs:90-101 | with items queued it returns the last one sent and pops it; with none it returns the end of work exactly when `sent == done`, and otherwise would wait; the counters do not change |
| `WorkQueue.LastInFirstOut` | tests/it.rs:73-101 | on a fresh queue, two items come back in reverse order of sending; with both out and one done, `recv` would wait; once both are done it reports the end |
| `QuickSort.PartitionKeepsOrder` | tests/it.rs:24-27 | partitioning a pending sub-slice and replacing it by its two parts keeps in order every pair of positions that no pending sub-slice holds together |
| `QuickSort.SplitKeepsSeparate` | tests/it.rs:25-27 | the two parts sent back lie inside the partitioned sub-slice and overlap neither each other nor any other pending sub-slice |
| `QuickSort.DropShort` | tests/it.rs:24-29 | a sub-slice of at most one element can be reported done without being sent back: nothing outside the remaining pending sub-slices is out of order |
| `QuickSort.SplitLowersWork` | tests/it.rs:23-30 | replacing a sub-slice by its two parts lowers the measure of pending work, so the worker loop ends |
| `QuickSort.Process` | tests/it.rs:24-28 | a received sub-slice of more than one element is replaced on the queue by exactly its two parts, `[lo, p)` then `[p+1, hi)` for a pivot position `p` inside it, pushed after the items already queued; a shorter one sends nothing and leaves the buffer untouched; the buffer stays settled outside the queued sub-slices, `sent` rises by the number of parts sent, `done` is unchanged and the work measure drops |
| `QuickSort.Turn` | tests/it.rs:23-30 | one turn of the worker loop (process, `done`, `recv`) keeps the loop invariant and lowers the pending work |
| `QuickSort.ParQuickSort` | tests/it.rs:15-32 | run by one worker, the driver leaves the buffer sorted and a permutation of what it held, and its last `recv` reports the end of the work rather than a wait |
| `QuickSort.SortedUnique` | tests/it.rs:10-12 | two sorted sequences holding the same elements are equal, so a sorted permutation of the input is unique |
| `QuickSort.HelloWorldAnagram` | tests/it.rs:10-12 | the bytes of " !,Hdellloorw" are the bytes of "Hello, world!" |
| `QuickSort.SortHelloWorld` | tests/it.rs:8-13 | sorting the bytes of "Hello, world!" gives exactly the bytes of " !,Hdellloorw" |

## Left out

- The thread pool of `src/lib.rs` is not part of this model. That covers `MultiThread::new`, `run`, the worker threads, their channels and the lifetime-erasing cast. The driver is run by a single worker, so the eight threads and the interleavings between them are not modelled.
- The mutex around the queue's state is not modelled, nor is lock poisoning (`lock().unwrap()`). Each queue operation is taken as one atomic step.
- The condition variable is not modelled. `notify_one` and `notify_all` have no effect with one worker. The wait in `recv` becomes the outcome `WouldBlock`. With a single worker it is never reached: the loop invariant of `QuickSort.ParQuickSort` excludes it, and its contract states that the last `recv` reports the end of the work.
- The assertions `!g.sent > g.done` in `send` and `done` (tests/it.rs:75 and 83) are not modelled. In Rust, `!` on a `usize` is a bitwise complement, so they only fail once `sent + done` reaches `usize::MAX`, and this model has no such bound.
- `WorkQueue.Queue.Send`, `WorkQueue.Queue.Done`, `Partition.Scatter`: the counters are unbounded naturals, not `usize`. Their overflow is not modelled.
- `Partition.Partition`: the model requires a non-empty slice. For an empty slice the assertion at tests/it.rs:45 fails (`0 + 0 + 1 != 0`) and the source panics. The driver only partitions slices of more than one element.
- The element type `T: Ord` is fixed to `int`. The test's bytes are their integer values.
- A returned `&mut` sub-slice is modelled as an index range into the same array. The exclusivity the borrow checker enforces becomes the proved invariant that pending ranges do not overlap.
