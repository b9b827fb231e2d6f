# osio I/O scheduler — a Dafny model of its dispatch core

`osio` is a small Linux block-layer elevator. It keeps one FIFO queue per
data direction (read, write). Each dispatch call releases at most one
request. Requests go out in batches of one direction. Reads are preferred,
but a counter of read selections (`starved`) forces a write batch once it
exceeds the tunable `writes_starved`. Three tunables (`writes_starved`,
`fifo_read_batch`, `fifo_write_batch`) can be set at run time; a store
clamps its input into range.

The model is functional. The scheduler data is an immutable `Osio.State`
record holding two `seq<Req>` queues (head = oldest), `batching`,
`fifoDir` (READ, WRITE or UNDEF), `starved` and the three tunables. Every
entry point is a pure function from the old state to the new one:

- `fifo.dfy` (module `Fifo`): the queue operations on sequences. These are
  unlinking an element, the neighbour lookups, the subsequence relation
  used to state order modulo merges, and the facts relating them.
- `osio.dfy` (module `Osio`): the state, init and exit, add, merge, the
  neighbour queries, and the three-phase dispatch. The phases are: end the
  batch, choose a direction, pop the head.
- `sysfs.dfy` (module `Sysfs`): the tunables, clamping, show and store.
- `runs.dfy` (module `Runs`): sequences of host calls. It holds the
  properties that span many calls: the starvation bound, the batch length
  bound, FIFO order per direction, draining before teardown, and the
  invariant kept along any run.
- `options.dfy` (module `Options`): the Some/None type used for "request or
  NULL".

The model keeps these details of the code:

- There are two directions (read, write) and one `starved` counter.
- The defaults are `fifo_batch` 16 (read) and 8 (write), and
  `writes_starved` 2.
- A batch ends when `batching > fifo_batch[dir]`. The test is strict, so a
  batch holds up to `fifo_batch + 1` dispatches.
- `starved` goes up by one at every read selection, even when no write is
  waiting. The override test runs after this increment.
- Batch limits are clamped to `[0, INT_MAX]`. `writes_starved` is clamped to
  `[INT_MIN, INT_MAX]`, so it may be negative. A zero or negative value
  gives waiting writes priority at every new selection.
- A dispatch with both queues empty is not free of side effects. It still
  sets `fifo_dir` to UNDEF and `batching` to 0.

## Model

| member | source | states |
|---|---|---|
| Fifo.Remove | osio-iosched.c:32-36 | Unlinking `x` cuts out exactly the one position holding it. The other entries keep their relative order, and the length drops by one. Unlinking an element that is not queued changes nothing. |
| Fifo.RemoveDistinct | osio-iosched.c:35 | After unlinking, `x` is no longer in the queue, and no entry appears twice. |
| Fifo.Former | osio-iosched.c:88-96 | The result is None exactly when `x` is the head. Otherwise it is an element directly before `x`. |
| Fifo.Latter | osio-iosched.c:98-106 | The result is None exactly when `x` is the tail. Otherwise it is an element directly after `x`. |
| Fifo.FormerIsAdjacent | osio-iosched.c:88-96 | In both directions: Former returns `a` if and only if `a` is directly before `x`. |
| Fifo.LatterIsAdjacent | osio-iosched.c:98-106 | In both directions: Latter returns `b` if and only if `b` is directly after `x`. |
| Fifo.FormerLatterInverse | osio-iosched.c:88-106 | Former of `x` is `y` exactly when Latter of `y` is `x`. |
| Osio.InitQueue | osio-iosched.c:124-131 | A new scheduler has empty queues, fifo_dir UNDEF, batching 0 and starved 0. Its tunables are 16, 8 and 2, and it satisfies the scheduler invariant. |
| Osio.ExitQueue | osio-iosched.c:139-146 | Teardown succeeds exactly when both queues are empty. Otherwise the read queue's BUG_ON fires if reads remain, and the write queue's BUG_ON fires only when writes alone remain. |
| Osio.AddRequest | osio-iosched.c:80-86 | The request is appended at the tail of its own direction's queue. The other queue and all other state are unchanged. The invariant is kept when the request was not already linked. |
| Osio.MergedRequests | osio-iosched.c:32-36 | `next` leaves its direction's queue, the remaining requests keep their order, and nothing else changes. In a valid state `next` is gone afterwards and the invariant still holds. |
| Osio.MergeUndoesAdd | osio-iosched.c:32-36 | Merging away a request that was just added gives back the state from before the add. |
| Osio.FormerRequest | osio-iosched.c:88-96 | Returns NULL exactly at the head of the request's direction queue. Otherwise it returns the request queued directly before it in that queue. |
| Osio.LatterRequest | osio-iosched.c:98-106 | Returns NULL exactly at the tail of the request's direction queue. Otherwise it returns the request queued directly after it in that queue. |
| Osio.NeighboursInverse | osio-iosched.c:88-106 | In a valid state, `former(rq) = other` exactly when `latter(other) = rq`. Neighbours always have the same direction. |
| Osio.ChooseDir | osio-iosched.c:53-67 | The new-batch decision in closed form. READ is chosen iff reads wait and it is not the case that writes wait with `starved + 1 > writes_starved`; then starved goes up by one. WRITE is chosen iff writes wait and either reads do not or the bumped counter passes the threshold; then starved becomes 0. UNDEF is chosen iff both queues are empty; then starved is unchanged. |
| Osio.ReadChosenWithinThreshold | osio-iosched.c:54-65 | When writes wait and READ is still chosen, the bumped counter is at most `writes_starved`. |
| Osio.Dispatch | osio-iosched.c:38-78 | A request is released (return 1) iff some queue is non-empty. With both queues empty, nothing is released, the queues and starved are unchanged, fifo_dir becomes UNDEF and batching 0. Otherwise the released request is the head of the now-active queue, that queue loses exactly its head, and the other queue is unchanged. A continuing batch keeps its direction and starved and adds one to batching. A new batch takes ChooseDir's direction and counter, with batching 1. An active batch never exceeds `fifo_batch + 1`. Tunables are unchanged, and the invariant is kept, including starved = 0 during a write batch. |
| Sysfs.Clamp | osio-iosched.c:184-187 | The result lies in `[lo, hi]` and is the point of that range nearest to the input. |
| Sysfs.ClampIdempotent | osio-iosched.c:184-187 | An in-range value is unchanged by clamping. Clamping twice equals clamping once. |
| Sysfs.Show | osio-iosched.c:164-176 | Reads back the current value of a tunable. In a valid state it lies within the range the store clamps into, and the batch limits are never negative. |
| Sysfs.Store | osio-iosched.c:178-197 | The value read back is `clamp(v, MIN, MAX)` for that tunable, so batch limits are never negative. The queues, the batch state and the other tunables are unchanged. The invariant is kept. |
| Sysfs.StoreShowRoundTrip | osio-iosched.c:164-197 | Storing the value that show returns leaves a valid state unchanged. |
| Sysfs.StoreClampedValue | osio-iosched.c:195-197 | Storing an already clamped value reads back as that value. Storing the clamped value after the raw one changes nothing. |
| Runs.StarvationBound | osio-iosched.c:54-65 | Consider a run in which writes wait at every dispatch call and `writes_starved` is not re-stored. At most `max(writes_starved, 0)` dispatch calls open a read batch before a write batch must be opened. Precisely, `starved` plus the number of read batches stays within `max(writes_starved, starved)`. |
| Runs.BatchBound | osio-iosched.c:45-73 | Within a batch whose limit is not re-stored, the direction stays fixed and batching grows by one per dispatch. It never ends more than one past `fifo_batch`. |
| Runs.BatchLength | osio-iosched.c:47-73 | The call that opens a batch, plus all calls that continue it, number at most `fifo_batch[dir] + 1`. |
| Runs.FifoStep | osio-iosched.c:69-85 | A dispatch takes the request it releases from the head of that direction's queue. An add puts the arriving request at the tail. No other call moves requests. |
| Runs.FifoOrder | osio-iosched.c:69-85 | For a run with no merges, take each direction separately. The requests released, followed by those still queued, are exactly the requests queued at the start followed by those added. |
| Runs.MergeStep | osio-iosched.c:32-36 | A merge releases and adds nothing. The queue afterwards is a subsequence of the queue before, and as a multiset it lacks exactly the merged request when that request was queued there, and nothing otherwise. Requests stay filed by direction. |
| Runs.FifoOrderWithMerges | osio-iosched.c:32-85 | For any run, merges included, take each direction separately. The requests released, followed by those still queued, form a subsequence of the requests queued at the start followed by those added. So requests leave in arrival order; which requests may be missing is stated by Runs.FifoConserve. |
| Runs.FifoConserve | osio-iosched.c:32-85 | For any run and each direction, the requests released, those still queued and those merged away together are, as a multiset, exactly the requests queued at the start plus those added. So the only requests missing from the subsequence order are the merged-away ones, and the counts add up. |
| Runs.FifoFromInit | osio-iosched.c:32-85 | From a fresh scheduler, each direction releases a subsequence of its arrivals, in arrival order, for any run. Counted with multiplicity, the arrivals are exactly the requests released, still queued and merged away. Without merges, what it releases is a prefix of its arrivals. |
| Fifo.RemoveSub | osio-iosched.c:35 | The queue after unlinking is a subsequence of the queue before. |
| Fifo.RemoveMultiset | osio-iosched.c:35 | Unlinking a queued element takes exactly one copy of it out of the queue; unlinking an element that is not queued changes nothing. |
| Runs.DrainThenExit | osio-iosched.c:139-146 | As many dispatch calls as there are queued requests empty both queues. Teardown then succeeds. |
| Runs.RunKeepsValid | osio-iosched.c:22-30 | Consider any run that links only requests not already queued. Requests stay filed by direction and linked once, starved is 0 throughout a write batch, and the tunables stay in range. |
| Runs.WriteBatchNotStarved | osio-iosched.c:57-65 | Starting from init, whenever a write batch is in progress, starved is 0. |
| Runs.OneReadScenario | osio-iosched.c:38-86 | A fresh scheduler dispatches nothing. After one read is added, the next dispatch releases that read, and the one after releases nothing. |
| Runs.WriteForcedScenario | osio-iosched.c:53-65 | Start from the default tunables with `fifo_read_batch` at 0, three reads and one write queued (`Runs.WriteForcedSetup` reaches this state from init). Four dispatches release read, read, write, read: the third selection bumps `starved` to 3, which passes the threshold 2. |
| Runs.WriteForcedSetup | osio-iosched.c:124-131 | Init, storing 0 as the read batch limit, then adding three reads and a write gives exactly the queues and counters the scenario starts from. |

## Left out

- Module registration, the elevator ops table and the attribute table (osio-iosched.c:199-243) are left out because they are plumbing with no logic.
- The allocation failures in init (`elevator_alloc`, `kmalloc_node`, `-ENOMEM`, `kobject_put`) are left out, as are the queue-lock section around attaching the elevator and the `kfree` at exit. These are memory management and locking. `InitQueue` models only the state a successful init installs.
- `simple_strtol` parsing and `sprintf` formatting in the show/store helpers are left out. A store takes an already parsed integer, and show returns the integer. The truncation of the parsed `long` into `int` is not modelled.
- The `jiffies_to_msecs` and `msecs_to_jiffies` conversions are left out because every tunable passes 0 as the conversion flag.
- `elv_dispatch_add_tail` is left out: the released request is returned as the `rq` field of the dispatch result, not added to a host queue.
- The `force` argument of dispatch is left out because the code never reads it. So are the unused `rq` argument of the merge hook and the queue arguments.
- Osio.Dispatch: does not model C overflow of `starved` (an `int`) or of `batching` (an `unsigned int`). Both are unbounded naturals here, so no wrap-around is covered.
- Osio.Dispatch: the batch test compares the unsigned `batching` with the signed `fifo_batch`. The model compares plain naturals. This matches the code only because stores keep `fifo_batch` at or above 0.
- Runs.FifoOrder: states exact equality for runs without merges only. With merges the equality no longer holds, since a merged request leaves its queue without being released. For such runs Runs.FifoOrderWithMerges states the order as a subsequence, and Runs.FifoConserve states that the merged-away requests are exactly the ones missing.
- Runs.StarvationBound: assumes `writes_starved` is not re-stored during the run, and that writes are waiting at every dispatch call. The bound also assumes `starved` does not wrap: in C, `starved++` past INT_MAX is undefined behaviour (under the kernel's non-strict overflow it wraps to INT_MIN), and with `writes_starved` at INT_MAX reads could then win every selection.
- Osio.FormerRequest and Osio.LatterRequest: require that the request is linked in its direction's queue, and only once, because the block layer calls these lookups only on requests queued in the scheduler. Outside that the code still returns something, which the model does not cover: both unlink paths use `list_del_init` (osio-iosched.c:35 and :71), which points the node back at itself, so on a merged-away request the lookup returns that request itself; a dispatched request has been relinked into the host's dispatch list by `elv_dispatch_add_tail` (osio-iosched.c:72), so the lookup walks that list.
