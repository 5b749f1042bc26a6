# Bounded cancellable message queue and thread pool, modelled in Dafny

This project models the core of a small C++ threading library:

- `MessageQueuePosix` is a FIFO of message handles. One mutex guards it. It has a capacity ceiling and a one-way "cancelled" flag.
- `MessageQueueT<M>` is a typed adapter on top of that queue.
- `ThreadPoolPosix` routes tasks through two such queues. Submitted tasks go to an input queue. Worker threads take them out, execute them and put them into an output queue, where the owner collects them.

Every queue operation runs entirely inside one critical section, so each one is modelled as an atomic transition on the value `(capacity, items, cancelled)`. The blocking `pop` loop is the exception. It releases the mutex while it waits on the condition variable, so one pass of its loop is modelled as one step. That step has three outcomes:

- it takes the head and returns the size before removal;
- the queue is cancelled and it returns 0;
- the queue is empty and not cancelled, so it must wait (`MustWait`) with nothing changed.

A blocking call is a sequence of such steps.

Files and modules:

- `queue_spec.dfy`, module `MessageQueueSpec`: the queue state as a datatype, plus `Create`, `Push`, `Pop` and `Cancel` as functions whose contracts state the return-value conventions.
- `queue_trace.dfy`, module `MessageQueueTrace`: runs of operations in the order the mutex serialises them. Proves conservation (no message lost or duplicated), FIFO order and the capacity ceiling.
- `message_queue.dfy`, module `MessageQueue`: the class `MessageQueuePosix<T>`. Its fields are `capacity`, `items` and `cancelled`. Each method is proved against the matching `MessageQueueSpec` function.
- `message_queue_t.dfy`, module `TypedMessageQueue`: the `MessageImpl` box and the class `MessageQueueT<M>`, which forwards to a `MessageQueuePosix<MessageImpl<M>>`.
- `thread_pool_spec.dfy`, module `ThreadPoolSpec`: the pool state (input queue, output queue, flag) and its transitions. These are push, pop, cancel, one worker turn, join's transfer loop and join itself. Also runs of pool operations with conservation lemmas.
- `thread_pool.dfy`, module `ThreadPool`: the class `ThreadPoolPosix<T>`, which owns two `MessageQueuePosix<T>` objects. `Join` keeps the source's transfer loop as a `while` loop with invariants.

Modelling choices:

- Payloads are an opaque type parameter `T`. A handle inside a queue is a `T`, so the non-null precondition of `push` holds by construction.
- The caller's `IMessagePtr&` out-parameter may be null, so it is an `Option<T>`. `None` stands for the null pointer that `popT`, `MessageQueueT::pop`, `join` and `run` start from.
- `std::size_t` is taken to be 64 bits. `SIZE_MAX` is the default capacity. Every count is at most the capacity, so `ret++` in `push` cannot wrap, and the model proves that.
- Where the code and its comments or the design notes disagree, the model follows the code:
  - `push` does not look at the cancelled flag. "Not cancelled" is only a documented precondition, so the model's `Push` has no such `requires` and works on a cancelled queue just as the code does.
  - A blocking `pop` checks the flag before looking at the items. Once the queue is cancelled, a blocking `pop` returns 0 even when items remain, and it never hands out an item after cancellation. A non-blocking `pop` ignores the flag and still drains the queue.
  - `ThreadPoolPosix::push` and `pop` `assert` a live pool. Those asserts become `requires !cancelled` on the class methods. The `ThreadPoolSpec` functions are total, as the code is when the asserts are compiled out.
- The output-queue `push` in a worker turn and in `join` ignores its result. When the output queue is full (`SIZE_MAX` tasks), that task is dropped. The model keeps this behaviour, so the pool's conservation lemmas carry an explicit bound on the number of tasks.

## Model

| member | source | states |
|---|---|---|
| `MessageQueueSpec.Create` | MessageQueue.cpp:58-62 | a new queue is valid, empty, uncancelled and has the requested capacity |
| `MessageQueueSpec.Push` | MessageQueue.cpp:118-141 | returns 0 exactly when the queue is full, and then nothing changes; otherwise the message is appended at the tail, earlier items are kept and the count is the size after insertion; the count is 1 exactly when the queue was empty, which is when one waiter is signalled; the cancelled flag and capacity are untouched and size ≤ capacity is kept |
| `MessageQueueSpec.Pop` | MessageQueue.cpp:72-114 | success exactly when items are present and not (blocking and cancelled); it hands out the head, keeps the tail and returns the size before removal; `MustWait` exactly when blocking on an empty, live queue; every failure or wait leaves the queue and the caller's variable untouched; a blocking pop on a cancelled queue fails even with items present |
| `MessageQueueSpec.Cancel` | MessageQueue.cpp:145-151 | the flag becomes true; items and capacity are unchanged |
| `MessageQueueSpec.BlockingPopWhenReady` | MessageQueue.cpp:82-90 | on a live, non-empty queue a blocking pop step equals a non-blocking pop and succeeds |
| `MessageQueueSpec.CancelIdempotent` | MessageQueue.h:120-130 | cancelling twice equals cancelling once |
| `MessageQueueSpec.ZeroCapacityRefusesPush` | MessageQueue.cpp:124-138 | with capacity 0 every push returns 0 and changes nothing |
| `MessageQueueTrace.Apply` | MessageQueue.cpp:72-151 | one critical section keeps size ≤ capacity, never clears the flag, accepts or delivers at most one message and loses or duplicates none |
| `MessageQueueTrace.Run` | MessageQueue.cpp:44-171 | over any run, size ≤ capacity holds, capacity is unchanged and the cancelled status is never reversed |
| `MessageQueueTrace.RunConserves` | MessageQueue.cpp:118-141 | old items followed by accepted messages equal delivered messages followed by the remaining items, so each accepted message is delivered once and in order, or is still queued |
| `MessageQueueTrace.RunAppend` | MessageQueue.cpp:44-171 | running two runs one after the other is the same as running their concatenation |
| `MessageQueueTrace.RunPushes` | MessageQueue.cpp:124-138 | pushes with no pop in between accept the longest prefix that fits, append it in order, and refuse the rest |
| `MessageQueueTrace.RunPops` | MessageQueue.cpp:99-111 | k non-blocking pops deliver the first k queued items (or all of them) in order and leave the rest |
| `MessageQueueTrace.Fifo` | MessageQueue.cpp:84-107 | messages pushed into an empty queue come out of as many pops in exactly the order they went in, and the queue ends empty |
| `MessageQueueTrace.CapacityCeiling` | MessageQueue.cpp:124-138 | of k+1 pushes into an empty queue of capacity k, the queue keeps exactly the first k and the last push returns 0 |
| `MessageQueue.MessageQueuePosix.constructor` | MessageQueue.cpp:175-179 | the new object's state is `Create(maxCapacity)` |
| `MessageQueue.MessageQueuePosix.Push` | MessageQueue.cpp:118-141 | new state and result are those of `MessageQueueSpec.Push`: append and size after insertion, or 0 and unchanged when full; the flag is untouched |
| `MessageQueue.MessageQueuePosix.Pop` | MessageQueue.cpp:72-114 | new state, step and out-variable are those of `MessageQueueSpec.Pop`: the head and the size before removal on success; queue and variable untouched otherwise |
| `MessageQueue.MessageQueuePosix.Cancel` | MessageQueue.cpp:145-151 | the flag becomes true and the items are unchanged |
| `MessageQueue.MessageQueuePosix.IsCancelled` | MessageQueue.cpp:155-159 | returns the cancelled flag |
| `MessageQueue.MessageQueuePosix.Size` | MessageQueue.cpp:163-169 | returns the number of queued messages, which is at most the capacity |
| `MessageQueue.MessageQueuePosix.PopT` | MessageQueue.h:155-169 | returns the underlying pop's step; the caller's variable is set to the dequeued head only when the count is positive and is untouched otherwise |
| `TypedMessageQueue.PayloadsOfBoxes` | MessageQueue.h:260-277 | unboxing the boxes of a run of values gives the same values back |
| `TypedMessageQueue.TypedFifo` | MessageQueue.h:291-322 | values pushed through the adapter into an empty queue come back unchanged and in order from as many pops |
| `TypedMessageQueue.MessageQueueT.constructor` | MessageQueue.h:283-287 | the underlying queue is `Create(maxCapacity)` and holds no values |
| `TypedMessageQueue.MessageQueueT.Pop` | MessageQueue.h:291-311 | the step is exactly the underlying pop's; `dst_message` becomes the head payload only when the count is positive and is untouched otherwise; the values queued lose their head only on success |
| `TypedMessageQueue.MessageQueueT.Push` | MessageQueue.h:315-322 | the count and new state are exactly the underlying push of the boxed value; on success the value is appended to the queued values |
| `TypedMessageQueue.MessageQueueT.Cancel` | MessageQueue.h:326-331 | the underlying queue is cancelled and the queued values are unchanged |
| `TypedMessageQueue.MessageQueueT.IsCancelled` | MessageQueue.h:335-340 | returns the underlying queue's flag |
| `TypedMessageQueue.MessageQueueT.Size` | MessageQueue.h:344-349 | returns the underlying count, which is the number of queued values and at most the capacity |
| `ThreadPoolSpec.Create` | ThreadPool.cpp:28-43 | the input queue has the given capacity, the output queue has the default capacity, nothing is cancelled and no task is held |
| `ThreadPoolSpec.Submit` | ThreadPool.cpp:51-60 | returns exactly the input queue's push result; on success that task joins the end of the pool's tasks; the output queue is untouched |
| `ThreadPoolSpec.Collect` | ThreadPool.cpp:62-70 | returns exactly the output queue's pop result; a blocking collect never fails with 0 because the output queue is never cancelled; on success the head of the finished tasks is handed out |
| `ThreadPoolSpec.Cancel` | ThreadPool.cpp:72-77 | the input queue's flag and the pool's flag become true; the output queue and all tasks are unchanged |
| `ThreadPoolSpec.WorkerStep` | ThreadPool.cpp:101-118 | the worker leaves its loop exactly when the input queue is cancelled, even with tasks pending; it waits exactly on an empty, live input queue; otherwise it executes the head task once and appends it to the output queue; no task is lost unless the output queue is full |
| `ThreadPoolSpec.Drain` | ThreadPool.cpp:91-96 | the loop ends with the input queue empty, and the output queue holds its old contents followed by the input queue's old contents, in order, up to its capacity |
| `ThreadPoolSpec.Join` | ThreadPool.cpp:79-97 | afterwards both flags are set, the input queue is empty and the output queue holds every task in order, up to its capacity |
| `ThreadPoolSpec.JoinKeepsEveryTask` | ThreadPool.cpp:91-96 | when the tasks fit, join loses none: the output queue holds the finished tasks followed by the pending ones |
| `ThreadPoolSpec.ApplyOp` | ThreadPool.cpp:51-117 | one pool operation keeps the pool invariant, and (below the capacity bound) neither loses nor duplicates a task; one that is not a join lets only executed tasks reach the output queue |
| `ThreadPoolSpec.RunPool` | ThreadPool.cpp:51-117 | any run of pool operations keeps the pool invariant and adds at most one task per operation |
| `ThreadPoolSpec.RunPoolConserves` | ThreadPool.cpp:92-115 | over any run, the tasks held at the start plus those accepted equal those collected plus those still held (as multisets) |
| `ThreadPoolSpec.RunPoolExecutesBeforeCollect` | ThreadPool.cpp:110-115 | over a run without join, the finished tasks at the start plus those executed equal those collected plus those still finished |
| `ThreadPoolSpec.EveryTaskCollectedAndExecutedOnce` | test_ThreadPool.cpp:149-150 | from a new pool, once every task has been collected without a join, each accepted task was collected exactly once and executed exactly once |
| `ThreadPool.ThreadPoolPosix.constructor` | ThreadPool.cpp:28-43 | the two queues are fresh, distinct objects and the state is `ThreadPoolSpec.Create(taskCapacity)` |
| `ThreadPool.ThreadPoolPosix.Push` | ThreadPool.cpp:51-60 | requires a live pool; state and count are those of `ThreadPoolSpec.Submit` |
| `ThreadPool.ThreadPoolPosix.Pop` | ThreadPool.cpp:62-70 | requires a live pool; state, step and task are those of `ThreadPoolSpec.Collect` |
| `ThreadPool.ThreadPoolPosix.Cancel` | ThreadPool.cpp:72-77 | the state is `ThreadPoolSpec.Cancel` of the old state |
| `ThreadPool.ThreadPoolPosix.Join` | ThreadPool.cpp:79-97 | the transfer loop ends with the state `ThreadPoolSpec.Join` of the old state; the input queue is empty and the pool is cancelled |
| `ThreadPool.ThreadPoolPosix.RunStep` | ThreadPool.cpp:109-117 | one loop turn of a worker has the state, outcome and task variable of `ThreadPoolSpec.WorkerStep`; when the loop ends, the input queue is cancelled |

## Left out

- Waiting on the condition variable is not modelled: no suspension, no `signal`/`broadcast` wake-ups, no spurious wake-ups. The liveness claim that a blocked `pop` returns after a `push` or `cancel` is not modelled either. A blocking `pop` is a sequence of single steps, each of which may report `MustWait`. Where `push` would signal one waiter, the count is 1; that correspondence is proved, but the signal itself is not modelled.
- The unlocked `volatile` read in `is_cancelled` is read as the plain flag. Memory ordering is out of scope.
- Concurrency between threads is not modelled beyond the order in which the mutex serialises critical sections. A worker turn (pop, execute, push) is taken as atomic, so tasks in flight inside a worker are not represented. For that reason the pool-level conservation is stated on multisets, not on order.
- The worker threads are not modelled. That covers creating them, `ThreadPosix`, and joining them in `join`. `numThreads` is only stored. Worker turns are `RunStep` calls. `Join` assumes they have ended, which is when the source runs its transfer loop. The destructor's call to `join` is not modelled.
- `task->execute()` belongs to each task, not to the pool. It is taken to leave the handle unchanged, and `WorkerOutcome.Executed` records that it ran once.
- Mutex.h, Cond.h, Locker.h, ThreadPosix.h, Thread.h and Task.h are not part of this model. They are pthread wrappers and interfaces without queue logic.
- Message.h is not part of this model. Payloads are the type parameter, and the runtime type checks (`dynamic_pointer_cast` and the `assert`s around it) cannot fail, because boxing is a datatype constructor.
- The `IThreadPool::pop<Derived>` template in ThreadPool.h is not part of this model. It is the same pattern as `PopT`.
- Shared ownership and reference counting of handles are not modelled: handles are values.
- The test programs and the floating-point Monte Carlo test are not part of this model.
- `ThreadPoolSpec.RunPoolConserves`, `ThreadPoolSpec.RunPoolExecutesBeforeCollect`, `ThreadPoolSpec.EveryTaskCollectedAndExecutedOnce`: these hold only while the pool holds fewer than `SIZE_MAX` tasks. Past that, the source's ignored output-queue `push` drops tasks, and the model drops them too.
