/**
 * The abstract state of ThreadPoolPosix (ThreadPool.cpp): an input queue of
 * submitted tasks, an output queue of finished tasks and the pool's own
 * cancelled flag, with the transitions that the pool's methods and its
 * worker threads make on them.
 *
 * A worker's loop body (pop from the input queue, execute, push to the output
 * queue) is taken as one atomic step, as is join's transfer loop, which runs
 * once the workers have been joined.
 */
module ThreadPoolSpec {
  import Q = MessageQueueSpec

  /** m_input_queue, m_output_queue and m_cancelled, as values. */
  datatype Pool<T> = Pool(input: Q.Queue<T>, output: Q.Queue<T>, cancelled: bool)

  /** The pool's invariant: both queues are valid, the output queue has the
      default capacity and is never cancelled, and the pool's flag and the
      input queue's flag are raised together. */
  predicate Valid<T>(p: Pool<T>)
  {
    && Q.Valid(p.input)
    && Q.Valid(p.output)
    && p.output.capacity == Q.SIZE_MAX
    && !p.output.cancelled
    && p.cancelled == p.input.cancelled
  }

  /** Every task the pool holds: the finished ones, then the pending ones. */
  function Tasks<T>(p: Pool<T>): seq<T>
  {
    p.output.items + p.input.items
  }

  /** The constructor: an input queue of `taskCapacity`, an output queue of
      the default capacity, nothing cancelled. */
  function Create<T>(taskCapacity: nat): (p: Pool<T>)
    requires taskCapacity <= Q.SIZE_MAX
    ensures Valid(p)
    ensures p.input == Q.Create(taskCapacity) && p.output == Q.Create(Q.SIZE_MAX)
    ensures !p.cancelled && Tasks(p) == []
  {
    Pool(Q.Create(taskCapacity), Q.Create(Q.SIZE_MAX), false)
  }

  datatype SubmitResult<T> = SubmitResult(pool: Pool<T>, count: nat)

  /** push: hand a task to the input queue and return what it returns. */
  function Submit<T>(p: Pool<T>, task: T): (r: SubmitResult<T>)
    requires Valid(p)
    ensures Valid(r.pool)
    ensures var s := Q.Push(p.input, task); r.count == s.count && r.pool.input == s.queue
    ensures r.pool.output == p.output && r.pool.cancelled == p.cancelled
    ensures r.count == 0 <==> |p.input.items| == p.input.capacity
    ensures Tasks(r.pool) == if r.count > 0 then Tasks(p) + [task] else Tasks(p)
  {
    var s := Q.Push(p.input, task);
    SubmitResult(p.(input := s.queue), s.count)
  }

  datatype CollectResult<T> = CollectResult(pool: Pool<T>, step: Q.PopStep, task: Q.Option<T>)

  /** pop: take a finished task from the output queue and return what that
      queue's pop returns. */
  function Collect<T>(p: Pool<T>, dst: Q.Option<T>, blocking: bool): (r: CollectResult<T>)
    requires Valid(p)
    ensures Valid(r.pool)
    ensures var s := Q.Pop(p.output, dst, blocking);
            r.step == s.step && r.task == s.message && r.pool.output == s.queue
    ensures r.pool.input == p.input && r.pool.cancelled == p.cancelled
    // the output queue is never cancelled, so a blocking pop only fails by waiting
    ensures blocking ==> r.step.Succeeded() || r.step == Q.MustWait
    ensures r.step.Succeeded() ==>
      && r.task.Some?
      && p.output.items == [r.task.value] + r.pool.output.items
      && Tasks(p) == [r.task.value] + Tasks(r.pool)
    ensures !r.step.Succeeded() ==> r.pool == p && r.task == dst
  {
    var s := Q.Pop(p.output, dst, blocking);
    CollectResult(p.(output := s.queue), s.step, s.message)
  }

  /** cancel: cancel the input queue, then raise the pool's flag. */
  function Cancel<T>(p: Pool<T>): (r: Pool<T>)
    requires Valid(p)
    ensures Valid(r)
    ensures r.cancelled && r.input.cancelled
    ensures r.input.items == p.input.items && r.input.capacity == p.input.capacity
    ensures r.output == p.output
    ensures Tasks(r) == Tasks(p)
  {
    Pool(Q.Cancel(p.input), p.output, true)
  }

  /** What one turn of a worker's loop did. */
  datatype WorkerOutcome<T> = Executed(task: T) | Waiting | Exited

  /** The new state, the outcome and the worker's task variable afterwards. */
  datatype WorkerResult<T> = WorkerResult(pool: Pool<T>, outcome: WorkerOutcome<T>, task: Q.Option<T>)

  /** One turn of run(): a blocking pop on the input queue; on success the
      task is executed (the handle itself is unchanged) and pushed to the output
      queue, whose result is ignored; on 0 the loop exits; otherwise the worker
      waits. */
  function WorkerStep<T>(p: Pool<T>, task: Q.Option<T>): (r: WorkerResult<T>)
    requires Valid(p)
    ensures Valid(r.pool)
    ensures r.pool.cancelled == p.cancelled
    // the loop exits exactly when the input queue is cancelled, queued tasks or not
    ensures r.outcome == Exited <==> p.input.cancelled
    ensures r.outcome == Waiting <==> !p.input.cancelled && p.input.items == []
    ensures !r.outcome.Executed? ==> r.pool == p && r.task == task
    // a task is taken from the head of the input queue, executed once and
    // appended to the output queue unless that queue is full
    ensures r.outcome.Executed? ==>
      && p.input.items != []
      && r.outcome.task == p.input.items[0]
      && r.task == Q.Some(r.outcome.task)
      && r.pool.input.items == p.input.items[1..]
      && r.pool.output.items ==
           if |p.output.items| < Q.SIZE_MAX then p.output.items + [r.outcome.task] else p.output.items
    // no task is lost unless the output queue was full
    ensures |p.output.items| < Q.SIZE_MAX ==> Tasks(r.pool) == Tasks(p)
  {
    var s := Q.Pop(p.input, task, true);
    if s.step.Succeeded() then
      var t := s.message.value;
      var o := Q.Push(p.output, t);
      assert |p.output.items| < Q.SIZE_MAX ==> Tasks(p) == p.output.items + [t] + s.queue.items;
      WorkerResult(Pool(s.queue, o.queue, p.cancelled), Executed(t), s.message)
    else if s.step == Q.MustWait then
      WorkerResult(p, Waiting, task)
    else
      WorkerResult(p, Exited, task)
  }

  /** join's transfer loop: non-blocking pops from the input queue, each task
      pushed to the output queue, until a pop returns 0. The output queue keeps
      the tasks in order up to its capacity; what does not fit is dropped. */
  function Drain<T>(p: Pool<T>): (r: Pool<T>)
    requires Valid(p)
    ensures Valid(r)
    ensures r.input.items == [] && r.input.capacity == p.input.capacity
    ensures r.input.cancelled == p.input.cancelled && r.cancelled == p.cancelled
    ensures r.output.items == Tasks(p)[..Q.Min(Q.SIZE_MAX, |Tasks(p)|)]
    decreases |p.input.items|
  {
    var s := Q.Pop(p.input, Q.None, false);
    if s.step.Succeeded() then
      var t := s.message.value;
      var o := Q.Push(p.output, t);
      var next := Pool(s.queue, o.queue, p.cancelled);
      var r := Drain(next);
      assert r.output.items == Tasks(p)[..Q.Min(Q.SIZE_MAX, |Tasks(p)|)] by {
        if |p.output.items| < Q.SIZE_MAX {
          assert Tasks(next) == Tasks(p);
        } else {
          assert o.queue == p.output;
          assert Tasks(next)[..Q.SIZE_MAX] == p.output.items == Tasks(p)[..Q.SIZE_MAX];
        }
      }
      r
    else
      assert p.input.items == [] && Tasks(p) == p.output.items;
      p
  }

  /** join: cancel, then (once the workers are joined) transfer every pending
      task to the output queue. */
  function Join<T>(p: Pool<T>): (r: Pool<T>)
    requires Valid(p)
    ensures Valid(r)
    ensures r.cancelled && r.input.cancelled && r.input.items == []
    ensures r.output.items == Tasks(p)[..Q.Min(Q.SIZE_MAX, |Tasks(p)|)]
  {
    Drain(Cancel(p))
  }

  /** join keeps every task, in order, as long as they fit in the output queue:
      the pending tasks follow the finished ones. */
  lemma JoinKeepsEveryTask<T>(p: Pool<T>)
    requires Valid(p) && |Tasks(p)| <= Q.SIZE_MAX
    ensures Join(p).output.items == p.output.items + p.input.items
    ensures Tasks(Join(p)) == Tasks(p)
  {
    assert Tasks(p)[..|Tasks(p)|] == Tasks(p);
  }

  /** One operation on the pool, by its owner or by one of its workers. */
  datatype PoolOp<T> =
    | SubmitOp(task: T)
    | CollectOp(dst: Q.Option<T>, blocking: bool)
    | WorkOp
    | CancelOp
    | JoinOp

  /** The state after a run, and the tasks that push accepted, that workers
      executed and that pop handed back, each in the order of the run. */
  datatype PoolTrace<T> = PoolTrace(pool: Pool<T>, accepted: seq<T>, executed: seq<T>, collected: seq<T>)

  predicate NoJoin<T>(ops: seq<PoolOp<T>>)
  {
    forall i :: 0 <= i < |ops| ==> !ops[i].JoinOp?
  }

  /** One operation and the tasks it accepted, executed or handed back. */
  function ApplyOp<T>(p: Pool<T>, op: PoolOp<T>): (r: PoolTrace<T>)
    requires Valid(p)
    ensures Valid(r.pool)
    ensures |Tasks(r.pool)| <= |Tasks(p)| + 1
    // conservation: no task is lost or duplicated
    ensures |Tasks(p)| < Q.SIZE_MAX ==>
      multiset(Tasks(p)) + multiset(r.accepted) == multiset(r.collected) + multiset(Tasks(r.pool))
    // before join, only executed tasks reach the output queue
    ensures !op.JoinOp? && |Tasks(p)| < Q.SIZE_MAX ==>
      multiset(p.output.items) + multiset(r.executed) == multiset(r.collected) + multiset(r.pool.output.items)
  {
    match op
    case SubmitOp(t) =>
      var s := Submit(p, t);
      PoolTrace(s.pool, if s.count > 0 then [t] else [], [], [])
    case CollectOp(dst, blocking) =>
      var c := Collect(p, dst, blocking);
      PoolTrace(c.pool, [], [], if c.step.Succeeded() then [c.task.value] else [])
    case WorkOp =>
      var w := WorkerStep(p, Q.None);
      PoolTrace(w.pool, [], if w.outcome.Executed? then [w.outcome.task] else [], [])
    case CancelOp =>
      PoolTrace(Cancel(p), [], [], [])
    case JoinOp =>
      var j := Join(p);
      if |Tasks(p)| < Q.SIZE_MAX then
        JoinKeepsEveryTask(p);
        PoolTrace(j, [], [], [])
      else
        PoolTrace(j, [], [], [])
  }

  /** A run of operations, one after the other. */
  function RunPool<T>(p: Pool<T>, ops: seq<PoolOp<T>>): (r: PoolTrace<T>)
    requires Valid(p)
    ensures Valid(r.pool)
    ensures |Tasks(r.pool)| <= |Tasks(p)| + |ops|
    decreases |ops|
  {
    if ops == [] then
      PoolTrace(p, [], [], [])
    else
      var s := ApplyOp(p, ops[0]);
      var t := RunPool(s.pool, ops[1..]);
      PoolTrace(t.pool, s.accepted + t.accepted, s.executed + t.executed, s.collected + t.collected)
  }

  /** Conservation over a run: every accepted task is collected exactly once
      or is still held by the pool (the bound keeps the output queue from
      filling up, which would drop tasks). */
  lemma {:induction false} RunPoolConserves<T>(p: Pool<T>, ops: seq<PoolOp<T>>)
    requires Valid(p) && |Tasks(p)| + |ops| <= Q.SIZE_MAX
    ensures var r := RunPool(p, ops);
            multiset(Tasks(p)) + multiset(r.accepted) == multiset(r.collected) + multiset(Tasks(r.pool))
    decreases |ops|
  {
    if ops != [] {
      var s := ApplyOp(p, ops[0]);
      var t := RunPool(s.pool, ops[1..]);
      RunPoolConserves(s.pool, ops[1..]);
      var r := RunPool(p, ops);
      assert r == PoolTrace(t.pool, s.accepted + t.accepted, s.executed + t.executed, s.collected + t.collected);
      calc {
        multiset(Tasks(p)) + multiset(r.accepted);
        (multiset(Tasks(p)) + multiset(s.accepted)) + multiset(t.accepted);
        (multiset(s.collected) + multiset(Tasks(s.pool))) + multiset(t.accepted);
        multiset(s.collected) + (multiset(Tasks(s.pool)) + multiset(t.accepted));
        multiset(s.collected) + (multiset(t.collected) + multiset(Tasks(t.pool)));
        (multiset(s.collected) + multiset(t.collected)) + multiset(Tasks(t.pool));
        multiset(r.collected) + multiset(Tasks(r.pool));
      }
    }
  }

  /** With no join in a run, every task that reaches the output queue, and so
      every task the caller collects, was executed by a worker. */
  lemma {:induction false} RunPoolExecutesBeforeCollect<T>(p: Pool<T>, ops: seq<PoolOp<T>>)
    requires Valid(p) && |Tasks(p)| + |ops| <= Q.SIZE_MAX && NoJoin(ops)
    ensures var r := RunPool(p, ops);
            multiset(p.output.items) + multiset(r.executed) == multiset(r.collected) + multiset(r.pool.output.items)
    decreases |ops|
  {
    if ops != [] {
      var s := ApplyOp(p, ops[0]);
      var t := RunPool(s.pool, ops[1..]);
      assert !ops[0].JoinOp?;
      assert NoJoin(ops[1..]) by {
        forall i | 0 <= i < |ops[1..]| ensures !ops[1..][i].JoinOp? {
          assert ops[1..][i] == ops[i + 1];
        }
      }
      RunPoolExecutesBeforeCollect(s.pool, ops[1..]);
      var r := RunPool(p, ops);
      assert r == PoolTrace(t.pool, s.accepted + t.accepted, s.executed + t.executed, s.collected + t.collected);
      calc {
        multiset(p.output.items) + multiset(r.executed);
        (multiset(p.output.items) + multiset(s.executed)) + multiset(t.executed);
        (multiset(s.collected) + multiset(s.pool.output.items)) + multiset(t.executed);
        multiset(s.collected) + (multiset(s.pool.output.items) + multiset(t.executed));
        multiset(s.collected) + (multiset(t.collected) + multiset(t.pool.output.items));
        (multiset(s.collected) + multiset(t.collected)) + multiset(t.pool.output.items);
        multiset(r.collected) + multiset(r.pool.output.items);
      }
    }
  }

  /** What the pool's test checks at the end: starting from a new pool, if no
      join happened and every task has been collected, then each accepted task
      was collected exactly once and executed exactly once. */
  lemma EveryTaskCollectedAndExecutedOnce<T>(taskCapacity: nat, ops: seq<PoolOp<T>>)
    requires taskCapacity <= Q.SIZE_MAX && |ops| <= Q.SIZE_MAX
    requires NoJoin(ops)
    requires Tasks(RunPool(Create(taskCapacity), ops).pool) == []
    ensures var r := RunPool(Create(taskCapacity), ops);
            multiset(r.collected) == multiset(r.accepted) && multiset(r.executed) == multiset(r.accepted)
  {
    var p := Create<T>(taskCapacity);
    var r := RunPool(p, ops);
    RunPoolConserves(p, ops);
    RunPoolExecutesBeforeCollect(p, ops);
    var empty: multiset<T> := multiset{};
    assert Tasks(r.pool) == [] ==> r.pool.output.items == [];
    assert multiset(Tasks(p)) == empty && multiset(p.output.items) == empty;
    assert multiset(Tasks(r.pool)) == empty && multiset(r.pool.output.items) == empty;
    assert empty + multiset(r.accepted) == multiset(r.accepted);
    assert empty + multiset(r.executed) == multiset(r.executed);
    assert multiset(r.collected) + empty == multiset(r.collected);
  }
}
