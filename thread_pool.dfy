/**
 * ThreadPoolPosix (ThreadPool.cpp): submitted tasks go into an input queue,
 * worker threads take them out, execute them and put them into an output
 * queue, from which the owner collects them. Each method's contract ties the
 * new state of the two queues and of the pool's flag to the corresponding
 * function of ThreadPoolSpec.
 */
module ThreadPool {
  import Q = MessageQueueSpec
  import Spec = ThreadPoolSpec
  import opened MessageQueue

  class ThreadPoolPosix<T> {
    /** The size of m_threads; the threads themselves are not modelled. */
    const numThreads: nat
    /** m_input_queue: submitted tasks not yet taken by a worker */
    const input: MessageQueuePosix<T>
    /** m_output_queue: executed tasks not yet collected */
    const output: MessageQueuePosix<T>
    /** m_cancelled */
    var cancelled: bool

    /** The two queues and the flag as a value of the specification. */
    function State(): Spec.Pool<T>
      reads this, input, output
    {
      Spec.Pool(input.State(), output.State(), cancelled)
    }

    ghost predicate Valid()
      reads this, input, output
    {
      input != output && Spec.Valid(State())
    }

    /** The constructor: the input queue holds at most `taskCapacity` tasks,
        the output queue has the default capacity. */
    constructor (numThreads: nat, taskCapacity: nat)
      requires taskCapacity <= Q.SIZE_MAX
      ensures Valid() && fresh(input) && fresh(output)
      ensures State() == Spec.Create(taskCapacity)
      ensures this.numThreads == numThreads
    {
      this.numThreads := numThreads;
      cancelled := false;
      input := new MessageQueuePosix(taskCapacity);
      output := new MessageQueuePosix(Q.SIZE_MAX);
    }

    /** push: the source asserts a non-null task (here every T is a task) and
        a live pool, then returns what the input queue's push returns. */
    method Push(task: T) returns (count: nat)
      requires Valid() && !cancelled
      modifies input
      ensures Valid()
      ensures var r := Spec.Submit(old(State()), task);
              State() == r.pool && count == r.count
    {
      count := input.Push(task);
    }

    /** pop: the source asserts a live pool, then returns what the output
        queue's pop returns. */
    method Pop(dst: Q.Option<T>, blocking: bool) returns (step: Q.PopStep, task: Q.Option<T>)
      requires Valid() && !cancelled
      modifies output
      ensures Valid()
      ensures var r := Spec.Collect(old(State()), dst, blocking);
              State() == r.pool && step == r.step && task == r.task
    {
      step, task := output.Pop(dst, blocking);
    }

    /** cancel: cancel the input queue, so that idle workers leave their loop,
        and raise the pool's flag. The output queue is left alone. */
    method Cancel()
      requires Valid()
      modifies this, input
      ensures Valid()
      ensures State() == Spec.Cancel(old(State()))
    {
      input.Cancel();
      cancelled := true;
    }

    /** join: cancel, wait for the workers (not modelled: their turns are
        RunStep calls made before join), then move every task still pending
        in the input queue to the output queue. */
    method Join()
      requires Valid()
      modifies this, input, output
      ensures Valid()
      ensures State() == Spec.Join(old(State()))
      ensures input.items == [] && cancelled
    {
      Cancel();
      ghost var afterCancel := State();
      var task: Q.Option<T> := Q.None;
      while true
        invariant Valid()
        invariant Spec.Drain(State()) == Spec.Drain(afterCancel)
        decreases |input.items|
      {
        var step;
        step, task := input.Pop(task, false);
        if !(step.Returned? && step.count > 0) {
          break;
        }
        var ignored := output.Push(task.value);
      }
    }

    /** One turn of run()'s loop by a worker whose task variable holds `task`:
        a blocking pop on the input queue; on success execute that task and push
        it to the output queue; on 0 leave the loop. */
    method RunStep(task: Q.Option<T>) returns (outcome: Spec.WorkerOutcome<T>, taskAfter: Q.Option<T>)
      requires Valid()
      modifies input, output
      ensures Valid()
      ensures var r := Spec.WorkerStep(old(State()), task);
              State() == r.pool && outcome == r.outcome && taskAfter == r.task
    {
      var step;
      step, taskAfter := input.Pop(task, true);
      if step.Returned? && step.count > 0 {
        // task->execute() runs code of its own, which leaves the handle as it is
        var ignored := output.Push(taskAfter.value);
        outcome := Spec.Executed(taskAfter.value);
      } else if step == Q.MustWait {
        outcome := Spec.Waiting;
      } else {
        // the loop is over: the source asserts that the input queue is cancelled
        var isCancelled := input.IsCancelled();
        assert isCancelled;
        outcome := Spec.Exited;
      }
    }
  }
}
