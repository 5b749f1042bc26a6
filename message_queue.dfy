/**
 * MessageQueuePosix (MessageQueue.cpp) and the IMessageQueue contract it
 * implements (MessageQueue.h): a FIFO of message handles with a capacity
 * ceiling and a one-way cancelled flag. Each method body is one critical
 * section; its contract ties the new state and the returned values to the
 * corresponding function of MessageQueueSpec.
 */
module MessageQueue {
  import Spec = MessageQueueSpec

  class MessageQueuePosix<T> {
    /** m_max_capacity */
    const capacity: nat
    /** m_queue, the std::deque of handles, head first */
    var items: seq<T>
    /** m_cancelled */
    var cancelled: bool

    /** The fields as a value of the specification. */
    function State(): Spec.Queue<T>
      reads this
    {
      Spec.Queue(capacity, items, cancelled)
    }

    ghost predicate Valid()
      reads this
    {
      Spec.Valid(State())
    }

    /** IMessageQueue::create and the MessageQueuePosix constructor. */
    constructor (maxCapacity: nat)
      requires maxCapacity <= Spec.SIZE_MAX
      ensures Valid()
      ensures State() == Spec.Create(maxCapacity)
      ensures capacity == maxCapacity && items == [] && !cancelled
    {
      capacity := maxCapacity;
      cancelled := false;
      items := [];
    }

    /** push: 0 when full, otherwise the size after appending `message`. */
    method Push(message: T) returns (count: nat)
      requires Valid()
      modifies this
      ensures Valid()
      ensures var r := Spec.Push(old(State()), message);
              State() == r.queue && count == r.count
      ensures count == 0 <==> old(|items|) == capacity
      ensures count > 0 ==> items == old(items) + [message] && count == |items|
      ensures count == 0 ==> items == old(items)
      ensures cancelled == old(cancelled)
    {
      var ret := |items|;
      if ret < capacity {
        items := items + [message];
        ret := ret + 1;
        // ret == 1 is where the source signals one waiter
      } else {
        ret := 0;
      }
      count := ret;
    }

    /** pop: one critical section of either mode. `dst` is the caller's
        message variable; the second result is its value afterwards. */
    method Pop(dst: Spec.Option<T>, blocking: bool) returns (step: Spec.PopStep, message: Spec.Option<T>)
      requires Valid()
      modifies this
      ensures Valid()
      ensures var r := Spec.Pop(old(State()), dst, blocking);
              State() == r.queue && step == r.step && message == r.message
      ensures !step.Succeeded() ==> items == old(items) && message == dst
      ensures step.Succeeded() ==>
        && message == Spec.Some(old(items)[0])
        && items == old(items)[1..]
        && step.count == old(|items|)
      ensures cancelled == old(cancelled)
    {
      message := dst;
      if blocking {
        // the loop guard `while (!m_cancelled)` and the check after waking
        if cancelled {
          step := Spec.Returned(0);
        } else {
          var ret := |items|;
          if ret > 0 {
            message := Spec.Some(items[0]);
            items := items[1..];
            step := Spec.Returned(ret);
          } else {
            // m_cond.wait: the mutex is released and this step starts again
            step := Spec.MustWait;
          }
        }
      } else {
        var ret := |items|;
        if ret > 0 {
          message := Spec.Some(items[0]);
          items := items[1..];
        }
        step := Spec.Returned(ret);
      }
    }

    /** cancel: raise the flag for good; the queued items stay. */
    method Cancel()
      requires Valid()
      modifies this
      ensures Valid()
      ensures State() == Spec.Cancel(old(State()))
      ensures cancelled && items == old(items)
    {
      cancelled := true;
    }

    /** is_cancelled */
    method IsCancelled() returns (b: bool)
      ensures b == cancelled
    {
      b := cancelled;
    }

    /** size: the number of queued messages, never above the capacity. */
    method Size() returns (n: nat)
      requires Valid()
      ensures n == |items| && n <= capacity
    {
      n := |items|;
    }

    /** IMessageQueue::popT: pop into a fresh null handle and hand it to the
        caller's variable only when the count is positive. The downcast is the
        identity on the handle, so it cannot fail. */
    method PopT(dst: Spec.Option<T>, blocking: bool) returns (step: Spec.PopStep, message: Spec.Option<T>)
      requires Valid()
      modifies this
      ensures Valid()
      ensures var r := Spec.Pop(old(State()), Spec.None, blocking);
              State() == r.queue && step == r.step
      ensures message == if step.Succeeded() then Spec.Some(old(items)[0]) else dst
    {
      var abstractMessage: Spec.Option<T> := Spec.None;
      step, abstractMessage := Pop(abstractMessage, blocking);
      message := dst;
      if step.Returned? && step.count > 0 {
        message := abstractMessage;
      }
    }
  }
}
