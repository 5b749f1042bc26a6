/**
 * MessageQueueT<M> (MessageQueue.h): a queue of plain values of type M built
 * on an untyped message queue. A pushed value is boxed in a MessageImpl and
 * a popped handle is unboxed through its payload. Here the handle type is
 * MessageImpl<M> itself, so the downcast of the source cannot mismatch.
 */
module TypedMessageQueue {
  import Spec = MessageQueueSpec
  import Trace = MessageQueueTrace
  import opened MessageQueue

  /** MessageQueueT<M>::MessageImpl<P>: the box that carries one payload. */
  datatype MessageImpl<P> = MessageImpl(payload: P)

  /** The payloads of a run of boxes, in the same order. */
  function Payloads<M>(s: seq<MessageImpl<M>>): (r: seq<M>)
    ensures |r| == |s|
    ensures forall i :: 0 <= i < |s| ==> r[i] == s[i].payload
  {
    seq(|s|, i requires 0 <= i < |s| => s[i].payload)
  }

  /** The boxes of a run of payloads, in the same order. */
  function Boxes<M>(s: seq<M>): (r: seq<MessageImpl<M>>)
    ensures |r| == |s|
    ensures forall i :: 0 <= i < |s| ==> r[i] == MessageImpl(s[i])
  {
    seq(|s|, i requires 0 <= i < |s| => MessageImpl(s[i]))
  }

  /** Unboxing undoes boxing, value by value and run by run. */
  lemma PayloadsOfBoxes<M>(s: seq<M>)
    ensures Payloads(Boxes(s)) == s
  {
  }

  /** Typed round trip and FIFO: values pushed through the adapter into an
      empty queue come back unchanged and in order from as many pops. */
  lemma TypedFifo<M>(capacity: nat, ms: seq<M>)
    requires |ms| <= capacity <= Spec.SIZE_MAX
    ensures var r := Trace.Run(Spec.Create(capacity), Trace.Pushes(Boxes(ms)) + Trace.Pops(|ms|));
            Payloads(r.delivered) == ms
  {
    Trace.Fifo(capacity, Boxes(ms));
    PayloadsOfBoxes(ms);
  }

  class MessageQueueT<M> {
    /** m_impl */
    const impl: MessageQueuePosix<MessageImpl<M>>

    ghost predicate Valid()
      reads this, impl
    {
      impl.Valid()
    }

    /** The queued values, head first. */
    function Contents(): seq<M>
      reads this, impl
    {
      Payloads(impl.items)
    }

    /** The constructor: an underlying queue from IMessageQueue::create. */
    constructor (maxCapacity: nat)
      requires maxCapacity <= Spec.SIZE_MAX
      ensures Valid() && fresh(impl)
      ensures impl.State() == Spec.Create(maxCapacity)
      ensures Contents() == []
    {
      impl := new MessageQueuePosix(maxCapacity);
    }

    /** pop: the underlying count, with `dstMessage` (the second result is its
        value afterwards) set to the dequeued payload only when that count is
        positive. */
    method Pop(dstMessage: M, blocking: bool) returns (step: Spec.PopStep, message: M)
      requires Valid()
      modifies impl
      ensures Valid()
      ensures var r := Spec.Pop(old(impl.State()), Spec.None, blocking);
              impl.State() == r.queue && step == r.step
      ensures message == if step.Succeeded() then old(Contents())[0] else dstMessage
      ensures Contents() == if step.Succeeded() then old(Contents())[1..] else old(Contents())
    {
      var abstractMessage: Spec.Option<MessageImpl<M>> := Spec.None;
      step, abstractMessage := impl.Pop(abstractMessage, blocking);
      message := dstMessage;
      if step.Returned? && step.count > 0 {
        message := abstractMessage.value.payload;
      }
    }

    /** push: box the value and return exactly what the underlying push returns. */
    method Push(message: M) returns (count: nat)
      requires Valid()
      modifies impl
      ensures Valid()
      ensures var r := Spec.Push(old(impl.State()), MessageImpl(message));
              impl.State() == r.queue && count == r.count
      ensures Contents() == if count > 0 then old(Contents()) + [message] else old(Contents())
    {
      var newMessage := MessageImpl(message);
      count := impl.Push(newMessage);
    }

    /** cancel: cancel the underlying queue. */
    method Cancel()
      requires Valid()
      modifies impl
      ensures Valid()
      ensures impl.State() == Spec.Cancel(old(impl.State()))
      ensures Contents() == old(Contents())
    {
      impl.Cancel();
    }

    /** is_cancelled: the underlying flag. */
    method IsCancelled() returns (b: bool)
      ensures b == impl.cancelled
    {
      b := impl.IsCancelled();
    }

    /** size: the underlying count, which is the number of queued values. */
    method Size() returns (n: nat)
      requires Valid()
      ensures n == |impl.items| == |Contents()|
      ensures n <= impl.capacity
    {
      n := impl.Size();
    }
  }
}
