/**
 * Sequences of critical sections on one queue, in the order in which the
 * mutex serialises them, and what they deliver: FIFO order, no message lost
 * or duplicated, and the capacity ceiling.
 */
module MessageQueueTrace {
  import opened MessageQueueSpec

  /** One critical section, as issued by some producer, consumer or owner. */
  datatype Op<T> = PushOp(message: T) | PopOp(dst: Option<T>, blocking: bool) | CancelOp

  /** The state after a run, the messages push accepted and the messages pop
      handed out, each in the order of the run. */
  datatype Trace<T> = Trace(queue: Queue<T>, accepted: seq<T>, delivered: seq<T>)

  /** One critical section and what it accepted or delivered. */
  function Apply<T>(q: Queue<T>, op: Op<T>): (r: Trace<T>)
    requires Valid(q)
    ensures Valid(r.queue)
    ensures r.queue.capacity == q.capacity
    ensures q.cancelled ==> r.queue.cancelled
    ensures |r.accepted| + |r.delivered| <= 1
    // nothing is lost or duplicated by one step
    ensures q.items + r.accepted == r.delivered + r.queue.items
  {
    match op
    case PushOp(m) =>
      var p := Push(q, m);
      Trace(p.queue, if p.count > 0 then [m] else [], [])
    case PopOp(dst, blocking) =>
      var p := Pop(q, dst, blocking);
      Trace(p.queue, [], if p.step.Succeeded() then [p.message.value] else [])
    case CancelOp =>
      Trace(Cancel(q), [], [])
  }

  /** A run of critical sections, one after the other. */
  function Run<T>(q: Queue<T>, ops: seq<Op<T>>): (r: Trace<T>)
    requires Valid(q)
    ensures Valid(r.queue)
    ensures r.queue.capacity == q.capacity
    // the cancelled status is never reversed
    ensures q.cancelled ==> r.queue.cancelled
    decreases |ops|
  {
    if ops == [] then
      Trace(q, [], [])
    else
      var s := Apply(q, ops[0]);
      var t := Run(s.queue, ops[1..]);
      Trace(t.queue, s.accepted + t.accepted, s.delivered + t.delivered)
  }

  /** Run unfolded once. */
  lemma RunCons<T>(q: Queue<T>, ops: seq<Op<T>>)
    requires Valid(q) && ops != []
    ensures var s := Apply(q, ops[0]);
            var t := Run(s.queue, ops[1..]);
            Run(q, ops) == Trace(t.queue, s.accepted + t.accepted, s.delivered + t.delivered)
  {
  }

  /** Two conservation equations chained: what is accepted in two parts and
      delivered in two parts balances overall. */
  lemma Splice<T>(x: seq<T>, a1: seq<T>, a2: seq<T>, d1: seq<T>, d2: seq<T>, y: seq<T>, z: seq<T>)
    requires x + a1 == d1 + y
    requires y + a2 == d2 + z
    ensures x + (a1 + a2) == (d1 + d2) + z
  {
    calc {
      x + (a1 + a2);
      (x + a1) + a2;
      (d1 + y) + a2;
      d1 + (y + a2);
      d1 + (d2 + z);
      (d1 + d2) + z;
    }
  }

  /** No message is lost or duplicated: every message push accepted has been
      delivered exactly once, in acceptance order, or is still queued. */
  lemma {:induction false} RunConserves<T>(q: Queue<T>, ops: seq<Op<T>>)
    requires Valid(q)
    ensures var r := Run(q, ops);
            q.items + r.accepted == r.delivered + r.queue.items
    decreases |ops|
  {
    if ops != [] {
      var s := Apply(q, ops[0]);
      var t := Run(s.queue, ops[1..]);
      RunConserves(s.queue, ops[1..]);
      RunCons(q, ops);
      Splice(q.items, s.accepted, t.accepted, s.delivered, t.delivered, s.queue.items, t.queue.items);
    }
  }

  /** A push of each message in turn. */
  function Pushes<T>(ms: seq<T>): (ops: seq<Op<T>>)
    ensures |ops| == |ms|
    ensures forall i :: 0 <= i < |ms| ==> ops[i] == PushOp(ms[i])
  {
    seq(|ms|, i requires 0 <= i < |ms| => PushOp(ms[i]))
  }

  /** `k` non-blocking pops into a null message variable. */
  function Pops<T>(k: nat): (ops: seq<Op<T>>)
    ensures |ops| == k
    ensures forall i :: 0 <= i < k ==> ops[i] == PopOp(None, false)
  {
    seq(k, i => PopOp(None, false))
  }

  /** Sequence concatenation is associative. */
  lemma Assoc<T>(a: seq<T>, b: seq<T>, c: seq<T>)
    ensures a + (b + c) == (a + b) + c
  {
  }

  /** Running two runs back to back is running their concatenation. */
  lemma {:induction false} RunAppend<T>(q: Queue<T>, a: seq<Op<T>>, b: seq<Op<T>>)
    requires Valid(q)
    ensures var r1 := Run(q, a);
            var r2 := Run(r1.queue, b);
            Run(q, a + b) == Trace(r2.queue, r1.accepted + r2.accepted, r1.delivered + r2.delivered)
    decreases |a|
  {
    if a == [] {
      assert a + b == b;
      var r2 := Run(q, b);
      assert [] + r2.accepted == r2.accepted && [] + r2.delivered == r2.delivered;
    } else {
      var s := Apply(q, a[0]);
      assert (a + b)[0] == a[0] && (a + b)[1..] == a[1..] + b;
      RunAppend(s.queue, a[1..], b);
      RunCons(q, a);
      RunCons(q, a + b);
      var t1 := Run(s.queue, a[1..]);
      var t2 := Run(t1.queue, b);
      Assoc(s.accepted, t1.accepted, t2.accepted);
      Assoc(s.delivered, t1.delivered, t2.delivered);
    }
  }

  /** One push, unfolded. */
  lemma ApplyPush<T>(q: Queue<T>, m: T)
    requires Valid(q)
    ensures Apply(q, PushOp(m)) ==
      if |q.items| < q.capacity then Trace(q.(items := q.items + [m]), [m], []) else Trace(q, [], [])
  {
  }

  /** One non-blocking pop into a null variable, unfolded. */
  lemma ApplyPop<T>(q: Queue<T>)
    requires Valid(q)
    ensures Apply(q, PopOp(None, false)) ==
      if q.items != [] then Trace(q.(items := q.items[1..]), [], [q.items[0]]) else Trace(q, [], [])
  {
  }

  /** The first `n` elements are the head followed by `n - 1` of the tail. */
  lemma PrefixCons<T>(ms: seq<T>, n: nat)
    requires 0 < n <= |ms|
    ensures ms[..n] == [ms[0]] + ms[1..][..n - 1]
  {
  }

  /** Pushes into a full queue are all refused and change nothing. */
  lemma {:induction false} RunPushesFull<T>(q: Queue<T>, ms: seq<T>)
    requires Valid(q) && |q.items| == q.capacity
    ensures Run(q, Pushes(ms)) == Trace(q, [], [])
    decreases |ms|
  {
    var ops := Pushes(ms);
    if ms != [] {
      assert ops[0] == PushOp(ms[0]) && ops[1..] == Pushes(ms[1..]);
      ApplyPush(q, ms[0]);
      RunPushesFull(q, ms[1..]);
      RunCons(q, ops);
    }
  }

  /** Pushes with no pop in between accept the longest prefix of the messages
      that fits and append it in order; the rest are refused with 0. */
  lemma {:induction false} RunPushes<T>(q: Queue<T>, ms: seq<T>)
    requires Valid(q)
    ensures var n := Min(|ms|, q.capacity - |q.items|);
            var r := Run(q, Pushes(ms));
            && r.accepted == ms[..n]
            && r.delivered == []
            && r.queue.items == q.items + ms[..n]
            && r.queue.cancelled == q.cancelled
    decreases |ms|
  {
    if |q.items| == q.capacity {
      RunPushesFull(q, ms);
      assert ms[..0] == [] && q.items + [] == q.items;
    } else if ms != [] {
      var ops := Pushes(ms);
      assert ops[0] == PushOp(ms[0]) && ops[1..] == Pushes(ms[1..]);
      ApplyPush(q, ms[0]);
      var q' := q.(items := q.items + [ms[0]]);
      RunPushes(q', ms[1..]);
      RunCons(q, ops);
      var n := Min(|ms|, q.capacity - |q.items|);
      PrefixCons(ms, n);
      Assoc(q.items, [ms[0]], ms[1..][..n - 1]);
    }
  }

  /** Non-blocking pops on an empty queue all return 0 and change nothing. */
  lemma {:induction false} RunPopsEmpty<T>(q: Queue<T>, k: nat)
    requires Valid(q) && q.items == []
    ensures Run(q, Pops<T>(k)) == Trace(q, [], [])
    decreases k
  {
    var ops := Pops<T>(k);
    if k > 0 {
      assert ops[0] == PopOp(None, false) && ops[1..] == Pops<T>(k - 1);
      ApplyPop(q);
      RunPopsEmpty(q, k - 1);
      RunCons(q, ops);
    }
  }

  /** `k` non-blocking pops hand out the first `k` messages (or all of them, if
      fewer are queued) in queue order, and accept nothing. */
  lemma {:induction false} RunPops<T>(q: Queue<T>, k: nat)
    requires Valid(q)
    ensures var n := Min(k, |q.items|);
            var r := Run(q, Pops<T>(k));
            && r.accepted == []
            && r.delivered == q.items[..n]
            && r.queue.items == q.items[n..]
    decreases k
  {
    if q.items == [] {
      RunPopsEmpty(q, k);
    } else if k > 0 {
      var ops := Pops<T>(k);
      assert ops[0] == PopOp(None, false) && ops[1..] == Pops<T>(k - 1);
      ApplyPop(q);
      var q' := q.(items := q.items[1..]);
      RunPops(q', k - 1);
      RunCons(q, ops);
      var n := Min(k, |q.items|);
      PrefixCons(q.items, n);
      assert q.items[1..][n - 1..] == q.items[n..];
    }
  }

  /** FIFO: messages pushed into an empty queue with no pop in between come out
      of as many pops in exactly the order they went in. */
  lemma Fifo<T>(capacity: nat, ms: seq<T>)
    requires |ms| <= capacity <= SIZE_MAX
    ensures Run(Create(capacity), Pushes(ms) + Pops<T>(|ms|)).delivered == ms
    ensures Run(Create(capacity), Pushes(ms) + Pops<T>(|ms|)).queue.items == []
  {
    var q := Create<T>(capacity);
    RunAppend(q, Pushes(ms), Pops<T>(|ms|));
    RunPushes(q, ms);
    assert ms[..|ms|] == ms;
    RunPops(Run(q, Pushes(ms)).queue, |ms|);
  }

  /** The capacity ceiling: of k + 1 pushes into an empty queue of capacity k,
      the last is refused and the queue holds exactly the first k. */
  lemma CapacityCeiling<T>(ms: seq<T>)
    requires 0 < |ms| <= SIZE_MAX
    ensures var r := Run(Create(|ms| - 1), Pushes(ms));
            r.accepted == ms[..|ms| - 1] && |r.queue.items| == |ms| - 1
    ensures var r := Run(Create(|ms| - 1), Pushes(ms[..|ms| - 1]));
            Push(r.queue, ms[|ms| - 1]).count == 0
  {
    var q := Create<T>(|ms| - 1);
    RunPushes(q, ms);
    RunPushes(q, ms[..|ms| - 1]);
  }
}
