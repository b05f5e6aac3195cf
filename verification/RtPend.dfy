/** The real-time pending-call ring (comedi/rt_pend_tq.c): a queue of capacity 15 in 16 slots. */
module RtPend {
  const RT_PEND_TQ_SIZE: nat := 16
  const EINVAL: int := 22
  const ENODEV: int := 19
  const EAGAIN: int := 11

  /** A callback and its arguments; `func` is 0 for NULL. */
  datatype Call = Call(func: nat, arg1: int, arg2: nat)

  /** INC_CIRCULAR_PTR and DEC_CIRCULAR_PTR, as slot numbers. */
  function Inc(ptr: nat): nat {
    if ptr + 1 >= RT_PEND_TQ_SIZE then 0 else ptr + 1
  }

  function Dec(ptr: nat): nat {
    if ptr - 1 < 0 then RT_PEND_TQ_SIZE - 1 else ptr - 1
  }

  /** The slot `k` places after `ptr`. */
  function Slot(ptr: nat, k: nat): nat {
    if ptr + k >= RT_PEND_TQ_SIZE then ptr + k - RT_PEND_TQ_SIZE else ptr + k
  }

  // ---------------------------------------------------------------- the queue

  /** The queue a caller thinks of: the calls accepted so far, the first `done` of which have run. */
  datatype Fifo = Fifo(accepted: seq<Call>, done: nat)

  const EMPTY_FIFO := Fifo([], 0)

  datatype Op = Enqueue(call: Call) | Handle

  /** A call is accepted unless it has no function, there is no interrupt, or 15 are pending. */
  predicate Accepts(irq: int, q: Fifo, call: Call) {
    call.func != 0 && irq > 0 && |q.accepted| < q.done + RT_PEND_TQ_SIZE - 1
  }

  /** What one call of rt_pend_call, or one turn of the handler, does to the queue. */
  function Do(irq: int, q: Fifo, op: Op): Fifo {
    match op
    case Enqueue(call) => if Accepts(irq, q, call) then q.(accepted := q.accepted + [call]) else q
    case Handle => if q.done < |q.accepted| then q.(done := q.done + 1) else q
  }

  function After(irq: int, q: Fifo, ops: seq<Op>): Fifo {
    if ops == [] then q else Do(irq, After(irq, q, ops[..|ops| - 1]), ops[|ops| - 1])
  }

  /** The queue once `calls` have been offered to it in turn. */
  function Offered(irq: int, q: Fifo, calls: seq<Call>): Fifo {
    if calls == [] then q
    else Do(irq, Offered(irq, q, calls[..|calls| - 1]), Enqueue(calls[|calls| - 1]))
  }

  /** The queue after `turns` turns of the handler, when the k-th call it makes pends `more(k)`. */
  function Handled(irq: int, q: Fifo, more: nat -> seq<Call>, turns: nat): Fifo {
    if turns == 0 then q
    else Offered(irq, Do(irq, Handled(irq, q, more, turns - 1), Handle), more(turns - 1))
  }

  /** Accepted calls stay accepted, and only turns of the handler run them. */
  lemma {:induction false} OfferedKeeps(irq: int, q: Fifo, calls: seq<Call>)
    ensures q.accepted <= Offered(irq, q, calls).accepted && Offered(irq, q, calls).done == q.done
    ensures calls == [] ==> Offered(irq, q, calls) == q
  {
    if calls != [] {
      OfferedKeeps(irq, q, calls[..|calls| - 1]);
    }
  }

  /** No queue ever holds more than 15 pending calls, and what has run has been accepted. */
  lemma {:induction false} NeverMoreThanFifteen(irq: int, ops: seq<Op>)
    ensures var q := After(irq, EMPTY_FIFO, ops); q.done <= |q.accepted| <= q.done + 15
  {
    if ops != [] {
      NeverMoreThanFifteen(irq, ops[..|ops| - 1]);
    }
  }

  // ---------------------------------------------------------------- the ring

  class PendQueue {
    const queue: array<Call>
    var head: nat
    var tail: nat
    var irq: int
    /** Calls accepted so far, and how many of them have run. */
    ghost var accepted: seq<Call>
    ghost var done: nat

    ghost function View(): Fifo
      reads this
    {
      Fifo(accepted, done)
    }

    ghost function Pending(): seq<Call>
      requires done <= |accepted|
      reads this
    {
      accepted[done..]
    }

    /** The calls still pending lie in the slots after `tail`, oldest first. */
    ghost predicate Valid()
      reads this, queue
    {
      && queue.Length == RT_PEND_TQ_SIZE
      && head < RT_PEND_TQ_SIZE && tail < RT_PEND_TQ_SIZE
      && done <= |accepted| && |Pending()| < RT_PEND_TQ_SIZE && head == Slot(tail, |Pending()|)
      && forall i | done <= i < |accepted| :: queue[Slot(tail, i - done + 1)] == accepted[i]
    }

    constructor (irq: int)
      ensures Valid() && accepted == [] && done == 0 && this.irq == irq
      ensures fresh(queue)
    {
      queue := new Call[RT_PEND_TQ_SIZE](_ => Call(0, 0, 0));
      head, tail, this.irq := 0, 0, irq;
      accepted, done := [], 0;
    }

    /** rt_pend_call: a call is refused exactly when 15 are pending, and a refusal changes nothing. */
    method PendCall(func: nat, arg1: int, arg2: nat) returns (ret: int)
      requires Valid()
      modifies this`head, this`accepted, queue
      ensures Valid()
      ensures ret == (if func == 0 then -EINVAL else if irq <= 0 then -ENODEV
                      else if |old(Pending())| == 15 then -EAGAIN else 0)
      ensures accepted == if ret == 0 then old(accepted) + [Call(func, arg1, arg2)] else old(accepted)
      ensures ret != 0 ==> head == old(head) && queue[..] == old(queue[..])
    {
      if func == 0 {
        return -EINVAL;
      }
      if irq <= 0 {
        return -ENODEV;
      }
      head := Inc(head);
      if head == tail {
        head := Dec(head);
        return -EAGAIN;
      }
      queue[head] := Call(func, arg1, arg2);
      accepted := accepted + [Call(func, arg1, arg2)];
      return 0;
    }

    /** One turn of rt_pend_irq_handler's loop: runs the oldest pending call. */
    method HandleOne() returns (ran: Call)
      requires Valid() && head != tail
      modifies this`tail, this`done
      ensures Valid() && done == old(done) + 1
      ensures ran == old(Pending())[0]
    {
      tail := Inc(tail);
      ran := queue[tail];
      done := done + 1;
    }

    /** rt_pend_irq_handler. The calls it makes may pend further ones: `more(k)` is what the k-th
        call made pends, and it eventually stops. Every call accepted before or meanwhile runs once, in
        order, and a call pended meanwhile is accepted as the queue accepts it. */
    method IrqHandler(more: nat -> seq<Call>, ghost last: nat) returns (ran: seq<Call>)
      requires Valid() && forall k | last <= k :: more(k) == []
      modifies this`head, this`tail, this`accepted, this`done, queue
      ensures Valid() && Pending() == []
      ensures View() == Handled(irq, old(View()), more, |ran|)
      ensures old(accepted) <= accepted && ran == accepted[old(done)..]
    {
      hide Offered, Do;
      ran := [];
      while head != tail
        invariant Valid() && old(accepted) <= accepted
        invariant done == old(done) + |ran| && ran == accepted[old(done)..done]
        invariant View() == Handled(irq, old(View()), more, |ran|)
        decreases if |ran| < last then last - |ran| else 0, |Pending()|
      {
        var call := OneTurn(more(|ran|));
        ran := ran + [call];
      }
    }

    /** One turn of the loop, when the call it makes pends `calls`. */
    method OneTurn(calls: seq<Call>) returns (ran: Call)
      requires Valid() && head != tail
      modifies this`head, this`tail, this`accepted, this`done, queue
      ensures Valid() && View() == Offered(irq, Do(irq, old(View()), Handle), calls)
      ensures old(accepted) <= accepted && done == old(done) + 1 <= |accepted| && ran == accepted[old(done)]
      ensures calls == [] ==> accepted == old(accepted)
    {
      hide Offered;
      ran := HandleOne();
      OfferedKeeps(irq, View(), calls);
      PendAll(calls);
    }

    /** What one call pends while it runs. */
    method PendAll(calls: seq<Call>)
      requires Valid()
      modifies this`head, this`accepted, queue
      ensures Valid() && View() == Offered(irq, old(View()), calls)
    {
      for i := 0 to |calls|
        invariant Valid() && View() == Offered(irq, old(View()), calls[..i])
      {
        assert calls[..i + 1][..i] == calls[..i];
        var _ := PendCall(calls[i].func, calls[i].arg1, calls[i].arg2);
      }
      assert calls[..|calls|] == calls;
    }
  }

  /** Any sequence of enqueues and handler steps on a fresh ring: the ring is the queue those make,
      and the calls run are the accepted ones, each once, in order, up to those still pending. */
  method Run(ops: seq<Op>, irq: int) returns (ran: seq<Call>, queue: PendQueue)
    ensures queue.Valid() && queue.View() == After(irq, EMPTY_FIFO, ops)
    ensures ran == queue.accepted[..queue.done] && queue.accepted == ran + queue.Pending()
    ensures |queue.Pending()| <= 15
  {
    queue := new PendQueue(irq);
    ran := [];
    for i := 0 to |ops|
      invariant queue.Valid() && fresh(queue) && fresh(queue.queue) && queue.irq == irq
      invariant queue.View() == After(irq, EMPTY_FIFO, ops[..i])
      invariant queue.done == |ran| && ran == queue.accepted[..|ran|]
    {
      assert ops[..i + 1][..i] == ops[..i];
      match ops[i] {
        case Enqueue(call) =>
          var _ := queue.PendCall(call.func, call.arg1, call.arg2);
        case Handle =>
          if queue.head != queue.tail {
            var call := queue.HandleOne();
            ran := ran + [call];
          }
      }
    }
    assert ops[..|ops|] == ops;
  }
}
