/** LF_QUEUE against Lock_Queue: run the same operations on both, and they
    give the same replies, the ones the sequence semantics prescribes. */
module Refinement {
  import Fifo
  import Locking
  import LockFree

  /** No operation enqueues the "empty" marker; the benchmark driver only
      enqueues 0, 1, 2, ... (study.cpp:160-165). */
  predicate NoMarkerEnqueued(ops: seq<Fifo.Op>)
  {
    forall i :: 0 <= i < |ops| ==> ops[i].EnqueueOp? ==> ops[i].x != Fifo.Empty
  }

  /** One operation on both queues, which hold the same contents. */
  method ApplyBoth(lf: LockFree.LFQueue, lk: Locking.LockQueue, op: Fifo.Op)
    returns (lfReply: seq<int>, lockReply: seq<int>)
    requires lf.Valid() && lk !in lf.Repr
    requires lf.contents == lk.q && Fifo.Empty !in lk.q
    requires op.EnqueueOp? ==> op.x != Fifo.Empty
    modifies lf.Repr, lk
    ensures lf.Valid() && fresh(lf.Repr - old(lf.Repr)) && lk !in lf.Repr
    ensures lf.contents == lk.q == Fifo.Step(op, old(lk.q)).1
    ensures Fifo.Empty !in lk.q
    ensures lfReply == lockReply == Fifo.Step(op, old(lk.q)).0
  {
    match op {
      case EnqueueOp(x) =>
        EnqueueBoth(lf, lk, x);
        lfReply, lockReply := [], [];
      case DequeueOp =>
        var a, b := DequeueBoth(lf, lk);
        lfReply, lockReply := [a], [b];
      case ClearOp =>
        ClearBoth(lf, lk);
        lfReply, lockReply := [], [];
      case Print20Op =>
        lfReply, lockReply := Print20Both(lf, lk);
    }
  }

  /** Enqueue(x) on both queues. */
  method EnqueueBoth(lf: LockFree.LFQueue, lk: Locking.LockQueue, x: int)
    requires lf.Valid() && lk !in lf.Repr
    requires lf.contents == lk.q && Fifo.Empty !in lk.q && x != Fifo.Empty
    modifies lf.Repr, lk
    ensures lf.Valid() && fresh(lf.Repr - old(lf.Repr)) && lk !in lf.Repr
    ensures lf.contents == lk.q == old(lk.q) + [x]
    ensures Fifo.Empty !in lk.q
  {
    lf.Enqueue(x);
    lk.Enqueue(x);
  }

  /** Dequeue on both queues: the same value comes back from each. */
  method DequeueBoth(lf: LockFree.LFQueue, lk: Locking.LockQueue) returns (a: int, b: int)
    requires lf.Valid() && lk !in lf.Repr
    requires lf.contents == lk.q && Fifo.Empty !in lk.q
    modifies lf.Repr, lk
    ensures lf.Valid() && lf.Repr == old(lf.Repr) && lk !in lf.Repr
    ensures (a, lf.contents) == (b, lk.q) == Fifo.Dequeue(old(lk.q))
    ensures Fifo.Empty !in lk.q
  {
    a := lf.Dequeue();
    b := lk.Dequeue();
  }

  /** Clear on both queues: with no stored -1 both end empty. */
  method ClearBoth(lf: LockFree.LFQueue, lk: Locking.LockQueue)
    requires lf.Valid() && lk !in lf.Repr
    requires lf.contents == lk.q && Fifo.Empty !in lk.q
    modifies lf.Repr, lk
    ensures lf.Valid() && lf.Repr == old(lf.Repr) && lk !in lf.Repr
    ensures lf.contents == lk.q == []
  {
    lf.Clear();
    lk.Clear();
  }

  /** Print20 on both queues: both report the same values. */
  method Print20Both(lf: LockFree.LFQueue, lk: Locking.LockQueue) returns (a: seq<int>, b: seq<int>)
    requires lf.Valid() && lk !in lf.Repr
    requires lf.contents == lk.q && Fifo.Empty !in lk.q
    modifies lf.Repr, lk
    ensures lf.Valid() && lf.Repr == old(lf.Repr) && lk !in lf.Repr
    ensures (a, lf.contents) == (b, lk.q) == Fifo.Drain(old(lk.q), Fifo.PrintLimit)
    ensures Fifo.Empty !in lk.q
  {
    Fifo.DrainTakesPrefix(lk.q, Fifo.PrintLimit);
    a := lf.Print20();
    b := lk.Print20();
  }

  /** Runs `ops` on a fresh LF_QUEUE and a fresh Lock_Queue, collecting the
      values each Dequeue returns and each Print20 would print. */
  method Replay(ops: seq<Fifo.Op>) returns (lfReplies: seq<int>, lockReplies: seq<int>)
    requires NoMarkerEnqueued(ops)
    ensures lfReplies == lockReplies == Fifo.Run(ops, []).0
  {
    var lk := new Locking.LockQueue();
    var lf := new LockFree.LFQueue();
    lfReplies, lockReplies := [], [];
    var i := 0;
    while i < |ops|
      invariant 0 <= i <= |ops|
      invariant lf.Valid() && fresh(lf.Repr) && lk !in lf.Repr
      invariant lf.contents == lk.q == Fifo.Run(ops[..i], []).1
      invariant Fifo.Empty !in lk.q
      invariant lfReplies == lockReplies == Fifo.Run(ops[..i], []).0
    {
      Fifo.RunAppend(ops[..i], [ops[i]], []);
      Fifo.RunSingle(ops[i], lk.q);
      assert ops[..i + 1] == ops[..i] + [ops[i]];
      var a, b := ApplyBoth(lf, lk, ops[i]);
      lfReplies, lockReplies := lfReplies + a, lockReplies + b;
      i := i + 1;
    }
    assert ops[..|ops|] == ops;
  }

  /** Enqueue 10, Enqueue 20, Dequeue, Enqueue 30, Dequeue, Dequeue,
      Dequeue on a fresh LF_QUEUE. */
  method Scenario() returns (replies: seq<int>)
    ensures replies == [10, 20, 30, Fifo.Empty]
  {
    var q := new LockFree.LFQueue();
    q.Enqueue(10);
    q.Enqueue(20);
    var a := q.Dequeue();
    q.Enqueue(30);
    var b := q.Dequeue();
    var c := q.Dequeue();
    var d := q.Dequeue();
    replies := [a, b, c, d];
  }
}
