/** Lock_Queue (Project1/study.cpp:12-45): a std::queue<int> guarded by a
    mutex. Only its sequence behaviour is modelled; the mutex is left out. */
module Locking {
  import Fifo

  class LockQueue {
    /** The std::queue, front first. */
    var q: seq<int>

    constructor ()
      ensures q == []
    {
      q := [];
    }

    method Enqueue(x: int)
      modifies this
      ensures q == old(q) + [x]
    {
      q := q + [x];
    }

    /** Returns the front value and pops it, or Empty on an empty queue. */
    method Dequeue() returns (v: int)
      modifies this
      ensures (v, q) == Fifo.Dequeue(old(q))
      ensures old(q) == [] ==> v == Fifo.Empty && q == []
      ensures old(q) != [] ==> v == old(q)[0] && q == old(q)[1..]
    {
      if q == [] {
        return Fifo.Empty;
      }
      v := q[0];
      q := q[1..];
    }

    /** Pops until the queue is empty, whatever it holds. */
    method Clear()
      modifies this
      ensures q == []
    {
      while q != []
        decreases |q|
      {
        q := q[1..];
      }
    }

    /** Dequeues up to 20 values, stopping at the first Empty; the values
        that would be printed are returned instead. */
    method Print20() returns (printed: seq<int>)
      modifies this
      ensures (printed, q) == Fifo.Drain(old(q), Fifo.PrintLimit)
    {
      printed := [];
      var i := 0;
      assert printed + Fifo.Drain(q, Fifo.PrintLimit).0 == Fifo.Drain(q, Fifo.PrintLimit).0;
      while i < Fifo.PrintLimit
        invariant 0 <= i <= Fifo.PrintLimit
        invariant Fifo.Drain(old(q), Fifo.PrintLimit)
               == (printed + Fifo.Drain(q, Fifo.PrintLimit - i).0, Fifo.Drain(q, Fifo.PrintLimit - i).1)
      {
        Fifo.DrainStep(Fifo.Drain(old(q), Fifo.PrintLimit), printed, q, Fifo.PrintLimit - i);
        var v := Dequeue();
        if v == Fifo.Empty {
          return;
        }
        printed := printed + [v];
        i := i + 1;
      }
      assert printed + [] == printed;
    }
  }
}
