/** The sequence semantics shared by both queues of Project1/study.cpp:
    a FIFO of ints in which -1 is returned by Dequeue on an empty queue.
    Lock_Queue (study.cpp:12-45) implements it directly over a std::queue;
    LF_QUEUE (study.cpp:84-148) is proved to behave the same way on its
    ghost contents as long as -1 is never enqueued (with a stored -1,
    LF_QUEUE's Clear stops early). */
module Fifo {

  /** The "empty" marker: what Dequeue returns on an empty queue, and the
      key of the dummy node LF_QUEUE is constructed with. */
  const Empty: int := -1

  /** How many values Print20 removes at most. */
  const PrintLimit: nat := 20

  /** One Dequeue on contents `s`: the value returned and the contents left. */
  function Dequeue(s: seq<int>): (r: (int, seq<int>))
  {
    if s == [] then (Empty, []) else (s[0], s[1..])
  }

  /** LF_QUEUE::Clear: Dequeue until a Dequeue returns Empty; yields what is left. */
  function ClearToEmpty(s: seq<int>): (left: seq<int>)
    decreases |s|
  {
    var d := Dequeue(s);
    if d.0 == Empty then d.1 else ClearToEmpty(d.1)
  }

  /** Print20 with limit `n`: at most `n` Dequeues, stopping at the first
      Empty; yields the values reported and the contents left. */
  function Drain(s: seq<int>, n: nat): (r: (seq<int>, seq<int>))
    decreases n
  {
    if n == 0 then ([], s)
    else
      var d := Dequeue(s);
      if d.0 == Empty then ([], d.1)
      else
        var rest := Drain(d.1, n - 1);
        ([d.0] + rest.0, rest.1)
  }

  /** One round of a Drain in progress: `whole` is what the Drain reports
      when `printed` is already out and `n` rounds remain on contents `s`.
      The next Dequeue either ends the Drain or moves its value to `printed`. */
  lemma DrainStep(whole: (seq<int>, seq<int>), printed: seq<int>, s: seq<int>, n: nat)
    requires n > 0 && whole == (printed + Drain(s, n).0, Drain(s, n).1)
    ensures Dequeue(s).0 == Empty ==> whole == (printed, Dequeue(s).1)
    ensures Dequeue(s).0 != Empty ==>
      whole == (printed + [Dequeue(s).0] + Drain(Dequeue(s).1, n - 1).0, Drain(Dequeue(s).1, n - 1).1)
  {
    var d := Dequeue(s);
    var rest := Drain(d.1, n - 1);
    if d.0 == Empty {
      assert printed + [] == printed;
    } else {
      assert printed + ([d.0] + rest.0) == printed + [d.0] + rest.0;
    }
  }

  function Min(a: nat, b: nat): (m: nat)
  {
    if a <= b then a else b
  }

  /** Dequeue takes the oldest value, and the value just enqueued is
      reached only once everything before it is gone. */
  lemma DequeueAfterEnqueue(s: seq<int>, x: int)
    ensures Dequeue(s + [x]) == if s == [] then (x, []) else (s[0], Dequeue(s).1 + [x])
  {
    if s == [] {
      assert s + [x] == [x];
      assert [x][1..] == [];
    } else {
      assert (s + [x])[0] == s[0];
      assert (s + [x])[1..] == s[1..] + [x];
    }
  }

  /** With no stored Empty, Clear leaves nothing behind. */
  lemma {:induction false} ClearToEmptyEmpties(s: seq<int>)
    requires Empty !in s
    ensures ClearToEmpty(s) == []
    decreases |s|
  {
    if s != [] {
      assert s[1..] == Dequeue(s).1;
      assert forall v :: v in s[1..] ==> v in s;
      ClearToEmptyEmpties(s[1..]);
    }
  }

  /** A stored Empty at index k is mistaken for the empty result: Clear
      consumes it and stops, leaving everything after it. */
  lemma {:induction false} ClearToEmptyStopsAtSentinel(s: seq<int>, k: nat)
    requires k < |s| && s[k] == Empty && Empty !in s[..k]
    ensures ClearToEmpty(s) == s[k + 1..]
    decreases k
  {
    if k > 0 {
      assert s[0] in s[..k];
      assert s[1..][..k - 1] == s[1..k];
      assert forall v :: v in s[1..k] ==> v in s[..k];
      assert s[1..][k - 1 + 1..] == s[k + 1..];
      ClearToEmptyStopsAtSentinel(s[1..], k - 1);
    }
  }

  /** With no Empty among the first n values, Drain reports the first
      min(n, |s|) values in FIFO order and leaves the rest. */
  lemma {:induction false} DrainTakesPrefix(s: seq<int>, n: nat)
    requires Empty !in s[..Min(n, |s|)]
    ensures Drain(s, n) == (s[..Min(n, |s|)], s[Min(n, |s|)..])
    decreases n
  {
    if n > 0 && s != [] {
      var m := Min(n, |s|);
      assert s[0] in s[..m];
      assert s[1..][..Min(n - 1, |s| - 1)] == s[1..m];
      assert forall v :: v in s[1..m] ==> v in s[..m];
      DrainTakesPrefix(s[1..], n - 1);
      assert [s[0]] + s[1..m] == s[..m];
      assert s[1..][Min(n - 1, |s| - 1)..] == s[m..];
    }
  }

  /** A stored Empty at index k < n ends Drain there: the values before it
      are reported, and it is consumed too. */
  lemma {:induction false} DrainStopsAtSentinel(s: seq<int>, n: nat, k: nat)
    requires k < n && k < |s| && s[k] == Empty && Empty !in s[..k]
    ensures Drain(s, n) == (s[..k], s[k + 1..])
    decreases k
  {
    if k > 0 {
      assert s[0] in s[..k];
      assert s[1..][..k - 1] == s[1..k];
      assert forall v :: v in s[1..k] ==> v in s[..k];
      DrainStopsAtSentinel(s[1..], n - 1, k - 1);
      assert [s[0]] + s[1..k] == s[..k];
      assert s[1..][k - 1 + 1..] == s[k + 1..];
    }
  }

  /** The operations a client issues on either queue. */
  datatype Op = EnqueueOp(x: int) | DequeueOp | ClearOp | Print20Op

  /** Lock_Queue's replies to one operation and its contents afterwards. */
  function Step(op: Op, s: seq<int>): (r: (seq<int>, seq<int>))
  {
    match op
    case EnqueueOp(x) => ([], s + [x])
    case DequeueOp => var d := Dequeue(s); ([d.0], d.1)
    case ClearOp => ([], [])
    case Print20Op => Drain(s, PrintLimit)
  }

  /** The replies to a run of operations from contents `s`, one after the
      other, and the contents at the end. */
  function Run(ops: seq<Op>, s: seq<int>): (r: (seq<int>, seq<int>))
    decreases |ops|
  {
    if ops == [] then ([], s)
    else
      var first := Step(ops[0], s);
      var rest := Run(ops[1..], first.1);
      (first.0 + rest.0, rest.1)
  }

  /** Running `a` then `b` is running `b` from where `a` left off. */
  lemma {:induction false} RunAppend(a: seq<Op>, b: seq<Op>, s: seq<int>)
    ensures Run(a + b, s).0 == Run(a, s).0 + Run(b, Run(a, s).1).0
    ensures Run(a + b, s).1 == Run(b, Run(a, s).1).1
    decreases |a|
  {
    var ab := a + b;
    if a == [] {
      assert ab == b;
    } else {
      assert ab[0] == a[0] && ab[1..] == a[1..] + b;
      var first := Step(a[0], s);
      RunAppend(a[1..], b, first.1);
      var tail := Run(a[1..], first.1);
      var last := Run(b, tail.1);
      assert Run(ab[1..], first.1) == (tail.0 + last.0, last.1);
      assert first.0 + (tail.0 + last.0) == first.0 + tail.0 + last.0;
    }
  }

  function Enqueues(vs: seq<int>): (ops: seq<Op>)
    decreases |vs|
  {
    if vs == [] then [] else [EnqueueOp(vs[0])] + Enqueues(vs[1..])
  }

  function Dequeues(n: nat): (ops: seq<Op>)
    decreases n
  {
    if n == 0 then [] else [DequeueOp] + Dequeues(n - 1)
  }

  /** Enqueues append their values in order and reply nothing. */
  lemma {:induction false} RunEnqueues(vs: seq<int>, s: seq<int>)
    ensures Run(Enqueues(vs), s) == ([], s + vs)
    decreases |vs|
  {
    if vs == [] {
      assert s + vs == s;
    } else {
      var ops := Enqueues(vs);
      assert ops[1..] == Enqueues(vs[1..]);
      RunEnqueues(vs[1..], s + [vs[0]]);
      assert s + [vs[0]] + vs[1..] == s + vs;
      var none: seq<int> := [];
      assert none + none == none;
    }
  }

  /** |s| Dequeues reply with the contents s, oldest first, and empty it. */
  lemma {:induction false} RunDequeues(s: seq<int>)
    ensures Run(Dequeues(|s|), s) == (s, [])
    decreases |s|
  {
    if s != [] {
      RunDequeues(s[1..]);
      assert [s[0]] + s[1..] == s;
    }
  }

  /** The FIFO property: N Enqueues of v1..vN on an empty queue followed by
      N Dequeues reply v1..vN exactly and leave the queue empty. */
  lemma FifoOrder(vs: seq<int>)
    ensures Run(Enqueues(vs) + Dequeues(|vs|), []) == (vs, [])
  {
    var enq, deq := Enqueues(vs), Dequeues(|vs|);
    RunEnqueues(vs, []);
    assert [] + vs == vs;
    RunDequeues(vs);
    RunAppend(enq, deq, []);
  }

  /** Empty-on-empty: one Dequeue more than was enqueued replies Empty. */
  lemma FifoThenEmpty(vs: seq<int>)
    ensures Run(Enqueues(vs) + Dequeues(|vs| + 1), []) == (vs + [Empty], [])
  {
    var drained := Enqueues(vs) + Dequeues(|vs|);
    var ops := drained + [DequeueOp];
    DequeuesSnoc(|vs|);
    assert Enqueues(vs) + Dequeues(|vs| + 1) == ops;
    FifoOrder(vs);
    RunAppend(drained, [DequeueOp], []);
    RunSingle(DequeueOp, []);
  }

  lemma RunSingle(op: Op, s: seq<int>)
    ensures Run([op], s) == Step(op, s)
  {
    assert [op][1..] == [];
    assert Step(op, s).0 + [] == Step(op, s).0;
  }

  lemma {:induction false} DequeuesSnoc(n: nat)
    ensures Dequeues(n + 1) == Dequeues(n) + [DequeueOp]
    decreases n
  {
    if n > 0 {
      DequeuesSnoc(n - 1);
    }
  }
}
