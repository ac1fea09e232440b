/** LF_QUEUE (Project1/study.cpp:77-148), the Michael-Scott queue of
    Michael and Scott (PODC 1996), run by a single thread. The list of NODE
    cells starts at a dummy node that `head` points at; the keys after it
    are the contents, oldest first; `tail` points at the last node or lags
    behind it. After construction, every write to `head`, `tail` or a
    node's `next` goes through the compare-and-set CAS. */
module LockFree {
  import Fifo

  /** NODE: a key and a next pointer, null when constructed. */
  class Node {
    const key: int
    var next: Node?

    constructor (x: int)
      ensures key == x && next == null
    {
      key := x;
      next := null;
    }
  }

  /** The pointer fields CAS is applied to: `&head`, `&tail` and
      `&node->next`. */
  datatype Loc = HeadPtr | TailPtr | NextPtr(node: Node)
  {
    /** The objects whose fields a write through this location touches
        besides the queue's own head and tail. */
    function Objects(): (objs: set<object>)
    {
      if NextPtr? then {node} else {}
    }
  }

  /** `a` is what is left of `b` after dropping some nodes from its front. */
  ghost predicate IsSuffixOf<T>(a: seq<T>, b: seq<T>)
  {
    |a| <= |b| && a == b[|b| - |a|..]
  }

  lemma SuffixOfSuffix<T>(a: seq<T>, b: seq<T>, c: seq<T>)
    requires IsSuffixOf(a, b) && IsSuffixOf(b, c)
    ensures IsSuffixOf(a, c)
  {
    assert c[|c| - |b|..][|b| - |a|..] == c[|c| - |a|..];
  }

  class LFQueue {
    var head: Node
    var tail: Node

    /** The nodes from `head` to the last node, in list order. */
    ghost var spine: seq<Node>
    /** The keys after the dummy node: the queue's logical contents. */
    ghost var contents: seq<int>
    /** Where `tail` sits in `spine`. */
    ghost var tailAt: nat
    /** Every object the queue has used, retired dummies included. */
    ghost var Repr: set<object>

    /** The list from `head` is exactly `spine`, ends in null, has no
        repeated node, `tail` is on it, and the keys after the dummy are
        `contents`. */
    ghost predicate Valid()
      reads this, Repr
    {
      this in Repr &&
      (forall i :: 0 <= i < |spine| ==> spine[i] in Repr) &&
      |spine| == |contents| + 1 &&
      spine[0] == head &&
      tailAt < |spine| && spine[tailAt] == tail &&
      (forall i :: 0 <= i < |spine| - 1 ==> spine[i].next == spine[i + 1]) &&
      spine[|spine| - 1].next == null &&
      (forall i, j :: 0 <= i < j < |spine| ==> spine[i] != spine[j]) &&
      (forall i :: 0 <= i < |contents| ==> contents[i] == spine[i + 1].key)
    }

    /** How many nodes `tail` is behind the last node: the measure of the
        retry loops. */
    ghost function Lag(): (lag: nat)
      reads this, Repr
      requires Valid()
    {
      |spine| - 1 - tailAt
    }

    /** Only the last node of a valid list has a null next. */
    lemma NullNextIsLast(k: nat)
      requires Valid() && k < |spine| && spine[k].next == null
      ensures k == |spine| - 1
    {
      if k < |spine| - 1 {
        LinkedBeforeLast(k);
        assert false;
      }
    }

    lemma LinkedBeforeLast(k: nat)
      requires Valid() && k < |spine| - 1
      ensures spine[k].next != null
    {
      assert spine[k].next == spine[k + 1];
    }

    /** LF_QUEUE(): head and tail both at a fresh dummy with key -1. */
    constructor ()
      ensures Valid() && fresh(Repr)
      ensures head == tail && head.key == Fifo.Empty && head.next == null
      ensures spine == [head] && contents == [] && Lag() == 0
    {
      var dummy := new Node(Fifo.Empty);
      head, tail := dummy, dummy;
      spine, contents, tailAt := [dummy], [], 0;
      Repr := {this, dummy};
    }

    /** The pointer stored at `loc`. */
    function Load(loc: Loc): (p: Node?)
      reads this, loc.Objects()
    {
      match loc
      case HeadPtr => head
      case TailPtr => tail
      case NextPtr(n) => n.next
    }

    /** CAS: writes `desired` at `loc` exactly when it holds `expected`,
        and says whether it wrote; nothing else changes. */
    method Cas(loc: Loc, expected: Node?, desired: Node) returns (ok: bool)
      modifies this`head, this`tail, loc.Objects()
      ensures ok <==> old(Load(loc)) == expected
      ensures Load(loc) == if ok then desired else old(Load(loc))
      ensures !loc.HeadPtr? ==> head == old(head)
      ensures !loc.TailPtr? ==> tail == old(tail)
    {
      match loc
      case HeadPtr =>
        ok := head == expected;
        if ok { head := desired; }
      case TailPtr =>
        ok := tail == expected;
        if ok { tail := desired; }
      case NextPtr(n) =>
        ok := n.next == expected;
        if ok { n.next := desired; }
    }

    /** CAS(&tail, last, next) where `last` is the tail just read and `next`
        its successor: the helping step of a lagging tail, and the swing of
        the tail onto a node just linked. */
    method AdvanceTail(last: Node, next: Node)
      requires Valid()
      requires last == tail && last.next == next
      modifies this`head, this`tail, this`tailAt
      ensures Valid() && head == old(head)
      ensures tail == next && tailAt == old(tailAt) + 1
      ensures Lag() == old(Lag()) - 1
    {
      var moved := Cas(TailPtr, last, next);
      if moved {
        tailAt := tailAt + 1;
      }
    }

    /** CAS(&last->next, NULL, node) on the last node: succeeds, and the
        list grows by `node` at its end. */
    method LinkLast(last: Node, node: Node) returns (linked: bool)
      requires Valid()
      requires last == spine[|spine| - 1] && node !in Repr && node.next == null
      modifies this`head, this`tail, this`spine, this`contents, this`Repr, last
      ensures linked <==> old(last.next) == null
      ensures Valid() && head == old(head) && tail == old(tail) && tailAt == old(tailAt)
      ensures spine == old(spine) + [node] && contents == old(contents) + [node.key]
      ensures Repr == old(Repr) + {node}
    {
      linked := Cas(NextPtr(last), null, node);
      spine, contents := spine + [node], contents + [node.key];
      Repr := Repr + {node};
    }

    /** Links a fresh node carrying `x` after the last node and swings the
        tail onto it, first helping a lagging tail forward. */
    method Enqueue(x: int)
      requires Valid()
      modifies this, spine[|spine| - 1]
      ensures Valid() && fresh(Repr - old(Repr))
      ensures contents == old(contents) + [x]
      ensures head == old(head)
      ensures |spine| == |old(spine)| + 1 && spine[..|old(spine)|] == old(spine)
      ensures fresh(spine[|spine| - 1]) && tail == spine[|spine| - 1] && tail.next == null
      ensures Lag() == 0
    {
      var n := new Node(x);
      while true
        invariant Valid() && Repr == old(Repr)
        invariant head == old(head) && spine == old(spine) && contents == old(contents)
        invariant fresh(n) && n.key == x && n.next == null
        decreases Lag()
      {
        var last := tail;
        var next := last.next;
        if last != tail {
          continue;
        }
        if next != null {
          AdvanceTail(last, next);
          continue;
        }
        NullNextIsLast(tailAt);
        var linked := LinkLast(last, n);
        if linked {
          AdvanceTail(last, n);
          return;
        }
      }
    }

    /** Unlinks the dummy and returns the key of its successor, which
        becomes the new dummy; returns -1, changing nothing, when there is
        no successor. A tail still on the dummy is first helped forward. */
    method Dequeue() returns (v: int)
      requires Valid()
      modifies this
      ensures Valid() && Repr == old(Repr)
      ensures (v, contents) == Fifo.Dequeue(old(contents))
      ensures old(contents) == [] ==>
        v == Fifo.Empty && head == old(head) && tail == old(tail) && spine == old(spine) && tailAt == old(tailAt)
      ensures old(contents) != [] ==>
        head == old(head.next) && spine == old(spine)[1..] &&
        tail == (if old(tail) == old(head) then old(head.next) else old(tail))
      ensures IsSuffixOf(spine, old(spine))
      ensures Lag() <= old(Lag())
    {
      while true
        invariant Valid() && Repr == old(Repr)
        invariant head == old(head) && spine == old(spine) && contents == old(contents)
        invariant (tail == old(tail) && tailAt == old(tailAt)) ||
                  (old(tail) == old(head) && tail == old(head.next) && tailAt == old(tailAt) + 1)
        invariant Lag() <= old(Lag())
        decreases Lag()
      {
        var first := head;
        var last := tail;
        var next := first.next;
        if first != head {
          continue;
        }
        if next == null {
          return Fifo.Empty;
        }
        if first == last {
          AdvanceTail(last, next);
          continue;
        }
        var value := next.key;
        var swung := Cas(HeadPtr, first, next);
        if !swung {
          continue;
        }
        spine, contents, tailAt := spine[1..], contents[1..], tailAt - 1;
        return value;
      }
    }

    /** Dequeues until a Dequeue returns -1. */
    method Clear()
      requires Valid()
      modifies this
      ensures Valid() && Repr == old(Repr)
      ensures contents == Fifo.ClearToEmpty(old(contents))
      ensures Fifo.Empty !in old(contents) ==> contents == []
      ensures IsSuffixOf(spine, old(spine))
      ensures Lag() <= old(Lag())
    {
      while true
        invariant Valid() && Repr == old(Repr)
        invariant Fifo.ClearToEmpty(contents) == Fifo.ClearToEmpty(old(contents))
        invariant IsSuffixOf(spine, old(spine))
        invariant Lag() <= old(Lag())
        decreases |contents|
      {
        ghost var before := spine;
        var v := Dequeue();
        SuffixOfSuffix(spine, before, old(spine));
        if v == Fifo.Empty {
          break;
        }
      }
      if Fifo.Empty !in old(contents) {
        Fifo.ClearToEmptyEmpties(old(contents));
      }
    }

    /** Dequeues up to 20 values, stopping at the first -1; the values that
        would be printed are returned instead. */
    method Print20() returns (printed: seq<int>)
      requires Valid()
      modifies this
      ensures Valid() && Repr == old(Repr)
      ensures (printed, contents) == Fifo.Drain(old(contents), Fifo.PrintLimit)
      ensures IsSuffixOf(spine, old(spine))
      ensures Lag() <= old(Lag())
    {
      printed := [];
      var i := 0;
      assert printed + Fifo.Drain(contents, Fifo.PrintLimit).0 == Fifo.Drain(contents, Fifo.PrintLimit).0;
      while i < Fifo.PrintLimit
        invariant 0 <= i <= Fifo.PrintLimit
        invariant Valid() && Repr == old(Repr)
        invariant IsSuffixOf(spine, old(spine))
        invariant Lag() <= old(Lag())
        invariant Fifo.Drain(old(contents), Fifo.PrintLimit)
               == (printed + Fifo.Drain(contents, Fifo.PrintLimit - i).0, Fifo.Drain(contents, Fifo.PrintLimit - i).1)
      {
        ghost var before, beforeSpine := contents, spine;
        var v := Dequeue();
        SuffixOfSuffix(spine, beforeSpine, old(spine));
        Fifo.DrainStep(Fifo.Drain(old(contents), Fifo.PrintLimit), printed, before, Fifo.PrintLimit - i);
        if v == Fifo.Empty {
          return;
        }
        printed := printed + [v];
        i := i + 1;
      }
      assert printed + [] == printed;
    }
  }
}
