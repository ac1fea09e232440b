# LF_QUEUE, sequentially, against Lock_Queue

This project models `LF_QUEUE` from `Project1/study.cpp` as run by one thread. `LF_QUEUE` is a lock-free FIFO of `int` in the style of the Michael–Scott queue (Michael and Scott, PODC 1996). It is a singly-linked list of `NODE` cells. `head` always points at a dummy node. The keys after the dummy, up to the null `next`, are the queue's contents, oldest first. `tail` points at the last node or lags behind it. `-1` is the "empty" marker. It is returned by `Dequeue` on an empty queue and is also the key of the dummy the queue is constructed with. After construction, every write to `head`, `tail` or a node's `next` goes through the compare-and-set `CAS`.

The reference is `Lock_Queue` from the same file: a `std::queue<int>` that returns `-1` when empty.

- `fifo.dfy` (module `Fifo`) gives `Lock_Queue`'s semantics as functions on `seq<int>`: `Dequeue`, `ClearToEmpty` (dequeue until `-1` comes back), `Drain` (`Print20`), `Step` and `Run`. It also holds the lemmas about them.
- `lock_queue.dfy` (module `Locking`) holds class `LockQueue`. Its field `q: seq<int>` stands for the `std::queue`, and each method is proved against `Fifo`.
- `lf_queue.dfy` (module `LockFree`) holds class `Node` and class `LFQueue`. `LFQueue` has the real fields `head` and `tail`, plus four ghost fields:
  - `spine`: the nodes from `head` to the last node;
  - `contents`: the keys of `spine[1..]`;
  - `tailAt`: where `tail` sits in `spine`;
  - `Repr`: every object the queue has used.

  `Valid()` ties them together:
  - `head` is `spine[0]`;
  - each `next` is the following spine node, and the last one's `next` is null;
  - no node repeats;
  - `tail` is `spine[tailAt]`;
  - `contents` holds the keys after the dummy.

  `Cas` is one method over a location datatype `Loc = HeadPtr | TailPtr | NextPtr(node)`, standing for `&head`, `&tail` and `&node->next`. The `while (true)` retry loops of `Enqueue` and `Dequeue` are kept. That includes the re-check branches and the branches that help a lagging tail. The loops are proved to terminate by `Lag()`, the number of nodes between `tail` and the last node. A freshly constructed queue has no lag. `Enqueue` leaves none, and `Dequeue`, `Clear` and `Print20` never increase it. So the helping branches fire only from the lagging states that `Valid()` allows, which are the states other threads would leave behind.
- `refinement.dfy` (module `Refinement`) runs any sequence of operations on a fresh `LFQueue` and a fresh `LockQueue` side by side. It proves both give the replies `Fifo.Run` prescribes. It also holds the concrete scenario with Enqueue 10, 20, 30 interleaved with Dequeues.

`LF_QUEUE::Clear` and `Lock_Queue::Clear` are not the same operation. `LF_QUEUE::Clear` (study.cpp:92-95) dequeues until a `Dequeue` returns `-1`. A stored `-1` therefore stops it early and leaves the later values in the queue (`Fifo.ClearToEmptyStopsAtSentinel`). `Lock_Queue::Clear` (study.cpp:33-35) always empties the queue. The two agree whenever `-1` was never enqueued (`Fifo.ClearToEmptyEmpties`). That holds for the only caller, which enqueues 0, 1, 2, … (study.cpp:160-165). So `Refinement.Replay` requires it.

## Model

| member | source | states |
|---|---|---|
| `Fifo.DequeueAfterEnqueue` | Project1/study.cpp:16-31 | Dequeue after Enqueue(x) returns x and leaves the queue empty when the queue was empty; otherwise it returns the old front, and x stays at the back |
| `Fifo.ClearToEmptyEmpties` | Project1/study.cpp:92-95 | when no stored key is -1, LF_QUEUE's Clear leaves the contents empty |
| `Fifo.ClearToEmptyStopsAtSentinel` | Project1/study.cpp:92-95 | the first stored -1, at index k, makes Clear stop there: it consumes s[..k+1] and leaves s[k+1..] |
| `Fifo.DrainTakesPrefix` | Project1/study.cpp:139-147 | with no -1 among the first min(20, length of s) values, Print20 reports exactly those values in FIFO order and leaves the rest of the queue |
| `Fifo.DrainStopsAtSentinel` | Project1/study.cpp:139-147 | the first stored -1, at index k < 20, ends Print20: it reports s[..k], and the -1 is consumed too |
| `Fifo.RunAppend` | Project1/study.cpp:12-45 | running two operation sequences one after the other gives the concatenated replies, with the second run starting from the contents the first left |
| `Fifo.RunEnqueues` | Project1/study.cpp:16-20 | a run of Enqueues appends the values in order and replies nothing |
| `Fifo.RunDequeues` | Project1/study.cpp:21-31 | length-of-s Dequeues reply with s, oldest first, and leave the queue empty |
| `Fifo.FifoOrder` | Project1/study.cpp:16-31 | FIFO: N Enqueues of v1..vN on an empty queue, then N Dequeues, reply v1..vN and leave the queue empty |
| `Fifo.FifoThenEmpty` | Project1/study.cpp:21-26 | one Dequeue more than was enqueued replies -1 |
| `Locking.LockQueue.constructor` | Project1/study.cpp:12-13 | a new Lock_Queue is empty |
| `Locking.LockQueue.Enqueue` | Project1/study.cpp:16-20 | push appends x at the back |
| `Locking.LockQueue.Dequeue` | Project1/study.cpp:21-31 | returns -1 and changes nothing when empty; otherwise returns the front and removes it |
| `Locking.LockQueue.Clear` | Project1/study.cpp:33-35 | pops until the queue is empty, whatever it holds |
| `Locking.LockQueue.Print20` | Project1/study.cpp:37-44 | returns the values Drain(q, 20) reports, and leaves what Drain leaves |
| `LockFree.Node.constructor` | Project1/study.cpp:77-82 | a new node carries its key, and its next is null |
| `LockFree.LFQueue.constructor` | Project1/study.cpp:88-91 | head == tail, at one fresh dummy with key -1 and null next; the queue is valid with empty contents and no tail lag |
| `LockFree.LFQueue.Cas` | Project1/study.cpp:96-103 | returns true exactly when the location held the expected pointer; it then holds the new one; otherwise nothing changes, and no other location changes either way |
| `LockFree.LFQueue.AdvanceTail` | Project1/study.cpp:111-113 | the helping CAS(&tail, last, next) moves tail exactly one node along the list; head and contents are unchanged, the queue stays valid, and the lag measure drops by one |
| `LockFree.LFQueue.NullNextIsLast` | Project1/study.cpp:109-115 | in a valid list a node whose next is null is the last node, so the enqueuing CAS on it links after the true end |
| `LockFree.LFQueue.LinkedBeforeLast` | Project1/study.cpp:108-113 | in a valid list every node before the last has a non-null next |
| `LockFree.LFQueue.LinkLast` | Project1/study.cpp:115 | CAS(&last->next, nullptr, n) on the true last node always succeeds; the list then grows by n at its end, the contents by n's key, and head and tail are untouched |
| `LockFree.LFQueue.Enqueue` | Project1/study.cpp:104-121 | writes only the queue's own fields and the old last node; contents become s + [x]; head and all existing nodes and links stay; the new node is fresh, last, with null next; tail ends on it; the loop terminates |
| `LockFree.LFQueue.Dequeue` | Project1/study.cpp:122-138 | (v, contents) is Lock_Queue's Dequeue of the old contents. Empty: returns -1 and head, tail and spine are unchanged. Otherwise: head moves to the old head->next, the new dummy; tail moves only if it sat on the old dummy; the lag never grows; either way the new spine is a suffix of the old one |
| `LockFree.LFQueue.Clear` | Project1/study.cpp:92-95 | contents become ClearToEmpty of the old contents, which is empty when no stored key is -1; head only moves forward along the old list, so the new spine is a suffix of the old one; the lag never grows; the loop terminates |
| `LockFree.LFQueue.Print20` | Project1/study.cpp:139-147 | returns the values Drain(contents, 20) reports, and leaves what Drain leaves; head only moves forward along the old list, so the new spine is a suffix of the old one; the lag never grows |
| `Refinement.ApplyBoth` | Project1/study.cpp:16-44 | when no -1 is stored or enqueued, one operation on an LF_QUEUE and on a Lock_Queue with equal contents gives equal replies and equal contents, both as Fifo.Step prescribes |
| `Refinement.Replay` | Project1/study.cpp:84-148 | for any operation sequence that never enqueues -1, a fresh LF_QUEUE and a fresh Lock_Queue give the same replies, namely Fifo.Run's |
| `Refinement.Scenario` | Project1/study.cpp:104-138 | Enqueue 10, Enqueue 20, Dequeue, Enqueue 30, Dequeue, Dequeue, Dequeue on a fresh LF_QUEUE returns 10, 20, 30, -1 |

## Left out

- Threads, interleavings, linearizability and lock-freedom are not modelled: the model is the queue as run by one thread. The benchmark workers, `thread_local thread_id`, the `loop_count` countdown and `main`'s sweep over thread counts (study.cpp:150-191) are the load generator and are not modelled.
- The re-check branches `last != tail` (study.cpp:110) and `first != head` (study.cpp:128) are in the model. So are the failed outcomes of the linking and head-swinging CASes (study.cpp:115, 135). Run by one thread, none of them can happen: nothing changes `head` or `tail` between two reads.
- `LockFree.LFQueue.AdvanceTail`: requires that `last` is the tail just read. So it models only the CAS that succeeds. Its failure, which the source ignores, needs another thread.
- `LockFree.LFQueue.LinkLast`: requires that `last` is the true last node, whose `next` is null in a valid list. So it models only the linking CAS that succeeds. Its failure (study.cpp:115 falls through and retries) needs another thread to have linked a node first.
- The `reinterpret_cast` to `std::atomic_llong` and the memory ordering inside `CAS` (study.cpp:98-102) are not modelled. Only the sequential compare-and-set outcome is.
- Memory reclamation is not modelled. Retired dummy nodes are never freed in the source. In the model they stay in `Repr` and leave `spine`.
- `Concurrent_Queue` (study.cpp:47-75) is not part of this model. It wraps the vendor `concurrency::concurrent_queue`, whose code is not available.
- The `mutex` of `Lock_Queue` (study.cpp:14, 17-29) is not modelled. Only its sequence behaviour is.
- `std::cout` output is not modelled. `Print20` returns the values it would print instead. `rand()` and the `high_resolution_clock` timing are also left out.
- `NODE::key` is declared as a plain `int` but never written after construction. It is modelled as a `const` field.
- Keys are unbounded `int` in the model. The source never does arithmetic on them, so 32-bit wrap-around plays no part.
- `Refinement.ApplyBoth`: requires that no `-1` is stored and that the operation does not enqueue `-1`. With a stored `-1`, `ClearOp` leaves the values after it on `LF_QUEUE` but empties `Lock_Queue`.
- `Refinement.Replay`: requires that `-1` is never enqueued. With a stored `-1`, `LF_QUEUE::Clear` stops early while `Lock_Queue::Clear` empties the queue.
