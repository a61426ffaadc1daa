/** `NativeSimpleQueue<T>`: a bounded FIFO over a fixed buffer with head,
    tail and count.  The queue is a value here; every operation returns the
    new queue, and a throwing operation returns a `Failure`. */
module SimpleQueue {
  import opened Wrappers
  import Lattice

  datatype Queue<T> = Queue(buffer: seq<T>, head: int, tail: int, capacity: int, count: int)

  /** The ring-buffer invariant: the live items are the `count` slots from
      `head` on, wrapping at `capacity`, and `tail` is the slot after them. */
  predicate Valid<T>(q: Queue<T>) {
    |q.buffer| == q.capacity && 0 <= q.count <= q.capacity &&
    (if q.capacity == 0 then q.head == 0 && q.tail == 0
     else 0 <= q.head < q.capacity && q.tail == Wrap(q.head + q.count, q.capacity))
  }

  /** A position below twice the capacity folded back into the buffer. */
  function Wrap(a: int, c: int): int {
    if a < c then a else a - c
  }

  /** The C# index step `(k + 1) % capacity`, for an index inside the buffer. */
  function Next(k: int, c: int): (n: int)
    requires 0 <= k < c
    ensures n == (k + 1) % c && 0 <= n < c
  {
    ModWrap(k + 1, c);
    Wrap(k + 1, c)
  }

  /** The slot of the `i`-th live item. */
  function Slot<T>(q: Queue<T>, i: int): (k: int)
    requires Valid(q) && 0 <= i < q.count
    ensures 0 <= k < q.capacity && k == (q.head + i) % q.capacity
  {
    ModWrap(q.head + i, q.capacity);
    Wrap(q.head + i, q.capacity)
  }

  /** The items in FIFO order. */
  function Contents<T>(q: Queue<T>): (s: seq<T>)
    requires Valid(q)
    ensures |s| == q.count
  {
    seq(q.count, i requires 0 <= i < q.count => q.buffer[Slot(q, i)])
  }

  /** `new NativeSimpleQueue(capacity)`: an empty queue; `fill` is the
      buffer's default element. */
  function NewQueue<T>(capacity: nat, fill: T): (q: Queue<T>)
    ensures Valid(q) && Contents(q) == [] && q.capacity == capacity
  {
    Queue(seq(capacity, _ => fill), 0, 0, capacity, 0)
  }

  /** `a % c` for `0 <= a < 2c` is one subtraction at most. */
  lemma ModWrap(a: int, c: int)
    requires c > 0 && 0 <= a < 2 * c
    ensures a % c == (if a < c then a else a - c)
  {
    if a < c {
      Lattice.DivUnique(a, c, 0, a);
    } else {
      Lattice.DivUnique(a, c, 1, a - c);
    }
  }

  /** `Enqueue`: full queues throw; otherwise the item goes in at `tail`
      and becomes the last item. */
  function Enqueue<T>(q: Queue<T>, item: T): (r: Result<Queue<T>>)
    requires Valid(q)
    ensures r.Failure? <==> q.count >= q.capacity
    ensures r.Failure? ==> r.error == QueueFull
    ensures r.Success? ==> Valid(r.value) && Contents(r.value) == Contents(q) + [item] && r.value.capacity == q.capacity
  {
    if q.count >= q.capacity then Failure(QueueFull)
    else
      var q' := q.(buffer := q.buffer[q.tail := item], tail := Next(q.tail, q.capacity), count := q.count + 1);
      assert Contents(q') == Contents(q) + [item];
      Success(q')
  }

  /** `Dequeue`: empty queues throw; otherwise the first item is returned
      and removed. */
  function Dequeue<T>(q: Queue<T>): (r: Result<(Queue<T>, T)>)
    requires Valid(q)
    ensures r.Failure? <==> q.count == 0
    ensures r.Failure? ==> r.error == QueueEmpty
    ensures r.Success? ==> (Valid(r.value.0) && r.value.1 == Contents(q)[0] &&
      Contents(r.value.0) == Contents(q)[1..] && r.value.0.capacity == q.capacity)
  {
    if q.count == 0 then Failure(QueueEmpty)
    else
      var item := q.buffer[q.head];
      var q' := q.(head := Next(q.head, q.capacity), count := q.count - 1);
      assert Contents(q') == Contents(q)[1..];
      Success((q', item))
  }

  /** `Peek`: the first item, without removing it; empty queues throw. */
  function Peek<T>(q: Queue<T>): (r: Result<T>)
    requires Valid(q)
    ensures r.Failure? <==> q.count == 0
    ensures r.Failure? ==> r.error == QueueEmpty
    ensures r.Success? ==> r.value == Contents(q)[0]
  {
    if q.count == 0 then Failure(QueueEmpty)
    else Success(q.buffer[q.head])
  }

  function Count<T>(q: Queue<T>): (n: int)
    requires Valid(q)
    ensures n == |Contents(q)|
  {
    q.count
  }

  predicate IsEmpty<T>(q: Queue<T>)
    requires Valid(q)
    ensures IsEmpty(q) <==> Contents(q) == []
  {
    q.count == 0
  }

  /** `Clear`: empties the queue; the buffer and capacity stay. */
  function Clear<T>(q: Queue<T>): (r: Queue<T>)
    requires Valid(q)
    ensures Valid(r) && Contents(r) == [] && r.capacity == q.capacity
  {
    q.(head := 0, tail := 0, count := 0)
  }

  /** Enqueues a list of items, stopping at the first failure. */
  function EnqueueAll<T>(q: Queue<T>, items: seq<T>): (r: Result<Queue<T>>)
    requires Valid(q)
    ensures r.Success? ==> Valid(r.value) && r.value.capacity == q.capacity
    ensures r.Failure? ==> r.error == QueueFull
    decreases |items|
  {
    if |items| == 0 then Success(q)
    else
      match Enqueue(q, items[0])
      case Failure(e) => Failure(e)
      case Success(q') => EnqueueAll(q', items[1..])
  }

  /** FIFO: items enqueued onto a queue with room for them all are
      appended in order, and the enqueue fails exactly when they do not fit. */
  lemma {:induction false} EnqueueAllAppends<T>(q: Queue<T>, items: seq<T>)
    requires Valid(q)
    ensures EnqueueAll(q, items).Success? <==> q.count + |items| <= q.capacity
    ensures EnqueueAll(q, items).Success? ==> Contents(EnqueueAll(q, items).value) == Contents(q) + items
    decreases |items|
  {
    if |items| > 0 {
      var r := Enqueue(q, items[0]);
      if r.Success? {
        EnqueueAllAppends(r.value, items[1..]);
        assert Contents(q) + [items[0]] + items[1..] == Contents(q) + items;
      }
    }
  }

  /** Dequeues `n` items, stopping at the first failure. */
  function DequeueN<T>(q: Queue<T>, n: nat): (r: Result<(Queue<T>, seq<T>)>)
    requires Valid(q)
    ensures r.Success? ==> Valid(r.value.0) && |r.value.1| == n
    decreases n
  {
    if n == 0 then Success((q, []))
    else
      match Dequeue(q)
      case Failure(e) => Failure(e)
      case Success((q', x)) =>
        match DequeueN(q', n - 1)
        case Failure(e) => Failure(e)
        case Success((q'', xs)) => Success((q'', [x] + xs))
  }

  /** FIFO: dequeuing `n` items yields the first `n` items in order and
      leaves the rest, and fails exactly when fewer than `n` are queued. */
  lemma {:induction false} DequeueNTakesPrefix<T>(q: Queue<T>, n: nat)
    requires Valid(q)
    ensures DequeueN(q, n).Success? <==> n <= q.count
    ensures DequeueN(q, n).Success? ==>
      DequeueN(q, n).value.1 == Contents(q)[..n] && Contents(DequeueN(q, n).value.0) == Contents(q)[n..]
    decreases n
  {
    if n > 0 && q.count > 0 {
      var d := Dequeue(q).value;
      DequeueNTakesPrefix(d.0, n - 1);
      if n <= q.count {
        var s := Contents(q);
        assert [s[0]] + s[1..][..n - 1] == s[..n];
        assert s[1..][n - 1..] == s[n..];
      }
    }
  }
}
