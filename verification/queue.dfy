/** The `Queue` of simple_heatmap.js: a ring buffer over an array that
    starts with 1024 slots and doubles when a push fills it. `first` is the
    slot of the oldest element and `afterLast` the slot the next push
    writes; a slot never written holds `undefined`, modelled as None. */
module RingQueue {
  import opened Common

  /** `new Array(1024)`. */
  const INITIAL_CAPACITY: int := 1024

  datatype Queue<T> = Queue(data: seq<Option<T>>, first: int, afterLast: int)

  /** Both cursors are slots of a nonempty array. */
  predicate Valid<T>(q: Queue<T>)
  {
    |q.data| > 0 && 0 <= q.first < |q.data| && 0 <= q.afterLast < |q.data|
  }

  /** `new Queue()`. */
  function New<T>(): Queue<T>
  {
    Queue(seq(INITIAL_CAPACITY, _ => None), 0, 0)
  }

  /** `size()`: the distance from first to afterLast around the ring. */
  function Size<T>(q: Queue<T>): int
  {
    var r := q.afterLast - q.first;
    if r < 0 then r + |q.data| else r
  }

  /** The slots from first up to afterLast, wrapping at the end of the
      array: what the queue holds, oldest first. */
  function Contents<T>(q: Queue<T>): seq<Option<T>>
    requires Valid(q)
  {
    if q.first <= q.afterLast then q.data[q.first..q.afterLast]
    else q.data[q.first..] + q.data[..q.afterLast]
  }

  /** `push(e)`: write e at afterLast and step it, wrapping to 0; if it has
      caught up with first the array is full, and it is copied, oldest
      element first, into an array twice as long. */
  function Push<T>(q: Queue<T>, e: T): Queue<T>
    requires Valid(q)
  {
    var d := q.data[q.afterLast := Some(e)];
    var a := if q.afterLast + 1 >= |d| then 0 else q.afterLast + 1;
    if a == q.first then Queue(d[a..] + d[..a] + seq(|d|, _ => None), 0, |d|)
    else Queue(d, q.first, a)
  }

  /** `shift()`: the slot at first, and first stepped, wrapping to 0. */
  function Shift<T>(q: Queue<T>): (Option<T>, Queue<T>)
    requires Valid(q)
  {
    var i := q.first + 1;
    (q.data[q.first], Queue(q.data, if i >= |q.data| then 0 else i, q.afterLast))
  }

  // ---- Properties ----

  /** A new queue is empty. */
  lemma {:induction false} NewEmpty<T>()
    ensures var q := New<T>();
            Valid(q) && Contents(q) == [] && Size(q) == 0 && |q.data| == INITIAL_CAPACITY
  {
  }

  /** `size()` counts what the queue holds, and is always below the length
      of the array. */
  lemma {:induction false} SizeMeaning<T>(q: Queue<T>)
    requires Valid(q)
    ensures Size(q) == |Contents(q)| && 0 <= Size(q) < |q.data|
  {
  }

  /** A push keeps the cursors valid and appends e to the contents; the
      array doubles exactly when the push fills it. */
  lemma {:induction false} PushMeaning<T>(q: Queue<T>, e: T)
    requires Valid(q)
    ensures var r := Push(q, e);
            Valid(r) && Contents(r) == Contents(q) + [Some(e)]
            && |r.data| == (if Size(q) == |q.data| - 1 then 2 * |q.data| else |q.data|)
  {
    var d := q.data[q.afterLast := Some(e)];
    var a := if q.afterLast + 1 >= |d| then 0 else q.afterLast + 1;
    var r := Push(q, e);
    if a == q.first {
      assert Contents(r) == d[a..] + d[..a];
      if a == 0 {
        assert q.afterLast == |d| - 1;
        assert d[a..] == q.data[..q.afterLast] + [Some(e)];
        assert d[..a] == [];
      } else {
        assert q.afterLast + 1 == q.first;
        assert d[a..] == q.data[q.first..];
        assert d[..a] == q.data[..q.afterLast] + [Some(e)];
      }
    } else if a == 0 {
      assert d[q.first..] == q.data[q.first..q.afterLast] + [Some(e)];
    } else if q.first <= q.afterLast {
      assert d[q.first..a] == q.data[q.first..q.afterLast] + [Some(e)];
    } else {
      assert d[q.first..] == q.data[q.first..];
      assert d[..a] == q.data[..q.afterLast] + [Some(e)];
    }
  }

  /** Shifting a queue that holds something returns its oldest element and
      drops it; shifting an empty one (which no caller does) wraps size()
      round to the length of the array minus one. */
  lemma {:induction false} ShiftMeaning<T>(q: Queue<T>)
    requires Valid(q)
    ensures var r := Shift(q);
            Valid(r.1) && |r.1.data| == |q.data|
            && (Size(q) > 0 ==> r.0 == Contents(q)[0] && Contents(r.1) == Contents(q)[1..])
            && (Size(q) == 0 ==> Size(r.1) == |q.data| - 1)
  {
    var r := Shift(q);
    if Size(q) > 0 && q.first > q.afterLast && q.first + 1 < |q.data| {
      assert q.data[q.first + 1..] == q.data[q.first..][1..];
    }
  }

  // ---- First in, first out ----

  /** Pushing es in order. */
  function PushAll<T>(q: Queue<T>, es: seq<T>): (r: Queue<T>)
    requires Valid(q)
    ensures Valid(r)
    decreases |es|
  {
    if |es| == 0 then q
    else
      PushMeaning(q, es[0]);
      PushAll(Push(q, es[0]), es[1..])
  }

  /** n shifts in a row, collecting what they return. */
  function ShiftAll<T>(q: Queue<T>, n: nat): (r: (seq<Option<T>>, Queue<T>))
    requires Valid(q)
    ensures Valid(r.1) && |r.0| == n
    decreases n
  {
    if n == 0 then ([], q)
    else
      ShiftMeaning(q);
      var x := Shift(q);
      var y := ShiftAll(x.1, n - 1);
      ([x.0] + y.0, y.1)
  }

  lemma {:induction false} PushAllContents<T>(q: Queue<T>, es: seq<T>)
    requires Valid(q)
    ensures Contents(PushAll(q, es)) == Contents(q) + Somes(es)
    decreases |es|
  {
    if |es| > 0 {
      PushMeaning(q, es[0]);
      PushAllContents(Push(q, es[0]), es[1..]);
      assert Somes(es) == [Some(es[0])] + Somes(es[1..]);
    }
  }

  lemma {:induction false} ShiftAllContents<T>(q: Queue<T>, n: nat)
    requires Valid(q) && n <= Size(q)
    ensures var r := ShiftAll(q, n);
            r.0 == Contents(q)[..n] && Contents(r.1) == Contents(q)[n..]
    decreases n
  {
    if n > 0 {
      ShiftMeaning(q);
      var x := Shift(q);
      SizeMeaning(q);
      SizeMeaning(x.1);
      ShiftAllContents(x.1, n - 1);
      assert Contents(q)[1..][..n - 1] == Contents(q)[1..n];
      assert Contents(q)[..n] == [Contents(q)[0]] + Contents(q)[1..n];
      assert Contents(q)[1..][n - 1..] == Contents(q)[n..];
    }
  }

  /** Whatever is pushed onto a new queue is shifted off in the same order,
      however often the array grows on the way. */
  lemma {:induction false} Fifo<T>(es: seq<T>)
    ensures var q := PushAll(New<T>(), es);
            Size(q) == |es| && ShiftAll(q, |es|).0 == Somes(es)
  {
    var q := PushAll(New<T>(), es);
    PushAllContents(New<T>(), es);
    SizeMeaning(q);
    ShiftAllContents(q, |es|);
  }
}
