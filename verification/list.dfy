/** `VecDequeMax`: a FIFO that keeps at most `max` elements when filled from
    the back, dropping the oldest on overflow. The linked list becomes a
    sequence, front first. */
module DequeMax {
  import opened Base

  datatype Deque<T> = Deque(items: seq<T>, max: nat)

  /** The capacity `new` substitutes for a zero `max`. */
  const DefaultMax: nat := 20

  /** `new(max)`: an empty queue; `max == 0` means the default capacity. */
  function New<T>(max: nat): (r: Deque<T>)
    ensures r.items == [] && r.max > 0
    ensures max > 0 ==> r.max == max
    ensures max == 0 ==> r.max == DefaultMax
  {
    Deque([], if max == 0 then DefaultMax else max)
  }

  /** `len`. */
  function Len<T>(d: Deque<T>): nat
  {
    |d.items|
  }

  /** `push`: appends at the back, then pops the front once if the queue
      has grown past `max`. */
  function Push<T>(d: Deque<T>, x: T): (r: Deque<T>)
    ensures r.max == d.max
    ensures Len(d) < d.max ==> r.items == d.items + [x]
    ensures Len(d) >= d.max && Len(d) > 0 ==> r.items == d.items[1..] + [x]
    ensures Len(d) == 0 == d.max ==> r.items == []
    ensures Len(d) <= d.max ==> Len(r) <= r.max
    ensures Len(r) > 0 ==> r.items[Len(r) - 1] == x
  {
    var s := d.items + [x];
    if |s| > d.max then
      assert |d.items| > 0 ==> s[1..] == d.items[1..] + [x];
      Deque(s[1..], d.max)
    else
      Deque(s, d.max)
  }

  /** `pushf`: prepends without looking at `max`. */
  function Pushf<T>(d: Deque<T>, x: T): (r: Deque<T>)
    ensures r.max == d.max && Len(r) == Len(d) + 1
  {
    Deque([x] + d.items, d.max)
  }

  /** `pop`: removes and returns the front element, `None` when empty. */
  function Pop<T>(d: Deque<T>): (r: (Deque<T>, Option<T>))
    ensures r.0.max == d.max
    ensures r.1.None? <==> Len(d) == 0
    ensures r.1.None? ==> r.0 == d
    ensures r.1.Some? ==> d.items == [r.1.value] + r.0.items
  {
    if |d.items| == 0 then (d, None) else (Deque(d.items[1..], d.max), Some(d.items[0]))
  }

  /** `front`: the front element, without removing it. */
  function Front<T>(d: Deque<T>): (r: Option<T>)
    ensures r == Pop(d).1
  {
    if |d.items| == 0 then None else Some(d.items[0])
  }

  // ---------------------------------------------------------------- properties

  /** `push` of every element of `xs`, in order. */
  function PushSeq<T>(d: Deque<T>, xs: seq<T>): Deque<T>
    decreases |xs|
  {
    if |xs| == 0 then d else PushSeq(Push(d, xs[0]), xs[1..])
  }

  /** The last `k` elements of `s` (all of `s` when it is shorter). */
  function Last<T>(s: seq<T>, k: nat): seq<T>
  {
    s[|s| - Min(|s|, k)..]
  }

  /** A queue filled by `push` alone is a sliding window: it holds the last
      `max` elements pushed, oldest first. */
  lemma {:induction false} PushWindow<T>(d: Deque<T>, xs: seq<T>)
    requires d.max > 0 && Len(d) <= d.max
    ensures PushSeq(d, xs).items == Last(d.items + xs, d.max)
    ensures PushSeq(d, xs).max == d.max
    decreases |xs|
  {
    if |xs| == 0 {
      assert d.items + xs == d.items;
    } else {
      var d' := Push(d, xs[0]);
      PushWindow(d', xs[1..]);
      var s := d.items + xs;
      if Len(d) < d.max {
        assert d'.items + xs[1..] == s;
      } else {
        assert d'.items + xs[1..] == s[1..];
        assert Last(s[1..], d.max) == Last(s, d.max);
      }
    }
  }

  /** From a new queue, `push` keeps exactly the last `max` elements. */
  lemma NewWindow<T>(max: nat, xs: seq<T>)
    ensures var d := PushSeq(New<T>(max), xs);
            && Len(d) == Min(|xs|, d.max)
            && d.items == xs[|xs| - Len(d)..]
  {
    var d0 := New<T>(max);
    PushWindow(d0, xs);
    assert d0.items + xs == xs;
  }

  /** `pushf` ignores the bound: on a full queue it leaves more than `max`
      elements, which a following `push` does not repair. */
  lemma PushfExceeds<T>(d: Deque<T>, x: T, y: T)
    requires Len(d) == d.max
    ensures Len(Pushf(d, x)) == d.max + 1
    ensures Len(Push(Pushf(d, x), y)) == d.max + 1
  {
  }

  /** `pop` undoes `pushf`, and `front` then reads the pushed element. */
  lemma PopPushf<T>(d: Deque<T>, x: T)
    ensures Pop(Pushf(d, x)) == (d, Some(x))
    ensures Front(Pushf(d, x)) == Some(x)
  {
    assert ([x] + d.items)[1..] == d.items;
  }

  /** Elements leave in the order `push` put them in (FIFO): below the
      bound, a push at the back does not change what `pop` takes first. */
  lemma PushKeepsFront<T>(d: Deque<T>, x: T)
    requires 0 < Len(d) < d.max
    ensures Pop(Push(d, x)).1 == Pop(d).1
    ensures Pop(Push(d, x)).0 == Push(Pop(d).0, x)
  {
    assert (d.items + [x])[1..] == d.items[1..] + [x];
  }
}
