/** The single-producer/single-consumer ring buffer of the message pipeline
    (`RingBuffer<T, Size>` in message-processing-system/main.cpp).

    The buffer is an array of `size` slots with a write cursor and a read
    cursor. It is empty when the cursors are equal and full when advancing
    the write cursor would reach the read cursor, so one slot always stays
    unused and at most `size - 1` items are held. The atomics of the source
    are plain fields here: only the sequential behaviour is modelled. */
module MessageProcessing {

  /** The items held between read cursor `r` (inclusive) and write cursor `w`
      (exclusive) of the slots `s`, oldest first. */
  ghost function Held<T>(s: seq<T>, r: nat, w: nat): (q: seq<T>)
    requires r < |s| && w < |s|
    ensures |q| == if r <= w then w - r else |s| - r + w
    ensures |q| < |s|
    ensures q != [] ==> q[0] == s[r]
  {
    if r <= w then s[r..w] else s[r..] + s[..w]
  }

  /** Advancing a cursor modulo `n` wraps from the last slot to slot 0. */
  lemma NextSlot(i: nat, n: nat)
    requires i < n
    ensures (i + 1) % n == if i + 1 < n then i + 1 else 0
  {
  }

  /** Storing `x` at the write cursor and advancing it, when that does not
      reach the read cursor, appends `x` to the held items. */
  lemma HeldAfterPush<T>(s: seq<T>, r: nat, w: nat, x: T)
    requires r < |s| && w < |s|
    requires (w + 1) % |s| != r
    ensures Held(s[w := x], r, (w + 1) % |s|) == Held(s, r, w) + [x]
  {
    var n, s' := |s|, s[w := x];
    NextSlot(w, n);
    if w + 1 < n {
      if r <= w {
        assert s'[r..w + 1] == s[r..w] + [x];
      } else {
        assert s'[r..] == s[r..];
        assert s'[..w + 1] == s[..w] + [x];
      }
    } else {
      assert 0 < r <= w;
      assert s'[r..] == s[r..w] + [x];
      assert s'[r..] + s'[..0] == s'[r..];
    }
  }

  /** Advancing the read cursor past a non-empty range drops its oldest item. */
  lemma HeldAfterPop<T>(s: seq<T>, r: nat, w: nat)
    requires r < |s| && w < |s|
    requires r != w
    ensures Held(s, (r + 1) % |s|, w) == Held(s, r, w)[1..]
  {
    var n := |s|;
    NextSlot(r, n);
    if r + 1 < n {
      if r < w {
        assert s[r..w][1..] == s[r + 1..w];
      } else {
        assert (s[r..] + s[..w])[1..] == s[r + 1..] + s[..w];
      }
    } else {
      assert w < r;
      assert s[r..] == [s[r]];
      assert (s[r..] + s[..w])[1..] == s[..w];
      assert s[0..w] == s[..w];
    }
  }

  /** The write cursor cannot advance exactly when `size - 1` items are held. */
  lemma FullWhenCapacityReached<T>(s: seq<T>, r: nat, w: nat)
    requires r < |s| && w < |s|
    ensures ((w + 1) % |s| == r) <==> (|Held(s, r, w)| == |s| - 1)
  {
    NextSlot(w, |s|);
  }

  class RingBuffer<T(0)> {
    /** The template parameter `Size`: the number of slots. */
    const size: nat
    /** `_buffer`, the fixed array of slots. */
    const buffer: array<T>
    /** `_write_pos`: the slot the next push writes. */
    var writePos: nat
    /** `_read_pos`: the slot the next pop reads. */
    var readPos: nat
    /** The queue the buffer represents, oldest item first. */
    ghost var Contents: seq<T>

    ghost predicate Valid()
      reads this, buffer
    {
      size >= 1 && buffer.Length == size &&
      writePos < size && readPos < size &&
      Contents == Held(buffer[..], readPos, writePos)
    }

    /** The number of items the buffer can hold at once. */
    function Capacity(): nat
      requires size >= 1
    {
      size - 1
    }

    /** A new buffer: both cursors at 0, nothing held. */
    constructor (n: nat)
      requires n >= 1
      ensures Valid() && fresh(buffer)
      ensures size == n && writePos == 0 && readPos == 0
      ensures Contents == []
    {
      size := n;
      buffer := new T[n];
      writePos, readPos := 0, 0;
      Contents := [];
    }

    /** `push`: rejected when full; otherwise stores `item` at the write
        cursor and advances the write cursor modulo `size`. */
    method Push(item: T) returns (ok: bool)
      requires Valid()
      modifies this, buffer
      ensures Valid()
      ensures ok <==> |old(Contents)| < Capacity()
      ensures ok ==> (buffer[..] == old(buffer[..])[old(writePos) := item]
                      && writePos == (old(writePos) + 1) % size
                      && readPos == old(readPos)
                      && Contents == old(Contents) + [item])
      ensures !ok ==> (buffer[..] == old(buffer[..])
                       && writePos == old(writePos) && readPos == old(readPos)
                       && Contents == old(Contents))
    {
      FullWhenCapacityReached(buffer[..], readPos, writePos);
      var next := (writePos + 1) % size;
      if next == readPos {
        return false;
      }
      HeldAfterPush(buffer[..], readPos, writePos, item);
      buffer[writePos] := item;
      writePos := next;
      Contents := Contents + [item];
      ok := true;
    }

    /** `pop(T& item)`: rejected when empty, leaving `item` as it was
        (`prev`); otherwise yields the slot at the read cursor and advances
        the read cursor modulo `size`. */
    method Pop(prev: T) returns (ok: bool, item: T)
      requires Valid()
      modifies this
      ensures Valid()
      ensures ok <==> old(Contents) != []
      ensures ok ==> (item == old(buffer[readPos]) && item == old(Contents)[0]
                      && readPos == (old(readPos) + 1) % size
                      && writePos == old(writePos)
                      && Contents == old(Contents)[1..])
      ensures !ok ==> (item == prev
                       && writePos == old(writePos) && readPos == old(readPos)
                       && Contents == old(Contents))
    {
      if readPos == writePos {
        return false, prev;
      }
      HeldAfterPop(buffer[..], readPos, writePos);
      item := buffer[readPos];
      readPos := (readPos + 1) % size;
      Contents := Contents[1..];
      ok := true;
    }
  }

  /** One call made on the buffer, by the producer or by the consumer. */
  datatype Op<T> = Push(item: T) | Pop

  /** What a sequence of calls leaves behind: the queue still held, the items
      whose push succeeded and the items successful pops returned. */
  datatype Trace<T> = Trace(queue: seq<T>, accepted: seq<T>, popped: seq<T>)

  /** The calls `ops` made in order on a new bounded FIFO of capacity `cap`. */
  function Run<T>(cap: nat, ops: seq<Op<T>>): Trace<T>
  {
    if ops == [] then Trace([], [], [])
    else
      var t := Run(cap, ops[..|ops| - 1]);
      match ops[|ops| - 1]
      case Push(x) =>
        if |t.queue| < cap then Trace(t.queue + [x], t.accepted + [x], t.popped) else t
      case Pop =>
        if t.queue != [] then Trace(t.queue[1..], t.accepted, t.popped + [t.queue[0]]) else t
  }

  /** FIFO: the popped items followed by the held ones are exactly the accepted
      pushes, in order, so nothing is lost, duplicated or reordered; and the
      queue never exceeds the capacity. */
  lemma {:induction false} RunIsFifo<T>(cap: nat, ops: seq<Op<T>>)
    ensures Run(cap, ops).popped + Run(cap, ops).queue == Run(cap, ops).accepted
    ensures |Run(cap, ops).queue| <= cap
  {
    if ops != [] {
      var t := Run(cap, ops[..|ops| - 1]);
      RunIsFifo(cap, ops[..|ops| - 1]);
      match ops[|ops| - 1]
      case Push(x) =>
        assert t.popped + (t.queue + [x]) == (t.popped + t.queue) + [x];
      case Pop =>
        if t.queue != [] {
          assert (t.popped + [t.queue[0]]) + t.queue[1..] == t.popped + t.queue;
        }
    }
  }

  /** A producer pushing `xs` into a buffer nobody pops. */
  function Pushes<T>(xs: seq<T>): (ops: seq<Op<T>>)
    ensures |ops| == |xs|
    ensures forall i :: 0 <= i < |xs| ==> ops[i] == Push(xs[i])
  {
    if xs == [] then [] else Pushes(xs[..|xs| - 1]) + [Push(xs[|xs| - 1])]
  }

  /** Usable capacity: into a new buffer, exactly the first `cap` pushes are
      accepted and every later one is rejected. */
  lemma {:induction false} PushesFillToCapacity<T>(cap: nat, xs: seq<T>)
    ensures Run(cap, Pushes(xs)).accepted == xs[..if |xs| < cap then |xs| else cap]
    ensures Run(cap, Pushes(xs)).queue == Run(cap, Pushes(xs)).accepted
    ensures Run(cap, Pushes(xs)).popped == []
  {
    if xs != [] {
      var init := xs[..|xs| - 1];
      PushesFillToCapacity(cap, init);
      assert Pushes(xs)[..|xs| - 1] == Pushes(init);
      if |init| < cap {
        assert init + [xs[|xs| - 1]] == xs;
      } else {
        assert init[..cap] == xs[..cap];
      }
    }
  }

  /** Replays `ops` on a new buffer `b`, collecting what the successful pops
      return: the buffer behaves as `Run` with capacity `size - 1`. */
  method Replay<T(0)>(b: RingBuffer<T>, ops: seq<Op<T>>) returns (popped: seq<T>)
    requires b.Valid() && b.Contents == []
    modifies b, b.buffer
    ensures b.Valid()
    ensures popped == Run(b.Capacity(), ops).popped
    ensures b.Contents == Run(b.Capacity(), ops).queue
  {
    popped := [];
    var last: T := *;
    for i := 0 to |ops|
      invariant b.Valid()
      invariant popped == Run(b.Capacity(), ops[..i]).popped
      invariant b.Contents == Run(b.Capacity(), ops[..i]).queue
    {
      assert ops[..i + 1][..i] == ops[..i];
      match ops[i]
      case Push(x) =>
        var _ := b.Push(x);
      case Pop =>
        var ok;
        ok, last := b.Pop(last);
        if ok {
          popped := popped + [last];
        }
    }
    assert ops[..|ops|] == ops;
  }
}
