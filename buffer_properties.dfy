/** What callers of the bounded buffer can rely on, derived from the contracts
    of `Buffer`'s operations alone: FIFO order, draining after shutdown, and
    the release of every queued line by `buffer_destroy`. */
module BufferProperties {
  import opened Items
  import opened BoundedBuffer

  /** Pushes `items` one by one, first attempts only, into a ring with room for
      all of them; none of these pushes waits or fails, shutdown or not. */
  method PushAll(b: Buffer, items: seq<Item>)
    requires b.Valid()
    requires b.count + |items| <= b.capacity
    requires LinesOnce(b.Contents + items)
    modifies b, b.lines
    ensures b.Valid() && b.lines == old(b.lines) && b.capacity == old(b.capacity)
    ensures b.shuttingDown == old(b.shuttingDown)
    ensures b.Contents == old(b.Contents) + items
  {
    var i := 0;
    while i < |items|
      invariant 0 <= i <= |items|
      invariant b.Valid() && b.lines == old(b.lines) && b.capacity == old(b.capacity)
      invariant b.shuttingDown == old(b.shuttingDown)
      invariant b.Contents == old(b.Contents) + items[..i]
    {
      ghost var all := old(b.Contents) + items;
      assert all[|old(b.Contents)| + i] == items[i];
      assert b.Contents == all[..|old(b.Contents)| + i];
      var r := b.Push(items[i], false);
      assert items[..i + 1] == items[..i] + [items[i]];
      i := i + 1;
    }
  }

  /** Moving the split point of `items` one place to the right. */
  lemma Advance(items: seq<Item>, i: int)
    requires 0 <= i < |items|
    ensures items[i..][0] == items[i] && items[i..][1..] == items[i + 1..]
    ensures items[..i + 1] == items[..i] + [items[i]]
  {
  }

  /** For pushes that never exceed the capacity, pops return the items in
      exactly the order they were pushed. */
  method FifoRoundTrip(capacity: int, items: seq<Item>) returns (out: seq<Item>)
    requires 0 < capacity && |items| <= capacity
    requires LinesOnce(items)
    ensures out == items
  {
    var b := new Buffer(capacity);
    assert [] + items == items;
    PushAll(b, items);
    out := [];
    var i := 0;
    while i < |items|
      invariant 0 <= i <= |items|
      invariant b.Valid() && fresh(b) && fresh(b.lines)
      invariant b.Contents == items[i..]
      invariant out == items[..i]
    {
      Advance(items, i);
      var r := b.Pop();
      out := out + [r.value];
      i := i + 1;
    }
  }

  /** After shutdown, pops still return every queued item in order before
      the empty, shut-down ring answers NULL. */
  method DrainAfterShutdown(capacity: int, items: seq<Item>) returns (out: seq<Item>, last: Step<Item>)
    requires 0 < capacity && |items| <= capacity
    requires LinesOnce(items)
    ensures out == items
    ensures last == Done(Null)
  {
    var b := new Buffer(capacity);
    assert [] + items == items;
    PushAll(b, items);
    b.SignalShutdown();
    out := [];
    var i := 0;
    while i < |items|
      invariant 0 <= i <= |items|
      invariant b.Valid() && fresh(b) && fresh(b.lines) && b.shuttingDown
      invariant b.Contents == items[i..]
      invariant out == items[..i]
    {
      Advance(items, i);
      var r := b.Pop();
      out := out + [r.value];
      i := i + 1;
    }
    assert b.count == 0;
    last := b.Pop();
  }

  /** On a ring of one slot that is shutting down, a first push still
      stores its item (buffer_push tests the flag only while the ring is
      full), and the item comes out again. A second push, into the now full
      ring, returns false and stores nothing. */
  method PushAfterShutdown(x: Item, y: Item) returns (first: Step<bool>, second: Step<bool>, out: Step<Item>)
    requires x.Line? && y.Line? && x != y
    ensures first == Done(true) && second == Done(false)
    ensures out == Done(x)
  {
    var b := new Buffer(1);
    b.SignalShutdown();
    first := b.Push(x, false);
    second := b.Push(y, false);
    out := b.Pop();
  }

  /** Destroying a ring that still holds unconsumed items releases each of
      their lines exactly once, in queue order; markers release nothing. */
  method DestroyReleasesRemaining(capacity: int, items: seq<Item>) returns (freed: seq<LineId>)
    requires 0 < capacity && |items| <= capacity
    requires LinesOnce(items)
    ensures freed == LiveLines(items) && Distinct(freed)
    ensures forall id :: id in freed <==> Line(id) in items
  {
    var b := new Buffer(capacity);
    assert [] + items == items;
    PushAll(b, items);
    b.SignalShutdown();
    freed := b.Destroy();
    LiveLinesMembers(items);
  }

  /** The observable fields of a ring. */
  datatype Snapshot = Snapshot(slots: seq<Item>, count: int, head: int, tail: int, shuttingDown: bool)

  /** `buffer_signal_shutdown` is idempotent: signalling a second time
      leaves the ring exactly as the first time did. */
  method ShutdownTwice(capacity: int, items: seq<Item>) returns (once: Snapshot, twice: Snapshot)
    requires 0 < capacity && |items| <= capacity
    requires LinesOnce(items)
    ensures once == twice && once.shuttingDown
    ensures once.count == |items|
  {
    var b := new Buffer(capacity);
    assert [] + items == items;
    PushAll(b, items);
    b.SignalShutdown();
    once := Snapshot(b.lines[..], b.count, b.head, b.tail, b.shuttingDown);
    b.SignalShutdown();
    twice := Snapshot(b.lines[..], b.count, b.head, b.tail, b.shuttingDown);
  }
}
