/** The bounded buffer of buffer.h / buffer.c: a fixed-capacity ring of line
    pointers shared by one producer and many consumers.

    Every operation runs under the buffer's mutex, so each is modelled as one
    critical section: a sequential update of the fields. Where the C code
    would call `pthread_cond_wait`, the method returns `Wait` instead; the
    caller models the wake-up by calling again. */
module BoundedBuffer {
  import opened Items

  /** Outcome of one critical section of a blocking call: it completes with a
      value, or it reaches the point where the thread waits on a condition. */
  datatype Step<T> = Wait | Done(value: T)

  /** The slot `a` positions past slot 0 of a ring of `c` slots, for `a` below
      two laps. */
  function Ring(a: int, c: int): (r: int) {
    if a < c then a else a - c
  }

  /** On those arguments `Ring` is C's `a % c`. */
  lemma Wrap(a: int, c: int)
    requires 0 < c && 0 <= a < 2 * c
    ensures a % c == Ring(a, c)
  {
    if a < c {
      assert a == 0 * c + a;
    } else {
      assert a == 1 * c + (a - c);
    }
  }

  /** The ring invariant over plain values: `count` occupied slots of `slots`
      starting at `head` and ending just before `tail` hold `contents` in
      order, each line once. */
  ghost predicate Ringed(slots: seq<Item>, capacity: int, count: int, head: int, tail: int, contents: seq<Item>) {
    && 0 < capacity == |slots|
    && 0 <= count <= capacity
    && 0 <= head < capacity
    && 0 <= tail < capacity
    && tail == Ring(head + count, capacity)
    && |contents| == count
    && (forall i {:trigger contents[i]} :: 0 <= i < count ==> contents[i] == slots[Ring(head + i, capacity)])
    && LinesOnce(contents)
  }

  /** Storing a line not yet queued at `tail` and advancing `tail` appends it. */
  lemma RingPush(slots: seq<Item>, capacity: int, count: int, head: int, tail: int, contents: seq<Item>, x: Item)
    requires Ringed(slots, capacity, count, head, tail, contents) && count < capacity
    requires x.Line? ==> x !in contents
    ensures Ringed(slots[tail := x], capacity, count + 1, head, (tail + 1) % capacity, contents + [x])
  {
    Wrap(tail + 1, capacity);
    forall i | 0 <= i < count
      ensures slots[tail := x][Ring(head + i, capacity)] == contents[i]
    {
      assert Ring(head + i, capacity) != tail;
    }
    LinesOnceSnoc(contents, x);
  }

  /** Taking the item at `head`, clearing its slot and advancing `head`
      removes the oldest item. */
  lemma RingPop(slots: seq<Item>, capacity: int, count: int, head: int, tail: int, contents: seq<Item>)
    requires Ringed(slots, capacity, count, head, tail, contents) && 0 < count
    ensures contents[0] == slots[head]
    ensures Ringed(slots[head := Null], capacity, count - 1, (head + 1) % capacity, tail, contents[1..])
  {
    Wrap(head + 1, capacity);
    assert Ring(head + 0, capacity) == head;
    forall i | 0 <= i < count - 1
      ensures slots[head := Null][Ring((head + 1) % capacity + i, capacity)] == contents[1..][i]
    {
      assert Ring((head + 1) % capacity + i, capacity) == Ring(head + (i + 1), capacity);
    }
    LinesOnceTail(contents);
  }

  class Buffer {
    var lines: array?<Item>
    var capacity: int
    var count: int
    var head: int
    var tail: int
    var shuttingDown: bool

    /** The queued items, oldest first. */
    ghost var Contents: seq<Item>

    /** The ring invariant: `count` occupied slots starting at `head`, ending
        just before `tail`, holding `Contents` in order, each line once. */
    ghost predicate Valid()
      reads this, lines
    {
      && lines != null
      && Ringed(lines[..], capacity, count, head, tail, Contents)
    }

    /** `buffer_destroy` has released the slot array. */
    ghost predicate Destroyed()
      reads this
    {
      lines == null
    }

    /** `buffer_init`: an empty ring of `capacity` slots, not shutting down.
        The slots' initial values are never read (malloc leaves them unset). */
    constructor (capacity: int)
      requires 0 < capacity
      ensures Valid() && fresh(lines)
      ensures this.capacity == capacity && count == 0 && head == 0 && tail == 0
      ensures !shuttingDown && Contents == []
    {
      lines := new Item[capacity];
      this.capacity := capacity;
      count, head, tail := 0, 0, 0;
      shuttingDown := false;
      Contents := [];
    }

    /** `buffer_push`. `resumed` says whether this critical section is the one
        that follows a return from `pthread_cond_wait`: after a wake the C code
        tests `shutting_down` before it tests for a full ring again, so a woken
        push fails on shutdown even when a slot has meanwhile been freed. A
        first attempt on a ring with a free slot succeeds whatever the flag. */
    method Push(line: Item, resumed: bool) returns (r: Step<bool>)
      requires Valid()
      requires line.Line? ==> line !in Contents
      modifies this, lines
      ensures Valid() && lines == old(lines)
      ensures capacity == old(capacity) && shuttingDown == old(shuttingDown)
      ensures r == Done(true) <==> old(count) < capacity && !(resumed && shuttingDown)
      ensures r == Done(false) <==> shuttingDown && (resumed || old(count) == capacity)
      ensures r == Wait <==> old(count) == capacity && !shuttingDown
      ensures r == Done(true) ==>
        && Contents == old(Contents) + [line]
        && (forall k :: 0 <= k < lines.Length ==> lines[k] == if k == old(tail) then line else old(lines[k]))
        && head == old(head) && tail == (old(tail) + 1) % capacity && count == old(count) + 1
      ensures r != Done(true) ==>
        && Contents == old(Contents)
        && unchanged(lines)
        && head == old(head) && tail == old(tail) && count == old(count)
    {
      if resumed && shuttingDown {
        return Done(false);
      }
      if count == capacity {
        if shuttingDown {
          return Done(false);
        }
        return Wait;
      }
      RingPush(lines[..], capacity, count, head, tail, Contents, line);
      lines[tail] := line;
      tail := (tail + 1) % capacity;
      count := count + 1;
      Contents := Contents + [line];
      r := Done(true);
    }

    /** `buffer_pop`. An empty ring that is shutting down yields NULL, exactly
        as a popped end-of-stream marker does; a non-empty ring yields its
        oldest item whatever the flag, so shutdown drains the queue first. */
    method Pop() returns (r: Step<Item>)
      requires Valid()
      modifies this, lines
      ensures Valid() && lines == old(lines)
      ensures capacity == old(capacity) && shuttingDown == old(shuttingDown)
      ensures r == Wait <==> old(count) == 0 && !shuttingDown
      ensures old(count) == 0 ==>
        && Contents == old(Contents)
        && unchanged(lines)
        && head == old(head) && tail == old(tail) && count == 0
        && (shuttingDown ==> r == Done(Null))
      ensures old(count) > 0 ==>
        && r == Done(old(Contents)[0])
        && Contents == old(Contents)[1..]
        && (forall k :: 0 <= k < lines.Length ==> lines[k] == if k == old(head) then Null else old(lines[k]))
        && head == (old(head) + 1) % capacity && tail == old(tail) && count == old(count) - 1
    {
      if count == 0 {
        if shuttingDown {
          return Done(Null);
        }
        return Wait;
      }
      RingPop(lines[..], capacity, count, head, tail, Contents);
      var line := lines[head];
      lines[head] := Null;
      head := (head + 1) % capacity;
      count := count - 1;
      Contents := Contents[1..];
      r := Done(line);
    }

    /** `buffer_signal_shutdown`: raise the flag (waking every waiter, which
        here means that every later call sees it). Queued items stay. */
    method SignalShutdown()
      requires Valid()
      modifies this
      ensures Valid() && shuttingDown
      ensures lines == old(lines) && capacity == old(capacity)
      ensures count == old(count) && head == old(head) && tail == old(tail)
      ensures Contents == old(Contents)
    {
      shuttingDown := true;
    }

    /** `buffer_destroy`: free each line still queued, visiting the occupied
        slots from `head` in order and skipping NULL markers, then release
        the slot array. A second call finds the array gone and frees nothing.
        `freed` lists the lines passed to `free`, in call order. */
    method Destroy() returns (freed: seq<LineId>)
      requires Valid() || Destroyed()
      modifies this
      ensures Destroyed() && Contents == []
      ensures freed == if old(lines) == null then [] else LiveLines(old(Contents))
      ensures Distinct(freed)
      ensures capacity == old(capacity) && shuttingDown == old(shuttingDown)
      ensures count == old(count) && head == old(head) && tail == old(tail)
    {
      freed := [];
      if lines != null {
        var i := 0;
        while i < count
          modifies {}
          invariant 0 <= i <= count
          invariant freed == LiveLines(Contents[..i])
        {
          Wrap(head + i, capacity);
          var slot := (head + i) % capacity;
          assert Contents[..i + 1] == Contents[..i] + [lines[slot]];
          LiveLinesSnoc(Contents[..i], lines[slot]);
          if lines[slot] != Null {
            freed := freed + [lines[slot].id];
          }
          i := i + 1;
        }
        assert Contents[..count] == Contents;
        LinesOnceDistinct(Contents);
        lines := null;
      }
      Contents := [];
    }
  }
}
