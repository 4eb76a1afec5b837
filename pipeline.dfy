/** `main` of 200104004045_main.c run on one schedule of its threads, for any
    ring capacity: one worker, no SIGINT. The manager reads lines into the
    ring until a push waits on a full ring; the worker then drains the ring
    until its pop waits on an empty one, and the manager's push resumes. At
    end of input the manager pushes the end marker, waiting once more if the
    ring is full; the worker drains what is left up to the marker and
    records its count, and the serial thread sums the counts before the ring
    is destroyed. Every line is freed exactly once, by the worker, and the
    total printed is the number of matching lines. */
module Pipeline {
  import opened Items
  import opened BoundedBuffer
  import opened Worker
  import opened Aggregation
  import opened Manager

  /** A run of lines followed by the end marker, consumed up to a NULL,
      was consumed entirely: the only NULL in it is the last item. */
  lemma MarkerEndsRun(ids: seq<LineId>, consumed: seq<Item>, rest: seq<Item>)
    requires AsItems(ids) + [Null] == consumed + rest
    requires consumed != [] && consumed[|consumed| - 1] == Null
    ensures consumed == AsItems(ids) + [Null] && rest == []
  {
    var k := |consumed| - 1;
    assert (consumed + rest)[k] == Null;
    assert |consumed| == |ids| + 1;
  }

  /** A worker that pops from a queue of lines only, with no shutdown, never
      sees NULL: it consumes the whole queue and then waits. */
  lemma LinesLeaveWorkerWaiting(ids: seq<LineId>, consumed: seq<Item>, rest: seq<Item>)
    requires AsItems(ids) == consumed + rest
    ensures consumed == [] || consumed[|consumed| - 1] != Null
  {
    if consumed != [] {
      var k := |consumed| - 1;
      assert (consumed + rest)[k] == consumed[k];
    }
  }

  /** The lines read before `stop` are those read before `next` followed
      by those between, and so are their matches. */
  lemma LinesUpTo(input: seq<LineId>, next: int, stop: int, isMatch: LineId -> bool)
    requires 0 <= next <= stop <= |input|
    ensures input[..stop] == input[..next] + input[next..stop]
    ensures MatchCount(AsItems(input[..stop]), isMatch) ==
      MatchCount(AsItems(input[..next]), isMatch) + MatchCount(AsItems(input[next..stop]), isMatch)
  {
    assert input[..stop] == input[..next] + input[next..stop];
    MatchCountOfLines(input[..next], input[next..stop], isMatch);
  }

  /** The sum of one count is that count. */
  lemma SumOfOne(xs: seq<int>)
    requires |xs| == 1
    ensures Sum(xs) == xs[0]
  {
    assert xs[..0] == [];
  }

  /** The worker woken on a queue of lines: it pops and frees all of them,
      adds their matches to `local_matches`, and waits again on the empty
      ring, having written nothing to its slot. */
  method DrainLines(b: Buffer, counts: array<int>, isMatch: LineId -> bool, matchesSoFar: nat, ghost ids: seq<LineId>)
    returns (matches: nat, freed: seq<LineId>)
    requires b.Valid() && !b.shuttingDown && b.Contents == AsItems(ids)
    requires counts.Length == 1
    modifies b, b.lines, counts
    ensures b.Valid() && b.lines == old(b.lines) && !b.shuttingDown && b.Contents == []
    ensures matches == matchesSoFar + MatchCount(AsItems(ids), isMatch)
    ensures freed == ids
    ensures counts[..] == old(counts[..])
  {
    var status, m, f, consumed := RunWorker(b, isMatch, 0, counts, matchesSoFar);
    LinesLeaveWorkerWaiting(ids, consumed, b.Contents);
    assert status == Blocked;
    assert consumed == consumed + b.Contents;
    LiveLinesOfLines(ids);
    matches, freed := m, f;
  }

  /** The read loop when no SIGINT arrives, on a ring that is not shutting
      down: it ends only at end of input, or at a push that waits on a full
      ring. It never signals shutdown and never frees a line itself. */
  method ReadUninterrupted(b: Buffer, input: seq<LineId>, next: int, resumed: bool)
    returns (done: bool, stop: int, managerFreed: seq<LineId>)
    requires b.Valid() && !b.shuttingDown && b.Contents == []
    requires Distinct(input) && 0 <= next <= |input|
    modifies b, b.lines
    ensures b.Valid() && b.lines == old(b.lines) && !b.shuttingDown && managerFreed == []
    ensures next <= stop <= |input| && b.Contents == AsItems(input[next..stop])
    ensures done <==> stop == |input|
    ensures !done ==> b.count == b.capacity && next < stop
  {
    var outcome;
    outcome, stop, managerFreed := ProduceLines(b, input, next, resumed, |input|);
    done := outcome == EndOfInput;
  }

  /** One round of the schedule: the manager reads and pushes lines from
      `next` on, and if a push waits on a full ring, the worker wakes and
      drains it. `done` says the input ended, leaving its last lines queued. */
  method Round(b: Buffer, counts: array<int>, input: seq<LineId>, next: int, resumed: bool, isMatch: LineId -> bool, matchesSoFar: nat)
    returns (done: bool, stop: int, matches: nat, workerFreed: seq<LineId>, managerFreed: seq<LineId>)
    requires b.Valid() && !b.shuttingDown && b.Contents == []
    requires counts.Length == 1 && Distinct(input) && 0 <= next <= |input|
    modifies b, b.lines, counts
    ensures b.Valid() && b.lines == old(b.lines) && !b.shuttingDown && counts[..] == old(counts[..])
    ensures managerFreed == []
    ensures done ==> b.Contents == AsItems(input[next..]) && matches == matchesSoFar
    ensures !done ==> next < stop <= |input| && b.Contents == []
    ensures !done ==> matches == matchesSoFar + MatchCount(AsItems(input[next..stop]), isMatch)
    ensures !done ==> workerFreed == input[next..stop]
  {
    done, stop, managerFreed := ReadUninterrupted(b, input, next, resumed);
    if done {
      return true, stop, matchesSoFar, [], managerFreed;
    }
    // the push waits on a full ring: the worker wakes and drains it
    matches, workerFreed := DrainLines(b, counts, isMatch, matchesSoFar, input[next..stop]);
  }

  /** The manager's read loop, with the worker draining the ring each time
      a push waits on a full ring, until the input ends. `drained` counts
      the lines the worker has taken; the rest are still queued. */
  method FeedLines(b: Buffer, counts: array<int>, input: seq<LineId>, isMatch: LineId -> bool)
    returns (drained: int, matches: nat, workerFreed: seq<LineId>, managerFreed: seq<LineId>)
    requires b.Valid() && !b.shuttingDown && b.Contents == []
    requires counts.Length == 1 && Distinct(input)
    modifies b, b.lines, counts
    ensures b.Valid() && b.lines == old(b.lines) && !b.shuttingDown
    ensures 0 <= drained <= |input| && b.Contents == AsItems(input[drained..])
    ensures matches == MatchCount(AsItems(input[..drained]), isMatch)
    ensures workerFreed == input[..drained] && managerFreed == []
    ensures counts[..] == old(counts[..])
  {
    var next, resumed := 0, false;
    matches, workerFreed, managerFreed := 0, [], [];
    while true
      invariant 0 <= next <= |input|
      invariant b.Valid() && b.lines == old(b.lines) && !b.shuttingDown && b.Contents == []
      invariant matches == MatchCount(AsItems(input[..next]), isMatch)
      invariant workerFreed == input[..next] && managerFreed == []
      invariant counts[..] == old(counts[..])
      decreases |input| - next
    {
      var done, stop, m, f, mf := Round(b, counts, input, next, resumed, isMatch, matches);
      if done {
        return next, matches, workerFreed, managerFreed + mf;
      }
      LinesUpTo(input, next, stop, isMatch);
      matches, workerFreed, managerFreed := m, workerFreed + f, managerFreed + mf;
      next, resumed := stop, true;
    }
  }

  /** The worker's last part: it takes every item left, up to and including
      the marker, and records its count in its slot. */
  method Consume(b: Buffer, counts: array<int>, isMatch: LineId -> bool, matchesSoFar: nat, ghost rest: seq<LineId>)
    returns (matches: nat, freed: seq<LineId>)
    requires b.Valid() && !b.shuttingDown && b.Contents == AsItems(rest) + [Null]
    requires counts.Length == 1
    modifies b, b.lines, counts
    ensures b.Valid() && b.Contents == []
    ensures matches == matchesSoFar + MatchCount(AsItems(rest), isMatch) && counts[0] == matches
    ensures freed == rest
  {
    ghost var queued := b.Contents;
    var status, m, f, consumed := RunWorker(b, isMatch, 0, counts, matchesSoFar);
    assert b.Contents == [] ==> consumed == queued;
    MarkerEndsRun(rest, consumed, b.Contents);
    MatchCountSnoc(AsItems(rest), Null, isMatch);
    LiveLinesSnoc(AsItems(rest), Null);
    LiveLinesOfLines(rest);
    matches, freed := m, f;
  }

  /** The manager's end-marker loop for one worker: it pushes the marker,
      and if the ring is full of lines, the worker first drains it and the
      push resumes into the empty ring. `left` is the lines queued before
      the marker. */
  method PushMarker(b: Buffer, counts: array<int>, isMatch: LineId -> bool, matchesSoFar: nat, ghost rest: seq<LineId>)
    returns (matches: nat, freed: seq<LineId>, ghost left: seq<LineId>)
    requires b.Valid() && !b.shuttingDown && b.Contents == AsItems(rest)
    requires counts.Length == 1
    modifies b, b.lines, counts
    ensures b.Valid() && b.lines == old(b.lines) && !b.shuttingDown && b.Contents == AsItems(left) + [Null]
    ensures || (left == rest && freed == [] && matches == matchesSoFar)
            || (left == [] && freed == rest && matches == matchesSoFar + MatchCount(AsItems(rest), isMatch))
    ensures counts[..] == old(counts[..])
  {
    matches, freed, left := matchesSoFar, [], rest;
    var outcome, pushed := PushEndMarkers(b, 1, 0, false);
    if outcome == MarkerBlocked {
      assert b.Contents == AsItems(rest) + Nulls(0);
      matches, freed := DrainThenMark(b, counts, isMatch, matchesSoFar, rest);
      left := [];
    } else {
      assert Nulls(1) == [Null];
    }
  }

  /** The marker's push waited on a ring full of lines: the worker drains
      it, and the push resumes into the empty ring. */
  method DrainThenMark(b: Buffer, counts: array<int>, isMatch: LineId -> bool, matchesSoFar: nat, ghost rest: seq<LineId>)
    returns (matches: nat, freed: seq<LineId>)
    requires b.Valid() && !b.shuttingDown && b.Contents == AsItems(rest)
    requires counts.Length == 1
    modifies b, b.lines, counts
    ensures b.Valid() && b.lines == old(b.lines) && !b.shuttingDown && b.Contents == [Null]
    ensures matches == matchesSoFar + MatchCount(AsItems(rest), isMatch) && freed == rest
    ensures counts[..] == old(counts[..])
  {
    matches, freed := DrainLines(b, counts, isMatch, matchesSoFar, rest);
    var outcome, pushed := PushEndMarkers(b, 1, 0, true);
    assert Nulls(1) == [Null];
  }

  /** The end of the schedule: the marker is queued after the last lines,
      then the worker pops what is left up to the marker and records its
      count. */
  method DeliverMarker(b: Buffer, counts: array<int>, isMatch: LineId -> bool, matchesSoFar: nat, ghost rest: seq<LineId>)
    returns (matches: nat, freed: seq<LineId>)
    requires b.Valid() && !b.shuttingDown && b.Contents == AsItems(rest)
    requires counts.Length == 1
    modifies b, b.lines, counts
    ensures b.Valid() && b.Contents == []
    ensures matches == matchesSoFar + MatchCount(AsItems(rest), isMatch) && counts[0] == matches
    ensures freed == rest
  {
    var soFar, drainedFreed, left := PushMarker(b, counts, isMatch, matchesSoFar, rest);
    var f;
    matches, f := Consume(b, counts, isMatch, soFar, left);
    freed := drainedFreed + f;
  }

  /** The whole schedule on a started ring: the worker frees every line
      and records the number of matching lines in its slot. */
  method RunOnRing(b: Buffer, counts: array<int>, input: seq<LineId>, isMatch: LineId -> bool)
    returns (workerFreed: seq<LineId>, managerFreed: seq<LineId>)
    requires b.Valid() && !b.shuttingDown && b.Contents == []
    requires counts.Length == 1 && Distinct(input)
    modifies b, b.lines, counts
    ensures b.Valid() && b.Contents == []
    ensures counts[0] == MatchCount(AsItems(input), isMatch)
    ensures workerFreed == input && managerFreed == []
  {
    var drained, matches, freed;
    drained, matches, freed, managerFreed := FeedLines(b, counts, input, isMatch);
    var m, f := DeliverMarker(b, counts, isMatch, matches, input[drained..]);
    LinesUpTo(input, drained, |input|, isMatch);
    assert input[..|input|] == input;
    workerFreed := freed + f;
  }

  /** One worker, a ring of any positive capacity, no SIGINT: start-up, the
      read loop with the worker draining the full ring, the end marker, the
      worker's last pops, the sum and `buffer_destroy`. */
  method SingleWorkerRun(capacity: int, input: seq<LineId>, isMatch: LineId -> bool)
    returns (total: int, workerFreed: seq<LineId>, managerFreed: seq<LineId>, destroyFreed: seq<LineId>)
    requires 0 < capacity && Distinct(input)
    ensures total == MatchCount(AsItems(input), isMatch)
    ensures workerFreed == input && managerFreed == [] && destroyFreed == []
  {
    var b', counts' := Start(capacity, 1);
    var b, counts := b', counts';
    workerFreed, managerFreed := RunOnRing(b, counts, input, isMatch);
    total := SumMatchCounts(counts, 1, 0);
    SumOfOne(counts[..1]);
    destroyFreed := b.Destroy();
  }
}
