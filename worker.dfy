/** `worker_function` in 200104004045_main.c: pop lines until a NULL comes
    back, count those that contain the search term, free each one, then record
    the count in the worker's own slot of `worker_match_counts`.

    The substring test (`strstr`) is the predicate `isMatch` on lines. */
module Worker {
  import opened Items
  import opened BoundedBuffer

  /** The number of live lines in `s` that satisfy the match predicate. */
  function MatchCount(s: seq<Item>, isMatch: LineId -> bool): (r: nat)
  {
    if s == [] then 0
    else
      var last := s[|s| - 1];
      MatchCount(s[..|s| - 1], isMatch) + (if last.Line? && isMatch(last.id) then 1 else 0)
  }

  /** No more matches than lines: every match is a line the worker frees. */
  lemma {:induction false} MatchCountBound(s: seq<Item>, isMatch: LineId -> bool)
    ensures MatchCount(s, isMatch) <= |LiveLines(s)|
  {
    if s != [] {
      MatchCountBound(s[..|s| - 1], isMatch);
    }
  }

  /** Counting is additive over concatenation. */
  lemma {:induction false} MatchCountAppend(a: seq<Item>, b: seq<Item>, isMatch: LineId -> bool)
    ensures MatchCount(a + b, isMatch) == MatchCount(a, isMatch) + MatchCount(b, isMatch)
    decreases |b|
  {
    if b == [] {
      assert a + b == a;
    } else {
      var b' := b[..|b| - 1];
      assert (a + b)[..|a + b| - 1] == a + b';
      MatchCountAppend(a, b', isMatch);
    }
  }

  /** The matching lines of two runs of lines read one after the other are
      those of the first run and those of the second. */
  lemma MatchCountOfLines(a: seq<LineId>, b: seq<LineId>, isMatch: LineId -> bool)
    ensures MatchCount(AsItems(a + b), isMatch) == MatchCount(AsItems(a), isMatch) + MatchCount(AsItems(b), isMatch)
  {
    AsItemsAppend(a, b);
    MatchCountAppend(AsItems(a), AsItems(b), isMatch);
  }

  /** The count of a single item. */
  lemma MatchCountOne(x: Item, isMatch: LineId -> bool)
    ensures MatchCount([x], isMatch) == if x.Line? && isMatch(x.id) then 1 else 0
  {
    assert [x][..0] == [];
  }

  /** One more item adds its own contribution to the count. */
  lemma MatchCountSnoc(s: seq<Item>, x: Item, isMatch: LineId -> bool)
    ensures MatchCount(s + [x], isMatch) == MatchCount(s, isMatch) + (if x.Line? && isMatch(x.id) then 1 else 0)
  {
    assert (s + [x])[..|s|] == s;
  }

  /** Taking one item out of a run takes its contribution out of the count. */
  lemma MatchCountRemove(front: seq<Item>, x: Item, back: seq<Item>, isMatch: LineId -> bool)
    ensures MatchCount(front + [x] + back, isMatch) ==
      MatchCount(front + back, isMatch) + (if x.Line? && isMatch(x.id) then 1 else 0)
  {
    MatchCountAppend(front + [x], back, isMatch);
    MatchCountAppend(front, [x], isMatch);
    MatchCountAppend(front, back, isMatch);
    MatchCountOne(x, isMatch);
  }

  /** Taking one item out of a run takes it out of the run's multiset. */
  lemma MultisetRemove(s: seq<Item>, j: int)
    requires 0 <= j < |s|
    ensures multiset(s[..j] + s[j + 1..]) == multiset(s) - multiset{s[j]}
  {
    assert s == s[..j] + [s[j]] + s[j + 1..];
  }

  /** Taking the last item of `a` and an equal item of `b` out of two runs
      with the same items leaves two runs with the same items. */
  lemma SameRemainders(a: seq<Item>, b: seq<Item>, j: int)
    requires multiset(a) == multiset(b) && a != []
    requires 0 <= j < |b| && b[j] == a[|a| - 1]
    ensures multiset(a[..|a| - 1]) == multiset(b[..j] + b[j + 1..])
  {
    MultisetRemove(a, |a| - 1);
    MultisetRemove(b, j);
    assert a[..|a| - 1] + a[|a|..] == a[..|a| - 1];
  }

  /** The count does not depend on the order of the items: any rearrangement
      of the same items has the same number of matches. */
  lemma {:induction false} MatchCountPermutation(a: seq<Item>, b: seq<Item>, isMatch: LineId -> bool)
    requires multiset(a) == multiset(b)
    ensures MatchCount(a, isMatch) == MatchCount(b, isMatch)
    decreases |a|
  {
    if a == [] {
      assert |b| == |multiset(b)| == 0;
    } else {
      var k := |a| - 1;
      var x := a[k];
      assert x in multiset(b);
      var j :| 0 <= j < |b| && b[j] == x;
      var front, back := b[..j], b[j + 1..];
      assert a == a[..k] + [x];
      assert b == front + [x] + back;
      SameRemainders(a, b, j);
      MatchCountPermutation(a[..k], front + back, isMatch);
      MatchCountSnoc(a[..k], x, isMatch);
      MatchCountRemove(front, x, back, isMatch);
    }
  }

  /** One pop of the worker loop: the popped item moves from the queue to the
      end of what this worker has consumed, and as long as it is a line every
      consumed item so far is one. */
  lemma PopStep(orig: seq<Item>, consumed: seq<Item>, queued: seq<Item>, rest: seq<Item>, x: Item)
    requires orig == consumed + queued && queued == [x] + rest
    requires forall i :: 0 <= i < |consumed| ==> consumed[i].Line?
    ensures orig == (consumed + [x]) + rest
    ensures x.Line? ==> forall i :: 0 <= i < |consumed + [x]| ==> (consumed + [x])[i].Line?
    ensures forall i :: 0 <= i < |consumed + [x]| - 1 ==> (consumed + [x])[i].Line?
  {
  }

  /** How a call of `RunWorker` ended: the worker received NULL and recorded
      its count, or it is waiting inside `buffer_pop` on an empty ring. */
  datatype Status = Finished | Blocked

  /** The pop/count loop of `worker_function`, run against the shared ring for
      as long as it can proceed. `matchesSoFar` is `local_matches` on entry (0
      at the start, the value returned by a `Blocked` call when resumed after a
      wake); `freed` lists the lines this call freed, in order; `consumed` the
      items it popped, of which only the last can be NULL. */
  method CountMatches(b: Buffer, isMatch: LineId -> bool, matchesSoFar: nat)
    returns (status: Status, localMatches: nat, freed: seq<LineId>, ghost consumed: seq<Item>)
    requires b.Valid()
    modifies b, b.lines
    ensures b.Valid() && b.lines == old(b.lines) && b.shuttingDown == old(b.shuttingDown)
    ensures old(b.Contents) == consumed + b.Contents
    ensures forall i :: 0 <= i < |consumed| - 1 ==> consumed[i].Line?
    ensures status == Finished <==>
      (|consumed| > 0 && consumed[|consumed| - 1] == Null) || (b.Contents == [] && b.shuttingDown)
    ensures status == Blocked ==> b.Contents == [] && !b.shuttingDown
    ensures localMatches == matchesSoFar + MatchCount(consumed, isMatch)
    ensures freed == LiveLines(consumed)
  {
    localMatches, freed := matchesSoFar, [];
    consumed := [];
    while true
      invariant b.Valid() && b.lines == old(b.lines) && b.shuttingDown == old(b.shuttingDown)
      invariant old(b.Contents) == consumed + b.Contents
      invariant forall i :: 0 <= i < |consumed| ==> consumed[i].Line?
      invariant localMatches == matchesSoFar + MatchCount(consumed, isMatch)
      invariant freed == LiveLines(consumed)
      decreases |b.Contents|
    {
      ghost var queued := b.Contents;
      var r := b.Pop();
      if r == Wait {
        return Blocked, localMatches, freed, consumed;
      }
      var line := r.value;
      if line == Null {
        // an end-of-stream marker, or a ring that is empty and shutting down
        if queued != [] {
          PopStep(old(b.Contents), consumed, queued, b.Contents, Null);
          MatchCountSnoc(consumed, Null, isMatch);
          LiveLinesSnoc(consumed, Null);
          consumed := consumed + [Null];
        }
        return Finished, localMatches, freed, consumed;
      }
      // strstr(line, search_term) != NULL
      if isMatch(line.id) {
        localMatches := localMatches + 1;
      }
      freed := freed + [line.id];
      MatchCountSnoc(consumed, line, isMatch);
      LiveLinesSnoc(consumed, line);
      PopStep(old(b.Contents), consumed, queued, b.Contents, line);
      consumed := consumed + [line];
    }
  }

  /** `worker_function`: the loop, then, once it has received NULL, the write
      of the worker's count into its own slot of `worker_match_counts` and
      nowhere else. A blocked worker has written nothing yet. */
  method RunWorker(b: Buffer, isMatch: LineId -> bool, workerId: int, counts: array<int>, matchesSoFar: nat)
    returns (status: Status, localMatches: nat, freed: seq<LineId>, ghost consumed: seq<Item>)
    requires b.Valid()
    requires 0 <= workerId < counts.Length
    modifies b, b.lines, counts
    ensures b.Valid() && b.lines == old(b.lines) && b.shuttingDown == old(b.shuttingDown)
    ensures old(b.Contents) == consumed + b.Contents
    ensures forall i :: 0 <= i < |consumed| - 1 ==> consumed[i].Line?
    ensures status == Finished <==>
      (|consumed| > 0 && consumed[|consumed| - 1] == Null) || (b.Contents == [] && b.shuttingDown)
    ensures status == Blocked ==> b.Contents == [] && !b.shuttingDown
    ensures localMatches == matchesSoFar + MatchCount(consumed, isMatch)
    ensures freed == LiveLines(consumed)
    ensures counts[..] == if status == Finished then old(counts[..])[workerId := localMatches] else old(counts[..])
  {
    status, localMatches, freed, consumed := CountMatches(b, isMatch, matchesSoFar);
    if status == Finished {
      counts[workerId] := localMatches;
    }
  }
}
