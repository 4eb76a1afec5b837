/** The summary computed by the thread that `pthread_barrier_wait` designates
    in `worker_function` (200104004045_main.c): the sum of the per-worker match
    counts, added to the global `g_total_matches_summary`, which starts at 0. */
module Aggregation {
  import opened Items
  import opened Worker

  /** The sum of a sequence of counts. */
  function Sum(xs: seq<int>): (r: int) {
    if xs == [] then 0 else Sum(xs[..|xs| - 1]) + xs[|xs| - 1]
  }

  /** The items of several runs, one run after another. */
  function Flatten(parts: seq<seq<Item>>): (r: seq<Item>) {
    if parts == [] then [] else Flatten(parts[..|parts| - 1]) + parts[|parts| - 1]
  }

  /** The loop on the serial thread: add `counts[0..numWorkers)` to `start`,
      the value of `g_total_matches_summary` before it. */
  method SumMatchCounts(counts: array<int>, numWorkers: int, start: int) returns (total: int)
    requires 0 <= numWorkers <= counts.Length
    ensures total == start + Sum(counts[..numWorkers])
  {
    total := start;
    var i := 0;
    while i < numWorkers
      invariant 0 <= i <= numWorkers
      invariant total == start + Sum(counts[..i])
    {
      assert counts[..i + 1][..i] == counts[..i];
      total := total + counts[i];
      i := i + 1;
    }
  }

  /** Counts that are all non-negative add up to a non-negative total, and
      none exceeds it. */
  lemma {:induction false} SumBounds(xs: seq<int>)
    requires forall i :: 0 <= i < |xs| ==> 0 <= xs[i]
    ensures 0 <= Sum(xs)
    ensures forall i :: 0 <= i < |xs| ==> xs[i] <= Sum(xs)
  {
    if xs != [] {
      SumBounds(xs[..|xs| - 1]);
    }
  }

  /** When each slot holds the match count of the run its worker consumed,
      the sum of the slots is the match count of all runs together. */
  lemma {:induction false} SumOfWorkerCounts(parts: seq<seq<Item>>, counts: seq<int>, isMatch: LineId -> bool)
    requires |counts| == |parts|
    requires forall i :: 0 <= i < |parts| ==> counts[i] == MatchCount(parts[i], isMatch)
    ensures Sum(counts) == MatchCount(Flatten(parts), isMatch)
  {
    if parts != [] {
      var k := |parts| - 1;
      SumOfWorkerCounts(parts[..k], counts[..k], isMatch);
      MatchCountAppend(Flatten(parts[..k]), parts[k], isMatch);
    }
  }

  /** The printed total does not depend on how the queued items were shared
      out among the workers: whatever the split, as long as the runs the
      workers consumed together hold exactly the items that were queued, the
      total is the number of matching items queued. */
  lemma TotalIndependentOfSplit(parts: seq<seq<Item>>, counts: seq<int>, queued: seq<Item>, isMatch: LineId -> bool)
    requires |counts| == |parts|
    requires forall i :: 0 <= i < |parts| ==> counts[i] == MatchCount(parts[i], isMatch)
    requires multiset(Flatten(parts)) == multiset(queued)
    ensures Sum(counts) == MatchCount(queued, isMatch)
  {
    SumOfWorkerCounts(parts, counts, isMatch);
    MatchCountPermutation(Flatten(parts), queued, isMatch);
  }
}
