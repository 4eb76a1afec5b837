/** The values carried by the bounded buffer. A queue slot holds a `char *`:
    either a heap-allocated line of text, identified here by its allocation,
    or NULL, the end-of-stream marker the manager pushes once per worker. */
module Items {

  /** Identity of one heap-allocated line (the pointer `getline` returned). */
  type LineId = nat

  datatype Item = Null | Line(id: LineId)

  /** The lines a run of items owns, in order; NULL markers own nothing. */
  function LiveLines(s: seq<Item>): (r: seq<LineId>)
    ensures |r| <= |s|
  {
    if s == [] then []
    else if s[|s| - 1].Null? then LiveLines(s[..|s| - 1])
    else LiveLines(s[..|s| - 1]) + [s[|s| - 1].id]
  }

  /** No line appears twice: every allocation is held in one place only. */
  predicate Distinct(ids: seq<LineId>) {
    forall i, j :: 0 <= i < j < |ids| ==> ids[i] != ids[j]
  }

  /** The items that carry the given lines, in the same order. */
  function AsItems(ids: seq<LineId>): (r: seq<Item>)
    ensures |r| == |ids|
    ensures forall i :: 0 <= i < |ids| ==> r[i] == Line(ids[i])
  {
    if ids == [] then [] else AsItems(ids[..|ids| - 1]) + [Line(ids[|ids| - 1])]
  }

  /** `n` end-of-stream markers. */
  function Nulls(n: nat): (r: seq<Item>)
    ensures |r| == n && forall i :: 0 <= i < n ==> r[i] == Null
  {
    seq(n, _ => Null)
  }

  /** One more item adds its line, if it carries one, at the end. */
  lemma LiveLinesSnoc(s: seq<Item>, x: Item)
    ensures LiveLines(s + [x]) == LiveLines(s) + (if x.Line? then [x.id] else [])
  {
    assert (s + [x])[..|s|] == s;
  }

  /** A run owns exactly the lines it carries. */
  lemma {:induction false} LiveLinesMembers(s: seq<Item>)
    ensures forall id :: id in LiveLines(s) <==> Line(id) in s
  {
    if s != [] {
      var s' := s[..|s| - 1];
      LiveLinesMembers(s');
      assert s == s' + [s[|s| - 1]];
    }
  }

  /** Wrapping lines into items and dropping the markers gives the lines back. */
  lemma {:induction false} LiveLinesOfLines(ids: seq<LineId>)
    ensures LiveLines(AsItems(ids)) == ids
  {
    if ids != [] {
      var ids' := ids[..|ids| - 1];
      LiveLinesOfLines(ids');
      assert AsItems(ids)[..|ids| - 1] == AsItems(ids');
    }
  }

  /** Wrapping two runs of lines wraps each of them, one after the other. */
  lemma AsItemsAppend(a: seq<LineId>, b: seq<LineId>)
    ensures AsItems(a + b) == AsItems(a) + AsItems(b)
  {
    var r := AsItems(a + b);
    forall i | 0 <= i < |a| + |b|
      ensures r[i] == (AsItems(a) + AsItems(b))[i]
    {
      if i < |a| {
        assert (a + b)[i] == a[i];
      } else {
        assert (a + b)[i] == b[i - |a|];
      }
    }
  }

  /** No line appears twice in a run of items (markers may repeat): every
      allocation is held in one place only. */
  predicate LinesOnce(s: seq<Item>) {
    forall i, j :: 0 <= i < j < |s| && s[i].Line? ==> s[i] != s[j]
  }

  /** Appending an item whose line is not in the run keeps each line once. */
  lemma LinesOnceSnoc(s: seq<Item>, x: Item)
    requires LinesOnce(s) && (x.Line? ==> x !in s)
    ensures LinesOnce(s + [x])
  {
  }

  /** Dropping the oldest item keeps each line once. */
  lemma LinesOnceTail(s: seq<Item>)
    requires LinesOnce(s) && s != []
    ensures LinesOnce(s[1..])
  {
  }

  /** Lines held once by a run are released once: its live lines are distinct. */
  lemma {:induction false} LinesOnceDistinct(s: seq<Item>)
    requires LinesOnce(s)
    ensures Distinct(LiveLines(s))
  {
    if s != [] {
      var s' := s[..|s| - 1];
      assert LinesOnce(s') by {
        forall i, j | 0 <= i < j < |s'| && s'[i].Line? ensures s'[i] != s'[j] {
          assert s'[i] == s[i] && s'[j] == s[j];
        }
      }
      LinesOnceDistinct(s');
      LiveLinesMembers(s');
    }
  }
}
