/** The sequential pieces of `main` in 200104004045_main.c: the argument
    check, the start-up of the shared state, the newline strip, the read loop
    that hands lines to the queue, and the end-of-stream markers.

    `getline` is modelled by the sequence of lines it would return, each a
    fresh allocation; the SIGINT flag, set asynchronously by the signal
    handler and never cleared, by the position of the first line after which
    the loop sees it set. */
module Manager {
  import opened Items
  import opened BoundedBuffer

  datatype Option<T> = None | Some(value: T)

  /** The two numeric arguments after `atoi`. */
  datatype Config = Config(capacity: int, numWorkers: int)

  /** The positivity check: `main` goes on only when both the buffer size
      and the number of workers are positive, and exits with failure otherwise. */
  function CheckArguments(capacity: int, numWorkers: int): (r: Option<Config>)
    ensures r.Some? <==> 0 < capacity && 0 < numWorkers
    ensures r.Some? ==> r.value.capacity == capacity && r.value.numWorkers == numWorkers
  {
    if capacity <= 0 || numWorkers <= 0 then None else Some(Config(capacity, numWorkers))
  }

  /** The shared state `main` builds once the arguments pass: `buffer_init`
      and the zeroed `worker_match_counts` of `calloc`. */
  method Start(capacity: int, numWorkers: int) returns (b: Buffer?, counts: array?<int>)
    ensures b != null <==> CheckArguments(capacity, numWorkers).Some?
    ensures counts != null <==> b != null
    ensures b != null && counts != null ==>
      && fresh(b) && fresh(b.lines) && fresh(counts)
      && b.Valid() && b.capacity == capacity && b.Contents == [] && !b.shuttingDown
      && counts.Length == numWorkers
      && forall i :: 0 <= i < numWorkers ==> counts[i] == 0
  {
    b, counts := null, null;
    var config := CheckArguments(capacity, numWorkers);
    if config.None? {
      return;
    }
    b := new Buffer(capacity);
    counts := new int[numWorkers](_ => 0);
  }

  /** The text of a C string: the characters before the first NUL. */
  function TextOf(s: seq<char>): (t: seq<char>)
    ensures |t| <= |s| && t == s[..|t|]
    ensures '\0' !in t
    ensures |t| < |s| ==> s[|t|] == '\0'
  {
    if s == [] || s[0] == '\0' then [] else [s[0]] + TextOf(s[1..])
  }

  /** The characters of `line` after the strip, given the length `getline`
      returned. */
  function Stripped(line: seq<char>, readLen: int): (r: seq<char>)
    requires 0 <= readLen <= |line|
  {
    if 0 < readLen && line[readLen - 1] == '\n' then line[readLen - 1 := '\0'] else line
  }

  /** The strip in the read loop: a trailing newline becomes the terminating
      NUL; no other character changes. */
  method StripNewline(line: array<char>, readLen: int)
    requires 0 <= readLen <= line.Length
    modifies line
    ensures line[..] == Stripped(old(line[..]), readLen)
  {
    if readLen > 0 && line[readLen - 1] == '\n' {
      line[readLen - 1] := '\0';
    }
  }

  /** Appending a NUL to text without one gives back that text. */
  lemma {:induction false} TextOfTerminated(t: seq<char>, rest: seq<char>)
    requires '\0' !in t
    ensures TextOf(t + ['\0'] + rest) == t
  {
    if t != [] {
      assert (t + ['\0'] + rest)[1..] == t[1..] + ['\0'] + rest;
      TextOfTerminated(t[1..], rest);
    }
  }

  /** Changing a character after the first NUL leaves the text as it was. */
  lemma {:induction false} TextOfUpdateAfterNul(s: seq<char>, j: int, c: char)
    requires 0 <= j < |s| && '\0' in s[..j]
    ensures TextOf(s[j := c]) == TextOf(s)
  {
    if s[0] != '\0' {
      assert s[j := c][1..] == s[1..][j - 1 := c];
      assert s[..j] == [s[0]] + s[1..][..j - 1];
      TextOfUpdateAfterNul(s[1..], j - 1, c);
    }
  }

  /** What the strip does to the text `strstr` later reads. When the last
      character read is a newline and no NUL comes before it, the text is
      the characters read without that newline. Otherwise the text is
      unchanged: either nothing was written, or the write lies after an
      embedded NUL that `getline` read and counted. */
  lemma StripText(line: seq<char>, readLen: int)
    requires 0 <= readLen <= |line|
    ensures TextOf(Stripped(line, readLen)) ==
      if 0 < readLen && line[readLen - 1] == '\n' && '\0' !in line[..readLen - 1]
      then line[..readLen - 1]
      else TextOf(line)
  {
    if 0 < readLen && line[readLen - 1] == '\n' {
      if '\0' !in line[..readLen - 1] {
        StripTerminates(line, readLen);
      } else {
        TextOfUpdateAfterNul(line, readLen - 1, '\0');
      }
    }
  }

  /** A trailing newline with no NUL before it becomes the end of the text. */
  lemma StripTerminates(line: seq<char>, readLen: int)
    requires 0 < readLen <= |line| && line[readLen - 1] == '\n'
    requires '\0' !in line[..readLen - 1]
    ensures TextOf(line[readLen - 1 := '\0']) == line[..readLen - 1]
  {
    var s := line[readLen - 1 := '\0'];
    assert s == line[..readLen - 1] + ['\0'] + s[readLen..];
    TextOfTerminated(line[..readLen - 1], s[readLen..]);
  }

  /** For a line with no embedded NUL, as `getline` leaves it (the
      `readLen` characters read, then a NUL), the strip removes exactly one
      trailing newline from the text and leaves any other line's text whole. */
  lemma StripPlainText(line: seq<char>, readLen: int)
    requires 0 <= readLen < |line| && line[readLen] == '\0'
    requires '\0' !in line[..readLen]
    ensures TextOf(Stripped(line, readLen)) ==
      if 0 < readLen && line[readLen - 1] == '\n' then line[..readLen - 1] else line[..readLen]
  {
    StripText(line, readLen);
    if 0 < readLen {
      assert line[..readLen - 1] == line[..readLen][..readLen - 1];
    }
    assert line == line[..readLen] + ['\0'] + line[readLen + 1..];
    TextOfTerminated(line[..readLen], line[readLen + 1..]);
  }

  /** How a call of `ProduceLines` ended: the file was read to its end, the
      SIGINT flag was seen, a push was refused, or a push is waiting on a
      full ring. */
  datatype ReadOutcome = EndOfInput | Interrupted | PushRefused | PushBlocked

  /** None of the lines from position `from` on is queued yet. */
  ghost predicate Unqueued(input: seq<LineId>, from: int, queue: seq<Item>)
    requires 0 <= from <= |input|
  {
    forall j :: from <= j < |input| ==> Line(input[j]) !in queue
  }

  /** Queueing the line at `i` after those from `from` keeps the queue equal
      to what it was plus the lines handed over, and the lines after it
      unqueued. */
  lemma QueueNext(input: seq<LineId>, from: int, i: int, base: seq<Item>, queue: seq<Item>)
    requires 0 <= from <= i < |input| && Distinct(input)
    requires queue == base + AsItems(input[from..i])
    requires Unqueued(input, i, queue)
    ensures queue + [Line(input[i])] == base + AsItems(input[from..i + 1])
    ensures Unqueued(input, i + 1, queue + [Line(input[i])])
  {
    assert input[from..i + 1][..i - from] == input[from..i];
  }

  /** The read loop of `main`, from the line at `from` on. Each line read is
      handed to the queue; `resumed` says whether the first push resumes one
      that was waiting on a full ring. The loop stops at the end of the
      input, at the first line after which the SIGINT flag is seen
      (`interruptAt`: the flag is signalled to the queue and the line just
      read is freed), or at the first push that fails (the manager frees
      that line). A resumed call continues inside `buffer_push`, so the flag
      is not tested again before its first push. `next` is the position of the line the loop stopped on;
      `freed` the lines the manager freed. */
  method ProduceLines(b: Buffer, input: seq<LineId>, from: int, resumed: bool, interruptAt: int)
    returns (outcome: ReadOutcome, next: int, freed: seq<LineId>)
    requires b.Valid()
    requires 0 <= from <= |input| && Distinct(input)
    requires Unqueued(input, from, b.Contents)
    modifies b, b.lines
    ensures b.Valid() && b.lines == old(b.lines) && b.capacity == old(b.capacity)
    ensures from <= next <= |input|
    ensures b.Contents == old(b.Contents) + AsItems(input[from..next])
    ensures Unqueued(input, next, b.Contents)
    ensures outcome == EndOfInput <==> next == |input|
    ensures next <= interruptAt || next == from || (resumed && next == from + 1)
    ensures outcome == Interrupted ==> interruptAt <= next && b.shuttingDown
    ensures outcome == PushRefused ==> b.shuttingDown && (next < interruptAt || (resumed && next == from))
    ensures outcome == PushBlocked ==> !b.shuttingDown && b.count == b.capacity
    ensures outcome == PushBlocked ==> next < interruptAt || (resumed && next == from)
    ensures b.shuttingDown <==> old(b.shuttingDown) || outcome == Interrupted
    ensures freed == if outcome in {Interrupted, PushRefused} then [input[next]] else []
  {
    var i := from;
    while i < |input|
      invariant from <= i <= |input|
      invariant b.Valid() && b.lines == old(b.lines) && b.capacity == old(b.capacity)
      invariant b.shuttingDown == old(b.shuttingDown)
      invariant b.Contents == old(b.Contents) + AsItems(input[from..i])
      invariant Unqueued(input, i, b.Contents)
      invariant i <= interruptAt || i == from || (resumed && i == from + 1)
    {
      if i >= interruptAt && !(resumed && i == from) {
        // sigint_received_flag is set: signal shutdown and leave the loop
        b.SignalShutdown();
        return Interrupted, i, [input[i]];
      }
      QueueNext(input, from, i, old(b.Contents), b.Contents);
      var r := b.Push(Line(input[i]), resumed && i == from);
      if r == Wait {
        return PushBlocked, i, [];
      }
      if r == Done(false) {
        return PushRefused, i, [input[i]];
      }
      i := i + 1;
    }
    return EndOfInput, i, [];
  }

  /** How a call of `PushEndMarkers` ended: every marker was pushed, a push
      was refused, or a push is waiting on a full ring. */
  datatype MarkerOutcome = AllPushed | MarkerRefused | MarkerBlocked

  /** The loop that pushes one NULL end-of-stream marker per worker, from
      the marker at `from` on, stopping at the first push that returns false.
      It never pushes more than `numWorkers` markers. */
  method PushEndMarkers(b: Buffer, numWorkers: int, from: int, resumed: bool)
    returns (outcome: MarkerOutcome, next: int)
    requires b.Valid()
    requires 0 <= from <= numWorkers
    modifies b, b.lines
    ensures b.Valid() && b.lines == old(b.lines) && b.capacity == old(b.capacity)
    ensures b.shuttingDown == old(b.shuttingDown)
    ensures from <= next <= numWorkers
    ensures b.Contents == old(b.Contents) + Nulls(next - from)
    ensures outcome == AllPushed <==> next == numWorkers
    ensures outcome == MarkerRefused ==> b.shuttingDown
    ensures outcome == MarkerBlocked ==> !b.shuttingDown && b.count == b.capacity
  {
    var i := from;
    while i < numWorkers
      invariant from <= i <= numWorkers
      invariant b.Valid() && b.lines == old(b.lines) && b.capacity == old(b.capacity)
      invariant b.shuttingDown == old(b.shuttingDown)
      invariant b.Contents == old(b.Contents) + Nulls(i - from)
    {
      var r := b.Push(Null, resumed && i == from);
      if r == Wait {
        return MarkerBlocked, i;
      }
      if r == Done(false) {
        return MarkerRefused, i;
      }
      assert Nulls(i + 1 - from) == Nulls(i - from) + [Null];
      i := i + 1;
    }
    return AllPushed, i;
  }
}
