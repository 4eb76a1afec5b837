# Bounded buffer and log-analyzer core, in Dafny

This project models the concurrency core of a multi-threaded log analyzer
written in C. One manager thread reads a file line by line and hands each
heap-allocated line to a fixed-capacity ring buffer. N worker threads pop
lines, count those that contain a search term, and free them. When the
file ends, or a SIGINT arrives, the manager tries to push one NULL
end-of-stream marker per worker, and stops at the first push that is
refused. The workers meet at a barrier, and the thread the
barrier designates adds up the per-worker counts.

The model follows the C code. Each buffer operation runs under the
buffer's mutex, so it is one critical section, and the model writes it as
a sequential update of a Dafny class:

- `Buffer` has the fields `lines` (an array), `capacity`, `count`,
  `head`, `tail` and `shuttingDown`.
- A ghost sequence `Contents` holds the queued items, oldest first.
- `Valid()` ties the fields to `Contents`:
  - `tail == (head + count) mod capacity`;
  - slot `(head + i) mod capacity` holds item `i`;
  - every queued line appears once.

Where the C code would block in `pthread_cond_wait`, the method returns
`Wait`. The caller then models the wake-up by calling again. `buffer_push`
takes a `resumed` flag, because after a wake-up the C code tests
`shutting_down` before it tests for a full ring again.

An item is `Null` (the end marker) or `Line(id)`. The `id` stands for the
identity of one allocation made by `getline`. Freeing is modelled as a
returned sequence of ids (`freed`), so the contracts can say that each line
is freed once and by whom.

The modules:

- `Items` defines the items and the lines a run of items owns.
- `BoundedBuffer` is the ring buffer of buffer.h / buffer.c.
- `BufferProperties` holds client-side consequences of the buffer's
  contracts: FIFO order, draining after shutdown, a push after shutdown,
  the release of queued lines on destroy, and idempotent shutdown.
- `Worker` is the worker loop and the match count it computes.
- `Aggregation` is the serial thread's summation, and why the total does
  not depend on how items were shared out.
- `Manager` covers these pieces of `main`:
  - the argument check and start-up;
  - the newline strip;
  - the read loop;
  - the end-marker loop.
- `Pipeline` is one complete schedule for any ring capacity: one worker,
  no SIGINT. The manager pushes until a push waits on a full ring; the
  worker then drains the ring and waits on the empty one; the manager's
  push resumes. The marker's push may wait once more in the same way. The
  total is the number of matching lines, and every line is freed exactly
  once.

## Model

| member | source | states |
|---|---|---|
| BoundedBuffer.Wrap | buffer.c:64 | for indices below two laps, C's `%` on the ring is the linear wrap `Ring` used by the invariant |
| BoundedBuffer.RingPush | buffer.c:63-65 | storing an item that is not yet queued at `tail`, then advancing `tail` mod capacity, keeps the ring invariant and appends the item to the contents |
| BoundedBuffer.RingPop | buffer.c:88-91 | the slot at `head` holds the oldest item; clearing it and advancing `head` mod capacity keeps the invariant and drops exactly that item |
| BoundedBuffer.Buffer.constructor | buffer.c:5-15 | `buffer_init`: an empty ring of `capacity` slots; count, head and tail are 0; not shutting down; the invariant holds |
| BoundedBuffer.Buffer.Push | buffer.c:48-70 | returns true exactly when the ring had a free slot and this is not a resumed wait that found shutdown. On true: the line is written into slot `tail` only, `tail` advances mod capacity, `count` grows by one and the line is appended to the contents. False exactly when shutting down and either full or resumed. Waits exactly when full and not shutting down. Nothing changes unless the push succeeds. A non-full ring accepts a push even after shutdown |
| BoundedBuffer.Buffer.Pop | buffer.c:72-96 | on a non-empty ring, whatever the flag: returns the oldest item, sets its slot to NULL, advances `head` mod capacity and decrements `count`. On an empty ring: returns NULL when shutting down and waits otherwise, with no field changed |
| BoundedBuffer.Buffer.SignalShutdown | buffer.c:39-46 | sets `shutting_down` and changes nothing else; queued items stay |
| BoundedBuffer.Buffer.Destroy | buffer.c:21-37 | frees exactly the lines in the `count` occupied slots, from `head` in ring order, skipping NULL markers, each line once (`Distinct`); then releases the array. A second call frees nothing |
| BufferProperties.FifoRoundTrip | buffer.h:35-50 | items pushed into a ring with room for them are popped in the order they were pushed |
| BufferProperties.DrainAfterShutdown | buffer.h:44-48 | after shutdown, every queued item is still popped in order, and then the empty ring answers NULL |
| BufferProperties.PushAfterShutdown | buffer.c:48-65 | after shutdown, a push into a ring with a free slot succeeds and its line comes out again; a push into the full ring returns false |
| BufferProperties.DestroyReleasesRemaining | buffer.h:26-30 | destroying a ring that still holds items frees exactly their lines, once each, in queue order |
| BufferProperties.ShutdownTwice | buffer.c:39-46 | signalling shutdown a second time leaves every field as the first signal left it |
| Items.AsItemsAppend | 200104004045_main.c:189-205 | the items pushed for two runs of lines read one after the other are the items of the first run followed by those of the second |
| Items.LiveLinesSnoc | buffer.c:27-29 | one more item adds its line to the lines owned by a run, and a NULL marker adds nothing |
| Items.LiveLinesMembers | buffer.h:38 | a run of items owns exactly the lines it carries |
| Items.LiveLinesOfLines | 200104004045_main.c:201-205 | wrapping lines into items and collecting their lines gives back the same lines in the same order |
| Items.LinesOnceSnoc | buffer.h:38 | appending a line that the queue does not hold keeps every line held once |
| Items.LinesOnceTail | buffer.h:47 | popping the oldest item keeps every line held once |
| Items.LinesOnceDistinct | buffer.c:25-30 | when every line is held once, the lines released are pairwise distinct, so nothing is freed twice |
| Worker.MatchCountBound | 200104004045_main.c:45-59 | a worker never counts more matches than the lines it freed |
| Worker.MatchCountAppend | 200104004045_main.c:55-57 | the match count of two runs together is the sum of their counts |
| Worker.MatchCountOfLines | 200104004045_main.c:55-57 | the matches among two runs of lines read one after the other are those of the first run plus those of the second |
| Worker.MatchCountSnoc | 200104004045_main.c:55-57 | one more popped item adds 1 to the count exactly when it is a line that matches |
| Worker.MatchCountRemove | 200104004045_main.c:55-57 | removing one item from anywhere in a run removes exactly its own contribution from the count |
| Worker.SameRemainders | 200104004045_main.c:45-59 | taking equal items out of two runs that hold the same items leaves runs that hold the same items |
| Worker.MatchCountPermutation | 200104004045_main.c:45-59 | the count depends only on which items were consumed, not on their order |
| Worker.PopStep | 200104004045_main.c:46-51 | after one pop, the original queue is the consumed run plus the new item plus the rest; only a NULL can end the run |
| Worker.CountMatches | 200104004045_main.c:40-59 | the worker loop pops a prefix of the queue. Only its last item can be NULL, and it stops at the first NULL or when it would wait on an empty ring. `local_matches` becomes the count of matching lines in what it consumed. It frees exactly the lines it consumed, in order |
| Worker.RunWorker | 200104004045_main.c:37-61 | runs the loop; once the worker has received NULL, writes its count into slot `worker_id` of `worker_match_counts` and into no other slot. A blocked worker has written nothing |
| Aggregation.SumMatchCounts | 200104004045_main.c:66-70 | the serial thread's loop adds exactly `counts[0..g_num_workers)` to the running total |
| Aggregation.SumBounds | 200104004045_main.c:68-70 | with non-negative per-worker counts, the total is non-negative and at least each worker's count |
| Aggregation.SumOfWorkerCounts | 200104004045_main.c:61-70 | when each slot holds its worker's count, the sum of the slots is the match count of everything the workers consumed together |
| Aggregation.TotalIndependentOfSplit | 200104004045_main.c:61-70 | however the queued items were split among workers, the summed total is the number of matching items that were queued |
| Manager.CheckArguments | 200104004045_main.c:116-120 | execution continues exactly when buffer size and worker count are both positive |
| Manager.Start | 200104004045_main.c:133-146 | with positive arguments: a fresh, empty ring of the requested capacity that is not shutting down, and one zeroed counter slot per worker; with other arguments, nothing is built |
| Manager.TextOf | 200104004045_main.c:197-199 | the text of a C string is the prefix before the first NUL, and that prefix holds no NUL |
| Manager.StripNewline | 200104004045_main.c:197-199 | the in-place strip: for a non-empty line whose last character read is a newline, that character becomes NUL; nothing else changes |
| Manager.TextOfTerminated | 200104004045_main.c:197-199 | text that contains no NUL, followed by a NUL, reads back as that text |
| Manager.TextOfUpdateAfterNul | 200104004045_main.c:197-199 | writing a character after the first NUL of a line leaves its text unchanged |
| Manager.StripTerminates | 200104004045_main.c:197-199 | when the last character read is a newline with no NUL before it, overwriting it with NUL makes the text exactly the characters read before it |
| Manager.StripText | 200104004045_main.c:197-199 | for any line and any length `getline` returned, including lines with an embedded NUL: when the last character read is a newline and no NUL precedes it, the text after the strip is the characters read without that newline; otherwise the text is the text the line had before the strip |
| Manager.StripPlainText | 200104004045_main.c:197-199 | for a line without an embedded NUL, as `getline` leaves it (the characters read, then a NUL), the text after the strip is the characters read less one trailing newline, if there is one, and all of them otherwise |
| Manager.QueueNext | 200104004045_main.c:201-205 | handing over the next line appends it to the queue, and the lines after it are still unqueued |
| Manager.ProduceLines | 200104004045_main.c:189-218 | the read loop appends the lines from `from` up to `next`, in order, to the queue. It ends at end of input; or when the SIGINT flag is seen, signalling shutdown and freeing the line just read; or at a push that returns false (only possible while shutting down), freeing that line, which never enters the queue; or at a push that waits on a full ring. Only the SIGINT path sets the shutdown flag |
| Manager.PushEndMarkers | 200104004045_main.c:235-241 | appends at most `g_num_workers` NULL markers, one per successful push. It stops at the first push that returns false, which happens only while shutting down |
| Pipeline.MarkerEndsRun | 200104004045_main.c:45-52 | a worker that consumes lines followed by a marker, stopping at a NULL, has consumed the whole run |
| Pipeline.LinesLeaveWorkerWaiting | 200104004045_main.c:45-52 | a worker popping from a queue that holds only lines never meets NULL, so it stops only by waiting on the empty ring |
| Pipeline.LinesUpTo | 200104004045_main.c:189-218 | the lines read before one position are those read before an earlier position followed by those between, and so are their matches |
| Pipeline.DrainLines | 200104004045_main.c:40-59 | a worker woken on a ring of lines pops and frees every one of them, in order, adds their matches to `local_matches`, waits again on the empty ring, and has written nothing to `worker_match_counts` |
| Pipeline.ReadUninterrupted | 200104004045_main.c:189-218 | without SIGINT, on a ring that is not shutting down, the read loop ends only at end of input or at a push that waits on a full ring (after at least one line is queued); it never signals shutdown and frees no line itself |
| Pipeline.Round | 200104004045_main.c:189-218 | one round of the schedule: the manager queues lines from `next` on; if the ring fills, the worker drains it, so the ring is empty again, those lines are freed by the worker and their matches counted, and at least one line was taken |
| Pipeline.FeedLines | 200104004045_main.c:189-218 | the read loop alternated with the worker, for any capacity: at end of input the worker has freed and counted every line before `drained`, the lines from `drained` on are queued, and the manager has freed nothing |
| Pipeline.PushMarker | 200104004045_main.c:235-241 | the end-marker loop for one worker: the marker is queued after the lines still waiting, or, if the ring was full, after the worker has drained and counted them |
| Pipeline.DrainThenMark | 200104004045_main.c:235-241 | a marker push waiting on a ring full of lines completes once the worker has drained it, and the ring then holds only the marker |
| Pipeline.Consume | 200104004045_main.c:37-61 | a worker on a queue of lines followed by the marker consumes every item, frees every line and records its total number of matching lines in its slot |
| Pipeline.DeliverMarker | 200104004045_main.c:235-241 | after end of input, the marker is pushed and the worker takes every remaining line up to it; its slot holds its count of matches over all lines it popped, and the ring is empty |
| Pipeline.RunOnRing | 200104004045_main.c:37-241 | on a started ring, the whole schedule leaves the ring empty, the worker's slot holding the number of matching lines of the input, every line freed by the worker, in order, and none by the manager |
| Pipeline.SingleWorkerRun | 200104004045_main.c:17-256 | for any positive capacity, the printed total is the number of matching lines; the worker frees every line exactly once, the manager frees none, and `buffer_destroy` frees nothing more |

## Left out

- Threads, mutexes, condition variables and the barrier. Each buffer
  operation is one critical section. Blocking is the `Wait` outcome, and a
  wake-up is a repeated call. The model does not decide which thread the
  barrier designates, and it has no lost-wakeup or deadlock argument.
  Interleavings of several workers appear only through
  `Aggregation.TotalIndependentOfSplit`: the runs the workers consumed,
  together, hold exactly the queued items.
- Pipeline.SingleWorkerRun: composes one schedule with one worker and no
  SIGINT, in which the manager runs until its push waits on a full ring
  and the worker then runs until its pop waits on an empty one. Other
  schedules, and several workers, are covered only by the contracts of the
  individual operations and by `Aggregation.TotalIndependentOfSplit`.
- Spurious wake-ups: a woken push re-tests the flag and then the fullness,
  which is a call of `Push` with `resumed` set. A woken pop behaves as a
  fresh call.
- BoundedBuffer.Buffer.Push: requires that the pushed line is not already
  queued. In the C program the manager owns each line it pushes, so this
  always holds; `buffer_push` does not check it.
- Signal handling: `sigint_handler`, `sigaction` and the flag itself are
  not modelled. The read loop takes `interruptAt`, the position of the
  first line at which the flag is found set.
- An interrupted `getline`: the handler is installed without `SA_RESTART`
  (200104004045_main.c:127), so a SIGINT can make `getline` return -1.
  The loop then ends as if the file had ended, and
  200104004045_main.c:227-229 signals shutdown. In the model this is
  `ProduceLines` on the input up to that line, returning `EndOfInput`,
  followed by `SignalShutdown`.
- File I/O and output: `fopen`, `getline`, `fclose`, `printf`, `perror`,
  `write` and `usleep`. Lines are the ids `getline` would return. The
  fopen-failure branch (200104004045_main.c:176-182, 220-225) is only a
  call of `SignalShutdown` followed by `PushEndMarkers`, both of which are
  modelled.
- `strstr` is the predicate `isMatch` on lines. The strip is modelled on
  the characters of a line; the line ids carry no characters.
- Allocation failures: `malloc`/`calloc` failure and `exit` in
  `buffer_init`, the pthread creation and initialisation failure paths,
  and `cleanup_resources`. Allocation is total.
- `atoi`: only the positivity check after it is modelled.
- 32-bit `int` overflow of `count`, `local_matches` and
  `g_total_matches_summary` is not modelled. Counts are unbounded.
- Calls on a destroyed buffer, other than a second `buffer_destroy`.
  `pthread_mutex_destroy` and `pthread_cond_destroy` are left out.
- Shutdown does not make every later push fail. `buffer_push` fails after
  shutdown only when the ring is full, or when the push resumes from a
  wait (buffer.c:50-61). The model follows the code, and
  `BufferProperties.PushAfterShutdown` shows a successful push after
  shutdown.
