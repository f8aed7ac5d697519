# Verified model of ayafileio

ayafileio is an asyncio file library: a Python handle with read-ahead and newline modes on top of
C++ backends that talk to the kernel asynchronously. This project models its four fast or concurrent
mechanisms in Dafny and proves that each agrees with a simple specification.

`dafny verify dfyconfig.toml` checks everything.

**The buffered handle** (`Newlines`, `RawFile`, `AsyncFile`, `AsyncFileRuns`). `readline` reads ahead
into a private buffer, so the backend stands beyond the position the user has reached. The class
`AsyncFile` is proved, operation by operation and over whole runs, to act as on an unbuffered file at
the logical position, however the backend cuts its reads into non-empty pieces. Line search is tied to
a reference split of the whole content; newline translation to a one-pass scanner.

**Asynchronous requests** (`Positions`, `Reservations`, `WriteOrder`, `Quarantine`, `CloseWait`, `Iocp`,
`Submissions`, `Closers`, `IocpContext`). A submission reserves its byte range from a cached position and file size; the kernel
transfers later, in any order. The cached size is characterised over every run, awaited calls are
proved equal to the backend that asks the file system for the size every time, the handle's run theorem
holds over both, and completion order is proved irrelevant for reads and for writes that do not
overlap. `Iocp` is the life of requests and sessions: submissions that complete at once, later or not at
all, repeated completions, the quarantine, and concurrent closers; `Submissions` and `Closers` add that what
is submitted is settled and that what is closed gets closed, exactly once and within a bounded number of
steps. `IocpContext` ties the code that runs under the interpreter lock to its steps.

**The result batcher** (`BatchProtocol`, `Batcher`, `Median`). The dispatch-pending protocol with
scheduling outside the lock that may fail, for any number of threads; and the adaptive controller with
its 128-slot ring and selection-based median.

**Memory** (`Pool`, `PoolOwnership`, `Crc32c`, `Snapshots`, `Tracker`). Size classes and the ownership of
pooled buffers over every run of several threads; the tracker's tables and address index; CRC-32C
against the polynomial division of section 12.1 of RFC 3720 (without the final complement, as the code
computes it); chunked checksums and their incremental update.

Clocks, allocators, the kernel and the file system are parameters or nondeterministic steps. A byte
stands for a character. Futures are counters of how often they were answered.

## What the code does not do

Where a promise of the code fails, the exact condition is proved:

- A seek with an invalid `whence` is rejected by the backend only after the read-ahead was dropped: the
  position stays where it was if and only if nothing was buffered (`AsyncFile.Seek`).
- Binary `readline` appends an LF after a lone CR at the end of the file: the lines joined are the
  content if and only if it does not end in CR (`BinaryLinesAreTheContent`).
- A write at a negative position (a seek may leave one) breaks the cached size, except below -1 with its
  end inside it. Below -1 the kernel refuses it, but the size is raised all the same because the code
  compares unsigned, and the cached backends then read nothing. At -1 the kernel gives the offset a
  meaning of its own (the end of the file for `WriteFile`, the position of the open file for io_uring),
  which the cache does not follow (`WriteKeepsCache`, `CompleteKeepsSize`, `NegativeWriteBreaksTheCache`,
  `AwaitedIsUncached`).
- After a truncation under outstanding writes the cached size ends right if and only if none of them ends
  beyond the cut (`TruncateKeepsCache`, `TruncateEndsRightIff`).
- In text mode with universal newlines, successive reads that cut a CR LF pair return two LFs, and that is
  the only way they differ from one read (`ReadsJoinIff`).
- Two overlapping outstanding writes may be completed in either order if and only if they agree wherever
  both write (`SwappedIffAgree`).
- The compare-and-swap guard against repeated completions holds if and only if the request has not been
  deleted or its address belongs to a processed one (`RepetitionIsHarmlessIff`); a repetition a full
  second late can be taken for the completion of another request (`LateRepetitionHitsAnotherRequest`,
  reachable by `ReusedIsReachable`). No repetition makes a future be answered or an object be deleted
  twice (`RequestsOverEveryRun`).
- `close_all_sessions` drops a running session from the map without closing it if and only if no sweep
  has it on its list (`DroppedByClear`, `StrandedIsReachable`); from then on its handle stays open and its
  outstanding futures unanswered (`StrandedForEver`). It cannot happen as long as nothing is opened after
  the first sweep has begun (`NoneIsStrandedFromTheStart`).
- A worker that ends drops, undeleted, exactly the requests it pushed less than a second before its last
  drain (`DroppedAtExitIff`, `FreedUnlessHeldAtExit`, `DroppedIsReachable`). A thread that ends loses
  exactly the buffers in its cache (`EndLosesItsCache`).
- Results stay in the batch at rest if and only if every flush came while a failed thread had yet to clear
  the flag and nothing was on its way before (`RestIsCompleteIff`).
- A snapshot taken with chunk size 0 and checked by `mem_check_ex` under another size can fail on
  unchanged data, and `AlwaysPassesIff` says for which sizes it cannot; it can also pass corrupted data
  (`CorruptionCanPass`).
- The 64-bit sum in `mem_snapshot_update` can wrap, and then a change is missed: the update agrees with a
  full recompute for every content if and only if it still reaches the last chunk of the range
  (`IncrementalIsFullIff`, `WrappedRangeMisses`).
- The end of the range in `check_bounds` can wrap; the answer is then right if and only if no live block
  starts at or below the pointer, or the last that does ends before the wrapped end (`LiveAnswerRightIff`,
  `BoundsRightIff`).
- A pooled buffer that is large enough is used if and only if the bucket of the least size that would do
  is not empty (`PooledIsUsedIff`, `EmptyBucketHidesLargerOnes`).

Where the documentation is silent the model follows the code: a `newline` other than the documented ones
is accepted and recognises the same lines as `"\r"`.

## Model

| member | source | states |
|---|---|---|
| Newlines.FindLineEndIsFirstTerminator | ayafileio/_async_file.py:29-62 | The search finds the first position where a terminator of the mode starts, and its length; it finds nothing if and only if none starts anywhere. A CR at the very end starts one only with `eof`. |
| Newlines.LineLenUnique | ayafileio/_async_file.py:56-62 | The reference split is determined: the first position where a line ends (or the end of the content) is the only value the line length can have. |
| Newlines.LinesLoseNothing | ayafileio/_async_file.py:234-269 | The reference split loses and repeats no byte: the lines put together are the content, in every newline mode. |
| Newlines.LinesAreTheCuts | ayafileio/_async_file.py:29-62 | The split cuts at a position if and only if a line ends there; in the universal modes that is after an LF, or after a CR not followed by LF, so a CR LF pair is never cut. |
| Newlines.FindLineEndIsFirstLine | ayafileio/_async_file.py:29-62 | Whatever follows the buffered part: a hit is the end of the first line of all that is still to come, and a miss means no line ends inside the buffer unless more follows. Independent of where chunks were cut. |
| Newlines.FindLineEndAtEof | ayafileio/_async_file.py:29-62 | With `eof` set, nothing is found if and only if no line ends in the content, and a hit is the first line end, a lone CR at the very end included. |
| Newlines.TwoPassesAreOne | ayafileio/_async_file.py:65-70 | The two-pass universal translation equals a one-pass scanner that turns each CR LF pair and each lone CR into one LF. |
| Newlines.ReadTranslation | ayafileio/_async_file.py:65-70 | Reading translates in universal mode only; with every other `newline`, the empty one among them, the text is handed over unchanged. |
| Newlines.NormalizeUnits | ayafileio/_async_file.py:65-70 | A CR LF pair, a lone CR and a lone LF become one LF each. |
| Newlines.NormalizeFixpoint | ayafileio/_async_file.py:65-70 | Universal translation is idempotent and leaves a text alone if and only if it has no CR. |
| Newlines.NormalizeSplit | ayafileio/_async_file.py:65-70 | Universal translation distributes over every split that does not separate a CR from the LF after it. |
| Newlines.NormalizeSplitIff | ayafileio/_async_file.py:65-70 | It distributes over exactly those splits. |
| Newlines.ReadsJoinIff | ayafileio/_async_file.py:226-231 | In universal text mode two successive reads return what one read of both pieces would, if and only if they do not cut a CR LF pair between them. |
| Newlines.WriteThenUniversalRead | ayafileio/_async_file.py:65-81 | Writing in any mode, with either line separator, and reading back in universal mode gives the text back if and only if it has no CR. |
| Newlines.WriteTranslation | ayafileio/_async_file.py:73-81 | Each LF of the text becomes the separator of the mode (the line separator of the system in universal mode, CR, or CR LF), every other byte stays, and each stands where the separators before it have moved it; the other modes write the text unchanged. |
| Newlines.WrittenWithCr | ayafileio/_async_file.py:77-78 | In mode "\r" no byte moves: the file has a CR where the text has an LF, and else the byte of the text. |
| RawFile.Backend.Read | src/backends/thread_io_backend.cpp:230-261 | Reads the span the size of the file allows at the position and steps over it; nothing at the end of the file; EINVAL at a negative position, which still advances; so too by a cached size while that is right. |
| RawFile.Backend.ReadAt | src/backends/thread_io_backend.cpp:310-346 | The span at the given offset; the position does not change. |
| RawFile.Backend.Write | src/backends/thread_io_backend.cpp:392-413 | Overwrites at the position, or at the end in append mode, filling a gap with zeros, and moves behind the data; a cached size stays right unless the position is negative. |
| RawFile.Backend.Seek | src/backends/thread_io_backend.cpp:449-469 | The three whence bases, no clamping; an invalid whence changes nothing. |
| RawFile.Backend.Truncate | src/backends/thread_io_backend.cpp:600-615 | Resizes with zero fill and pulls a position beyond the new end back to it. |
| RawFile.WriteThenRead | src/backends/thread_io_backend.cpp:230-413 | Reading back from where a write began gives the data written and ends where the write ended; an append leaves them behind the old content. |
| RawFile.SeekThenRead | src/backends/thread_io_backend.cpp:449-469 | What is read behind a seek is the file from the offset counted from the start, from the old position, or from the end. |
| RawFile.TruncateThenRead | src/backends/thread_io_backend.cpp:600-615 | A truncation leaves a position inside the file alone and puts any other at the end; what was kept reads as before and what was added as zeros. |
| AsyncFiles.AsyncFile.Open | ayafileio/_async_file.py:136-160 | Fails if and only if a binary handle is given a newline argument; else nothing is buffered and the logical file is the backend's. |
| AsyncFiles.AsyncFile.TakeBuffered | ayafileio/_async_file.py:190-200 | The bytes taken are the next bytes of the file at the logical position, as many as asked for or all that is buffered. |
| AsyncFiles.AsyncFile.RewindReadahead | ayafileio/_async_file.py:202-212 | Empties the buffer without moving the logical position. |
| AsyncFiles.AsyncFile.Read | ayafileio/_async_file.py:214-232 | One read of the unbuffered file at the logical position, whether or not some of it was read ahead: its very bytes in binary mode and in every text mode but the universal one, where they go through the one-pass scanner. |
| AsyncFiles.AsyncFile.ReadLine | ayafileio/_async_file.py:234-269 | Returns the first line of the reference split of what remains at the logical position and steps over exactly it, for every chunking; terminates on the remaining length. |
| AsyncFiles.AsyncFile.ReadLines | ayafileio/_async_file.py:271-285 | Returns the first lines of what remains, the fewest that reach a positive hint, else all, and stands behind them. |
| AsyncFiles.AsyncFile.ReadInto | ayafileio/_async_file.py:344-356 | A non-empty prefix of the unbuffered read (all of it when nothing was buffered); the rest of the caller's buffer is untouched. |
| AsyncFiles.AsyncFile.Chunk | ayafileio/_async_file.py:358-414 | Run to its end without other calls in between: the yielded blocks are non-empty, at most the chunk size, and put together they are the rest of the file. |
| AsyncFiles.AsyncFile.ChunkNext | ayafileio/_async_file.py:409-414 | One resumption of the generator is a read at the logical position of that moment, whatever was called since the last one; `Run` covers it among the other operations. |
| AsyncFiles.AsyncFile.Write | ayafileio/_async_file.py:418-434 | The write of the unbuffered file at the logical position; what is sent is the data in binary mode, and in text mode the data with exactly its LFs replaced by the separator of the handle's mode. |
| AsyncFiles.AsyncFile.Seek | ayafileio/_async_file.py:438-448 | The seek of the unbuffered file; with an invalid whence the position is unchanged if and only if nothing was buffered. |
| AsyncFiles.AsyncFile.Tell | ayafileio/_async_file.py:460-462 | The logical position. |
| AsyncFiles.AsyncFile.Truncate | ayafileio/_async_file.py:464-471 | The truncation of the unbuffered file. |
| AsyncFiles.AsyncFile.ReadAt | ayafileio/_async_file.py:300-321 | The positional read of the unbuffered file; neither buffer nor position is touched. |
| AsyncFiles.AsyncFile.Close | ayafileio/_async_file.py:455-458 | Closes the handle for every later operation; the logical file is untouched. |
| AsyncFileRuns.Run | ayafileio/_async_file.py:186-471 | Every run of operations on a handle, over a backend that asks for the size every time or one that caches it, is a run of the unbuffered file: a sequence of plain states, each step one the specification without read-ahead allows, with the answers the caller got and the separators of the handle's mode in what was written. Over a caching backend up to the first write at a negative position. |
| AsyncFiles.RenderedNonEmpty | ayafileio/_async_file.py:258-264 | Only the end of the file reads as an empty line. |
| AsyncFiles.RenderedText | ayafileio/_async_file.py:258-262 | In text mode the LF appended after a final CR is invisible: the line is the translation of its bytes in universal mode, and its bytes in every other. |
| AsyncFiles.LinesJoinToRead | ayafileio/_async_file.py:65-70 | In text mode, all lines put together are what `read(-1)` returns from the same state: the content itself in every mode but the universal one, and there what the one-pass scanner makes of it. |
| AsyncFiles.BinaryLinesJoin | ayafileio/_async_file.py:256-263 | In binary mode, all lines put together are the content, plus one LF if it ends in CR. |
| AsyncFiles.BinaryLinesAreTheContent | ayafileio/_async_file.py:256-263 | They are the content if and only if it does not end in CR. |
| Positions.Session.SubmitRead | src/iocp_context.cpp:594-614 | Reserves what the cached size leaves at the position, all of it for a negative size, or answers with nothing. |
| Positions.Session.SubmitReadAt | src/iocp_context.cpp:669-710 | Reserves at the given offset without moving the position; a negative offset is an error. |
| Positions.Session.SubmitReadInto | src/iocp_context.cpp:1024-1049 | The same reservation as a read of the buffer's length. |
| Positions.Session.SubmitWrite | src/iocp_context.cpp:785-804 | Reserves at the position, or at the cached end in append mode, moves behind it and raises the cached size, comparing unsigned. |
| Positions.Session.SubmitSeek | src/iocp_context.cpp:856-871 | The three whence bases, the end being the cached one. |
| Positions.Session.NoteTruncated | src/iocp_context.cpp:989-993 | Sets the cached size and pulls the position back. |
| Positions.WriteKeepsCache | src/iocp_context.cpp:793-804 | Submitting a write keeps the cached size exact if and only if its offset is not negative, or is below -1 with its end inside the cached size. At -1 the kernel picks the place, and the cache cannot know it. |
| Positions.TruncateKeepsCache | src/iocp_context.cpp:989-993 | A truncation makes the cached size right at once if and only if no outstanding write ends beyond the new size. |
| Positions.TruncateEndsRightIff | src/iocp_context.cpp:989-993 | Over every run of completions, reads and seeks after a truncation that ends with no write outstanding, the cached size ends as the size of the file if and only if no write outstanding at the truncation ended beyond the cut. |
| Positions.CompleteKeepsSize | src/iocp_context.cpp:801-809 | Completing any request, in any order, keeps the cached size right, if and only if it is not a write at -1 that the kernel has put beyond it. |
| Positions.CompleteKeepsCache | src/iocp_context.cpp:801-804 | With no write at -1 outstanding, every completion keeps the cached size exact. |
| Positions.CacheStaysExact | src/backends/io_uring_backend.cpp:376-388 | Over every run of careful calls and completions in any order, the cached size is the maximum of the real size and the ends of all outstanding writes. |
| Positions.QuietCache | src/backends/io_uring_backend.cpp:298-309 | With no write outstanding the cached size is the size of the file. |
| Reservations.AwaitedIsUncached | src/backends/io_uring_backend.cpp:298-420 | Awaited, a cached call leaves the same file and position and gives the same answer as the backend that asks for the size every time, if and only if it does not transfer at offset -1 by a kernel that gives -1 a meaning of its own. |
| Reservations.AwaitKeepsSize | src/backends/io_uring_backend.cpp:376-388 | After every awaited call other than a write at a negative position the cached size is again the size of the file. |
| Reservations.AwaitedRunIsUncached | src/backends/thread_io_backend.cpp:230-261 | A caller who awaits every call, and neither writes at a negative position nor has the kernel transfer at -1, cannot tell the cached backends from the uncached one over any run. |
| Reservations.Perform | src/backends/thread_io_backend.cpp:230-470 | The relation used next is what the contracts of the modelled backend promise, operation by operation. |
| Reservations.UncachedIsBackendStep | src/backends/thread_io_backend.cpp:230-615 | Every step of the uncached reference is one these contracts allow a backend that delivers all it can. |
| Reservations.AwaitedRunIsBackendRun | src/backends/io_uring_backend.cpp:298-540 | Every awaited run of the cached backends, without writes at negative positions and transfers at -1, is step by step one these contracts allow. |
| Reservations.PerformMirrored | src/backends/io_uring_backend.cpp:298-540 | The caching backend the handle is proved on is the session whose calls are awaited one by one: same answers, file, position and cached size, whether or not the size stays right. |
| Reservations.NegativeWriteBreaksTheCache | src/iocp_context.cpp:801-803 | After a refused write at a position below -1 the cached backend answers a read of a non-empty file with nothing. |
| Reservations.ReadsDeliverTheFile | src/iocp_context.cpp:591-614 | However reads, positional reads and completions interleave: the answers of the advancing reads in submission order are the file from the first position to the last, and every read is answered with its own slice. |
| WriteOrder.OrderDoesNotMatter | src/iocp_context.cpp:793-814 | As long as no accepted write overlaps an outstanding one, every completion order leaves the file in which each write was done when it was submitted. |
| WriteOrder.SwappedIffAgree | src/iocp_context.cpp:793-814 | Two writes can be done in either order if and only if they agree on every byte both write. |
| WriteOrder.AppendsTile | src/iocp_context.cpp:793-814 | In append mode, for every interleaving with reads and seeks and every completion order: the file ends as the old content followed by the buffers in submission order, and the cached size is its size. |
| WriteOrder.SequentialWritesNeverOverlap | src/backends/io_uring_backend.cpp:376-388 | Without append mode, writes never overlap an outstanding one as long as nothing seeks or truncates. |
| Quarantines.Quarantine.Drain | src/iocp_context.cpp:39-50 | Deletes exactly the entries held for a second or more and keeps the others in order. |
| Quarantines.Quarantine.Push | src/iocp_context.cpp:52-55 | Appends, and drains once 256 entries are held. |
| Quarantines.PushedIsHeld | src/iocp_context.cpp:52-55 | The pushed request is the last one held; below 256 nothing else happens, and from there on exactly what is due is deleted. |
| Quarantines.DrainSplits | src/iocp_context.cpp:39-50 | Every entry is either kept or deleted, as often as it was held. |
| CloseWait.Wait | src/iocp_context.cpp:1133-1143 | Sleeps 1, 2, 4, ..., 32, 32, ... ms while something is pending and the timeout has not run out; stops at the first moment either fails, at most 31 ms late. |
| CloseWait.SleptClosedForm | src/backends/thread_io_backend.cpp:544-555 | The time slept before sleep k, in closed form. |
| Iocp.GuardedDelivery | src/iocp_context.cpp:322-335 | The first completion finds its own live request and is processed; a repeated one that meets the guard changes nothing. |
| Iocp.PromptIsGuarded | src/iocp_context.cpp:31-35 | A completion repeated within a second meets the guard: its own request has not been deleted, so the access check after the compare-and-swap never refuses. |
| Iocp.RepetitionIsHarmlessIff | src/iocp_context.cpp:324-333 | In every state that any run reaches without having touched a deleted object, a repeated completion changes nothing if and only if its request has not been deleted, or its address now belongs to a request that has been processed. |
| Iocp.ProcessKeepsLife | src/iocp_context.cpp:345-432 | Processing a completion keeps every request deleted or held exactly once, no earlier than its first delivery, and answered at most once. |
| Iocp.StepKeepsInv | src/iocp_context.cpp:322-433 | Every step of submissions, completions, repetitions that meet the guard, drains and closers keeps the whole invariant. |
| Iocp.RequestsOverEveryRun | src/iocp_context.cpp:322-433 | Over every run, however often and late completions are repeated: a future is answered at most once, and exactly once if its completion was processed while the session was in the map; an object is deleted at most once, never while pending, and not within 1000 ms of its first delivery. |
| Iocp.NothingDeletedIsTouched | src/iocp_context.cpp:324-333 | Over every run whose repetitions meet the guard, those within a second among them, no deleted object is touched. |
| Iocp.SessionsOverEveryRun | src/iocp_context.cpp:621-648 | Over every run whose repetitions meet the guard: `pending` of a session in the map is the number of its accepted requests whose first delivery is unprocessed, and never underflows; an owned handle is closed at most once, no other ever. |
| Iocp.ClosersOverEveryRun | src/iocp_context.cpp:1111-1166 | Over every interleaving of closers, in such runs: no two work on one session; a wait ends at most 31 ms late; a handle is given up only with nothing in flight or after the whole timeout. |
| Iocp.EverythingIsFreed | src/iocp_context.cpp:298-318 | If both workers are at work and each takes one more packet a second later, the drains at the end of those batches leave both quarantines empty and every processed request deleted exactly once. |
| Iocp.FreedUnlessHeldAtExit | src/iocp_context.cpp:37-55 | When both workers have ended, a processed request has been deleted, exactly once, if and only if it was not dropped with one of them. |
| Iocp.DroppedAtExitIff | src/iocp_context.cpp:37-55 | A worker that ends drops, whatever others do after its last batch, exactly the requests it had pushed less than a second before the drain of that batch. |
| Iocp.DroppedIsReachable | src/iocp_context.cpp:110-137 | Opening a file, reading from it and ending the worker within a second drops the request of that read. |
| Iocp.DroppedIsNeverFreed | src/iocp_context.cpp:37-55 | What a worker still held when it ended is not deleted by any later run. |
| Iocp.ReusedIsReachable | src/iocp_context.cpp:31-34 | The state used next is reached by a run without repetitions. |
| Iocp.LateRepetitionHitsAnotherRequest | src/iocp_context.cpp:324-333 | A repetition a full second late is taken for the completion of the new request at the address: its future is answered and the counter drops while the kernel is still at work. |
| Iocp.DroppedByClear | src/iocp_context.cpp:1229-1230 | The end of a sweep strands a session, out of the map but not closed, if and only if it is running and on the list of no sweep. |
| Iocp.StrandedOnlyByClear | src/iocp_context.cpp:1089-1231 | No other step of the system strands a session. |
| Iocp.NoneIsStrandedFromTheStart | src/iocp_context.cpp:1180-1231 | Over every run in which nothing is opened after the first sweep has begun, no session is ever stranded. |
| Iocp.StrandedIsReachable | src/iocp_context.cpp:1180-1231 | A run that strands a session with an unanswered request. |
| Iocp.StrandedForEver | src/iocp_context.cpp:1180-1231 | Over every later run, further sweeps included, a stranded session keeps its handle open and a request of it that was not answered stays unanswered. |
| Submissions.OpenedIsReady | src/iocp_context.cpp:160-210 | An opened file is one session more, owned or not as asked for, whose next submission is accepted. |
| Submissions.SubmissionLeavesARequest | src/iocp_context.cpp:616-649 | A submission is accepted if and only if the session is in the map and runs; it then leaves exactly one request more, answered at once unless the kernel completes it later, counted as outstanding unless the kernel refused it. Else nothing changes. |
| Submissions.FirstCompletionSettles | src/iocp_context.cpp:322-433 | The first completion of a request settles it: answered exactly once and counted down if the session is in the map, silently if not; held from then on; no other request is settled or answered. |
| Closers.CloseDoesNothingIff | src/iocp_context.cpp:1089-1121 | A close has no effect if and only if the session is gone from the map or closing already; a round of a sweep, if and only if it is closing already. |
| Closers.CloseEnds | src/iocp_context.cpp:1111-1166 | Otherwise, over every later run, however late completions are repeated: the session never runs again and accepts nothing, it has no other closer, its handle is given up only with nothing counted as pending or after the whole timeout, and after timeout + 4 steps of the closer at most, whatever others do between them, the handle has been given up, closed once if it is owned and never if not, and the session is out of the map. A sweep waits 500 ms and clears the map at its end. |
| Closers.ClosedExactlyOnce | src/iocp_context.cpp:1111-1231 | Over every run: a session that does not run has exactly one closer, which has slept 1, 2, 4, ..., 32, 32, ... ms; once that has taken the steps it has left, the handle is closed exactly once if it is owned, and never if it is not. |
| Closers.SweepEnds | src/iocp_context.cpp:1180-1231 | When a sweep is over, every session on its list has stopped and is out of the map, and those the sweep won have been given up. |
| IocpContexts.Context.ProcessOne | src/iocp_context.cpp:322-433 | Takes the delivery step of the transition system: the guard, the inline-completed branch, the missing session, the count down and the one answer. |
| IocpContexts.Context.SubmitTransfer | src/iocp_context.cpp:616-649 | Takes the submission step for each of the kernel's three outcomes; a failed submission leaves the counter as it was. |
| IocpContexts.Context.DrainQuarantine | src/iocp_context.cpp:39-50 | Takes the drain step of the transition system. |
| IocpContexts.Context.Batch | src/iocp_context.cpp:298-318 | One round of the worker: takes the delivery steps of all packets of the batch, in order, and then the drain step. |
| IocpContexts.Context.BeginClose | src/iocp_context.cpp:1089-1121 | Takes the close step: nothing for a session that is gone or closing, else the flag is cleared and this thread goes on. |
| IocpContexts.Context.BeginSweep | src/iocp_context.cpp:1180-1186 | Takes the step that lists the sessions in the map. |
| IocpContexts.Context.BeginRound | src/iocp_context.cpp:1190-1192 | Takes the close step of one round of the sweep. |
| IocpContexts.Context.CloserStep | src/iocp_context.cpp:1127-1166 | Takes the closer's step: the decision to wait, one sleep of the loop, giving up the handle, leaving the map. |
| IocpContexts.Context.ClearMap | src/iocp_context.cpp:1229-1230 | Takes the step that empties the map. |
| BatchProtocol.StepKeepsInv | src/result_batcher.cpp:20-46 | Each locked section, scheduling outcome, and dispatch keeps the order of results and the single responsibility for dispatching. |
| BatchProtocol.RunsDeliverInOrder | src/result_batcher.cpp:20-46 | Over every interleaving: dispatched, swapped out and batched entries are the pushed ones in order; the pending flag is set exactly while one thread is about to schedule, or has failed and not reset, or one callback is queued. |
| BatchProtocol.FailureIsRetried | src/result_batcher.cpp:215-224 | A failed schedule leaves the batch intact, and after the reset the next flush of any free thread takes over. |
| BatchProtocol.NothingIsStuck | src/result_batcher.cpp:175-224 | From every reachable state there is a way without failures, with one flush by any free thread, on which everything pushed is dispatched. |
| BatchProtocol.RestIsCompleteIff | src/result_batcher.cpp:175-224 | Every run without further failures or pushes that comes to rest has dispatched everything if and only if the batch was empty or a callback on its way at the start, or some flush came while no failed thread had yet to clear the flag. |
| Batchers.ResultBatcher.Push | src/result_batcher.cpp:118-159 | Appends the entry, records what the time since the last push was (see `SampleIsRecorded`), starts the idle timer only for a first entry, retunes on every sixteenth push, and reports whether the batch has reached the threshold, the controller's if it is on and the configured one if not; a missing setter or value is dropped. |
| Batchers.ResultBatcher.UpdateAdaptive | src/result_batcher.cpp:78-112 | Sets threshold and idle time from the true median of the last min(k, 128) samples. |
| Batchers.SampleIsRecorded | src/result_batcher.cpp:130-146 | Every sample tells how long before its push the one before came: exactly that time up to 10^6 us, and 10^6 when it was longer or the clock ran backwards; the first is 1000. Kept by every push. |
| Batchers.SamplesAddUp | src/result_batcher.cpp:130-146 | Over every run of pushes at most a second apart with a clock that does not run backwards, the samples add up to 1000 plus the last time minus the first. |
| Batchers.ResultBatcher.FlushIfIdle | src/result_batcher.cpp:189-213 | As documented: the same as `flush` when something is pending and its idle time has expired, else nothing. |
| Batchers.ResultBatcher.IdleExpiredIff | src/result_batcher.cpp:235-246 | The idle time has expired if and only if as many milliseconds have passed since the first pending push as the controller has set, or, with the controller off, as configured. |
| Batchers.ResultBatcher.Flush | src/result_batcher.cpp:175-187 | The flush step of the protocol. |
| Batchers.ResultBatcher.Drain | src/result_batcher.cpp:20-46 | The drain step of the protocol: the whole batch is handed over and flags are cleared. |
| Batchers.ResultBatcher.ResetDispatch | src/result_batcher.cpp:217-220 | The reset step of the protocol after a failed schedule. |
| Batchers.ResultBatcher.GetTimeoutMs | src/result_batcher.cpp:248-264 | A worker that sleeps the returned time wakes when the idle time has expired and not a millisecond late; it waits for ever if and only if nothing is pending. |
| Batchers.RingIsWindow | src/result_batcher.cpp:130-145 | The ring holds a permutation of the last min(k, 128) capped samples, before and after it wraps. |
| Batchers.RingPush | src/result_batcher.cpp:133-138 | Storing the next sample keeps each of the last 128 samples in its slot. |
| Batchers.ThresholdBounds | src/result_batcher.cpp:96-104 | The threshold lies in [1, max]; unless the quotient is clamped, threshold times median misses the target by at most half a median, and clamped it misses by at least half a median on the known side. |
| Batchers.ThresholdAntitone | src/result_batcher.cpp:96-104 | Slower completions never raise the threshold. |
| Batchers.IdleBounds | src/result_batcher.cpp:106-111 | The idle time lies in [1, max] and is four times the median in whole milliseconds, rounded down, unless that is clamped. |
| Batchers.SettingsFit | src/result_batcher.cpp:96-111 | Capped samples keep both casts in range: the idle time is at most 4000 and the quotient never exceeds the target. |
| Medians.SplitIsOrderStatistic | src/result_batcher.cpp:87-94 | At the selected position stands the k-th order statistic, and the largest element before it is the (k-1)-th. |
| Medians.NthElement | src/result_batcher.cpp:87-88 | The selected position splits the range, which holds the same samples as before. |
| Medians.MaxElement | src/result_batcher.cpp:92-93 | An element of the range that no other exceeds. |
| Medians.MedianBySelection | src/result_batcher.cpp:82-95 | Copy, selection and maximum compute the true median: the middle order statistic, or the floored mean of the middle two. |
| Medians.MedianOfPermutation | src/result_batcher.cpp:82-95 | The median depends on the multiset of samples only. |
| Medians.MedianIsMiddle | src/result_batcher.cpp:82-95 | In every sorted arrangement of the samples the median is the middle one, or the mean of the middle two rounded down. |
| Pools.SizeClassIsLeast | src/pool.hpp:18-22 | The size class is the least power of two that is at least 4096 and holds n; above 4096 it is less than 2n. |
| Pools.SizeClassMonotone | src/pool.hpp:18-22 | Larger requests never get a smaller class. |
| Pools.SizeClassIdempotent | src/pool.hpp:18-22 | A class is its own class. |
| Pools.LowerBound | src/pool.hpp:49-51 | The smallest bucket key that is at least the request, if any. |
| Pools.BufferPool.Acquire | src/pool.hpp:46-60 | Takes the last buffer of the bucket that serves; a buffer that was not pooled has the least power of two from 4096 on that holds the request as its size, less than twice a request above 4096. |
| Pools.AcquiredSize | src/pool.hpp:46-60 | A pooled buffer comes off the end of the bucket of the least size that would do; a new one is no larger than it has to be. |
| Pools.BufferPool.Release | src/pool.hpp:62-74 | Pools the buffer in the bucket of its size, or deletes it at the cap. |
| Pools.ReleaseThenAcquire | src/pool.hpp:46-74 | Below the cap, the next acquire that no smaller bucket serves gets back the buffer just released and leaves the pool as it was; at the cap the release deletes it and changes nothing. |
| Pools.BufferPool.Clear | src/pool.hpp:80-89 | Empties every bucket and the total. |
| Pools.BufferPool.RefreshConfig | src/pool.hpp:76-78 | Changes the cap and nothing else; what is pooled stays. |
| Pools.ThreadCache.AcquireWithSize | src/pool.hpp:117-127 | The first cached buffer that is large enough, else the shared pool's; one that was in neither has the least size class that holds the request. |
| Pools.ThreadCache.Release | src/pool.hpp:133-141 | Into the cache while it holds fewer than 8, else to the shared pool. |
| PoolOwnership.OneOwner | src/pool.hpp:39-141 | Every buffer ever allocated is in use, in one thread's cache, in the bucket of its size, deleted, or lost with a thread: exactly one of these, once; caches hold at most 8. |
| PoolOwnership.AcquiredFrom | src/pool.hpp:117-127 | An acquire hands out a buffer that is large enough, of a class size, and that nobody else is using: from the own cache if and only if one there is large enough, from the bucket of the least size that would do, or new and then of the least class that holds the request. |
| PoolOwnership.StepKeepsInv | src/pool.hpp:46-89 | Acquire, release, the end of a thread, clear and reconfiguration keep ownership and the total. |
| PoolOwnership.OwnershipOverEveryRun | src/pool.hpp:39-141 | Over every run of several threads: every buffer is where it went last and nowhere else, once, with a power of two of at least 4096 as its size; `m_total` is the number of pooled buffers; an acquire gets a large enough buffer that was in the thread's own cache, in the bucket of its size, or is new and then of the least class that holds the request. |
| PoolOwnership.ReleaseGoes | src/pool.hpp:62-141 | A released buffer goes to the own cache if and only if that holds fewer than eight, else to the bucket of its size if and only if fewer than the cap are pooled, else it is deleted. |
| PoolOwnership.EndLosesItsCache | src/pool.hpp:109-115 | A thread that ends loses exactly the buffers in its cache. |
| PoolOwnership.LostForEver | src/pool.hpp:109-115 | No later run uses or deletes them. |
| PoolOwnership.ReleaseKeepsTotal | src/pool.hpp:62-74 | A release never raises the total beyond the cap, and deletes exactly when the cap is reached. |
| PoolOwnership.PoolStaysWithinCap | src/pool.hpp:62-78 | While the cap is not changed the pool stays within it over every run. |
| PoolOwnership.PoolStaysWithinAllCaps | src/pool.hpp:62-78 | While the cap is changed the pool stays within every bound on all the caps, and the last one set holds. |
| PoolOwnership.PooledIsUsedIff | src/pool.hpp:49-59 | When some pooled buffer is large enough, an acquire takes a pooled one if and only if the bucket of the least size that would do is not empty. |
| PoolOwnership.EmptyBucketHidesLargerOnes | src/pool.hpp:49-59 | An empty bucket of the least size that would do makes an acquire allocate although a larger buffer is pooled. |
| Crc32c.StepsAreReversedMsbSteps | src/utils/yuyuko_memlife.hpp:600-609 | The table's bit loop is division by the Castagnoli polynomial of section 12.1 of RFC 3720 on the bit-reversed register. |
| Crc32c.Table | src/utils/yuyuko_memlife.hpp:600-612 | Each of the 256 entries is eight bit steps of its index. |
| Crc32c.UpdateByTable | src/utils/yuyuko_memlife.hpp:616-625 | The table-driven loop computes the bit-by-bit definition. |
| Crc32c.UpdateIsDivision | src/utils/yuyuko_memlife.hpp:616-625 | Over whole messages the checksum is, bit-reversed, the remainder of the polynomial division taken most significant bit first. |
| Crc32c.UpdateConcat | src/utils/yuyuko_memlife.hpp:616-625 | The update composes over concatenation. |
| Crc32c.UpdateInjective | src/utils/yuyuko_memlife.hpp:616-625 | Different registers stay different whatever data follow. |
| Crc32c.BurstDetected | src/utils/yuyuko_memlife.hpp:616-625 | Every corruption confined to four adjacent bytes changes the checksum. |
| Snapshots.CrcChunked | src/utils/yuyuko_memlife.hpp:629-640 | One checksum per chunk, 0 meaning the default size, the last chunk possibly partial. |
| Snapshots.ChunkedAt | src/utils/yuyuko_memlife.hpp:629-640 | There is an i-th checksum if and only if chunk i starts inside the block, and it is that chunk's. |
| Snapshots.IncrementalIsFull | src/utils/yuyuko_memlife.hpp:697-729 | Refreshing the touched chunks gives the checksums of the whole new content, for every chunk size, partial last chunk and range past the end. |
| Snapshots.IncrementalIsFullIff | src/utils/yuyuko_memlife.hpp:697-729 | An update of a given range is right for every content of a given size if and only if it refreshes the chunk of the last byte the range covers in the block; only a sum that wraps can fail to. |
| Snapshots.RefreshPicksUp | src/utils/yuyuko_memlife.hpp:715-726 | A change of one byte is picked up if and only if its chunk is among the refreshed ones. |
| Snapshots.RangeInsideFits | src/utils/yuyuko_memlife.hpp:715-726 | An update of a range inside the block refreshes no chunk that starts beyond it, whatever snapshot is stored. |
| Snapshots.WrappedRangeMisses | src/utils/yuyuko_memlife.hpp:715-718 | The 64-bit sum can wrap: a range of 2^64 - 1 bytes from offset 1 refreshes nothing and the change is missed. |
| Snapshots.BurstChangesChunks | src/utils/yuyuko_memlife.hpp:629-640 | A corruption of up to four adjacent bytes, even across a chunk border, changes the checksum vector. |
| Tracker.LookupIsScan | src/utils/yuyuko_memlife.hpp:491-505 | With live blocks apart, the predecessor lookup finds a block around the range if and only if a scan of all blocks does. |
| Tracker.AlwaysConsistent | src/utils/yuyuko_memlife.hpp:379-391 | Over every history both ordered sets are the key sets of their maps, and no block is both alive and released. |
| Tracker.AliveIsInForce | src/utils/yuyuko_memlife.hpp:411-451 | A block is alive if and only if the latest accepted event for it is a registration; a release is accepted if and only if that registration is by the same allocator and the pointer is not null. |
| Tracker.ReleasedIsLast | src/utils/yuyuko_memlife.hpp:367-452 | The released table holds at an address what was last released there if nothing has been registered there since, read off the events alone. |
| Tracker.MarkedIsPermanent | src/utils/yuyuko_memlife.hpp:934-940 | A block is marked permanent if and only if that happened while it was alive and nothing has been registered at its address since. |
| Tracker.ReleaseTwice | src/utils/yuyuko_memlife.hpp:411-423 | A second release changes nothing. |
| Tracker.SoulBook.RegisterSoul | src/utils/yuyuko_memlife.hpp:367-391 | The registration event on the tables and indexes, with the addresses reused. |
| Tracker.SoulBook.ReleaseSoul | src/utils/yuyuko_memlife.hpp:403-452 | The release event, accepted or refused. |
| Tracker.LiveAnswerRightIff | src/utils/yuyuko_memlife.hpp:491-536 | Over live blocks that are apart and end below 2^64, the answer about a range agrees with whether it lies in a live block, if and only if its end does not wrap, or no live block starts at or below the pointer, or the last that does ends before the wrapped end. |
| Tracker.BoundsRightIff | src/utils/yuyuko_memlife.hpp:509-536 | The same for the whole answer while nothing has been released. |
| Tracker.SoulBook.CheckBounds | src/utils/yuyuko_memlife.hpp:509-536 | Computes that answer, then asks the released table unless the pointer starts a live block; with live blocks apart and no wrap it passes if and only if the range lies in a live block or that table has a block around it. |
| Tracker.SoulBook.Snapshot | src/utils/yuyuko_memlife.hpp:663-677 | Stores the checksums of a live block with the chunk size as given. |
| Tracker.SoulBook.SnapshotUpdate | src/utils/yuyuko_memlife.hpp:697-729 | Refreshes exactly the touched chunks of the stored vector, or refuses and changes nothing; undefined if and only if it does not refuse and a chunk to refresh starts beyond the block. |
| Tracker.SoulBook.Verify | src/utils/yuyuko_memlife.hpp:732-745 | True if and only if the pointer is null, or alive and its snapshot, if any, matches. |
| Tracker.SoulBook.Check | src/utils/yuyuko_memlife.hpp:750-809 | True if and only if the block is alive and matches its snapshot; else the first chunk that does not match is reported, if the numbers of chunks agree. |
| Tracker.UpdateKeepsSnapshot | src/utils/yuyuko_memlife.hpp:697-729 | A snapshot kept up to date incrementally is the snapshot of the new content. |
| Tracker.BurstNeverPasses | src/utils/yuyuko_memlife.hpp:732-809 | A corruption of up to four adjacent bytes always fails the verification, and fails the check under the snapshot's own chunk size, when one chunk of either size covers the block, or when the sizes make different numbers of chunks; under its own size the chunk reported holds a corrupted byte. |
| Tracker.CorruptionCanPass | src/utils/yuyuko_memlife.hpp:776-808 | Blocks of 4097 to 8184 bytes, snapshot with chunk size 0 and checked under 4092, on which overwriting four bytes passes the check. |
| Tracker.UnchangedBlock | src/utils/yuyuko_memlife.hpp:732-809 | Unchanged data pass the verification; they pass the check with the snapshot's own chunk size or when one chunk of either size covers the block, and fail when the two sizes make different numbers of chunks. |
| Tracker.AlwaysPassesIff | src/utils/yuyuko_memlife.hpp:776-808 | The check passes every unchanged content of a given size if and only if it uses the snapshot's own chunk size, or one chunk of either size covers the block. |

## Left out

- Tracker.SoulBook.SnapshotUpdate: what the code does in the case reported as undefined, where it computes with a length below zero.
- Tracker.BurstNeverPasses: a chunk-size-0 snapshot checked under another size that makes the same number of several chunks. Tracker.CorruptionCanPass shows a family that passes; for which pairs of sizes there is one is a question about the checksum's table and left open.
- Tracker.LookupIsScan: blocks end inside the address space, as an allocator's do.
- Positions.CacheStaysExact: successful full transfers only; short or failed writes and failed immediate submissions, whose reserved range the code does not give back, are not modelled.
- WriteOrder.AppendsTile: the kernel writes at the reserved offset. The io_uring backend opens with O_APPEND, which makes Linux ignore the offset, so for it the claim holds on kernels that honour the offset.
- Iocp.SessionsOverEveryRun: runs whose repetitions meet the guard; after one that does not, the counter may be wrong, as Iocp.LateRepetitionHitsAnotherRequest shows.
- AsyncFileRuns.Run: with a caching backend the kernel refuses negative offsets; kernels that carry a transfer out at offset -1 are in Positions and Reservations, not behind the handle. What follows a write at a negative position there is left out.
- AsyncFiles.AsyncFile.Read: the modelled backend fails only at negative positions, where nothing is buffered; when a read of the backend fails for another reason behind bytes already taken from the buffer (lines 219-221), those bytes are lost.
- AsyncFiles.AsyncFile.Seek: targets are integers; the 64-bit wrap of positions beyond 2^63 and requests over 4 GiB are not modelled.
- Multi-byte decoders and the `errors` policy: library behaviour; a byte stands for a character.
- `writelines`, `readall`, `read_many`, `flush`, iteration and the mode properties: they add only easy members.
- Outside writers and several operations at a time on one handle: the code does not support them.
- The order in which one `close_all_sessions` goes through its sessions: its rounds may overlap, which covers the real order; the list it works on and the final clearing after the last round are modelled.
- Failures to create futures, exceptions or attributes in the interpreter; reference counting and the interpreter lock itself (a region under the lock is one step).
- `complete_ok` and `complete_error` of the non-IOCP backends, which delete a request at its only completion: the one-delivery case of `Iocp`. Their buffer hand-over and destructor, and the deadline wait of the io_uring backend.
- The double-precision rounding of the threshold is exact for 32-bit targets and samples of at most 10^6, so the model uses exact integers.
- `median_interval_us`, the registry of batchers and their construction: they add only easy members.
- The hardware CRC path, logging, the HTML report, leak lists, timestamps and thread names of the tracker; overlapping released blocks.
- The shared pool's allocation failures, and sizes above 2^63 for which `std::bit_ceil` is undefined.
- The handle pool, configuration, thread pool, macOS and Windows set-up code, and the Python bindings.
