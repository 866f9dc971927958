# The Go playground: playback, sandbox, cache and archives

A model of the parts of the playground that decide what a user gets to see, with proofs about all inputs, all
runs and all interleavings.

* **Playback.** A sandboxed program prefixes its writes with headers that carry a time and a length. `Playback`
  says what such a stream means; `PlaybackRoundTrip` relates it to what the program wrote, also when the stream
  was cut short; `PlaybackBuffer` is the decoder as it runs, compacting messages inside the very buffer it is
  still reading; `Recorder` merges standard output with standard error and turns times into delays; `Utf8`
  replaces invalid bytes.
* **Output of a container.** `OutputWriters` has the capped sink and the writer that switches destinations after
  a marker; `RunOutput` follows two copied streams to the reply.
* **Processes and containers.** `WaitOrStop` is the interrupt-then-kill wait, `WaitToken` the channel through
  which a container's result is handed on, and `ContainerPool` the workers, run handlers, health checks and
  closing goroutines that share containers; `PoolProgress` shows that they get somewhere, `PoolOutcomes` what they
  answer. These are transition systems: one action is one step of one goroutine, process, timer or context, and
  theorems are about every run.
* **Sources.** `Txtar` is the archive format, `PathNames` the rules for file names, `FileSets` the file set and
  the splitting of a program text.
* **Answers.** `CommandCache` is the response cache shared by the compile and vet commands.

`Bytes` holds byte strings, substring search and big-endian numbers.

## Assumptions

* `int` has 64 bits, so a 32-bit length is never negative and `i + n` does not overflow; times are integers of
  nanoseconds, in the range of `int64` where they come from a header.
* Waiting for a process reports a non-zero exit status in preference to a failed copy, and success only if the
  process succeeded and both copies finished (`RunOutput.Waited`).
* Signalling a process reports "already finished" exactly when it has been reaped; a killed process ends.
* Container names do not repeat.
* A hash is printed with a fixed number of digits. The cache theorems take the absence of a collision with a
  program that a command was run for as a hypothesis.
* A stream copy writes only the non-empty reads. After a process has been reaped, collecting its output ends.
* When a process has been waited for, its standard input is closed, so that a write to it that blocks fails.

## Where the code and its comments differ

* The header's length is documented as a signed 32-bit number; the code reads it unsigned, and so does the model.
* `limitedWriter` is documented to fail when the cap is hit. It also fails on an empty write once nothing is left,
  and a write that fits exactly succeeds: the contract of `LimitedWriter.Write` is the exact condition.
* `commandHandler` is documented to cache whatever the command returns without error; the code first filters out
  timeouts and resource failures.

## Worth knowing

* Without a kill delay, a process that ignores the interrupt makes `WaitOrStop` wait for it forever: `MayHang` is
  such a run, and by `ReturnsExactly` a positive delay is exactly what rules it out.
* The cap for standard output allows for the start message, which never reaches the capped writer, so a program
  may write 30 bytes more than the stated maximum (`ThirtyBytesMore`). The header line on standard error does
  count against its cap (`ReplyIsProgramOutput`).

## Model

| member | source | states |
|---|---|---|
| Playback.DecodeIsStrict | src/play.go:117-159 | for every input, decoded times strictly increase, start no earlier than the epoch and fit 64 bits |
| Playback.HeaderLayout | src/play.go:152-160 | a header's time is the signed big-endian number in bytes 4 to 11, its length the unsigned one in bytes 12 to 15 |
| Playback.CoalesceKeepsBytes | src/play.go:122-127 | merging neighbours keeps, for every instant, exactly the bytes written then, and adds no instant |
| Playback.CoalesceCharacterised | src/play.go:117-132 | merging time-ordered pieces is the only list with strictly increasing times, the same instants and the same bytes at each |
| Playback.EventsAreDetermined | src/play.go:104-108 | two event lists with strictly increasing times that agree on every instant's bytes are the same list |
| PlaybackRoundTrip.MagicHasNoBorder | src/play.go:134-144 | text without the magic cannot form one together with the header, whole or cut, that follows it |
| PlaybackRoundTrip.HeaderFields | src/play_test.go:49-56 | the time and length read from an encoded header are the ones written, for every int64 time and every length below 2^32 |
| PlaybackRoundTrip.Truncation | src/play.go:133-174 | every prefix of an encoded stream decodes to the pieces that survive the cut; a cut 1 to 3 bytes into a header leaves text, one 4 to 15 bytes in is the only error |
| PlaybackRoundTrip.RoundTrip | src/play.go:25-36 | what was written comes back in order, at the running maximum of the times, stray text at the preceding time, equal-time neighbours joined; payloads may contain the magic |
| PlaybackRoundTrip.PlainText | src/play.go:117-149 | text without the four magic bytes is one event at 1257894000 seconds |
| PlaybackRoundTrip.DecodeOfAnyInput | src/play.go:110-176 | every byte string is a prefix of some well-formed stream, so the truncation theorem describes decoding on all inputs |
| Bytes.BigEndianRoundTrip | src/play.go:152-160 | decoding the big-endian bytes of a number that fits gives the number back |
| Bytes.BigEndianIsOnto | src/play.go:152-160 | encoding the number read from big-endian bytes gives the bytes back |
| PlaybackBuffer.AppendInPlace | src/play.go:126 | appending a later part of the buffer to an earlier slice moves exactly those bytes and leaves every other byte alone |
| PlaybackBuffer.Add | src/play.go:117-132 | adding an event changes what the windows show as the abstract list changes, leaves all unread bytes untouched, stays inside the slice's capacity, and keeps the windows disjoint, ordered and behind the cursor |
| PlaybackBuffer.SkipText | src/play.go:134-144 | stray text is delivered at the preceding time, up to the next header or the end |
| PlaybackBuffer.ReadFrame | src/play.go:145-173 | a header cut short is an error; otherwise its payload, as far as present, is delivered and decoding can resume behind it |
| PlaybackBuffer.Decode | src/play.go:110-176 | decoding inside the buffer yields the messages, times or error of `Playback.Decode` on the original bytes, and nothing past the slice is touched |
| Recorder.SortedMerge | src/play.go:179-201 | the merge loop and its shortcuts for empty inputs compute the same merge |
| Recorder.MergeKeepsStreams | src/play.go:187-200 | the merge contains each stream completely and in its own order, whatever the times |
| Recorder.MergeIsOrdered | src/play.go:189-197 | streams with strictly increasing times merge into time order, standard error first on ties |
| Recorder.MergeIsUnique | src/play.go:178-201 | those facts leave only one possible merge |
| Recorder.MergedIsOrdered | src/play.go:71-80 | for any two recordings that decode, the merged events are in time order from the epoch on, and each stream's events appear in their order |
| Recorder.MergedShows | src/play.go:71-98 | the merged events show, for each stream and each instant, exactly the bytes that were decoded for it, and at no other instant |
| Recorder.WritesPlayBack | src/play.go:21-36 | whatever writes and stray text two streams consist of, the merged events are those writes in time order, and show at every instant exactly the bytes written to the stream then |
| Recorder.Delays | src/play.go:82-101 | on merged events the negative clamp and the saturating subtraction never change a delay: epoch plus the first k+1 delays is the time of event k, and messages are the sanitized ones |
| Recorder.PlaysIsUnique | src/play.go:87-100 | at most one list of events plays a given merge |
| Recorder.RecorderWriter.Write | src/play.go:55-60 | a write appends its bytes, also when the backing array has to be replaced |
| Recorder.Recorder.Events | src/play.go:68-102 | the events play the merge of what was recorded before the call, in valid UTF-8, or there is an error exactly when a stream does not decode |
| Utf8.Sanitize | src/play.go:205-216 | the early return and the loop compute the sanitized message |
| Utf8.ValidExactly | src/play.go:203-208 | the accepted byte strings are exactly the concatenations of encoded Unicode scalar values (sections 3 and 4 of RFC 3629) |
| Utf8.SanitizedIsValid | src/play.go:203-216 | the result is valid UTF-8, at most three times as long, unchanged exactly if the input was valid, and a fixed point |
| Utf8.SanitizedOfAppended | src/play.go:205-216 | a valid part in front passes through, whatever follows |
| Utf8.SanitizedOfInvalidByte | src/play.go:210-214 | a byte that starts no character is replaced alone, and reading goes on behind it |
| OutputWriters.CarrySuffices | src/sandbox/sandbox.go:684-690 | searching the carried bytes and the new ones finds the first occurrence of the marker in the whole stream |
| OutputWriters.StillUnmarked | src/sandbox/sandbox.go:684-690 | without a match the carry buffer keeps exactly the bytes that can still start one |
| OutputWriters.NowMarked | src/sandbox/sandbox.go:693-701 | the first occurrence ends among the new bytes, so both slices of them are in bounds and split the stream there, and the first is not empty |
| OutputWriters.SwitchWriter.Write | src/sandbox/sandbox.go:679-703 | however the stream is chunked, the first destination has it through the first marker and the second has the rest, and together they have all of it once; the whole chunk is counted as written and the carry stays shorter than the marker |
| OutputWriters.LimitedWriter.Write | src/sandbox/sandbox.go:652-668 | the sink holds the first cap bytes of everything offered, the counter is the cap minus what was offered, and the exact condition for failing |
| RunOutput.CleanStderrKeepsProgram | src/sandbox/sandbox.go:732-740 | if the container did not write the header line earlier, dropping through the first one leaves exactly what the program wrote, even if it writes the header again |
| RunOutput.CopyStdout | src/sandbox/sandbox.go:470-472 | copying fails exactly when the bytes after the start message exceed the cap, and otherwise all were taken |
| RunOutput.CopyStderr | src/sandbox/sandbox.go:471-473 | the same for standard error |
| RunOutput.BuildReply | src/sandbox/sandbox.go:614-640 | which of the four replies is sent, in terms of context, wait result and remaining counts |
| RunOutput.Run | src/sandbox/sandbox.go:613-640 | however the streams were chunked, program output is sent exactly when the run was not timed out and neither stream exceeded its cap, and then it is all of it |
| RunOutput.ReplyIsProgramOutput | src/sandbox/sandbox.go:624-640 | in the program's own bytes: the reply holds exactly what it wrote to the two streams, or nothing, and when |
| RunOutput.ReplyWithoutHeader | src/sandbox/sandbox.go:734-738 | without the header line, standard error is sent whole or not at all |
| RunOutput.ThirtyBytesMore | src/sandbox/sandbox.go:470 | there is an output 30 bytes over the stated maximum that is sent whole |
| WaitOrStop.HandOffOnce | src/internal/internal.go:26-69 | in every interleaving the helper hands off exactly once, and nothing of it is left when the call returns |
| WaitOrStop.Attribution | src/internal/internal.go:34-69 | the wait's own error is returned exactly when no interrupt reached an unreaped process; otherwise the context's error, or the failed interrupt's own if not handed off in the grace period |
| WaitOrStop.RunIsRemembered | src/internal/internal.go:26-69 | the context's reason, the signal's outcome, what waiting gave, the timer, the kill and the end of the process are those of the run's steps |
| WaitOrStop.OutcomeOfRun | src/internal/internal.go:34-69 | the returned error in terms of the run's steps: what waiting gave, the reason the context was done, or the failure to signal, and when which |
| WaitOrStop.EveryOutcomeOccurs | src/internal/internal.go:34-69 | every error of waiting or none, every reason of the context and every failure to signal is returned in some run |
| WaitOrStop.LateSignalOccurs | src/internal/internal.go:38-40 | a process that is gone when it is signalled leaves the result of waiting alone |
| WaitOrStop.GraceOccurs | src/internal/internal.go:43-49 | a process that ends in the grace period is not killed, and the context's error is returned even if the signal failed |
| WaitOrStop.ReturnsAtOnce | src/internal/internal.go:28-49 | after waiting, the call can return at once exactly if the helper is not about to signal or to kill |
| WaitOrStop.KillIsLastResort | src/internal/internal.go:42-60 | a kill follows only an attempted interrupt and an elapsed positive delay |
| WaitOrStop.RunsAreShort | src/internal/internal.go:26-69 | every run takes at most ten steps |
| WaitOrStop.StuckExactly | src/internal/internal.go:26-69 | nothing is due exactly when the call has returned, or in two ways of hanging on a process that does not end |
| WaitOrStop.AlwaysReturns | src/internal/internal.go:14-17 | with a done context and a positive delay every maximal run has returned |
| WaitOrStop.MayHang | src/internal/internal.go:45-65 | without a positive delay there is a maximal run with a done context that has not returned |
| WaitOrStop.ReturnsExactly | src/internal/internal.go:14-17 | every maximal run with a done context returns if and only if the delay is positive |
| WaitToken.TokenIsConserved | src/sandbox/sandbox.go:100-104 | once sent, the result is in the buffer or with exactly one waiter; neither sending it nor putting it back ever blocks; every waiter returns what the producer sent in the run |
| WaitToken.NobodyIsStuck | src/sandbox/sandbox.go:100-104 | once the result was sent, some waiter can move as long as one has not returned |
| WaitToken.WaitersOnlyAdvance | src/sandbox/sandbox.go:100-104 | in every run a waiter comes nearer to returning by exactly the steps it takes, at most two, and nothing sets it back |
| WaitToken.EveryoneReturns | src/sandbox/sandbox.go:100-104 | a run with the result sent and no waiter able to move has three steps for each waiter and one more, and all have returned |
| ContainerPool.StoppedOnlyWhenDone | src/sandbox/sandbox.go:489-491 | a container's wait reports an interruption exactly if a signal was sent, or failed, while the process was there, and then its context was done |
| ContainerPool.NoInterruptedReply | src/sandbox/sandbox.go:613-640 | in every run, a reply made from a result is made from the handler's own container and from a process that was not interrupted |
| ContainerPool.InterruptedMeansTimeout | src/sandbox/sandbox.go:614-619 | after an interrupted wait only the timeout branch is possible |
| ContainerPool.AnswerAfterWaiting | src/sandbox/sandbox.go:613-640 | who has waited answers with the timeout or the outcome waited for, with the timeout if interrupted, and the timeout is answered only after waiting |
| ContainerPool.ClosedBeforeLeaving | src/sandbox/sandbox.go:582-640 | every exit path of a handler that has a container has answered, and waits until the container is cancelled, waited for and unwanted |
| ContainerPool.HealthyMeansClosed | src/sandbox/sandbox.go:261-282 | a health check that finds the pool healthy was given a container that has been cancelled, waited for and unwanted |
| ContainerPool.ProbesAreDecided | src/sandbox/sandbox.go:261-282 | a finished health check has a verdict, and not a healthy one if it got no container |
| ContainerPool.PoolBounds | src/sandbox/sandbox.go:555-596 | at most numWorkers slots are taken, at most numWorkers containers wait to be handed out, and at most numWorkers are with run handlers and not yet closed |
| ContainerPool.OneOwner | src/sandbox/sandbox.go:414-421 | no container is given to two callers, or given while still on offer |
| ContainerPool.NeverHandedOutAgain | src/sandbox/sandbox.go:367-377 | a container that was handed out never returns to the ready channel |
| ContainerPool.WantedExactly | src/sandbox/sandbox.go:91-98 | the wanted names are exactly those of started containers whose closing has not begun |
| PoolProgress.HandlerIsNeverStuck | src/sandbox/sandbox.go:582-640 | a handler with a container always has something due until it has given its slot back, also while a write to the container blocks: then the timeout, the closer and the closed pipe release it |
| PoolProgress.HandlerAdvances | src/sandbox/sandbox.go:582-640 | no step by anyone sets a handler that has a container back, and each step of its own or due for it brings it nearer to the end |
| PoolProgress.FewStepsFor | src/sandbox/sandbox.go:582-640 | in every run at most fourteen steps are a client's own or due for it after it was given a container |
| PoolOutcomes.ReplyIsFinal | src/sandbox/sandbox.go:601-640 | in every run a handler replies at most once: a reply never changes |
| PoolOutcomes.RepliesOfRun | src/sandbox/sandbox.go:563-640 | which answer a client has given, exactly, in terms of the statement it went through in the run |
| PoolOutcomes.JudgedIsReal | src/sandbox/sandbox.go:613-640 | an answer from an outcome is what waiting for the client's own container gave in the run, and not an interruption |
| PoolOutcomes.UnansweredGaveUp | src/sandbox/sandbox.go:555-579 | a handler leaves without an answer only if it gave up waiting for a slot or a container |
| PoolOutcomes.RepliesExactly | src/sandbox/sandbox.go:555-640 | with a worker, every answer is given in some run, except the outcome of an interrupted process |
| PoolProgress.PoolIsNeverStuck | src/sandbox/sandbox.go:359-377 | with at least one worker there is no deadlock: while a client is not done or a container handed out is not closed, a step is due, without arrivals, giving up or writes that go through |
| PoolProgress.PoolRunsAreBounded | src/sandbox/sandbox.go:555-640 | no run is longer than two steps for each worker and twenty for each arrival, whatever the interleaving |
| PoolProgress.EveryoneIsServed | src/sandbox/sandbox.go:555-640 | when nothing is due any more, all slots are free, every handler has left, having answered if it was given a container, every health check has a verdict, and every container handed out is closed |
| Txtar.TrimIsDone | src/txtar.go:83 | trimming takes white space characters off both ends and nothing else, leaves none there and is a fixed point |
| Txtar.MarkerExactly | src/txtar.go:82 | a line is taken for a marker with a name exactly if it is `-- `, the name between white space, and ` --` |
| Txtar.ParseIsWellFormed | src/txtar.go:82 | every text parses to whole lines, trimmed names and bodies without marker lines |
| Txtar.ParseExactly | src/txtar.go:82 | an archive is the parse of a text if and only if its comment and its files, each behind a marker line with its name, make up that text with a newline at the end, and no marker line is inside them |
| Txtar.ParseFormat | src/txtar.go:63 | formatting and parsing again gives an archive back if and only if it is well-formed |
| Txtar.ParseFormatFixed | src/txtar.go:63 | formatting adds the newlines missing at the end of texts, and nothing else is changed by parsing again, if and only if what results is well-formed |
| PathNames.AcceptedExactly | src/txtar.go:93-110 | the name checks together accept exactly 1 to 10 non-empty components, none `.` or `..`, within the length and without forbidden characters |
| PathNames.ProblemExactly | src/txtar.go:93-110 | which names are too long and which too deep, exactly; all others that are refused are invalid |
| PathNames.CleanExactly | src/txtar.go:99 | a relative path is in canonical form exactly if it is `.` or has no empty and no `.` component, and `..` only in front |
| PathNames.RootedCleanExactly | src/txtar.go:99 | a rooted path is in canonical form exactly if it is `/` or has only plain components |
| PathNames.BogusRunesAreBytes | src/txtar.go:119-121 | a forbidden rune occurs exactly if a forbidden byte does, also in invalid UTF-8 |
| FileSets.FileSet.AddFile | src/txtar.go:40-49 | adding keeps order and map in agreement; a replaced file keeps its place |
| FileSets.FileSet.Num | src/txtar.go:30 | the number of files is the length of the order |
| FileSets.FileSet.Format | src/txtar.go:52-64 | the loop formats the archive that stands for the set |
| FileSets.AddAll | src/txtar.go:40-49 | any sequence of additions keeps the representation invariant and an implicit program first, and yields the stated order and contents |
| FileSets.FirstAdditionPlaces | src/txtar.go:44-48 | a name keeps the place of its first addition; the names are the old ones and the added ones |
| FileSets.LastAdditionCounts | src/txtar.go:45-49 | a name has the contents of its last addition, and those it had before if it was not added |
| FileSets.ChecksAcceptExactly | src/txtar.go:92-115 | checking file by file accepts exactly the archives with canonical and pairwise different names |
| FileSets.SplitFiles | src/txtar.go:80-117 | a text is accepted exactly if its archive is acceptable, and then the set holds its files in order; otherwise the error is about the first file with a problem |
| FileSets.PlainProgram | src/txtar.go:82-86 | a text without marker lines that is not blank is one file, prog.go, with that text |
| FileSets.ArchiveOfSplit | src/txtar.go:52-64 | a set split off a text stands for the archive in it, except that a blank comment is dropped |
| FileSets.FormatIsCanonical | src/txtar.go:51-117 | formatting after splitting is a canonical form: splitting it again gives the same files, contents and header flag |
| FileSets.Canonicalize | src/txtar.go:51-117 | the two methods composed: split, format, split returns an equal set whenever the text is accepted |
| CommandCache.KeyIsInjective | src/sandbox.go:166-170 | keys agree exactly for the same command, Go version, vet flag and body hash |
| CommandCache.Filter | src/sandbox.go:129-156 | the loops decide the verdict exactly, in terms of the words they look for: timeout in the errors, resource failure in the errors or in a standard-error event, or cacheable |
| CommandCache.CacheIsSound | src/sandbox.go:117-160 | in every interleaving, what is cached for a query was returned in the run by the same command to a request with the same program, version and vet flag, and passes the filters |
| CommandCache.RepliesAreSound | src/sandbox.go:92-164 | every successful reply is this request's own result or an earlier one for the same query that passed the filters |
| CommandCache.NeverCached | src/sandbox.go:129-156 | in no state of any run does a cached response mention a timeout or a resource failure, in its errors or on standard error |
| CommandCache.EveryReply | src/sandbox.go:118-164 | every request gets what its command returned, an error if that failed or mentions a resource failure and no timeout, and otherwise an answer from the cache |
| CommandCache.EveryGoodAnswerIsOffered | src/sandbox.go:129-160 | what the command returned is offered to the cache exactly if it passes the filters |
| CommandCache.StoredIsServed | src/sandbox.go:117-164 | a stored answer that is not evicted can be served to every later request for the same key |
| CommandCache.RequestCanFinish | src/sandbox.go:117-164 | from any state a request can get its reply by at most four steps of its own, whatever its command returns |

## Left out

- Goroutines are steps on an immutable state in `WaitOrStop`, `WaitToken`, `ContainerPool` and `CommandCache`: the model captures their interleavings, not the updates in place of the variables they share.
- In `ContainerPool` waiting for a container is one step; `WaitToken` covers the channel behind it.
- PoolBounds: does not count containers in the hands of health checks, because a health check may return while its container is still being closed.
- HandlerIsNeverStuck: takes it that the wait for a process whose context is done returns, which is `AlwaysReturns`, instead of running that model inside this one.
- The pipe for the start message: that a write to it blocks until it is read is not modelled; the writer is open or broken. If the stream starts with the start message, that is all the pipe gets (`LeadingMark`), and its reader takes exactly as much.
- CacheIsSound: assumes that no program a command was run for collides with the query's program under the hash.
- Events: is about one call per recorder; the first call rewrites the recorded bytes, so nothing is said about a second.
- Containers that fail to start: the lifecycle begins with a successful start, so that `PoolRunsAreBounded` does not count a worker's failed attempts.
- The mutexes of the recorder and of the wanted names: each operation is one step.
- The txtar package, the standard library and memcached are not part of this model beyond the behaviour written out here; encoding of requests, replies and cache entries is not modelled.
- HTTP, Docker, metrics, logging and the contents of containers.
- Building and vetting programs, generating test programs, formatting: they rest on the Go toolchain.
- Sharing, storing, examples, version and edit pages: only lookups.
