# Verification of the go-netty core

A Dafny project beside the repository. It models the parts of go-netty whose correctness is not visible in any single
function and proves what they promise, for every input, every run and every interleaving.

| file | what it models |
|---|---|
| `WriteLoop*.dfy` | the asynchronous write loop of a channel (`channel.go`) as a step system: any number of producers, writers and closers, one event per atomic action, an inductive invariant, safety, progress, the limits of `Close`, what a failure and `Close` leave behind, and what callers are told |
| `Ledger.dfy` | the same write path as a queue, a record and a flag: the simple form that the step system and the classes both follow |
| `Slices.dfy`, `Messages.dfy` | Go slices on arrays, and the messages that can be written |
| `Channel.dfy`, `Head.dfy`, `Writer.dfy` | the same calls in the form of the code: fields, arrays and loops of a producer's calls (`asyncWrite`, `asyncWritev`, `ReadFrom`, the head handler) and of `writeOnce` among other callers, on buffers from the pool |
| `PowersOfTwo.dfy`, `Pool.dfy` | the size-class pool and its bit arithmetic |
| `Streams.dfy`, `Delimiter.dfy`, `LengthField.dfy`, `Varint.dfy` | byte streams with arbitrary chunking and the framing codecs |
| `Handlers.dfy`, `Pipeline.dfy`, `CodecStack.dfy` | the linked pipeline, its dispatch, and stacks of codecs from end to end |
| `IdleHandlers.dfy` | the idle handlers as a timed machine |
| `MessageBytes.dfy` | `ToBytes`, `ToReader` and the byte stealer |

## How the write loop is modelled

`WriteLoop.State` holds the queue, `running`, the two reused arrays, the pool with its buffers' bytes, the transport and
the program counters of all threads. `ProducerStep`, `WriterStep`, `CloserStep` and `OutsideStep` give the effect of one
atomic action each (queue send, compare-and-swap, spawn, poll, `Writev`, recycling one buffer, the two length reads,
flush, store of idle, the panic path, the steps of `Close`), and a run is any sequence of enabled events. `book` and
`net.log` are history. Locals are part of the program counter: a writer that has read a length acts on that reading,
however stale. `flushedTo` lets a transport push bytes out by itself, `nils` lets `Writev` nil out the slots it was given.

`Channel.dfy` and `Writer.dfy` run the same operations on heap objects, so that what is in place and aliased in the code is
so in the model: slices of pooled arrays, the queue that owns them, copies that must fit. A producer's calls run with a
schedule of what the rest of the program does between sends (packets polled, the context cancelled), a writer with a
schedule of the sends of other callers and of their taking `running` while it is idle. `WriteLoopLedger` and
`Channels.Channel.LedgerFollows` tie both to one simple form: every step of the first and every call on the second is
a run of the same ledger, and what a call or a writer does alone on the heap some run of the steps does as well.

## Assumptions

- The memory model is sequentially consistent, `int` has 64 bits, slices are shorter than 2^63 bytes.
- The executor runs what it is given (a spawned writer is a thread at the start of `writeOnce`).
- `sync.Pool` is a bag that hands out any element it holds or nothing, and may drop elements.
- A stream returns at least one byte without an error, or has ended, with `io.EOF` or another error.
- A writer-to stops at the first write that is not taken whole.
- In the step system, taking a buffer requires one that is large enough; `Pools.BytePool.Get` proves that the pool gives one.
- The clock of the idle handlers does not go back.

## What the code does differently from its documentation

- `utils/pool/pbytes/pool.go:29-31` says that `Put` does not reuse slices whose size is not a power of two. The code
  (`utils/pool/generic.go:56-64`) does not check that. `Pools.ForeignPut` says exactly when this matters.
- `codec/frame/length_field.go:37` describes the length adjustment as giving the length of the packet with its header.
  The code adds the end offset of the length field as well (line 94), and so does the model.
- The panic text of `codec/frame/length_field.go:44` mentions a width of 3; only 1, 2, 4 and 8 are accepted.
- `io.Writer` must not keep the slice it is given; `ByteStealer.Write` keeps the first one (`utils/reader.go:133`).
  `MessageBytes.StolenIsWritten` says exactly when the stolen bytes are still right.
- `asyncWrite` can return a nil error for a packet that was not sent, when the context is done without a close error
  (`channel.go:391-392`). `WriteLoopClosing.UnsentIsToldNil` is a run, `WriteLoopAnswers.NilIsTrueIff` says exactly when
  it cannot happen; the contracts of `Channels.Channel.Send` and `Heads.HandleWrite` keep that case.
- `Close` with `untilWrite` suggests that all was written. A packet sent after the writer's last look at the queue
  (`channel.go:596`) and before its second look (`channel.go:606`) may be left behind, also when its call has returned:
  its compare-and-swap loses as long as `running` is set. `WriteLoopClosing.CloseMayOvertake` is such a run,
  `WriteLoopClosing.CloseDeliversIff` says exactly when it cannot happen.
- An idle handler is meant to rest once the channel is inactive. `Close` may be called while active is still on its way
  through the pipeline (`bootstrap.go:150-152`, `channel.go:195-213`), so `HandleInactive` may take the lock first, and
  `HandleActive` (`handler.go:237-243`) does not check. `IdleHandlers.ActiveAfterInactive` is a run with a timer that goes
  on for ever, `IdleHandlers.InactiveIsFinalIff` the exact condition.
- Idle events may come more often than once per idle time: a callback that checks late can overlap the next one.
  `IdleHandlers.OverlappingCallbacks` is such a run, `IdleHandlers.EventsApart` and `IdleHandlers.NeverTooOften` say that
  this is the only way.

## Model

| member | source | states |
|---|---|---|
| `WriteLoopSafety.InitInv` | channel.go:115-143 | a freshly made channel (empty queue, idle, batch buffers of half the queue capacity plus one) satisfies the invariant of the write loop |
| `WriteLoopSafety.StepKeepsInv` | channel.go:551-615 | every atomic action of any producer, writer, closer or outside party keeps the invariant: one holder of `running`, order of packets, ownership of buffers, flush before idle, no lost wakeup |
| `WriteLoopSafety.WriterKeepsInv` | channel.go:560-613 | the writer's part: poll, batch end, `Writev` (whole or failing part-way), recycle, length reads, flush, store of idle, second compare-and-swap, panic path |
| `WriteLoopSafety.ProducerKeepsInv` | channel.go:296-454 | the callers' part: take a buffer, fill it, send or be refused, cancelled or rejected with the close error (also with a filled buffer in hand), compare-and-swap, spawn |
| `WriteLoopSafety.CloserKeepsInv` | channel.go:195-215 | the part of any number of calls of `Close`: compare-and-swap, waiting rounds, close error, transport, cancel |
| `WriteLoopTheorems.ReachableHasInv` | channel.go:551-615 | the invariant holds after every run from every initial state, with any number of threads |
| `WriteLoopSteps.BatchIsUnwritten` | channel.go:581-583 | `Writev` is given exactly the accepted packets that are not written yet, in order, up to the queue |
| `WriteLoopTheorems.NothingLost` | channel.go:551-615 | without a failure, bytes given to the transport, then the unwritten part of the batch, then the queue, are the accepted bytes in order of acceptance: nothing lost, duplicated or reordered |
| `WriteLoopTheorems.OrderSurvivesFailure` | channel.go:583-583 | whatever failed, the transport got a duplicate-free, in-order selection of the accepted packets, each with its caller's bytes; only the last packet of a write that failed may be cut short, to a beginning of them |
| `WriteLoopTheorems.CallersAreTold` | channel.go:378-404 | a finished call with bytes was told (length, nil) exactly when its own packet was accepted, and no call is accepted twice |
| `WriteLoopTheorems.RefusedNeverAppears` | channel.go:388-397 | a packet refused with `ErrAsyncNoSpace` is in no queue, batch or write |
| `WriteLoopTheorems.SingleHolder` | channel.go:401-403 | `running` is set exactly when some thread holds it, and there is never a second holder, on the panic path included |
| `WriteLoopTheorems.ArraysNotShared` | channel.go:562-563 | two writers never both have a batch, so the reused `writeBuffers` and `recycleBuffers` are used by one writer at a time |
| `WriteLoopTheorems.IdleMeansFlushed` | channel.go:601-605 | whenever `running` is idle without a failure every written byte is flushed and exactly the queued packets are undelivered |
| `WriteLoopTheorems.CloseStopsWaiting` | channel.go:199-205 | `Close` stops waiting only on idle, or after ten rounds without `untilWrite`; on idle all is flushed and a queue that is not empty is still attended |
| `WriteLoopTheorems.OneCloser` | channel.go:196-196 | only one call of `Close` gets past the compare-and-swap on `closed` |
| `WriteLoopTheorems.NoLostWakeup` | channel.go:604-610 | a queue that is not empty while idle is looked after by a producer between send and compare-and-swap or a writer between its store of idle and its own compare-and-swap |
| `WriteLoopTheorems.QuiescentDelivered` | channel.go:604-613 | at rest without a failure the queue is empty and every accepted byte is written and flushed |
| `WriteLoopTheorems.OneOwner` | channel.go:364-376 | each pooled buffer has at most one owner among pool, other users, producers, batch and queue |
| `WriteLoopTheorems.RecycledAfterWrite` | channel.go:585-593 | a buffer is recycled only after the `Writev` that wrote its whole packet returned, then nobody else owns it, and its slots become nil |
| `WriteLoopTheorems.RecycledAtMostOnce` | channel.go:586-593 | over any run each packet's buffer is recycled at most once |
| `WriteLoopTheorems.NothingLeaks` | channel.go:318-325 | no event of a caller or a writer loses or adds an owner of a buffer, but for a new buffer, a caller that gives up its call, and a batch whose write failed |
| `WriteLoopTheorems.BatchIsBounded` | channel.go:566-579 | a batch is written with half of the queue's capacity and one more packets, or when the queue is empty |
| `WriteLoopTheorems.FlushWhenEmpty` | channel.go:595-601 | a writer flushes only after it found the queue empty |
| `WriteLoopTheorems.BlockedIff` | channel.go:378-398 | a caller in its `select` is blocked exactly when the queue is full, `untilWrite` is set and the context is not done |
| `WriteLoopProgress.DrainingDecreases` | channel.go:560-614 | every failure-free step of a producer inside a call or of a writer decreases a measure, also when a writer loops again on a stale length and drains nothing |
| `WriteLoopProgress.DrainsAreFinite` | channel.go:560-614 | without new sends and failures every run of producer and writer steps is finite, bounded by the measure |
| `WriteLoopProgress.StuckIsDelivered` | channel.go:560-614 | where after such a run no compare-and-swap, spawn or writer step is possible, every accepted byte is written and flushed, even if callers are blocked in their sends |
| `WriteLoopProgress.DrainExists` | channel.go:560-614 | from every failure-free state the threads can come to rest by themselves |
| `WriteLoopShutdown.FailureCloses` | channel.go:553-557 | in every reachable state after a failed write or flush some writer is on its way to `Close`, or `Close` has been called |
| `WriteLoopShutdown.FailedIsClosed` | channel.go:553-557 | a failed channel whose writers and closers have finished is closed and its context done |
| `WriteLoopShutdown.ClosedIsDone` | channel.go:195-209 | a closed channel has its context done unless the call that closed it is still under way; then no caller stays blocked in its `select` |
| `WriteLoopShutdown.ErrorIsKept` | channel.go:207-207 | the error that `Close` stores is the close error in every state of every run from then on |
| `WriteLoopShutdown.ErrorBeforeDone` | channel.go:207-209 | without a cancelled parent context, the context is done only after the close error was stored for good |
| `WriteLoopShutdown.CloseWaits` | channel.go:199-205 | for every run: `Close` goes ahead only if `running` was idle at some time since, or without `untilWrite` after ten rounds, and it never sleeps an eleventh |
| `WriteLoopShutdown.CloseDoesAll` | channel.go:195-213 | a call of `Close` that won the compare-and-swap and has returned has ended its wait, stored its error (which the channel keeps), closed the transport and cancelled the context |
| `WriteLoopShutdown.ToldWhy` | channel.go:340-405 | what each way out of a call tells the caller, and in which state of the channel: close error, no space (queue full, no `untilWrite`, context not done), the caller's context, or the full length of an accepted packet |
| `WriteLoopShutdown.ToldNoSpaceIff` | channel.go:388-397 | a caller is told that there is no space exactly by the refusal |
| `WriteLoopShutdown.RejectedIff` | channel.go:340-342 | a caller that has not sent yet can be turned away with the close error exactly when there is one |
| `WriteLoopSafety.CutIs` | channel.go:583-583 | a write that fails after k bytes leaves exactly the first k bytes of its batch |
| `WriteLoopClosing.IdleDeliversAllIff` | channel.go:201-208 | when `Close` reads idle without a failure, everything accepted was delivered if and only if every packet in the queue has length 0 |
| `WriteLoopClosing.CloseDeliversIff` | channel.go:199-208 | for every reachable state: whatever happens without further sends and failures, `Close` finds everything delivered whenever it reads idle, if and only if now no bytes are queued, or `running` is set and no writer is between its last length read and its store of idle |
| `WriteLoopClosing.CloseAfterLastCall` | channel.go:199-208 | a `Close` that comes when all callers and writers have finished, and no call begins any more, finds everything written and flushed |
| `WriteLoopClosing.CloseMayOvertake` | channel.go:596-610 | a reachable run with `untilWrite` in which every call has returned its length and no error before `Close` is called, and `Close` reads idle with a packet left behind |
| `WriteLoopClosing.UnsentIsToldNil` | channel.go:391-392 | a reachable state in which a caller whose non-empty packet was not sent is told (0, nil) |
| `WriteLoopAnswers.StepMisleads` | channel.go:378-398 | an event makes a caller be told a nil error for bytes that were not accepted if and only if that caller sees the cancelled context while the close error is nil |
| `WriteLoopAnswers.NilIsTrueIff` | channel.go:207-209 | from any reachable state in which nobody has been misled so far: no run ever tells a caller a nil error for unsent bytes if and only if the channel has a close error |
| `Ledgers.LeadsIff` | channel.go:360-615 | the simple form, a bounded queue with a record and a flag: its moves lead from one ledger to another exactly when nothing accepted is changed, nothing taken comes back, and the queue holds what was accepted last |
| `WriteLoopLedger.StepIsMove` | channel.go:360-615 | every atomic action of every thread is exactly one move of that ledger, or none |
| `WriteLoopLedger.RunIsMoves` | channel.go:360-615 | so every run, whatever the interleaving, is a run of the ledger |
| `WriteLoopLedger.CallIsRun` | channel.go:360-405 | from every reachable state with room in the queue, some run of the steps does what one call does alone: one packet put, the flag raised, a writer spawned exactly if it was not, the length told |
| `WriteLoopLedger.DrainIsRun` | channel.go:551-615 | from every reachable state without a failure, some run does what one writer does alone: the queue emptied, the flag lowered, everything accepted written and flushed |
| `Channels.Channel.constructor` | channel.go:115-143 | a channel with an empty queue, idle, nothing accepted |
| `Channels.Channel.Send` | channel.go:378-398 | the select of both modes: accepted with exactly the packet's bytes; or the channel's context is done and the close error told, or the caller's own context is done and told, or there is no space, told only of a full queue without `untilWrite` when neither context is done |
| `Channels.Channel.Clone` | channel.go:361-373 | the pooled copy always fits, holds the caller's bytes, is in nobody else's hands, and leaves every queued packet untouched |
| `Channels.Channel.LedgerFollows` | channel.go:360-454 | whatever the calls on the heap and the world around them did to the channel, it is the moves of the ledger |
| `Channels.Channel.CallIsCalled` | channel.go:360-405 | a call on the heap that nobody interferes with is the same step of the ledger as in `CallIsRun` |
| `Channels.Channel.AsyncWrite` | channel.go:360-405 | a panic exactly when a clone is too large for the pool; one new packet with the caller's bytes, result its length, `running` set and one writer spawned exactly if it was idle; or nothing accepted, 0 bytes and the reason: the channel's context done (which only a cancellation brings about), the caller's context done, or, when neither is, the queue full (never with `untilWrite`); the caller waits only with `untilWrite`, for a full queue, while no context is done |
| `Channels.CountOf` | utils/reader.go:118-124 | the number of bytes of the slices together |
| `Channels.GatherInto` | channel.go:416-422 | every copy of the loop fits and the buffer's beginning is the concatenation of the pieces |
| `Channels.Channel.AsyncWritev` | channel.go:407-454 | a panic exactly when the pieces together are too large for the pool; all of them as one packet with their concatenated bytes; or nothing accepted and the reason, as for `AsyncWrite` |
| `Channels.Channel.Write1` | channel.go:340-358 | asynchronous `write1`: a set close error is returned and nothing accepted; otherwise as `asyncWrite`, with its reasons for a refusal and its size for a panic |
| `Channels.Channel.CtxWrite1` | channel.go:244-249 | as `asyncWrite` under the caller's context, without a look at the close error: the same reasons and the same size |
| `Channels.Channel.Writev` | channel.go:218-226 | asynchronous `Writev`: a set close error is returned and nothing accepted; otherwise as `asyncWritev`, with its reasons and its size |
| `Channels.Channel.CtxWritev` | channel.go:271-276 | as `asyncWritev` under the caller's context, without a look at the close error |
| `Channels.Channel.ReadPiece` | channel.go:305-325 | one round: what the reader gives for a buffer of 1024 bytes becomes a packet of its own in a fresh pooled buffer, or an error says why not: the close error, a reason of the `select`, or a short write when the cancelled send gave no error; when nothing was read the pool has lent out no buffer more than before |
| `Channels.Channel.ReadFrom` | channel.go:296-334 | a set close error first, with nothing read; otherwise for every chunking by the reader, the packets concatenate to what was read; on success all of it and its length; the error is the reader's after all of it, the close error, a reason of the `select`, or a short write |
| `Heads.WriteTo` | handler.go:169-170 | a message that writes slices of its own through the channel's writer: all its bytes in order, every slice (nil ones included) a packet of its own; or a beginning, only if the channel is closed, cancelled or full or a slice is too large for the pool |
| `Heads.WriteToReusing` | handler.go:169-170 | a message that passes every chunk in one buffer: the packets already queued keep their bytes, and all chunks are accepted in order, each as a packet; or a beginning, for the same reasons only |
| `Heads.HandleWrite` | handler.go:160-176 | whatever the shape of the message, what is accepted is its bytes, as one packet for a slice or a list of slices, or a beginning of them when it panics (one exception: a slice not sent because the context is done without a close error); it panics only on an unsupported type, a failing reader or writer-to, a piece too large for the pool, or a channel closed, cancelled or full; with `untilWrite` an open channel that nobody cancels takes every other message; the accepted bytes are what `ToBytes` makes of the message if and only if they can be stolen safely |
| `Writers.Transport.Writev` | transport/buffered.go:55-57 | all the buffers in order, or a beginning of their bytes, only if an operation fails; the slots are consumed exactly that far: nil up to there, the slice written in part shortened by what was written, the rest as it was |
| `Writers.RestIs` | transport/buffered.go:55-57 | the shortened slice holds exactly the bytes that were not written |
| `Writers.Writer.ArriveOne` | channel.go:376-384 | another caller's send: one packet more in the queue and accepted, everything still to be written keeps its bytes and buffers |
| `Writers.Writer.Poll` | channel.go:566-579 | while other callers send, queued packets go in order into both batch buffers until these are full or the queue is empty |
| `Writers.Writer.SendBatch` | channel.go:581-583 | the batch in hand is written in order, or a beginning of its bytes |
| `Writers.Writer.Recycle` | channel.go:586-593 | every buffer of the batch goes back to the pool, its slots become nil, packets not written yet keep their bytes |
| `Writers.Writer.Loop` | channel.go:560-614 | the loop terminates however many packets arrive meanwhile, writing them in order of acceptance; it fails only if the transport does, and leaves `running` set only if another caller took it |
| `Writers.Writer.WriteOnce` | channel.go:551-615 | with other callers sending between its actions: everything accepted but what is still queued was written in order and flushed, its buffers given back, and a queue that is not empty is left only to another holder of `running` that took it meanwhile; or, only if the transport fails, idle with a beginning of those bytes written; what it does to the channel is the moves of the ledger |
| `PowersOfTwo.FillBits` | utils/pool/internal/pmath/pmath.go:57-65 | all bits up to the highest one, for every n below 2^63 |
| `PowersOfTwo.FilledIsLeast` | utils/pool/internal/pmath/pmath.go:57-65 | that is the least 2^k - 1 not below n |
| `PowersOfTwo.CeilPow2IsLeast` | utils/pool/internal/pmath/pmath.go:30-43 | the ceiling is a power of two, not below n, and the least such |
| `PowersOfTwo.CeilToPowerOfTwo` | utils/pool/internal/pmath/pmath.go:32-43 | the ceiling for 1 to 2^62, the argument itself at or below 0, a panic exactly above 2^62 |
| `PowersOfTwo.FloorToPowerOfTwo` | utils/pool/internal/pmath/pmath.go:47-55 | the greatest power of two not above n |
| `PowersOfTwo.LogarithmicRange` | utils/pool/internal/pmath/pmath.go:11-18 | for every min and max for which the loop ends: exactly the values of the repeatedly (and with wrap-around) doubled start before the first one above max; a panic above 2^62 |
| `PowersOfTwo.VisitsPowers` | utils/pool/internal/pmath/pmath.go:15-17 | from a power of two these are the powers of two up to max |
| `PowersOfTwo.RangeIsExact` | utils/pool/internal/pmath/pmath.go:11-18 | those are exactly the powers of two from there to max, each once, increasing |
| `PowersOfTwo.RangeEnds` | utils/pool/internal/pmath/pmath.go:15-17 | from a power of two the loop ends if and only if max is below 2^62 |
| `PowersOfTwo.NegativeRangeEnds` | utils/pool/internal/pmath/pmath.go:15-17 | from a negative min and with max below 2^62 it ends if and only if max is negative too or min is not the negative of a power of two |
| `PowersOfTwo.EndsWithin64` | utils/pool/internal/pmath/pmath.go:15-17 | from any start and for any max it ends if and only if max is negative or one of the first 64 values is above max |
| `Pools.Pool.New` | utils/pool/generic.go:18-37 | as many shards as the rounded maximum but at most 64, whose number times the step is exactly the rounded maximum (the extra shard is never added); a panic above 2^62 |
| `Pools.ShardGeometry` | utils/pool/generic.go:21-25 | step times shards equals every power-of-two maximum |
| `Pools.Pool.Get` | utils/pool/generic.go:42-53 | any element of the size class's shard, or none; index in range; the size class is returned |
| `Pools.Pool.Put` | utils/pool/generic.go:56-64 | kept in its shard, or dropped below the step and beyond the last shard |
| `Pools.SizeClassIsClass` | utils/pool/generic.go:29-34 | the size class is the least of the step and the larger powers of two that is not below the request |
| `Pools.ClassOfShard` | utils/pool/generic.go:45-45 | a shard index determines its size class: index plus one times the step |
| `Pools.BytePool.Get` | utils/pool/pbytes/pool.go:19-27 | a slice whose capacity is exactly the size class of c, hence at least c, that nobody else holds |
| `Pools.BytePool.Put` | utils/pool/pbytes/pool.go:32-34 | every shard keeps one capacity, and no slice twice |
| `Pools.ForeignPut` | utils/pool/generic.go:56-64 | for a slice of any capacity: putting it back keeps the capacity promise if and only if it is below the step, beyond the shards, a multiple of the step, or in a shard no class uses |
| `Pools.ForeignPutExample` | utils/pool/generic.go:56-64 | with a step of 1024, a slice of capacity 1500 that is put back breaks the promise of the 2048 class |
| `Pipelines.Pipeline.constructor` | pipeline.go:64-76 | head and tail only, linked both ways |
| `Pipelines.Pipeline.LinkAfter` | pipeline.go:127-132 | the link updates keep next and prev inverse, nodes distinct, ends at the ends |
| `Pipelines.Pipeline.LinkLast` | pipeline.go:202-208 | the same before the tail |
| `Pipelines.Pipeline.AddFirst` | pipeline.go:87-95 | the handlers stand behind the head in reversed order; unrecognized handlers panic before anything changes |
| `Pipelines.Pipeline.AddLast` | pipeline.go:98-106 | the handlers stand before the tail in order |
| `Pipelines.Pipeline.AddHandler` | pipeline.go:109-136 | the handlers stand behind the position in order; -1 and the last position mean before the tail, other negative ones behind the head, past the end panics |
| `Pipelines.Pipeline.IndexOf` | pipeline.go:139-153 | the first position that satisfies the predicate, -1 exactly when none does |
| `Pipelines.Pipeline.LastIndexOf` | pipeline.go:156-170 | the last one |
| `Pipelines.Pipeline.ContextAt` | pipeline.go:173-185 | the node at the position; nil for -1 and past the end, the head for other negative positions |
| `Pipelines.Context.FindNext` | context.go:173-184 | the next context towards the tail whose handler is capable, skipping exactly the others |
| `Pipelines.Context.FindPrev` | context.go:203-214 | the same towards the head |
| `Pipelines.Context.HandleRead` | context.go:187-200 | with every handler forwarding or keeping as it likes, reading along the nodes does what reading along the list of handlers does |
| `Pipelines.Context.HandleWrite` | context.go:202-215 | the same for writing |
| `Pipelines.Context.HandleSignal` | context.go:217-260 | active, exception, inactive and event visit the handlers that the list says |
| `Pipelines.Context.Write` | context.go:107-127 | a panic while writing becomes an exception that somebody handles |
| `Pipelines.Pipeline.FireChannelRead` | pipeline.go:226-228 | a read from the head passes the whole list but the head |
| `Pipelines.Pipeline.FireChannelWrite` | pipeline.go:230-232 | a write from the tail passes the whole list but the tail |
| `Pipelines.Pipeline.FireChannelException` | pipeline.go:234-236 | an exception is always handled, at worst by the tail |
| `Pipelines.Pipeline.Deliver` | pipeline.go:226-232 | a message written at the tail of one pipeline is delivered unchanged by a second one with the same codecs |
| `Handlers.SignalIsHandled` | context.go:217-230 | a signal is handled exactly when some handler is capable |
| `Handlers.SignalStops` | context.go:217-260 | it visits the capable handlers in order, up to the first that does not hand it on |
| `Handlers.WriteEncodes` | context.go:202-215 | codecs that undo their encodings encode from last to first |
| `Handlers.ReadDecodes` | context.go:187-200 | and decode from first to last |
| `Handlers.StackRoundTrip` | context.go:187-215 | for a stack of any length, what the head gets is read back as the message that was written |
| `Handlers.ReverseOrder` | pipeline.go:226-232 | a write visits the codecs in exactly the reverse of the order of a read |
| `Streams.ReadOne` | utils/reader.go:44-48 | takes exactly the first byte of the stream, or reports its end |
| `Streams.FrameReader.Drain` | codec/frame/length_field.go:105-110 | a frame read to its end gives its bytes and leaves the stream right behind it, whatever the chunking |
| `Streams.FrameReader.Skip` | codec/frame/length_field.go:113-116 | skipping takes that many bytes off the frame and none behind it |
| `Streams.FramesDecode` | codec/frame/delimiter.go:50-76 | frames that decode singly, whatever follows, decode one by one from their concatenation |
| `Delimiter.HandleRead` | codec/frame/delimiter.go:50-81 | posts the shortest prefix ending in the delimiter if it is within the maximum; otherwise fails after exactly the maximum or at the end of the stream |
| `Delimiter.OneOutcome` | codec/frame/delimiter.go:50-81 | the stream determines the outcome |
| `Delimiter.PostedIs` | codec/frame/delimiter.go:67-73 | a posted frame is exactly the bytes consumed, or those bytes without the delimiter at their end when it is stripped |
| `Delimiter.RoundTrip` | codec/frame/delimiter.go:50-101 | a written frame followed by anything is read back, leaving exactly the rest, if and only if it fits the maximum and the delimiter does not end earlier |
| `Delimiter.BorderFree` | codec/frame/delimiter.go:65-65 | for a delimiter without a border that means the body does not contain it |
| `Delimiter.BorderMatters` | codec/frame/delimiter.go:65-65 | a delimiter with a border can end early though the body does not contain it |
| `Delimiter.StreamRoundTrip` | codec/frame/delimiter.go:55-79 | a concatenation of admissible frames decodes to exactly those bodies |
| `Delimiter.ReadMany` | codec/frame/delimiter.go:50-81 | repeated `HandleRead` on a stream is repeated decoding |
| `LengthField.PackedByte` | codec/frame/length_field.go:137-152 | every byte of a packed length is a digit of its 64-bit pattern, the most significant first for `BigEndian` and last for `LittleEndian` |
| `LengthField.UnpackIs` | codec/frame/length_field.go:121-135 | an unpacked length is the number the bytes spell in that order, reinterpreted as signed |
| `LengthField.NumberOfBytes` | codec/frame/length_field.go:123-128 | written out as sums for fields of one, two and four bytes |
| `LengthField.FieldRoundTrip` | codec/frame/length_field.go:121-152 | a packed length unpacks to itself if and only if it is non-negative and fits the field, or the field has 8 bytes |
| `LengthField.AcceptedIffInLimits` | codec/frame/length_field.go:90-103 | with 64-bit wrap-around, accepted if and only if the number that the field's bytes spell is below 2^63 and the mathematical length is within all limits; then it is that length |
| `LengthField.DecodeIs` | codec/frame/length_field.go:75-119 | in terms of the stream's bytes: what is posted is the stream without its first `initialBytesToStrip` bytes, up to the announced length or the end of the stream, and the rest is left; nothing is posted exactly when a limit is broken |
| `LengthField.HandleRead` | codec/frame/length_field.go:75-119 | posts a reader over the frame without its stripped bytes, leaving the stream behind the frame, or panics |
| `LengthField.AcceptsOwnHeaderIff` | codec/frame/length_field_prepender.go:51-65 | for every body: the decoder accepts the prepender's header with the frame's true length if and only if the length fits the field and the frame the limits |
| `LengthField.UsualPair` | codec/frame/length_field_prepender.go:51-65 | four bytes in front in either order, stripped again: every body up to the maximum less four |
| `LengthField.RoundTrip` | codec/frame/length_field_prepender.go:51-65 | a fitting frame decodes to header and body without the stripped bytes, leaving what follows |
| `LengthField.StreamRoundTrip` | codec/frame/length_field.go:75-119 | any concatenation of fitting frames decodes one by one and leaves the rest untouched |
| `LengthField.ReadMany` | codec/frame/length_field.go:75-119 | repeated `HandleRead`, each frame drained, is repeated decoding, whatever the chunking |
| `Varint.ReadUvarint` | codec/frame/varint_length.go:47-48 | the 64-bit number of the varint at the start of the stream, taking no byte past it; overflow and end of stream told apart |
| `Varint.PutInto` | codec/frame/varint_length.go:63-64 | the varint of every 64-bit number fits the ten-byte array |
| `Varint.ParsePut` | codec/frame/varint_length.go:47-64 | a written varint followed by anything parses to its number and length |
| `Varint.HandleWrite` | codec/frame/varint_length.go:55-74 | header and payload, a panic exactly above the maximum |
| `Varint.HandleRead` | codec/frame/varint_length.go:43-53 | posts the announced number of bytes behind the header, or panics |
| `Varint.DecodeAnnounced` | codec/frame/varint_length.go:47-52 | for every announced 64-bit length: rejected above the maximum, otherwise exactly that many bytes (or up to the end of the stream) |
| `Varint.RoundTrip` | codec/frame/varint_length.go:43-74 | every body within the maximum comes back, leaving exactly the following stream |
| `Varint.StreamRoundTrip` | codec/frame/varint_length.go:43-74 | any concatenation of written frames decodes one by one |
| `CodecStack.RoundTrip` | codec/frame/length_field.go:75-119 | each of the three codecs gives back every body it carries, whatever follows |
| `CodecStack.CarriesIff` | codec/frame/delimiter.go:50-101 | the delimiter and the varint codec give back exactly the bodies they carry |
| `CodecStack.StackUndoes` | pipeline.go:226-232 | a stack of these codecs, in any order and number, undoes its encodings |
| `CodecStack.MessagesArrive` | pipeline.go:226-232 | messages written one after the other through a stack are cut from the byte stream one by one and delivered unchanged and in order |
| `CodecStack.EndToEnd` | channel.go:543-545 | with any interleaving of callers, the peer decodes from what the write loop delivered exactly the accepted messages, in order of acceptance |
| `IdleHandlers.IdleHandler.HandleActive` | handler.go:237-246 | context kept, time taken, timer armed |
| `IdleHandlers.IdleHandler.Touch` | handler.go:251-258 | time taken and an existing timer re-armed; after inactive nothing is armed |
| `IdleHandlers.IdleHandler.HandleInactive` | handler.go:261-273 | context dropped, timer stopped and dropped |
| `IdleHandlers.IdleHandler.Rearm` | handler.go:301-306 | an existing timer is re-armed for the whole idle time from now |
| `IdleHandlers.Follow` | handler.go:237-307 | along every run of the timed machine, from its start, the handler on the heap has the fields of the state, its callbacks decide what the machine says, and it triggers as many events |
| `IdleHandlers.StepKeepsInv` | handler.go:237-307 | the invariant of all interleavings of activity, callbacks, time, one activation and one inactive, in either order |
| `IdleHandlers.NeverEarly` | handler.go:280-298 | when the callback of a triggered event checked, every read completed by then was at least the idle time ago |
| `IdleHandlers.NeverAsleep` | handler.go:237-307 | while a context is attached a timer is armed (due between last activity plus idle time and now plus idle time) or a callback is running |
| `IdleHandlers.NeverArmedIff` | handler.go:237-273 | from a detached state there is no timer at any point of a run if and only if the run has no activation |
| `IdleHandlers.InactiveIsFinalIff` | handler.go:261-273 | no run after inactive ever has a timer again if and only if there was a timer to stop when inactive took the lock |
| `IdleHandlers.LateTriggersIff` | handler.go:261-307 | the number of events triggered after inactive is bounded if and only if there was a timer to stop |
| `IdleHandlers.ActiveAfterInactive` | handler.go:237-273 | for every n a reachable run in which active takes the lock after inactive, the timer is armed, and n events are triggered on the closed channel |
| `IdleHandlers.LateTriggersAreBounded` | handler.go:286-298 | while no activation comes, only callbacks that had already decided before still trigger the event, each once |
| `IdleHandlers.NoCallbackBefore` | handler.go:237-306 | after an activation, a read or write, or the end of a callback no callback starts before the whole idle time has passed, whatever happens meanwhile |
| `IdleHandlers.EventsApart` | handler.go:286-306 | the events of a callback and of any callback that starts after its end are at least the idle time apart, in every run |
| `IdleHandlers.NeverTooOften` | handler.go:280-306 | in every run in which callbacks do not overlap, any two events are at least the idle time apart |
| `IdleHandlers.OverlappingCallbacks` | handler.go:280-306 | a reachable run with two overlapping callbacks and two events at one time |
| `IdleHandlers.NeverLate` | handler.go:374-408 | from the start, if time passes neither a due timer nor a running callback, a handler that is attached and whose last activity is more than the idle time ago has triggered the event since |
| `MessageBytes.Append` | utils/reader.go:135-135 | `append` within the capacity writes in place, beyond it into a new array; contents concatenate |
| `MessageBytes.ByteStealer.Write` | utils/reader.go:131-138 | the first slice that is not nil is taken over, later bytes are appended, and only the stealer's own arrays are ever written to |
| `MessageBytes.StealKept` | utils/reader.go:140-153 | all written bytes, or an error exactly when the writer-to fails or reports another total |
| `MessageBytes.StealReused` | utils/reader.go:140-153 | from a writer-to that reuses its buffer: the first chunk as overwritten by the next non-empty one, then the later chunks; an error exactly when it fails or reports another total |
| `MessageBytes.StolenIsWritten` | utils/reader.go:132-136 | for every sequence of chunks in a reused buffer, what is stolen is what was written if and only if the first chunk and the next non-empty one agree as far as both go |
| `MessageBytes.ReuseLosesBytes` | utils/reader.go:132-133 | two one-byte chunks in one buffer of which the first is lost |
| `MessageBytes.ToBytes` | utils/reader.go:81-107 | for every type of message: an error exactly on an unknown type, a failing reader or writer-to, or a wrong total; otherwise the message's bytes, but from a reused buffer the overwritten ones |
| `MessageBytes.MadeIsContent` | utils/reader.go:81-107 | what `ToBytes` returns is the bytes the message writes if and only if the message does not reuse its buffer for chunks that disagree |
| `MessageBytes.MultiReader.Read` | utils/reader.go:56-61 | a list of slices read as one stream, at least one byte per read until the end |
| `MessageBytes.ToReader` | utils/reader.go:51-69 | for every type of message: itself exactly if it is a reader, an error exactly for a writer-to that is not a reader and for an unknown type, otherwise a new reader of exactly the message's bytes |

## Left out

- Transports, listeners, dialing, bootstrap, URL schemes and the channel holder: a transport is `Writev`, `Flush` and `Close` over a byte sequence.
- `codec/xhttp`, `codec/format` and the fixed-length, variable-length and packet codecs: thin layers or easy claims only.
- `utils/pool/pbuffer`: a buffer may have grown to any capacity before it is put back, so the size-class promise does not carry over.
- The synchronous write path with its lock and deadlines: a lock around library calls.
- Scheduler fairness: progress is stated as a measure and as finiteness of runs, not as a promise about the scheduler.
- What a transport does with writes after it was closed: they may succeed or fail in the model.
- Reader errors other than end of stream in the codecs, where any error is a panic.
- Handlers with state of their own, handlers that change the pipeline during dispatch, and panics of exception handlers; a handler is a function of the message.
- The type switch of `checkHandler` is a set of capabilities; the text that `tailHandler` prints is not modelled.
- One idle handler shared between channels: the handler is activated once.
- `IsPowerOfTwo`, `Identity`, `Max`, `Min` in `pmath`: one-line functions (`IsPowerOfTwo` calls 0 a power of two).
- PowersOfTwo.LogarithmicRange: the loops that do not end; `RangeEnds`, `NegativeRangeEnds` and `EndsWithin64` say which these are.
- Writers.Writer.Loop: what a second writer does that took `running` between the store of idle and the compare-and-swap is left to the step system.
- Writers.Writer.WriteOnce: the actions of a second writer that took `running` in between, and the call of `Close` after a failure, are events of the step system only.
- Channels.Channel.ReadFrom: the returned count on a refusal includes the refused piece, as in the code.
- CodecStack.EndToEnd: a message must reach the head as one slice or one list of slices, so that it is one packet; messages that arrive in pieces may interleave with those of other callers.
- Heads.HandleWrite: a writer-to that ignores the error of a write is not modelled; a `bytes.Buffer` is not emptied by writing it, as in the code.
- Delimiter.HandleRead: the error texts are not modelled, only which of the outcomes it is.
