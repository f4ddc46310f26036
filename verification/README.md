# blehostd: a verified model

blehostd is a daemon between a client process and a Bluetooth host stack. The client and the
daemon exchange JSON texts over a local stream socket; each text is preceded by its length in two
bytes. Requests register GATT services in a set of fixed pools, and while a remote device accesses
an attribute the host task waits in the daemon until the client has said what to answer.

This project models the four parts of the daemon that keep state, as Dafny classes and methods
where the C code updates in place and as functions for what those methods are specified by:

* **The wire** (`Framing`, `Reader`, `ReaderProofs`, `AllocFailures`, `ChunkInvariance`,
  `EmptyFrames`, `SocketReader`, `Responses`, `SendQueue`, `RoundTrip`). `Framing` reads a whole
  stream at once and is the reference; `Reader` is the incremental reader with its held-back
  buffer, stripped header, length-header bypass and failing allocations. The main results: for
  every history of reads, chunks and allocation failures without an oversize header, the delivered
  messages followed by the parse of what is held back are the parse of what arrived; every way of
  cutting a stream of messages delivers the same messages, and for arbitrary streams the exact
  condition under which cutting makes no difference; what the response writer accepted is what the
  other end reads; the send queue loses and duplicates nothing under any interleaving, and keeps
  order as long as its consumers take turns.
* **The registry** (`Gatt`, `GattPools`, `GattRegistry`, `GattLayout`, `Slices`, `GattWalk`,
  `GattTheorems`, `GattPlaces`, `GattCommit`, `GattCommitRuns`). Pointers into the pools are
  indices. `GattRegistry` is the C code over five counters and the pools, proved against the pure
  `GattPools`; `GattWalk` follows pointers up to the null terminators, as the host stack does, and
  is the decoder. The main results: the estimate made up front is sound and its slack is known
  exactly; a batch is registered as requested exactly if the terminators it relies on, but never
  writes, are null beforehand; registered batches survive every later one; committing follows no
  null pointer exactly if at most one batch was accepted and all its services have
  characteristics.
* **The rendezvous** (`Rendezvous`). Any number of setters and waiters as interleaved atomic
  steps: a ledger of tokens and results in every reachable state, no wedged mailbox, and the exact
  condition under which every accepted status is returned once and in order.
* **Text codecs and sequence numbers** (`CText`, `ByteStream`, `Address`, `UuidCodec`,
  `EventSeq`), down to `strtok`, `strtoul` and `snprintf`: round trips, the truncation of the hex
  printer, the two opposite cursors of the UUID parser, and the wrapping band of event sequence
  numbers.

Several laws one might expect are false of the code. Each has a lemma with the inputs that break
it, or the exact condition: an empty frame stalls the drain loop (`EmptyFrameStalls`); with empty
frames or the length-header bypass, deliveries depend on how the stream is cut
(`ChunkIndependentIff`); order is kept exactly with at most one send loop (`KeepsOrderIff`); the
estimate can turn away a batch that fits (`RejectedThoughFits`, `RefusedWitness`); a smaller batch
after a clear inherits old entries (`ClearThenFewer`); a second batch cannot be committed
(`TwoBatchesCommit`); a result that races with a timeout is lost and its token answers the next
access with 0xff (`LateResult`); texts with a sign in place of a digit pass as UUIDs
(`SignAccepted`); 16-bit UUID 0 and 32-bit UUIDs are printed but not read back
(`UuidRoundTripIff`); a hex printer given a negative size prints one byte regardless (`HexStr`);
the cleanup after a failed allocation reads past the list (`CommitAnswers`).

Inputs of the model: what `mn_recvfrom` and `mn_sendto` return, whether each allocation succeeds,
the scheduling of tasks, when a pend times out, the host stack's return codes, and the handles it
writes.

Assumptions about code outside the repository: an `os_mbuf_copydata` that fails leaves its
destination untouched; `OS_MBUF_PKTLEN` is a 16-bit field; `os_mqueue_put` and `os_mqueue_get` are
atomic and first-in first-out; a successful read returns at least one byte; `snprintf` accepts a
size above `INT_MAX`, which is what a negative one becomes; the host stack prints a 128-bit UUID
in the canonical form of section 3 of RFC 4122; the unlikely error of the attribute protocol is
0x0e.

Where comments and code disagree, the code is modelled: `bhd_gatts.c:282-283`, `311-312` and
`345-346` speak of a null terminator but only skip a slot, which is null only if nothing wrote it
before.

## Model

| member | source | states |
|---|---|---|
| `Framing.ParseFrames` | apps/blehostd/src/main.c:115-139 | Reading a whole stream undoes framing: every message of at most 10240 bytes comes back, in order, whatever follows. |
| `Framing.FrameBytes` | apps/blehostd/src/main.c:127-135 | A frame byte by byte: the length with its high byte first, then the text. |
| `Framing.ParseTailRebuild` | apps/blehostd/src/main.c:212-255 | Without empty frames, the parsed messages framed again, followed by the unparsed tail, are the stream: no byte is lost. |
| `Framing.CleanPrefix` | apps/blehostd/src/main.c:218-225 | What has arrived of a stream meets an oversize header or an empty frame only if the whole stream does. |
| `Framing.CutTail` | apps/blehostd/src/main.c:235-255 | Cutting a stream inside its tail leaves the parsed messages alone and shortens the tail. |
| `ReaderProofs.StepAccounts` | apps/blehostd/src/main.c:206-261 | One call, with or without memory, unless an oversize header stands in front: what it delivers followed by the parse of what it retains is the parse of what was there, for any bytes still to arrive. |
| `ReaderProofs.DrainAccounts` | apps/blehostd/src/main.c:292-297 | The same for the whole drain loop over a stream without oversize headers; the loop terminates for every pattern of allocation failures. |
| `ReaderProofs.RunAccounts` | apps/blehostd/src/main.c:206-298 | Safety over any history of reads, chunks and allocation failures, from any state, for streams without oversize headers, empty frames included: delivered messages, then the parse of the retained buffer with its stripped header put back, equal the parse of all bytes received. |
| `ReaderProofs.ReceiveSafe` | apps/blehostd/src/main.c:263-298 | The same equation kept by every single callback, against what was delivered earlier. |
| `ReaderProofs.StepStops` | apps/blehostd/src/main.c:229-233 | With memory available a call only stops when no complete frame is left, unless an empty frame is in the way. |
| `ReaderProofs.DrainCatchesUp` | apps/blehostd/src/main.c:292-297 | A drain without failures delivers all complete frames and leaves an incomplete one or nothing. |
| `ReaderProofs.CatchUp` | apps/blehostd/src/main.c:239-251 | After any history with failed allocations, one callback without failures has delivered exactly what a reader without failures would have: a failure only delays. |
| `AllocFailures.StepExact` | apps/blehostd/src/main.c:206-261 | For any buffer and either outcome of the allocation, exactly what one call delivers and retains of the stream in hand: a message that fills the buffer is handed over without an allocation, one with bytes behind it only with one. |
| `AllocFailures.ReceiveExact` | apps/blehostd/src/main.c:263-298 | The same for a whole callback; a failed read changes nothing. |
| `AllocFailures.DeliveredUntilFailure` | apps/blehostd/src/main.c:235-255 | Exactly which messages a callback delivers under any pattern of allocation failures: all up to the first failing allocation that is needed, and what it leaves. |
| `ChunkInvariance.ChunkInvariant` | apps/blehostd/src/main.c:206-298 | Messages of 1 to 10240 bytes, framed and cut into non-empty chunks in any way that the 16-bit packet length can hold: exactly those messages are delivered, in order, and the reader ends with no packet and length 0. |
| `ChunkInvariance.BoundedChunkInvariant` | apps/blehostd/src/main.c:206-298 | The same for chunks of at most 55296 bytes, which always stay below that length. |
| `ChunkInvariance.BoundedChunksFit` | apps/blehostd/src/main.c:230-235 | With chunks of bounded size the 16-bit packet length is never exceeded, however long the stream is. |
| `ChunkInvariance.ShortStreamFits` | apps/blehostd/src/main.c:230-235 | No stream below 64 KiB exceeds it, whatever it holds and whichever allocations fail. |
| `ChunkInvariance.BypassStep` | apps/blehostd/src/main.c:218-222 | An oversize header makes the whole buffer, header included, one message. |
| `ChunkInvariance.DrainBypass` | apps/blehostd/src/main.c:218-238 | Complete frames in front of the oversize header are still delivered one by one; then everything behind is one message. |
| `ChunkInvariance.EmptyFrameStalls` | apps/blehostd/src/main.c:224-233 | A frame of declared length 0 stops the drain loop, and the complete message behind it stays in the buffer. |
| `EmptyFrames.RunDeliversAll` | apps/blehostd/src/main.c:206-298 | If no message stands behind an empty frame, every way of cutting a stream without oversize headers delivers all its messages. |
| `EmptyFrames.DrainStopsAtEmpty` | apps/blehostd/src/main.c:229-233 | A callback that meets an empty frame delivers exactly the messages in front of it. |
| `EmptyFrames.OneByOneDelivers` | apps/blehostd/src/main.c:206-298 | One byte at a time, every stream without oversize headers is delivered completely, empty frames or not. |
| `EmptyFrames.ChunkIndependentIff` | apps/blehostd/src/main.c:206-298 | Exactly which streams are delivered alike for every way of cutting them: without an oversize header, those with no message behind an empty frame; with one, those without empty frames that end with that header. |
| `SocketReader.FrameReader.EnqueueOne` | apps/blehostd/src/main.c:206-261 | The in-place reader does exactly one step of the specification, in state, request queue and return value, and delivers and retains what `StepExact` says of the stream, with or without memory. |
| `SocketReader.FrameReader.SocketReadable` | apps/blehostd/src/main.c:263-298 | One callback: a failed read changes nothing, a chunk delivers and leaves exactly what `ReceiveExact` says, and requests followed by the parse of what is retained are what they were with the chunk appended. |
| `Responses.ResponseQueue.EnqueueRsp` | apps/blehostd/src/main.c:105-149 | A text above 10240 bytes is refused, a failed allocation is reported, otherwise its frame, two length bytes and the text, is last in the queue; everything accepted is on the wire or queued, once and in order. |
| `Responses.ResponseQueue.ProcessRspMq` | apps/blehostd/src/main.c:151-187 | Exactly the packets before the first answer other than success are sent; after `MN_EAGAIN` the rest is queued as before, with the refused packet at the head. |
| `RoundTrip.WireRoundTrip` | apps/blehostd/src/main.c:105-298 | What the response queue has sent, cut in any way and read, yields the accepted texts in order if and only if none of them is empty. |
| `RoundTrip.TransitKeepsOrder` | apps/blehostd/src/main.c:105-298 | With part of the stream still in transit and any allocation failures, the texts read are the first ones accepted. |
| `RoundTrip.WriterBoundIsExact` | apps/blehostd/src/main.c:115-133 | The size bound of the writer is exactly what keeps its packets off the reader's bypass. |
| `SendQueue.LogsAre` | apps/blehostd/src/main.c:141-187 | What a run has enqueued is the list of the packets put, and what it has sent the list of the packets in hand at each send. |
| `SendQueue.RunConserves` | apps/blehostd/src/main.c:164-187 | Any number of interleaved send loops, any back-pressure, any enqueues: sent, held and queued packets are, as a multiset, the packets put by the steps of the run. |
| `SendQueue.RunKeepsOrder` | apps/blehostd/src/main.c:164-187 | While no two consumers hold a packet at once, sent, held and queued packets are the packets put by the steps of the run, in order. |
| `SendQueue.FewConsumersKeepOrder` | apps/blehostd/src/main.c:164-187 | At most one consumer never violates that, so order is kept in each of its runs. |
| `SendQueue.OverlapCanReorder` | apps/blehostd/src/main.c:171-180 | Whenever two consumers hold different packets, one of them sending next breaks the order. |
| `SendQueue.TwoConsumersReorder` | apps/blehostd/src/main.c:300-305 | For any number of consumers from two on, a run from an initial state in which the second packet is sent first. |
| `SendQueue.KeepsOrderIff` | apps/blehostd/src/main.c:164-187 | Every run, with any enqueues and any back-pressure, sends packets in the order they were enqueued if and only if there is at most one consumer. |
| `SendQueue.LoopIsRun` | apps/blehostd/src/main.c:171-180 | What one call of the send loop does to the queue is a sequence of steps of one consumer, for every answer of the socket that does not abort the daemon. |
| `SendQueue.AllCanBeSent` | apps/blehostd/src/main.c:141-187 | No packet is refused by the queue and none has to stay in it: from every state with an idle consumer, any further packets can be enqueued and everything sent in order. |
| `Gatt.EstimateSlack` | apps/blehostd/src/bhd_gatts.c:53-70 | Counted characteristic slots exceed the used ones by the number of services without characteristics that come after one with. |
| `Gatt.EstimateExact` | apps/blehostd/src/bhd_gatts.c:48-72 | Pool by pool, how the estimate compares with what saving the batch consumes: exact for services, descriptors and value handles. |
| `Gatt.VerifySound` | apps/blehostd/src/bhd_gatts.c:75-110 | A batch that passes fits in all five pools, terminators included. |
| `Gatt.LastChecksRedundant` | apps/blehostd/src/bhd_gatts.c:87-107 | In reachable states the UUID and value-handle checks never decide: the verdict is that of the first three, and saving keeps the bounds that make it so. |
| `Gatt.RejectedThoughFits` | apps/blehostd/src/bhd_gatts.c:67-69 | Exactly when a batch that would fit is turned away. |
| `Gatt.RefusedWitness` | apps/blehostd/src/bhd_gatts.c:67-93 | Starting from nothing registered, an accepted batch and then one that fits the last two characteristic slots and is refused. |
| `GattRegistry.Registry.CountResources` | apps/blehostd/src/bhd_gatts.c:35-73 | The nested counting loops compute the used slots plus the slack, the descriptor slots, and one value handle a characteristic. |
| `GattRegistry.Registry.VerifyResourceCnt` | apps/blehostd/src/bhd_gatts.c:75-110 | The check as it is written gives the verdict of `Verify`. |
| `GattRegistry.Registry.SaveUuid` | apps/blehostd/src/bhd_gatts.c:220-232 | Writes one UUID at the counter; its assert is its only precondition. |
| `GattRegistry.Registry.SaveDsc` | apps/blehostd/src/bhd_gatts.c:234-252 | All fields of one descriptor, its UUID and its sequence number, and nothing else. |
| `GattRegistry.Registry.SaveChr` | apps/blehostd/src/bhd_gatts.c:254-287 | One characteristic with its descriptors; the terminator slots are skipped, not written. |
| `GattRegistry.Registry.SaveSvc` | apps/blehostd/src/bhd_gatts.c:289-316 | One service with its characteristics; an empty one keeps whatever pointer the slot held. |
| `GattRegistry.Registry.AddSvcs` | apps/blehostd/src/bhd_gatts.c:330-347 | For every request and any pool contents: rejected without any change, or saved with no assert failing, no write out of bounds and all counters within their maxima. |
| `GattRegistry.Registry.ClearSvcs` | apps/blehostd/src/bhd_gatts.c:318-328 | Resets the five counters and leaves the pools as they are. |
| `GattPools.RunBounded` | apps/blehostd/src/bhd_gatts.c:318-347 | Over every run of adds and clears all counters stay within their maxima, UUIDs used at most the services, characteristics and descriptors used, value handles at most the characteristics. |
| `GattLayout.SaveDscsLayout` | apps/blehostd/src/bhd_gatts.c:234-252 | Saved descriptors stand, field by field, in consecutive slots from the old counters on; nothing else changes. |
| `GattLayout.SaveChrLayout` | apps/blehostd/src/bhd_gatts.c:254-287 | A saved characteristic stands with its descriptors from the old counters on, and whether its terminators are null is as before. |
| `GattLayout.SaveSvcsLayout` | apps/blehostd/src/bhd_gatts.c:289-316 | The same for a list of services. |
| `GattLayout.SvcsFrame` | apps/blehostd/src/bhd_gatts.c:289-316 | Writes past a batch leave its layout and its terminators alone. |
| `GattWalk.BatchWalk` | apps/blehostd/src/bhd_gatts.c:282-283 | Laid-out services, followed through their pointers to the null terminators, decode to the request if and only if every terminator relied on is null. |
| `GattWalk.RunLive` | apps/blehostd/src/bhd_gatts.c:275-276 | In every run of adds and clears, each pointer to a list of descriptors or characteristics leads to an entry that was written, never to an empty list. |
| `GattTheorems.AddLayout` | apps/blehostd/src/bhd_gatts.c:330-347 | An accepted batch stands from the old counters on, nothing below them or past the new ones changes. |
| `GattTheorems.AddDecodesIff` | apps/blehostd/src/bhd_gatts.c:330-347 | After a successful add into any pools, leftovers included, the registry decodes to the request tree if and only if the slots it leaves as terminators were null before. |
| `GattTheorems.FreshAddDecodes` | apps/blehostd/src/bhd_gatts.c:330-347 | With null slots past the counters it always does: same UUIDs, flags, key sizes and order. |
| `GattTheorems.RunAgrees` | apps/blehostd/src/bhd_gatts.c:254-316 | Over every run of adds, everything below the counters at some point is still there at the end. |
| `GattTheorems.RunDecodes` | apps/blehostd/src/bhd_gatts.c:330-347 | Every batch accepted anywhere in a run without a clear decodes to its request at the end of the run. |
| `GattTheorems.ClearThenSame` | apps/blehostd/src/bhd_gatts.c:318-328 | Registering the same batch again after a clear decodes to it, although clearing nulls nothing. |
| `GattTheorems.ClearedDecodes` | apps/blehostd/src/bhd_gatts.c:318-347 | After a clear, over any leftovers, an accepted batch decodes to its request if and only if its terminators are null in the leftovers. |
| `GattPlaces.ChrSlicesDisjoint` | apps/blehostd/src/bhd_gatts.c:272-284 | Two characteristics of a batch, in the same or different services, have different value-handle cells and descriptor slices that do not overlap, terminators included. |
| `GattPlaces.SvcSlicesDisjoint` | apps/blehostd/src/bhd_gatts.c:304-313 | Nor do the characteristic slices of two services. |
| `GattPlaces.RunCellsAscend` | apps/blehostd/src/bhd_gatts.c:272-273 | Over every run of adds, registered characteristics use value-handle cells in ascending order: no two share one. |
| `GattPlaces.ChrArgs` | apps/blehostd/src/bhd_gatts.c:266-270 | A characteristic carries the sequence number of its position among all attributes of the batch. |
| `GattPlaces.DscArgs` | apps/blehostd/src/bhd_gatts.c:245-249 | So does a descriptor: the numbers after its characteristic's, in order. |
| `GattPlaces.RunDraws` | apps/blehostd/src/bhd_gatts.c:234-347 | Over every run of adds, clears and other events the event counter has advanced by the attributes of the accepted batches and the other events; a clear leaves it alone. |
| `GattPlaces.ClearThenFewer` | apps/blehostd/src/bhd_gatts.c:318-328 | After a clear, a smaller batch reads back with entries of the old one: the terminators are stale. |
| `GattCommit.CountChrs` | apps/blehostd/src/bhd_gatts.c:391-396 | The counting loop ends inside the pool, at the first null slot. |
| `GattCommit.CopyChrs` | apps/blehostd/src/bhd_gatts.c:403-412 | The copying loop lists UUID, handle and definition handle of each characteristic up to the terminator. |
| `GattCommit.ListAll` | apps/blehostd/src/bhd_gatts.c:385-426 | The loop over the services gives the specified listing, or stops at the first allocation that fails. |
| `GattCommit.CommitSvcs` | apps/blehostd/src/bhd_gatts.c:349-429 | For every return code of the three host-stack calls and every pattern of failing allocations: the first error of the calls made; status 0 without a list if there is no slot or no memory for the list; else the complete listing, or the cleanup's read past the list if memory for a service is missing. |
| `GattCommit.AnswerIs` | apps/blehostd/src/bhd_gatts.c:361-428 | The same of the specification function, case by case on the return codes, the allocations and the registered slots. |
| `GattCommit.CommitAnswers` | apps/blehostd/src/bhd_gatts.c:380-426 | When the host stack succeeds and the list is allocated: the response is the complete listing if and only if no allocation for a service fails; if one does, the cleanup overruns the list. |
| `GattCommit.OneBatchCommit` | apps/blehostd/src/bhd_gatts.c:385-416 | Pools holding one batch: commit lists it, for any handles, if every service has a characteristic; otherwise it follows a null pointer. |
| `GattCommit.ExpectedMeans` | apps/blehostd/src/bhd_gatts.c:403-412 | The listing has the requested services and characteristics in order, each with the handle in its own cell and the definition handle one below, in 16 bits. |
| `GattCommitRuns.StartIsFresh` | apps/blehostd/src/bhd_gatts.c:18-28 | Static storage satisfies what the results about histories assume. |
| `GattCommitRuns.OneBatchRun` | apps/blehostd/src/bhd_gatts.c:330-418 | The same over every history of adds of which one was accepted. |
| `GattCommitRuns.OneBatchAnswered` | apps/blehostd/src/bhd_gatts.c:330-418 | Over such a history the response to a commit in which nothing fails is the accepted batch with the handles of its own cells. |
| `GattCommitRuns.TwoBatchesCommit` | apps/blehostd/src/bhd_gatts.c:385-396 | After two accepted batches the loop reaches the terminator of the first and follows a null pointer. |
| `GattCommitRuns.CommitRunIff` | apps/blehostd/src/bhd_gatts.c:349-418 | Over every history of adds: commit follows no null pointer if and only if at most one batch was accepted and each of its services has a characteristic. |
| `Rendezvous.StepLedger` | apps/blehostd/src/bhd_gatts.c:112-165 | Every atomic step, timeouts and status 0xff included, keeps the ledger of tokens, releases, holders and results. |
| `Rendezvous.LogsAre` | apps/blehostd/src/bhd_gatts.c:112-165 | In every run, the statuses accepted are those of the sets that found the mailbox empty, the statuses returned those the mailbox held at each read, a timed-out callback returns the unlikely error, and the semaphore counts releases less successful pends. |
| `Rendezvous.RunLedger` | apps/blehostd/src/bhd_gatts.c:112-165 | In every reachable state accepted results are successful pends, tokens and pending releases together, all counted off the steps, and a full mailbox has a token, a setter about to release or a waiter about to clear. |
| `Rendezvous.CanEmpty` | apps/blehostd/src/bhd_gatts.c:139-160 | From every state that is not wedged some steps, none of them a timeout, empty the mailbox. |
| `Rendezvous.AllCanArrive` | apps/blehostd/src/bhd_gatts.c:112-165 | From every state with an empty mailbox, a ready setter and a pending waiter, any sequence of statuses other than 0xff can be accepted and returned in order. |
| `Rendezvous.TimeoutCanLose` | apps/blehostd/src/bhd_gatts.c:153-160 | Whenever a status waits in the mailbox and a callback for its token, a timeout can lose it. |
| `Rendezvous.StepExactlyOnceIff` | apps/blehostd/src/bhd_gatts.c:119-160 | One step keeps statuses exactly-once if and only if it neither accepts 0xff nor clears a full mailbox after a timeout. |
| `Rendezvous.ExactlyOnceIff` | apps/blehostd/src/bhd_gatts.c:119-164 | Over whole runs: at every point the statuses returned and the undelivered one are the statuses accepted by the steps of the run, in order, if and only if no status 0xff is accepted and no timed-out waiter empties a full mailbox. |
| `Rendezvous.LateResult` | apps/blehostd/src/bhd_gatts.c:153-160 | A run in which a result races with the timeout: it is lost, the callback returns the unlikely error, and the result's token returns 0xff to the next access. |
| `EventSeq.Counter.NextEvtSeq` | apps/blehostd/src/bhd_util.c:1471-1487 | Draws the current number and moves on inside the band without overflow. |
| `EventSeq.NextInBand` | apps/blehostd/src/bhd_util.c:1480-1483 | The band 0xffffff00 to 0xfffffff0 is a cycle of 241 numbers. |
| `EventSeq.NthDraw` | apps/blehostd/src/bhd_util.c:1471-1487 | The n-th number after start s is 0xffffff00 + (s + n) mod 241. |
| `EventSeq.DrawsDistinct` | apps/blehostd/src/bhd_util.c:1471-1487 | Any 241 consecutive numbers are distinct; the 242nd repeats the first. |
| `CText.TokensSplit` | apps/blehostd/src/parse.c:16-18 | A delimiter splits a text into independently tokenized parts. |
| `CText.DelimsSeparate` | apps/blehostd/src/parse.c:16-18 | Any number of delimiters separates like one. |
| `CText.DelimsAround` | apps/blehostd/src/parse.c:16-18 | Leading and trailing delimiters make no difference. |
| `CText.Hex2Read` | apps/blehostd/src/parse.c:24-29 | Both printed forms of a byte are read back completely. |
| `CText.Hex2Digits` | apps/blehostd/src/bhd_util.c:1425-1426 | A byte is printed with the digits of lower case hexadecimal, high half first. |
| `CText.HexDigits` | apps/blehostd/src/parse.c:24-25 | The characters read as digits, in both cases, and their values. |
| `CText.SpelledRead` | apps/blehostd/src/parse.c:24-25 | Every text of spaces, a sign, a prefix 0x and digits, all but the digits optional, is read to its end, with the value of its digits. |
| `CText.ReadIsSpelled` | apps/blehostd/src/parse.c:24-25 | And no other text is. |
| `CText.HexNumberRead` | apps/blehostd/src/parse.c:24-25 | Digits are positional: a number written in any number of digits is read as itself. |
| `ByteStream.HexStr` | apps/blehostd/src/bhd_util.c:1408-1439 | For every buffer size the reported length is that of the longest prefix that fits, the buffer holds the full text cut at its end, and nothing past it is written; with a negative size exactly the first byte is printed, and reported as nothing. |
| `ByteStream.FittingIsLargest` | apps/blehostd/src/bhd_util.c:1424-1432 | That prefix is the largest number of bytes whose text, 5k-1 characters, is shorter than the buffer. |
| `ByteStream.CallerNeverTruncates` | apps/blehostd/src/bhd_util.c:1158-1176 | A buffer of five characters a byte and one more always holds the whole text. |
| `ByteStream.HexTextAt` | apps/blehostd/src/bhd_util.c:1424-1426 | The printed text character by character: 0x and two digits for each byte in its place, colons between. |
| `ByteStream.ParseArgByteStreamDelim` | apps/blehostd/src/parse.c:6-36 | The token loop: verdict and length, and the exact contents of the destination, also after an error. |
| `ByteStream.ParseArgByteStream` | apps/blehostd/src/parse.c:38-42 | The same with the delimiters `:` and `-`. |
| `ByteStream.ParseArgByteStreamExactLength` | apps/blehostd/src/parse.c:44-60 | Succeeds exactly if the text has as many bytes as asked for. |
| `ByteStream.ParseExactIff` | apps/blehostd/src/parse.c:44-60 | Which result each text gets: success for exactly that many bytes, the invalid-argument error for fewer or too many, -1 for a token that is no byte. |
| `ByteStream.ParseOkIff` | apps/blehostd/src/parse.c:20-33 | Exactly when a text is accepted, with which bytes, and exactly when it is too long. |
| `ByteStream.ParseIgnoresDelims` | apps/blehostd/src/parse.c:16-18 | Leading, trailing and repeated delimiters do not change the result. |
| `ByteStream.HyphensAsColons` | apps/blehostd/src/parse.c:38-42 | Colons and hyphens separate bytes alike, in any mixture. |
| `ByteStream.HexRoundTrip` | apps/blehostd/src/parse.c:6-42 | Parsing a printed byte string returns it exactly if there is room, and reports that there is not otherwise. |
| `ByteStream.PrintThenParse` | apps/blehostd/src/bhd_util.c:1408-1439 | Printed into a buffer of at least max(1, 5n) characters and parsed from what that buffer reads, n bytes come back unchanged. |
| `Address.ReverseBytes` | apps/blehostd/src/parse.c:62-73 | The in-place swap loop reverses the first `len` bytes and touches nothing else. |
| `Address.ReverseInvolution` | apps/blehostd/src/parse.c:62-73 | Reversing twice changes nothing. |
| `Address.ParseArgMac` | apps/blehostd/src/parse.c:75-88 | The destination holds the reversed bytes of an accepted text. |
| `Address.AddrTextAt` | apps/blehostd/src/bhd_util.c:1441-1447 | A printed address character by character: the digits of the bytes, most significant first, with colons between. |
| `Address.MacRoundTrip` | apps/blehostd/src/bhd_util.c:1441-1447 | Parsing a printed address returns it, for every address. |
| `UuidCodec.AtPair` | apps/blehostd/src/bhd_util.c:953-985 | The two opposite cursors stay in step: at text position i of a pair the byte cursor is at that pair's byte. |
| `UuidCodec.StrtoulPair` | apps/blehostd/src/bhd_util.c:970-979 | What `strtoul` accepts of each two characters, and the byte it stores. |
| `UuidCodec.ProcessJsonUuid` | apps/blehostd/src/bhd_util.c:917-990 | A number is accepted exactly from 1 to 0xffff, as itself; a text is accepted with its 16 bytes, or refused, as the pair-by-pair specification says; the bytes are written once each from index 15 down, exactly as many as there are readable pairs in front, and the others stay, also on a refusal. |
| `UuidCodec.PrintRoundTrip` | apps/blehostd/src/bhd_util.c:956-985 | Parsing the canonical text of any 128-bit value recovers the value. |
| `UuidCodec.PrintedPair` | apps/blehostd/src/bhd_util.c:1211-1212 | Where the digits of each byte stand in the printed text. |
| `UuidCodec.UuidRoundTripIff` | apps/blehostd/src/bhd_util.c:1201-1217 | Exactly 128-bit UUIDs and 16-bit UUIDs other than 0 come back from their JSON form; a 32-bit one comes back as the 16-bit one of the same number, or not at all. |
| `UuidCodec.NumberRoundTrip` | apps/blehostd/src/bhd_util.c:931-938 | Exactly the numbers from 1 to 0xffff are read, and printing the result gives the same number. |
| `UuidCodec.PrintedAlikeIff` | apps/blehostd/src/bhd_util.c:1206-1216 | Two UUIDs are printed alike only if they are equal, or the same number in 16 and 32 bits. |
| `UuidCodec.ParseThenPrint` | apps/blehostd/src/bhd_util.c:956-985 | Every canonical text is accepted and prints again as itself in lower case. |
| `UuidCodec.SignAccepted` | apps/blehostd/src/bhd_util.c:974-979 | A text with a sign in place of a digit, and with more behind it, is accepted as well. |

## Left out

- `ReaderProofs.RunAccounts`: histories in which the buffer with a new chunk reaches 65536 bytes are excluded, because the 16-bit packet length wraps there; `PktLen` does wrap in the model, and two lemmas bound the streams that fit. Streams that meet an oversize header are excluded too: the bypass delivers bytes the batch parser does not, as `DrainBypass` and `ChunkIndependentIff` say.
- `EmptyFrames.ChunkIndependentIff`: stated for streams below 65536 bytes for the same reason.
- `SendQueue.RunConserves`: an `mn_sendto` failure other than `MN_EAGAIN` aborts the daemon and is no step here; `ResponseQueue.ProcessRspMq` has it.
- `GattTheorems.AddDecodesIff`: service types are assumed to be nonzero, because the JSON decoder produces only primary and secondary, 1 and 2; type 0 is what ends the service list.
- `GattTheorems.RunDecodes`: only for runs without a clear; `ClearedDecodes` and `ClearThenFewer` say what happens after one.
- `GattCommit.CommitSvcs`: requires that no null or stray pointer is followed, which C leaves undefined; `CommitRunIff` says when that holds. Descriptors are not reported because the code does not.
- `Rendezvous.ExactlyOnceIff`: about statuses only; the attribute value is read from a shared buffer after the mailbox is empty and is not part of this model.
- `CText.Strtok`: works on the remaining text as a value; that `strtok` overwrites delimiters in its argument is not modelled, and neither is the test for an empty argument in `parse.c:25`, which is never true once there is a token.
- `UuidCodec.ProcessJsonUuid`: an accepted number sets another member of the C union; what the bytes of the 128-bit member are then is not stated.
- The access callback of an attribute is the same constant everywhere and has no field; attribute flags and key sizes are plain numbers.
- Counters of C type `int` are unbounded; the proofs keep the ones that matter far below 32 bits, request sizes are bounded by memory only.
- JSON itself: decoding of requests and arrays, cJSON, and the field-by-field coders of `bhd_proto.c`. The registry starts from a request tree, the UUID codec from a JSON value.
- `bhd_gap.c`, `bhd_gattc.c`, `bhd_id.c`, `bhd_sm.c`: thin forwarding to the host stack, easy members only.
- Sockets, the event loop, logging, `main`, and `blehostd_fill_addr`.
