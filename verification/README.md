# A model of an RTSP/RTP client and of its parts

The repository is a small RTSP client in C++: it negotiates a session with a
server, receives H.264 video over RTP, puts NAL units together and hands them to
the application through a ring buffer. It bundles memwatch, a memory debugger.
This project models its stateful parts in Dafny and proves what they promise.

* **The ring buffer** (`CQueue*`, `DropOldest`). `DropOldest` is the bounded
  drop-oldest queue, given by its events. `CQueue` is the class over an array of
  slots, used from one thread. `CQueueThreads` is the same code as a step system
  of two threads with one step per lock, semaphore operation, index operation and
  copied byte; `CQueueRefinement` and `CQueueRuns` relate its runs to the queue.
  `getbuffer` reads `mOutindex` before it locks the slot, and a push into a full
  ring can move it in between. In-order delivery is therefore false of the code's
  own steps, and `CQueueOrder` says exactly when it holds: for all runs if and only
  if the take is atomic, or the ring has one slot, or its slots hold no bytes. The
  client's rings, 300 slots of 1500 bytes and 50 of 512 KB, are outside that
  condition. A single run keeps to the queue when no lock is stale or no push finds
  the ring full (`CQueueRuns`). Lock exclusion, stable borrows and absence of
  deadlock hold in every run.
* **memwatch** (`HeapChain`, `HeapRepair`, `HeapHeaders`, `MemWatchSpec`,
  `MemWatch`). `HeapChain` and `HeapRepair` are the pointer algorithms on block
  objects: the validator on arbitrary graphs, unlinking, the repair searches.
  `MemWatchSpec` is the bookkeeping on values, with its invariants over all runs,
  and `MemWatchBooks` the books that a caller's requests alone would be kept in;
  `MemWatch` is the class whose methods change blocks, counters and statistics in
  place and are proved to do what `MemWatchSpec` says. Addresses that
  `mwIsSafeAddr` accepts are a set of blocks; a block object stands for its header
  and for the user's bytes behind it.
* **RTP and H.264** (`H264Spec`, `H264Rtp`, `RtpSpec`, `RtpClient`). The
  depacketizer and the header handling on values and as classes over `CQueue`
  objects, with the packetizer of sections 5.6 and 5.8 of RFC 6184 and the header
  of section 5.1 of RFC 3550 as the specification to invert.
* **RTSP** (`RtspText`, `RtspScan`, `RtspReplySpec`, `RtspReply`, `RtspPrinted`,
  `RtspReplies`, `RtspProtocol`, `SdpSpec`, `Sdp`, `RtspSession`). C strings are sequences of
  characters. `RtspText` has the in-place line splitter and the printed text,
  `RtspScan` the scanf directives, `RtspReplySpec` and `SdpSpec` what the parsers
  compute; `RtspReply`, `RtspPrinted`, `RtspReplies` and `Sdp` prove what that means
  for text that a server prints. `RtspProtocol` is the class with the request buffer and the
  parsing loops, `RtspSession` the client's session against any server.

Integers are unbounded unless a width matters: sequence numbers and header fields
are cut where the source cuts them, `%u` and `%hu` read an unsigned long (of 64
bits, saturating) and cut it to the variable, the port of the SETUP request is a
signed short printed with its sign, and memwatch's sizes fit a signed long. Run `dafny verify dfyconfig.toml` to check everything.

Where the code departs from what one would expect, the model follows the code:
after a video section the media line that ends it is not looked at again, so a
second video section right behind the first is passed over; a blank `a=control:`
reads into the next line; the status test at the end of `parse` overrides every
other error; a CSeq mismatch leaves the old status code in place; a request line
that does not fit is dropped silently; `mwIsOwned` believes a foreign header with a
good checksum when there is no no-man's-land, because a relink that finds nothing
to repair counts as success; a relink without statistics renames the file.

## Model

| member | source | states |
|---|---|---|
| DropOldest.Accounting | my_rtsp_client/com_queue.cpp:99-132 | in every trace the bounded drop-oldest queue accepts, the contents are the newest frames pushed and pushed = delivered + held + overwritten |
| DropOldest.InOrderDelivery | my_rtsp_client/com_queue.cpp:69-161 | in every such trace the deliveries are an in-order subsequence of the pushes, no push is delivered twice, and what is still held was pushed later |
| DropOldest.LosslessExactly | my_rtsp_client/com_queue.cpp:99-132 | the deliveries followed by the contents are all the pushes if and only if no push found the queue full |
| DropOldest.PushesFill | my_rtsp_client/com_queue.cpp:99-132 | however many frames are pushed, the queue then holds the last ones of what it held and what was pushed |
| CQueue.PushKeepsRing | my_rtsp_client/com_queue.cpp:99-132 | filling slot mInindex and moving the window on keeps the ring invariant: the frame is appended, and in a full ring the oldest is gone |
| CQueue.TakeKeepsRing | my_rtsp_client/com_queue.cpp:134-161 | moving mOutindex past its slot keeps the invariant, removes the oldest frame and that slot held it, whether or not it stays locked |
| CQueue.CQueue.constructor | my_rtsp_client/com_queue.cpp:21-50 | an empty queue with every slot unlocked |
| CQueue.CQueue.AddInindex | my_rtsp_client/com_queue.cpp:173-178 | mInindex moves to the next slot of the ring |
| CQueue.CQueue.AddOutindex | my_rtsp_client/com_queue.cpp:179-184 | mOutindex moves to the next slot of the ring |
| CQueue.CQueue.IncreaseEffectives | my_rtsp_client/com_queue.cpp:186-197 | returns the counter from before and saturates it at maxFrames |
| CQueue.CQueue.ReduceEffectives | my_rtsp_client/com_queue.cpp:199-211 | returns the counter from before and stops it at zero |
| CQueue.CQueue.Push | my_rtsp_client/com_queue.cpp:99-132 | the slot at mInindex holds the first bytes of the frame, as many as fit, in order; the queue of frames ends with them, the whole frame if it fits, and loses its oldest one exactly when it was full; no other slot changes |
| CQueue.CQueue.Pop | my_rtsp_client/com_queue.cpp:69-97 | non-blocking: on an empty ring 0 is returned and nothing happens, otherwise the oldest frame is delivered, cut to the caller's buffer, and the number of bytes copied is returned |
| CQueue.CQueue.GetBuffer | my_rtsp_client/com_queue.cpp:134-161 | hands out the slot that holds the oldest frame, locks it and only it, and the ring is not full afterwards; the no-data branch cannot be taken once the semaphore was available |
| CQueue.CQueue.ReleaseBuffer | my_rtsp_client/com_queue.cpp:162-170 | unlocks the borrowed slot and nothing else; an index outside the ring is ignored |
| CQueue.CQueue.BorrowLeavesRoom | my_rtsp_client/com_queue.cpp:134-170 | while a slot is borrowed the ring is below maxFrames, so the next push overwrites nothing unread |
| CQueueThreads.StepsKeepOwned | my_rtsp_client/com_queue.cpp:99-170 | lock exclusion and copy progress are kept by every step of either thread, with no assumption on atomicity |
| CQueueThreads.SomeThreadCanMove | my_rtsp_client/com_queue.cpp:99-170 | in every state with consistent locks some thread can move, and a pusher waits for nobody but a borrower |
| CQueueRefinement.PendingFindsData | my_rtsp_client/com_queue.cpp:140-160 | a getbuffer that got past the semaphore finds the counter above zero |
| CQueueRefinement.PushRefines | my_rtsp_client/com_queue.cpp:99-132 | every step of push is a step of the drop-oldest queue: nothing, or its push event, full or not |
| CQueueRefinement.GetRefines | my_rtsp_client/com_queue.cpp:134-170 | every step of getbuffer and releasebuffer is nothing or the delivery of the oldest frame, unless it locks a stale slot |
| CQueueRuns.RunKeepsOwned | my_rtsp_client/com_queue.cpp:99-170 | slot locks exclude each other in every reachable state of every interleaving |
| CQueueRuns.NoDeadlock | my_rtsp_client/com_queue.cpp:99-170 | after every run at least one thread can move |
| CQueueRuns.RunRefines | my_rtsp_client/com_queue.cpp:99-211 | every run in which getbuffer never locks a slot that mOutindex has left is a run of the drop-oldest queue, getbuffer never returns -1, and frames are overwritten exactly when a push finds the ring full |
| CQueueRuns.NeverStaleDeliversInOrder | my_rtsp_client/com_queue.cpp:99-211 | in such a run the frames handed over are an in-order, duplicate-free subsequence of the frames pushed; this is a sufficient condition only |
| CQueueRuns.AtomicTakeIsNeverStale | my_rtsp_client/com_queue.cpp:138-141 | with reading mOutindex and locking the slot as one step no lock is ever stale |
| CQueueRuns.NeverFullIsNeverStale | my_rtsp_client/com_queue.cpp:120-126 | with the source's own steps no lock is stale in a run in which no push finds the ring full |
| CQueueRuns.AtomicTakeDeliversInOrder | my_rtsp_client/com_queue.cpp:99-211 | with the atomic take, in all runs, the frames handed over are an in-order, duplicate-free subsequence of the frames pushed and -1 is never returned |
| CQueueRuns.NeverFullDeliversPrefix | my_rtsp_client/com_queue.cpp:102-160 | with the source's own steps, in every run that never finds the ring full, the frames handed over are exactly a prefix of the frames pushed and -1 is never returned |
| CQueueRuns.BorrowIsOnePush | my_rtsp_client/com_queue.cpp:102-170 | in every interleaving, overwriting ones included, the bytes behind a borrow are the first bytes, as many as fit a slot, of one frame the caller pushed, never a mix |
| CQueueRuns.PushStoresItsFrame | my_rtsp_client/com_queue.cpp:105-112 | in every interleaving, when a push is about to unlock, its slot holds the first bytes of its frame, byte by byte, as many as fit |
| CQueueRuns.BorrowIsStable | my_rtsp_client/com_queue.cpp:140-170 | while only the pusher moves, the borrowed slot stays locked by the borrower and its index, length and bytes stay as they are, whatever is pushed |
| CQueueRuns.PushesAreTheCallers | my_rtsp_client/com_queue.cpp:99-132 | the pushes that take effect are, in order, the first bytes of the frames the caller pushed, as many as fit a slot, and only the last may still be on its way |
| CQueueOrder.KeepsOrder | my_rtsp_client/com_queue.cpp:99-170 | with an atomic take, or one slot, or slots of no bytes, every run from every initial state delivers an in-order, duplicate-free subsequence of its pushes |
| CQueueOrder.BreaksOrder | my_rtsp_client/com_queue.cpp:120-141 | without the atomic take, for every ring of two or more slots of at least one byte and from every initial state, some run hands over the frame pushed last before an older one |
| CQueueOrder.InOrderExactly | my_rtsp_client/com_queue.cpp:99-170 | all runs from all initial states deliver in order if and only if the take is atomic, or maxFrames is 1, or mframeLen is 0 |
| CQueueOrder.BreaksQueue | my_rtsp_client/com_queue.cpp:120-141 | without the atomic take, for every ring of two or more slots and from every initial state, some run hands over more frames than the drop-oldest queue has |
| CQueueOrder.DropOldestExactly | my_rtsp_client/com_queue.cpp:99-170 | the events of all runs from all initial states are accepted by the drop-oldest queue if and only if the take is atomic or maxFrames is 1 |
| CQueueOrder.GivesUp | my_rtsp_client/com_queue.cpp:120-152 | without the atomic take, for every ring of two or more slots and from every initial state, some getbuffer gets past its semaphore and returns -1 |
| CQueueOrder.NeverGivesUpExactly | my_rtsp_client/com_queue.cpp:120-152 | getbuffer never returns -1 in any run if and only if the take is atomic or maxFrames is 1 |
| H264Spec.FuBits | my_rtsp_client/cH264RTP.cpp:30-63 | the FU indicator and header bits written by the packetizer of RFC 6184 section 5.8 are read back, and the NAL header is rebuilt exactly |
| H264Spec.PayloadKinds | my_rtsp_client/cH264RTP.cpp:30-129 | by the first byte alone: types 1 to 23 are pushed as they are, type 28 is gathered from its start bit to its end bit with the header rebuilt, every other type is dropped; past the end of mFUBuffer the gathered bytes are cut and pushed |
| H264Spec.MemoryKinds | my_rtsp_client/cH264RTP.cpp:30-129 | for every length, zero and negative ones included: exactly when the source only makes copies that C defines, and what it then does with the bytes received |
| H264Spec.TrainPushesNal | my_rtsp_client/cH264RTP.cpp:54-110 | from any gathered bytes a complete FU-A train pushes at most one leftover, then exactly its NAL unit, and leaves nothing gathered |
| H264Spec.RoundTrip | my_rtsp_client/cH264RTP.cpp:30-129 | any list of NAL units of types 1 to 23, each sent whole or as two or more FU-A fragments, is pushed back exactly, in order |
| H264Spec.BytesAreConserved | my_rtsp_client/cH264RTP.cpp:62-108 | bytes pushed + bytes gathered = bytes brought + one per start fragment - bytes cut at the full-buffer branch, over any payload sequence |
| H264Spec.StretchesAreSafe | my_rtsp_client/cH264RTP.cpp:62-108 | if the fragment bytes from one start fragment to the next fit in mFUBufferLen, every unchecked copy fits and the full-buffer branch is never taken |
| H264Spec.CompleteUnitsSurviveLoss | my_rtsp_client/cH264RTP.cpp:54-129 | whatever packets are lost, every NAL unit all of whose packets arrive is pushed verbatim and in order |
| H264Rtp.H264Rtp.constructor | my_rtsp_client/cH264RTP.cpp:7-18 | nothing gathered, a buffer of the given length |
| H264Rtp.H264Rtp.ParseFuA | my_rtsp_client/cH264RTP.cpp:54-110 | the buffer and the output queue change exactly as Feed says |
| H264Rtp.H264Rtp.ParsePayload | my_rtsp_client/cH264RTP.cpp:112-129 | one payload, of any length the caller computed, with the bytes that lie behind it: gathered bytes and pushes are those of FeedMemory, pushed into the output queue in order |
| H264Rtp.PushedWhole | my_rtsp_client/com_queue.cpp:107-111 | units that fit a slot are pushed whole |
| RtpSpec.HeaderRoundTrip | my_rtsp_client/cRTPClient.cpp:133-156 | decoding undoes the header encoding of RFC 3550 section 5.1, whatever payload follows |
| RtpSpec.HeaderFields | my_rtsp_client/cRTPClient.cpp:146-160 | each header field is read from its own bits and bytes, the most significant one first |
| RtpSpec.AcceptedExactly | my_rtsp_client/cRTPClient.cpp:162-206 | a packet is accepted if and only if no first packet is fixed yet or source and payload type are those of the last one; a refused one changes nothing; the depacketizer is made by payload type 96 only |
| RtpSpec.LossTelescopes | my_rtsp_client/cRTPClient.cpp:162-206 | from a fresh session, over any header sequence, the first packet being the first one with a non-zero sequence number: mlostCount = last - first - packets accepted since, and every accepted packet has the SSRC and payload type of that first one |
| RtpSpec.LossIsMissingCount | my_rtsp_client/cRTPClient.cpp:176-204 | when the accepted numbers are distinct and lie between first and last, mlostCount is the number of missing ones, even if packets were reordered before the last |
| RtpSpec.StreamReachesDepacketizer | my_rtsp_client/cRTPClient.cpp:162-233 | the payloads of one stream reach the depacketizer unchanged and in order, whatever earlier packets left behind them in the slots |
| RtpSpec.ReceiveWhatWasSent | my_rtsp_client/cRTPClient.cpp:146-233 | any NAL list sent behind RTP headers with one SSRC and payload type 96, in slots with anything behind the packets, is pushed back exactly, in order |
| RtpSpec.ForeignPacketsDoNotMatter | my_rtsp_client/cRTPClient.cpp:176-233 | once a stream is fixed, packets of any other source or payload type, wherever they come in between, change neither the state nor what is pushed |
| RtpSpec.OtherTypesPushNothing | my_rtsp_client/cRTPClient.cpp:162-233 | without a packet of payload type 96 nothing is ever pushed |
| RtpClient.RtpClient.constructor | my_rtsp_client/cRTPClient.cpp:16-46 | a network queue of 300 slots of 1500 bytes and an output queue of 50 slots of 524288 bytes, both empty, and no packet seen |
| RtpClient.RtpClient.CheckHeaderInfo | my_rtsp_client/cRTPClient.cpp:162-206 | the fields change and the packet is accepted exactly as CheckHeader says; the depacketizer is made on the first payload type 96 |
| RtpClient.RtpClient.HandlePacket | my_rtsp_client/cRTPClient.cpp:216-229 | one packet of any length in its slot, short ones included, as long as no copy has a negative or unchecked length: fields, gathered bytes and pushes are those of Parse, and the network queue is untouched |
| RtpClient.RtpClient.ParseNext | my_rtsp_client/cRTPClient.cpp:208-234 | borrow, handle, release: the oldest slot leaves the network queue and is handled as Parse says, with no slot left locked |
| RtpClient.RtpClient.ParseQueued | my_rtsp_client/cRTPClient.cpp:336-344 | the parse loop handles every queued slot in order, as ParseAll says; when every unit fits its slot, the output queue then holds the last ones of what it held and what was pushed |
| RtpClient.RtpClient.QueuedCarriesContents | my_rtsp_client/cRTPClient.cpp:208-234 | the slots handled hold the packets of the network queue, in order |
| RtpClient.VideoArrives | my_rtsp_client/cRTPClient.cpp:16-46 | any NAL units of types 1 to 23 and at most 524288 bytes, sent whole or fragmented, are exactly what a fresh client with its own buffer size pushes, each whole; up to 50 of them all fit the output queue |
| HeapChain.ChainIsUnique | my_rtsp_client/memwatch.cpp:1900-1921 | head and tail determine the chain |
| HeapChain.IsHeapOk | my_rtsp_client/memwatch.cpp:1900-1921 | terminates on every pointer graph, cyclic ones included; for a non-null mwHead it accepts if and only if there is a proper list of legal blocks from mwHead to mwTail that contains the requested block |
| HeapRepair.PushFront | my_rtsp_client/memwatch.cpp:914-925 | a new block becomes the head of a proper chain |
| HeapRepair.Unlink | my_rtsp_client/memwatch.cpp:1574-1599 | exactly one block leaves the chain and the rest is a proper chain between the new mwHead and mwTail |
| HeapRepair.RepairFromHead | my_rtsp_client/memwatch.cpp:1630-1663 | with everything but one block's links intact the forward search restores prev, or fails exactly when the block is not in the chain; no emergency exit is taken |
| HeapRepair.RepairFromTail | my_rtsp_client/memwatch.cpp:1665-1697 | the same backwards, for next |
| HeapRepair.RepairLinks | my_rtsp_client/memwatch.cpp:1630-1703 | both searches restore the original chain exactly |
| HeapHeaders.CountChain | my_rtsp_client/memwatch.cpp:1867-1870 | the loop over the chain counts its blocks and their bytes |
| HeapHeaders.CountersTell | my_rtsp_client/memwatch.cpp:1871-1889 | when the counters agree with the blocks, the count equals mwNumCurAlloc if and only if no block is no-man's-land, and then the sizes agree too |
| HeapHeaders.ChecksumBits | my_rtsp_client/memwatch.cpp:141 | every bit of the checksum is the parity of that bit in the constant, the count, the size and the line |
| HeapHeaders.OneFieldIsChecked | my_rtsp_client/memwatch.cpp:141 | damage to any single one of count, size and line changes the checksum |
| MemWatch.MemWatch.constructor | my_rtsp_client/memwatch.cpp:322-349 | an empty heap with the given settings |
| MemWatch.MemWatch.MwStatGet | my_rtsp_client/memwatch.cpp:2289-2325 | finds the first entry for file and line, makes one in front only when asked to, and changes nothing else |
| MemWatch.MemWatch.MwStatAlloc | my_rtsp_client/memwatch.cpp:2327-2350 | the module entry, and at level 2 the line entry, grow as StatAlloc says |
| MemWatch.MemWatch.MwStatFree | my_rtsp_client/memwatch.cpp:2352-2364 | the same entries shrink as StatFree says |
| MemWatch.MemWatch.NewBlock | my_rtsp_client/memwatch.cpp:914-932 | the new header is genuine, comes first, and the chain stays undamaged |
| MemWatch.MemWatch.CountNew | my_rtsp_client/memwatch.cpp:934-942 | the counters and statistics change as Counted says |
| MemWatch.MemWatch.MwMalloc | my_rtsp_client/memwatch.cpp:864-946 | the block's header carries the caller's file, line and size and the number of this call, its bytes are all 0xFE, it comes first in an undamaged chain; the heap changes exactly as Malloc says, and the limit failure changes only the counter |
| MemWatch.MemWatch.MwIsOwned | my_rtsp_client/memwatch.cpp:1923-1983 | on an undamaged heap it knows every block of the chain and no block with a bad checksum outside it, and changes nothing; a foreign header with a good checksum is believed if and only if its neighbours agree or there is no no-man's-land |
| MemWatch.MemWatch.OwnedDespiteChecksum | my_rtsp_client/memwatch.cpp:1933-1953 | a block with a bad checksum is repaired, and its size lost, exactly when it is in the chain |
| MemWatch.MemWatch.MwRelink | my_rtsp_client/memwatch.cpp:1606-1711 | a block of the chain whose prev, next and check hold anything gets all three back; the file name stays exactly when it has a module entry; success is reported if and only if the chain has mwNumCurAlloc blocks, and the size is given up exactly when the bytes then differ |
| MemWatch.MemWatch.RelinkedName | my_rtsp_client/memwatch.cpp:1704-1710 | a relinked block keeps its file name if and only if the statistics have a module entry for it, otherwise it is called <relinked> |
| MemWatch.MemWatch.RepairBlock | my_rtsp_client/memwatch.cpp:1630-1710 | with one block damaged in prev, next and check, the links and the checksum are as before and the heap is undamaged |
| MemWatch.MemWatch.VerifyCounts | my_rtsp_client/memwatch.cpp:1860-1889 | the verification passes, and compares blocks and bytes with the counters |
| MemWatch.MemWatch.RelinkCounted | my_rtsp_client/memwatch.cpp:1606-1889 | when the counters agree the heap is undamaged again, and success is reported if and only if no block is no-man's-land |
| MemWatch.MemWatch.MarkNml | my_rtsp_client/memwatch.cpp:1101-1107 | the block stays in the chain, marked and filled, and the no-man's-land counters follow |
| MemWatch.MemWatch.Release | my_rtsp_client/memwatch.cpp:1108-1120 | the block leaves the chain, the rest stays undamaged, and its header no longer passes for an allocation |
| MemWatch.MemWatch.MwFree | my_rtsp_client/memwatch.cpp:1052-1153 | the heap changes exactly as Free says and the block's bytes are filled with 0xFC when it is kept, with 0xFD when it is not; a pointer that mwIsOwned turns away, freed before or never owned, only counts |
| MemWatch.MemWatch.MwRealloc | my_rtsp_client/memwatch.cpp:948-1028 | the new block's header carries the caller's file, line and size, its bytes are the old ones as far as they fit and 0xFE after them; the heap changes exactly as Realloc, Malloc or Free says; a pointer that mwIsOwned turns away changes nothing |
| MemWatchSpec.MallocKeepsCounters | my_rtsp_client/memwatch.cpp:934-940 | an allocation keeps every counter equal to what the chain says |
| MemWatchSpec.FreeKeepsCounters | my_rtsp_client/memwatch.cpp:1096-1119 | a free keeps them, as no-man's-land or not |
| MemWatchSpec.CountersAgreeOverRuns | my_rtsp_client/memwatch.cpp:914-1119 | over any run of allocations, frees and reallocations all four counters equal count and size of the blocks with and without the NML flag, and mwStatMaxAlloc is the running maximum of mwStatCurAlloc |
| MemWatchSpec.StatsAgreeOverRuns | my_rtsp_client/memwatch.cpp:2289-2364 | with the level fixed, after any run: one entry per file and line, the modules' curr sum to mwStatCurAlloc, and at level 2 each module equals the sum of its lines |
| MemWatchSpec.CallsAreCounted | my_rtsp_client/memwatch.cpp:872-1071 | how many calls mwCounter counts for each operation |
| MemWatchBooks.EveryRequestIsAccountedFor | my_rtsp_client/memwatch.cpp:914-1119 | after any run from the empty heap: the headers are, in order, those of the requests the callers made and did not give back, limit and kept memory included; the four totals, and total, number, maximum and current bytes of every module and at level 2 of every line, are what the requests made there add up to; and the current bytes of an entry are the bytes of the blocks allocated there |
| MemWatchBooks.RunKeepsBooks | my_rtsp_client/memwatch.cpp:864-1153 | every operation keeps headers, totals and statistics equal to the caller's books, from any heap that agrees with them |
| MemWatchBooks.BooksBalance | my_rtsp_client/memwatch.cpp:934-1119 | in the books, what is held at a place is what was taken there and not returned |
| RtspText.GetLine | my_rtsp_client/cRTSPprotocol.cpp:59-83 | the in-place splitter agrees with the pure split on every NUL-terminated buffer, touches nothing before or after the line end, and always advances |
| RtspText.AnyLineEnd | my_rtsp_client/cRTSPprotocol.cpp:59-83 | CR, LF and CRLF each end a line and nothing else does |
| RtspText.PrintedLines | my_rtsp_client/cRTSPprotocol.cpp:30-83 | the bytes printed for any lines without CR, LF and NUL, split again with the last byte replaced by NUL, are those lines and then a blank one |
| RtspScan.NumberOfDecimal | my_rtsp_client/cRTSPprotocol.cpp:432-466 | a printed number is read back, cut to the width of the variable |
| RtspScan.NumbersPastTheEdge | my_rtsp_client/cRTSPprotocol.cpp:140 | a sign, and a number of 2^64 or more, are read as the C library does |
| RtspReply.HeadersByLines | my_rtsp_client/cRTSPprotocol.cpp:418-508 | the header loop fails if and only if some CSeq line before the blank line does not hold the request's number; otherwise it keeps the last value of each header |
| RtspReply.SucceedsExactly | my_rtsp_client/cRTSPprotocol.cpp:411-598 | parse succeeds if and only if the status line is readable with code 200 and no CSeq header differs from the request's, whatever else failed; then respondCode is 200 |
| RtspReply.RejectedReply | my_rtsp_client/cRTSPprotocol.cpp:411-513 | a reply with an unreadable status line or a CSeq header that does not fit changes nothing |
| RtspPrinted.StatusIsRead | my_rtsp_client/cRTSPprotocol.cpp:137-146 | for every version without white space, every gap of white space, every code and every rest that does not begin with a digit, the status line is read as that code, cut to 32 bits |
| RtspPrinted.OtherLinesAreNoStatus | my_rtsp_client/cRTSPprotocol.cpp:137-146 | a line that does not begin with RTSP/ or whose second word is no number is not |
| RtspPrinted.BlankLinesArePassed | my_rtsp_client/cRTSPprotocol.cpp:404-409 | blank lines before the status line are passed over |
| RtspPrinted.NamedIsStartsWith | my_rtsp_client/cRTSPprotocol.cpp:123-135 | a header has a name if and only if it begins with it, letter by letter, in any mixture of cases |
| RtspPrinted.ValueIsRead | my_rtsp_client/cRTSPprotocol.cpp:123-135 | the value of a header is what follows its name and any blanks |
| RtspPrinted.CSeqIsChecked | my_rtsp_client/cRTSPprotocol.cpp:426-444 | a CSeq header with a number is accepted if and only if it is the number of the request |
| RtspPrinted.PrintedReplySucceeds | my_rtsp_client/cRTSPprotocol.cpp:384-607 | a reply as a server prints it succeeds if and only if its code is 200 and every CSeq header holds the number of the request |
| RtspReplies.TransportIsRead | my_rtsp_client/cRTSPprotocol.cpp:302-382 | for any list of fields, in any order: a multicast transport with a destination gives its port, otherwise the server's, otherwise the client's, otherwise 0 if channels are interleaved; without any of these the header is refused; the last field of a name counts |
| RtspReplies.UnicastPort | my_rtsp_client/cRTSPprotocol.cpp:302-382 | a unicast transport with a printed server port, or without one a printed client port, gives that port |
| RtspReplies.MulticastPort | my_rtsp_client/cRTSPprotocol.cpp:357-363 | a multicast transport with a destination gives its printed port |
| RtspReplies.InterleavedPort | my_rtsp_client/cRTSPprotocol.cpp:336-339 | two channels and no port give port 0 |
| RtspReplies.SetupRecovers | my_rtsp_client/cRTSPprotocol.cpp:384-598 | a printed SETUP reply with code 200, the number of the request, a Session header with an identifier below 64 bytes and a unicast Transport header, anywhere among others and the last of their name: success, that session identifier and that printed port |
| RtspReplies.DescribeRecovers | my_rtsp_client/cRTSPprotocol.cpp:384-598 | a printed DESCRIBE reply with code 200, the number of the request and a well-formed description with one RTP/AVP video section with a format up to 127: success and the text of the last control attribute of that section |
| RtspReplies.BareReplyLeaves | my_rtsp_client/cRTSPprotocol.cpp:514-598 | a printed reply with any code that lacks what the request is after: the code is kept and decides over success, SETUP clears port and session, DESCRIBE the control path, and nothing else changes |
| RtspReplies.TwoVideosAreRead | my_rtsp_client/cRTSPprotocol.cpp:260-295 | of two video sections the second one counts if and only if another section lies between them |
| RtspProtocol.Protocol.constructor | my_rtsp_client/cRTSPprotocol.cpp:9-19 | an empty request buffer; the reply members hold anything |
| RtspProtocol.Protocol.BegainCmd | my_rtsp_client/cRTSPprotocol.cpp:30-35 | the request is empty again |
| RtspProtocol.Protocol.AddLineCmd | my_rtsp_client/cRTSPprotocol.cpp:37-49 | appends the line and CRLF if and only if they fit, otherwise changes nothing |
| RtspProtocol.Protocol.EndCmd | my_rtsp_client/cRTSPprotocol.cpp:51-57 | appends the blank line |
| RtspProtocol.Protocol.AddLines | my_rtsp_client/cRTSPClient.cpp:237-248 | a series of add_line_cmd calls leaves exactly the lines that fit |
| RtspProtocol.Protocol.ParseTransportParams | my_rtsp_client/cRTSPprotocol.cpp:302-382 | the loop computes TransportPort |
| RtspProtocol.Protocol.ParseSDP | my_rtsp_client/cRTSPprotocol.cpp:235-298 | the two loops leave the control path that Media says, and end |
| RtspProtocol.Protocol.VideoSection | my_rtsp_client/cRTSPprotocol.cpp:265-287 | the inner loop leaves the control path that Video says |
| RtspProtocol.Protocol.ReadStatus | my_rtsp_client/cRTSPprotocol.cpp:404-409 | the status line and the place of the next one, in place |
| RtspProtocol.Protocol.ReadHeaderLines | my_rtsp_client/cRTSPprotocol.cpp:418-508 | the in-place header loop computes ReadHeaders |
| RtspProtocol.CopyReply | my_rtsp_client/cRTSPprotocol.cpp:398-401 | the copy is the reply up to its first NUL or its last byte |
| RtspProtocol.Protocol.Parse | my_rtsp_client/cRTSPprotocol.cpp:384-607 | the reply members and the result are those of ParseReply |
| Sdp.CatchIsVideo | my_rtsp_client/cRTSPprotocol.cpp:148-171 | a well-formed media line is recognised as RTP/AVP video by its own text, with or without a number of ports, whatever follows |
| Sdp.ControlReadsOwnLineIffNotBlank | my_rtsp_client/cRTSPprotocol.cpp:216-232 | a control attribute yields its own value if and only if it has one; a blank one yields the first word of what comes next |
| Sdp.ControlPathIsChosen | my_rtsp_client/cRTSPprotocol.cpp:235-298 | for any well-formed document, and for one that breaks off with a malformed line whatever follows it, the control path is what Chosen says: the last video section counts, except that one right after another is passed over |
| Sdp.ControlPathOfVideo | my_rtsp_client/cRTSPprotocol.cpp:235-298 | with exactly one RTP/AVP video section, anywhere, it is the last control attribute inside that section and never one from elsewhere |
| RtspSession.CompleteIffItFits | my_rtsp_client/cRTSPClient.cpp:185-191 | a request has all its lines if and only if together they fit; otherwise lines are silently missing |
| RtspSession.CompleteWhenItFits | my_rtsp_client/cRTSPClient.cpp:185-191 | the bytes of a request that fits are all its lines, printed |
| RtspSession.ShortRequestTexts | my_rtsp_client/cRTSPClient.cpp:185-278 | OPTIONS, DESCRIBE and PLAY go out complete, with these very lines and CSeq 1, 2 and 4 |
| RtspSession.SetupFitsExactly | my_rtsp_client/cRTSPClient.cpp:236-248 | the bytes of SETUP are all its lines, printed, and stay inside the buffer if and only if the control path and the two printed ports, minus signs included, have at most 188 characters |
| RtspSession.SetupRequestText | my_rtsp_client/cRTSPClient.cpp:236-248 | the lines of SETUP, when they fit: control path, CSeq 3 and the two ports with their signs |
| RtspSession.LongPathIsLeftOut | my_rtsp_client/cRTSPClient.cpp:236-248 | with a control path of 240 characters or more SETUP goes out without its request line |
| RtspSession.UrlIsRead | my_rtsp_client/cRTSPClient.cpp:347-374 | rtsp:// in any case, a host without colon, a port and a path: host and port are read, the port cut to 32 bits |
| RtspSession.UrlIsRefused | my_rtsp_client/cRTSPClient.cpp:347-374 | a URL too long for mUrl, of another scheme, without host or without colon is refused |
| RtspSession.Client.constructor | my_rtsp_client/cRTSPClient.cpp:15-24 | CSeq 1, no RTP client, nothing sent |
| RtspSession.Client.RtspRequest | my_rtsp_client/cRTSPClient.cpp:128-170 | sends the request with the current CSeq, leaves in the reply members what parse makes of the first 2048 bytes of the reply, and moves CSeq on; it overruns a buffer if and only if Overruns says so |
| RtspSession.Client.RequestOptions | my_rtsp_client/cRTSPClient.cpp:177-196 | goes on whatever the server answers, with what the reply left |
| RtspSession.Client.RequestDescribe | my_rtsp_client/cRTSPClient.cpp:197-221 | succeeds if and only if the reply is good and the RTP client starts up; the RTP client exists then and the reply members are what the reply left |
| RtspSession.Client.RequestSetup | my_rtsp_client/cRTSPClient.cpp:222-260 | asks for the control path the last reply left; succeeds if and only if the reply is good and the port connects, which is then the one the reply left |
| RtspSession.Client.RequestPlay | my_rtsp_client/cRTSPClient.cpp:261-289 | names the session the last reply left; rtp_start is called, whatever it returns, if and only if the reply is good; success needs both |
| RtspSession.Client.ParseRtspUrl | my_rtsp_client/cRTSPClient.cpp:347-374 | keeps the URL and reads host and port, or refuses |
| RtspSession.Client.ApiInit | my_rtsp_client/cRTSPClient.cpp:29-71 | against any server: the requests are a prefix of the script, built from the control path that the DESCRIBE reply left and the session that the SETUP reply left; on success the RTP client is connected to the port of the SETUP reply; how many requests go out, when rtp_start is called, when it succeeds and when a buffer is overrun are each characterised exactly |
| RtspSession.RepliesCarryOn | my_rtsp_client/cRTSPClient.cpp:50-70 | with printed DESCRIBE and SETUP replies of at most 2048 bytes, the path, port and session of that script and connection are the ones printed in them |
| RtspSession.NothingOverruns | my_rtsp_client/cRTSPClient.cpp:50-70 | no session overruns a buffer when every request is answered, the identifier is below 64 bytes and path and ports have at most 188 characters |
| RtspSession.ScriptIsInOrder | my_rtsp_client/cRTSPClient.cpp:50-70 | the script is OPTIONS, DESCRIBE, SETUP, PLAY with CSeq 1, 2, 3, 4 in number and in text |

## Left out

- CQueue.CQueue.Push: a caller of the sequential class must know that the semaphore and the slot lock are available; blocking is modelled in CQueueThreads. Null data is not modelled.
- CQueue: the bytes of all slots are one allocation in the source; here each slot has its own. mIndexlock is held around single updates only and is folded into their steps.
- CQueue.CQueue.Pop: modelled for one thread only; beside another thread its sem_trywait is independent of the counter check.
- CQueueRuns.RunRefines: one pushing and one borrowing thread, each borrow released before the next getbuffer, as the client uses the queue.
- H264Spec.RoundTrip: contributing sources, header extensions and padding are not sent, because the source always strips twelve bytes.
- RtpClient.RtpClient.ParseNext: a slot is longer than the RTP header, as the source's are, so a short packet's header and first payload bytes are read from what lies in the slot. Excluded are only packets for which the source copies a negative length or more than the room left in mFUBuffer, which C leaves undefined.
- RtpClient: sockets, threads, log files, capture files and the reading side; received data are the frames in the network queue.
- MemWatch.MemWatch.MwMalloc: malloc succeeds, so mwFreeUp is not modelled; a size whose total would overflow size_t is excluded; guard zones, the log, the error counter, the test calls, locking and the abort handler are left out.
- MemWatch.MemWatch.MwFree: the C++ form with a null file name, the list of the last freed pointers (it only selects a log message) and the FBI text are left out; the links of a header filled with MW_VAL_DEL are not modelled as pointers; a foreign header with a good checksum that mwIsOwned believes is excluded (MwIsOwned says when that is): the source then counts it as one of its blocks and, unless blocks are kept, hands memory that malloc did not give to free.
- MemWatch.MemWatch.MwRealloc: excludes the same foreign headers as MwFree.
- MemWatch.MemWatch.MwRelink: the emergency branch is left out; RepairFromHead and RepairFromTail prove that it is not reached when only one block is damaged.
- MemWatch.MemWatch.MwIsOwned: a block whose neighbour pointers are illegal addresses is excluded outside the chain; the source reads through them, which C leaves undefined.
- MemWatch.MemWatch.MwStatGet: the allocation of a statistics entry succeeds.
- RtspProtocol.Protocol.Parse: a reply of no bytes is excluded, the source writes before its copy. A CSeq header with a blank value is read through a pointer that was never set; the parameter wild is the text found there. The Scale, Speed, Range, RTP-Info and Content-Length headers are matched by the source and not used. A Session or Transport pointer is kept as the text it points to, which later splitting does not change.
- RtspProtocol.Protocol.ParseTransportParams: the server address and the channel numbers are parsed but never used by the caller, and are left out.
- RtspReplies.SetupRecovers: an identifier of 64 bytes or more, with which the source leaves fSessionId, is excluded; RtspSession stops there.
- RtspProtocol.Protocol.ParseSDP: the RTCP-mux flag, which nothing uses, and the 64 bytes reserved for a medium name.
- RtspSession.Client.ApiInit: where the source would leave a buffer (an empty reply, a session identifier of 64 bytes or more, a request without room for its blank line) the model stops with Overrun. Opening the log file and allocating buffers succeed; the host name is not bounded at 16 bytes.
- Pause and teardown requests, deinitialisation, the application's frame calls, port discovery and socket options are not part of this model.
- findBlankLine, the branches under `#if 0`, Pcapfile.cpp, com_debug.cpp, cRTPParse.cpp and test_main.cpp are not part of this model.
