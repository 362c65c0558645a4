# Chimera bridge and MPEG-2 front-end, modelled in Dafny

Chimera is a gem5 component that hands tasks from a simulated device to
an FPGA over PCIe.

The calling device front-end, here the MPEG-2 encoder, gives the bridge
`PCIeTask`s. The bridge gives each task a slot of its task table, taken
from a free list. The task then passes through three pipeline stages:

- an auxiliary stage moves it from the ingress queue to the transmit queue;
- a submit stage writes it to the device;
- a collect stage reads the device's response packets.

The auxiliary stage then closes each answered slot, returns it to the
free list and puts it on a completed list, from which `fetchResp` hands
the result to the caller. A side channel, the CDMA engine, streams
response payloads into a local byte buffer instead.

The encoder does three things:

- it packs pixel writes into 64-byte data nodes;
- it holds back the stop signal until every node has been submitted;
- it answers status and stream reads.

In its Verilator mode it drives an RTL model and keeps that model's
output in a buffer of its own.

This project models that sequential core:

- `Ring`: the bounded FIFO, as a class over an array, proved against its
  contents.
- `Wire`: the packed wire types, their flag byte and byte layouts, and
  the request and data packets as classes.
- `Cdma`: the CDMA engine as a class over its stream buffer.
- `Slots`: the slot bookkeeping of the bridge, on values. It holds the
  ownership invariant (every slot id is in exactly one place) and one
  lemma per pipeline move that proves the invariant is kept.
- `Chimera`: the bridge as a class. Each loop body of a stage thread is
  one atomic step method. Each method is specified by the bookkeeping
  function of its move.
- `Mpeg2`: the encoder as a class. `submit` and the retry path are
  specified by functions over the encoder and bridge state, and by a
  counting abstraction (`Backlog`). Two flaws of the retry path are
  recorded below; the model uses the corrected path.

Inputs the source reads from outside are parameters of the step methods:

- the device's answers (the response packet, or its byte image);
- clock readings and gem5 cycle counts;
- the RTL model's tick output.

Writes to the device are returned as values (`DevWrite`) and have no
other effect.

One fact of the source is stated by the model rather than corrected. At
`src/fpga/chimera/chimera.cc:314`, the response step returns a slot to
the free list before `fetchResp` has cleared the slot's table entry. A
new task can therefore reuse the slot before its result is fetched. The
valid-slot counter still accounts for it, through the completed list.
`Slots.Inv` states that invariant.

## Model

| member | source | states |
|---|---|---|
| Ring.Occupancy | src/fpga/chimera/ringBuffer.hh:75-78 | `size()` is in `[0, depth]`, is 0 exactly when the consumer head meets the producer tail, and the producer tail is `size()` positions past the consumer head |
| Ring.FullIffOccupancy | src/fpga/chimera/ringBuffer.hh:32-35 | the full test (next producer index is the consumer tail) holds exactly when `size() == depth` |
| Ring.OccupancyAfterProduce | src/fpga/chimera/ringBuffer.hh:45-50 | advancing the producer index of a non-full ring raises `size()` by one |
| Ring.RingBuffer.Contents | src/fpga/chimera/ringBuffer.hh:15-21 | the abstract contents read from the consumer head to the producer tail, and their length is `size()` |
| Ring.RingBuffer.constructor | src/fpga/chimera/ringBuffer.hh:24-27 | a new ring has modulus `depth + 1` (one slot never used), both heads at 0, and empty contents |
| Ring.RingBuffer.IsFull | src/fpga/chimera/ringBuffer.hh:32-35 | full exactly when the ring holds `depth` items |
| Ring.RingBuffer.IsEmpty | src/fpga/chimera/ringBuffer.hh:37-40 | empty exactly when the contents are empty |
| Ring.RingBuffer.Size | src/fpga/chimera/ringBuffer.hh:75-78 | returns the number of items held, between 0 and `depth` |
| Ring.RingBuffer.Enqueue | src/fpga/chimera/ringBuffer.hh:42-55 | succeeds exactly when the ring is not full, and then appends the item at the back; on a full ring it returns false and changes nothing |
| Ring.RingBuffer.Dequeue | src/fpga/chimera/ringBuffer.hh:57-66 | on a non-empty ring it returns the oldest item and removes exactly it; the producer indices do not move |
| Ring.RingBuffer.Peek | src/fpga/chimera/ringBuffer.hh:68-73 | on a non-empty ring it returns the item the next dequeue would return, and changes nothing |
| Wire.Sub64 | src/fpga/chimera/cdma.hh:47-50 | unsigned 64-bit subtraction wraps around by 2^64 when the subtrahend is larger |
| Wire.FromLEOfLE | src/fpga/chimera/common.hh:21-28 | reading back the little-endian bytes of a packed field gives the value written |
| Wire.LEOfFromLE | src/fpga/chimera/common.hh:21-28 | writing the value of any byte string back gives the same bytes |
| Wire.I8Byte | src/fpga/chimera/common.hh:25 | the two's-complement byte of a signed slot id reads back as that id |
| Wire.I8ByteOfByteI8 | src/fpga/chimera/common.hh:25 | every byte is the two's-complement image of its signed reading |
| Wire.DefaultTask | src/fpga/chimera/common.hh:44-52 | a default task has no flag set, slot id -1, insert time, address and size 0, and 64 zero content bytes |
| Wire.IsValid | src/fpga/chimera/common.hh:54-57 | bit 0 of the flag byte (`m_basic & 0x1`) |
| Wire.IsNeedResp | src/fpga/chimera/common.hh:59-62 | bit 1 of the flag byte |
| Wire.IsWrite | src/fpga/chimera/common.hh:64-67 | bit 2 of the flag byte |
| Wire.IsRead | src/fpga/chimera/common.hh:69-72 | bit 3 of the flag byte |
| Wire.IsCtrl | src/fpga/chimera/common.hh:74-77 | a read or a write request |
| Wire.IsData | src/fpga/chimera/common.hh:79-82 | bit 4 of the flag byte |
| Wire.FlagBits | src/fpga/chimera/common.hh:54-82 | the five flag tests read five distinct bits, 0 to 4: with the three bits above them they make up the whole flag byte |
| Wire.SetValid | src/fpga/chimera/common.hh:84-87 | sets bit 0 and leaves every other bit and field as it was |
| Wire.UnsetValid | src/fpga/chimera/common.hh:89-92 | clears the whole flag byte, not only bit 0, and nothing else |
| Wire.SetNeedResp | src/fpga/chimera/common.hh:94-97 | sets bit 1 and keeps bit 0 and bits 2-7 |
| Wire.SetWriteType | src/fpga/chimera/common.hh:99-103 | clears bit 1, sets bit 2, and keeps bit 0 and bits 3-7 |
| Wire.SetReadType | src/fpga/chimera/common.hh:105-109 | clears bit 1, sets bit 3, and keeps bits 0, 2 and 4-7 |
| Wire.SetDataType | src/fpga/chimera/common.hh:111-115 | clears bit 1, sets bit 4, and keeps bits 0, 2, 3 and 5-7 |
| Wire.Overwrite | src/fpga/chimera/common.hh:121 | a copy to offset 0 replaces the first bytes by the data and keeps the rest |
| Wire.FillData | src/fpga/chimera/common.hh:117-129 | has an error outcome when a control task's `start_addr + size` (32-bit) exceeds 16, for a task neither control nor data, and for more than 64 bytes, which overrun the content. Otherwise it copies the data to the content's start and keeps the other content bytes and the flags. A data task also records address and size; a control task keeps them |
| Wire.ToCtrlTask | src/fpga/chimera/common.hh:203-209 | the packed control task keeps the flags, slot id and insert time and the first 16 content bytes |
| Wire.EncodeCtrlTask | src/fpga/chimera/common.hh:23-28 | a packed control task is 26 bytes |
| Wire.DecodeEncodeCtrlTask | src/fpga/chimera/common.hh:23-28 | decoding the 26-byte image of a control task gives it back |
| Wire.EncodeDecodeCtrlTask | src/fpga/chimera/common.hh:23-28 | every 26-byte string is the image of the control task it decodes to |
| Wire.EncodeResult | src/fpga/chimera/common.hh:133-138 | a packed result is 42 bytes |
| Wire.DecodeEncodeResult | src/fpga/chimera/common.hh:133-138 | decoding the 42-byte image of a result gives it back |
| Wire.CtrlTasksImageLength | src/fpga/chimera/common.hh:194 | an array of `k` control tasks takes `26 * k` bytes |
| Wire.ResultsImageLength | src/fpga/chimera/common.hh:265 | an array of `k` results takes `42 * k` bytes |
| Wire.DecodeResultsImage | src/fpga/chimera/common.hh:265 | decoding the image of a result array gives it back |
| Wire.ReqPktSize | src/fpga/chimera/common.hh:200 | the request-packet transfer size `1 + 1 + 26 * limit` |
| Wire.RespPktSize | src/fpga/chimera/common.hh:271 | the response-packet transfer size `1 + 1 + 42 * limit` |
| Wire.DataPktSize | src/fpga/chimera/common.hh:223 | the data-packet transfer size `4 + 4 + 64 * limit` |
| Wire.ReqImageSize | src/fpga/chimera/common.hh:191-201 | the request-packet transfer size is `2 + 26 * limit`, the length of the valid byte, batch byte and `limit` packed tasks |
| Wire.NewRespPkt | src/fpga/chimera/common.hh:268-272 | a new response packet is invalid and has transfer size `2 + 42 * limit` |
| Wire.DecodeRespImage | src/fpga/chimera/common.hh:262-272 | a read of `2 + 42 * limit` bytes into a response packet keeps its size field and the results past `limit` |
| Wire.DecodeRespImageOfImage | src/fpga/chimera/common.hh:262-272 | reading back the image of a response packet gives the packet |
| Wire.ResetLifeCycle | src/fpga/chimera/common.hh:158-170 | a reset record is invalid, not needing a response, with every timestamp 0 |
| Wire.NewTableEntry | src/fpga/chimera/common.hh:182-188 | a new table entry is invalid and incomplete, carries its own slot id, and has enqueue time 0 |
| Wire.ReqPkt.constructor | src/fpga/chimera/common.hh:197-201 | a new request packet is invalid and has size `2 + 26 * limit` |
| Wire.ReqPkt.FillTask | src/fpga/chimera/common.hh:203-209 | writes the packed form of the task at the index and leaves the other task records as they were |
| Wire.DataPkt.constructor | src/fpga/chimera/common.hh:218-224 | a new data packet has start and total 0, zeroed data, and size `8 + 64 * limit` |
| Wire.DataPkt.FillTask | src/fpga/chimera/common.hh:226-244 | at index 0 it records the task's address and size, copies its content and returns 0. At a later index it returns -1, changing nothing, exactly when `start + total` (32-bit) differs from the task's address; otherwise it adds the size (32-bit) and returns 0 |
| Cdma.ToInt64 | src/fpga/chimera/cdma.hh:47-50 | the signed reading of a 64-bit pattern is in the `int64_t` range and agrees with it modulo 2^64 |
| Cdma.CDMA.GetWPtr | src/fpga/chimera/cdma.hh:36-39 | the write pointer |
| Cdma.CDMA.GetRPtr | src/fpga/chimera/cdma.hh:42-45 | the read pointer |
| Cdma.CDMA.GetSize | src/fpga/chimera/cdma.hh:52-55 | the window size |
| Cdma.CDMA.GetAddr | src/fpga/chimera/cdma.hh:57-60 | the window address |
| Cdma.CDMA.GetStatus | src/fpga/chimera/cdma.hh:62-65 | whether the engine is enabled |
| Cdma.CDMA.GetRemain | src/fpga/chimera/cdma.hh:47-50 | returns `wptr - rptr` read as a signed 64-bit value, which is the plain difference whenever `rptr <= wptr <= BUFFER_SIZE` |
| Cdma.PayloadLength | src/fpga/chimera/cdma.cc:50-56 | the payload of `k` results is `32 * k` bytes |
| Cdma.CDMA.constructor | src/fpga/chimera/cdma.cc:9-19 | a new engine is disabled, with address, size and both pointers 0, and a 0x200000-byte buffer |
| Cdma.CDMA.Enable | src/fpga/chimera/cdma.cc:21-29 | on a disabled engine it stores address and size, resets both pointers and enables it |
| Cdma.CDMA.Disable | src/fpga/chimera/cdma.cc:31-39 | on an enabled engine it zeroes address, size and pointers and disables it |
| Cdma.CDMA.FetchData | src/fpga/chimera/cdma.cc:64-72 | when `n` bytes are buffered it returns exactly the `n` bytes at the read pointer and advances it by `n`; otherwise it returns `n` zero bytes and changes nothing; `rptr <= wptr` is kept |
| Cdma.CDMA.CopyPayload | src/fpga/chimera/cdma.cc:54 | the copy of one result's content writes exactly those 32 bytes at the offset |
| Cdma.CDMA.AppendPayload | src/fpga/chimera/cdma.cc:50-56 | the copy loop appends the contents of the first `batch` results, in order, at the write pointer and advances it by `32 * batch` |
| Cdma.CDMA.ExecuteStep | src/fpga/chimera/cdma.cc:44-60 | a disabled engine does nothing. An enabled one polls at `addr + wptr`. A packet with bit 0 of its valid byte set has its results' payload appended and the write pointer advanced by `32 * batch`, unless it would run past the buffer, which is reported as `overrun` and copies nothing. An invalid packet changes nothing |
| Slots.Range | src/fpga/chimera/chimera.cc:49-52 | the free list the constructor fills holds `0..N-1` in order |
| Slots.FirstIndex | src/fpga/chimera/chimera.cc:423-425 | the first position of the id in the completed list, or -1 exactly when it is absent |
| Slots.RemoveAt | src/fpga/chimera/chimera.cc:435 | erasing one position keeps every other element, in order |
| Slots.HeldOnce | src/fpga/chimera/chimera.hh:32-36 | under the ownership invariant, an id held anywhere is a slot id held by one place only |
| Slots.HeldSize | src/fpga/chimera/chimera.hh:36 | the free list, the queues, the awaited ids and the response queue together hold exactly `N` ids |
| Slots.IdleExclusive | src/fpga/chimera/chimera.cc:382 | a free-list id is a slot id, appears once, has no valid lifecycle record, and is in no queue, not awaited and not in a response |
| Slots.RecvHeld | src/fpga/chimera/chimera.cc:375-388 | taking the first free id for an incoming task moves that id to the ingress queue and holds the same ids |
| Slots.RecvMoves | src/fpga/chimera/chimera.cc:375-388 | the taken id had no valid record, the ingress queue has room (the enqueue at line 388 succeeds), and ownership holds with the record now valid |
| Slots.DispatchMoves | src/fpga/chimera/chimera.cc:287-295 | moving the ingress head to the transmit queue keeps ownership, and the transmit queue has room (line 295) |
| Slots.TransmitHead | src/fpga/chimera/chimera.cc:104-112 | the transmit head carries a slot id whose record is valid |
| Slots.ReleaseHeld | src/fpga/chimera/chimera.cc:156-166 | releasing the transmit head's slot returns an id not on the free list to it, and the free list has room (line 161) |
| Slots.ReleaseMoves | src/fpga/chimera/chimera.cc:156-166 | ownership holds after the head's slot is released and its record closed |
| Slots.AwaitMoves | src/fpga/chimera/chimera.cc:151-152 | a transmitted slot that needs a response moves to the awaited ids, keeping ownership |
| Slots.DistinctWithinSlots | src/fpga/chimera/chimera.cc:243-247 | ids that fit in the slot multiset are distinct slot ids |
| Slots.CollectFacts | src/fpga/chimera/chimera.cc:243-249 | a response naming awaited slots names distinct slot ids with valid records, and the response queue has room (line 249) |
| Slots.CollectMoves | src/fpga/chimera/chimera.cc:243-249 | moving the answered ids from the awaited set into the response queue keeps ownership |
| Slots.RespondFacts | src/fpga/chimera/chimera.cc:307-314 | the head response names distinct slot ids with valid records, none on the free list, and the free list has room for all of them (line 314) |
| Slots.RespondMoves | src/fpga/chimera/chimera.cc:307-321 | returning the head response's ids to the free list with their records closed keeps ownership |
| Slots.NothingOutstanding | src/fpga/chimera/chimera.cc:340 | nothing is outstanding exactly when the transmit queue, the awaited set, the response queue and the completed list are all empty |
| Slots.TableTake | src/fpga/chimera/chimera.cc:290-291 | giving a slot the next task UID keeps the UIDs of valid entries distinct and below the counter; every other valid UID is smaller |
| Slots.TableKeep | src/fpga/chimera/chimera.cc:318-319 | a table that only stores results or clears valid bits keeps the table invariant |
| Slots.InvRecv | src/fpga/chimera/chimera.cc:369-394 | `recvTask`'s move keeps the bookkeeping invariant |
| Slots.InvDispatch | src/fpga/chimera/chimera.cc:284-301 | the dispatch move keeps the invariant, and the new UID exceeds every other valid UID |
| Slots.InvRelease | src/fpga/chimera/chimera.cc:155-169 | the release move of the submit stage keeps the invariant, with the valid-slot counter up by one |
| Slots.InvAwait | src/fpga/chimera/chimera.cc:151-153 | the await move keeps the invariant, with the outstanding counter up by the batch |
| Slots.InvCollect | src/fpga/chimera/chimera.cc:234-249 | the collect move keeps the invariant, with the outstanding counter down by the batch |
| Slots.InvRespond | src/fpga/chimera/chimera.cc:303-325 | the response move keeps the invariant |
| Slots.InvFetch | src/fpga/chimera/chimera.cc:425-435 | `fetchResp`'s move keeps the invariant, with the valid-slot counter up by one |
| Slots.InvCredit | src/fpga/chimera/chimera.cc:469 | changing the outstanding counter by the CDMA engine's share keeps the invariant |
| Slots.InvAllFree | src/fpga/chimera/chimera.cc:340-341 | when the valid-slot counter equals N, nothing is outstanding and the outstanding counter is only the part owed to no awaited slot: CDMA enables, less CDMA disables and invalid collected answers (zero when there are none, as line 264 asserts) |
| Chimera.FreeList | src/fpga/chimera/chimera.cc:49-52 | the constructor's loop fills the free list with `0..N-1` in order |
| Chimera.NewTable | src/fpga/chimera/chimera.cc:49-50 | the table has N entries, entry `i` a new entry for slot `i` |
| Chimera.Account | src/fpga/chimera/chimera.hh:136-140 | one closed record adds one handled task and, to each of the four interval sums, the unsigned 64-bit difference of its two timestamps |
| Chimera.AccountAll | src/fpga/chimera/chimera.hh:132-143 | several closed records are accounted one after the other, in order |
| Chimera.AccountAllCounts | src/fpga/chimera/chimera.hh:131-143 | closing `k` records raises the handled count by exactly `k` and lowers no accumulator |
| Chimera.Collected | src/fpga/chimera/chimera.cc:244-247 | stamping the collect times keeps the number of records |
| Chimera.CollectedKeepsValid | src/fpga/chimera/chimera.cc:244-247 | the collect stamps change no valid bit, and every collected slot carries both stamps |
| Chimera.RespondedFrame | src/fpga/chimera/chimera.cc:307-312 | after the first `i` results each of those slots is closed from its own record with its own result, and every other record is untouched |
| Chimera.GivenFrame | src/fpga/chimera/chimera.cc:318-319 | after the first `i` results each of those slots stores its own result and is complete, and every other entry is untouched |
| Chimera.RespondedCloses | src/fpga/chimera/chimera.cc:307-321 | after the whole packet exactly the packet's slots have lost their valid bit |
| Chimera.AccountedInOrder | src/fpga/chimera/chimera.cc:312 | the statistics are accounted from the closed records in batch order |
| Chimera.RespondKeepsInv | src/fpga/chimera/chimera.cc:303-325 | the response step on the head packet keeps the bookkeeping invariant |
| Chimera.HandBack | src/fpga/chimera/chimera.cc:307-321 | the response loop closes each slot, stores its result, and lists the freed ids in batch order, as the response specification states |
| Chimera.Respond | src/fpga/chimera/chimera.cc:303-325 | the response step computes the specified next state and statistics and keeps the invariant |
| Chimera.CollectKeepsInv | src/fpga/chimera/chimera.cc:243-249 | collecting an honest valid response keeps the invariant |
| Chimera.ScanComplete | src/fpga/chimera/chimera.cc:423-426 | the scan of the completed list finds the first occurrence of the id, and clears the updated flag exactly when it visits an element |
| Chimera.RespondThenFetch | src/fpga/chimera/chimera.cc:318-324 | after the response step every slot of the packet is on the completed list, complete, and holding the result the packet carried for it |
| Chimera.Chimera.constructor | src/fpga/chimera/chimera.cc:28-56 | a new bridge has free list `0..N-1`, empty queues and completed list, valid-slot counter N, outstanding counter 0, all flags clear, zero statistics, and a disabled CDMA engine |
| Chimera.Chimera.IsFullAndMark | src/fpga/chimera/chimera.cc:362-367 | returns true exactly when the free list is empty, and sets the retry mark only then |
| Chimera.Chimera.SetParent | src/fpga/chimera/chimera.hh:68-72 | records the parent's name |
| Chimera.Chimera.ClearParentRetry | src/fpga/chimera/chimera.cc:462 | clears the retry mark |
| Chimera.Chimera.RecvTask | src/fpga/chimera/chimera.cc:369-394 | has an error outcome for a task without its valid bit, and changes nothing then. Otherwise it takes the first free id (never -1). That id had no valid record. It stamps the id into the task, opens the record with the receive and hardware times, and appends the task to the ingress queue |
| Chimera.Chimera.DispatchStep | src/fpga/chimera/chimera.cc:284-301 | moves the ingress head to the transmit queue and takes its slot with the next UID. The UID is larger than every other valid UID. The valid-slot counter drops by one |
| Chimera.Chimera.LoadRequest | src/fpga/chimera/chimera.cc:104-134 | loads the head task into the request packet (and a data task into the data packet) and yields the device write it makes |
| Chimera.Chimera.TransmitAwaiting | src/fpga/chimera/chimera.cc:140-153 | a head task that waits for a response moves to the awaited set with its submit times stamped; no slot is released |
| Chimera.Chimera.TransmitReleasing | src/fpga/chimera/chimera.cc:155-191 | a head task that needs no response has its record closed and accounted, its slot returned to the free list and its entry cleared; a data task also counts as an issued data packet |
| Chimera.Chimera.SubmitStep | src/fpga/chimera/chimera.cc:100-198 | one submit iteration: it exits on an empty queue after shutdown, fails for a head task of neither write nor data kind, and otherwise awaits or releases as above |
| Chimera.Chimera.CollectStep | src/fpga/chimera/chimera.cc:223-257 | one collect poll: it exits on `readDone`, failing when the outstanding counter is not zero. Otherwise the counter drops by the answer's batch, valid or not. A valid answer also stamps the collect times and moves its slots to the response queue; an invalid one changes nothing else. The packet is invalidated afterwards |
| Chimera.Chimera.CdmaCollectStep | src/fpga/chimera/chimera.cc:258-260 | exits on `readDone`. It fails, changing nothing, when the engine is disabled. Otherwise it runs one engine iteration, as `ExecuteStep` states |
| Chimera.Chimera.ResponseStep | src/fpga/chimera/chimera.cc:303-330 | the response half of the auxiliary loop fails, changing nothing, when the retry mark is set and the parent is not the encoder. Otherwise it computes `Responded`: the head packet's slots closed and accounted in batch order, results stored, ids freed and completed. It sets `completeListUpdated` and reports whether the parent's retry is due |
| Chimera.Chimera.FetchResp | src/fpga/chimera/chimera.cc:413-451 | finds the id exactly when it is on the completed list. It then returns the entry's result and enqueue time, removes the first occurrence, clears the entry and raises the counter. Otherwise nothing changes; the caller waits and retries |
| Chimera.Chimera.EnableCdma | src/fpga/chimera/chimera.cc:466-471 | enables the engine with the window and raises the outstanding counter by one; fails on an enabled engine |
| Chimera.Chimera.DisableCdma | src/fpga/chimera/chimera.cc:473-478 | disables the engine and lowers the outstanding counter by the response packet's batch; fails on a disabled engine |
| Chimera.Chimera.CdmaStatus | src/fpga/chimera/chimera.hh:94-97 | the engine's enabled flag |
| Chimera.Chimera.CdmaRemain | src/fpga/chimera/chimera.hh:104-109 | the engine's `wptr - rptr`, proved non-negative |
| Chimera.Chimera.CdmaFetchData | src/fpga/chimera/chimera.hh:99-102 | delegates to the engine's `fetchData` with its contract |
| Chimera.Chimera.SimExit | src/fpga/chimera/chimera.cc:401-406 | sets `auxDone` |
| Chimera.Chimera.AuxShutdownStep | src/fpga/chimera/chimera.cc:332-357 | once `auxDone` holds, it sets `writeDone` when the ingress queue is empty and `readDone` when the valid-slot counter is N. At that point nothing is outstanding. It is `stalled` exactly when `Chimera.ShutdownHangs` holds: on the `else` branch the loop at :349 never ends on a non-empty free list. It reports finishing when it did not stall and all three flags hold |
| Chimera.ShutdownHangsAfterDispatch | src/fpga/chimera/chimera.cc:332-349 | from any bookkeeping state with at least two free slots and an empty ingress queue, receiving and dispatching one task gives a state that keeps `Slots.Inv` and in which a shutdown pass hangs |
| Chimera.Chimera.IntendedAuxShutdownStep | src/fpga/chimera/chimera.cc:332-357 | the same flag updates without the loop at :349; it never stalls, and it finishes on any pass after `auxDone` that finds the ingress queue empty and the valid-slot counter at N |
| Mpeg2.ConfigAddr | src/fpga/mpeg2/mpeg2_encoder.cc:99 | the device-relative address is the request address minus the base, for addresses in the window |
| Mpeg2.StatusBytes | src/fpga/mpeg2/mpeg2_encoder.cc:104-108 | the eight status bytes read back as: bit 0 set, bit 2 the flag, bits 32 and up the count |
| Mpeg2.StatusWordParts | src/fpga/mpeg2/mpeg2_encoder.cc:104-107 | the status word has bit 0 set, bit 2 equal to the flag, and the count in its upper 32 bits |
| Mpeg2.StatusWord | src/fpga/mpeg2/mpeg2_encoder.cc:104-107 | the status word a read returns is a 64-bit value: bit 0, bit 2 the flag, the count shifted into the upper 32 bits (the shift drops what does not fit) |
| Mpeg2.NodeTask | src/fpga/mpeg2/mpeg2_encoder.cc:71-79 | a node becomes a valid data task (no other flag) with the node's address, size 64 and the node's bytes |
| Mpeg2.WriteTask | src/fpga/mpeg2/mpeg2_encoder.cc:141-148 | a register or pixel write becomes a valid write task whose first 8 content bytes hold the device address and whose next bytes hold the data |
| Mpeg2.IsStopWrite | src/fpga/mpeg2/mpeg2_encoder.cc:163 | a write of register 0 with bit 1 of the first data byte set |
| Mpeg2.IsStartWrite | src/fpga/mpeg2/mpeg2_encoder.cc:174 | a write of register 0 with bit 0 of the first data byte set |
| Mpeg2.Received | src/fpga/chimera/chimera.cc:375-388 | a run of `recvTask` calls takes that many ids from the front of the free list and appends the tasks, tagged with them in order, to the ingress queue |
| Mpeg2.ReceivedKeepsInv | src/fpga/chimera/chimera.cc:369-394 | a run of `recvTask` calls keeps the bookkeeping invariant |
| Mpeg2.NodesSpecCounts | src/fpga/mpeg2/mpeg2_encoder.cc:70-86 | the drain submits `min(nodes, free slots)` nodes, leaves the rest in order, and marks the retry exactly when nodes remain |
| Mpeg2.StopSpecCounts | src/fpga/mpeg2/mpeg2_encoder.cc:88-91 | with no node left, a held stop signal takes a free slot and is invalidated. With no free slot the call spins (the guarded form marks the retry instead). Otherwise nothing happens |
| Mpeg2.SubmitSpecCounts | src/fpga/mpeg2/mpeg2_encoder.cc:68-92 | `submit`, counted, is `SubmitAsWritten`; the guarded form is `SubmitGuarded` and never spins |
| Mpeg2.RetrySpecCounts | src/fpga/mpeg2/mpeg2_encoder.cc:61-66 | the retry on the bookkeeping (`RetrySpec`), counted, is `RetryAsWritten` |
| Mpeg2.CallbackSpecCounts | src/fpga/chimera/chimera.cc:453-464 | the callback as written on the bookkeeping (`CallbackSpec`), counted, is `CallbackAsWritten` |
| Mpeg2.GuardedCallbackSpecCounts | src/fpga/chimera/chimera.cc:453-464 | the corrected callback on the bookkeeping (`GuardedCallbackSpec`), counted, is `Callback`, and it never spins |
| Mpeg2.CallbackLosesMark | src/fpga/chimera/chimera.cc:453-464 | with two nodes behind the stop signal and one free slot, the callback as written leaves a node and the stop signal held back with the mark cleared |
| Mpeg2.CallbackSpins | src/fpga/mpeg2/mpeg2_encoder.cc:88-89 | with one node behind the stop signal and one free slot, the callback as written ends in `recvTask`'s busy-wait |
| Mpeg2.CallbackKeepsMark | src/fpga/chimera/chimera.cc:453-464 | the corrected callback never leaves the stop signal held back without the mark. Nodes are never left behind a stop signal that was sent, the mark is set only when no slot is free, and the nodes, free slots and held signal only ever decrease in number |
| Mpeg2.GuardedAgrees | src/fpga/mpeg2/mpeg2_encoder.cc:68-92 | when the written `submit` does not spin, the guarded one ends in the same counts. Where the written one spins (stop signal held, no slot free), the guarded one ends the same except that the mark is set |
| Mpeg2.GuardedKeepsMark | src/fpga/mpeg2/mpeg2_encoder.cc:88-91 | after the guarded `submit` a held stop signal has its mark |
| Mpeg2.Splice | src/fpga/mpeg2/mpeg2_encoder.cc:124 | the copy into the node puts the data at the pointer and keeps every other byte |
| Mpeg2.FilledHolds | src/fpga/mpeg2/mpeg2_encoder.cc:124-128 | consecutive writes fill the node with their data in order, and leave the bytes past them as they were |
| Mpeg2.WordOf | src/fpga/mpeg2/mpeg2_encoder.cc:258-259 | the little-endian value of up to 8 written bytes fits in 64 bits |
| Mpeg2.SizeHalves | src/fpga/mpeg2/mpeg2_encoder.cc:272-273 | the two 32-bit halves of the frame-size word put together give the word back |
| Mpeg2.NoInput | src/fpga/mpeg2/rtl/rtl_packet_mpeg2.hh:24-47 | the pins of a default `inputMPEG2`: reset released (`rstn` 1), `i_en`, the pixels, the frame size and the 64-bit `sequence_stop` all 0 |
| Mpeg2.SizeWrite | src/fpga/mpeg2/mpeg2_encoder.cc:269-273 | fails for a write of more than 8 bytes. Otherwise `xsize16` is the upper 32 bits and `ysize16` the lower 32 bits of the value, and every other pin is that of the default input (reset released) |
| Mpeg2.Encoder.constructor | src/fpga/mpeg2/mpeg2_encoder.cc:8-39 | a new encoder has no node, pointer and address 0, no stop signal, and an empty output stream; callers may not enable the data-plane option and Verilator mode together |
| Mpeg2.Encoder.Init | src/fpga/mpeg2/mpeg2_encoder.cc:52-59 | registers the encoder as the bridge's parent under the name `mpeg2encoder` |
| Mpeg2.Encoder.SubmitOne | src/fpga/mpeg2/mpeg2_encoder.cc:71-85 | one drain iteration: a full table marks the retry and keeps the node; otherwise the front node goes to `recvTask` as its data task and is dropped |
| Mpeg2.Encoder.SubmitNodes | src/fpga/mpeg2/mpeg2_encoder.cc:70-86 | the drain sends exactly the first `min(nodes, free slots)` nodes, in order, through `recvTask`. It keeps the rest unchanged and in order, and marks the retry exactly when nodes remain |
| Mpeg2.Encoder.SendStop | src/fpga/mpeg2/mpeg2_encoder.cc:89-90 | passes the stop signal to `recvTask` and invalidates it, so it is sent at most once |
| Mpeg2.Encoder.SubmitStop | src/fpga/mpeg2/mpeg2_encoder.cc:88-91 | the stop signal is sent only when no node is left and it is valid, as the stop specification states |
| Mpeg2.Encoder.Submit | src/fpga/mpeg2/mpeg2_encoder.cc:68-92 | `submit` as written: the new bridge bookkeeping, nodes, stop signal, mark and `stalled` are `SubmitSpec` of the old ones, the drain followed by the unguarded stop path |
| Mpeg2.Encoder.RetryCallback | src/fpga/mpeg2/mpeg2_encoder.cc:61-66 | submits only when nodes wait and the stop signal is held: the new bookkeeping, nodes, stop signal, mark and `stalled` are `SubmitSpec` of the old ones then, and unchanged otherwise; counted, it is `RetryAsWritten` |
| Mpeg2.Encoder.BridgeRetryCallback | src/fpga/chimera/chimera.cc:453-464 | as written: with the mark clear nothing changes. With the mark set it fails, changing nothing, for a parent other than the encoder; otherwise the encoder's retry runs and the mark is cleared after it unless the retry spins. The new state is `CallbackSpec` of the old one; counted, it is `CallbackAsWritten` |
| Mpeg2.Encoder.RetryThenClear | src/fpga/chimera/chimera.cc:455-462 | the marked branch as written: the encoder's retry, then the mark cleared unless the retry spins; `CallbackSpec` of the old state, and counted `CallbackAsWritten` |
| Mpeg2.Encoder.GuardedSubmitStop | src/fpga/mpeg2/mpeg2_encoder.cc:88-91 | the corrected stop path: the stop signal goes only when `isFullAndMark` finds a free slot |
| Mpeg2.Encoder.GuardedSubmit | src/fpga/mpeg2/mpeg2_encoder.cc:68-92 | the corrected `submit`: the new state is the guarded `SubmitSpec` of the old one, and it never spins |
| Mpeg2.Encoder.GuardedRetry | src/fpga/mpeg2/mpeg2_encoder.cc:61-66 | the corrected retry: the new state is the guarded `SubmitSpec` of the old one; counted it is `SubmitGuarded`, and a held stop signal always has its mark afterwards |
| Mpeg2.Encoder.ParentRetryCallback | src/fpga/chimera/chimera.cc:453-464 | the corrected callback: with the mark set it fails, changing nothing, for a parent other than the encoder. Otherwise the new state is `GuardedCallbackSpec` of the old one (mark cleared, then the guarded `submit` when the stop signal is held); counted it is `Callback`, and it keeps "a held stop signal has its mark" |
| Mpeg2.Encoder.ClearThenRetry | src/fpga/chimera/chimera.cc:455-462 | the corrected marked branch: the mark is cleared first, then the guarded `submit` runs when the stop signal is held; `GuardedCallbackSpec` of the old state, counted `Callback`, and a held stop signal ends with its mark |
| Mpeg2.Encoder.FillNode | src/fpga/mpeg2/mpeg2_encoder.cc:124-134 | copies the write into the node at the pointer. The node address is that of the first write. When the pointer reaches 64 the node is pushed and pointer, address and buffer reset; otherwise the pointer advances by the write size |
| Mpeg2.Encoder.Accumulate | src/fpga/mpeg2/mpeg2_encoder.cc:123-139 | fails, changing nothing, when the write would run past the node. It pushes the node exactly when the pointer reaches 64, and then submits as `submit` is specified |
| Mpeg2.Encoder.HoldStop | src/fpga/mpeg2/mpeg2_encoder.cc:163-172 | stores the stop signal, pushes a partly filled node and resets the node buffer, pointer and address, then submits as `submit` is specified; the CDMA engine is untouched |
| Mpeg2.Encoder.WriteThrough | src/fpga/mpeg2/mpeg2_encoder.cc:141-154 | without the data-plane option a pixel write of 8 bytes goes to `recvTask` as one write task; other sizes fail |
| Mpeg2.Encoder.PassRegister | src/fpga/mpeg2/mpeg2_encoder.cc:173-176 | a start write to register 0 (bit 0 of byte 8) first enables the CDMA engine on the stream window, with one more outstanding task, and fails on an enabled engine; the task then takes the first free slot through `recvTask`, which spins (`stalled`) when none is free. Other writes leave the engine untouched |
| Mpeg2.Encoder.RegisterWrite | src/fpga/mpeg2/mpeg2_encoder.cc:156-177 | fails for more than 56 bytes, changing nothing. A stop write (register 0, bit 1 of byte 8) is held as the stop signal with the node buffer flushed, and the new state is `SubmitSpec` of the old one; any other register write keeps the node buffer, nodes and stop signal, and arms the engine and takes a slot as `PassRegister` states |
| Mpeg2.Encoder.StatusRead | src/fpga/mpeg2/mpeg2_encoder.cc:100-110 | fails unless the read is 8 bytes. The word has bit 0 set, bit 2 equal to `!CDMAStatus()`, and `CDMARemain()` in the upper bits |
| Mpeg2.Encoder.StreamRead | src/fpga/mpeg2/mpeg2_encoder.cc:111-115 | a stream read is the bridge's CDMA fetch, with its contract |
| Mpeg2.Encoder.ReadRequest | src/fpga/mpeg2/mpeg2_encoder.cc:97-118 | dispatches a read to the status register or the stream window, and fails for any other address or a wrong status size |
| Mpeg2.Encoder.WriteRequest | src/fpga/mpeg2/mpeg2_encoder.cc:119-177 | dispatches a write to the accumulator, the write-through path or the register path, with their failure conditions |
| Mpeg2.Encoder.VStatusRead | src/fpga/mpeg2/mpeg2_encoder.cc:201-211 | fails unless the read is 8 bytes. In Verilator mode the status word has bit 0 set, bit 2 equal to `m_last_signal`, and `m_wptr - m_rptr` in the upper bits |
| Mpeg2.Encoder.VStreamRead | src/fpga/mpeg2/mpeg2_encoder.cc:212-226 | a read of at most the buffered bytes returns the oldest bytes and consumes them, and resets both offsets to 0 when it drains the buffer. A larger read returns zeros and changes nothing |
| Mpeg2.Encoder.VPixelWrite | src/fpga/mpeg2/mpeg2_encoder.cc:232-256 | copies the write into the pixel group. Once 8 bytes are gathered it hands those 8 bytes to the model with `i_en` set and reset released, and resets pointer and address. A write past 8 bytes fails |
| Mpeg2.Encoder.VControlWrite | src/fpga/mpeg2/mpeg2_encoder.cc:257-268 | fails for more than 8 bytes. Register 0 drives reset from bit 0 of the written value, and sets the 64-bit sequence-stop pin to bit 1 kept in place (`value & 0x2`, so 0 or 2). Bit 0 clear resets `m_last_signal` and `m_stop_verilator`, and bit 2 set raises `m_stop_verilator` |
| Mpeg2.Encoder.VTick | src/fpga/mpeg2/mpeg2_encoder.cc:292-306 | an output beat is appended to the stream, `o_last` sets `m_last_signal`, and the model is rescheduled unless stopped; a beat past the buffer fails |
| Mpeg2.Encoder.VReadRequest | src/fpga/mpeg2/mpeg2_encoder.cc:199-229 | dispatches a Verilator-mode read to the status register or the stream, and fails for any other address |
| Mpeg2.Encoder.VWriteRequest | src/fpga/mpeg2/mpeg2_encoder.cc:230-276 | dispatches a Verilator-mode write to the pixel group or to register 0 or 8, and fails for any other address |

## Left out

- Ring: the bridge's free list and three queues are modelled as bounded sequences of capacity N, not as `Ring.RingBuffer` objects. Each asserted enqueue is proved to fit instead. The ring class is proved separately against the same sequence contract.
- Threads, mutexes, condition variables, waits, CPU pinning, `sleep` and thread joins are left out. Each loop body is one atomic step, and callers choose the order of steps.
- Busy-waits become preconditions or `stalled` results:
  - `Chimera.Chimera.RecvTask` requires a non-empty free list in place of the wait at `src/fpga/chimera/chimera.cc:371-373`;
  - the caller-side retry loop of the write-through path is one call that reports `stalled` when the table is full;
  - `Chimera.Chimera.FetchResp` reports `found == false` in place of its wait.
- Failed `assert`s become an `aborted` or `Abort` outcome that changes nothing. Asserts that enclose an operation are taken with the operation performed, and the success they assert is proved.
- `Chimera.Chimera.CollectStep` requires an honest device: a valid answer carries exactly one result, for a slot that is awaiting a response, as the batch threshold the constructor writes (`src/fpga/chimera/chimera.cc:60-63`) asks. The source trusts the device for this. An invalid answer may carry any batch.
- `Chimera.Chimera.ResponseStep` reports the parent's retry once, after the whole packet; the source calls `parentRetryCallback` inside the per-result loop, right after the first slot is freed (`src/fpga/chimera/chimera.cc:314-316`). For the one-result answers that `Chimera.HonestResponse` admits, the two orders differ only in the order of writes to disjoint data (the result, the completed list and the complete flag against the free list, the ingress queue and the records). `Slots.Inv` does not carry the one-result bound to the response queue.
- `Chimera.Chimera.constructor` and `Chimera.NewTable` require at most 128 slots, because slot ids are `int8_t` (`src/fpga/chimera/common.hh:38`); the source takes any table size and would wrap larger ids.
- `Cdma.CDMA.ExecuteStep` and `Chimera.Chimera.CdmaCollectStep` require a batch of at most 3; for a larger batch the copy loop at `src/fpga/chimera/cdma.cc:50` reads past `m_results[3]`.
- `Mpeg2.Encoder.constructor` requires that the data-plane option and Verilator mode are not both set; the source asserts this at `src/fpga/mpeg2/mpeg2_encoder.cc:37`.
- `Mpeg2.SizeWrite` and `Mpeg2.Encoder.VControlWrite` report failure for a write of more than 8 bytes, where the source's `memcpy` overruns a `uint64_t` (`src/fpga/mpeg2/mpeg2_encoder.cc:259` and `:271`).
- `Mpeg2.Encoder.RegisterWrite` reports failure for more than 56 bytes, where the source's `memcpy` overruns the task content (`src/fpga/mpeg2/mpeg2_encoder.cc:161`).
- `Mpeg2.Encoder.VTick` reports failure for a beat past the output buffer, where the source writes past `m_buffer` (`src/fpga/mpeg2/mpeg2_encoder.cc:296`).
- `Cdma.CDMA.ExecuteStep` models one iteration of the engine's endless loop. It reports a payload that would run past the 0x200000-byte buffer as `overrun`, where the source would overflow. The per-result debug print is left out.
- The parent retry is composed by the caller. The bridge's steps report `retry` where the source calls `parentRetryCallback`, and the caller then runs `Mpeg2.Encoder.BridgeRetryCallback` (as written) or `Mpeg2.Encoder.ParentRetryCallback` (corrected). The bridge module does not know the encoder type.
- `Chimera.Chimera.AuxShutdownStep` models the build with the Chimera trace flag off. There the loop at `src/fpga/chimera/chimera.cc:349` never ends on a non-empty free list, because its only `dequeue` is an argument of a trace macro that is not evaluated. With the flag on, the loop instead dequeues every free id to print it, so the free list stays empty and later `recvTask` calls spin; that build is not modelled.
- `Wire.FillData` reports an abort for more than 64 bytes, where the source's `memcpy` overruns `m_content` without a check (`src/fpga/chimera/common.hh:121` and `:125`).
- Device I/O (`dev_read`/`dev_write`, the device's initial configuration writes), statistics registration, log printing and `printBatchRecord` are left out. The statistics are plain integer accumulators.
- `Chimera.AccountAllCounts` states the exact growth of `handleCount` only; for the four interval sums it states only that they never shrink. Each interval is the wrapped unsigned 64-bit difference, as the source computes it. The sums themselves are unbounded, so the wrap-around of the source's 64-bit accumulators is not modelled.
- Timestamps and cycle counts are arbitrary `uint64` inputs, and their monotonicity is not assumed.
- The copy at `src/fpga/chimera/common.hh:239` (`&m_data + index * TASK_DATA_SIZE`) is modelled only by its address and size bookkeeping: the data packet's buffer keeps its data for a later index. The bridge only ever uses index 0.
- Bytes are integers 0..255, and all bit tests and bit updates of the flag byte and status word are written arithmetically.
- The encoder's uninitialised node buffer is modelled as zeros, so fresh buffers after a push are zeros too.
- The gem5 ports, packet queueing, timing responses, stalled-packet retry and event scheduling are left out. A request is its address, size and bytes, and `VTick` returns whether the model would be rescheduled.
- A null bridge pointer (`m_chimera` absent) is not modelled; the encoder always has a bridge.
- The RTL model (`Wrapper_mpeg2`) is not part of this model. Its tick output is an input of `Mpeg2.Encoder.VTick`, and pixel and control writes return the input pins they would set.
- `Mpeg2.Encoder.ReadRequest`, `Mpeg2.Encoder.WriteRequest`, `Mpeg2.Encoder.VReadRequest` and `Mpeg2.Encoder.VWriteRequest` state only which path is taken and when it fails. The path's own method states what it does.
- `Mpeg2.Received` does not state the lifecycle and table updates of a run of `recvTask` calls. `Mpeg2.ReceivedKeepsInv` states only that they keep the invariant.

## Findings

| source | as written | input that shows it | evidently intended | confidence | as-written member | corrected member |
|---|---|---|---|---|---|---|
| src/fpga/chimera/chimera.cc:453-464 | `parentRetryCallback` clears `m_parent_retry` after the parent's retry ran. The retry's own `isFullAndMark` may have just set it again. The encoder also retries only while data nodes remain (`src/fpga/mpeg2/mpeg2_encoder.cc:63`) | two data nodes behind a held stop signal, one free slot, mark set: one node is sent, the table is full again, and the mark is cleared, so the other node and the stop signal are never retried | clear the mark before the retry, and retry a held stop signal even when no node is left | not executed | Mpeg2.CallbackLosesMark, Mpeg2.Encoder.BridgeRetryCallback | Mpeg2.CallbackKeepsMark, Mpeg2.Encoder.ParentRetryCallback |
| src/fpga/mpeg2/mpeg2_encoder.cc:88-89 | the stop signal is passed to `recvTask` without asking `isFullAndMark` for a free slot, and `recvTask` busy-waits for one | one data node behind a held stop signal, one free slot, reached from the retry callback on the submit stage (`src/fpga/chimera/chimera.cc:163` or `:184`), where every encoder slot is released, since the encoder sends only data tasks and writes that need no response: the node takes the slot and the stop signal spins inside the submit stage. No other stage frees an encoder slot, so the spin never ends | send the stop signal only when a slot is free; otherwise keep it and mark the retry | not executed | Mpeg2.CallbackSpins, Mpeg2.Encoder.Submit | Mpeg2.GuardedAgrees, Mpeg2.Encoder.GuardedSubmit |
| src/fpga/chimera/chimera.cc:345-349 | once shutdown is requested, every pass that does not stop the collect stage loops `while (!m_idleTaskTableID.isEmpty())`, and the loop's only `dequeue` sits in the arguments of `DPRINTF`, which are evaluated only with the Chimera trace flag on | two free slots and one task received and dispatched when `simExit` runs: the valid-slot counter is below N and one slot is free, so the auxiliary stage never leaves the loop, and neither the busy slot's completion nor the shutdown of the other stages follows | trace the remaining free ids without looping on them or removing them, and keep polling | not executed | Chimera.ShutdownHangsAfterDispatch, Chimera.Chimera.AuxShutdownStep | Chimera.Chimera.IntendedAuxShutdownStep |
