# dxwifi and wifibroadcast: verified models

Dafny models of the parts of the repository that carry its guarantees, with proofs that hold for all inputs, all runs
and all reachable states. Four components are modelled, each from the arithmetic up to its end-to-end promise.

**The erasure code and the block protocol** of wifibroadcast. The tables of GF(2^8), the block operations, the in-place
Gauss-Jordan inversion with full pivoting, encoding with a Cauchy matrix, and decoding; the sender that interleaves data
and FEC packets, and the receiver with its sliding window of block buffers. Modules, from the bottom:
`GaloisField`, `GaloisTables`, `GaloisVectors`, `Matrices`, `InversionSpec`, `FlatMatrix`, `MatrixInversion`, `Cauchy`,
`ErasureCodeSpec`, `ErasureCode`, `Interleaving`, `BlockProtocol` (the receiver as a state machine), `BlockRuns` (what
every run keeps), `Arrivals` (which blocks and packets are held, told from what arrives), `Deliveries` (what is written), `PacketCounts`,
`PayloadHeader`, `BlockReceiver` (process_payload on its buffers), `Transmitter`, `EndToEnd`.

**The reordering receiver** of dxwifi. The generic binary heap and heap sort, the packet buffer drained through the heap,
gap filling and loss counting, and the chunks of a transmission. Modules: `HeapOrder`, `BinaryHeap`, `FrameOrder`,
`CaptureSpec`, `CaptureRuns`, `CapturedFrames` (what is queued, told from what is captured), `StraddlingCapture`,
`FrameControl`, `CaptureSession`, `OrderedDelivery`.

**The radiotap iterator**: `RadiotapLayout` (the layout as a walk over the bits), `RadiotapWalks`, `RadiotapSingleWord`,
`RadiotapBytes` (words and numbers told from the bytes), `RadiotapVendors`, `RadiotapUnset` (when a position is used
that was never set), `RadiotapScan` (several present words), `RadiotapIterator`.

**Exact arithmetic and framing**: the table-driven CRC-32 (`CrcSteps`, `CrcTable`, `Crc32`), the generator of RFC 5170
(`ParkMiller`), the block partition of RFC 5052 and the symbol tables and transmission orders built on it (`Partition`,
`SymbolTables`, `TransmissionOrder`), and dxwifi's message framing with the two codes left abstract (`MessageFraming`,
`MessageCoding`, `MessageDecoding`, `MessageRoundTrip`).

Code that changes state is modelled by classes and methods on arrays, each tied to a specification function; what is
promised is then proved about the specification. `Bytes`, `ByteOrder`, `Memory`, `Counters`, `Sequences`, `Options` and
`Arithmetic` hold conversions, memcpy, 32 bit counters, and what several modules need of sequences, missing values and
numbers.

Some proofs treat byte and word operations through functions chosen to equal them (`GaloisField.Machine`,
`GaloisField.Multiplier`, `CrcSteps.Machine`): the verifier then reasons about the laws that are proved of these
operations instead of about their bits.

## Where the code falls short of its documentation

- `heap.h` asks comparators for a partial order. That is enough to restore a subtree, but pushes can break the heap
  (`HeapOrder.PartialOrderBreaksPush`). `HeapOrder.PushesKeepHeapsIffSafe` tells exactly for which partial orders no push
  does; strict weak orders are among them, and others (`HeapOrder.SafeNeedNotBeWeak`). That nothing in a heap comes
  before its root holds exactly for strict weak orders (`HeapOrder.RootsComeFirstIffWeak`).
- The radiotap iterator can use the start of a next namespace that was never set. `RadiotapUnset.UndefinedIff` tells by a
  scan of the present words exactly for which headers it does; callers have to rule these out.
- A block whose first packet arrives after a packet of a later block is dropped by the wifibroadcast receiver
  (`Arrivals.OvertakenIsDropped`), and a packet far enough below the highest block is taken for a restart.
  `Arrivals.KnownIffLeads` tells exactly which blocks are buffered or decoded, and `Deliveries.EveryDelivery` exactly what
  is written, for every run.
- The dxwifi receiver orders frames by a number it reads as 32 bits with a sign. Without frame numbers, frames are
  written in order of arrival if and only if no buffer window straddles the point where the count turns negative
  (`CaptureRuns.ArrivalOrder`); `StraddlingCapture.OutOfOrder` is a run that does. With frame numbers, sorted frames are
  in the order of sending if and only if the count does not turn between the first and the last of them
  (`OrderedDelivery.SendingOrderIff`, `OrderedDelivery.TurnedFrames`).
- A frame whose errors cannot be corrected still has its symbol handed to the erasure code, unless the number it names is
  too large. `MessageRoundTrip.ComesBackIff` tells exactly for which frames the message comes back whatever lawful
  erasure code answers, and `MessageRoundTrip.OneBadFrameSpoils` shows for any codes and any message that one frame hit
  behind its header, next to the same frame as it was sent, is too much.

## Model

| member | source | states |
|---|---|---|
| `GaloisField.AlphaHasOrder255` | archive/rootfs/root/wifibroadcast/fec.c:143-257 | no power of alpha below the 255th is 1: x is primitive modulo x^8+x^4+x^3+x^2+1, so the exponent table has no repetition |
| `GaloisField.LogExists` | archive/rootfs/root/wifibroadcast/fec.c:224-257 | every nonzero byte is a power of alpha, so the logarithm table is filled everywhere |
| `GaloisField.MulAssoc` | archive/rootfs/root/wifibroadcast/fec.c:161-179 | the product the tables hold is associative |
| `GaloisField.MulCommutes` | archive/rootfs/root/wifibroadcast/fec.c:161-179 | ... and commutative |
| `GaloisField.MulAddRight` | archive/rootfs/root/wifibroadcast/fec.c:161-183 | ... and distributes over xor, which is the addition of the block operations |
| `GaloisField.InverseUnique` | archive/rootfs/root/wifibroadcast/fec.c:142-143 | an element has only one inverse, and 0 has none |
| `GaloisTables.Modnn` | archive/rootfs/root/wifibroadcast/fec.c:149-157 | the loop computes the remainder modulo 255 without a division |
| `GaloisTables.Tables.constructor` | archive/rootfs/root/wifibroadcast/fec.c:186-672 | after fec_init the exponent, logarithm, inverse and product tables hold exactly the field's values, for every entry |
| `GaloisTables.Tables.GenerateHighPowers` | archive/rootfs/root/wifibroadcast/fec.c:250-257 | shifting with the conditional xor produces every power of alpha below the 255th, and its logarithm |
| `GaloisTables.Tables.GenerateInverses` | archive/rootfs/root/wifibroadcast/fec.c:271-276 | each inverse read off the exponent table is the field inverse; 0 for 0 and 1 for 1 |
| `GaloisTables.Tables.InitMulTable` | archive/rootfs/root/wifibroadcast/fec.c:186-196 | all 65536 products, those with a zero factor included |
| `GaloisTables.Tables.GfMul` | archive/rootfs/root/wifibroadcast/fec.c:179-184 | a lookup is the product of the two field elements |
| `GaloisVectors.AddMul1` | archive/rootfs/root/wifibroadcast/fec.c:299-336 | the loop unrolled 16 times adds c times the source to every byte of the destination and to no other byte, for every length |
| `GaloisVectors.AddMul` | archive/rootfs/root/wifibroadcast/fec.c:404-421 | the same with the shortcut for c = 0 |
| `GaloisVectors.MulBlock` | archive/rootfs/root/wifibroadcast/fec.c:425-538 | every byte of the destination becomes c times the source, also for c = 0 |
| `Matrices.PivotPreservesSystem` | archive/rootfs/root/wifibroadcast/fec.c:596-643 | an elimination step on a pivot keeps the solutions of the system with the pivot's input and output exchanged |
| `InversionSpec.InverseTimesMatrix` | archive/rootfs/root/wifibroadcast/fec.c:541-660 | the result times the matrix, and the matrix times the result, have the identity's entries |
| `MatrixInversion.FindPivot` | archive/rootfs/root/wifibroadcast/fec.c:568-595 | the diagonal first, then any nonzero entry of an unused row and column; fails only if there is none |
| `MatrixInversion.PivotStep` | archive/rootfs/root/wifibroadcast/fec.c:609-643 | normalising the pivot row and clearing its column, with the shortcut for an identity row, is one exchange step |
| `MatrixInversion.Unscramble` | archive/rootfs/root/wifibroadcast/fec.c:645-656 | swapping columns back in reverse order undoes the row swaps |
| `MatrixInversion.InvertMat` | archive/rootfs/root/wifibroadcast/fec.c:541-660 | for every k by k matrix: 0 is returned exactly if the matrix is not singular, and then the array holds the two-sided inverse; if no leading part is singular no row is ever swapped |
| `Cauchy.KernelIsZero` | archive/rootfs/root/wifibroadcast/fec.c:791-799 | with distinct points on both sides a Cauchy system has only the zero solution |
| `Cauchy.CauchyIsRegular` | archive/rootfs/root/wifibroadcast/fec.c:874-887 | no leading part of a Cauchy matrix is singular: every diagonal pivot is nonzero |
| `ErasureCodeSpec.SmallMatrixIsRegular` | archive/rootfs/root/wifibroadcast/fec.c:864-904 | this holds for every choice of erased blocks and FEC blocks, so the matrix that resolve inverts never fails and assert(0) is unreachable |
| `ErasureCodeSpec.CoefficientInverts` | archive/rootfs/root/wifibroadcast/fec.c:791-829 | the coefficient of a data block in a FEC block is the field inverse of the xor of the data block's number and 128 plus the FEC block's |
| `ErasureCodeSpec.ErasedDetermined` | archive/rootfs/root/wifibroadcast/fec.c:774-800 | two blocks that agree on the data kept and on as many FEC blocks as there are erasures are equal |
| `ErasureCode.FecEncode` | archive/rootfs/root/wifibroadcast/fec.c:774-800 | every FEC block holds the sum of the data blocks with the Cauchy coefficients, byte by byte; without data blocks nothing is written |
| `ErasureCode.Reduce` | archive/rootfs/root/wifibroadcast/fec.c:808-835 | the walk beside the erasures takes exactly the blocks that were not erased out of the FEC blocks, and passes every erasure |
| `ErasureCode.BuildInverse` | archive/rootfs/root/wifibroadcast/fec.c:864-904 | the submatrix of erased columns and present rows is built and inverted without failure and without a row swap |
| `ErasureCode.FecDecode` | archive/rootfs/root/wifibroadcast/fec.c:917-948 | whatever the erased buffers held, they end with the only contents that agree with the FEC blocks received; all other data blocks keep every byte |
| `ErasureCode.EncodeLoseDecode` | archive/rootfs/root/wifibroadcast/fec.c:774-948 | encoding, overwriting any erased blocks and decoding with any equally many FEC blocks restores every data block byte for byte |
| `Interleaving.SlotsAreBijective` | archive/rootfs/root/wifibroadcast/tx_rawsock.c:316-351 | each position of a block is taken by exactly one data or FEC packet |
| `Interleaving.Alternation` | archive/rootfs/root/wifibroadcast/tx_rawsock.c:311-351 | data packets take the even positions and FEC packets the odd ones while both remain, and the rest of one kind follows |
| `Interleaving.NumberOfPacket` | archive/rootfs/root/wifibroadcast/rx.c:192-382 | dividing the sequence number gives back the block and the position the sender numbered |
| `BlockProtocol.OldestIsLeast` | archive/rootfs/root/wifibroadcast/rx.c:219-226 | the buffer chosen for replacement has the smallest block number |
| `BlockProtocol.RecoveryUnique` | archive/rootfs/root/wifibroadcast/rx.c:301-335 | the packets of a recoverable block allow only one choice of data blocks |
| `BlockProtocol.PayloadBytes` | archive/rootfs/root/wifibroadcast/rx.c:337-343 | what is written of a data block are the bytes behind its header, as many as the header says but no more than the packet length |
| `BlockRuns.StepWindow` | archive/rootfs/root/wifibroadcast/rx.c:198-392 | one packet keeps the buffered numbers distinct, the maximum right and the order of decoding increasing, across restarts |
| `BlockRuns.FirstStays` | archive/rootfs/root/wifibroadcast/rx.c:378-391 | without a restart, a packet present in a block that stays buffered keeps its bytes, whatever arrives later for the same place |
| `BlockRuns.NewIsStored` | archive/rootfs/root/wifibroadcast/rx.c:371-391 | a packet of a buffered block that is not present yet is put in its place, byte for byte |
| `BlockRuns.EveryRun` | archive/rootfs/root/wifibroadcast/rx.c:198-391 | after every run of any packets: buffered numbers other than -1 are distinct, max_block_num is their maximum, blocks are decoded in strictly increasing order since the last restart, and the counters are the true counts modulo 2^32 with every packet of a decoded block counted as received or lost |
| `PacketCounts.PacketsAddUp` | archive/rootfs/root/wifibroadcast/rx.c:275-332 | after every run of packets with 32 bit sequence numbers, no counter has wrapped since the last restart: received packets are those that arrived of the decoded blocks, received and lost packets add up exactly to all packets of these blocks, and damaged blocks are those with fewer packets than a block has data packets |
| `PacketCounts.RestartsAreCounted` | archive/rootfs/root/wifibroadcast/rx.c:198-201 | after every run the number of restarts is that of the packets whose block lay more than 128 windows below the highest one since the restart before, modulo 2^32 |
| `PacketCounts.FarBelowRestarts` | archive/rootfs/root/wifibroadcast/rx.c:198-230 | after such a packet its block is the only one buffered, and none has been decoded since |
| `BlockRuns.GenuineIsRecovery` | archive/rootfs/root/wifibroadcast/rx.c:301-335 | if everything received of a block was sent, decoding gives the data sent |
| `BlockRuns.EveryGenuineRun` | archive/rootfs/root/wifibroadcast/rx.c:244-355 | after every run of genuine packets, lost, repeated or reordered in any way, the output is exactly the payloads of the recoverable blocks and the received payloads of the others, in order of decoding |
| `BlockReceiver.PacketBuffer.Fill` | archive/rootfs/root/wifibroadcast/rx.c:385-391 | a packet is copied over the start of its buffer, the bytes behind it stay what they were, and the buffer is marked valid |
| `BlockReceiver.BlockBuffer.Split` | archive/rootfs/root/wifibroadcast/rx.c:245-260 | the slots of a block are sorted into data and FEC packets as they were interleaved, and the missing ones counted |
| `BlockReceiver.Pair` | archive/rootfs/root/wifibroadcast/rx.c:298-324 | missing data packets are paired with received FEC packets in order, as many as both allow |
| `BlockReceiver.OldestBuffer` | archive/rootfs/root/wifibroadcast/rx.c:219-226 | the search returns the first buffer with the smallest number |
| `BlockReceiver.FindBuffer` | archive/rootfs/root/wifibroadcast/rx.c:371-377 | the search returns the first buffer of the block, or the number of buffers |
| `BlockReceiver.DecodePackets` | archive/rootfs/root/wifibroadcast/rx.c:244-355 | the bytes written for a block: every payload if it is recoverable, otherwise those of the packets received, and how many packets are missing |
| `BlockReceiver.Receiver.EvictBlock` | archive/rootfs/root/wifibroadcast/rx.c:233-364 | decoding, counting, writing and clearing a buffer is one step of the state machine |
| `BlockReceiver.Receiver.Restart` | archive/rootfs/root/wifibroadcast/rx.c:198-216 | a restart resets all counters but the number of restarts and empties all buffers; max_block_num stays until the next block is admitted |
| `BlockReceiver.Receiver.ProcessPayload` | archive/rootfs/root/wifibroadcast/rx.c:181-394 | process_payload on its buffers does exactly one step of the state machine, for every packet and every state |
| `Arrivals.OldestIsInTurn` | archive/rootfs/root/wifibroadcast/rx.c:219-226 | blocks take the buffers in turn while no block is skipped |
| `Arrivals.LeadersLead` | archive/rootfs/root/wifibroadcast/rx.c:198-225 | the blocks that get a buffer are those of which a packet arrived before any packet of a later block |
| `Arrivals.EveryArrival` | archive/rootfs/root/wifibroadcast/rx.c:181-394 | after every run of any packets: since the last restart, the last of these blocks are buffered and all before them have been decoded in order, each with exactly the packets that arrived while it was in the window |
| `Arrivals.KnownIffLeads` | archive/rootfs/root/wifibroadcast/rx.c:198-225 | a block is buffered or decoded since the last restart if and only if a packet of it arrived before any packet of a later block |
| `Arrivals.OvertakenIsDropped` | archive/rootfs/root/wifibroadcast/rx.c:371-382 | a block whose first packet is overtaken by one of a later block is neither buffered nor decoded |
| `Deliveries.RecoverableIffEnough` | archive/rootfs/root/wifibroadcast/rx.c:326-326 | a block can be reconstructed exactly if at least as many of its packets, of either kind, are present as it has data packets |
| `Deliveries.EveryDelivery` | archive/rootfs/root/wifibroadcast/rx.c:181-394 | for every run of genuine packets, restarts included, the output is told from which packets arrived when: whole blocks where enough packets were kept, the payloads received of the others, in order |
| `Deliveries.LeadersDelivered` | archive/rootfs/root/wifibroadcast/rx.c:244-355 | without a restart, and if enough packets of each block that left the window were kept, the output is these blocks, whole and in order, whatever other blocks were lost |
| `Deliveries.StreamDelivered` | archive/rootfs/root/wifibroadcast/rx.c:181-394 | if moreover no block was overtaken, the output is the payloads of all blocks that left the window |
| `PayloadHeader.WriteLength` | archive/rootfs/root/wifibroadcast/tx_rawsock.c:606-606 | the length field holds the length written |
| `PayloadHeader.ReadLength` | archive/rootfs/root/wifibroadcast/rx.c:337-343 | the four bytes are the digits of the length to base 256, the lowest first |
| `Transmitter.SendFec` | archive/rootfs/root/wifibroadcast/tx_rawsock.c:336-350 | FEC packets are left out at odd places while skipfec lasts |
| `Transmitter.LeftOutIff` | archive/rootfs/root/wifibroadcast/tx_rawsock.c:311-351 | a packet of a block is left out if and only if it is a FEC packet that comes up while skipfec lasts, after an odd number of FEC packets that did |
| `Transmitter.SendInterleaved` | archive/rootfs/root/wifibroadcast/tx_rawsock.c:311-351 | the packets of a block: all data packets and the FEC packets not skipped, alternating, under consecutive sequence numbers |
| `Transmitter.Sender.TransmitBlock` | archive/rootfs/root/wifibroadcast/tx_rawsock.c:289-384 | the packets of a complete block are appended to those sent, the sequence number advances by the packets of a block, skipped ones included, and the buffers are fresh again |
| `Transmitter.Sender.Feed` | archive/rootfs/root/wifibroadcast/tx_rawsock.c:575-620 | every byte read joins the open packet; the packet is closed if and only if it then has the minimum length; closing one opens the next buffer, and closing the last one sends exactly one block, whose packets hold the bytes of its buffers, with skipfec at its value for that block |
| `EndToEnd.TransmissionsAre` | archive/rootfs/root/wifibroadcast/tx_rawsock.c:311-384 | exactly the data packets and the FEC packets not skipped are sent, each with its number and content |
| `EndToEnd.NumbersAscend` | archive/rootfs/root/wifibroadcast/tx_rawsock.c:311-384 | sequence numbers only grow, so none is used twice |
| `EndToEnd.FedIsWritten` | archive/rootfs/root/wifibroadcast/tx_rawsock.c:289-384 | for every link: what is written is told from which packets arrived when; if all came in time it is whole blocks in order, and if no block was overtaken it is the beginning of what the sender was fed, up to the last finished block |
| `EndToEnd.ReceiveAll` | archive/rootfs/root/wifibroadcast/rx.c:397-518 | a fresh receiver that takes packets one by one ends where the run over them ends |
| `EndToEnd.WrittenIsFed` | archive/rootfs/root/wifibroadcast/rx.c:181-394 | sender and receiver objects together: the same of the bytes written and fed |
| `HeapOrder.SiftDownRestores` | libdxwifi/details/heap.c:32-47 | heapify restores the order of a subtree, for every strict partial order |
| `HeapOrder.SiftUpRestores` | libdxwifi/details/heap.c:84-87 | sifting up restores the order, for every strict partial order that is safe for pushes |
| `HeapOrder.PushesKeepHeapsIffSafe` | libdxwifi/details/heap.c:73-91 | a strict partial order keeps every heap under every push if and only if a before g implies a before p or p before g whenever some x is before both p and g |
| `HeapOrder.SafeNeedNotBeWeak` | libdxwifi/details/heap.h:20-25 | an order that is not weak and for which no push breaks a heap |
| `HeapOrder.RootsComeFirstIffWeak` | libdxwifi/details/heap.c:94-110 | a strict partial order gives heaps whose root nothing comes before if and only if it is a strict weak order |
| `HeapOrder.PartialOrderBreaksPush` | libdxwifi/details/heap.h:20-25 | the partial order asked for in the header is not enough: an order and a heap for which a push leaves a child before its parent |
| `BinaryHeap.Heapify` | libdxwifi/details/heap.c:32-47 | the recursion in place does what sifting down does on the sequence |
| `BinaryHeap.Heap.Push` | libdxwifi/details/heap.c:73-91 | for every order, the element joins the heap and nothing else changes, and a full heap is left alone; a heap stays a heap if the order is safe for pushes |
| `BinaryHeap.Heap.Pop` | libdxwifi/details/heap.c:94-110 | for every order, the root is taken out and all others stay, and an empty heap is left alone; for a strict partial order a heap stays a heap, and for a strict weak order nothing in it came before the element taken |
| `BinaryHeap.HeapSort` | libdxwifi/details/heap.c:113-133 | a permutation for every order and at least one element; no earlier element comes before a later one for every strict weak order |
| `FrameOrder.LossTelescopes` | libdxwifi/receiver.c:335-362 | the losses of a drain add up to the span of the numbers less the frames, even if numbers repeat |
| `FrameOrder.DrainedFillsGaps` | libdxwifi/receiver.c:337-362 | a drain of increasing numbers writes one block for every number of the range, noise or nothing for the missing ones |
| `FrameOrder.IncreasingUnique` | libdxwifi/receiver.c:337-362 | there is only one increasing order of given frames |
| `CaptureRuns.EveryRun` | libdxwifi/receiver.c:485-543 | after every run, what was queued is drained or pending, each drain took one window of arrivals sorted by number, and output and counters tell of just that |
| `CaptureRuns.FlushWritesAll` | libdxwifi/receiver.c:698-698 | after the final flush every queued frame has been written exactly once, and total_writelen is the payload size times num_packets_processed, modulo 2^32 |
| `CaptureRuns.ArrivalOrder` | libdxwifi/receiver.c:522-524 | without frame numbers the frames are written in order of arrival, across all drains, if and only if no buffer window straddles the highest 32 bit number |
| `CaptureRuns.ShortRunsKeepOrder` | libdxwifi/receiver.c:522-524 | no window does in a run of up to 2^31 frames |
| `StraddlingCapture.OutOfOrder` | libdxwifi/receiver.c:522-524 | a run of 2^31 + 1 frames whose last two bytes are written the wrong way round |
| `CaptureRuns.EndsIff` | libdxwifi/receiver.c:282-319 | a capture is to end if and only if an end of transmission was seen, or a preamble when the count of frames was not 0 |
| `CaptureRuns.FlagsTell` | libdxwifi/receiver.c:282-319 | the two flags tell whether an end of transmission, and whether a preamble, was ever seen |
| `CapturedFrames.ArrivedAre` | libdxwifi/receiver.c:485-539 | the frames queued are exactly the payloads of the right size captured, in order: with frame numbers each under the number in its header, otherwise under the count of arrivals |
| `CapturedFrames.EndsAsTold` | libdxwifi/receiver.c:282-319 | the receiver is to end exactly if the captures told it to, the count of frames being that of the frames captured |
| `CapturedFrames.ToldStays` | libdxwifi/receiver.c:282-319 | what told the receiver to end is never taken back by later captures |
| `CapturedFrames.WindowsAre` | libdxwifi/receiver.c:511-541 | the frames drained together are those captured between two times at which the bytes captured left no room for another payload |
| `CapturedFrames.UnorderedCapture` | libdxwifi/receiver.c:485-541 | end to end without frame numbers: up to 2^31 frames are written as they were captured, over any number of drains |
| `CaptureRuns.DumpCountsLoss` | libdxwifi/receiver.c:342-355 | total_blocks_lost grows by the highest number less the lowest plus one less the number of frames, repeated frames included |
| `CaptureRuns.DumpCountsNoise` | libdxwifi/receiver.c:342-352 | total_noise_added grows by the payload size for every number missing, if noise is to be added, and not otherwise |
| `CaptureRuns.DumpFillsGaps` | libdxwifi/receiver.c:337-362 | a drain without repeated numbers writes the blocks from the lowest to the highest number, with one noise block for every missing number if noise is to be added |
| `FrameControl.RoomInHeap` | libdxwifi/receiver.c:28-514 | the buffer runs out of room before the heap does, so no push is ever dropped |
| `FrameControl.DrainedNodes` | libdxwifi/receiver.c:337-362 | the nodes leaving the heap stand for the buffered frames, sorted by number |
| `FrameControl.CopyKeepsFrames` | libdxwifi/receiver.c:517-520 | a payload copied into the next slot leaves all queued payloads as they are |
| `FrameControl.FrameController.DumpPacketBuffer` | libdxwifi/receiver.c:330-364 | the drain loop with its noise and its counters does what draining the sorted frames does, and the buffer is empty afterwards |
| `FrameControl.FrameController.Enqueue` | libdxwifi/receiver.c:517-536 | the queued nodes keep pointing at disjoint slots inside the buffer that hold the payloads as they arrived |
| `FrameControl.FrameController.ProcessFrame` | libdxwifi/receiver.c:485-543 | process_frame on its buffer and heap does exactly one step of the state machine |
| `CaptureSession.ActivateCapture` | libdxwifi/receiver.c:662-698 | batches are processed until the first one after which the captures have told the receiver to end, or all of them, and no more; the rest of the buffer is flushed |
| `CaptureSession.AttachFrameNumber` | dxwifi/tx/tx.c:236-242 | the count goes into the last four bytes of the first address, the most significant first, and the receiver's extraction gives it back as a signed number |
| `CaptureSession.TransmitBytes` | libdxwifi/transmitter.c:533-562 | the data is cut into chunks, the last one filled up with zeros, each with the number the receiver reads in its header |
| `CaptureSession.TransmissionCarriesData` | libdxwifi/transmitter.c:533-562 | the chunks together are the data followed by less than one chunk of zeros |
| `OrderedDelivery.OrderedCapture` | libdxwifi/receiver.c:335-362 | end to end over any number of drains, told from the captures: if the frames that share the buffer were sent once each, in any order, and the 32 bit count does not turn among them, then for each such group the blocks sent from its first to its last are written, in order, with noise for the missing ones |
| `OrderedDelivery.ReassembledByte` | libdxwifi/receiver.c:342-358 | with noise, byte j of the m-th frame from the first received on is at m payloads plus j: its own byte, or the noise value if it was lost |
| `OrderedDelivery.CaptureInOrder` | libdxwifi/receiver.c:330-362 | up to 2^31 frames that all arrive in order are written as they were sent, however often the buffer runs full |
| `OrderedDelivery.SendingOrderIff` | libdxwifi/receiver.c:67-72 | frames sorted by number are in the order of sending if and only if the count does not turn between the first and the last of them |
| `OrderedDelivery.TurnedFrames` | libdxwifi/receiver.c:522-524 | of the frames 2^31 - 1 and 2^31 the later one is written first |
| `OrderedDelivery.WholeCapture` | libdxwifi/receiver.c:485-541 | a transmission that fits the buffer and of which every frame is captured once, in any order, is written as it was sent |
| `RadiotapLayout.AlignUpIsLeast` | libdxwifi/details/radiotap.c:278-282 | a position is moved to the next multiple of the alignment and no further |
| `RadiotapLayout.StepAdvances` | libdxwifi/details/radiotap.c:219-371 | every round stays inside the present words and uses up one bit, also across extended words |
| `RadiotapBytes.NumberBytes` | libdxwifi/details/radiotap.c:114-118 | the two bytes of a length are its digits to base 256, the lowest first |
| `RadiotapBytes.OuiBytes` | libdxwifi/details/radiotap.c:289-292 | the three bytes of an OUI are its digits, the highest first |
| `RadiotapBytes.WordBytes` | libdxwifi/details/radiotap.c:118-160 | the four bytes of a present word are its digits to base 256, the lowest first |
| `RadiotapBytes.PresentBit` | libdxwifi/details/radiotap.c:118-160 | bit 8i + j of a present word is bit j of its i-th byte |
| `RadiotapBytes.BitIsDigit` | libdxwifi/details/radiotap.c:219-230 | shifting right b times and looking at the lowest bit tells the bit of 2^b |
| `RadiotapSingleWord.AllFields` | libdxwifi/details/radiotap.c:28-46 | with the bits 0 to 17 set the fields lie side by side, at the positions and with the sizes of the table |
| `RadiotapSingleWord.LateFields` | libdxwifi/details/radiotap.c:47-49 | the fields 19 to 21 lie at 8, 12 and 20 |
| `RadiotapVendors.UnregisteredVendor` | libdxwifi/details/radiotap.c:281-340 | a vendor namespace that no registered one matches is one field, from the even position on: six bytes and as many as the last two of them say, and it is refused if it does not fit |
| `RadiotapVendors.RegisteredVendor` | libdxwifi/details/radiotap.c:281-340 | otherwise the first that matches OUI and sub-namespace is entered behind the six bytes, and the next namespace begins behind the data announced |
| `RadiotapVendors.CutVendor` | libdxwifi/details/radiotap.c:281-287 | a header without room for the six bytes is refused |
| `RadiotapVendors.UnknownVendorField` | libdxwifi/details/radiotap.c:246-262 | a field the registered namespace does not define ends what is read of it: nothing more of the word is found, and the walk goes on where the namespace was announced to end |
| `RadiotapVendors.KnownVendorField` | libdxwifi/details/radiotap.c:253-323 | a field it defines lies at the next multiple of its alignment and is refused if it does not fit |
| `RadiotapVendors.RadiotapAgain` | libdxwifi/details/radiotap.c:320-345 | bit 29 goes back to the radiotap namespace at the position reached, not at the announced end of a vendor namespace |
| `RadiotapVendors.NextPresentWord` | libdxwifi/details/radiotap.c:347-359 | bit 31 goes on to the next word, where the fields are numbered from 0 if a namespace began in this word and on from this word otherwise |
| `RadiotapWalks.EveryHeader` | libdxwifi/details/radiotap.c:216-373 | for every accepted header: each field lies behind the present words and inside the declared length; no position is used before it is set if no word combines bit 18 with a namespace bit or an extension; and then, without registered vendors, the fields do not overlap and come in order |
| `RadiotapSingleWord.SingleWordLayout` | libdxwifi/details/radiotap.c:216-373 | with one present word, the fields are found one behind the other, each aligned, up to the first that does not fit; bit 18 hides those after it |
| `RadiotapScan.LayoutIsScan` | libdxwifi/details/radiotap.c:216-373 | with any number of present words and without vendor namespaces, the layout is the fields of one word after the other: each word numbered from 0 gives its fields up to the first that does not fit or to bit 18, and no other word has known fields |
| `RadiotapUnset.UndefinedIff` | libdxwifi/details/radiotap.c:253-258 | for every accepted header and any vendors: a position that was never set is used if and only if, before any vendor namespace, a word with fields numbered from 0 has bit 18 and one of the bits 29, 30 and 31, and all fields up to it are known and fit |
| `RadiotapUnset.UndefinedExample` | libdxwifi/details/radiotap.c:253-258 | eight bytes for which this happens |
| `RadiotapIterator.SkipPresentWords` | libdxwifi/details/radiotap.c:135-160 | the walk over the present words stops at the last one, or at the end of the declared length |
| `RadiotapIterator.Init` | libdxwifi/details/radiotap.c:100-167 | told from the bytes: exactly the headers are accepted whose first byte is 0, whose length, byte 2 plus 256 times byte 3, was captured, and whose present words, each with the highest bit of its last byte set but the last one, end inside that length; the fields begin behind them |
| `RadiotapIterator.RadiotapIterator.FindNamespace` | libdxwifi/details/radiotap.c:170-190 | the first registered namespace with this OUI and sub-namespace |
| `RadiotapIterator.RadiotapIterator.ExamineField` | libdxwifi/details/radiotap.c:246-323 | an ordinary field: the end of the known fields, a field without definition, or the field aligned and passed over |
| `RadiotapIterator.RadiotapIterator.ExamineVendor` | libdxwifi/details/radiotap.c:284-340 | a vendor namespace that is not registered is one field with all its data; a registered one is entered |
| `RadiotapIterator.RadiotapIterator.Next` | libdxwifi/details/radiotap.c:216-373 | unless this call itself uses the position never set, it returns the first field of what is left of the layout, or the way the walk ends; the bits left decrease, so calls end |
| `RadiotapIterator.ParseRadiotapHeader` | libdxwifi/receiver.c:417-468 | for every header that the scan of the present words does not rule out, the receiver's loop sees exactly the fields of the layout, and ends |
| `CrcSteps.StepLinear` | libdxwifi/details/crc32.h:50-50 | one step of the division is linear |
| `CrcSteps.Step8Injective` | libdxwifi/details/crc32.h:50-50 | eight steps lose nothing |
| `CrcTable.TableIsStep8` | libdxwifi/details/crc32.h:14-46 | each of the 256 table entries is its index after eight steps of the division |
| `Crc32.ComputeCrc32` | libdxwifi/details/crc32.h:48-55 | the loop over the table computes the checksum |
| `Crc32.CheckValue` | libdxwifi/details/crc32.h:48-55 | the checksum of the digits 1 to 9 is 0xCBF43926, the check value of CRC-32 |
| `Crc32.ChecksumDividesBits` | libdxwifi/details/crc32.h:48-55 | for every message the checksum is the complement of the remainder of the bit by bit division, least significant bit first |
| `Crc32.BurstDetected` | libdxwifi/details/crc32.h:48-55 | two different messages of the same length that differ only inside four consecutive bytes have different checksums |
| `ParkMiller.NextIsProduct` | openfec/src/lib_common/of_rand.c:284-291 | one call multiplies the seed by 16807 modulo 2^31-1 and stays in 1 .. 2^31-2 |
| `ParkMiller.NextIsInvertible` | openfec/src/lib_common/of_rand.c:284-291 | a seed can be computed back from the next one, so different seeds never meet |
| `ParkMiller.AfterCalls` | openfec/src/lib_common/of_rand.c:284-291 | after n calls the seed is 16807^n times the first, modulo 2^31-1, and in range |
| `ParkMiller.ScaledBelow` | openfec/src/lib_common/of_rand.c:294-296 | the scaled number is the quotient rounded down and lies below maxv |
| `ParkMiller.Generator.Srand` | openfec/src/lib_common/of_rand.c:252-262 | a seed out of range is refused |
| `ParkMiller.Generator.Rand` | openfec/src/lib_common/of_rand.c:279-297 | the returned number is below maxv, and the seed is the power of 16807 for the number of calls made |
| `Partition.BlockingIsPartition` | openfec/applis/eperftool/blocking_struct.c:54-70 | large and small blocks together hold just as many symbols as the object needs, differ by at most one, are not larger than allowed and are as few as possible |
| `SymbolTables.InitTables` | openfec/applis/eperftool/sender.c:124-235 | from the size of the object and the code rate: the totals, and the block and symbol control tables as specified, filled with the two running indices |
| `SymbolTables.TablesAreInverse` | openfec/applis/eperftool/receiver.c:106-113 | the receiver's index formula and the symbol table are inverse to each other: a bijection between indices and symbols |
| `SymbolTables.EncodingSum` | openfec/applis/eperftool/sender.c:130-131 | the tables have exactly as many entries as the sender computes from the large and the small blocks |
| `SymbolTables.ObjectTotals` | openfec/applis/eperftool/sender.c:124-131 | the source indices of all blocks are just the source symbols that an object of this size needs, and all indices the encoding symbols, floor(k / code rate) for every block of k |
| `SymbolTables.EncodedSizeIs` | openfec/applis/eperftool/sender.c:130-131 | the symbols of a block at code rate num / den are the largest number n with n num <= k den, and not fewer than k |
| `SymbolTables.SourceSum` | openfec/applis/eperftool/sender.c:198-231 | the large blocks come first: where the source symbols of each block begin |
| `TransmissionOrder.RandomizeArray` | openfec/applis/eperftool/tx_simulator.c:240-257 | the array holds the numbers from 0 on after the exchanges that the random numbers tell, and nothing else is changed |
| `TransmissionOrder.ShuffleIsShuffled` | openfec/applis/eperftool/tx_simulator.c:240-257 | whatever the random numbers are, every number is held once |
| `TransmissionOrder.EveryOrder` | openfec/applis/eperftool/tx_simulator.c:240-257 | every order of the numbers comes out for some random numbers |
| `TransmissionOrder.ShuffledHasAll` | openfec/applis/eperftool/tx_simulator.c:240-257 | no number is missing |
| `TransmissionOrder.ModesKeepPromises` | openfec/applis/eperftool/tx_simulator.c:260-469 | in every mode, whatever the random numbers are: different valid symbols, all repair symbols, and in the modes with few source symbols exactly the first of them, each kind in its declared places |
| `TransmissionOrder.DefineSymbolTxOrder` | openfec/applis/eperftool/tx_simulator.c:260-469 | in every mode the array holds the order specified for the random numbers drawn, which keeps the mode's promise |
| `MessageCoding.SymbolsCarryMessage` | libdxwifi/fec.c:116-309 | the full symbols and the used part of the last one are the message, for every length |
| `MessageCoding.SymbolBytes` | libdxwifi/fec.c:140-155 | byte j of symbol i is byte i times the symbol size plus j of the message, and 0 behind its end |
| `MessageCoding.Encode` | libdxwifi/fec.c:112-203 | too many symbols or too few repair symbols are refused, and only those; otherwise every frame carries its symbol, header and checksum, protected |
| `MessageFraming.CorrectionRestores` | libdxwifi/fec.c:222-239 | blocks with errors that can be corrected give the frame back |
| `MessageFraming.FrameFields` | libdxwifi/fec.c:178-265 | the header fields read are those written, and the checksum of a genuine frame matches |
| `MessageFraming.FrameBytes` | libdxwifi/fec.c:178-186 | byte by byte: the four numbers and the checksum with the most significant byte first, then the symbol |
| `MessageFraming.MatchIff` | libdxwifi/fec.c:245-255 | a frame is taken for valid if and only if the four bytes of its checksum field are the checksum of its symbol |
| `MessageFraming.RuinedSymbol` | libdxwifi/fec.c:245-255 | a frame with the checksum field sent and a symbol that differs from the one sent, but only inside four consecutive bytes, is not taken for valid |
| `MessageFraming.ProtectedAt` | libdxwifi/fec.c:188-194 | block i of a frame is its i-th part, protected |
| `MessageFraming.CorrectedAt` | libdxwifi/fec.c:222-239 | the i-th part of the frame decoded is block i, corrected, whether that succeeded or not |
| `MessageDecoding.Decode` | libdxwifi/fec.c:208-312 | dxwifi_decode does what the specification of decoding says, including its two failures |
| `MessageDecoding.HandedInOrder` | libdxwifi/fec.c:270-285 | the erasure code is handed the symbols of just the frames whose numbers are not above n, in the order of the frames |
| `MessageRoundTrip.RoundTrip` | libdxwifi/fec.c:112-312 | whatever frames arrive, in any order and number: if the header that is read is right and every frame carries the symbol it names or is refused, and the erasure code can solve them, the message comes back with its length, also for multiples of the symbol size |
| `MessageRoundTrip.CorrectableCarry` | libdxwifi/fec.c:222-265 | this holds of frames with errors that can be corrected, next to others beyond correction that do no harm |
| `MessageRoundTrip.DecodesIff` | libdxwifi/fec.c:270-312 | if the erasure code answers, a message comes back whatever lawful way to solve is used if and only if the symbols handed over could have been sent with symbols that make it |
| `MessageRoundTrip.ComesBackIff` | libdxwifi/fec.c:270-312 | a message sent comes back for certain if and only if all symbols handed over are its own, for some way to fill up the last one |
| `MessageRoundTrip.OneBadFrameSpoils` | libdxwifi/fec.c:276-285 | for any lawful erasure code that answers and any message: a frame as it was sent and the same frame hit behind its header bring no message back for certain |

## Left out

- pcap, poll, sockets, files and shared memory: packets, captured frames and read data are parameters, `write` appends to a sequence and is taken to write everything.
- Clocks: bit rates, lost packets per block and the time that makes the sender skip FEC packets are not modelled; that a block was sent slowly is a parameter of `Transmitter.Sender.TransmitBlock`.
- BlockReceiver.Receiver.ProcessPayload: takes the packet with its sequence number read and its checksum intact, because process_packet hands over no others; packets with a bad checksum are not modelled. Block numbers are below 2^31-1, where the search for the oldest buffer starts.
- The bytes of a slot that a shorter packet does not cover are a parameter of the state machine `BlockProtocol`; `BlockReceiver.PacketBuffer.Fill` says which they are.
- Statistics per network adapter and the signal strength that selects an adapter are not modelled.
- GaloisVectors.AddMul1: the loop of sixteen copies of one statement is a loop over sixteen bytes; the assembly variants are not modelled.
- MatrixInversion.InvertMat: the branches that report a pivot used twice, a zero pivot or an index out of range are proved unreachable and have no counterpart.
- Transmitter.Sender.Feed: radiotap and IEEE 802.11 headers, injection failures and the choice of adapters are not modelled; sequence numbers do not wrap around.
- BinaryHeap.Heap.Push: elements are values of any type; step sizes and byte copies are not modelled.
- FrameControl.FrameController.ProcessFrame: takes the class of the frame as its input, because the scan in check_frame_control does not cover what it means to; the sender's address, the flag that tells whether the frame check sequence was right and total_caplen are not modelled.
- FrameControl.FrameController.DumpPacketBuffer: frame numbers and their differences are unbounded, where the code's 32 bit difference may overflow.
- CaptureSession.TransmitBytes: control frames and handlers other than the one that attaches frame numbers are not modelled; a handler that drops a frame is a loss.
- OrderedDelivery.OrderedCapture: for groups in which a frame arrives twice, only the counters are told (`CaptureRuns.DumpCountsLoss`); for groups among which the count turns, `OrderedDelivery.SendingOrderIff` says that the order is lost.
- RadiotapIterator.Init: the header's bytes are given as a sequence; that the first present word may lie beyond a declared length below 8 is left as it is. The flag is_radiotap_ns is not modelled.
- RadiotapIterator.RadiotapIterator.Next: what follows once a position is used that was never set is not modelled; alignments of registered vendor namespaces are 0 or powers of two up to 8, where masking and remainder agree.
- RadiotapIterator.ParseRadiotapHeader: collects the fields; what parse_radiotap_header stores of them is not modelled.
- ParkMiller.Generator.Rand: the scaling is done in real numbers, so rounding of doubles is not modelled.
- Partition.BlockingIsPartition: averages are real numbers, so rounding of doubles is not modelled.
- SymbolTables.InitTables: code rates are rational, the largest block the codec allows is a parameter, and the buffers of the symbols themselves are not modelled.
- TransmissionOrder.DefineSymbolTxOrder: the pseudo-random numbers are arbitrary, and the number of source symbols to send is at most their number; loss models and the received sequence drawn from the order are not modelled.
- The decoder sessions of eperftool, its LDPC and Reed-Solomon codecs and the rscode library are not part of this model.
- MessageCoding.Encode: code rates are rational, and the number of symbols fits into 16 bits, as the code's variables require.
- MessageDecoding.Decode: takes the frames already cut out of the buffer, so trailing bytes are not modelled; the header that is read has to name at least one source symbol, enough repair symbols for a decoder to be set up, and no more bytes in the last symbol than it has.
- MessageRoundTrip.RoundTrip: assumes of the two codes only that correctable blocks are corrected and that the erasure code makes no mistakes (`MessageFraming.Lawful`).
- Telemetry and remote control tools, command lines, logging, daemons and serial ports: they would only add easy members.
