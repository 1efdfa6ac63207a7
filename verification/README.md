# Protocol Bridge: a model in Dafny, with proofs

Five parts of the repository are modelled, each in the form its code has:

* **The lock-free ring** (`RingModel`, `RingInvariant`, `RingTheorems`, `RingAnswers`, `RingWords`, `RingSolo`,
  `RingLag`, `RingBuffer`). `mpmc_ring_enqueue` and `mpmc_ring_dequeue` as a transition system of single shared
  accesses, any number of threads, any interleaving, sequentially consistent, in two arithmetics: unbounded counters
  and 64-bit words. `RingSolo` and `RingLag` build the concrete runs that show where the limits of the ring are.
  `RingBuffer` is the same code as an object on words, used by one thread.
* **Fragments** (`Checksum`, `Fragmentation`, `Frames`, `Defrag`, `DefragCases`, `DefragInvariant`, `DefragLimits`,
  `Reassembly`, `Delivery`, `EndToEnd`, `Undeliverable`, `Defragmentator`). The sender's checksum and fragmentation
  loop; the receiver's header parsing, its table of 65536 ids and the ring between capture thread and consumer,
  timeouts, expiries and refused pushes included; what reaches the output in whole runs (`Delivery`); both ends
  together, from payload to bytes on the wire and back; and the datagrams that no run delivers. `Defragmentator` is
  the receiver as an object updated in place.
* **The packet life cycle** (`PacketLife`, `PacketCases`, `PacketDrain`, `PacketRuns`, `PacketProgress`,
  `PacketManager`). Sending, archiving, remapping and draining as functions of one copy and of every answer the
  outside can give; every answer they give, case by case; whole runs over a store of copies, and that none is
  stranded; and the operations on segments as arrays updated in place.
* **The gate** (`Gateway`) between the sender thread and the discharge thread.
* **Column layout** (`ColumnWidths`): the two greedy routines as loops over arrays.

`Bits`, `Ranges` and `Wrappers` hold the arithmetic, sets of numbers and the option type they share.
`dafny verify dfyconfig.toml` checks everything.

## What the code does not do

Where a promise is false of the code, the code is kept and the exact condition is proved.

* A ring of one slot overflows and one of no slot is read out of bounds: the power-of-two test lets 1 and 0 through
  (`RingTheorems.BoundedIffTwoSlots`).
* A thread that sleeps while the others move the ring on is misled by the wrapped words. A CAS succeeds that should
  fail when its counter has moved by a positive multiple of 2^64 (`RingWords.LagBreaksTheCas`, `LagBreaksTheHeadCas`).
  A stamp that is ahead by 2^63 or more modulo 2^64 is taken for one behind, so that an enqueue answers full on an empty
  ring, or a dequeue empty on a ring that holds an item; ahead by a positive multiple of 2^64 it is taken for the one
  awaited (`RingWords.EnqLoadIff`, `DeqLoadIff`). A run on words is the run on unbounded counters if and only if none of
  this happens (`RingWords.RunCommutes`). That is so while a CAS is less than 2^64 behind, a consumer's stamp read at
  most 2^63 behind tail, and a producer's at most 2^63 less the capacity; one more and there is a run that fails
  (`RingLag.FullAfterLag`, `EmptyAfterLag`, `TailCasAfterLag`, `HeadCasAfterLag`).
* A capacity of 2^60 slots or more passes the test, but its byte count wraps to zero (`RingBuffer.BytesOfSlots`).
* On a big-endian host the checksum of an odd length adds the last byte in the wrong half
  (`Checksum.MeetsTheStandard`). Headers have even length.
* A fragment at offset 8 is refused, which the sender makes when eight bytes are all a fragment holds, and a length of
  zero means "not known yet": such a datagram, and one with an empty payload, is delivered by no run
  (`Undeliverable.NoRunDelivers`).
* Assembly reads one cell that is already popped: the header the consumer holds
  (`DefragInvariant.AssemblyReadsLiveCells`).
* The guard of `ring_addr` lets the eleventh fragment be recorded one place past the array, over the entry's own
  counters and mark (`DefragInvariant.NextIndexInArray`), and the pop of a whole packet's payload is not told how long
  the output buffer is (`Reassembly.FinishFlight`). Some run that keeps kinds apart and loses no payload push alone
  writes outside if and only if nine receiver MTUs fit the receiver's buffer or the output buffer may be shorter than
  65535 bytes (`DefragLimits.BrokenIffRoom`).
* A whole packet under the id of a live fragment makes assembly read a popped position and output a header
  (`DefragLimits.MixingMisreads`); the invariant holds all along a run if and only if no such mixing, no lone header and
  no write outside occurs (`DefragInvariant.RunInvIff`).
* A duplicate as long as a missing fragment makes the byte count exact, and the datagram is output with bytes never
  received (`DefragLimits.DuplicateLeavesHole`): an exact count means full cover if and only if no two pieces overlap
  (`Reassembly.ExactCountIff`).
* The captured length is compared with the IP header alone, without the link header (`Frames.LengthIsCaptured`), and
  for a whole packet the push copies what the UDP header claims, captured or not (`Defrag.PushIsCaptured`).
* When the low byte of the second is zero the one-attempt-per-second rule does not hold
  (`PacketLife.OneAttemptPerSecond`).
* A payload push that fails after its header push leaves a lone header and breaks the alternation of the ring
  (`DefragInvariant.FramingNeedsThePayload`).
* With an output set to "post enter", the payload can be written and the newline answered "no peer"; the remap then
  makes a second sendable copy and the packet is delivered twice (`PacketRuns.AtMostOnce`).
* A failed archive leaves the RAM copy in the file's state; if it is not sent later, draining drops it
  (`PacketDrain.DrainLosesNothing`).

## Model

| member | source | states |
|---|---|---|
| `RingInvariant.InitInv` | tst_MPMC_ring_buffer/main.c:62-67 | the initial slots satisfy the ring invariant for every capacity of at least two |
| `RingInvariant.NextInv` | tst_MPMC_ring_buffer/main.c:75-151 | every step of every thread, stale positions and spurious CAS failures included, keeps the invariant |
| `RingTheorems.Ownership` | tst_MPMC_ring_buffer/main.c:79-109 | each claimed position is in exactly one phase, told by its stamp and head, and a thread works on it exactly when its CAS claimed it |
| `RingTheorems.NoOverwrite` | tst_MPMC_ring_buffer/main.c:107-149 | no step of any thread changes a slot's item between publish and release |
| `RingTheorems.FifoStep` | tst_MPMC_ring_buffer/main.c:87-94 | a step is an append at a successful tail CAS, a pop at a successful head CAS, and nothing otherwise, on the abstract bounded queue |
| `RingTheorems.RefinesFifo` | tst_MPMC_ring_buffer/main.c:75-151 | every interleaving refines a FIFO queue of at most capacity items, linearized at the successful CAS steps |
| `RingTheorems.ReturnsTheClaimedItem` | tst_MPMC_ring_buffer/main.c:123-150 | in every interleaving the k-th claim on head hands back the item of the k-th claim on tail, which is the k-th item to leave the abstract queue |
| `RingTheorems.FullIffUnreleased` | tst_MPMC_ring_buffer/main.c:81-100 | enqueue answers full if and only if its position is still next and the one a lap earlier is unreleased when the stamp is read |
| `RingTheorems.EmptyIffUnpublished` | tst_MPMC_ring_buffer/main.c:123-141 | dequeue answers empty if and only if its position is still next and not published when the stamp is read |
| `RingAnswers.EnqueueAnswers` | tst_MPMC_ring_buffer/main.c:75-111 | over every step of every thread, failed CAS included: an enqueue answers full exactly from a stamp read whose position is still tail and not free, and true exactly from the store that publishes, with the claimed item in the slot |
| `RingAnswers.DequeueAnswers` | tst_MPMC_ring_buffer/main.c:117-151 | likewise a dequeue answers empty exactly from a stamp read whose position is still head and unpublished, and with an item exactly from the release |
| `RingAnswers.ReturnsTheTaken` | tst_MPMC_ring_buffer/main.c:148-150 | that item is the one claimed for the position, which the thread took |
| `RingAnswers.EnqueueGoesOn` | tst_MPMC_ring_buffer/main.c:79-109 | where an enqueue that has not answered goes on: to its CAS exactly from a free position or one claimed and unpublished, to its write exactly from a CAS on the current tail, else back to the loop, with its item |
| `RingAnswers.DequeueGoesOn` | tst_MPMC_ring_buffer/main.c:121-148 | likewise a dequeue, which reads the slot of the position its CAS took |
| `RingAnswers.Possible` | tst_MPMC_ring_buffer/main.c:75-151 | an operation can always make its next access, and only a CAS can fail spuriously |
| `RingAnswers.ServesTheCall` | tst_MPMC_ring_buffer/main.c:75-151 | in every run of either arithmetic each thread is within, or has the answer of, its last call, with the item it was called with |
| `RingAnswers.AppendsTheCalled` | tst_MPMC_ring_buffer/main.c:89-107 | so what a thread appends to the queue is what its enqueue was called with |
| `RingTheorems.Conservation` | tst_MPMC_ring_buffer/main.c:107-150 | at every reachable state the items claimed by producers are those returned, those being read and those queued, with multiplicity |
| `RingTheorems.ExactlyOnce` | tst_MPMC_ring_buffer/main.c:200-258 | nothing is returned more often than enqueued, and once as many are returned as enqueued they are the same multiset |
| `RingTheorems.CapacityOneOverflows` | tst_MPMC_ring_buffer/main.c:43-49 | with one slot the second enqueue answers true and overwrites the first item |
| `RingTheorems.CapacityZeroHasNoSlot` | tst_MPMC_ring_buffer/main.c:79-84 | with no slot the first enqueue is about to access a slot outside the ring |
| `RingTheorems.BoundedIffTwoSlots` | tst_MPMC_ring_buffer/main.c:43-49 | over all runs the content never exceeds the capacity and no access is out of bounds if and only if the capacity is at least two |
| `RingWords.NextCommutes` | tst_MPMC_ring_buffer/main.c:81-109 | every step on words is the wrapped step on unbounded counters if and only if it is not an access that decides differently, which is told exactly for each stamp read and each CAS |
| `RingWords.EnqLoadIff` | tst_MPMC_ring_buffer/main.c:81-105 | the stamp read of an enqueue acts alike on words if and only if the stamp is not ahead, or ahead by 1 to 2^63 - 1 modulo 2^64 |
| `RingWords.DeqLoadIff` | tst_MPMC_ring_buffer/main.c:123-146 | likewise the stamp read of a dequeue, against the position's successor |
| `RingWords.RunCommutes` | tst_MPMC_ring_buffer/main.c:75-151 | for every power-of-two capacity from 2 to 2^63: a run on 64-bit words is at every point the wrapped run on unbounded counters if and only if every access decides alike |
| `RingWords.RunWithoutLag` | tst_MPMC_ring_buffer/main.c:75-151 | a run is the same on words if no thread moves with a CAS 2^64 or more behind, a consumer's stamp read more than 2^63 behind tail, or a producer's more than 2^63 less the capacity |
| `RingWords.LagBreaksTheCas` | tst_MPMC_ring_buffer/main.c:89-91 | the CAS on words decides as the unbounded one if and only if tail has not moved by a positive multiple of the word range since the position was read |
| `RingWords.LagBreaksTheHeadCas` | tst_MPMC_ring_buffer/main.c:131-133 | likewise the CAS on head |
| `RingLag.TailCasAfterLag` | tst_MPMC_ring_buffer/main.c:87-94 | a run: one thread sleeps before its CAS on tail, another makes 2^64 enqueues and dequeues, then the CAS succeeds on words and fails on unbounded counters |
| `RingLag.HeadCasAfterLag` | tst_MPMC_ring_buffer/main.c:128-135 | a run likewise for the CAS on head, which on words takes a position of an empty ring |
| `RingLag.FullAfterLag` | tst_MPMC_ring_buffer/main.c:81-100 | a run for every capacity: tail moves on until it and a lap are more than 2^63 ahead of a sleeping producer, whose enqueue then answers full on words with the ring empty |
| `RingLag.EmptyAfterLag` | tst_MPMC_ring_buffer/main.c:123-141 | a run for every capacity: a consumer sleeps until tail is 2^63 + 1 ahead and its dequeue answers empty on words with an item in the ring |
| `Bits.MaskOfWord` | tst_MPMC_ring_buffer/main.c:82 | masking a wrapped position selects the slot of the unbounded one, because the capacity divides the word range |
| `Bits.SignedDifExact` | tst_MPMC_ring_buffer/main.c:85 | the signed difference of two words is the difference of the positions if and only if that fits a signed word |
| `Bits.PowerOfTwoTest` | tst_MPMC_ring_buffer/main.c:45 | on a 64-bit size the mask test, whose subtraction wraps at zero, passes exactly zero and the powers of two, none above 2^63 |
| `RingBuffer.MpmcRing.constructor` | tst_MPMC_ring_buffer/main.c:51-68 | a new ring is empty, slot i stamped i, and valid when the capacity is a power of two of at least two |
| `RingBuffer.MpmcRing.AwaitFree` | tst_MPMC_ring_buffer/main.c:79-106 | the retry loop ends with a claim exactly when fewer than capacity items are held |
| `RingBuffer.MpmcRing.AwaitPublished` | tst_MPMC_ring_buffer/main.c:121-147 | the retry loop ends with a claim exactly when the ring is not empty |
| `RingBuffer.MpmcRing.Enqueue` | tst_MPMC_ring_buffer/main.c:75-111 | on words: true exactly if fewer than capacity items are held, then the item is appended, else nothing changes |
| `RingBuffer.MpmcRing.Dequeue` | tst_MPMC_ring_buffer/main.c:117-151 | on words: true exactly if not empty, then the oldest item is returned and removed, else nothing changes |
| `RingBuffer.InitRing` | tst_MPMC_ring_buffer/main.c:43-69 | for any 64-bit capacity: null exactly when the test fails or the allocator refuses, slots outside the allocation exactly when both pass and the capacity is 2^60 or more, else a ring |
| `RingBuffer.BytesOfSlots` | tst_MPMC_ring_buffer/main.c:56 | the byte count of the slots is exact if and only if the capacity is below 2^60; from there on it is zero |
| `Checksum.FoldIs` | tst_udp_fragment/main.c:53 | folding ends, keeps the sum modulo 65535, and gives 0 only for 0 |
| `Checksum.ComputeChecksum` | tst_udp_fragment/main.c:44-55 | the loops on the 64-bit sum compute the complement of the folded word sum, in either byte order |
| `Checksum.StoredChecksumVerifies` | tst_udp_fragment/main.c:129-130 | storing the result in the zeroed field makes the checksum of the whole 0 |
| `Checksum.LittleEndianBytes` | tst_udp_fragment/main.c:49-54 | on an even length a little-endian host stores the same bytes as a big-endian one: swapping every word swaps the result |
| `Checksum.MeetsTheStandard` | tst_udp_fragment/main.c:44-55 | the stored bytes are those of section 2 of RFC 1071 if and only if the host is little-endian, the length even, or the last byte zero |
| `Fragmentation.Tiling` | tst_udp_fragment/main.c:104-113 | for every MTU of at least 28 and every length: the pieces are contiguous, none empty, offsets multiples of 8, all but the last of the maximal size |
| `Fragmentation.UsableIff` | tst_udp_fragment/main.c:104-113 | an MTU lets the loop make progress if and only if it is 28 or more |
| `Fragmentation.Ordered` | tst_udp_fragment/main.c:109-142 | any two pieces are disjoint |
| `Fragmentation.FieldRoundTrip` | tst_udp_fragment/main.c:123-127 | offset and more-fragments flag are read back from the field if and only if the offset fits 13 bits |
| `Fragmentation.FillFragment` | tst_udp_fragment/main.c:115-130 | the buffer filled field by field is the header with length, offset field and checksum, and the piece's bytes |
| `Fragmentation.SendFragments` | tst_udp_fragment/main.c:104-143 | the packets sent are, in order, the fragments of the tiling, none longer than the MTU |
| `Fragmentation.HeaderVerifies` | tst_udp_fragment/main.c:129-130 | every fragment header sums to 0 at a receiver of either byte order |
| `Fragmentation.BodiesAreTheDatagram` | tst_udp_fragment/main.c:109-143 | the bodies of the packets concatenate to the datagram |
| `Frames.ParseSent` | Protocol_Bridge/src/udp_defragmentator.c:92-187 | from any frame around a fragment of the sender, padded or not, the parser recovers id, offset, flag, length and bytes |
| `Frames.ParsedIff` | Protocol_Bridge/src/udp_defragmentator.c:92-168 | on the bytes of any frame: it is taken if and only if ethertype, captured length, header length, total length, protocol byte and the room for a UDP header are right |
| `Frames.ParsedFields` | Protocol_Bridge/src/udp_defragmentator.c:114-187 | on the bytes of any such frame, options or not: the id, offset, flag, lengths and bytes that are read |
| `Frames.LengthIsCaptured` | Protocol_Bridge/src/udp_defragmentator.c:114-131 | the fragment length stays within the captured bytes if and only if the capture holds link and IP header |
| `Defrag.PushIsCaptured` | Protocol_Bridge/src/udp_defragmentator.c:114-396 | the bytes pushed are bytes of the captured frame if and only if there are none or the headers are captured, and for a whole packet also the bytes its UDP header claims |
| `DefragCases.ReceiveAnswers` | Protocol_Bridge/src/udp_defragmentator.c:200-436 | the answer to an arrival, the cells it adds and the rest of the table: only an accepted one is pushed, only its id changes, every failure clears it |
| `DefragCases.WholeEntry` | Protocol_Bridge/src/udp_defragmentator.c:200-236 | a whole packet replaces what its id held |
| `DefragCases.FragmentEntry` | Protocol_Bridge/src/udp_defragmentator.c:244-434 | a fragment is added to what its id held, or to nothing if that was too old, used all places, or counted more bytes than its length; place, length, count and time after it |
| `DefragCases.TakeAnswers` | Protocol_Bridge/src/udp_defragmentator.c:449-480 | a pop keeps a header whose id is in use; any other cell goes with the one behind it |
| `DefragCases.FinishEnds` | Protocol_Bridge/src/udp_defragmentator.c:482-719 | the call waits exactly while bytes are missing and its time is not over, and else clears the id and pops the payload |
| `DefragCases.OnlyExactCounts` | Protocol_Bridge/src/udp_defragmentator.c:528-664 | whatever was counted: an id with too many bytes is dropped at once, one with too few when the time is over, and only an exact count is output |
| `DefragCases.WholeAnswers` | Protocol_Bridge/src/udp_defragmentator.c:483-571 | a whole packet's payload is output at the start of the buffer, the rest of which stays |
| `DefragCases.AssembleAnswers` | Protocol_Bridge/src/udp_defragmentator.c:672-708 | the copy loop delivers if and only if every recorded piece can be copied, with the length of place 0, and leaves bytes in no piece as they were |
| `DefragInvariant.ReceiveInv` | Protocol_Bridge/src/udp_defragmentator.c:200-434 | an arrival of any kind, expiring or refused, keeps the invariant if and only if it mixes no kinds under its id, leaves no lone header and is not recorded past the ten places; the invariant: framing, and every recorded address is a live header of its id with its payload behind |
| `DefragInvariant.TakeInv` | Protocol_Bridge/src/udp_defragmentator.c:449-480 | popping a header keeps the invariant: an id is held only if dirty |
| `DefragInvariant.FinishInv` | Protocol_Bridge/src/udp_defragmentator.c:482-719 | waiting, delivering, ignoring and timing out keep the invariant, if and only if no whole payload is longer than the buffer |
| `DefragInvariant.RunInv` | Protocol_Bridge/src/udp_defragmentator.c:200-719 | the invariant holds after every run in which no arrival mixes kinds or leaves a lone header and nothing is written outside |
| `DefragInvariant.RunInvIff` | Protocol_Bridge/src/udp_defragmentator.c:200-719 | that condition is exact: it holds of a run if and only if the invariant holds at every point of it |
| `DefragInvariant.BrokenIff` | Protocol_Bridge/src/udp_defragmentator.c:371-560 | a run has written outside if and only if some arrival found nine fragments recorded after the first, was not late, passed the tests and had both pushes succeed, or some call popped a whole payload longer than its buffer |
| `DefragInvariant.TenPlaces` | Protocol_Bridge/header/udp_defragmentator.h:9-20 | in every run that keeps the discipline and writes nothing outside each recorded fragment has one of the ten places, and the count stays below ten |
| `DefragInvariant.MarkerNeverFails` | Protocol_Bridge/src/udp_defragmentator.c:449-465 | in every such run a call starts on a header and a held header's payload is the next cell, so the marker test never fails |
| `DefragInvariant.AssemblyReadsLiveCells` | Protocol_Bridge/src/udp_defragmentator.c:672-708 | in every such run each position assembly blind-copies holds a header or payload of that id not popped yet, the held header excepted, and the first fragment is recorded |
| `DefragInvariant.NeverMisreads` | Protocol_Bridge/src/udp_defragmentator.c:557-708 | in every such run no header is output in place of a payload |
| `DefragInvariant.FramingNeedsThePayload` | Protocol_Bridge/src/udp_defragmentator.c:294-311 | the alternation survives a call if and only if the payload push does not fail after the header push |
| `DefragInvariant.NextIndexInArray` | Protocol_Bridge/src/udp_defragmentator.c:371-423 | what the tests let through is recorded at the next place, past the array if and only if nine are recorded after the first already |
| `DefragLimits.BrokenIffRoom` | Protocol_Bridge/src/udp_defragmentator.c:352-560 | some run without mixing or lone headers writes outside if and only if nine receiver MTUs fit the receiver's buffer or the output buffers may be shorter than 65535 bytes |
| `DefragLimits.SameArrives` | Protocol_Bridge/src/udp_defragmentator.c:92-187 | the run past the ten places consists of real frames: the parser makes its fragment from these 34 bytes |
| `DefragLimits.LongestArrives` | Protocol_Bridge/src/udp_defragmentator.c:92-187 | so does the overrun: the parser makes its whole packet from these 42 bytes |
| `DefragLimits.MixingMisreads` | Protocol_Bridge/src/udp_defragmentator.c:200-708 | a run in which a whole packet under a live fragment's id makes assembly read ring position 0, which is popped, and output a header |
| `DefragLimits.DuplicateLeavesHole` | Protocol_Bridge/src/udp_defragmentator.c:336-708 | a run with one fragment duplicated and one lost that outputs the datagram with the lost bytes as the buffer had them |
| `DefragInvariant.StaleStartsAfresh` | Protocol_Bridge/src/udp_defragmentator.c:264-290 | a late fragment is the only one its id holds afterwards; a timely one is added to those before it or, exactly when it is the eleventh, is written past them |
| `Reassembly.CountingDecides` | Protocol_Bridge/src/udp_defragmentator.c:316-332 | for disjoint pieces inside the payload the byte count equals the length exactly when every byte is covered |
| `Reassembly.ExactCountIff` | Protocol_Bridge/src/udp_defragmentator.c:316-428 | for pieces that may overlap: with an exact count every byte is covered if and only if no two pieces overlap |
| `Reassembly.AssembledPayload` | Protocol_Bridge/src/udp_defragmentator.c:672-708 | when the id is settled the count is exact, the fragments cover the payload, and the copy loop yields exactly the payload if and only if the buffer holds it |
| `Reassembly.FinishFlight` | Protocol_Bridge/src/udp_defragmentator.c:482-712 | timed out or not, a call delivers nothing but its datagram byte for byte, and that exactly when the id is settled and the buffer large enough; with a smaller one fragments are dropped and a whole packet is written past the end |
| `Delivery.StepInv` | Protocol_Bridge/src/udp_defragmentator.c:200-719 | with any number of datagrams in flight each step, late, refused or timed out, keeps: counted bytes are the bytes in the ring, outputs are honest and unrepeated, the rest is accounted for |
| `Delivery.ExactDelivery` | Protocol_Bridge/src/udp_defragmentator.c:200-719 | over all runs with timeouts, expiries and refusals outputs are payloads sent, none twice; once every byte in flight is recorded and the ring is empty, all but those given up whose id was reused |
| `Delivery.WorldIsReceiver` | Protocol_Bridge/src/udp_defragmentator.c:84-719 | the books of these runs are kept on the side: the state is the receiver's own on the same arrivals and calls, and the outputs judged are those it delivered |
| `Delivery.NeverStuck` | Protocol_Bridge/src/udp_defragmentator.c:590-632 | with everything arrived and the ring not empty one more call of the consumer pops a header and its payload |
| `Delivery.CallsDeliver` | Protocol_Bridge/src/udp_defragmentator.c:440-719 | as many calls as cells are left empty the ring, and every datagram has been output but those lost before |
| `EndToEnd.FrameParses` | Protocol_Bridge/src/udp_defragmentator.c:92-187 | the receiver reads from the bytes of fragment k of any payload exactly that fragment |
| `EndToEnd.SentFits` | Protocol_Bridge/src/udp_defragmentator.c:336-358 | a fragment not delivered before brings new bytes only, all of them its datagram's |
| `EndToEnd.FragmentThenReassemble` | tst_udp_fragment/main.c:104-143 | over all runs of frames in any order, no frame twice, each datagram within ten fragments and within the capacity test: every output is its payload, none twice, and all payloads once all frames arrived and the consumer was called |
| `EndToEnd.NetIsReceiver` | Protocol_Bridge/src/udp_defragmentator.c:84-719 | likewise from the frames' bytes alone: parser, reassembler and consumer see nothing else, and the outputs judged are those delivered |
| `EndToEnd.SecondNeedsRoom` | Protocol_Bridge/src/udp_defragmentator.c:352-358 | the room asked of a datagram is exact: when its second fragment comes last it is recorded if and only if there is that room |
| `EndToEnd.OneDatagram` | tst_udp_fragment/main.c:104-143 | one datagram whose fragments come in any permutation is output exactly once, unchanged |
| `EndToEnd.AcceptsAll` | Protocol_Bridge/src/udp_defragmentator.c:337-345 | in a state with room, each fragment of a datagram by itself passes the tests if and only if a fragment holds more than eight bytes or the datagram is one UDP header |
| `EndToEnd.WholeDeliveredIffNotEmpty` | Protocol_Bridge/src/udp_defragmentator.c:483-556 | a datagram that comes whole into an empty ring is delivered if and only if its payload is not empty |
| `Undeliverable.NoRunDelivers` | Protocol_Bridge/src/udp_defragmentator.c:337-634 | the converse of fragment-then-reassemble: with an empty payload, or eight bytes per fragment, in every run the consumer waits or gives the datagram up, in any order, with duplicates, expiries, refusals and timeouts |
| `Undeliverable.NeverDelivered` | Protocol_Bridge/src/udp_defragmentator.c:244-634 | in no run is anything output under an id whose arrivals tell no length together with a byte that counts |
| `Undeliverable.BarrenDatagrams` | tst_udp_fragment/main.c:104-113 | the frames of a datagram are all of that kind if and only if its payload is empty or a fragment holds eight bytes |
| `Defragmentator.Defragmenter.DefragmentPcapData` | Protocol_Bridge/src/udp_defragmentator.c:84-437 | the table and ring after a captured frame, whether it was recorded past the ten places, and the answer are those of the step function; a bad frame changes nothing |
| `Defragmentator.Defragmenter.WholePacket` | Protocol_Bridge/src/udp_defragmentator.c:200-236 | the first case in place |
| `Defragmentator.Defragmenter.FirstFragment` | Protocol_Bridge/src/udp_defragmentator.c:244-334 | the second case in place, expiry included |
| `Defragmentator.Defragmenter.OtherFragment` | Protocol_Bridge/src/udp_defragmentator.c:336-434 | the third case in place, its two refusals and the mark for a place past the ten included |
| `Defragmentator.Defragmenter.PopHeader` | Protocol_Bridge/src/udp_defragmentator.c:449-480 | the consumer's pop and dirty test in place |
| `Defragmentator.Defragmenter.CopyPieces` | Protocol_Bridge/src/udp_defragmentator.c:672-708 | the copy loop into the buffer is the specification's assembly |
| `Defragmentator.Defragmenter.FinishPacket` | Protocol_Bridge/src/udp_defragmentator.c:482-719 | the rest of the consumer's call in place: state, answer and buffer, a whole payload longer than the buffer marked as written past it |
| `PacketLife.SendMovesTheToken` | Protocol_Bridge/src/packet_mngr.c:1045-1506 | for every lock, route, throttle and write answer one call writes the payload at most once, and does so exactly when the copy stops being sendable |
| `PacketCases.WritesIff` | Protocol_Bridge/src/packet_mngr.c:1045-1444 | the payload is written if and only if the lock is taken, the packet is not finished, sending is not blocked, no cool-down holds, and the cached route takes it, or there is none, an output is connected, and the first of the lookup that does not fail takes it |
| `PacketCases.LookupAnswers` | Protocol_Bridge/src/packet_mngr.c:1277-1431 | the lookup's answer is that of the first output that is throttled or takes the payload, or of the last one |
| `PacketCases.SendAnswers` | Protocol_Bridge/src/packet_mngr.c:1045-1506 | every other answer of a call and its cause: lock, nothing to do, blocked, cool-down, the route's answer, and no peer |
| `PacketCases.RamPacketIsSent` | Protocol_Bridge/src/packet_mngr.c:1109-1195 | a packet on RAM with a cached route that takes it is sent and answered OK |
| `PacketLife.OkMeansFinished` | Protocol_Bridge/src/packet_mngr.c:1062-1071 | the answer OK is given only for a copy in a finished state |
| `PacketLife.LookupEnds` | Protocol_Bridge/src/packet_mngr.c:1283-1431 | a throttled output or one that takes the payload ends the lookup: later outputs do not matter |
| `PacketLife.OneAttemptPerSecond` | Protocol_Bridge/src/packet_mngr.c:1085-1096 | a file copy tried in vain is never tried again in that second if and only if the second's low byte is not zero |
| `PacketLife.PlainSendAnswersOk` | Protocol_Bridge/src/packet_mngr.c:1168-1195 | without a post action a call that wrote the payload answers OK |
| `PacketLife.StoreMovesTheToken` | Protocol_Bridge/src/packet_mngr.c:1551-1594 | archiving leaves one sendable copy where there was one, whether storage answers OK or not |
| `PacketCases.StoreAnswers` | Protocol_Bridge/src/packet_mngr.c:1544-1600 | exactly a packet on RAM is offered to the archive; states of original and copy, and the answer, for each answer of storage |
| `PacketLife.RemapMovesTheToken` | Protocol_Bridge/src/packet_mngr.c:1775-1801 | remapping does so if and only if the copy was sendable or storage refused |
| `PacketCases.RemapAnswers` | Protocol_Bridge/src/packet_mngr.c:1775-1801 | exactly a copy not yet in the private file is remapped; states and answer for each answer of storage, rollback included |
| `PacketLife.DischargeMovesTheToken` | Protocol_Bridge/src/packet_mngr.c:1804-1860 | a file send keeps the one right to send unless the payload was written, the newline found no peer and the remap was stored |
| `PacketCases.DischargeAnswers` | Protocol_Bridge/src/packet_mngr.c:1804-1860 | every answer of a file send: occupied under pressure, the send's own, mapped, or go on |
| `PacketLife.OnlyFinishedIsDropped` | Protocol_Bridge/src/persistant_cache_mgr.c:136-195 | unless a write answers "mapped", the stack is told to drop a copy only when it is finished; on the answers OK and mapped it is told so unless the answer is OK and the gate dead |
| `PacketLife.ContinuesWhileOpen` | Protocol_Bridge/src/persistant_cache_mgr.c:142-194 | the stack is told to go on at once if and only if the gate is open and the answer asks for no pause |
| `PacketCases.CommandIff` | Protocol_Bridge/src/persistant_cache_mgr.c:136-195 | for each command to the file stack, exactly the answers and gates that lead to it |
| `PacketRuns.ArchiveIsStoreItem` | Protocol_Bridge/src/packet_mngr.c:1570-1594 | the three steps of archiving, between which other copies move, compose to the operation |
| `PacketRuns.StepTokens` | Protocol_Bridge/src/packet_mngr.c:1008-1860 | every step but one kind keeps copies that can still be sent plus payload writes, for every packet |
| `PacketRuns.ExactlyOneRight` | Protocol_Bridge/src/packet_mngr.c:1062-1860 | over all runs that discard no sendable copy, an accepted packet off "post enter" is delivered once and spent, or not delivered with exactly one copy that can be |
| `PacketProgress.NeverStranded` | Protocol_Bridge/src/packet_mngr.c:1008-1860 | in every such run a packet not delivered yet can still be: there is a continuation of two events at most that delivers it |
| `PacketProgress.WritesAreCounted` | Protocol_Bridge/src/packet_mngr.c:1008-1860 | the payload writes of a packet grow by exactly those of the send an event stands for |
| `PacketProgress.CopiesAfter` | Protocol_Bridge/src/persistant_cache_mgr.c:131-195 | an event changes one copy at most, and a copy goes exactly by the release of its segment or by a command to drop it |
| `PacketProgress.NewCopies` | Protocol_Bridge/src/packet_mngr.c:1008-1860 | which events make a copy, and where |
| `PacketRuns.DeliveredTwice` | Protocol_Bridge/src/packet_mngr.c:1186-1190 | a run that delivers a packet for a "post enter" output twice |
| `PacketRuns.AtMostOnce` | Protocol_Bridge/src/packet_mngr.c:1168-1195 | over all runs sendable copies plus payload writes of a packet never exceed one if and only if it is not routed to a "post enter" output |
| `PacketDrain.DrainLosesNothing` | Protocol_Bridge/src/packet_mngr.c:1678-1689 | every packet of the segment ends finished for all TCP answers if and only if each is finished on entry or on RAM and accepted by the archive |
| `PacketDrain.SentOrArchived` | Protocol_Bridge/src/packet_mngr.c:1682-1689 | for all items and answers the archive gets, in order, one copy of each RAM packet that remains as an original and nothing else; if it accepts all, each RAM packet ends sent or archived |
| `PacketDrain.SendPassExact` | Protocol_Bridge/src/packet_mngr.c:1682-1684 | packet k is offered to TCP, and becomes what the send makes of it, if and only if every one after it answered OK |
| `PacketDrain.SendPassAnswers` | Protocol_Bridge/src/packet_mngr.c:1682-1684 | the pass answers OK if and only if every send does, else what the last one said |
| `PacketDrain.StorePassExact` | Protocol_Bridge/src/packet_mngr.c:1687 | packet j is offered to the archive if and only if every one before it was answered OK |
| `PacketDrain.DrainSendsAll` | Protocol_Bridge/src/packet_mngr.c:1682-1687 | with every send answering OK and no block, all are offered to TCP and nothing is archived |
| `PacketDrain.DrainExact` | Protocol_Bridge/src/packet_mngr.c:1682-1689 | what becomes of each packet of a drained segment, for all answers |
| `PacketManager.SendSegmentItm` | Protocol_Bridge/src/packet_mngr.c:1045-1506 | the in-place send is the send function, every other packet of the segment unchanged |
| `PacketManager.LookUp` | Protocol_Bridge/src/packet_mngr.c:1277-1434 | the loop over the outputs is the lookup function |
| `PacketManager.StoreSegmentItem` | Protocol_Bridge/src/packet_mngr.c:1544-1600 | the in-place archive is the store function |
| `PacketManager.RemapStorageData` | Protocol_Bridge/src/packet_mngr.c:1775-1801 | the in-place remap, rollback included, is the remap function |
| `PacketManager.DischargePersistentStorageData` | Protocol_Bridge/src/packet_mngr.c:1804-1860 | the in-place file send is the discharge function |
| `PacketManager.DrainSegment` | Protocol_Bridge/src/packet_mngr.c:1678-1689 | the two passes over the array are the drain function, archive included |
| `Gateway.NoLostWakeUp` | Protocol_Bridge/src/packet_mngr.c:1670-1757 | over all interleavings, with the gate open the discharge thread drains or is about to test, or a post is there or owed |
| `Gateway.StateIsHistory` | Protocol_Bridge/src/packet_mngr.c:1670-1757 | over all runs the gate is what was stored last, the semaphore counts posts less wake-ups, and each thread stands where its last event put it |
| `Gateway.SeesTheGate` | Protocol_Bridge/src/packet_mngr.c:1670-1727 | which events are possible, and what each read and each test of the gate leads to |
| `Gateway.ClosesOnEmpty` | Protocol_Bridge/src/persistant_cache_mgr.c:233-254 | the discharge thread is about to close the gate if and only if its last step was a pop that found the stack empty; after one that found a packet it tests the gate |
| `Gateway.LoopsWhileOpen` | Protocol_Bridge/src/persistant_cache_mgr.c:231-271 | with the gate open it goes from pop to pop, and a segment popped from RAM closes the gate |
| `Gateway.OpenGateDrains` | Protocol_Bridge/src/persistant_cache_mgr.c:227-271 | with the gate open at most three steps of the program bring the discharge thread into its loop |
| `Gateway.SleepingCanBeWoken` | Protocol_Bridge/src/packet_mngr.c:1718-1727 | a sleeping discharge thread with nothing owed is woken by the next attempt to open |
| `ColumnWidths.Table.LeveledIsOptimal` | tst_notcurses_tabs_gpt/main.c:725-737 | no other widths with the same bounds and total have a smaller largest width |
| `ColumnWidths.WidestShrinkable` | tst_notcurses_tabs_gpt/main.c:727-734 | the first widest column above its minimum, or none is above it |
| `ColumnWidths.ComputeWidths` | tst_notcurses_tabs_gpt/main.c:700-739 | widths within bounds and leveled, desired if they fit, else the total is the room or every column is at its minimum |
| `ColumnWidths.ShrinkRound` | tst_not_cursor/main.c:131-141 | one round takes one from each column above the minimum, in order, until nothing is wanted |
| `ColumnWidths.ComputeColumnWidths` | tst_not_cursor/main.c:101-160 | every width is at least 8, the sum is the larger of the room and 8 per column, losses differ by at most a round, spare room goes to the last column |

## Left out

- Sockets, pcap, TLS, eBPF, signals, thread creation, drawing, statistics, logging, configuration loading: foreign calls
  or no property beyond their calls.
- `cbuf_pked_*`, `segmgr_*`, `ci_sgm_*`, `pg_stk_*`, `tcps_*`, the distributors and dictionaries are not part of this
  repository. Assumed of them: a successful push appends a cell and returns its position, a pop advances by one cell,
  a blind copy reads a cell; an iteration over a segment stops at the first answer other than errOK and returns it; the
  file stack hands out its stored copy in place and drops it on a "sended" or "remapped" command.
- `ETHERNET_MTU`, `BUFFER_SIZE`, `SIZE_ETHERNET` and `UDP_LAYER_HDR_SZ_B` come from headers that are not part of this
  model: the first two are parameters, the others 14 and 8.
- Clocks: every timeout, expiry and cool-down test takes its outcome as an input. Rates, pressure stages and pacing
  are free inputs too.
- Weak-memory effects in the ring: steps are sequentially consistent. Overflow in the column arithmetic: C ints are
  unbounded here.
- Atomicity in the receiver: `__lock` and `__unlock` are empty (Protocol_Bridge/src/udp_defragmentator.c:80-81), so it
  is an assumption that an arrival is one step, and so are the consumer's decision, its copy and its clearing of the id.
- The memory after a write past the ten places or past the output buffer: the model only records that it happened
  (`broken`); of a state after it nothing is claimed. What the output buffer holds after a header was output in place of
  a payload is not described either.
- Who owns a popped segment: the caller of an operation on a segment is its only user (the operations of `PacketRuns`
  interleave copy by copy).
- Bytes the parser reads past the captured length are zero in the model; in the code they are whatever memory holds.
- Delivery.ExactDelivery: supposes no duplicate or overlapping bytes of what is recorded or output (see
  DefragLimits.DuplicateLeavesHole), no payload push that fails alone, no reuse of an id while its entry or a header
  of it is in use, the ten places, and buffers that hold a whole packet.
- EndToEnd.FragmentThenReassemble: supposes no timeout, expiry or refused push, at most ten fragments, each datagram
  within the capacity test whichever fragment comes last, a non-empty payload, and more than eight bytes per fragment
  when there is more than one; the last two are exact over runs (Undeliverable.NoRunDelivers).
- EndToEnd.AcceptsAll: one state and acceptance only; what it means over runs is Undeliverable.NoRunDelivers.
- DefragInvariant.RunInv: supposes no mixing of kinds under a live id, no lone header and no write outside, which is
  exact for the invariant (DefragInvariant.RunInvIff). Undeliverable.NoRunDelivers supposes the same.
- RingBuffer.MpmcRing.Enqueue: one thread only; contention is the subject of RingModel. The same holds for Dequeue.
- PacketDrain.DrainLosesNothing: stride one and no skip answer of the rate balancer.
- PacketRuns.AtMostOnce: a payload write counts as delivered when it answers errOK; what a failed write may have put on
  the wire is not modelled.
- The gate after shutdown (`gws_die`), the retry and full counters of the ring, and the uncompiled variants of
  `compute_widths`.
