# WinPcap kernel capture: a model with proofs

The NPF driver captures packets from a network card for applications. This project models its four
hardest parts in Dafny and proves what they are for.

* **Capture rings** (`machine`, `ring_image`, `ring_write`, `ring_system`, `ring_safety`, `ring_runs`,
  `cpu_ring`, `user_buffer`, `capture`, `interleaved_read`). Every CPU has a byte ring that its tap fills
  and that the one reader empties without taking a lock; a pair of sequence numbers merges the rings into
  one queue. `RingSystem` is a transition system whose steps are single accesses to shared memory: receiving
  a packet, rejecting, dropping or admitting it, storing any bytes of a reservation, taking a number,
  publishing by `Free`, one test of the reader, one byte copied out, one release. Proved over every
  interleaving of any number of producers with the reader: what is delivered is a prefix of what was
  accepted, byte for byte. `CpuRing` and `Capture` are the driver's code in place, with all of its copy
  paths, on one shared allocation. Each call is proved to be a run of that transition system, one step for
  every memory move, which makes every result about runs a result about calls.
* **Filter machine** (`bpf_code`, `bpf_arithmetic`, `bpf_validate`, `bpf_safety`, `bpf_laws`, `bpf_static`,
  `bpf_interpreter`, `bpf_lookahead`, `filtered_capture`). The classic BPF machine with its checker, its
  interpreter and the interpreter over a packet in two buffers. `BpfLaws` says what each instruction does,
  by its opcode number, and what a filter by Ethernet type returns, in terms of bytes, bits and plain arithmetic. The repository has two copies, one for the
  Windows 9x driver and one for the NT driver, which differ in bounds tests, in loads over two buffers and
  in the checker; `Dialect` tells them apart, and what differs is stated for each. Whatever C leaves
  undefined is an explicit `Fault`. `FilteredCapture` puts the NT filter in front of the rings.
* **Lifecycle** (`lifecycle`, `lifecycle_safety`, `lifecycle_progress`, `lifecycle_access`). Two gates, one for the open
  instance and one for its binding to the adapter, raced by any number of IRP threads, cleanups and
  unbinds. One step is one region under a spin lock. Safety is proved over every schedule, termination
  over every fair one, and without a closer every request for the binding is granted.
* **Interval table** (`bucket_table`). The lookup table of the TME engine, searched by a walk whose step
  is halved until it is one.

## Where the code does not do what it is meant to

Each of these is a lemma with a concrete input or an exact condition.

* The 9x checker tests a constant divisor under a mask that overlaps the opcode, so its test never fires
  (`BpfValidate.DivisionsLookAlike`, `BpfSafety.DivisionByZeroIsAccepted`); the NT checker uses the right mask.
* The 9x bounds tests let negative offsets through (`BpfSafety.LoadFault`, `BpfSafety.NegativeOffsetIsAccepted`);
  the NT test on a packet in one piece never does (`BpfSafety.NtxLoadsAreSafe`).
* Over two buffers, word and half loads that start in the header go wrong in the 9x driver, and loads
  that straddle its end in the NT driver (`BpfLookahead.SplitLoadExact`).
* Installing a filter frees the old one first: a request that comes with a program and fails leaves an
  instance that accepts everything (`FilteredCapture.FailedRequestKeepsFilter`,
  `FilteredCapture.RefusedRequestAcceptsAll`).
* The reader's fit test uses the unaligned packet length and its advance the aligned one; once the
  advance has passed the end, the room left wraps and every later test passes (`UserBuffer.FitTestIsSound`
  says for which read lengths this cannot happen, `UserBuffer.OverflowingOverflows` how it does for all others).
* A lookup of zero in an empty interval table is a hit (`BucketTable.AnswerIsScan`).

## Reading the model

Offsets, lengths and counters are mathematical integers with the driver's widths written out where they
matter: `U32`, the sequence numbers modulo 2^32, the wrapping bounds tests and jump arithmetic. Numbers
in ring headers are little-endian; `struct bpf_hdr` takes 20 bytes with its padding, `struct PacketHeader` 24.
Time stamps, allocation results, whether NDIS completes a transfer at once, and whether two buffers are
adjacent are parameters. `requires` clauses of the tap state what the interface guarantees: lengths
that fit in 32 bits together with a record header.

In `RingSystem` the guard of `Publish` says that the record is complete when `Free` is updated; that
the code keeps to this is what `CpuRing` and `RingRuns` prove. The log of `History` is what the
taps appended when they took their numbers, `delivered` what the reader read out of ring bytes; only the
invariant connects the two.

## Model

| member | source | states |
|---|---|---|
| RingSafety.GlobalFifo | packetNtx/driver/Read.c:330-405 | after any interleaving of any number of producers with the reader, from a fresh instance, the packets delivered are a prefix of the packets accepted in order of their numbers, each once, header and payload intact; both 32-bit counters agree with it although they wrap |
| RingSafety.RingAccounting | packetNtx/driver/Read.c:612-738 | in every reachable state of every CPU, P and C leave room for a whole header, Free is the circular distance from P to C, Free == Size exactly when nothing is queued, and P == C means exactly empty or full |
| RingSafety.Conservation | packetNtx/driver/Read.c:452-1005 | in every reachable state Received = Accepted + Dropped + rejected + still in the filter + pending on each CPU, and over all CPUs the accepted packets are those delivered plus those still held |
| RingSafety.MergeComplete | packetNtx/driver/Read.c:330-404 | with no producer between number and publication, no ring carries the number the reader wants if and only if all rings are empty, if and only if everything accepted is delivered |
| RingSafety.ReadyIsFound | packetNtx/driver/Read.c:393-404 | once the next packet is published on some CPU it stays the reader's to take, and the reader misses at most the CPUs on its way there, fewer than NCpu, while producers go on interleaving |
| RingSafety.StartIsReached | packetNtx/driver/Read.c:330-404 | a reader that begins a round while some CPU has the next packet takes a packet in that round: its count of misses stays below NCpu, it can always test one more ring, and at that CPU it starts to copy |
| RingSafety.ReaderNeverStuck | packetNtx/driver/Read.c:346-391 | in every state of the invariant the reader can go on with the packet it has begun |
| RingSafety.StepKeeps | packetNtx/driver/Read.c:612-738 | every single step of producer or reader keeps the ring, queue, history and reader invariants together |
| RingSafety.RunKeeps | packetNtx/driver/Read.c:330-405 | so does every run |
| RingSafety.HistoryGrows | packetNtx/driver/Read.c:380 | what is logged or delivered is never changed or taken back later |
| RingSafety.ReadByteKeeps | packetNtx/driver/Read.c:363-375 | each byte the reader fetches is the packet's, whatever producers store in between |
| RingSafety.ReleaseCopy | packetNtx/driver/Read.c:346-380 | the reader's finished copy is the whole of the packet whose number comes next |
| RingSafety.HitPersists | packetNtx/driver/Read.c:340-345 | a head the reader could take stays there until it is taken, whatever producers do |
| RingSystem.HitMeansNext | packetNtx/driver/Read.c:340-346 | the reader's test, Free < Size and stored SN == ReaderSN, holds exactly for the ring whose first record is the next packet overall, and the header there is that packet's |
| RingSystem.SnIdentifies | packetNtx/driver/Read.c:344 | comparing 32-bit numbers is comparing positions in the global order, however often the counters wrap, because the rings cannot hold 2^32 packets |
| RingSystem.HeldFits | packetNtx/driver/Read.c:612 | packets held in all rings never outnumber the bytes of all rings |
| RingImage.SkipIsFree | packetNtx/driver/Read.c:612-736 | a packet that passes the admission test, which counts payload and header only, leaves room for the skipped tail as well |
| RingImage.NextIsCongruent | packetNtx/driver/Read.c:731-736 | the next record starts one increment further round the ring, with room for a whole header |
| RingImage.NextIsExact | packetNtx/driver/Read.c:646-736 | the next record starts where the bytes of this one end, modulo the size of the ring, or at 0 if no whole header fits there, and the increment is header, payload and the tail skipped in that case |
| RingImage.FreeIsDistance | packetNtx/driver/Read.c:612 | Free is the distance from P to C and tells an empty ring from a full one |
| RingImage.WritesStayFree | packetNtx/driver/Read.c:637-729 | stores confined to the reserved bytes leave every queued record as it is |
| RingImage.PublishKeeps | packetNtx/driver/Read.c:731-738 | publishing a complete record appends it to the queue and keeps the accounting, with Free not below zero |
| RingImage.ReleaseKeeps | packetNtx/driver/Read.c:342-390 | from C and the stored caplen alone the reader computes the producer's increment and lands on the producer's next offset |
| RingImage.ChainAppend | packetNtx/driver/Read.c:731-738 | a record stored where the queue's bytes end is the queue's last one |
| RingWrite.WrapWriteSplit | packetNtx/driver/Read.c:678-728 | a store that goes round the ring can be cut at any byte, which covers every position of the end in header or look-ahead |
| RingWrite.TwoBlits | packetNtx/driver/Read.c:657-664 | the two moves up to the end and from the start are one wrapped store |
| RingWrite.HeaderReadsBack | packetNtx/driver/Read.c:637-644 | a stored packet header reads back as the number, time stamp, caplen, datalen and hdrlen stored |
| RingWrite.HeaderLayout | packetNtx/driver/Read.c:637-644 | number, seconds, microseconds, caplen, datalen and hdrlen of a stored header lie in this order at bytes 0, 4, 8, 12, 16 and 20, least significant byte first |
| RingWrite.RecordHolds | packetNtx/driver/Read.c:637-729 | after the store of a record the reader finds exactly that packet, and no byte outside the record has changed |
| RingWrite.HeaderThenPayload | packetNtx/driver/Read.c:637-729 | header first and payload after is one wrapped store of the record |
| RingWrite.MoveStaysWithin | packetNtx/driver/Read.c:662-726 | a single memory move inside the reserved bytes changes no byte outside them |
| RingRuns.WritesRun | packetNtx/driver/Read.c:637-729 | the moves of a record, each inside the reservation, are one step of the producer each, whatever happens in between |
| CpuRing.CpuPrivateData.StoreTwoBuffers | packetNtx/driver/Read.c:674-729 | separate header and look-ahead, with the end of the ring before, between or in either of them, leave the ring and P as one wrapped store of the first fres bytes does, by moves that each stay inside those bytes |
| CpuRing.CpuPrivateData.StoreContiguous | packetNtx/driver/Read.c:650-673 | so do adjacent buffers |
| CpuRing.CpuPrivateData.TapDirect | packetNtx/driver/Read.c:629-738 | the whole direct path: ring bytes, P, Free, Accepted and WriterSN are those of one wrapped store of the record, every single move stays inside the reservation, and no byte of another CPU's slice changes |
| CpuRing.CpuPrivateData.TapTransfer | packetNtx/driver/Read.c:754-888 | with all allocations succeeding the deferred path never fails, without the first MDL or the NDIS packet it always does, and without the second MDL exactly if the missing bytes go round the end of the ring; every failure counts a drop and leaves P and Free; every single move stays inside the reservation, and exactly the missing bytes are described in one or two MDLs |
| CpuRing.CpuPrivateData.CompleteTransfer | packetNtx/driver/Read.c:963-1005 | the completion leaves ring, P, Free, Accepted and WriterSN as the direct path would, the increment taken from the caplen in the ring; the bytes NDIS fills and the stamp stay inside the reservation |
| CpuRing.CopyPathsAgree | packetNtx/driver/Read.c:754-1005 | the deferred path ends in the same image as the direct one from the same start |
| CpuRing.RestCompletes | packetNtx/driver/Read.c:913-917 | rest and stamp turn what the tap left behind into the record |
| CpuRing.CpuPrivateData.TakeHead | packetNtx/driver/Read.c:355-390 | copying out puts bpf header and payload behind each other in the user buffer and moves C and Free by the record's increment |
| CpuRing.RecordBytesOf | packetNtx/driver/Read.c:355-376 | what is copied out of a stored record is the packet's header and data |
| RingRuns.StoreRun | packetNtx/driver/Read.c:452-738 | the direct path is exactly the run receive, admit, number, one write per memory move, publish, and ends with the packet stored, numbered and logged |
| RingRuns.DeferRun | packetNtx/driver/Read.c:452-888 | the deferred path is exactly the run receive, admit, one write per move, and abandon if a descriptor cannot be had; it ends in the reservation, or in the packet counted as dropped |
| RingRuns.CompleteRun | packetNtx/driver/Read.c:991-1005 | completion is exactly the run of the writes that fill in the missing bytes, number, the remaining writes, publish |
| RingRuns.TakeRun | packetNtx/driver/Read.c:340-391 | taking a packet is exactly the run of one start, as many byte reads as the packet has bytes, and one release, and delivers that packet |
| UserBuffer.ParseRecovers | packetNtx/driver/Read.c:355-381 | walking the read buffer by header plus word-aligned caplen recovers exactly the packets packed into it |
| UserBuffer.FitTestIsSound | packetNtx/driver/Read.c:330-381 | the copy loop, in the 32-bit arithmetic of its fit test and advance, stores no byte behind the read buffer, whatever packets come, if and only if the read length is a multiple of four, too small for any packet, or one of the last three below 2^32 |
| UserBuffer.OverflowingOverflows | packetNtx/driver/Read.c:347-381 | for every other length, two packets with which it does: one whose data ends with the buffer, and one more byte |
| UserBuffer.PaddingFits | packetNtx/driver/Read.c:347-381 | in a buffer of whole words the aligned advance stays within the buffer and whole |
| Capture.OpenInstance.Tap | packetNtx/driver/Read.c:452-957 | each call is a run of the transition system; it rejects exactly on verdict 0, and drops, stores or defers exactly under the conditions of the code, failed allocations included, and counts accordingly; of a packet stored or deferred it keeps a prefix, no longer than the verdict or the packet and equal to one of the two, whose length also decides whether there is room; the log gets exactly the packet stored; the rings of all other CPUs stay byte for byte |
| Capture.OpenInstance.Store | packetNtx/driver/Read.c:629-738 | a packet at hand is stored by the run receive, admit, number, one write per move, publish, and logged |
| Capture.OpenInstance.TransferDataComplete | packetNtx/driver/Read.c:963-1005 | the reserved packet, completed with the bytes that arrived, is appended to the log by the run fill, number, stamp, publish; the rings of all other CPUs stay byte for byte |
| Capture.OpenInstance.Read | packetNtx/driver/Read.c:311-410 | for every read length the fit test is sound for, the buffer parses to exactly the packets next in the global order, the bytes behind are untouched, and the read stops only when the next packet does not fit or there is none |
| InterleavedRead.InterleavedReadParses | packetNtx/driver/Read.c:330-405 | however producers interleave with a read, walking the bytes it packs recovers exactly the packets it delivers, those next in the global order, and all of them stay inside the buffer |
| Capture.OpenInstance.HeadIsNextIsHit | packetNtx/driver/Read.c:340-344 | the test on the driver's fields and the test of the transition system agree |
| Capture.OpenInstance.RoundOfMisses | packetNtx/driver/Read.c:330-404 | NCpu misses in a row mean that all accepted packets have been delivered |
| Capture.OpenInstance.SetBufferSize | packetNtx/driver/Packet.c:1364-1416 | the per-CPU buffers are consecutive slices of one allocation, pairwise disjoint, and the instance is a fresh one; shares too small for a header leave no buffer, a failed allocation leaves instance and CPUs unchanged |
| Capture.OpenInstance.OthersKeep | packetNtx/driver/Packet.c:1399-1404 | a call that stays in its slice leaves every other CPU's ring byte for byte |
| Capture.SlicesApart | packetNtx/driver/Packet.c:1402 | each slice ends where the next one begins |
| Capture.OpenInstance.ResetBufferContents | packetNtx/driver/Packet.c:1896-1940 | a reset at a quiet point leaves a fresh instance, counters and numbers zero |
| Capture.OpenInstance.GetStats | packetNtx/driver/Packet.c:829-841 | the sums reported are those over the CPUs, with a buffer set or not; received = accepted + dropped + rejected + pending, and accepted is the length of the log |
| FilteredCapture.FilteredInstance.SetFilter | packetNtx/driver/Packet.c:906-1050 | a request without a buffer changes nothing; a plain program that the checker accepts, with memory there, succeeds and is the program in force; any other request fails and leaves no program; buffers and counters are emptied either way |
| FilteredCapture.FailedRequestKeepsFilter | packetNtx/driver/Packet.c:914-1041 | after a request that fails, the program in force is the old one if and only if the request came without a buffer or there was none |
| FilteredCapture.RefusedRequestAcceptsAll | packetNtx/driver/Packet.c:930-1002 | a concrete refused program on an instance that filters by Ethernet type: packets it rejected before are accepted afterwards |
| FilteredCapture.FilteredInstance.Tap | packetNtx/driver/Read.c:466-552 | a packet is rejected exactly if the run of the installed program on what is at hand returns 0 or fails a bounds test, and never without a program; of a packet that is stored as many bytes are kept as the program returns, or all; a run that goes wrong may give any verdict; the rings of all other CPUs stay |
| FilteredCapture.FilteredInstance.RequestThenTap | packetNtx/driver/Packet.c:906-1050 | the packet after a request is rejected exactly if the program just installed rejects it, never if the request failed and freed the old program, and by the old program if the request came without a buffer |
| FilteredCapture.SeesThePacket | packetNtx/driver/Read.c:466-519 | a program that returns byte k of the packet returns it if it is in the header or the look-ahead, wherever these are in memory, and fails a bounds test beyond; a program that returns the length returns that of the whole packet |
| FilteredCapture.FilterDecides | packetNtx/driver/Read.c:516-519 | an installed program decides every packet that is in one piece, unless it shifts by 32 places or more |
| FilteredCapture.VerdictIsFinal | packetNtx/driver/Read.c:466-519 | a verdict on the look-ahead not reached at a bounds test is the verdict on the whole packet; with the header apart it is the same verdict if and only if the run makes no misread load |
| BpfCode.DecodeInvertsEncode | Packet9x/VXD/win_Bpf.h:250-300 | the interpreter's switch has each operation under the opcode put together from its fields |
| BpfCode.EncodeInvertsDecode | Packet9x/VXD/win_bpf_filter.c:111-323 | it has no other opcode, so none has two readings |
| BpfArithmetic.AndOrAreBitwise | Packet9x/VXD/win_bpf_filter.c:265-271 | A & b and A \| b are the only words that have, bit by bit, what both have and what either has |
| BpfArithmetic.ShiftedBits | Packet9x/VXD/win_bpf_filter.c:277-279 | a shift to the right by n moves every bit down by n |
| BpfArithmetic.ComparisonsAreOrders | Packet9x/VXD/win_bpf_filter.c:215-241 | JGT, JGE and JEQ belong to one order for constants and another for X, which differ exactly on words of opposite top bits |
| BpfArithmetic.JsetSharesBit | Packet9x/VXD/win_bpf_filter.c:227-245 | JSET jumps exactly if the operands have a bit in common |
| BpfArithmetic.LoadsAreBigEndian | Packet9x/VXD/win_bpf_filter.c:75-83 | a load of any width is the number its bytes spell in network order |
| BpfLaws.TypeFilterSelects | Packet9x/VXD/win_bpf_filter.c:131-137 | the usual filter by Ethernet type returns the first value exactly for packets whose bytes 12 and 13 spell the type, and the second for all others |
| BpfLaws.JumpLaw | Packet9x/VXD/win_bpf_filter.c:211-242 | each jump by its opcode number: jt if the condition holds, jf if not; with constants the order is the signed one, with X the unsigned one |
| BpfLaws.BitJumpLaw | Packet9x/VXD/win_bpf_filter.c:227-246 | JSET jumps by jt exactly if the operands share a bit, by jf if not |
| BpfLaws.LoadLaw | Packet9x/VXD/win_bpf_filter.c:123-178 | each packet load by its opcode number, from a packet in one piece and at an offset that is not negative: A becomes the big-endian number of the bytes there, X added to the offset for indirect loads, and a load that reaches beyond the bytes present ends the program with 0 |
| BpfLaws.NegativeOffsets | packetNtx/driver/win_bpf_filter.c:529-672 | which negative offsets pass which bounds test: in the 9x driver all bytes, and the words and halves that wrap into the bytes present; in the NT driver none in one piece, and over two buffers also words at a constant and halves at an indexed offset that stay negative, whose test is signed |
| BpfLaws.HeaderLengthLaw | Packet9x/VXD/win_bpf_filter.c:179-186 | LDX MSH sets X to four times the low half of the byte |
| BpfLaws.TransferLaw | Packet9x/VXD/win_bpf_filter.c:147-193 | immediate and length loads, TAX and TXA, by their opcode numbers |
| BpfLaws.ScratchLaw | Packet9x/VXD/win_bpf_filter.c:195-209 | scratch loads and stores, by their opcode numbers; a store changes the one word named |
| BpfLaws.AddLaw | Packet9x/VXD/win_bpf_filter.c:247-249 | the result is the sum, or the sum less 2^32 |
| BpfLaws.SubLaw | Packet9x/VXD/win_bpf_filter.c:251-253 | the result is the difference, or the difference and 2^32 |
| BpfLaws.NegLaw | Packet9x/VXD/win_bpf_filter.c:313-315 | the result and A add up to 0 or to 2^32 |
| BpfLaws.MulLaw | Packet9x/VXD/win_bpf_filter.c:255-257 | the result is the word that differs from the product by a multiple of 2^32 |
| BpfLaws.DivLaw | Packet9x/VXD/win_bpf_filter.c:259-264 | the result is the greatest number of divisors in A; a zero X ends the program with 0, a zero constant is undefined |
| BpfLaws.LogicLaw | Packet9x/VXD/win_bpf_filter.c:265-271 | AND and OR, by their opcode numbers, bit by bit |
| BpfLaws.ShiftLeftLaw | Packet9x/VXD/win_bpf_filter.c:273-275 | bit k of the result is bit k - n of A, for shifts by less than 32; the bits that come in are zero |
| BpfLaws.ShiftRightLaw | Packet9x/VXD/win_bpf_filter.c:277-279 | bit k of the result is bit k + n of A, for shifts by less than 32 |
| BpfLaws.UnknownOpcodesAccepted | packetNtx/driver/valid_insns.h:54-56 | the three LDX loads of the list, which the interpreter does not know, pass both checkers; an unknown opcode of class MISC passes that of the 9x driver only |
| BpfValidate.Validate | Packet9x/VXD/win_bpf_filter.c:653-760 | the checker with its 32-bit jump arithmetic accepts exactly the programs of Accepted, in which jumps are compared without wrapping and constant divisors do not occur |
| BpfValidate.DivisionsLookAlike | Packet9x/VXD/win_bpf_filter.c:705-710 | the mask of the divisor test is never zero on a division, so the test never refuses |
| BpfValidate.AcceptsExactlySafe | Packet9x/VXD/win_bpf_filter.c:642-649 | of programs the interpreter understands, the checker accepts exactly those whose every step stays in the program, whose scratch indices are below 16 and whose last instruction returns |
| BpfValidate.NtxValidate | packetNtx/driver/win_bpf_filter.c:977-1149 | the NT checker accepts exactly those of them with listed opcodes and no division by a constant zero |
| BpfValidate.NtxAcceptsExactlySafe | packetNtx/driver/win_bpf_filter.c:977-1149 | of programs the interpreter understands, the NT checker accepts exactly the safe ones without a division by a constant zero |
| BpfValidate.ListIs | packetNtx/driver/valid_insns.h:35-115 | the list of valid opcodes is what the interpreter knows plus the three LDX loads it does not |
| BpfSafety.StepOfAccepted | Packet9x/VXD/win_bpf_filter.c:109-325 | a step of an accepted program moves the program counter forward inside the program, stays in the scratch memory, and fails exactly on a constant zero divisor, a shift of 32 or more, or a negative offset that passes the bounds test |
| BpfSafety.LoadFault | Packet9x/VXD/win_bpf_filter.c:123-185 | a load leaves the packet if and only if its offset is negative as an int and passes the bounds test |
| BpfSafety.RunAdvances | Packet9x/VXD/win_bpf_filter.c:109-639 | after n instructions, over one buffer or two, an accepted program has ended or its program counter has grown by n or more, still inside the program, with scratch indices below 16 |
| BpfSafety.EndsWithinLength | Packet9x/VXD/win_bpf_filter.c:642-649 | every accepted program, however long it is left to run, ends within as many instructions as it has, on every packet in one piece or in two and every content of the scratch memory, opcodes the interpreter does not know included |
| BpfSafety.FaultsExactlyAtHazards | Packet9x/VXD/win_bpf_filter.c:109-325 | a run goes wrong if and only if it arrives at an instruction that is hazardous in the state it is in |
| BpfStatic.StepKeepsBound | Packet9x/VXD/win_bpf_filter.c:179-193 | a bound on X found by following the jumps of the text holds whenever the program gets there |
| BpfStatic.TameProgramsGiveVerdicts | Packet9x/VXD/win_bpf_filter.c:642-649 | with checks on its text that the driver does not make, on divisors, shifts and offsets, an accepted program always gives a verdict; indirect loads and shifts by X pass where X is bounded |
| BpfSafety.NtxLoadsAreSafe | packetNtx/driver/win_bpf_filter.c:123-178 | the NT bounds test passes exactly the loads that lie in the bytes present |
| BpfSafety.NtxProgramsGiveVerdicts | packetNtx/driver/win_bpf_filter.c:109-430 | a program the NT checker accepts gives a verdict on every packet in one piece unless it shifts by 32 places or more |
| BpfSafety.DivisionByZeroIsAccepted | Packet9x/VXD/win_bpf_filter.c:709 | a two-instruction program that is accepted and divides by zero on every packet |
| BpfSafety.NegativeOffsetIsAccepted | Packet9x/VXD/win_bpf_filter.c:139-145 | a two-instruction program that is accepted and reads in front of every packet |
| BpfInterpreter.Switch | Packet9x/VXD/win_bpf_filter.c:111-324 | one pass through the switch, registers and scratch memory updated in place, is one step of the machine, of which the BpfLaws rows say what it does |
| BpfInterpreter.Interpret | Packet9x/VXD/win_bpf_filter.c:106-326 | the loop computes the run of the machine, and ends; what runs return is said by the BpfLaws rows |
| BpfInterpreter.BpfFilter | Packet9x/VXD/win_bpf_filter.c:91-326 | no program accepts everything, any other computes its run on the packet in one piece |
| BpfInterpreter.BpfFilterWith2Buffers | Packet9x/VXD/win_bpf_filter.c:337-639 | the same over header and data apart |
| BpfLookahead.LookAheadIsEnough | Packet9x/VXD/win_bpf_filter.c:86-90 | a run that does not end at a bounds test ends the same way on every longer part of the packet, and bytes from buflen on never matter |
| BpfLookahead.BoundsTestIsNotFinal | Packet9x/VXD/win_bpf_filter.c:139-145 | a run that does end at a bounds test may come out differently on one byte more |
| BpfLookahead.SplitLoadExact | Packet9x/VXD/win_bpf_filter.c:371-498 | a load over two buffers gives the value of the load on the joined packet if and only if it is none of those listed; the listed ones read outside |
| BpfLookahead.TwoBuffersRefine | Packet9x/VXD/win_bpf_filter.c:329-336 | a run over two buffers is the run over the joined packet if and only if that run makes none of the listed loads |
| BpfLookahead.ClearProgramsAvoid | Packet9x/VXD/win_bpf_filter.c:371-498 | a check on the text of a program and the header size that rules those loads out |
| BpfLookahead.TcpPortIsCovered | Packet9x/VXD/win_bpf_filter.c:163-185 | the usual program for a TCP port passes those checks: it gives a verdict on every packet, and the same one with the Ethernet header in a buffer of its own |
| BpfLookahead.EtherTypeGoesWrong | Packet9x/VXD/win_bpf_filter.c:400-413 | reading the type field of a separate Ethernet header goes wrong in the 9x driver and right in the NT driver |
| BpfLookahead.StraddlingWordGoesWrong | packetNtx/driver/win_bpf_filter.c:544-550 | a word with two bytes in the header and two in the data goes wrong in both |
| LifecycleSafety.CloseAdapterOnce | packetNtx/driver/Openclos.c:119-192 | in every run NdisCloseAdapter is called at most once, no thread holds the binding when it is about to be called or ever after, and the assertions of every next region hold |
| LifecycleSafety.UnboundForever | packetNtx/driver/Openclos.c:156-191 | every return from NPF_CloseBinding finds the instance unbound, and it stays unbound in every continuation |
| LifecycleSafety.DrainBeforeRelease | packetNtx/driver/Openclos.c:773-825 | when a cleanup has passed both gates no IRP is in the instance, and none is in any continuation |
| LifecycleSafety.StepKeeps | packetNtx/driver/Openclos.c:77-192 | every region of every thread keeps the invariant, in which both counters count the threads between a start and its stop |
| LifecycleSafety.RunKeeps | packetNtx/driver/Openclos.c:77-530 | so does every schedule |
| LifecycleSafety.Race | packetNtx/driver/Openclos.c:77-530 | any schedule carried out on the fields of one instance is the run of the model, and no assertion fails on the way |
| LifecycleProgress.SomeoneMoves | packetNtx/driver/Openclos.c:134-150 | as long as a thread is unfinished some thread has more to do than one more turn of a waiting loop |
| LifecycleProgress.StepProgress | packetNtx/driver/Openclos.c:522-527 | a region is a turn of a waiting loop or brings its thread nearer to its end |
| LifecycleProgress.FairSchedulesFinish | packetNtx/driver/Openclos.c:754-855 | under every schedule fair for long enough all IRPs are answered and all closers return; the adapter has been closed once if there was a closer and not at all otherwise, the resources released once per cleanup |
| Lifecycle.OpenInstance.StartUsingBinding | packetNtx/driver/Openclos.c:77-96 | succeeds exactly while bound, and then counts one more user |
| Lifecycle.OpenInstance.StopUsingBinding | packetNtx/driver/Openclos.c:98-117 | with its assertions as preconditions, counts one user less and changes nothing else |
| Lifecycle.OpenInstance.StartUsingOpenInstance | packetNtx/driver/Openclos.c:472-492 | succeeds exactly while no close is pending, and then counts one more IRP |
| Lifecycle.OpenInstance.CloseBinding | packetNtx/driver/Openclos.c:119-192 | each region between two points where the lock is free has the effect of the model's step: only the thread that finds the usage at zero and the status Bound goes on to call NdisCloseAdapter, under Unbinding, and awaits its completion; others return only once the status is Unbound, and cleanups release then |
| Lifecycle.OpenInstance.Advance | packetNtx/driver/Openclos.c:77-530 | the code of any thread's next region has exactly the effect of the model's step; on the fields, an arriving IRP is let in exactly if no close is pending, and a request for the binding is granted exactly if the instance is bound; both counters go up and down by one accordingly |
| LifecycleAccess.EveryRequestIsGranted | packetNtx/driver/Openclos.c:77-96 | without a cleanup or an unbind, and under every schedule fair for long enough, every IRP thread gets into the instance exactly once, has held the binding exactly as often as it asked for it, and is answered |
| LifecycleAccess.AccessCounts | packetNtx/driver/Openclos.c:472-492 | along any schedule without closers, the times a thread has come to hold the binding and the requests it has still to make add up to those it began with |
| BucketTable.Search | packetNtx/driver/bucket_lookup.c:73-110 | the halving walk stays inside the table, finds what a linear scan finds, and does so in at most 2 * floor(log2 n) + 1 turns |
| BucketTable.StaysOnTime | packetNtx/driver/bucket_lookup.c:95-108 | after k halvings the distance to the target is at most step plus k, and from step one on it shrinks by one a turn |
| BucketTable.TargetIsScan | packetNtx/driver/bucket_lookup.c:98-109 | the one place where the walk can stop is the interval a scan finds, or the right edge of the gap the value lies in |
| BucketTable.TmeData.Lookup | packetNtx/driver/bucket_lookup.c:58-182 | for keys of 16 and of 32 bits the reply is TME_TRUE if some interval of the table contains the value, or the table is empty and the value 0, and TME_FALSE otherwise; a hit replaces the key by the bounds of such an interval and points last_found at its record; a miss clears the key; the time of exactly one block changes, the hit one or the default one, and no bounds do; other key lengths change nothing |
| BucketTable.AnswerIsScan | packetNtx/driver/bucket_lookup.c:74-93 | Answer is yes exactly if some interval contains the value or zero is looked up in an empty table, which is the one case where a linear scan would say no |
| BucketTable.AcceptsIsSorted | packetNtx/driver/bucket_lookup.c:200-214 | the comparison with the last interval alone accepts exactly those intervals with which the longer table is sorted and disjoint and within the room |
| BucketTable.TmeData.InsertKey | packetNtx/driver/bucket_lookup.c:184-268 | an interval is accepted exactly if the table with it at its end is sorted and disjoint and a block and a record are free; then it fills the next of both, otherwise nothing changes |
| BucketTable.TableGrows | packetNtx/driver/bucket_lookup.c:200-226 | through any operations the intervals stay sorted and disjoint, grow only at the end and never beyond the room |
| BucketTable.FoundEverAfter | packetNtx/driver/bucket_lookup.c:95-128 | a value of an accepted interval is found, in that interval's block, after any further operations |
| BucketTable.FoundWasInserted | packetNtx/driver/bucket_lookup.c:216-228 | every interval in the table is what some accepted insert of the run put there |
| BucketTable.TmeData.Session | packetNtx/driver/bucket_lookup.c:58-268 | in any run of inserts and lookups on one table, of keys of 16 or of 32 bits, each insert is accepted exactly if the longer table is sorted and fits, and each lookup replies whether some interval accepted so far contains the value |

## Left out

- IRPs, MDL and packet objects, kernel events, page locking and spin locks themselves: primitives that do what they say; a transfer is taken to fill the bytes described.
- Memory ordering below single accesses: stores of one CPU are seen by the reader in program order, reading a record's number and bpf header is one step, and neighbouring fields of a header are stored by one move.
- RingSystem.Apply: the reader's updates of C, ReaderSN and Free are one step, since nobody else reads the first two.
- Several reads at once, and a reset or resize during a read or while a transfer is pending: the reader takes no lock, so resets are modelled at quiet points only.
- Wrap-around of the counters Received, Accepted and Dropped, which only count.
- Capture.OpenInstance.Read: read lengths that are not a multiple of four, with room for a packet; for these the loop may store behind the buffer, as `UserBuffer.OverflowingOverflows` shows, or, for the last three below 2^32, start again at its beginning; Read does not model the bytes there.
- Capture.OpenInstance.Refuse: the lock behind the test for a pending transfer. BufferLock is still held while a transfer is pending, so a second tap on that CPU spins before it comes to the test; the model tests at once and drops the packet, as the code would if it got there.
- Capture.OpenInstance.Tap: packets whose length together with a record header does not fit in 32 bits.
- MinToCopy, read timeouts and events, which decide when a reader is woken, not what it gets.
- Statistics, monitor and dump mode, sending packets, OID requests and their pool, and the just-in-time filter compiler used on 32-bit x86.
- The TME instructions of the NT machine: its model is the build without them, which is the 64-bit one.
- BpfSafety.NtxProgramsGiveVerdicts: what a shift by 32 places or more gives depends on the processor; the model says only that such a shift is reached, and `FilteredCapture.FilteredInstance.Tap` takes any value for the verdict of such a run.
- BpfLookahead.SplitLoadExact: in the 9x driver a word or half that starts right at the end of the header gets the right value, but reads one byte behind the header buffer on the way, which the model counts as outside.
- Lifecycle: waiting threads wake up again, NDIS completes a close, and a thread that holds the binding gives it back; that every exit of a dispatch routine stops what it started is built into the IRP thread.
- Freeing the instance itself in NPF_Close, and the open path with its adapter and MTU requests.
- BucketTable.TmeData.InsertKey: 16-bit inserts go to the block that the next record names, which other code sets; here and in Session the model asks that the records name the free blocks in order.
- What user programs or executors write into blocks of the interval table beyond bounds and time; a record holds a block number where memory holds a byte offset.
- BucketTable.TmeData.constructor: tables with no room for any interval.
- The ring of the Windows 9x driver, which tests and advances with different alignments; adapter and registry enumeration, installers and user-level libraries.
