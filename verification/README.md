# Verified model of the kappaio gateway core

kappaio is a ZigBee gateway daemon. This project models the parts of it whose correctness is not visible in any one
function body, and proves what they are relied on for:

- **Readers/writer lock** (`Sums.dfy`, `RwLock.dfy`, `KLockClass.dfy`): `klock_c`, three binary semaphores and a
  counter, for any set of threads and every interleaving of its semaphore operations and counter accesses.
- **Serial link** (`MtFrame.dfy`, `MtQueue.dfy`, `MtRing.dfy`, `MtStream.dfy`, `MtSession.dfy`, `MtThreads.dfy`): the
  frame builder, the 512-byte ring that the signal handler fills, the frame assembler, and any number of assembler
  threads. `MtQueue` states a run of the assembler on a queue of bytes, `MtRing` proves that the code on the ring does
  exactly that, `MtStream` proves what such runs deliver, `MtSession` puts ring, handler and assembler together.
- **Firmware image** (`Gf2.dfy`, `Crc.dfy`, `Firmware.dfy`, `FlashRun.dfy`, `FlashJob.dfy`, `ImageWrite.dfy`):
  polynomials over GF(2), the bit-serial CRC as division by x^16 + x^12 + x^5 + 1 (section 2 of ITU-T V.41), the
  errors it detects, the image check with its skipped field, and the flash loop with its three nested retries, for
  every way the device answers requests or leaves them unanswered. `FlashRun` and `FlashJob` say what the loops do
  with a chunk and with a file, as functions of the answers, `ImageWrite` proves the loops against them.
- **Requests and responses** (`Handlers.dfy`, `SyncInfo.dfy`, `DataService.dfy`, `MtHelper.dfy`, `MtLate.dfy`,
  `Correlation.dfy`): the list of receivers and the iterators into it, the flag-and-condition-variable rendezvous,
  `request` beside `indicate`, the synchronous calls over the serial link, without and with timeouts, and the matching
  of responses by an eight-bit number.
- **Codecs and the object store** (`Options.dfy`, `Wire.dfy`, `Hex.dfy`, `Descriptors.dfy`, `Archive.dfy`,
  `ObjectStore.dfy`, `Recovery.dfy`): hexadecimal printers and parsers, the descriptor parsers against the layouts of
  sections 2.3.2.3 and 2.3.2.5 of the ZigBee Specification, the archive of descriptors, the get-or-create lists of
  devices and endpoints, and the recovery of the archive into them.

Code that changes objects or buffers step by step is a class or a method with loops, proved against a specification
function on values. Protocols between threads are state machines whose steps are single reads, writes or system calls;
their theorems are about every run. What other threads do between two statements of `klock_c` is a parameter of the
methods of `KLock`.

## What the proofs show about the code

Properties that do not hold as one would expect are stated with the exact condition under which they do.

- `Offset` in the assembler is set once per thread, not once per frame. Noise followed by frames is delivered whole in
  one run if and only if there is no noise or at most one frame (`MtStream.NoiseThenFrames`). A frame left over is not
  lost, the next run takes it; frames are lost for good if and only if there is noise, a third frame, and the noise is
  no longer than what stands behind the second frame (`MtStream.NoiseLosesIff`). An iteration entered with `Offset`
  other than zero removes the right bytes if and only if the head of the ring is not SOF (`MtQueue.ExactRemoval`).
- `PacketBuffer` takes length bytes up to 252. The critical section copies past its end if and only if a frame with a
  larger length byte lies whole in the ring (`MtStream.CopyOverrunIff`), and a stream makes some run do so if and only
  if it has such a frame, in whatever chunks it arrives (`MtStream.OverrunIff`, with a stream in
  `MtStream.OverrunWitness`). Such frames are not only noise: the frame builder accepts any length byte. The model
  stops there with the outcome `Overrun`.
- `SerialRcv` does not check free space. After any reads the ring holds the newest 512 bytes of what was buffered and
  what was read (`MtRing.SerialBuffer.SerialRcv`). The assembler reads from the head, and what it finds there is the
  queue if and only if every byte written over equals the one that took its place (`MtRing.QueueKeptIff`); 513 bytes
  are enough to lose one (`MtRing.OverflowWitness`).
- The checksum length in `MTBuildAndSendCmd` is an eight-bit number, so it wraps for data lengths above 252: such a
  frame is sound if and only if the exclusive or of the bytes it does not cover is zero (`MtFrame.MTBuildAndSendCmd`).
- The flash loop remembers the acknowledgement of a write across its outer retries, so a write that was acknowledged
  but stored something else is only read again, never repeated. If every read is answered, `sb_image_write` therefore
  never returns -1 once the file is open, but exits (`FlashRun.ChunkNeeds`, `FlashJob.ReturnsZero`).
- A read that is not answered is not repeated: the last response is compared instead, an echo if it carries the chunk.
  For every device, a chunk is accepted although the block holds something else if and only if the first acknowledged
  write stored something else and some read without answer follows an echo (`FlashRun.FooledIff`); if failure
  responses never carry the chunk, that is the first read, behind an equal chunk (`FlashRun.FooledFirst`). An accepted
  chunk makes the result -1 if and only if its first read that is not answered with a failure does not accept it
  (`FlashRun.ReportIff`, `FlashRun.ReportFirst`). So the flash holds a file that fits if and only if no chunk is
  accepted without having been stored (`FlashJob.StoredIff`), which is known before the run of a device that answers
  all reads, or for a file without equal neighbouring chunks whose first chunk differs from what the response buffer
  holds (`FlashJob.ReliableSound`). Those files are the only ones: for every other some device makes 0 be returned for a
  wrong flash (`FlashJob.ReliedOnIff`, `FlashJob.RepeatFools`).
- The image check reads the first part of the file only, while the whole file is written: of a file longer than the
  16-bit word address reaches, only the last chunk sent to a block stays (`FlashJob.LongFile`).
- The wait for a response may time out, and responses are matched by their command alone. A call whose wait has begun
  is given its own answer only, in every run, if and only if nothing was given to it before and no answer of an
  earlier call is under way that it would take: one for the same response, or one the receiver has already matched
  (`MtLate.OwnAnswerIff`). Of any two calls for the same response the second can be given the answer of the first
  (`MtLate.LateAnswer`).
- Recovery looks devices up by network address. All archived devices come back if and only if no two of them were last
  saved with one network address; of those that share one, the last in the order of the records stays
  (`Recovery.RecoversAllIff`).
- `TxHandle::remove` moves the front receiver into the node of the removed one. All other handles stay valid if and
  only if the removed handle's node is the front (`Handlers.KeepsIff`), so overlapping requests must finish in reverse
  order (`Handlers.OwnIffLifo`); otherwise an iterator dangles (`Handlers.OverlapDangles`).
- `arm` assigns `sync` before `rdy`, and the receiver is in the list by then. `wait_for` returns true if and only if it
  found `rdy` set (`SyncInfo.ReturnMeans`); a response served before `arm` has ended is lost
  (`SyncInfo.EarlyResponseLost`).
- A request that holds the mutex to remove its receiver, while its node is not the front, would leave another handle
  dangling (`DataService.StepInvIff`). Two overlapping requests reach that state by steps that keep all handles good
  (`DataService.OutOfTurnReachable`). The holder of the mutex then has no other step (`DataService.HolderMovesIff`),
  so without the bad removal no request returns any more (`DataService.OutOfTurnStays`). From every other state all
  requests can return (`DataService.Drain`). What is proved of requests and deliveries is about runs without such a
  removal.
- A lookup of a device by its IEEE address creates a device with the address cut to sixteen bits as identifier and no
  address. It keeps identifiers unique, and finds again what it created, only under the conditions of
  `ObjectStore.ByIeeeKeepsIff` and `ObjectStore.ByIeeeAgainIff`; a leave request for an unknown address removes
  whatever device has its low sixteen bits (`ObjectStore.LeaveUnknown`).
- `newEndpoint` hands out an endpoint that is already in use exactly if the identifier asked for, 1 to 239 and 241 are
  all taken (`ObjectStore.NewIsShared`).
- `hexStrToByteVec` returns twice as many bytes as the text encodes, reading past its end; the first half is right,
  and the parsers read no further (`Hex.DecodeText`, `Descriptors.ArchivedSimple`).

Where C++ leaves the order of evaluation open (`hexStrToByteVec`, the doubly incremented pointer in
`node_desc_req_apdu_process`) the model takes the operands of `|` from left to right and the right operand of `+=`
first. The host is little-endian.

## Model

| member | source | states |
|---|---|---|
| `RwLock.StepInv` | src/kapi/source/kutil.cpp:271-341 | every semaphore operation or counter access of any thread keeps token accounting, head counts and the facts a thread relies on |
| `RwLock.Safety` | src/kapi/source/kutil.cpp:271-341 | from a new lock and under every schedule: a writer excludes readers and writers, the counter is the number of counted readers, semaphores stay binary, releases return 0 |
| `RwLock.NoDeadlock` | src/kapi/source/kutil.cpp:271-341 | while any operation is unfinished or the lock is held, some thread that is not idle can move, although readers wait for `exLock` holding `shLockPriv` |
| `RwLock.Drain` | src/kapi/source/kutil.cpp:271-341 | from every reachable state there is a schedule without new calls that ends with all threads idle and the lock as new |
| `RwLock.NoLivelock` | src/kapi/source/kutil.cpp:271-341 | without new calls the number of steps is bounded, so every schedule that keeps moving ends |
| `RwLock.ReaderAlone` | src/kapi/source/kutil.cpp:271-296 | while no other thread moves, in any state: a call of `shLockAcquire` becomes a counted reader exactly if `shLockPriv` and `shLock` are free and `exLock` is free or readers are counted; it takes `exLock` if it is the first, and gives the others back; else it is blocked |
| `RwLock.ReadersShare` | src/kapi/source/kutil.cpp:271-296 | in every reachable state in which all threads are idle or read, one more reader is let in beside them |
| `RwLock.WriterAlone` | src/kapi/source/kutil.cpp:324-328 | while no other thread moves, a writer gets the lock exactly if `exLock` is free |
| `RwLock.ReaderLeaves` | src/kapi/source/kutil.cpp:298-322 | while no other thread moves, a reader leaves exactly if `shLock` is free, and gives `exLock` back exactly if it is the last |
| `RwLock.WriterLeaves` | src/kapi/source/kutil.cpp:330-341 | likewise for a writer, which gives `exLock` back |
| `KLockClass.KLock.constructor` | src/kapi/source/kutil.cpp:247-258 | a new lock has three semaphores of value one and no reader |
| `KLockClass.KLock.ShLockAcquire` | src/kapi/source/kutil.cpp:271-296 | statement by statement with arbitrary interference: a call that finishes returns 0, is counted, holds off all writers; one that does not is blocked on a semaphore. While nobody else moves it finishes exactly under the condition of `RwLock.ReaderAlone`, with that effect, so always if all threads are idle or read |
| `KLockClass.KLock.ShLockRelease` | src/kapi/source/kutil.cpp:298-322 | a reader's release that finishes returns 0; while nobody else moves it finishes exactly if `shLock` is free |
| `KLockClass.KLock.ExLockAcquire` | src/kapi/source/kutil.cpp:324-328 | a call that finishes owns the lock alone; while nobody else moves it finishes exactly if `exLock` is free |
| `KLockClass.KLock.ExLockRelease` | src/kapi/source/kutil.cpp:330-341 | a writer's release that finishes returns 0; while nobody else moves it finishes exactly if `exLock` was taken and `shLock` is free |
| `MtFrame.MTBuildAndSendCmd` | src/hal/source/mtproc.c:220-237 | the bytes sent for any data length and for a null data pointer: 0xFE, length and command bytes, from the fifth byte on the data in their order, and a checksum over a length that wraps at 256; the frame is sound exactly if the bytes left out of the checksum cancel out, so always up to 252 bytes |
| `MtFrame.CmdFCSCal` | src/hal/source/mtproc.c:238-246 | the xor of the given bytes |
| `MtFrame.FrameIsSound` | src/hal/source/mtproc.c:220-246 | the frame of a command passes the receiver's check |
| `MtFrame.FrameInjective` | src/hal/source/mtproc.c:220-237 | different commands have different frames |
| `MtFrame.FrameCarries` | src/hal/source/mtproc.c:220-246 | where each byte of a command stands in its frame: length, type and identifier in front, then the data in order, then the byte that makes the xor zero |
| `MtQueue.TakenShape` | src/hal/source/mtintf.c:139-173 | what one critical section copies and what it leaves, as slices of the queue, for any carried `Offset` |
| `MtQueue.ExactRemoval` | src/hal/source/mtintf.c:139-173 | an iteration removes exactly noise and frame if and only if it was entered with `Offset` zero or the head is not SOF |
| `MtRing.SerialBuffer.SerialRcv` | src/hal/source/mtintf.c:110-131 | any number of reads over any number of wraps: the ring keeps the newest 512 bytes of what it held and what was read; as long as they fit, the queue gains exactly the bytes read |
| `MtRing.StoreKeepsNewest` | src/hal/source/mtintf.c:117-125 | storing a block keeps the newest 512 bytes, whatever it writes over |
| `MtRing.QueueKeptIff` | src/hal/source/mtintf.c:110-131 | once more than 512 bytes are buffered, what stands from the head on is the front of the queue if and only if each byte written over equals the one that replaced it |
| `MtRing.OverflowWitness` | src/hal/source/mtintf.c:110-131 | 513 buffered bytes of which the first is not found again |
| `MtRing.SerialBuffer.TakeLocked` | src/hal/source/mtintf.c:139-173 | the critical section on the ring is the one on the queue, whatever stale bytes the array holds |
| `MtRing.SerialBuffer.CopyPacket` | src/hal/source/mtintf.c:160-168 | the one or two copies give the slice that straddles the end of the array |
| `MtRing.SerialBuffer.MessageAssembler` | src/hal/source/mtintf.c:133-183 | a whole run on the ring hands up the packets, and leaves the bytes, of the run on the queue |
| `MtRing.SliceWraps` | src/hal/source/mtintf.c:160-168 | a slice of the queue is at most two pieces of the array |
| `MtStream.CopyOverrunIff` | src/hal/source/mtintf.c:139-173 | a critical section entered with `Offset` zero copies past the packet buffer if and only if the length byte is 253 or more and the frame lies whole in the queue |
| `MtStream.AssemblePrefix` | src/hal/source/mtintf.c:133-183 | one run on any prefix of a stream of frames of any length byte takes exactly the frames that lie whole in it, and overruns if and only if one of them does not fit |
| `MtStream.FeedUpToDate` | src/hal/source/mtintf.c:110-183 | chunk independence: some run overruns if and only if a frame received whole does not fit; else what has been handed up depends on the bytes arrived alone, and what is buffered is the unfinished frame |
| `MtStream.Delivery` | src/hal/source/mtintf.c:110-183 | a stream of frames with length bytes up to 252 in any chunks: all and only those with a right checksum are handed up, in order |
| `MtStream.OverrunIff` | src/hal/source/mtintf.c:110-183 | a stream of frames in any chunks overruns the packet buffer if and only if some length byte is 253 or more |
| `MtStream.OverrunWitness` | src/hal/source/mtintf.c:152-168 | a stream of one frame that does |
| `MtStream.RoundTrip` | src/hal/source/mtproc.c:220-246 | commands of up to 250 data bytes, framed, concatenated and cut into any chunks, come out as exactly their packets in order, each with length, type, identifier and data of its command in their places |
| `MtStream.PacketsInjective` | src/hal/source/mtproc.c:220-237 | the packets handed up determine the commands sent |
| `MtStream.AlterByte` | src/hal/source/mtintf.c:175-178 | altering one byte other than SOF and length makes a sound frame unsound |
| `MtStream.DamageIsLocal` | src/hal/source/mtintf.c:170-180 | a frame so damaged in a stream of frames that fit is dropped, and all other frames are still delivered in order |
| `MtStream.NoiseThenFrames` | src/hal/source/mtintf.c:135-149 | noise and then sound frames in one run: all are delivered by that run if and only if there is no noise or at most one frame |
| `MtStream.NoiseLosesIff` | src/hal/source/mtintf.c:135-173 | that run and what it leaves buffered make up the whole stream if and only if there is no noise, only one frame, or more noise than bytes behind the second frame; else frames are lost for good |
| `MtSession.Receive` | src/hal/source/mtintf.c:110-183 | over ring, port and assembler: while at most 512 bytes are buffered and no frame overruns the packet buffer, exactly the sound frames received whole are handed up, for every way the bytes arrive and are read; an overrun is reported only if a frame does not fit |
| `MtSession.ReceiveCommands` | src/hal/source/mtproc.c:220-246 | commands of up to 250 data bytes, framed and arriving over the ring in any pieces, never overrun the packet buffer; while at most 512 bytes are buffered packets that carry the commands are handed up in order, all of them once all bytes are read |
| `MtThreads.StepInv` | src/hal/source/mtintf.c:110-183 | every step of any number of assembler threads, and every arrival, also between the signal and the start of the thread for an earlier one, keeps each frame accounted for once |
| `MtThreads.StaleTest` | src/hal/source/mtintf.c:139-173 | in every state the invariant allows: a thread that passed the unlocked length test ends without touching the queue if no whole frame is there any more, overruns if one is that does not fit, else takes exactly that frame |
| `MtThreads.TakenOnce` | src/hal/source/mtintf.c:133-183 | in every interleaving each frame taken is handed up once with its own bytes, dropped for its checksum, or in the hands of one thread; an overrun happens only on a frame that does not fit |
| `MtThreads.AllDelivered` | src/hal/source/mtintf.c:133-183 | at rest an overrun has happened exactly if some frame does not fit; if all fit, the stream is in, the queue is empty and exactly the sound frames have been handed up, each once |
| `MtThreads.RunsEnd` | src/hal/source/mtintf.c:133-183 | every run has at most as many steps as the work at its start and four for each arrival, so without arrivals the threads come to rest |
| `Gf2.TimesGeneratorIsProduct` | src/sbl/source/serial_bootload.cpp:393-395 | the multiples used in the proofs are products with x^16 + x^12 + x^5 + 1, coefficient by coefficient |
| `Gf2.RemainderUnique` | src/sbl/source/serial_bootload.cpp:369-408 | a polynomial has one remainder |
| `Crc.RegisterIsRemainder` | src/sbl/source/serial_bootload.cpp:393-408 | loop invariant: after any bits the register is their polynomial modulo the generator |
| `Crc.Linear` | src/sbl/source/serial_bootload.cpp:393-408 | the CRC of an exclusive or is the sum of the CRCs |
| `Crc.BurstDetected` | src/sbl/source/serial_bootload.cpp:369-408 | strings that differ only within 16 consecutive bits have different CRCs, wherever the bits lie |
| `Crc.OddDetected` | src/sbl/source/serial_bootload.cpp:369-408 | any odd number of flipped bits changes the CRC |
| `Firmware.StepIsNext` | src/sbl/source/serial_bootload.cpp:399-406 | a round of the 16-bit register is the polynomial step |
| `Firmware.RunPoly` | src/sbl/source/serial_bootload.cpp:393-408 | the loop with the shifted byte feeds its eight bits, the highest first |
| `Firmware.CrcIsRegister` | src/sbl/source/serial_bootload.cpp:369-408 | the register over any byte string stands for the polynomial register over its bits |
| `Firmware.ChecksumIsRemainder` | src/sbl/source/serial_bootload.cpp:369-391 | the final CRC is the remainder of M(x) x^16 divided by the generator, and nothing else is |
| `Firmware.BitsAreBytes` | src/sbl/source/serial_bootload.cpp:369-408 | the bits the polynomial is made of are those of the bytes, the highest first |
| `Firmware.KnownChecksum` | src/sbl/source/serial_bootload.cpp:369-408 | the checksum of the nine ASCII digits is 0x31C3 |
| `Firmware.ChecksumLinear` | src/sbl/source/serial_bootload.cpp:369-408 | linearity under xor of byte strings |
| `Firmware.CalcCRC` | src/sbl/source/serial_bootload.cpp:369-391 | the loop computes the checksum of the image without the four bytes from 0x90 on, followed by two zero bytes |
| `Firmware.AdjacentBytesDetected` | src/sbl/source/serial_bootload.cpp:369-408 | a change of one byte or of two adjacent bytes always changes the checksum |
| `Firmware.OddFlipsDetected` | src/sbl/source/serial_bootload.cpp:369-408 | so does an odd number of flipped bits |
| `Firmware.ImageCheck` | src/sbl/source/serial_bootload.cpp:100-135 | 0 exactly for a file that opens, has at least 0x3A800 bytes, and whose bytes 0x90 and 0x91 are, low byte first, the checksum of the first 0x3A800 without 0x90 to 0x93, and neither 0x0000 nor 0xFFFF; else -1 |
| `Firmware.DamageRejected` | src/sbl/source/serial_bootload.cpp:122-129 | a good image damaged in one or two adjacent covered bytes, or in an odd number of bits, is rejected |
| `Firmware.FieldBytes` | src/sbl/source/serial_bootload.cpp:122-129 | of the four skipped bytes the first two admit one value only, the last two any |
| `ImageWrite.WriteTries` | src/sbl/source/serial_bootload.cpp:280-308 | unanswered writes are repeated without being counted; at most three answers, up to the first acknowledgement, none if an earlier round was acknowledged; only the addressed block changes |
| `ImageWrite.ReadTries` | src/sbl/source/serial_bootload.cpp:317-346 | at most three failed reads; the first other one decides by comparison, an unanswered one with the data of an earlier response |
| `ImageWrite.WriteChunk` | src/sbl/source/serial_bootload.cpp:267-358 | the three nested loops end as `ChunkEnd` says: acceptance, value to be returned, requests used, last response, and the block from the acknowledgement on |
| `FlashRun.ChunkNeeds` | src/sbl/source/serial_bootload.cpp:267-358 | if reads are answered, a chunk is accepted if and only if the first acknowledged write is among nine answered and stored the chunk, and a read succeeds within three per round left; the block then holds it |
| `FlashRun.Accepts` | src/sbl/source/serial_bootload.cpp:316-352 | a chunk is accepted only after an acknowledged write and on the response to the last read: the block holds it if that read was answered, else an earlier response carried the same data |
| `FlashRun.AcceptedIff` | src/sbl/source/serial_bootload.cpp:267-358 | for every device: a chunk is accepted exactly if one of nine answers acknowledges a write and one of the reads of the rounds left accepts it, answered with what that write stored or compared with an echo of the chunk |
| `FlashRun.FooledIff` | src/sbl/source/serial_bootload.cpp:316-352 | for every device: a chunk is accepted while the block holds something else exactly if the first acknowledged write stored something else and one of those reads, without an answer, follows an echo |
| `FlashRun.FooledFirst` | src/sbl/source/serial_bootload.cpp:316-352 | if no failure response carries the chunk, that read is the first one, and the echo the data of the response before the chunk |
| `FlashRun.ReportIff` | src/sbl/source/serial_bootload.cpp:316-346 | for every device: an accepted chunk leaves the value to be returned as it was exactly if its first read that is not answered with a failure accepts it; else it becomes -1 |
| `FlashRun.ReportFirst` | src/sbl/source/serial_bootload.cpp:316-346 | if no failure response carries the chunk: exactly if that read is answered, or is the first and the response before the chunk carried it |
| `ImageWrite.SbImageWrite` | src/sbl/source/serial_bootload.cpp:236-367 | for every device: exit exactly if a chunk is not accepted, else the value carried out of the last chunk; every block then holds what the last chunk sent to it ended with, and what the value says about the flash is stated exactly; at most 9 answered writes and 9 reads a chunk |
| `FlashJob.StoredIff` | src/sbl/source/serial_bootload.cpp:236-367 | after a run that accepted every chunk, the flash holds a file within the address space exactly if no chunk was accepted without having been stored |
| `FlashJob.ReliableSound` | src/sbl/source/serial_bootload.cpp:236-367 | none is, on a device that answers all reads, or for a file that repeats no chunk, if failure responses carry none of its chunks |
| `FlashJob.RepeatFools` | src/sbl/source/serial_bootload.cpp:236-367 | for every file with a repeated chunk there is a device that never fails and leaves one read unanswered, and for which the value returned stays 0 while that chunk is not in the flash |
| `FlashJob.ReliedOnIff` | src/sbl/source/serial_bootload.cpp:236-367 | the files that every device stores whenever the run accepts them, its failure responses carrying none of their chunks, are exactly those that repeat no chunk |
| `FlashJob.ReportsIff` | src/sbl/source/serial_bootload.cpp:236-367 | a run that accepts all chunks returns 0 exactly if each was accepted by its first read that was not answered with a failure, else -1 |
| `FlashJob.ReturnsZero` | src/sbl/source/serial_bootload.cpp:236-367 | if every read is answered, -1 is never carried out of an accepted chunk |
| `FlashJob.FlashIsFile` | src/sbl/source/serial_bootload.cpp:236-367 | then the flash equals every file that the 16-bit word address reaches, byte for byte, including a last chunk cut short |
| `FlashJob.LongFile` | src/sbl/source/serial_bootload.cpp:358-361 | of longer files the address wraps; a byte stays if its chunk was not accepted without having been stored and no later chunk is written to its block |
| `ImageWrite.FlashImage` | src/sbl/source/serial_bootload.cpp:58-98 | an image that fails its check is never written; one that was written is in the flash if every read was answered, and the result then is 0, or if it repeats no chunk and failure responses carry none of them; what the result says otherwise is stated exactly |
| `Handlers.RemoveTakesHeld` | src/aps/include/aps_data_service_impl.hpp:106-112 | a removal takes exactly the receiver its node holds out of the list, as a multiset |
| `Handlers.KeepsIff` | src/aps/include/aps_data_service_impl.hpp:88-112 | an operation keeps every live handle on its own receiver if and only if it registers or removes the front |
| `Handlers.OwnIffLifo` | src/aps/include/aps_data_service_impl.hpp:88-112 | over any run every live handle keeps its own receiver if and only if each removal is of the live receiver registered last |
| `Handlers.LifoIsNewest` | src/aps/include/aps_data_service_impl.hpp:88-112 | the node at the front of the list is that of the newest live receiver: removing the front and removing the newest are the same runs |
| `Handlers.OtherRemovalDangles` | src/aps/include/aps_data_service_impl.hpp:106-112 | any other removal frees the node of the front's receiver, whose handle then dangles |
| `Handlers.OverlapDangles` | src/aps/include/aps_data_service_impl.hpp:129-147 | the concrete case of two overlapping requests of which the older returns first |
| `Handlers.HandlerBuffer.Register` | src/aps/include/aps_data_service_impl.hpp:88-93 | a new front node with the new receiver; all live handles keep theirs |
| `Handlers.HandlerBuffer.Remove` | src/aps/include/aps_data_service_impl.hpp:106-112 | swap and pop have the effect of the specified removal |
| `SyncInfo.NoLostWakeup` | src/aps/include/aps_data_service_impl.hpp:51-81 | in every interleaving of arm, wait and any number of disarms, with timeouts and spurious wakeups: after a disarm that found the flag the waiter is not left blocked and its next test succeeds |
| `SyncInfo.WaiterReturns` | src/aps/include/aps_data_service_impl.hpp:63-70 | it then returns by itself, true if it had found the flag set, false if it had not yet looked |
| `SyncInfo.ReturnMeans` | src/aps/include/aps_data_service_impl.hpp:51-81 | in every run: `wait_for` has returned true exactly if the waiter found `rdy` set, with the mutex held, and then a `disarm` that found the request armed had set it; false exactly if the flag was cleared before the wait, or the time was over while the waiter was blocked and its last test found `rdy` unset; else it has not returned |
| `SyncInfo.WaitsForResponse` | src/aps/include/aps_data_service_impl.hpp:63-70 | so without a response and without the end of the time it does not return, however often it is woken |
| `SyncInfo.EarlyResponseLost` | src/aps/include/aps_data_service_impl.hpp:51-81 | a run in which a response between the two assignments of `arm` is served and yet lost |
| `DataService.StepInv` | src/aps/include/aps_data_service_impl.hpp:88-166 | every step of any number of requests and deliveries, a removal only if its node is the front, keeps mutual exclusion, handles and lifetimes |
| `DataService.StepInvIff` | src/aps/include/aps_data_service_impl.hpp:88-166 | a step keeps them if and only if it is not the removal of a node behind the front |
| `DataService.ServedIsAlive` | src/aps/include/aps_data_service_impl.hpp:129-166 | in runs whose removals are in reverse order of registration: a callback or disarm in progress belongs to a request that has not returned and whose SyncInfo is not freed; which request that is, `DataService.FirstIsServed` says |
| `DataService.FirstIsServed` | src/aps/include/aps_data_service_impl.hpp:149-166 | in every run whose removals are in reverse order of registration: a delivery that has ended ran the callback and then `disarm` of the first receiver in list order whose predicate accepts the message, once, and of no other, and returned whether there was one; one that has not ended is the last, and is working on that receiver |
| `DataService.NeverAgain` | src/aps/include/aps_data_service_impl.hpp:129-166 | in runs whose removals are in reverse order: once a request has returned its callback is never run again |
| `DataService.NoDeadlock` | src/aps/include/aps_data_service_impl.hpp:88-166 | while a request has not returned, and the holder of the mutex is not about to remove a node behind the front, some thread can take a step that keeps the reverse order |
| `DataService.HolderMovesIff` | src/aps/include/aps_data_service_impl.hpp:88-166 | the holder of the mutex has such a step if and only if it is not about to remove a node behind the front |
| `DataService.Drain` | src/aps/include/aps_data_service_impl.hpp:88-166 | from every other state of such runs there is a schedule, removals in reverse order, after which all requests that were under way have returned |
| `DataService.OutOfTurnReachable` | src/aps/include/aps_data_service_impl.hpp:129-147 | two overlapping requests reach the stuck state by steps that all keep the reverse order |
| `DataService.OutOfTurnStays` | src/aps/include/aps_data_service_impl.hpp:129-147 | no run that keeps the reverse order leads out of it, and no request returns in it |
| `DataService.HandleIsGood` | src/aps/include/aps_data_service_impl.hpp:98-105 | in runs whose removals are in reverse order: the accesses through the handle outside the mutex reach the request's own receiver |
| `MtHelper.StepInv` | src/hal/source/mt_helper.cpp:145-249 | every step of callers, receiver and peer keeps the accounting of the one message |
| `MtHelper.OneInFlight` | src/hal/source/mt_helper.cpp:145-172 | at most one request of a subsystem is in flight, that of the caller that waits |
| `MtHelper.SignalMeetsWait` | src/hal/source/mt_helper.cpp:202-249 | the signal cannot precede the wait: when it is given, the caller it announces the answer to is the one thread that is blocked |
| `MtHelper.OwnAnswer` | src/hal/source/mt_helper.cpp:145-249 | a call that has returned did so with 0 and the answer to its own request, in its buffer or through its callback |
| `MtHelper.NoDeadlock` | src/hal/source/mt_helper.cpp:145-249 | while a call has not returned some step is possible |
| `MtHelper.AllAnswered` | src/hal/source/mt_helper.cpp:145-249 | every run is finite, and one that cannot go on has answered every call |
| `MtLate.DoSane` | src/hal/source/mt_helper.cpp:145-249 | with timeouts as steps: every step keeps the accounting of semaphore, mutex, fields and answers under way |
| `MtLate.DeliveredIff` | src/hal/source/mt_helper.cpp:186-203 | a matched answer is delivered exactly if some call owns the semaphore when the receiver tries it; else nothing is delivered and the semaphore is given back |
| `MtLate.AlwaysOwn` | src/hal/source/mt_helper.cpp:145-249 | a call whose wait began with no answer under way that it would take is given its own answer only, in every run until it gives the semaphore back |
| `MtLate.OwnAnswerIff` | src/hal/source/mt_helper.cpp:145-249 | for every call whose wait has begun: that it is given its own answer only, in every run, holds exactly if nothing else was given to it before and no such answer is under way |
| `MtLate.LateAnswer` | src/hal/source/mt_helper.cpp:174-249 | of any two calls for one response there is a run in which the first times out and the second gives the semaphore back with the answer of the first |
| `Correlation.AtMostOneMatch` | src/zdo/include/zdo.h:38-50 | while outstanding requests drew their numbers within the last 256 calls a response matches at most one receiver |
| `Correlation.UnambiguousIff` | src/zdo/include/zdo.h:38-50 | no response is ambiguous if and only if no two outstanding calls of one response cluster are a multiple of 256 apart |
| `Correlation.MatchMeans` | src/zdo/include/zdo.h:38-50 | what matches, in numbers: the first byte is the number of the call modulo 256, the cluster that of the request with the top bit set, the endpoint 0 |
| `Correlation.Indicate` | src/aps/include/aps_data_service_impl.hpp:149-166 | the first receiver that matches is served, if any does |
| `Correlation.ResponseFindsOwn` | src/zdo/include/zdo.h:38-50 | the response to an outstanding request matches that request and no other |
| `Correlation.SameNumber` | src/aps/source/apsdb.cpp:116-120 | two calls of the counter give the same number exactly if they are a multiple of 256 apart |
| `Correlation.ResponsesFindTheirRequest` | src/aps/source/apsdb.cpp:116-120 | in every run of drawing, registering and removing, recent requests are told apart |
| `Hex.DigitValue` | src/kapi/source/kutil.cpp:239-245 | the value of a printed digit is the number printed |
| `Hex.IsDigitValue` | src/kapi/source/kutil.cpp:239-245 | a value of at most 15 exactly for the hexadecimal digits |
| `Hex.ByteToHexString` | src/kapi/source/kutil.cpp:100-108 | two digits a byte in order, and the terminator |
| `Hex.TextBytes` | src/kapi/source/kutil.cpp:100-108 | the two digits of each byte printed are its hexadecimal numeral |
| `Hex.IntToStr` | src/kapi/source/kutil.cpp:201-218 | the digits of a little-endian integer of any width, most significant first |
| `Hex.StrToInt` | src/kapi/source/kutil.cpp:168-198 | -1 exactly if one of the digits is none, else the little-endian value |
| `Hex.TextIsNumeral` | src/kapi/source/kutil.cpp:201-218 | `kIntToStr` prints the hexadecimal numeral of the number the bytes stand for |
| `Hex.ValueIsNumeral` | src/kapi/source/kutil.cpp:168-198 | `kStrToInt` stores the bytes of the number that the numeral denotes |
| `Hex.IntRoundTrip` | src/kapi/source/kutil.cpp:168-218 | `kStrToInt` undoes `kIntToStr` for every width and value |
| `Hex.TextRoundTrip` | src/kapi/source/kutil.cpp:168-218 | `kIntToStr` undoes `kStrToInt` but for the case of letters |
| `Hex.TextInjective` | src/kapi/source/kutil.cpp:201-218 | different integers of one width have different texts |
| `Hex.HexStrToByteVec` | src/kapi/include/kutil.h:117-129 | the vector it returns for any text and any memory behind it |
| `Hex.DecodeText` | src/kapi/include/kutil.h:117-129 | the first n bytes decoded from the text of n bytes are those bytes |
| `Descriptors.SimpleDescriptor.Process` | src/zdo/source/zdo.cpp:202-231 | the fields and lists in place are those of the descriptor in the message |
| `Descriptors.SimpleFields` | src/zdo/source/zdo.cpp:202-231 | at which offset of the message each field and each cluster stands, as a little-endian number |
| `Descriptors.SimpleRoundTrip` | src/zdo/source/zdo.cpp:202-231 | the parser inverts the layout of section 2.3.2.5 for all cluster lists |
| `Descriptors.ParsedLayout` | src/zdo/source/zdo.cpp:202-231 | the layout inverts the parser on exactly the bytes its counts announce |
| `Descriptors.NodeDescriptor.Process` | src/zdo/source/zdo.cpp:183-200 | the fields in place are those of the descriptor in the message |
| `Descriptors.NodeFields` | src/zdo/source/zdo.cpp:183-200 | from which bits of which byte each field comes, as numbers |
| `Descriptors.NodeRoundTrip` | src/zdo/source/zdo.cpp:183-200 | the parser inverts the layout of section 2.3.2.3 |
| `Descriptors.ParsedNodeLayout` | src/zdo/source/zdo.cpp:183-200 | no bit of the thirteen bytes is lost |
| `Descriptors.ArchivedSimple` | src/zdo/source/zdo.cpp:249-262 | parsing the recovered text gives what parsing the original message gave, if its announced bytes were stored |
| `Descriptors.ArchivedNode` | src/zdo/source/zdo.cpp:249-251 | likewise for the node descriptor |
| `Descriptors.ArchivedEndpoints` | src/zdo/source/zdo.cpp:249-252 | likewise for the list of active endpoints |
| `Archive.HoldsLastDev` | src/zdo/source/zdo_archive.cpp:37-148 | over any sequence of saves and removals the archive holds for each device and label the text saved last, the addresses being rewritten by every save |
| `Archive.HoldsLastEndpoint` | src/zdo/source/zdo_archive.cpp:76-120 | likewise for each endpoint, whose identifier every save rewrites |
| `Archive.KeyIsNumeral` | src/zdo/source/zdo_archive.cpp:37-148 | the texts of addresses are their hexadecimal numerals |
| `Archive.RecoversAddresses` | src/zdo/source/zdo.cpp:247-249 | recovery reads the network address saved last and the IEEE address of the device, through the texts and the parser of integers |
| `Archive.RecoversDevice` | src/zdo/source/zdo.cpp:247-252 | recovery parses the node descriptor and endpoint list saved last |
| `Archive.RecoversEndpoint` | src/zdo/source/zdo.cpp:254-262 | recovery parses the simple descriptor saved last |
| `Recovery.RecoverEndpoint` | src/zdo/source/zdo.cpp:247-249 | the loop over the records looks each up by network address and gives what it finds or creates the IEEE address |
| `Recovery.StaysIff` | src/zdo/source/zdo.cpp:247-249 | a record is in the list afterwards exactly if no later one has its network address |
| `Recovery.RecoversAllIff` | src/zdo/source/zdo.cpp:247-249 | after any saves and removals, in any order of the records, all archived devices come back with both addresses exactly if the network addresses saved last are pairwise different |
| `ObjectStore.Device.EndpointExist` | src/aps/include/aps_object_models_impl.hpp:142-148 | whether the identifier is in the list |
| `ObjectStore.Device.EndpointPtr` | src/aps/include/aps_object_models_impl.hpp:133-141 | the endpoint with the identifier; only if there was none, a new one in front |
| `ObjectStore.Device.ActiveEndpoints` | src/zdo/source/zdo.cpp:175-181 | every identifier listed is looked up, repeats included |
| `ObjectStore.LookedAllOrder` | src/zdo/source/zdo.cpp:175-181 | of a list of new identifiers the one named last comes to stand in front, and the old ones stay behind in order |
| `ObjectStore.Device.NewEndpoint` | src/aps/include/aps_object_models_impl.hpp:179-188 | the identifier asked for if free, else the smallest free of 1 to 239, else 241 |
| `ObjectStore.StaysUnique` | src/aps/include/aps_object_models_impl.hpp:133-192 | under any sequence of lookups, endpoint lists and new endpoints the identifiers stay unique and none is lost |
| `ObjectStore.NewIsShared` | src/aps/include/aps_object_models_impl.hpp:179-188 | exactly when a new endpoint is an old one |
| `ObjectStore.NewIdentifierExists` | src/aps/include/aps_object_models_impl.hpp:179-188 | there is exactly one identifier to give |
| `ObjectStore.Device.AssocsById` | src/aps/include/aps_object_models_impl.hpp:172-172 | the first device with the identifier, the list unchanged; if there is none a new one in front, with that identifier and no address |
| `ObjectStore.Device.AssocsByIeee` | src/aps/include/aps_object_models_impl.hpp:173-173 | the first device with the address, the list unchanged; if there is none a new one in front, with the low sixteen bits of the address as identifier and without that address |
| `ObjectStore.Device.RemoveAssoc` | src/aps/include/aps_object_models_impl.hpp:191-191 | all devices with the identifier are removed, the others stay in order |
| `ObjectStore.WithoutPieces` | src/aps/include/aps_object_models_impl.hpp:191-191 | removing from a list is removing from its parts: what is kept keeps its order and number |
| `ObjectStore.Device.MgmtLeave` | src/zdo/source/zdo.cpp:332-337 | the list operations of the leave request |
| `ObjectStore.ByIdKeeps` | src/aps/include/aps_object_models_impl.hpp:172-172 | lookups by identifier keep identifiers unique |
| `ObjectStore.ByIeeeKeepsIff` | src/aps/include/aps_object_models_impl.hpp:173-173 | lookups by address do so exactly if the address is known or its low sixteen bits are not in use |
| `ObjectStore.ByIeeeAgainIff` | src/aps/include/aps_object_models_impl.hpp:173-173 | a second lookup finds what the first created exactly if the address was known or is zero |
| `ObjectStore.LeaveKnown` | src/zdo/source/zdo.cpp:332-337 | a leave request for a known address removes that device only |
| `ObjectStore.LeaveUnknown` | src/zdo/source/zdo.cpp:332-337 | for an unknown one it removes the devices with its low sixteen bits |

## Left out

- Sockets, TLS, the UNIX socket server, logging, start-up, plugins, watchdog and scripts: I/O and plumbing.
- JSON: the archive is a map from address texts to records of texts; of the parser of integers what it does with the
  hexadecimal texts that the archive writes.
- termios, signals and file descriptors: `read` returns some prefix of what is pending or fails; a signal handler that
  interrupts a thread inside its critical section is not modelled, and the unlocked length test of the assembler is
  one atomic read.
- Memory beyond what the properties need: allocation failure in `MTBuildAndSendCmd`, and the rest of C string buffers.
- SbImageWrite: a device that never answers a write again is excluded, since the write loop then does not end; so are
  read errors of the file, and the handshake loop before it. A request is answered in time or never: an answer after
  the timeout, which the next request for the same response would be given (`MtLate.LateAnswer`), is left out of the
  flash loop.
- Apply: an empty message is stored as an empty text; the source would take the text from a buffer of size zero.
- ImageCheck: a read of the image file is never short unless the file is.
- SyncInfo and MtHelper: modelled on values as state machines, one step per statement; flags are sequentially
  consistent, real time is a nondeterministic step or, in MtHelper, excluded together with spurious wakeups and
  unsolicited messages; MtLate adds the timeouts. The model then does not capture objects in memory.
- MtLate: the serial port is not opened again after a timeout, which could lose bytes.
- MtHelper: calls without buffer and callback, which bypass the semaphore, out-of-band messages, and `mtRecv`'s own
  status; one subsystem, whose resource the initialisation loop has covered.
- DataService: a request waits for some time and then goes on; what ends the wait is proved in SyncInfo. Which messages
  a receiver accepts does not change while it is registered; what `zdpPred` accepts is proved in Correlation.
- Process: the parsers of descriptors require a message as long as its own counts say, as the source does of its
  callers.
- The EXT message variants repeat the same protocol; AF message encoding, `sb_image_read`, big-endian branches, base64
  and the dispatch table of `MT_ProcessIncoming` would add only easy members.
