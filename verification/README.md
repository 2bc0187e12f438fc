# MDU: a Dafny model of the multi-drop update protocol

MDU updates the firmware (ZSU) and the sound projects (ZPP) of model railway decoders over the track. A command
station sends bits as the time between two zero crossings; a decoder classifies the times, reassembles packets, checks
them, queues them for a slower task, and answers with current pulses inside an acknowledgement phase.

The model follows the C++ and C sources branch by branch. What changes state there is a class here, and each of its
methods is proved equal to a function on values (`Receiver.Rx`, `Transmitter.Tx`, `Zsu.Session`, ...); the properties
are then proved about those functions, over every input and every run.

| files | what they hold |
|---|---|
| `Bytes`, `Crc`, `CrcProofs`, `Polynomials`, `CrcRemainder` | bytes as bits; both checksums as mutable registers; what they accept and always detect; the division they are the remainders of |
| `Timing`, `Frame` | the timing table, the classifier, the shape of a frame |
| `Timings`, `Transmitter`, `TransmitterProofs`, `RmtEncoder` | the three encoders, the transmitter in both storage variants, what it sends and calls over every run, the resumable hardware encoder |
| `Command`, `Packets`, `ReadBack` | command codes, packet builders, soundness of a packet; what a decoder reads from a built packet |
| `Receiver`, `ReceiverProofs` | the receiver's state machine with its two-slot ring; its invariant over every bit |
| `Interleaving`, `FrameProofs`, `Acknowledge`, `ExecutionProofs`, `Lockstep`, `TransferRates`, `Link`, `LateSelection` | interrupt against task; wire round trip; acknowledge pulses; the answer to every command executed; both ends on one track; rate changes of a population; a packet from one end to the other; a run in which the ends lose step |
| `BinaryTreeSearch`, `SearchExchange`, `SearchTrack`, `TreeSearch` | the search for decoders: the decoder's automaton, one command from packet to answer, the track, and the command station |
| `Addresses`, `FlashMemory`, `Zsu`, `ZsuProofs`, `ZsuFlash`, `Zpp`, `ZppProofs`, `Mixins` | the two update sessions, alone and together, what their calls leave in the flash, and the packets that carry their commands |
| `EntryPoint`, `EntryProofs` | the recogniser of the DCC CV verify words that enter an update |

Main results:

- **Wire round trip.** From any reachable receiver state one ackreq bit synchronises, and then any frame with at least
  14 preamble bits and 4 to 268 bytes, every duration anywhere in its window, leaves exactly its bytes in the slot
  being filled, while the executing task runs in between at any points that leave the rate as it is, or at any points
  at all if the frame has fallback timing (`FrameProofs.WireRoundTrip`). A duration is taken for a bit exactly if it
  is off that bit's nominal duration by no more than the rate's tolerance (`Timing.UnderstoodWithinTolerance`).
- **Encoders.** All three send the same bits for every packet but the empty one. Over every run each duration sent is
  that of the bit owed, at the rate set last while idle, and every packet has the preamble and ackreq bits configured
  last while idle (`TransmitterProofs.SentIsPaid`, `TransmitterProofs.PacketGoesOutAsTold`).
- **Checksums.** The CRC32 is the remainder of 32 ones, the message and 32 zeros divided by its polynomial over GF(2),
  the CRC8 that of the message and eight zeros, low bits first (`CrcRemainder.Crc32IsRemainder`,
  `CrcRemainder.Crc8IsRemainder`).
- **No aliasing, nothing lost.** Over every interleaving the slot being filled is never the one being executed and
  every accepted packet is executed once, in order, unchanged (`Interleaving.EveryRunIsSafe`).
- **Both ends joined.** A sound packet handed to an idle transmitter is received by a listening decoder, that packet
  and nothing else (`Link.SentPacketArrives`).
- **Acknowledge windows meet.** While the decoder understands what is sent and is not selected in mid-phase, it pulses
  only at zero crossings where the command station looks for that channel (`Lockstep.EveryPulseMeetsItsHook`).
- **Answers.** For every frame, from any state, which pulses a decoder gives in both channels
  (`Acknowledge.FrameIsAnswered`, `Acknowledge.CutFrameIsNacked`), and for every command executed what it makes of the
  rest of the phase (`ExecutionProofs`).
- **The search finds everyone once,** in ascending order, and ends: over the track, each command sent as a packet,
  received, executed and answered by pulses, the station lists exactly the numbers made of decoder id and serial
  number (`TreeSearch.CommandStation.OneWireSearch`), from decoders just switched on as well
  (`TreeSearch.SearchNewTrack`).
- **Resuming is invisible.** Whatever memory the copy encoder finds, the symbols are the uninterrupted ones
  (`RmtEncoder.MduEncoder.Encode`, `RmtEncoder.MduEncoder.EncodeInPieces`).
- **Update sessions over a bad channel.** Over every command sequence the flash holds exactly the pieces accepted
  since the last clear, on top of what was there then, and a successful erase erases exactly the range it names
  (`ZsuFlash.ContentsTellHistory`, `ZppProofs.ContentsTellHistory`). As long as no write fails, an accepted address
  range means the whole image, in order, for firmware and for projects (`ZsuProofs.AcceptedImageIsComplete`,
  `ZppProofs.EndedImageIsComplete`).

Places where the plain expectation is false of the code, or of its documentation, are stated as exact conditions:

- Encoders differ on the empty packet: the iterator adds an end bit (`Timings.EncodersAgreeExactly`); the duration
  buffer has room only while preamble and ackreq bits together stay within 30 (`Timings.CapacityFitsExactly`).
- At medium and slow speed 48 and 96 microseconds are both zero and ackreq, and count as zero
  (`Timing.SharedEndpointIsZero`).
- The hardware encoder reports completion early exactly when the symbol that fills the memory is an ackreq symbol
  short of the last (`RmtEncoder.MduEncoder.EncodeIntoRoom`); the end of a packet is the state's return to the
  preamble.
- A decoder selected while ackreq bit `count` of `last` is on the wire still answers in the right places up to the end
  of the phase exactly if that bit is the first, or too few bits are left: only the last one for a decoder with a nack
  to give, at most five for any other (`Lockstep.LateSelectionMisaligns`). Two pings from power-up lead to a decoder
  that does not (`LateSelection.LateSelectionHappens`).
- A misread ackreq bit restarts the decoder's count: its later pulses up to the end of the phase meet their hooks
  exactly if at most one bit is left for a nack and fewer than six for an ack (`Lockstep.MisreadMisaligns`), as at 48
  and 96 microseconds (`Lockstep.SharedEndpointMisaligns`). After a rate change in mid-phase the rest of the phase is
  understood coming from fallback or from medium to fast, and gets no pulse at all otherwise, unless the change is
  from fast to medium (`Lockstep.RateChangeInPhase`).
- A Busy query executed before the end of its ackreq phase is answered as busy by an idle decoder with no valid
  project, in what is left of channel 2, against README.md:398 of the repository (`Mixins.BusyQueryAnswer`); with both
  sessions present every firmware command is refused until a project is found valid (`Mixins.ZsuNeedsValidProject`).
- After a failed write the address tried first stays. An image accepted by its addresses has all its blocks iff the
  address tried first is that of the first block written (`ZsuProofs.AcceptedImageHasNoGapExactly`), and when `endZpp`
  is called for an image, the image is whole iff the same holds of its pieces
  (`ZppProofs.EndedImageIsCompleteExactly`); the flash then holds it iff the bytes before the first piece were there
  at the last clear (`ZppProofs.EndedImageInFlashExactly`). Either may be false: a firmware image of two blocks is
  accepted by its addresses with its second block alone, which is all the checksum is then compared against
  (`ZsuProofs.FailedFirstWriteHidesGap`); `endZpp` is called for any image cut in two with only the second piece in
  the flash (`ZppProofs.FailedFirstWriteEndsGap`), and a project session has no final checksum to notice.
- Every attempt to write firmware moves the keystream on, failed ones too (`ZsuProofs.KeystreamCountsAttempts`): an
  image accepted by its addresses is complete and decrypted as meant iff no attempt failed
  (`ZsuProofs.DecryptedAsMeantExactly`), and in a flash erased before it holds the image iff the same
  (`ZsuFlash.ErasedImageInFlashExactly`); the condition for any flash is `ZsuFlash.ImageInFlashExactly`. The checksum
  covers the ciphertext and does not notice: a decoder that leaves the firmware holds the image as meant iff no
  attempt failed (`ZsuProofs.LeavesAsMeantExactly`, `ZsuFlash.LeavesWithImageExactly`), and one that does not is let
  go (`ZsuProofs.ShiftedImageIsLeft`).
- A project exit reads an address that is not there iff something was tried since the last clear, nothing accepted and
  no range confirmed (`ZppProofs.ExitUndefinedExactly`). It leaves with unconfirmed pieces in the flash iff an earlier
  range was confirmed and pieces were accepted since, against README.md:555 of the repository
  (`ZppProofs.ExitKeepsUnconfirmedExactly`), as after four commands (`ZppProofs.WritesAfterEndAreKept`). A failed
  `endZpp` is reported once only (`ZppProofs.RepeatedEnd`); a repeated block is rewritten iff its length is a multiple
  of 2^32, in particular if it is empty (`ZppProofs.RepeatedUpdate`).
- The builder of CV write packets builds CV read packets (`Packets.CvWriteBuilderReads`).
- An entry word that follows a half-spelled one is lost unless its start is repeated
  (`EntryProofs.WordEntersExactly`).

## Model

| member | source | states |
|---|---|---|
| `Bytes.PutBitAppends` | include/mdu/rx/base.hpp:183-185 | or-ing a received bit into the partial byte appends it to the left-aligned bits so far and leaves the rest clear |
| `Crc.Crc8.Next` | include/mdu/crc8.hpp:39-51 | the eight table constants are eight bit-serial steps of x^8+x^5+x^4+1, reflected |
| `Crc.Crc8.NextAll` | include/mdu/crc8.hpp:53-55 | a span is folded byte by byte |
| `Crc.ComputeCrc8` | include/mdu/crc8.hpp:65-69 | the CRC8 of a byte sequence from a fresh register |
| `Crc.Crc32.Next` | include/mdu/crc32.hpp:21-29 | the shift loop feeds the byte's bits, first bit first, through the polynomial register |
| `Crc.Crc32.Value` | include/mdu/crc32.hpp:35-42 | reading yields the register after four zero bytes and leaves the register as it was |
| `Crc.ComputeCrc32` | include/mdu/crc32.hpp:53-57 | the checksum of a byte sequence, zero bytes included |
| `CrcProofs.Crc8Accepts` | include/mdu/crc8.hpp:38-56 | a frame ends in a zero register iff its last byte is the CRC8 of the rest |
| `CrcProofs.Crc8SeesByteChange` | include/mdu/crc8.hpp:38-56 | frames that differ in one byte never end in the same register |
| `CrcProofs.Crc32BitsLinear` | include/mdu/crc32.hpp:21-29 | the register is linear over xor in register and input together, for messages of any length |
| `CrcProofs.Crc32BitsInjective` | include/mdu/crc32.hpp:21-29 | different registers stay different under every message |
| `CrcProofs.Crc32Accepts` | include/mdu/crc32.hpp:20-45 | after any prefix and four bytes the receiver reads zero iff those bytes are the prefix's checksum |
| `CrcProofs.Crc32SeesWindowChange` | include/mdu/crc32.hpp:20-45 | a change confined to four adjacent bytes always changes the reading |
| `CrcRemainder.Crc32IsRemainder` | include/mdu/crc32.hpp:20-57 | the checksum is the one remainder of 32 one bits, the message and 32 zero bits divided by x^32+x^26+x^23+x^22+x^16+x^12+x^11+x^10+x^8+x^7+x^5+x^4+x^2+x+1 over GF(2) |
| `CrcRemainder.Crc8IsRemainder` | include/mdu/crc8.hpp:38-69 | the checksum, low bit first, is the one remainder of the message, low bits first, and eight zero bits divided by x^8+x^5+x^4+1 |
| `Timing.ClassifiesExactly` | include/mdu/bit.hpp:27-32 | a time is understood as a bit iff it lies in that bit's window at the receiver's rate or at fallback, ackreq above the zero window |
| `Timing.NominalIsUnderstood` | include/mdu/timing.hpp:60-65 | every nominal duration is inside its window and understood at its own rate, fallback at any |
| `Timing.WindowIsTolerance` | include/mdu/timing.hpp:42-65 | every window is the nominal duration give or take the tolerance in percent, with what is short of a whole microsecond forgiven at the lower end |
| `Timing.UnderstoodWithinTolerance` | include/mdu/bit.hpp:27-32 | a duration is taken for a bit iff it is within the tolerance of that bit at the rate set or at fallback, and what could be zero or ackreq is zero |
| `Timing.SharedEndpointIsZero` | include/mdu/bit.hpp:28-30 | an ackreq-window time is not taken as ackreq exactly at 48 (medium) and 96 (slow) |
| `Timing.AckreqAcrossRates` | include/mdu/timing.hpp:60-132 | which receivers understand every ackreq bit sent at another rate, and which understand none |
| `Frame.DataBitsAt` | include/mdu/tx/timings_adapter.hpp:66-81 | bit k of the data phase by division and remainder by nine |
| `Frame.DataBitsInjective` | include/mdu/tx/timings.hpp:49-53 | the data phase determines its bytes |
| `Timings.Bytes2Timings` | include/mdu/tx/timings.hpp:34-69 | filling the buffer through a moving position yields the durations of the whole frame |
| `Timings.FillByte` | include/mdu/tx/timings.hpp:49-53 | a start bit and eight bits, most significant first, appended |
| `Timings.CapacityFitsExactly` | include/mdu/tx/timings.hpp:22-26 | the buffer takes every packet iff preamble and ackreq bits together are at most 30 |
| `Timings.TimingsAdapter.Deref` | include/mdu/tx/timings_adapter.hpp:60-82 | the k-th duration computed on demand is that of the k-th bit |
| `Timings.TimingsAdapter.AtEnd` | include/mdu/tx/timings_adapter.hpp:84 | the iterator ends after exactly its bits |
| `Timings.EncodersAgreeExactly` | include/mdu/tx/timings_adapter.hpp:40-47 | iterator and eager encoder yield the same bits iff the packet is not empty |
| `Transmitter.PacketTransmitter.Init` | include/mdu/tx/base.hpp:55-69 | refused without effect unless idle, else the new configuration with the ackreq count at its end |
| `Transmitter.PacketTransmitter.SetTransferRate` | include/mdu/tx/base.hpp:76-82 | refused without effect unless idle |
| `Transmitter.PacketTransmitter.Bytes` | include/mdu/tx/base.hpp:104-127 | refused without effect unless idle, else the packet's bits are to be sent |
| `Transmitter.PacketTransmitter.Transmit` | include/mdu/tx/base.hpp:132-170 | one crossing: next bit's duration, new state, and the calls into the command station |
| `Transmitter.TimingsTransmitter.Bytes` | include/mdu/tx/base.hpp:104-127 | as above for the variant that stores durations |
| `Transmitter.TimingsTransmitter.Transmit` | include/mdu/tx/base.hpp:132-170 | as above for the variant that stores durations |
| `Transmitter.PendingGoesOut` | include/mdu/tx/base.hpp:55-137 | while bits are pending all requests are refused and the pending bits go out in order, whatever is requested when |
| `Transmitter.RunThenOnes` | include/mdu/tx/base.hpp:132-137 | left alone it sends what is pending, then ones for ever, and is idle from exactly that point |
| `Transmitter.PacketGoesOutAsFrame` | include/mdu/tx/base.hpp:104-137 | a packet handed over while idle goes out as preamble, bytes, end bit and ackreq bits, then ones |
| `TransmitterProofs.TransmitterTellsHistory` | include/mdu/tx/base.hpp:55-137 | over every run what is still to be sent, the configuration and the rate are those promised, told and set while nothing was owed; exactly then a request is taken |
| `TransmitterProofs.SentIsPaid` | include/mdu/tx/base.hpp:76-137 | over every run each duration is the nominal one of the bit owed, at the rate set last |
| `TransmitterProofs.PacketGoesOutAsTold` | include/mdu/tx/base.hpp:104-153 | a packet handed over while nothing is owed goes out with the preamble and ackreq bits configured last, at the rate set last, whatever is asked for until it is out |
| `TransmitterProofs.PhaseIsCalled` | include/mdu/tx/base.hpp:158-170 | while it goes out the command station is called at the first and the last ackreq bit and at bits 2 to 4 and 6 to 8, and at no other crossing |
| `TransmitterProofs.IdleCallsNobody` | include/mdu/tx/base.hpp:132-137 | owing nothing it sends ones and calls nobody |
| `RmtEncoder.CopyEncoder.Encode` | src/rmt_mdu_encoder.c:60-65 | one symbol or none, with its flags, at the adversary's choice |
| `RmtEncoder.MduEncoder.EncodePreamble` | src/rmt_mdu_encoder.c:80-108 | continues the preamble until it is out or memory is full |
| `RmtEncoder.MduEncoder.EncodeData` | src/rmt_mdu_encoder.c:137-173 | continues the byte; on to the next start bit or the end bit once all eight are out |
| `RmtEncoder.MduEncoder.EncodeAckreq` | src/rmt_mdu_encoder.c:200-237 | continues the ackreq bits and wraps to the preamble after the last |
| `RmtEncoder.MduEncoder.Encode` | src/rmt_mdu_encoder.c:247-310 | any call either stops for memory with an initial part of the packet's symbols out, or wraps with exactly all of them; completion is early iff a non-final ackreq symbol filled the memory |
| `RmtEncoder.MduEncoder.EncodeInPieces` | src/rmt_mdu_encoder.c:247-310 | over any number of resumed calls the memory holds a prefix of the uninterrupted symbols, all of them once wrapped; that takes at most one call more than symbols, not counting the calls that found no room at all |
| `RmtEncoder.MduEncoder.Reset` | src/rmt_mdu_encoder.c:336-344 | back to the start of a packet at low level |
| `RmtEncoder.MduEncoder.EncodeIntoRoom` | src/rmt_mdu_encoder.c:300-304 | with `room` symbols copied before the memory is full, the call completes short of the packet's end iff the symbol that fills the memory is an ackreq symbol short of the last |
| `RmtEncoder.FrameSymbolsAreDurations` | src/rmt_mdu_encoder.c:350-365 | symbol k has the duration of bit k of the frame in two near-equal halves of one level, the levels alternating from low |
| `RmtEncoder.TablesAgree` | src/rmt_mdu_encoder.c:424-430 | the encoder's own durations equal the timing table's |
| `BinaryTreeSearch.Decoder.Search` | src/rx/binary_tree_search.cpp:22-44 | answer and drop-out of one decoder for every position |
| `BinaryTreeSearch.OnlyReadsAreAnswered` | src/rx/binary_tree_search.cpp:25-44 | only a reset and a read that matches are answered; a decoder drops out only where told to with a matching bit, until a reset |
| `SearchExchange.NumberJoins` | src/rx/binary_tree_search.cpp:29-32 | bit i of the number searched is bit i of the serial number and bit 32 + i bit i of the decoder id, both as the numbers their bytes stand for, and no other number is |
| `SearchExchange.Hear` | include/mdu/rx/base.hpp:329-335 | a decoder receives a search packet bit by bit, executes it and answers in the ackreq bits that follow: exactly as the search says for its number |
| `SearchTrack.Track.Broadcast` | tests/tx/binary_tree_search_test.cpp:82-119 | one command sent over the track as a packet: any decoder's answer is heard, and every decoder moves |
| `TreeSearch.CommandStation.ReadBit` | tests/tx/binary_tree_search_test.cpp:93-104 | heard iff some decoder on the path so far has the bit, or lacks it |
| `TreeSearch.CommandStation.SetSearchDirection` | tests/tx/binary_tree_search_test.cpp:108-119 | exactly the decoders on the extended path stay in |
| `TreeSearch.CommandStation.SearchPass` | tests/tx/binary_tree_search_test.cpp:32-70 | one pass follows the old path to its deepest branch, turns there, and then keeps to the least ids |
| `TreeSearch.CommandStation.OneWireSearch` | tests/tx/binary_tree_search_test.cpp:25-79 | for every non-empty population of decoders on the track the search ends with the number of each, decoder id above serial number, listed once, ascending, and nothing else |
| `TreeSearch.SearchNewTrack` | tests/tx/binary_tree_search_test.cpp:16-79 | the same for any decoders just switched on and a new transmitter, so that a search can start |
| `TreeSearch.PassStep` | tests/tx/binary_tree_search_test.cpp:36-70 | one bit of a pass: never silence on both reads, and the path and deepest branch stay right |
| `TreeSearch.PassFindsSuccessor` | tests/tx/binary_tree_search_test.cpp:31-78 | each later pass finds the next greater id |
| `TreeSearch.FirstPassFindsLeast` | tests/tx/binary_tree_search_test.cpp:31-78 | the first pass finds the least id |
| `TreeSearch.NoBranchNoSuccessor` | tests/tx/binary_tree_search_test.cpp:75-77 | without a branch left the id found is the greatest |
| `Command.CommandOfCode` | include/mdu/command.hpp:18-38 | every command's code decodes to it, whatever follows |
| `Command.OnlyItsCode` | include/mdu/packet.hpp:31-33 | only a command's own code decodes to it |
| `Command.CodesInNumbers` | include/mdu/command.hpp:18-38 | every code as the 32-bit number it stands for |
| `Packets.WordRoundTrip` | include/mdu/utility.hpp:69-75 | a word survives the way through its four bytes |
| `Packets.BytesRoundTrip` | include/mdu/utility.hpp:38-41 | four bytes survive the way through a word |
| `Packets.WordValue` | include/mdu/utility.hpp:38-41 | four bytes stand for their number, most significant byte first |
| `Packets.PacketIsSound` | include/mdu/packet.hpp:40-337 | every packet of the builders' common shape, code, data and checksum of both, carries its command and passes its check |
| `Packets.CvWriteBuilderReads` | include/mdu/packet.hpp:96-123 | a packet built to write a CV is the sound packet that reads the bit of that number |
| `Packets.SoundIffTrailer` | include/mdu/rx/base.hpp:234-247 | a packet passes iff its trailer is the checksum of the rest, CRC32 for the update commands and CRC8 otherwise |
| `Packets.ChangeIsNoticed` | include/mdu/rx/base.hpp:234-247 | a change after the command, one byte wide or for updates four, makes every sound packet fail |
| `ReadBack.PingRoundTrip` | include/mdu/rx/base.hpp:290-317 | a ping built with two numbers selects exactly the decoders whose numbers match, zero matching all |
| `ReadBack.ShortPingRoundTrip` | include/mdu/rx/base.hpp:290-317 | a ping built with one byte selects exactly the decoders whose id starts with it, zero matching all |
| `ReadBack.PingBySize` | include/mdu/rx/base.hpp:290-317 | which fields a ping is taken to have, by its size alone: one byte of a decoder id up to 8 bytes, a serial number from 9, both numbers from 12 |
| `ReadBack.SearchRoundTrip` | include/mdu/rx/base.hpp:80-83 | a search packet is read as the position it was built for |
| `ReadBack.BusyRoundTrip` | include/mdu/packet.hpp:128-134 | a built Busy packet is read as that command and has no data |
| `Receiver.Base.Receive` | include/mdu/rx/base.hpp:49-53 | one zero crossing: whole new state and the pulses given |
| `Receiver.Base.PreamblePhase` | include/mdu/rx/base.hpp:126-135 | ones are counted, the rest resets or, after ten, starts the data |
| `Receiver.Base.DataPhase` | include/mdu/rx/base.hpp:140-144 | a bit is shifted in, anything else resets |
| `Receiver.Base.EndBitPhase` | include/mdu/rx/base.hpp:149-157 | a zero goes on, a one checks and perhaps queues the packet, anything else resets |
| `Receiver.Base.AckReqPhase` | include/mdu/rx/base.hpp:163-176 | counts, and pulses in bits 2-4 for nack and 6-8 for ack, at the timing the bit came in |
| `Receiver.Base.ShiftInBit` | include/mdu/rx/base.hpp:183-193 | the eighth bit feeds both checksums and the slot past the end |
| `Receiver.Base.Reset` | include/mdu/rx/base.hpp:196-203 | slot, counters, partial byte, ack and both checksums back, in preamble |
| `Receiver.Base.PacketValid` | include/mdu/rx/base.hpp:209-213 | valid iff nothing is queued and the right checksum is clear |
| `Receiver.Base.Busy` | include/mdu/rx/base.hpp:221-227 | answers a Busy query, refuses while a packet is queued |
| `Receiver.Base.CrcCheck` | include/mdu/rx/base.hpp:234-247 | which checksum decides and what both channels will say |
| `Receiver.Base.Execute` | include/mdu/rx/base.hpp:62-99 | the front packet takes its effect and leaves the queue, given what hardware and sessions answer |
| `Receiver.Base.ExecutePing` | include/mdu/rx/base.hpp:290-317 | selected iff every number given matches, in the short and the long form |
| `Receiver.Base.ExecuteConfigTransferRate` | include/mdu/rx/base.hpp:322-326 | an unsupported rate is answered, a known one taken |
| `Receiver.InplaceDeque.PopFront` | include/mdu/rx/base.hpp:360 | the oldest packet leaves, the other slots stay |
| `ReceiverProofs.StepInv` | include/mdu/rx/base.hpp:126-203 | in preamble all is initial; in data and end bit both registers are the fold over the slot and slot plus partial byte are exactly the bits received; the queue grows only by an accepted packet |
| `ReceiverProofs.ShiftInByte` | include/mdu/rx/base.hpp:183-193 | the eighth bit completes the byte in slot, registers and history alike |
| `ReceiverProofs.DataGoesOn` | include/mdu/rx/base.hpp:140-157 | inside a packet every proper bit extends the history by itself and queues nothing |
| `ReceiverProofs.BitKeepsSettings` | include/mdu/rx/base.hpp:126-203 | receiving never changes rate, selection or the front, and queues only into an empty ring |
| `ReceiverProofs.CountAfterBit` | include/mdu/rx/base.hpp:163-203 | the ackreq count goes up on ackreq for a selected decoder and is zero after any other bit |
| `ReceiverProofs.ActiveSincePreamble` | include/mdu/rx/base.hpp:126-135 | a decoder becomes active with the first preamble it receives, at the first bit after ten ones that is neither one nor ackreq, and stays so |
| `Interleaving.StepKeepsInv` | include/mdu/rx/base.hpp:62-99 | every step of interrupt or task, in any order, keeps slots apart and packets conserved |
| `Interleaving.RunExtendsLogs` | include/mdu/rx/base.hpp:62-99 | over every run the logs of received and executed packets only grow |
| `Interleaving.EveryRunIsSafe` | include/mdu/rx/base.hpp:62-99 | over every run from power-up at most one packet is queued, never the slot being filled, and the executed packets are the received ones in order up to one still waiting |
| `FrameProofs.AckreqSynchronises` | include/mdu/rx/base.hpp:49-53 | one ackreq bit puts a receiver in any state at the start of a frame |
| `FrameProofs.FrameGoesOn` | include/mdu/rx/base.hpp:126-157 | every bit of a frame finds room and moves the receiver one place on |
| `FrameProofs.FrameFillsSlot` | include/mdu/rx/base.hpp:126-193 | after the last data bit the slot holds exactly the frame's bytes, whatever was executed meanwhile |
| `FrameProofs.EndBitQueues` | include/mdu/rx/base.hpp:149-157 | the end bit queues the packet iff it is sound and none waits |
| `FrameProofs.JitterIsHeard` | include/mdu/bit.hpp:27-32 | durations anywhere in their windows are heard as the bits sent |
| `FrameProofs.WireRoundTrip` | include/mdu/rx/base.hpp:49-53 | from any state, one ackreq bit and a jittered frame leave its bytes in the slot, and the end bit queues them iff sound and nothing waits, whatever is executed in between as long as the rate stays or the timing is fallback |
| `Acknowledge.PulsePattern` | include/mdu/rx/base.hpp:163-176 | from a fresh count, bits 2-4 carry the nack, 6-8 the ack, all others nothing |
| `Acknowledge.PulseLength` | include/mdu/rx/base.hpp:163-176 | a pulse lasts 100 microseconds for a fallback ackreq bit and at the default rate, 80 at slow, 40 at medium and fast speed |
| `Acknowledge.CutFrameIsNacked` | include/mdu/rx/base.hpp:126-176 | a frame cut before its end bit gets three channel 1 pulses iff two preamble bits were counted or a nack was pending, none in channel 2, and leaves the queue alone |
| `Acknowledge.GarbledPacketIsNacked` | include/mdu/rx/base.hpp:140-157 | a bit that is neither zero, one nor ackreq gives a packet up: nothing is queued and three channel 1 pulses follow |
| `Acknowledge.FrameRunQuiet` | include/mdu/rx/base.hpp:126-193 | short of its end bit a frame changes neither queue nor selection and withdraws an old ack |
| `Acknowledge.CompleteFrameIsAnswered` | include/mdu/rx/base.hpp:209-247 | three channel 1 pulses after a complete packet iff it was not queued; for Busy iff it was corrupt |
| `Acknowledge.FrameIsAnswered` | include/mdu/rx/base.hpp:209-247 | the pulses after a whole frame from any state: channel 1 iff it was corrupt, or refused and no Busy query; channel 2 iff it was a sound Busy query while a packet waits, or a corrupt update or initialization vector while none does |
| `ExecutionProofs.CvReadIsAnswered` | include/mdu/rx/base.hpp:341-344 | a CV read is answered in channel 2 iff the bit is set |
| `ExecutionProofs.CvWriteIsAnswered` | include/mdu/rx/base.hpp:350-353 | a CV write is answered in channel 2 iff it failed |
| `ExecutionProofs.SearchIsAnswered` | include/mdu/rx/base.hpp:329-335 | a search command is answered as the search says for the decoder's number |
| `ExecutionProofs.AnyRateIsAnswered` | include/mdu/rx/base.hpp:322-326 | a rate not supported is answered and not taken, a supported one taken silently, one that does not exist ignored |
| `ExecutionProofs.PingIsAnswered` | include/mdu/rx/base.hpp:290-317 | a ping is answered by the decoders it selects, selected before or not; the others fall silent in both channels |
| `ExecutionProofs.UnselectedIgnores` | include/mdu/rx/base.hpp:73 | a decoder that is not selected drops every packet but a ping unread |
| `ExecutionProofs.SwitchedOn` | include/mdu/rx/base.hpp:355-368 | a decoder just switched on is selected, at the default rate, not yet active, silent in every ackreq bit, and answers no search command but a reset |
| `Lockstep.StaysAligned` | include/mdu/tx/base.hpp:158-170 | transmitter and receiver on shared crossings keep the same ackreq count, while the decoder understands what is sent and is not selected in mid-phase |
| `Lockstep.PulseMeetsHook` | include/mdu/tx/channel.hpp:22-36 | a pulse in a channel falls on the crossing where the command station calls that channel's hook |
| `Lockstep.EveryPulseMeetsItsHook` | include/mdu/tx/base.hpp:158-170 | the same over every run from power-up in which the decoder understands what is sent and is not selected in mid-phase; so never in a reference bit, bit 5 or from bit 9 on |
| `Lockstep.LateSelectionMisaligns` | include/mdu/rx/base.hpp:308-317 | from an aligned track with ackreq bit `count` of `last` on the wire, a ping that selects leaves every later pulse of the phase, in both channels, at its hook iff `count` is 1, or no later bit is left and a nack is to be given, or fewer than five are left and none is |
| `Lockstep.AllMeetInRightPlaces` | include/mdu/tx/base.hpp:158-170 | for a decoder that counts any number of bits behind the transmitter, which of its pulses meet their hooks up to the end of the phase |
| `Lockstep.MisreadMisaligns` | include/mdu/rx/base.hpp:163-203 | an ackreq bit misread with more to come: no pulse then, and all later pulses of the phase meet their hooks iff only one bit is left for a nack and fewer than six for an ack |
| `Lockstep.SharedEndpointMisaligns` | include/mdu/bit.hpp:27-32 | an ackreq bit of 48 (medium) or 96 (slow) is inside its window and misaligns an ackreq phase so, iff there is a nack to give and more than one bit is left |
| `Lockstep.RateChangeInPhase` | include/mdu/rx/base.hpp:322-326 | after a rate change in mid-phase the ends stay aligned; the rest of the phase is understood if the old rate was fallback or the change is from medium to fast, and gets no pulse if the change is any other but fast to medium |
| `Link.SentPacketArrives` | include/mdu/tx/base.hpp:104-137 | a sound packet sent by an idle transmitter, every duration in its window, is received by a listening decoder at the same rate or at fallback: that packet and nothing else |
| `Link.BuiltPacketArrives` | include/mdu/tx/base.hpp:132-153 | the same for every packet built, at the very durations the transmitter asks for |
| `LateSelection.LateSelectionHappens` | include/mdu/rx/base.hpp:308-317 | from power-up a run of two pings leads to a decoder selected in mid-phase, a later pulse of which misses its hook |
| `TransferRates.RateStaysSupported` | include/mdu/rx/base.hpp:322-326 | every run keeps the index fallback or at least the configured rate |
| `TransferRates.RateIsAlwaysSupported` | include/mdu/rx/base.hpp:322-326 | over all runs from power-up the index is fallback or at least the configured rate |
| `TransferRates.PacketIsQueued` | include/mdu/timing.hpp:75-132 | a sound packet timed at the decoder's own rate, or at fallback whatever that is, is queued by a ready decoder, and an ackreq phase opens without a nack |
| `TransferRates.RatePacketTakesEffect` | include/mdu/rx/base.hpp:322-326 | executed, it sets the rate if supported, else keeps it and answers |
| `TransferRates.DecoderReconverges` | include/mdu/transfer_rate.hpp:27-31 | one fallback-timed frame and one execution bring a decoder to the rate if it supports it |
| `TransferRates.PopulationReconverges` | include/mdu/rx/base.hpp:322-326 | one frame brings all supporting decoders of any population to one rate, the others keep theirs and answer |
| `Zsu.Mixin.ExecuteCommand` | include/mdu/rx/mixin/zsu.hpp:41-70 | new session, answer and hardware calls of every firmware command |
| `Zsu.Mixin.ExecuteErase` | include/mdu/rx/mixin/zsu.hpp:110-117 | registers and addresses cleared, the flash erased |
| `Zsu.Mixin.ExecuteUpdate` | include/mdu/rx/mixin/zsu.hpp:125-140 | lost, already written, or decrypted and written, with the checksum over the ciphertext |
| `Zsu.Mixin.ExecuteCrc32Start` | include/mdu/rx/mixin/zsu.hpp:149-154 | refused unless both addresses match, else the checksum is compared |
| `Zsu.Mixin.ExecuteCrc32Result` | include/mdu/rx/mixin/zsu.hpp:162-167 | leaves iff asked to and valid, else answers |
| `ZsuProofs.SessionTellsHistory` | include/mdu/rx/mixin/zsu.hpp:110-154 | over every command sequence the registers say what a reference history of written blocks says |
| `ZsuProofs.HistoryIsConsecutive` | include/mdu/rx/mixin/zsu.hpp:125-140 | blocks written since an erase follow on one another modulo 2^32 |
| `ZsuProofs.ExitExactlyWhenVerified` | include/mdu/rx/mixin/zsu.hpp:149-167 | the firmware is left iff the latest address-matching checksum command since the erase carried the checksum of the blocks then written |
| `ZsuProofs.WritesFollowHistory` | include/mdu/rx/mixin/zsu.hpp:131-138 | over every command sequence the writes are exactly the blocks of the history, in order, at their addresses, each under the keystream block numbered by the writes and failed attempts between the initialization vector and it |
| `ZsuProofs.ChannelKeeps` | include/mdu/rx/mixin/zsu.hpp:110-154 | over a lossy, repeating, reordering channel and writes that may fail, the blocks written are a contiguous run of the image, each placed after all before it and the attempts failed so far |
| `ZsuProofs.AcceptedImageIsComplete` | include/mdu/rx/mixin/zsu.hpp:149-154 | with no failed write, an address-matching checksum command for the image means the whole image, in order, once, rightly decrypted |
| `ZsuProofs.KeystreamCountsAttempts` | include/mdu/rx/mixin/zsu.hpp:131-139 | over every command sequence the cipher position is the number of attempts since the initialization vector, failed ones included |
| `ZsuProofs.DecryptedAsMeantExactly` | include/mdu/rx/mixin/zsu.hpp:125-154 | an image accepted by its addresses is complete and decrypted as meant iff no attempt failed, for a keystream without repeats over the blocks used |
| `ZsuProofs.AcceptedImageHasNoGapExactly` | include/mdu/rx/mixin/zsu.hpp:125-154 | an image accepted by its addresses has all its blocks iff the address tried first since the erase is that of the first block written |
| `ZsuProofs.FailedFirstWriteHidesGap` | include/mdu/rx/mixin/zsu.hpp:126-139 | three commands after which a two-block image is accepted by its addresses with only its second block written, and the checksum register covers that block alone |
| `ZsuProofs.LeavesAsMeantExactly` | include/mdu/rx/mixin/zsu.hpp:125-167 | if checksum commands name the image's range only, a decoder that leaves the firmware holds the image as meant iff no attempt failed |
| `ZsuProofs.ShiftedImageIsLeft` | include/mdu/rx/mixin/zsu.hpp:125-167 | a failed attempt, a repetition and the image's own checksum let the decoder leave with the block under the wrong keystream block |
| `ZsuFlash.ContentsTellHistory` | include/mdu/rx/mixin/zsu.hpp:110-140 | over every command sequence the flash holds exactly the blocks written since the last erase command, on top of what that command left |
| `ZsuFlash.EraseErases` | include/mdu/rx/mixin/zsu.hpp:110-117 | a successful erase erases the range named and nothing else, a failed one nothing |
| `ZsuFlash.CalledExactly` | include/mdu/rx/mixin/zsu.hpp:41-167 | over every command sequence, when each call is made and with what: the addresses of the command, the bytes decrypted at the keystream position of the history |
| `ZsuFlash.AnsweredExactly` | include/mdu/rx/mixin/zsu.hpp:110-167 | over every command sequence, when the decoder answers: to a gap but not to a repetition, to failures, to a range or result that is not right |
| `ZsuFlash.AcceptedBlockIsQuiet` | include/mdu/rx/mixin/zsu.hpp:125-140 | a block accepted since the last erase is neither written nor answered when it comes again |
| `ZsuFlash.ImageInFlashExactly` | include/mdu/rx/mixin/zsu.hpp:125-154 | an image accepted by its addresses is in the flash as meant iff the blocks missing were there before and every block written came as many failures late as blocks are missing |
| `ZsuFlash.ErasedImageInFlashExactly` | include/mdu/rx/mixin/zsu.hpp:125-154 | written into a flash that was erased, it is there as meant iff no attempt failed |
| `ZsuFlash.LeavesWithImageExactly` | include/mdu/rx/mixin/zsu.hpp:125-167 | so a decoder that leaves the firmware has the image as meant in its flash iff no attempt failed |
| `Zpp.Mixin.ExecuteCommand` | src/rx/mixin/zpp.cpp:21-59 | new session, answer and hardware calls of every project command |
| `Zpp.Mixin.ExecuteErase` | src/rx/mixin/zpp.cpp:88-94 | addresses and confirmation cleared, the flash erased |
| `Zpp.Mixin.ExecuteUpdate` | src/rx/mixin/zpp.cpp:102-113 | lost, already written, or written |
| `Zpp.Mixin.ExecuteEnd` | src/rx/mixin/zpp.cpp:121-128 | confirms a matching range once |
| `Zpp.Mixin.ExecuteExit` | src/rx/mixin/zpp.cpp:135-143 | leaves, or erases the range until that succeeds |
| `ZppProofs.SessionTellsHistory` | src/rx/mixin/zpp.cpp:88-143 | over every command sequence the session's fields say what a reference history of commands and answers says |
| `ZppProofs.ContentsTellHistory` | src/rx/mixin/zpp.cpp:88-143 | over every command sequence the flash holds exactly the pieces accepted since the last clear, one after the other, on top of what was there at that clear |
| `ZppProofs.EraseErases` | src/rx/mixin/zpp.cpp:88-94 | a successful erase in a valid project erases the range named and nothing else, any other nothing |
| `ZppProofs.CalledExactly` | src/rx/mixin/zpp.cpp:21-143 | over every command sequence, when each call is made and with what |
| `ZppProofs.AnsweredExactly` | src/rx/mixin/zpp.cpp:21-143 | over every command sequence, when the decoder answers: before a project is valid, to failures, to a range that does not match, to a gap but not to a repetition |
| `ZppProofs.AcceptedPieceIsQuiet` | src/rx/mixin/zpp.cpp:102-113 | a piece accepted since the last clear is neither written nor answered when it comes again, unless it is empty |
| `ZppProofs.ExitUndefinedExactly` | src/rx/mixin/zpp.cpp:135-143 | over every command sequence an exit reads a missing address iff something was tried since the last clear, nothing accepted and no range confirmed |
| `ZppProofs.FailedFirstWriteLeavesNoExit` | src/rx/mixin/zpp.cpp:135-143 | two commands that lead there |
| `ZppProofs.ChannelKeeps` | src/rx/mixin/zpp.cpp:102-128 | over a lossy, repeating, reordering channel and writes that may fail, the flash holds adjoining pieces of the image, the last address being the end of the last |
| `ZppProofs.EndedImageIsComplete` | src/rx/mixin/zpp.cpp:121-128 | if no write fails, `endZpp` is called for the image's range only when the pieces written are the whole image in order, and the flash holds it |
| `ZppProofs.EndedImageIsCompleteExactly` | src/rx/mixin/zpp.cpp:102-128 | when `endZpp` is called for the image's range the flash holds adjoining pieces up to its last byte, and they are the whole image iff the address tried first is that of the first piece written |
| `ZppProofs.EndedImageInFlashExactly` | src/rx/mixin/zpp.cpp:102-128 | the flash then holds the whole image iff what lies before the first piece written was there at the last clear |
| `ZppProofs.FailedFirstWriteEndsGap` | src/rx/mixin/zpp.cpp:102-128 | three commands, the first write failing, after which `endZpp` is called for an image with only its second piece in the flash |
| `ZppProofs.RepeatedUpdate` | src/rx/mixin/zpp.cpp:102-113 | a repeated update changes nothing and is rewritten iff its length is a multiple of 2^32 |
| `ZppProofs.RepeatedEnd` | src/rx/mixin/zpp.cpp:121-128 | a repeated end changes and calls nothing, and hides an earlier failure |
| `ZppProofs.ExitExactly` | src/rx/mixin/zpp.cpp:135-139 | over every command sequence an exit leaves iff a range is confirmed or nothing was tried since the last clear |
| `ZppProofs.ExitKeepsUnconfirmedExactly` | src/rx/mixin/zpp.cpp:102-143 | an exit leaves with unconfirmed pieces in the flash iff a range is confirmed and pieces were accepted since |
| `ZppProofs.WritesAfterEndAreKept` | src/rx/mixin/zpp.cpp:102-143 | four commands after which an exit leaves with an unconfirmed piece in the flash |
| `ZppProofs.ExitErasesRange` | src/rx/mixin/zpp.cpp:140-142 | every other exit erases from the first address tried to the end of the last piece accepted, and the flash there |
| `Mixins.AddressRoundTrip` | include/mdu/utility.hpp:38-41 | every 32-bit address survives the way through a packet's four bytes |
| `Mixins.ZsuRoundTrip` | include/mdu/rx/mixin/zsu.hpp:41-70 | a built firmware packet in a slot is read as the command it was built from |
| `Mixins.ZppRoundTrip` | src/rx/mixin/zpp.cpp:21-59 | a built project packet in a slot is read as the command it was built from |
| `Mixins.CodesOfCommands` | include/mdu/rx/mixin/zsu.hpp:41-70 | which code carries which command of both sessions |
| `Mixins.ZsuCommandOverTheWire` | include/mdu/packet.hpp:249-337 | one fallback-timed frame puts that very command at the front of any ready decoder's queue |
| `Mixins.ZsuZppDecoder.ExecuteMixins` | include/mdu/rx/base.hpp:93-97 | the sessions are asked one after the other until one answers |
| `Mixins.ZsuZppBase.Execute` | include/mdu/rx/base.hpp:62-99 | the whole execution of the front packet by a receiver with both sessions: new receiver state with the sessions' own answer, new sessions, or both sessions untouched |
| `Mixins.SessionsStayApart` | include/mdu/rx/zsu_zpp_base.hpp:18 | a packet that carries a firmware command moves and calls the firmware session by that command and leaves the project session alone; any other conversely |
| `Mixins.ZsuNeedsValidProject` | src/rx/mixin/zpp.cpp:34-35 | with both sessions a firmware command that stays is refused iff its own session refuses it or no project is valid |
| `Mixins.BusyQueryAnswer` | include/mdu/rx/base.hpp:93-97 | left in the queue a Busy query to an idle decoder gets no pulse; executed after any number of ackreq bits it is answered as busy in the rest of channel 2 iff no project is valid |
| `EntryPoint.Point.VerifyCv` | src/rx/entry/point.cpp:52-91 | the memory after a call is the longest word beginning or nothing, and a hook fires iff a word is complete |
| `EntryPoint.FitsIffPrefix` | src/rx/entry/point.cpp:66-88 | the code's test of one half of the word accepts iff the whole is still a beginning of some word |
| `EntryPoint.WordAddresses` | src/rx/entry/point.cpp:20-35 | a word is verified at CV8, then at CV105 and CV106 in turn |
| `EntryPoint.WordsInNumbers` | src/rx/entry/point.cpp:20-35 | each of the nine calls of both words by address and value |
| `EntryProofs.RemembersSince` | src/rx/entry/point.cpp:52-61 | over every stream the memory is the calls since the last clear, repeats removed |
| `EntryProofs.FiresExactly` | src/rx/entry/point.cpp:52-91 | a hook fires at a call iff that call completes a word of the calls since the last clear, repeats removed |
| `EntryProofs.FiredWordWasSpelled` | src/rx/entry/point.cpp:52-91 | what fires was spelled by the latest calls of the stream |
| `EntryProofs.SpelledWordFires` | src/rx/entry/point.cpp:52-91 | from an empty memory every word, stuttered at will, fires its hook |
| `EntryProofs.WordEntersExactly` | src/rx/entry/point.cpp:52-91 | a spelled word fires iff the memory was empty or held its start, or its start is repeated |

## Left out

- Salsa20 and its key derivation: an abstract keystream gives one 64-byte block per initialization vector and block index.
- The hardware (`ackbit`, `readCv`, `writeCv`, flash, exit): its answers are parameters and the calls made to it are logged; the CV address and value a CV command names do not reach the log. A flash call that fails leaves the flash as it was, and an erase does not include its end address.
- Leaving the firmware or the project never returns in the source; a call that leaves is the last of interest here. The erase that is retried on exit succeeds after any finite number of failures.
- The internals of the ztl containers, which are not part of this model: a deque of two slots whose end is the slot after the last. Pushing onto a full one (a packet of more than 268 bytes, or CV verifies going on after a hook fired) is excluded.
- Frames shorter than their command's layout read whatever an earlier packet left in the slot; a ZPP update shorter than code, address and checksum is excluded.
- Races inside one of the named steps of receiving and executing: the steps are atomic.
- The floating point that builds the timing table: the table holds the resulting integers.
- The polarity of the track outputs, and the pin drivers.
- The wrap-around of 64-bit counters.
- Packets.PacketIsSound: the builders are modelled by their common shape with their fields as data, not by the pointer that advances through the buffer; `Mixins` and `ReadBack` read the fields of session commands, pings and searches back.
- Search ids with bit 63 set: the search covers bits 0 to 62. The decoders on its track are selected and not in the middle of a packet, bits have nominal durations, and any pulse in an answer is heard.
- The hardware encoder's driver, allocation and error reporting; the copy encoder is assumed to write at most one symbol a call, to report completion with it, and to report full memory when it writes none.
- Receiver.Base.Execute: the answer of the sessions is a parameter; `Mixins.ZsuZppBase.Execute` computes it for a decoder with both, not for one with a single session.
- Lockstep.EveryPulseMeetsItsHook: runs with a misread bit or a selection in mid-phase are excluded; `Lockstep.MisreadMisaligns`, `Lockstep.RateChangeInPhase` and `Lockstep.LateSelectionMisaligns` say what these do to the rest of the phase.
- Link.SentPacketArrives: only crossings happen while the packet is sent; that execution in between does no harm is `FrameProofs.WireRoundTrip`.
- Link.BuiltPacketArrives: as `Link.SentPacketArrives`, and at nominal durations only.
- Images that wrap around the end of the address space: the results about images, of both sessions, are for those that fit below it (`Image.Fits`).
- Templates, concepts, examples, build files and the mock classes.
