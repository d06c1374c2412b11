# Audio buffers, WebSocket frames and mixing, verified

A Dafny model of the machinery under a voice-chat program: PortAudio's block
adaptation, ring buffer and allocation groups, its pink-noise example, the SHA-1,
base 64 and WebSocket code of the connection, and the server's room and mixer.
`dafny verify dfyconfig.toml` checks everything.

Code that changes state is modelled by classes and methods that change state, and
each such method is proved against a specification; what the specification is for
is proved in lemmas beside it. Large functions of the source are cut into several
methods along their own structure.

- **Block adaptation** (`FrameShift`, `Adaptation`, `Calls`, `BufferProcessor`,
  `AbortedBlock`, `EchoRun`, `SmallerPrefill`). A host delivers blocks of M
  frames, a user callback takes blocks of N. The callback is an arbitrary function
  of everything it has been told so far, so it may keep any state and stop at any
  call. Ghost history in `BufferProcessor` records all input, all output, the
  silence played and the frames left unfilled. Two invariants between host blocks,
  `Streaming` for full-duplex adaptation and `Running` for everything else, hold
  of every new stream whose frame shift was found and are kept by every host
  block, so their consequences (`PureDelay`, `EchoDelay`, `NoDelay`) speak of
  whole runs. `SmallerPrefill` runs the same loop with less prefill until it
  fails.
- **Ring buffer** (`RingIndices`, `RingBuffer`, `RingInterleaving`). The class is
  a bounded queue over unbounded counters. The second model has one writer and one
  reader whose single element copies and index updates interleave freely.
- **SHA-1** (`Sha1Standard`, `Hex`, `Sha1`, `Sha1Example`). `Sha1Standard` states
  FIPS 180-4; the class computes it with a circular block, renamed registers and
  padding in place. `Sha1Example` evaluates both on the standard's first example.
- **Allocation group** (`AllocationGroup`). Three linked lists share the links of
  blocks that double. A piece of memory can be freed only while it is live, and
  the `next` field of a link can be read only while its block is, so no verified
  method frees twice or reads freed memory.
- **Pink noise** (`PinkNoise`). A running sum and a trailing-zero schedule.
- **WebSocket and base 64** (`Bytes`, `Bits`, `Base64`, `Handshake`,
  `WebSocketFrame`, `SendQueue`). Frames as in RFC 6455, encodings as in RFC 4648,
  and the queue of writes as a state machine.
- **Room and mixer** (`AudioMixer`, `RoomHistory`, `RoomManager`). The room keeps
  a ghost history of its events; packets are told apart by their place in it, and
  what a tick sends is stated about the history alone. Unordered maps are walked
  in an arbitrary order.

What the proofs show that the source or its comments do not say:

- With host blocks of varying length the source prefills N frames. While the
  callback continues, N - 1 are necessary and enough (`VariableBlocks`); for
  callbacks that may abort, N is the least (`VariableBlocksAndAborts`).
- `LCM` multiplies before it divides. The loop of `CalculateFrameShift` ends even
  when that product wraps around, but then it can miss the frame shift. Exactly
  when is told by a formula with one index for each time that the loop's index
  wraps (`CalculateFrameShift`, `ReachedIff`, `WrappedProduct`).
- When the callback aborts on the very last frame of a host block,
  `AdaptingProcess` leaves its loop before the remaining output is zeroed: exactly
  N minus the prefill frames of that block stay unfilled, which is none when block
  lengths vary (`ProcessDuplexBlock`, `SecondBlockUnfilled`). No other case leaves
  any.
- The length check for a masked frame does not count the masking key
  (`MaskedPrefix` says exactly which prefixes are accepted, and what is delivered).
- A write error leaves the send queue non-empty with no write under way, so
  nothing is written any more (`FailureIsFinal`).
- All mixes of n packets are exact if and only if n is at most 65536 (`ExactIff`),
  which a room with up to 1310 buffers stays below (`TickIsExact`); the clamp of the
  mixer never acts in either case.
- The room buffers packets of senders that are not registered, or no longer.

## Model

| member | source | states |
|---|---|---|
| `FrameShift.CalculateFrameShift` | external/portaudio/src/common/pa_process.c:73-87 | ends for all arguments with the largest residue of any pass; returns N - gcd(M, N) whenever M * N fits in an unsigned long, and never more; for all arguments it returns that if and only if there is no shift to find or ShiftFits holds, a condition on the arguments alone; 0 when the wrapped multiple is at most M |
| `FrameShift.ReachedIff` | external/portaudio/src/common/pa_process.c:76-85 | for all arguments, a pass of the loop meets the residue N - gcd(M, N) if and only if one of the stretches between two wraps of the index, each entered because the one before it ends below the wrapped least common multiple, has that residue below it: the index is named by a formula for each stretch |
| `FrameShift.ReachedInFirstLap` | external/portaudio/src/common/pa_process.c:76-85 | it is enough, for all arguments, that the multiple of M with that residue lies below the wrapped least common multiple, and needed too when the index cannot wrap |
| `FrameShift.ReachedIffFits` | external/portaudio/src/common/pa_process.c:66-85 | the same condition without the multiple as a parameter |
| `FrameShift.WalksIff` | external/portaudio/src/common/pa_process.c:76-86 | the loop comes to a pass if and only if all earlier stretches end below the wrapped multiple and the index of the pass lies below it |
| `FrameShift.OneShift` | external/portaudio/src/common/pa_process.c:76-85 | below the least common multiple only one multiple of M leaves a given residue |
| `FrameShift.WrappedProduct` | external/portaudio/src/common/pa_process.c:66-85 | with M = 65536, N = 65537 and 32-bit unsigned longs the multiple wraps to M and the residue is not met |
| `FrameShift.LcmExactIffProductFits` | external/portaudio/src/common/pa_process.c:66-69 | LCM is the least common multiple exactly when the product of its arguments fits in an unsigned long |
| `FrameShift.LcmIsQuotient` | external/portaudio/src/common/pa_process.c:66-69 | the wrapped product divided by the gcd, without the fraction |
| `FrameShift.GcdDivides` | external/portaudio/src/common/pa_process.c:60-63 | the result of GCD divides both arguments |
| `FrameShift.GcdIsCombination` | external/portaudio/src/common/pa_process.c:60-63 | the result of GCD is a combination of the arguments, so every common divisor divides it |
| `FrameShift.ShiftIsReached` | external/portaudio/src/common/pa_process.c:76-85 | some multiple of M below the least common multiple leaves N - gcd(M, N) frames of a user block, so the maximum is attained |
| `FrameShift.ResidueBound` | external/portaudio/src/common/pa_process.c:76-85 | no multiple of M leaves more than N - gcd(M, N) frames of a user block |
| `Adaptation.EnoughPrefill` | external/portaudio/src/common/pa_process.c:166-181 | a total prefill of N - gcd(M, N), however divided between the two buffers, keeps every run of host blocks of M frames from leaving output unfilled; with unit 1 the same of runs of any blocks |
| `Adaptation.TooLittlePrefill` | external/portaudio/src/common/pa_process.c:166-181 | with any smaller total, whatever the fill of the buffers, some later host block of M frames ends with unfilled output |
| `Adaptation.VariableBlocks` | external/portaudio/src/common/pa_process.c:182-186 | with host blocks of any length and a callback that continues, no run starves if and only if the total prefill is at least N - 1 |
| `Adaptation.VariableBlocksAndAborts` | external/portaudio/src/common/pa_process.c:182-186 | with host blocks of any length and a callback that may also abort, nothing is ever left unfilled if and only if the total prefill is at least N: the N frames that the source chooses are the least |
| `SmallerPrefill.RunBlocks` | external/portaudio/src/common/pa_process.c:166-186 | the adapting loop itself, with a total prefill of N - 1 or more and a callback that never stops, fills the output of every block of every run; with N - g the same of runs of multiples of g |
| `SmallerPrefill.PlayWithPrefill` | external/portaudio/src/common/pa_process.c:182-186 | the same from a new stream, for every division of N - 1 or N frames between the two buffers |
| `SmallerPrefill.StarveFixedBlocks` | external/portaudio/src/common/pa_process.c:166-181 | a full-duplex stream with a total prefill below N - gcd(M, N) and a callback that never stops, fed host blocks of M frames, comes to a block that ends with unfilled output |
| `SmallerPrefill.StarveWithPrefill` | external/portaudio/src/common/pa_process.c:166-181 | the same from a new stream, for every such prefill |
| `SmallerPrefill.AbortOnLastFrame` | external/portaudio/src/common/pa_process.c:1315-1343 | with any total prefill, a callback that aborts on the last frame of a host block leaves N minus the prefill frames unfilled |
| `SmallerPrefill.GapWithPrefill` | external/portaudio/src/common/pa_process.c:182-186 | the same from a new stream, for every prefill below N |
| `Adaptation.RunWithoutStarving` | external/portaudio/src/common/pa_process.c:1312-1476 | after a run of blocks that do not starve, the input fill is the residue of all input, and the two fills add up to what they were |
| `BufferProcessing.ChooseSetup` | external/portaudio/src/common/pa_process.c:132-195 | which mode, temporary buffer size and prefill each combination of block sizes and directions gets; in the full-duplex fixed-size mode the prefill is N - gcd(M, N) on the side that the comparison of N and M selects |
| `BufferProcessing.BufferProcessor.constructor` | external/portaudio/src/common/pa_process.c:90-198 | a new stream has the chosen prefill as zero frames and satisfies the invariant of its mode |
| `BufferProcessing.BufferProcessor.WithPrefill` | external/portaudio/src/common/pa_process.c:198-199 | the same loop with any other prefill, for comparison |
| `BufferProcessing.BufferProcessor.CopyTempOutputBuffersToHostOutputBuffers` | external/portaudio/src/common/pa_process.c:1208-1277 | pending user output goes to the two host output buffers in order until one side runs out |
| `BufferProcessing.BufferProcessor.CopyHostInputToTempInputBuffer` | external/portaudio/src/common/pa_process.c:1346-1409 | host input fills the temporary input buffer in order until it is full or no input is left |
| `BufferProcessing.BufferProcessor.ZeroHostOutput` | external/portaudio/src/common/pa_process.c:1318-1343 | once the callback has stopped and nothing is pending, all remaining host output becomes silence |
| `BufferProcessing.BufferProcessor.CallStreamCallback` | external/portaudio/src/common/pa_process.c:1411-1471 | a full user block is presented with the time stamps of its first frames; the output is pending afterwards unless the callback aborted |
| `BufferProcessing.BufferProcessor.AdaptingPass` | external/portaudio/src/common/pa_process.c:1315-1476 | every pass takes at least one frame of host input and keeps the balance of input and output fill |
| `BufferProcessing.BufferProcessor.AdaptingProcess` | external/portaudio/src/common/pa_process.c:1289-1481 | for every callback and every split of the host's buffers the loop ends with all input read; the frames of output left unfilled are exactly Unfilled, which is none unless the prefill is too small or the callback aborts on the block's last frame; while the callback continues, the fills follow AfterBlock and Lack |
| `BufferProcessing.BufferProcessor.BeginBufferProcessing` | external/portaudio/src/common/pa_process.c:669-692 | the ADC time is set back by the sample period for each frame in the temporary input buffer, and the DAC time forward for each frame in the temporary output buffer |
| `BufferProcessing.BufferProcessor.ProcessDuplexBlock` | external/portaudio/src/common/pa_process.c:1289-1481 | one host block of a full-duplex adapting stream, for any split and any callback, keeps the invariant Streaming: all input is consumed, all output is filled unless the callback aborts on the last frame of the block, which takes a block that completes a user block, and then exactly N minus the total prefill frames are left, which is none with blocks of varying length; each call carries the host's times plus one sample period for each frame between, and its DAC time exceeds its ADC time by what the host's times say plus prefill times sample period |
| `BufferProcessing.BufferProcessor.NextCallTimes` | external/portaudio/src/common/pa_process.c:1455-1456 | one call and the next differ by N sample periods in both times |
| `AbortedBlock.SecondBlockUnfilled` | external/portaudio/src/common/pa_process.c:1315-1343 | a concrete run (M = 2, N = 3, abort in the second call) that leaves one frame of host output unfilled |
| `BufferProcessing.BufferProcessor.PureDelay` | external/portaudio/src/common/pa_process.c:1289-1481 | over a whole run, the user's input is a prefix of the input prefill followed by all host input, cut in blocks of N frames; the host's output is the output prefill followed by the user's output, then silence once the callback has stopped; nothing is missing while it continues |
| `BufferProcessing.BufferProcessor.EchoDelay` | external/portaudio/src/common/pa_process.c:1289-1481 | an echoing callback delays the host's input by exactly the total prefill |
| `EchoRun.TwoBlocksEchoed` | external/portaudio/src/common/pa_process.c:1289-1481 | a concrete run (M = 2, N = 3) with an echoing callback: two frames of silence, then the input |
| `Calls.EchoExists` | external/portaudio/src/common/pa_process.c:1451-1453 | there is an echoing callback |
| `Calls.DelayIsPrefill` | external/portaudio/src/common/pa_process.c:669-692 | in every call the DAC time exceeds the ADC time by what the host's own times say plus a sample period for each frame between the two stream positions; ProcessDuplexBlock states the difference as the total prefill |
| `Calls.StampTimes` | external/portaudio/src/common/pa_process.c:1455-1456 | call j has the host's times plus one sample period for each frame between the block's first frames and the first it reads and makes, N for each call before it |
| `Calls.TimesAfterCall` | external/portaudio/src/common/pa_process.c:1455-1456 | after a call both times are those of the next frames to be read and made, on the output side unless the call aborted |
| `Calls.InputStampAfter` | external/portaudio/src/common/pa_process.c:1053-1059 | a half-duplex or non-adapting call has the ADC time of its first frame, and the time advances to the next frame |
| `Calls.OutputStampAfter` | external/portaudio/src/common/pa_process.c:1115-1127 | a half-duplex or non-adapting call has the DAC time of the first frame it makes, and the time advances unless it aborts |
| `BufferProcessing.BufferProcessor.AdaptingInputOnlyProcess` | external/portaudio/src/common/pa_process.c:972-1071 | ends with one host piece read; full user blocks are presented in order with the ADC times of their first frames, and dropped once the callback has stopped |
| `BufferProcessing.BufferProcessor.AdaptingOutputOnlyProcess` | external/portaudio/src/common/pa_process.c:1079-1202 | ends with one host piece filled, in order, with the user's output and with silence once the callback has stopped; each call has the DAC time of the first frame it makes |
| `BufferProcessing.BufferProcessor.HalfDuplexAdapting` | external/portaudio/src/common/pa_process.c:1620-1649 | the first host piece and then the second are processed, input presented and output delivered in order |
| `BufferProcessing.BufferProcessor.NonAdaptingProcess` | external/portaudio/src/common/pa_process.c:704-964 | frames are presented in order in chunks of exactly framesPerTempBuffer or of all that are left when those are fewer; every output frame is callback data or zero; each call has the times of the first frames it reads and makes; all frames are used up |
| `BufferProcessing.BufferProcessor.SpliceNonAdapting` | external/portaudio/src/common/pa_process.c:1503-1575 | for any split of equal, non-empty input and output totals the loop ends, never meets an empty piece at its assertion, and returns the total |
| `BufferProcessing.BufferProcessor.HalfDuplexNonAdapting` | external/portaudio/src/common/pa_process.c:1576-1600 | both pieces of the one direction are processed completely |
| `BufferProcessing.BufferProcessor.EndBufferProcessing` | external/portaudio/src/common/pa_process.c:1484-1653 | in every mode all input is consumed and the frame count returned is that of the host; output is filled except for what Unfilled says of full-duplex adaptation |
| `BufferProcessing.BufferProcessor.ProcessOtherBlock` | external/portaudio/src/common/pa_process.c:1484-1653 | one host block of a half-duplex stream, or a full-duplex stream without adaptation, keeps the invariant Running; each of its calls carries the host's time plus one sample period for each frame read or made since, and zero for the direction that a half-duplex adapting stream does not have; without adaptation both times advance together |
| `BufferProcessing.BufferProcessor.NoDelay` | external/portaudio/src/common/pa_process.c:972-1202 | over a whole run of such a stream the user's input is the host's input in order, short of an unfinished user block, and the host's output is the user's output in order, then silence once the callback has stopped |
| `Bits.MaskIsRemainder` | external/portaudio/src/common/pa_ringbuffer.c:82 | and-ing with 2^k - 1 is the remainder modulo 2^k, for negative differences too |
| `Bits.PowerOfTwoTest` | external/portaudio/src/common/pa_ringbuffer.c:68 | the test of the initialization accepts a positive count exactly when it is a power of two |
| `Bits.XorBits` | src/common/WebSocketSession.h:220-222 | a bit of the exclusive or is set exactly when it is set in one of the two numbers |
| `RingIndices.AvailableIsDifference` | external/portaudio/src/common/pa_ringbuffer.c:80-83 | the masked difference of the indices is the difference of the unbounded counters of written and read elements |
| `RingIndices.AdvanceCounts` | external/portaudio/src/common/pa_ringbuffer.c:145 | an index kept modulo twice the size stands for the unbounded counter after every advance |
| `RingIndices.StartIsSlot` | external/portaudio/src/common/pa_ringbuffer.c:112 | the small mask turns an index into the slot of its counter |
| `RingBuffers.RingBuffer.Initialize` | external/portaudio/src/common/pa_ringbuffer.c:66-76 | 0 for a positive count exactly when it is a power of two, with an empty buffer; -1 changes nothing |
| `RingBuffers.RingBuffer.Flush` | external/portaudio/src/common/pa_ringbuffer.c:93-96 | the queue is empty and as large as before |
| `RingBuffers.RingBuffer.GetReadAvailable` | external/portaudio/src/common/pa_ringbuffer.c:80-83 | the number of elements in the queue |
| `RingBuffers.RingBuffer.GetWriteAvailable` | external/portaudio/src/common/pa_ringbuffer.c:86-89 | the room left in the queue |
| `RingBuffers.RingBuffer.GetWriteRegions` | external/portaudio/src/common/pa_ringbuffer.c:104-134 | as many elements as fit; the two regions are in bounds, disjoint and hold the slots of the next counters in order |
| `RingBuffers.RingBuffer.GetReadRegions` | external/portaudio/src/common/pa_ringbuffer.c:154-184 | as many elements as there are; the two regions are in bounds, disjoint and hold the slots of the oldest counters in order |
| `RingBuffers.RingBuffer.AdvanceWriteIndex` | external/portaudio/src/common/pa_ringbuffer.c:139-146 | the written counter grows by the count |
| `RingBuffers.RingBuffer.AdvanceReadIndex` | external/portaudio/src/common/pa_ringbuffer.c:187-194 | the read counter grows by the count |
| `RingBuffers.RingBuffer.Write` | external/portaudio/src/common/pa_ringbuffer.c:198-216 | appends as many elements as fit to the queue, and returns how many |
| `RingBuffers.RingBuffer.Read` | external/portaudio/src/common/pa_ringbuffer.c:220-237 | takes as many elements as there are, at most, from the front of the queue |
| `RingInterleaving.StepKeepsInv` | external/portaudio/src/common/pa_ringbuffer.c:198-237 | every step of either thread, at the granularity of one element copy or one index update, keeps the invariant |
| `RingInterleaving.StepIsQueueStep` | external/portaudio/src/common/pa_ringbuffer.c:104-146 | every step is one of a plain queue: a write takes as many elements as there is room for, a read as many as there are, each element is copied from its place in the stream, and advancing an index publishes or releases exactly what was copied |
| `RingInterleaving.WritePublishes` | external/portaudio/src/common/pa_ringbuffer.c:198-216 | a write publishes the first elements of its data, as many as there was room for when it started, whatever the reader does meanwhile |
| `RingInterleaving.ReadConsumes` | external/portaudio/src/common/pa_ringbuffer.c:220-237 | a read takes as many elements from the front as there were when it started, whatever the writer does meanwhile |
| `RingInterleaving.RunKeepsInv` | external/portaudio/src/common/pa_ringbuffer.c:198-237 | the invariant holds after every interleaving of one writer and one reader |
| `RingInterleaving.ReadIsPrefixOfWritten` | external/portaudio/src/common/pa_ringbuffer.c:198-237 | under every interleaving, everything read is a prefix of everything published, which is a prefix of everything written |
| `RingInterleaving.WriterAvoidsReader` | external/portaudio/src/common/pa_ringbuffer.c:104-146 | under every interleaving, the slot the writer stores next holds no element that was published and not yet released by the reader |
| `RingInterleaving.NoThreadIsStuck` | external/portaudio/src/common/pa_ringbuffer.c:198-237 | a thread in the middle of a transfer can always take its next step, and an idle one can start any transfer |
| `Sha1.BlkIsSchedule` | external/sha1.hpp:76-79 | blk on the circular block of 16 words is word t of the schedule of 80 words in section 6.1.2 of FIPS 180-4 |
| `Sha1.ChooseIsCh` | external/sha1.hpp:88 | the source's form of the first logical function is Ch of section 4.1.1 of FIPS 180-4 |
| `Sha1.MajorityIsMaj` | external/sha1.hpp:112 | the source's form of the third logical function is Maj of section 4.1.1 of FIPS 180-4 |
| `Sha1.R0` | external/sha1.hpp:86-90 | one round of steps 0 to 15 |
| `Sha1.R1` | external/sha1.hpp:93-98 | one round of steps 16 to 19, with its word of the schedule computed in place |
| `Sha1.R2` | external/sha1.hpp:101-106 | one round of steps 20 to 39 |
| `Sha1.R3` | external/sha1.hpp:109-114 | one round of steps 40 to 59 |
| `Sha1.R4` | external/sha1.hpp:117-122 | one round of steps 60 to 79 |
| `Sha1.Rounds0To19` | external/sha1.hpp:139-158 | the first 20 unrolled rounds, registers renamed instead of moved, are rounds 0 to 19 of the standard |
| `Sha1.Rounds20To39` | external/sha1.hpp:159-178 | likewise rounds 20 to 39 |
| `Sha1.Rounds40To59` | external/sha1.hpp:179-198 | likewise rounds 40 to 59 |
| `Sha1.Rounds60To79` | external/sha1.hpp:199-218 | likewise rounds 60 to 79 |
| `Sha1.Transform` | external/sha1.hpp:129-229 | for every digest and block, the 80 unrolled rounds update the digest as section 6.1.2 of FIPS 180-4 says |
| `Sha1Standard.RotlMovesBits` | external/sha1.hpp:70-73 | rotating by 1, 5 or 30 moves bit i to bit i + n modulo 32 |
| `Sha1Example.HashOfMessage` | external/sha1.hpp:129-229 | the definitions of the standard give the hash that FIPS 180-4 names for the message abc |
| `Sha1.BufferToBlock` | external/sha1.hpp:232-242 | 64 bytes become 16 big-endian words |
| `Sha1.SHA1.Reset` | external/sha1.hpp:55-67 | the state of an empty message |
| `Sha1.SHA1.Update` | external/sha1.hpp:258-274 | for any split of a message into calls, the digest holds the blocks completed so far and the buffer the rest |
| `Sha1.OneBlockEnding` | external/sha1.hpp:287-309 | a rest of at most 55 bytes: the padding of section 5.1.1 of FIPS 180-4 is one block |
| `Sha1.TwoBlockEnding` | external/sha1.hpp:297-304 | a rest of 56 to 63 bytes: the padding fills a second block |
| `Sha1.BitCount` | external/sha1.hpp:284 | the 64-bit count of transforms and the buffer give the message's bit length modulo 2^64 |
| `Sha1.SHA1.Final` | external/sha1.hpp:281-323 | the hexadecimal text of the SHA-1 hash of everything since the last reset; the object is reset for reuse |
| `Sha1Example.HashInTwoParts` | external/sha1.hpp:234-323 | the class gives the text a9993e364706816aba3e25717850c26c9cd0d89d for abc, passed in two parts |
| `Sha1Standard.LengthIsWritten` | external/sha1.hpp:281-318 | the padding holds the bit length of every message that the standard allows |
| `Sha1.HexDigest` | external/sha1.hpp:312-317 | eight lower-case digits for each word |
| `Base64.ToBase64` | src/common/Utilities.h:75-95 | for hexadecimal text, the encoding of section 4 of RFC 4648 of the bytes it stands for, although the bit buffer loses its high bits |
| `Base64.PushByte` | src/common/Utilities.h:83-89 | one byte enters the 32-bit buffer and the completed characters leave it |
| `Base64.SextetsAreEncoding` | src/common/Utilities.h:82-92 | the characters sent out six bits at a time and padded are the groups of RFC 4648 |
| `Base64.ParsedHexOf` | src/common/Utilities.h:82-83 | two hexadecimal digits at a time give back the bytes |
| `Base64.DigitsRead` | src/common/Utilities.h:82-83 | digits of either case are read as numbers, and a last single digit is a byte of its own |
| `Base64.TestVectors` | src/common/Utilities.h:76-95 | the encoding gives the test vectors of section 10 of RFC 4648 |
| `Base64.AllCharacters` | src/common/Utilities.h:79 | every character of the alphabet stands for the sextet of its place |
| `Base64.BuildIndex` | src/common/Utilities.h:49-55 | the map inverts the alphabet |
| `Base64.FromBase64` | src/common/Utilities.h:47-73 | the decoding of any text: unknown characters are skipped, '=' ends it, and the loss of high bits of the 32-bit buffer does not matter |
| `Base64.DecodeEncode` | src/common/Utilities.h:47-73 | decoding the encoding of any bytes gives the bytes |
| `Base64.RoundTrip` | src/common/Utilities.h:47-95 | from_base64 of to_base_64 of the hexadecimal text of any bytes is those bytes |
| `Base64.OthersAreSkipped` | src/common/Utilities.h:58-60 | a character outside the alphabet makes no difference, wherever it is |
| `Base64.PadEnds` | src/common/Utilities.h:59 | nothing from the first equals sign on makes a difference |
| `Base64.PartialEnds` | src/common/Utilities.h:62-67 | text that ends within four characters gives its whole bytes; bits left over are dropped |
| `Handshake.GenerateAccept` | src/common/WebSocketSession.h:241-251 | the accept value encodes the raw SHA-1 of the key and the fixed text, as section 4.2.2 of RFC 6455 asks |
| `WebSocketFrame.CreateFrame` | src/common/WebSocketSession.h:253-272 | the unmasked final frame of section 5.2 of RFC 6455 with this opcode and payload |
| `WebSocketFrame.FrameBits` | src/common/WebSocketSession.h:253-256 | the final flag is set, the reserved bits are clear, the opcode is in the low four bits and the mask bit tells whether there is a key |
| `WebSocketFrame.HelloFrame` | src/common/WebSocketSession.h:253-272 | the text frame Hello is the one of section 5.7 of RFC 6455 |
| `WebSocketFrame.LongFrames` | src/common/WebSocketSession.h:257-268 | the headers for 256 and 65536 bytes are those of section 5.7 of RFC 6455 |
| `WebSocketFrame.ShortestForm` | src/common/WebSocketSession.h:257-268 | the length field is the shortest that can stand for the length |
| `WebSocketFrame.ReadHeader` | src/common/WebSocketSession.h:170-197 | flags, opcode, mask bit and length in each of the three forms; lengths of 2^63 or more are refused |
| `WebSocketFrame.HandleFrame` | src/common/WebSocketSession.h:169-229 | the outcome for any bytes of one read: ignored, delivered, or a read past the end of the buffer |
| `WebSocketFrame.DeliveredBits` | src/common/WebSocketSession.h:214-228 | for any buffer, the bytes delivered are those after the header; when masked, bit j of byte i is inverted if bit j of byte i modulo 4 of the key is set |
| `WebSocketFrame.HeaderOfAnyForm` | src/common/WebSocketSession.h:172-199 | the length is read from each of its three forms, also when a shorter one would do |
| `WebSocketFrame.HeaderRead` | src/common/WebSocketSession.h:170-197 | from any part of a frame that has its header, the header is read as it was written |
| `WebSocketFrame.RoundTrip` | src/common/WebSocketSession.h:169-272 | a complete frame with or without a key delivers its opcode and unmasked payload up to 100 MB, whatever follows it in the buffer, and nothing above that |
| `WebSocketFrame.PrefixIgnored` | src/common/WebSocketSession.h:207-212 | no strict prefix of an unmasked frame delivers anything |
| `WebSocketFrame.MaskedPrefix` | src/common/WebSocketSession.h:207-216 | a prefix of a masked frame is ignored if and only if its payload exceeds 100 MB or it is too short for header and payload or for header and key: the length check leaves the key out; otherwise the read goes past the buffer exactly if the frame does, and else the bytes received are delivered as they were sent and the missing ones are made from what the buffer holds after them |
| `WebSocketFrame.TruncatedMaskedFrame` | src/common/WebSocketSession.h:207-224 | a concrete masked frame that misses its last byte and is delivered nevertheless |
| `WebSocketFrame.MaskTwice` | src/common/WebSocketSession.h:220-222 | applying the same key twice gives back the payload |
| `WebSocketFrame.Unmask` | src/common/WebSocketSession.h:219-222 | byte i of the payload is combined with byte i modulo 4 of the key |
| `WebSocketFrame.MaskByteBits` | src/common/WebSocketSession.h:220-222 | masking inverts exactly the bits of a byte that are set in the key byte |
| `SendQueue.Session.SendMessage` | src/common/WebSocketSession.h:52-59 | appends the frame of the message, and starts a write exactly if the queue was empty |
| `SendQueue.Session.DoWrite` | src/common/WebSocketSession.h:132-135 | starts a write of the queue's front, if there is one, in addition to any under way |
| `SendQueue.Session.OnWritten` | src/common/WebSocketSession.h:136-145 | a finished write, named among those under way, takes a frame off the queue and starts the next write; an error leaves the queue alone |
| `SendQueue.NextKeepsInv` | src/common/WebSocketSession.h:52-147 | every send, completion or error keeps the invariant of the queue, with at most one write under way |
| `SendQueue.EveryRun` | src/common/WebSocketSession.h:52-147 | over every sequence of events at most one write is under way, it is of the queue's front, the queue is non-empty exactly while one is until the first error, and the frames written are a prefix of the frames sent |
| `SendQueue.AllWritten` | src/common/WebSocketSession.h:132-147 | without errors, as many completions as there are queued frames write everything sent |
| `SendQueue.FailureIsFinal` | src/common/WebSocketSession.h:142-144 | after an error nothing is written any more, whatever is sent |
| `AllocationGroups.NoRepeats` | external/portaudio/src/common/pa_allocation.c:62-66 | a chain of links that ends in null meets no link twice |
| `AllocationGroups.AllocateLinks` | external/portaudio/src/common/pa_allocation.c:75-100 | one block of distinct links, the first recording the block and the rest forming a list that goes on with the given spare links; nothing when memory is refused |
| `AllocationGroups.AllocationGroup.ListsAreDisjoint` | external/portaudio/src/common/pa_allocation.c:62-66 | in every valid group the three lists are acyclic and have no link in common |
| `AllocationGroups.AllocationGroup.CreateAllocationGroup` | external/portaudio/src/common/pa_allocation.c:103-127 | a valid group of 16 links without buffers exactly if both pieces of memory are granted; the block of links is freed when the second is refused |
| `AllocationGroups.AllocationGroup.DestroyAllocationGroup` | external/portaudio/src/common/pa_allocation.c:130-143 | every block of links and the group are freed, each once and each link read before its block is freed; the user's buffers are left alone |
| `AllocationGroups.AllocationGroup.FreeBlock` | external/portaudio/src/common/pa_allocation.c:135-140 | the next link is read before the block that holds it is freed |
| `AllocationGroups.AllocationGroup.Grow` | external/portaudio/src/common/pa_allocation.c:151-162 | when no link is spare and there is memory, the number of links doubles, else nothing changes |
| `AllocationGroups.AllocationGroup.GroupAllocateMemory` | external/portaudio/src/common/pa_allocation.c:146-180 | the new buffer heads the allocations list; null exactly when memory is refused for the buffer or for links it needs; the number of links doubles exactly when none was spare and there is memory for them; the other entries stay as they are |
| `AllocationGroups.AllocationGroup.Record` | external/portaudio/src/common/pa_allocation.c:169-175 | a spare link moves to the front of the allocations list and holds the buffer |
| `AllocationGroups.AllocationGroup.Find` | external/portaudio/src/common/pa_allocation.c:185-212 | the first link that holds the buffer, and the link before it |
| `AllocationGroups.AllocationGroup.Unlink` | external/portaudio/src/common/pa_allocation.c:194-207 | the link leaves the allocations list and becomes the first spare link, without a buffer |
| `AllocationGroups.AllocationGroup.GroupFreeMemory` | external/portaudio/src/common/pa_allocation.c:183-217 | exactly this buffer is freed, whether the group knows it or not; if it does, its entry alone leaves the allocations list; null does nothing |
| `AllocationGroups.AllocationGroup.FreeAllAllocations` | external/portaudio/src/common/pa_allocation.c:220-242 | every live buffer is freed once, and its links come before the other spare links |
| `AllocationGroups.AllocationGroup.Splice` | external/portaudio/src/common/pa_allocation.c:236-241 | the former allocations list is put in front of the spare links |
| `PinkNoiseGenerator.PinkNoise.constructor` | external/portaudio/examples/paex_pink.c:92-104 | rows and sum are zero and the index mask is 2^numRows - 1 |
| `PinkNoiseGenerator.PinkNoise.CountTrailingZeros` | external/portaudio/examples/paex_pink.c:125-131 | the loop ends for every positive index, with its number of trailing zeros |
| `PinkNoiseGenerator.TrailingZerosBound` | external/portaudio/examples/paex_pink.c:125-139 | the row chosen is one of the first numRows |
| `PinkNoiseGenerator.TrailingZerosIs` | external/portaudio/examples/paex_pink.c:125-131 | an index is an odd number times two to the number of its trailing zeros |
| `PinkNoiseGenerator.PinkNoise.ReplaceRow` | external/portaudio/examples/paex_pink.c:132-139 | one row is replaced and the running sum stays the sum of the rows |
| `PinkNoiseGenerator.PinkNoise.GeneratePinkNoise` | external/portaudio/examples/paex_pink.c:113-153 | in every reachable state the running sum is the sum of the rows; each call replaces exactly the row that the trailing zeros of the call's number choose, and returns the sum of all rows and one more number, divided by (numRows + 1) * 2^23, which lies in [-1, 1) |
| `PinkNoiseGenerator.LowestOutput` | external/portaudio/examples/paex_pink.c:98-144 | when all numbers are the lowest, the output is exactly -1 |
| `PinkNoiseGenerator.SumInRange` | external/portaudio/examples/paex_pink.c:98-144 | the sum before scaling lies in [-pmax, pmax), and pmax fits 32 bits |
| `PinkNoiseGenerator.IndexStep` | external/portaudio/examples/paex_pink.c:119 | masking the incremented index counts calls modulo 2^numRows |
| `PinkNoiseGenerator.RowSchedule` | external/portaudio/examples/paex_pink.c:119-139 | in any 2^numRows consecutive calls row k is replaced exactly 2^(numRows - 1 - k) times |
| `PinkNoiseGenerator.ReplacedInOnePeriod` | external/portaudio/examples/paex_pink.c:119-139 | what the counters kept by the generator say of any period of 2^numRows calls |
| `PinkNoiseGenerator.WithZerosBelowPower` | external/portaudio/examples/paex_pink.c:125-131 | of the indices below 2^numRows, 2^(numRows - 1 - k) have exactly k trailing zeros |
| `AudioMixer.Mix` | src/server/AudioMixer.h:9-49 | for any packets, the result is the packet of the mixed samples, with sums in 32-bit words |
| `AudioMixer.AddPacket` | src/server/AudioMixer.h:25-33 | each sample of the packet is added to its sum and counted |
| `AudioMixer.Normalize` | src/server/AudioMixer.h:38-45 | half the mean, both quotients truncated toward zero; the clamp never acts |
| `AudioMixer.MixedWordBounds` | src/server/AudioMixer.h:37-46 | every mixed sample lies in [-16384, 16383], even when sums wrap around |
| `AudioMixer.NoOverflow` | src/server/AudioMixer.h:21-46 | up to 65536 packets no sum overflows: every output sample is half the mean of the packets long enough to cover it |
| `AudioMixer.MixIsHalfMean` | src/server/AudioMixer.h:38-45 | up to 65536 packets, every sample of the mix is half the exact mean with its fraction dropped toward zero |
| `AudioMixer.HalfMeanIsTowardZero` | src/server/AudioMixer.h:39-42 | the two truncating divisions together drop the fraction of the exact quotient |
| `AudioMixer.OverflowBeyond` | src/server/AudioMixer.h:30 | for every larger number of packets there are some whose lowest samples mix to the highest value, because the 32-bit sum wraps around |
| `AudioMixer.ExactIff` | src/server/AudioMixer.h:21-46 | all mixes of n packets are exact if and only if n is at most 65536 |
| `AudioMixer.EveryPositionIsCovered` | src/server/AudioMixer.h:14-19 | the counted packets at a position are none exactly past the longest packet |
| `AudioMixer.MixIsOrderless` | src/server/AudioMixer.h:9-49 | the mix depends on the multiset of packets alone |
| `AudioMixer.PacketRoundTrip` | src/common/AudioPacket.h:12-19 | the samples of the output packet are read back as they were written |
| `RoomManagement.RoomManager.constructor` | src/server/RoomManager.h:18-21 | an empty room |
| `RoomManagement.RoomManager.AddClient` | src/server/RoomManager.h:23-30 | registers the client; the mixing timer is started exactly if the room then holds exactly one client, also when it held that client before |
| `RoomManagement.RoomManager.RemoveClient` | src/server/RoomManager.h:32-36 | the client and its buffer go, its time stamp stays |
| `RoomManagement.RoomManager.GetClient` | src/server/RoomManager.h:38-42 | a client exactly if it is registered |
| `RoomManagement.RoomManager.ProcessAudio` | src/server/RoomManager.h:44-57 | the packet is appended, also for a sender that is not registered; of more than 50 packets the oldest goes; the sender is stamped |
| `RoomManagement.RoomManager.BuffersAreBounded` | src/server/RoomManager.h:50-53 | in every reachable state no buffer holds more than 50 packets |
| `RoomManagement.GatheredBound` | src/server/RoomManager.h:50-97 | a client is mixed at most 50 packets from each buffer, and none from its own |
| `RoomManagement.RoomManager.TickIsExact` | src/server/RoomManager.h:50-103 | in every reachable state with up to 1310 buffers besides the client's own, its mix is exact |
| `RoomManagement.RoomManager.Gather` | src/server/RoomManager.h:86-97 | the packets of all other clients active in the last five seconds, whatever the order of the map; no time stamp is added |
| `RoomManagement.RoomManager.SendMixes` | src/server/RoomManager.h:86-103 | the calls of send, in order, hold one packet for each client with something gathered, the mix of it, and none for anyone else |
| `RoomManagement.RoomManager.ClearBuffers` | src/server/RoomManager.h:105-108 | all buffers are empty |
| `RoomManagement.RoomManager.ForgetInactive` | src/server/RoomManager.h:110-118 | buffers and stamps of those inactive for more than five seconds go |
| `RoomManagement.RoomManager.MixAndSendAudio` | src/server/RoomManager.h:82-118 | one tick, in every order of the maps: what each client is sent; afterwards exactly those stamps are left that are at most five seconds old, and the buffers of those clients, all empty |
| `RoomManagement.OrderDoesNotMatter` | src/server/RoomManager.h:86-103 | what a client is sent does not depend on the order in which the buffers are walked |
| `RoomManagement.TickMixesWhatReaches` | src/server/RoomManager.h:82-103 | a tick sends each registered client the mix of exactly the packets that reach it according to the room's history, each once, and nothing when there are none |
| `RoomHistory.ReachesIff` | src/server/RoomManager.h:44-118 | a packet reaches a client in a tick if and only if the tick is the first since, the sender is another client that was not removed since and was active in the last five seconds, and fewer than 50 of its packets came later |
| `RoomHistory.AtMostOneTick` | src/server/RoomManager.h:105-108 | a packet that was there at one tick reaches nobody at a later one |
| `RoomHistory.KeptIff` | src/server/RoomManager.h:48-53 | which packets the limit of 50 leaves in a buffer |
| `RoomHistory.PlacesOnce` | src/server/RoomManager.h:88-97 | no packet is mixed twice in one tick |

## Left out

- BufferProcessing.BufferProcessor.EndBufferProcessing: the mode that allows partial use of host buffers, hosts that supply no input or no output for a stream that has them, and the blocking copy functions are not modelled.
- BufferProcessing.BufferProcessor.constructor: sample conversion, channels, interleaving, dithering and refused memory are not modelled; a frame is an opaque value and its conversion the identity. A stream whose temporary buffers would have no frames gets no invariant.
- Stream restart (PaUtil_ResetBufferProcessor), latency queries and the never-drop-input flag are not modelled.
- BufferProcessing.BufferProcessor.ProcessDuplexBlock: frame counts are unbounded; sums of counts that overflow an unsigned long are not modelled.
- RingBuffers.RingBuffer.Initialize: sizes of zero or less, whose buffer holds nothing, and element sizes in bytes are not modelled further; indices do not overflow.
- RingBuffers.RingBuffer.AdvanceWriteIndex: is stated for counts that fit, as the source asks of its callers; the same of the read index.
- RingInterleaving.StepKeepsInv: memory barriers are taken to make every step visible in order; flushing while a transfer is under way, which the source forbids, is not a step.
- Sha1.SHA1.Update: the input stream that the source wraps around the string is a sequence of bytes; hashing a file is not modelled.
- AllocationGroups.AllocateLinks: the address one past the block, which the source stores and then overwrites, is never stored; counts do not overflow.
- AllocationGroups.AllocationGroup.GroupFreeMemory: asks for memory that is live and is not the group's own, as freeing it demands.
- PinkNoiseGenerator.PinkNoise.constructor: takes at most 30 rows, the length of the array; more rows run past it in the source.
- PinkNoiseGenerator.PinkNoise.GeneratePinkNoise: random numbers are arbitrary 24-bit values; scaling is exact instead of rounded to a float, so no bound is stated of the rounded result; the recording of the largest and smallest output is not modelled.
- Base64.ToBase64: text that is not hexadecimal, for which the conversion of the source throws or stops early, is not modelled.
- Base64.FromBase64: the 32-bit buffer wraps around, as on the machines in use, where the source leaves signed overflow undefined.
- WebSocketFrame.HandleFrame: the flag of the final frame is not looked at, as in the source; frames split over reads are not reassembled by the source and so not modelled. Reading past the end of the buffer is an outcome of its own.
- SendQueue.Session.SendMessage: one thread handles sends and completions; sockets, encryption and the HTTP upgrade around the accept value are not modelled.
- AudioMixer.Mix: samples have the low byte first, as on the machines in use; counts of packets do not overflow.
- RoomManagement.RoomManager.AddClient: what starting a running timer does to the wait under way is the timer library's matter; ticks are events.
- RoomManagement.RoomManager.MixAndSendAudio: mutual exclusion, the clock and the network are not modelled; time is a parameter and what is sent is returned.
- PortAudio's front end and device layers, its other examples and tests, the JavaScript client, the client's audio and network managers and the binary serialization are not modelled: they validate parameters, perform I/O, or would only add easy members.
