# Proofs about the in-memory store: packets, streams, codecs

This project models the parts of the repository where data change their form on the way from a
socket to the store and back, and proves that nothing is lost, invented or misread there.

* **Packets.** A packet is a frame: the magic `MYSF`, a 4-byte little-endian length, the payload and
  its CRC-32 (`Frames.dfy`, `StreamPacket.dfy`). The receiver is a byte-driven state machine over a
  chunk buffer that is refilled from a memory stream and that goes back after an error
  (`Receiver.dfy`). What it should do is a short recursive scan, `Scan.Greedy`; what it does is
  `Scan.ChunkScan`, for every stream and every chunk size; when the two agree is an
  if-and-only-if (`Scan.dfy`, `Recovery.dfy`), and so is when a call does not come back
  (`Endings.dfy`). `Reception.dfy` states what that means for the caller.
  `Wire.dfy` says in plain numbers which bytes make a frame and which verdict bytes get.
* **CRC-32.** The reference is the bitwise shift register (`Register.dfy`). It is linear and
  injective; from that follow all the fast forms in `Crc32.dfy` and the detection of bursts in
  `Burst.dfy`. The function is the one of section 8 of RFC 1952.
* **Memory streams.** A list of fixed-size blocks that behaves as one byte sequence (`Blocks.dfy`,
  `MemStream.dfy`), and the store that keeps one stream per source and is driven by remote commands
  (`PacketStore.dfy`, `RemoteCommands.dfy`, `RemoteServer.dfy`).
* **Base64.** The stream codec with its 64-bit loop, block-wise encoding and decoding of streams, and
  the encoder and decoder that are split among threads, all against section 4 of RFC 4648 (`Base64*.dfy`).
  `Base64Standard.dfy` ties both directions to the alphabet written out, and to arithmetic on its places.
* **Base-36 numbers.** Printing into 15 and 8 characters and parsing with `strtol` (`Base36.dfy`).

Code that changes objects or buffers is modelled by classes, arrays and loops with the same steps;
each method is proved against a function, and the lemmas about those functions are the results.
`ByteNumbers.dfy`, `Bytes.dfy` and `Memory.dfy` hold the byte, word and buffer arithmetic below.

## What the code does where one might expect something else

* The start of a candidate is an index into the chunk it began in, but it is used in whatever chunk
  refutes the candidate. So recovery is the greedy scan exactly on streams in which no refuted
  candidate spans a chunk boundary (`Scan.ChunkScanIsGreedyIff`); on others bytes are skipped or the
  call never ends. It never ends exactly when a candidate is refuted in a short last chunk that does
  not reach to its index (`Endings.EndingIff`, witness `Recovery.CutStreamHangs`); streams of whole
  chunks never hang (`Endings.WholeChunksNeverHang`). Clean streams are never affected
  (`Scan.CleanRun`).
* The length limit of the parser is the size of the packet array, not the largest payload. A
  candidate therefore runs past the array exactly when it announces 16373 to 16384 bytes and the
  stream has more than 16384 bytes from its start on (`Scan.OversizedIff`, `Endings.EndingIff`,
  witness `Endings.OversizedStreamOverruns`). Shorter streams and clean streams exclude it.
* A CRC mismatch makes no error call, and `SR_ERROR_CRC` is never returned: the result is overwritten
  before the loop ends. It is recorded in the model as `CrcRejected`.
* `PayloadPart` subtracts without looking: behind the end of the payload the length wraps around
  (`StreamPackets.PartIsCutIff`, smallest case `StreamPackets.ByteBehindPayload`).
* `DecodeBase64` ignores the verdict on each block. A foreign character that comes third in its group,
  before any other foreign character or '=', stops the decoder for the rest of its block only; if the
  next block starts with a character of the alphabet, the text decodes differently in blocks than at
  once, and in no other case (`Base64Streams.BlocksDecodeAsWholeIff`). Encoded text is not affected.
* From 20000 characters on, a build with threads decodes in parts. It then accepts texts that are padded
  at a boundary between parts, which the sequential decoder rejects (`Base64Dispatch.VerdictDependsIff`,
  witnesses `Base64Dispatch.LenientTexts`), and leaves a gap in the output
  (`Base64ParallelDecode.PaddedPartLeavesGap`). What a packet can carry is shorter than that.
* The buffer for the base64 text of a READ response is one character too short exactly when the number
  of bytes read is one more than a multiple of three (`RemoteCommands.ResponseFitsIff`, already for one
  byte: `RemoteCommands.OneByteDoesNotFit`).
* Printing an invalid packet part by part does not end when its length field is near 2^32
  (`StreamPackets.StreamPacket.CollectPayload`, witness `StreamPackets.LongestHeaderNeverEnds`). The
  receiver hands on checked packets only, and `OrcRemoteServerClient::DisplayPacket` is called nowhere.
* A WRITE of no bytes makes its source known to the store.
* The 32-bit reader accepts INT_MIN, which the 32-bit printer cannot print.

## Model

| member | source | states |
|---|---|---|
| `Receivers.SocketClientPacket.OnRecv` | research/OrcInMem/MemStreamServer/inc/SocketClientPacket.h:97-131 | From the reset state, on any stream and for any chunk size up to the packet array: the callbacks and CRC rejections, in order, and the way the call comes out are those of the specification scan `ChunkScan`; when no candidate is pending at the end the receiver is in the reset state again |
| `Receivers.SocketClientPacket.RecvPacket` | research/OrcInMem/MemStreamServer/inc/SocketClientPacket.h:191-295 | One call either collects the next packet of that scan and stands strictly further in the stream, or has used the stream up, or is caught behind its chunk, or is about to write behind the packet array; each exactly where the scan says so. It ends, although the read position moves backwards |
| `Receivers.SocketClientPacket.ScanBuffer` | research/OrcInMem/MemStreamServer/inc/SocketClientPacket.h:217-283 | The byte loop over one chunk keeps the parser in step with the stream and ends; each round moves on in the order (candidate start, read position) |
| `Receivers.SocketClientPacket.ScanByte` | research/OrcInMem/MemStreamServer/inc/SocketClientPacket.h:217-283 | One byte leaves the callbacks made so far plus those still to come unchanged as a whole, also when it moves the read position back |
| `Receivers.SocketClientPacket.ConsumeByte` | research/OrcInMem/MemStreamServer/inc/SocketClientPacket.h:217-283 | The state invariant over one byte: the phase fits the number of bytes seen, the length buffer holds the length bytes seen, the packet holds the bytes of the candidate; a refused candidate leaves the read position one behind its start index, a complete one leaves the packet equal to that stretch of the stream |
| `Receivers.SocketClientPacket.CallParser` | research/OrcInMem/MemStreamServer/inc/SocketClientPacket.h:217-230 | The phase function called is never the null entry, and its result says exactly what the next byte settles about the candidate |
| `Receivers.SocketClientPacket.CallScanMID` | research/OrcInMem/MemStreamServer/inc/SocketClientPacket.h:142-153 | In the magic phase a fitting byte keeps the candidate possible, the last one moves on to the length with the length buffer empty, any other byte refutes the candidate; the start index is that of the candidate |
| `Receivers.SocketClientPacket.PayloadSays` | research/OrcInMem/MemStreamServer/inc/SocketClientPacket.h:181-189 | In the payload phase every byte but the last keeps the candidate undecided, and the last completes just the announced length; the error result is never reached |
| `Receivers.SocketClientPacket.FinishPacket` | research/OrcInMem/MemStreamServer/inc/SocketClientPacket.h:259-282 | A complete candidate is delivered when it is a frame and given up otherwise |
| `Receivers.SocketClientPacket.Refill` | research/OrcInMem/MemStreamServer/inc/SocketClientPacket.h:204-208 | The chunk buffer holds the next stretch of the stream, cut off at its end |
| `Receivers.SocketClientPacket.EndChunk` | research/OrcInMem/MemStreamServer/inc/SocketClientPacket.h:286-290 | A used-up chunk makes room without moving the position in the stream |
| `Receivers.SocketClientPacket.RecvParseDataLength` | research/OrcInMem/MemStreamServer/inc/SocketClientPacket.h:155-179 | Length bytes accumulate in order; the fourth yields the little-endian length and an error above the packet size |
| `Scan.ChunkScanIsGreedyIff` | research/OrcInMem/MemStreamServer/inc/SocketClientPacket.h:191-295 | The receiver performs the greedy resynchronising scan on a stream if and only if no candidate that scan refutes spans a chunk boundary and the candidate it ends in fits a packet |
| `Scan.ConservationIff` | research/OrcInMem/MemStreamServer/inc/SocketClientPacket.h:239-282 | The stream length equals delivered frame bytes + parse errors + CRC rejections + pending bytes, and the call ends, exactly under the same condition |
| `Scan.OneChunkRun` | research/OrcInMem/MemStreamServer/inc/SocketClientPacket.h:97-295 | For every stream of at most one chunk the run is the greedy scan, and it accounts for every byte |
| `Scan.CleanRun` | research/OrcInMem/MemStreamServer/inc/SocketClientPacket.h:97-131 | For every list of payloads that fit and every chunk size, the concatenated frames are delivered in order, without an error call, with nothing left over |
| `Scan.GreedyConserves` | research/OrcInMem/MemStreamServer/inc/SocketClientPacket.h:239-282 | The greedy scan accounts for each byte once |
| `Scan.ChunkScanNeverGains` | research/OrcInMem/MemStreamServer/inc/SocketClientPacket.h:239-282 | No chunk size makes the receiver account for a byte twice |
| `Scan.CutLosesBytes` | research/OrcInMem/MemStreamServer/inc/SocketClientPacket.h:250-257 | After a candidate is refuted in a later chunk than it began in, bytes are missing from the account or the call does not end |
| `Scan.SkippedAccounts` | research/OrcInMem/MemStreamServer/inc/SocketClientPacket.h:239-282 | Every run that ends accounts for all bytes but those it skips: the distances between the chunks its refuted candidates start and end in |
| `Scan.SkipsIffCut` | research/OrcInMem/MemStreamServer/inc/SocketClientPacket.h:250-257 | It skips bytes exactly when the stream is cut |
| `Endings.EndingIff` | research/OrcInMem/MemStreamServer/inc/SocketClientPacket.h:201-291 | A run never ends exactly when one of the candidates it starts jams, and comes to write behind the packet array exactly when one of them is oversized |
| `Scan.OversizedIff` | research/OrcInMem/MemStreamServer/inc/SocketClientPacket.h:167-167 | A candidate outgrows the packet array, or waits for more than it holds, exactly when it has the magic, announces a length above the largest payload but not above the array, and the stream goes on past the array's size |
| `Endings.ResumeIsBehindIff` | research/OrcInMem/MemStreamServer/inc/SocketClientPacket.h:256-256 | The read position is put behind the chunk exactly when that is a short last chunk that ends before the candidate's index |
| `Endings.NoOverrun` | research/OrcInMem/MemStreamServer/inc/SocketClientPacket.h:167-230 | A stream with no oversized candidate at any position is received without an overrun, for every chunk size |
| `Endings.ShortStreamNeverOverruns` | research/OrcInMem/MemStreamServer/inc/SocketClientPacket.h:167-230 | A stream that fits the packet array never overruns it |
| `Endings.WholeChunksNeverHang` | research/OrcInMem/MemStreamServer/inc/SocketClientPacket.h:250-290 | On a stream of whole chunks the call always ends |
| `Endings.OversizedStreamOverruns` | research/OrcInMem/MemStreamServer/inc/SocketClientPacket.h:167-230 | A concrete stream, for every chunk size: a header that announces 16373 bytes, and zeros one byte past the array |
| `Reception.Receive` | research/OrcInMem/MemStreamServer/inc/SocketClientPacket.h:97-131 | A call's callbacks on any stream, and that it hangs or overruns exactly when a candidate it meets jams or is oversized |
| `Reception.ReceiveFrames` | research/OrcInMem/MemStreamServer/inc/SocketClientPacket.h:97-131 | A stream of frames adds exactly their deliveries to the callbacks and leaves the client ready for the next |
| `Reception.ReceiveChunk` | research/OrcInMem/MemStreamServer/inc/SocketClientPacket.h:97-131 | A stream of at most one chunk adds exactly the events of the greedy scan; with the pending bytes they account for the whole stream |
| `Reception.ReceiveSeries` | research/OrcInMem/MemStreamServer/inc/SocketClientPacket.h:97-131 | Any number of calls, each on a stream of frames: all payloads are delivered in order |
| `Scan.ValidIffFrame` | research/OrcInMem/MemStream/src/StreamPacket.cpp:68-96 | A candidate is accepted exactly when it begins with the frame of some payload, and that frame is what it takes |
| `Recovery.CutStreamHangs` | research/OrcInMem/MemStreamServer/inc/SocketClientPacket.h:250-290 | A concrete stream, for every chunk size above one: junk, the first magic byte at the end of a chunk, a wrong byte in the next; the greedy scan gives up each byte, the receiver does not come back |
| `Recovery.FramesAmongJunk` | research/OrcInMem/MemStreamServer/gtest/domain.cpp:142-183 | Junk in which the magic does not stand, parts of it included, costs one parse error a byte and no frame: 4 bytes before and 4 after give the 8 errors of the test |
| `Recovery.DamagedFrameIsSkipped` | research/OrcInMem/MemStreamServer/gtest/domain.cpp:197-228 | A frame hit by one burst, in which the magic does not stand a second time, costs one CRC rejection and its length - 1 parse errors, and what follows is scanned as if it stood alone |
| `Recovery.DamagedFrameCosts` | research/OrcInMem/MemStreamServer/inc/SocketClientPacket.h:259-277 | What such a frame costs the receiver itself, for every chunk size: one CRC rejection, and a parse error for each further byte of the chunk it ends in; the frames behind it are not affected |
| `Judging.LastByteSettles` | research/OrcInMem/MemStreamServer/inc/SocketClientPacket.h:259-277 | The packet array and the stream agree on whether the candidate is a frame |
| `Judging.OverrunIsComing` | research/OrcInMem/MemStreamServer/inc/SocketClientPacket.h:167-167 | A candidate still undecided when the packet array is full has announced a length above the largest payload, and outgrows the array |
| `StreamPackets.StreamPacket.Create` | research/OrcInMem/MemStream/src/StreamPacket.cpp:98-120 | The buffer begins with magic, little-endian length, payload and CRC, and reads back as that payload; a payload above the limit leaves it untouched |
| `StreamPackets.StreamPacket.Check` | research/OrcInMem/MemStream/src/StreamPacket.cpp:68-96 | True if and only if the buffer begins with the frame of some payload |
| `StreamPackets.StreamPacket.Crc` | research/OrcInMem/MemStream/src/StreamPacket.cpp:50-66 | The loop over 1024-byte chunks computes the CRC of the whole |
| `StreamPackets.StreamPacket.Payload` | research/OrcInMem/MemStream/src/StreamPacket.cpp:166-182 | Copies exactly the payload of a valid packet that fits and nothing otherwise |
| `StreamPackets.StreamPacket.PayloadTo` | research/OrcInMem/MemStream/src/StreamPacket.cpp:143-164 | Appends exactly the payload of a valid packet to a stream |
| `StreamPackets.StreamPacket.PayloadPart` | research/OrcInMem/MemStream/src/StreamPacket.cpp:122-141 | A part read at an offset within the payload is the payload cut there; the length is the 32-bit difference in any case |
| `StreamPackets.PartIsCutIff` | research/OrcInMem/MemStream/src/StreamPacket.cpp:133-134 | The part length is right if and only if the offset is not behind the payload, or nothing is asked for; behind it, it is the request cut to the difference plus 2^32 |
| `StreamPackets.ByteBehindPayload` | research/OrcInMem/MemStream/src/StreamPacket.cpp:133-134 | The smallest wrong answer: one byte asked for behind any payload |
| `StreamPackets.StreamPacket.PayloadLen` | research/OrcInMem/MemStream/src/StreamPacket.cpp:184-191 | On a valid packet the length of its payload |
| `StreamPackets.StreamPacket.Equals` | research/OrcInMem/MemStream/src/StreamPacket.cpp:194-197 | Equality of the used bytes |
| `StreamPackets.StreamPacket.CollectPayload` | research/OrcInMem/OrcRemoteServerTCP/src/OrcRemoteServerClient.cpp:57-70 | Reading a valid packet part by part, for every part size, gives its payload; reading any other gives nothing, and ends exactly when its length field leaves room for one more part below 2^32 |
| `StreamPackets.LongestHeaderNeverEnds` | research/OrcInMem/OrcRemoteServerTCP/src/OrcRemoteServerClient.cpp:64-68 | A packet that fails its check, with the largest length field, is one on which parts of 512 bytes come to no end |
| `Frames.FieldsDecide` | research/OrcInMem/MemStream/src/StreamPacket.cpp:68-96 | The three field tests hold if and only if the bytes begin with a frame |
| `Frames.FramesAreUnambiguous` | research/OrcInMem/MemStream/src/StreamPacket.cpp:98-120 | No two payloads have frames of which one begins with the other |
| `Frames.SameFrameBytes` | research/OrcInMem/MemStream/src/StreamPacket.cpp:68-96 | Whether bytes begin with a frame depends on nothing behind the announced length |
| `Frames.BurstInvalidatesFrame` | research/OrcInMem/MemStream/src/StreamPacket.cpp:68-96 | A frame hit by one burst in payload or CRC is no frame |
| `Frames.MissingFrontDecides` | research/OrcInMem/MemStream/src/StreamPacket.cpp:68-96 | A frame of which only the bytes from some place on have reached the packet array passes the check when the array happens to hold the missing ones, and, if only bytes of the magic are missing, only then |
| `Wire.FrameOnWire` | research/OrcInMem/MemStream/src/StreamPacket.cpp:98-120 | The layout of every frame in numbers: the bytes 77, 89, 83, 70, the length in four bytes with the least first, the payload, and its CRC in four bytes with the least first |
| `Wire.EmptyFrame` | research/OrcInMem/MemStream/src/StreamPacket.cpp:24-24 | The empty payload is framed as 4D 59 53 46 and eight zeros, and a receiver accepts these twelve bytes |
| `Wire.JudgeIsOnWire` | research/OrcInMem/MemStreamServer/inc/SocketClientPacket.h:142-189 | On all bytes the verdict that the scans are defined by is the one in numbers: a byte that is not of "MYSF" refutes at its place, a length above 16384 at the eighth byte, and the last byte settles the rest by a length up to 16372 and the CRC |
| `Wire.LengthIsWord` | research/OrcInMem/MemStreamServer/inc/SocketClientPacket.h:155-179 | The four length bytes are read as a 32-bit number lies in memory, least byte first |
| `Wire.LengthBytesAreWordBytes` | research/OrcInMem/MemStream/src/StreamPacket.cpp:108-109 | They are written as such a number lies in memory |
| `Burst.BurstChangesCrc` | research/OrcInMem/3rdParty/crc32/crc32.cpp:83-106 | Equal-length data that differ only within 4 bytes, or within 32 consecutive bits, always have different CRCs |
| `Burst.BurstBreaksCheck` | research/OrcInMem/MemStream/src/StreamPacket.cpp:89-95 | The same for payload and stored CRC together |
| `Burst.BurstMovesRegister` | research/OrcInMem/3rdParty/crc32/crc32.cpp:83-106 | One burst always changes the shift register |
| `Register.StepIsInjective` | research/OrcInMem/3rdParty/crc32/crc32.cpp:92-103 | The register step loses nothing |
| `Register.ShiftIsLinear` | research/OrcInMem/3rdParty/crc32/crc32.cpp:92-103 | Any number of register steps is linear over exclusive-or |
| `Register.RunIsInjective` | research/OrcInMem/3rdParty/crc32/crc32.cpp:83-106 | Different registers stay different whatever data follow |
| `Register.RunConcatenates` | research/OrcInMem/3rdParty/crc32/crc32.cpp:83-106 | Running over a concatenation is running over its parts |
| `Register.CrcComposes` | research/OrcInMem/MemStream/src/StreamPacket.cpp:57-64 | Continuing a CRC over a second block is the CRC of the concatenation |
| `Register.RunWord` | research/OrcInMem/3rdParty/crc32/crc32.cpp:245-249 | Four bytes at once are one word added and 32 steps |
| `Wire.CheckValue` | research/OrcInMem/3rdParty/crc32/crc32.cpp:83-106 | The check value by which the CRC of RFC 1952 is known: that of "123456789" is CBF43926 |
| `Crc32.LookupIsShift` | research/OrcInMem/3rdParty/crc32/crc32.cpp:539-551 | Entry i of table k, by the recurrence, is byte i after 8(k+1) register steps |
| `Crc32.Bitwise` | research/OrcInMem/3rdParty/crc32/crc32.cpp:83-106 | The bitwise loop computes the CRC |
| `Crc32.HalfByte` | research/OrcInMem/3rdParty/crc32/crc32.cpp:110-130 | Two look-ups per byte in the 16-entry table compute the same CRC |
| `Crc32.OneByte` | research/OrcInMem/3rdParty/crc32/crc32.cpp:135-144 | One look-up per byte computes the same CRC |
| `Crc32.Tableless` | research/OrcInMem/3rdParty/crc32/crc32.cpp:149-199 | The multiply-and-fold form computes the same CRC |
| `Crc32.NoCarriesBetweenCopies` | research/OrcInMem/3rdParty/crc32/crc32.cpp:173-174 | The multiplication lays shifted copies side by side without a carry |
| `Crc32.SignSpread` | research/OrcInMem/3rdParty/crc32/crc32.cpp:203-225 | The sign-spreading form computes the same CRC |
| `Crc32.SlicingBy4` | research/OrcInMem/3rdParty/crc32/crc32.cpp:230-261 | Slicing by 4 with its byte tail computes the same CRC for every length |
| `Crc32.SlicingBy8` | research/OrcInMem/3rdParty/crc32/crc32.cpp:267-308 | Slicing by 8 computes the same CRC |
| `Crc32.SlicingBy4x8` | research/OrcInMem/3rdParty/crc32/crc32.cpp:312-361 | Slicing by 8 unrolled fourfold computes the same CRC |
| `Crc32.SlicingBy16` | research/OrcInMem/3rdParty/crc32/crc32.cpp:367-510 | Slicing by 16 in blocks of 64 bytes computes the same CRC, plain and with a look-ahead, which leaves more to the byte tail; it reads past the data exactly when the 64-bit sum that bounds the loop has wrapped around to no more than the bytes behind whole blocks |
| `Crc32.SliceBy16Runs` | research/OrcInMem/3rdParty/crc32/crc32.cpp:400-425 | Sixteen look-ups for sixteen bytes are 128 register steps over them |
| `Crc32.Fast` | research/OrcInMem/3rdParty/crc32/crc32.cpp:515-528 | The dispatched form computes the CRC of the bitwise loop |
| `MemStreams.MemStream.Write` | research/OrcInMem/MemStream/inc/MemStream.h:79-97 | The contents grow by exactly what is written, and the layout stays canonical |
| `MemStreams.MemStream.AddNewBuffer` | research/OrcInMem/MemStream/inc/MemStream.h:335-340 | Adds an empty block and nothing to the contents |
| `MemStreams.Buffer.Appand` | research/OrcInMem/MemStream/inc/MemStream.h:299-314 | Appends as much as fits and says how much that was |
| `MemStreams.MemStream.Read` | research/OrcInMem/MemStream/inc/MemStream.h:115-143 | Copies exactly the stretch of the contents, cut off at their end, and leaves the rest of the destination alone |
| `MemStreams.MemStream.Len` | research/OrcInMem/MemStream/inc/MemStream.h:224-224 | The length of the contents |
| `MemStreams.MemStream.Size` | research/OrcInMem/MemStream/inc/MemStream.h:223-223 | The room reserved exceeds the length by at most one block |
| `MemStreams.MemStream.Equals` | research/OrcInMem/MemStream/inc/MemStream.h:99-113 | True if and only if the contents are equal, however each was split into writes |
| `Blocks.CanonicalIsUnique` | research/OrcInMem/MemStream/inc/MemStream.h:79-113 | Contents determine the blocks they are kept in |
| `Blocks.LengthOfCanonical` | research/OrcInMem/MemStream/inc/MemStream.h:224-224 | All blocks but the last are full |
| `Blocks.BlockAt` | research/OrcInMem/MemStream/inc/MemStream.h:123-124 | Block i holds the contents from i times the block size on |
| `Blocks.StepwiseReadIsWhole` | research/OrcInMem/MemStream/inc/MemStream.h:115-143 | Reads at offsets 0, k, 2k, ... concatenate to the whole, for every k |
| `Base64.FeedIsRfc` | research/OrcInMem/3rdParty/base64/lib/lib.c:74-97 | The byte-wise encoder and its trailer give the encoding of section 4 of RFC 4648, from any state between groups |
| `Base64.FeedConcatenates` | research/OrcInMem/3rdParty/base64/lib/arch/generic/enc_tail.c:1-34 | Encoding two blocks one after the other is encoding them together |
| `Base64Standard.EncodesByPlace` | research/OrcInMem/3rdParty/base64/lib/lib.c:16-20 | A six-bit value is encoded as the character at that place of the written-out alphabet |
| `Base64Standard.GroupInNumbers` | research/OrcInMem/3rdParty/base64/lib/arch/generic/enc_tail.c:1-34 | The places of the four characters are the digits, to base 64, of the number of which the three bytes are the digits to base 256 |
| `Base64Standard.RfcByGroups` | research/OrcInMem/3rdParty/base64/lib/lib.c:74-97 | Characters 4j to 4j + 3 of an encoding encode bytes 3j to 3j + 2, as far as there are any |
| `Base64Standard.RfcOfGroup` | research/OrcInMem/3rdParty/base64/lib/lib.c:74-97 | A group of one, two or three bytes in numbers: missing bytes count as zero, and the characters that only they would fill are character 61 |
| `Base64Standard.RfcShape` | research/OrcInMem/3rdParty/base64/lib/lib.c:74-97 | Four characters for three bytes; none, one or two characters 61 at the end as the number of bytes is 0, 2 or 1 more than a multiple of three; characters of the alphabet before them |
| `Base64Standard.TestVectors` | research/OrcInMem/3rdParty/base64/lib/lib.c:134-165 | The test vectors of section 10 of RFC 4648, byte by byte |
| `Base64.DecodedBytesOfRfc` | research/OrcInMem/3rdParty/base64/lib/lib.c:167-196 | Decoding what was encoded gives the bytes back and reports success |
| `Base64Standard.DecodesByPlace` | research/OrcInMem/3rdParty/base64/lib/lib.c:28-47 | For all 256 characters: one of the alphabet is decoded to its place, 61 alone is padding, every other is foreign |
| `Base64Standard.DecodedInNumbers` | research/OrcInMem/3rdParty/base64/lib/arch/generic/dec_tail.c:1-90 | What any text decodes to, well formed or not: three bytes for four characters up to the first that is not of the alphabet, each three the digits to base 256 of the number whose digits to base 64 are the places of the four |
| `Base64.DecodeConcatenatesIff` | research/OrcInMem/3rdParty/base64/lib/arch/generic/dec_tail.c:33-59 | Decoding a text in two blocks gives the bytes of the whole, except when the first has a foreign character third in its group before any other and the second starts with a character of the alphabet |
| `Base64.DecodeConcatenates` | research/OrcInMem/3rdParty/base64/lib/arch/generic/dec_head.c:13-36 | Unless it is stopped so, a decoder is left by two blocks as by the whole text, with the same bytes, and its verdict on a second block that is not empty is the one on the whole: padding may be cut in two |
| `Base64.LoopLeaves` | research/OrcInMem/3rdParty/base64/lib/arch/generic/dec_tail.c:1-90 | How the decoder is left after a text can be read off the text: open, ended, or stopped at a foreign character in third place |
| `Base64.DecodesWellIff` | research/OrcInMem/3rdParty/base64/lib/lib.c:167-196 | Success is reported on just the texts of whole groups in which only the last is padded, with one or two '=' in the right place |
| `Base64.LoopWrites` | research/OrcInMem/3rdParty/base64/lib/arch/generic/dec_tail.c:1-90 | How many bytes a text yields |
| `Base64.ValidTextNeverStalls` | research/OrcInMem/3rdParty/base64/lib/arch/generic/dec_tail.c:33-59 | Text of the alphabet and '=' never stops the decoder there |
| `Base64Codec.Base64State.StreamEncode` | research/OrcInMem/3rdParty/base64/lib/arch/generic/enc_tail.c:1-34 | Writes the fed text in place and nothing around it, across calls, with the 64-bit loop inside |
| `Base64Codec.EncodeSixAtATime` | research/OrcInMem/3rdParty/base64/lib/arch/generic/64/enc_loop.c:3-28 | Six bytes and eight characters a round are what feeding byte by byte gives, until fewer than eight bytes are left |
| `Base64Codec.FastIsFeed` | research/OrcInMem/3rdParty/base64/lib/arch/generic/64/enc_loop.c:3-28 | One round of it, for every eight bytes loaded |
| `Base64Codec.FeedIgnoresStaleCarry` | research/OrcInMem/3rdParty/base64/lib/lib.c:74-97 | The carry the 64-bit loop leaves behind between groups is never seen |
| `Base64Codec.FeedLength` | research/OrcInMem/3rdParty/base64/lib/arch/generic/enc_head.c:1-2 | How much room the output of a call needs |
| `Base64Codec.Base64State.EncodeFinal` | research/OrcInMem/3rdParty/base64/lib/lib.c:74-97 | Writes the trailer of the state |
| `Base64Codec.Base64State.StreamDecode` | research/OrcInMem/3rdParty/base64/lib/arch/generic/dec_head.c:13-36 | State, bytes and verdict are those of the decoder, with the padding that was begun in an earlier block |
| `Base64Codec.DecodeChars` | research/OrcInMem/3rdParty/base64/lib/arch/generic/dec_tail.c:1-90 | The decoder loop entered in any of its four positions |
| `Base64Codec.DecodeFourAtATime` | research/OrcInMem/3rdParty/base64/lib/arch/generic/32/dec_loop.c:7-46 | The 32-bit loop gives what decoding character by character gives, until four or fewer are left or one of four is not of the alphabet |
| `Base64Codec.DecodingTakesFour` | research/OrcInMem/3rdParty/base64/lib/arch/generic/32/dec_loop.c:14-45 | One round of it: the low three bytes of an unmarked word are what the four characters decode to |
| `Base64Tables.JoinedBytes` | research/OrcInMem/3rdParty/base64/lib/table_generator.c:112-141 | The four table entries joined hold the three bytes in memory order |
| `Base64Tables.MarkedIff` | research/OrcInMem/3rdParty/base64/lib/arch/generic/32/dec_loop.c:19-22 | The top bit is set exactly when one of the four characters is not of the alphabet |
| `Base64Streams.Encode` | research/OrcInMem/3rdParty/base64/lib/lib.c:134-165 | One-shot encoding is the standard's encoding |
| `Base64Streams.DecodeWhole` | research/OrcInMem/3rdParty/base64/lib/lib.c:167-196 | One-shot decoding writes the decoder's bytes; success means well-formed and complete |
| `Base64Streams.EncodeBase64` | research/OrcInMem/Util/src/GeneralUtils.cpp:365-384 | Encoding a stream in blocks of 256 appends the standard's encoding of the whole stream |
| `Base64Streams.DecodeBase64` | research/OrcInMem/Util/src/GeneralUtils.cpp:410-430 | Decoding a stream in blocks of 256 appends what the blocks decode to, the verdicts ignored |
| `Base64Streams.BlocksDecodeAsWholeIff` | research/OrcInMem/Util/src/GeneralUtils.cpp:410-430 | Block by block a text decodes to the same bytes as at once, unless its first character outside the alphabet is foreign and third in its group, and the next block starts inside the text with one of the alphabet; for every block size and every state |
| `Base64Streams.ForeignThirdDiffers` | research/OrcInMem/Util/src/GeneralUtils.cpp:410-430 | For every block size a concrete text on which the two differ |
| `Base64Streams.BlocksDecodeAsWhole` | research/OrcInMem/Util/src/GeneralUtils.cpp:410-430 | For text without foreign characters that is what one-shot decoding gives, for every block size |
| `Base64Streams.BlockwiseRoundTrip` | research/OrcInMem/Util/src/GeneralUtils.cpp:365-430 | Decoding block by block what was encoded gives the original bytes |
| `Base64Parallel.EncodeParallel` | research/OrcInMem/3rdParty/base64/lib/lib_openmp.c:14-74 | For every number of threads and every schedule: the standard's encoding of the whole source, its length returned, nothing written around it |
| `Base64Parallel.EncodeParts` | research/OrcInMem/3rdParty/base64/lib/lib_openmp.c:50-59 | Whichever thread runs next and however far it gets before another does, the regions end up holding the encoding of the parts side by side |
| `Base64Parallel.TurnKeepsRunning` | research/OrcInMem/3rdParty/base64/lib/lib_openmp.c:53-58 | A thread's writes stay in its region and leave every other thread's text as it was |
| `Base64Parallel.RegionsAreDisjoint` | research/OrcInMem/3rdParty/base64/lib/lib_openmp.c:56-56 | No two output regions overlap |
| `Base64Parallel.RegionStart` | research/OrcInMem/3rdParty/base64/lib/lib_openmp.c:56-56 | The offset i*len*4/3 is exact: i times the size of a region |
| `Base64Parallel.RegionsJoin` | research/OrcInMem/3rdParty/base64/lib/lib_openmp.c:50-66 | The finished regions in order are the encoding of the source up to the rest |
| `Base64Parallel.RfcConcatenates` | research/OrcInMem/3rdParty/base64/lib/lib_openmp.c:38-43 | Whole groups encode on their own |
| `Base64Parallel.RoomForParts` | research/OrcInMem/3rdParty/base64/lib/lib_openmp.c:66-73 | The regions and the rest are together as long as the sequential encoding |
| `Base64ParallelDecode.DecodeParallel` | research/OrcInMem/3rdParty/base64/lib/lib_openmp.c:76-149 | For every number of threads in any order: it accepts exactly the texts whose segments are each well formed, leaves the bytes of each segment in its region and returns their number, and gives the sequential bytes and length on every text the sequential decoder accepts |
| `Base64ParallelDecode.SequentialIff` | research/OrcInMem/3rdParty/base64/lib/lib_openmp.c:101-148 | The sequential decoder accepts a text exactly when all segments are well formed and none is padded before the end of the text |
| `Base64ParallelDecode.PartsAreLongest` | research/OrcInMem/3rdParty/base64/lib/lib_openmp.c:101-102 | The part length is the greatest multiple of four that all threads can have |
| `Base64ParallelDecode.PaddedPartLeavesGap` | research/OrcInMem/3rdParty/base64/lib/lib_openmp.c:119-119 | An accepted part fills its region exactly when it is not padded |
| `Base64ParallelDecode.PaddedHalfAccepted` | research/OrcInMem/3rdParty/base64/lib/lib_openmp.c:131-148 | For every size a text that two threads accept and one does not; just from 20000 characters on such texts do reach the threads |
| `Base64Dispatch.Encode` | research/OrcInMem/3rdParty/base64/lib/lib.c:134-165 | Built with or without threads and for every length, one-shot encoding is the standard's encoding |
| `Base64Dispatch.Decode` | research/OrcInMem/3rdParty/base64/lib/lib.c:167-196 | Every text the sequential decoder accepts is accepted in either build, with the same bytes; a build with threads also accepts the long texts that are well formed in each segment and padded inside |
| `Base64Dispatch.VerdictDependsIff` | research/OrcInMem/3rdParty/base64/lib/lib.c:179-195 | The verdict depends on the build exactly on those texts |
| `Base64Dispatch.LenientTexts` | research/OrcInMem/3rdParty/base64/lib/lib.c:179-195 | There are such texts of every size from 20000 characters on |
| `Base64Dispatch.LenientTextsAreLong` | research/OrcInMem/3rdParty/base64/lib/lib.c:128-128 | Every text on which the builds differ has at least 20000 characters, and is accepted by the threads and refused without them |
| `Base64ParallelDecode.BothDecodeWellIff` | research/OrcInMem/3rdParty/base64/lib/lib.c:188-195 | Of two texts side by side, the first of whole groups, both are accepted together exactly when each is, and only the second is padded |
| `Base64ParallelDecode.OneMoreDone` | research/OrcInMem/3rdParty/base64/lib/lib_openmp.c:114-122 | A thread's bytes stay in its region and leave those of the others as they were |
| `Base64ParallelDecode.PartsJoin` | research/OrcInMem/3rdParty/base64/lib/lib_openmp.c:114-142 | On a well-formed text the regions side by side hold its bytes without a gap |
| `PacketStore.MemStreamPacketMap.Write` | research/OrcInMem/MemStream/inc/MemStreamPacketStore.h:26-29 | Extends one source, creating it if need be, and leaves all others as they are |
| `PacketStore.MemStreamPacketMap.Read` | research/OrcInMem/MemStream/inc/MemStreamPacketStore.h:31-36 | Reads the cut of a known source and answers none for an unknown one |
| `PacketStore.MemStreamPacketMap.Delete` | research/OrcInMem/MemStream/inc/MemStreamPacketStore.h:38-43 | Removes a known source and nothing else |
| `PacketStore.MemStreamPacketMap.Len` | research/OrcInMem/MemStream/inc/MemStreamPacketStore.h:52-57 | The length of a known source, none for an unknown one |
| `RemoteServer.OrcRemoteServerClient.OnRecvPacket` | research/OrcInMem/OrcRemoteServerTCP/src/OrcRemoteServerClient.cpp:74-98 | The responses sent and the store left are those of running the packet's commands in order; a packet that does not parse, or no store, is one error and no response |
| `RemoteServer.OrcRemoteServerClient.OnRecvCmdWrite` | research/OrcInMem/OrcRemoteServerTCP/src/OrcRemoteServerClient.cpp:100-119 | Appends the decoded bytes to the source and answers success, or that there is no store |
| `RemoteServer.OrcRemoteServerClient.OnRecvCmdRead` | research/OrcInMem/OrcRemoteServerTCP/src/OrcRemoteServerClient.cpp:121-146 | Answers the stretch asked for, or that the source is unknown |
| `RemoteServer.OrcRemoteServerClient.OnRecvCmdDelete` | research/OrcInMem/OrcRemoteServerTCP/src/OrcRemoteServerClient.cpp:148-163 | Forgets the source, or answers that it is unknown |
| `RemoteServer.OrcRemoteServerClient.OnRecvCmdLength` | research/OrcInMem/OrcRemoteServerTCP/src/OrcRemoteServerClient.cpp:165-181 | Answers the length of the source, or that it is unknown |
| `RemoteCommands.ResponseFitsIff` | research/OrcInMem/MemStream/src/MemStreamPacket.cpp:163-165 | The text of a response's data fits the buffer reserved for it unless the number of bytes is one more than a multiple of three; then it is one character too long |
| `RemoteCommands.OneByteDoesNotFit` | research/OrcInMem/MemStream/src/MemStreamPacket.cpp:163-165 | The smallest case: one byte becomes four characters, for which three are reserved |
| `RemoteCommands.StoreIsHistory` | research/OrcInMem/MemStream/inc/MemStreamPacketStore.h:26-57 | After any history a source holds the payloads written to it since it was last deleted, and is known exactly when there was such a write |
| `RemoteCommands.AnswersFollowHistory` | research/OrcInMem/OrcRemoteServerTCP/src/OrcRemoteServerClient.cpp:100-181 | The whole response to any command after any history: READ answers the cut of the bytes written since the last deletion and their number, LENGTH how many there are, WRITE and DELETE neither; all but WRITE are refused exactly when there was no write since; each with its message and the command's id, source and reference |
| `RemoteCommands.WrittenIsRead` | research/OrcInMem/OrcRemoteServerTCP/src/OrcRemoteServerClient.cpp:100-146 | On any store: a WRITE of encoded bytes, and a READ of as many at the old length, are answered with success and just those bytes and their number; the source holds them behind what it held, and no other source changes |
| `RemoteCommands.AfterWrite` | research/OrcInMem/OrcRemoteServerTCP/src/OrcRemoteServerClient.cpp:108-115 | A WRITE of any text appends what the text decodes to and is answered with success, whatever the decoder's verdict |
| `RemoteCommands.StoreIsWhatWasSent` | research/OrcInMem/OrcRemoteServerTCP/src/OrcRemoteServerClient.cpp:100-163 | After any history whose WRITEs carry encoded bytes a source holds exactly those bytes, sent to it since it was last deleted, in order, and is known exactly when there was such a WRITE |
| `RemoteCommands.OneResponseEach` | research/OrcInMem/OrcRemoteServerTCP/src/OrcRemoteServerClient.cpp:83-96 | Each dispatched command gets exactly one response, in order, with its own reference |
| `RemoteCommands.ReplayConcatenates` | research/OrcInMem/OrcRemoteServerTCP/src/OrcRemoteServerClient.cpp:83-96 | Cutting a run of commands into packets makes no difference |
| `Base36.BigOut` | doc/dev/skeleton_ext_orc15/src/ext_orc15_big.cpp:40-74 | Every number strictly between the limits is printed, within 15 characters; the limits are refused |
| `Base36.Out` | doc/dev/skeleton_ext_orc15/src/ext_orc15.cpp:37-63 | Every int32 but INT_MIN is printed, within 8 characters |
| `Base36.WriteDigits` | doc/dev/skeleton_ext_orc15/src/ext_orc15_big.cpp:66-68 | The do-while loop writes the number backwards and stays inside the buffer |
| `Base36.DigitCount` | doc/dev/skeleton_ext_orc15/src/ext_orc15_big.cpp:62-62 | k digits are enough exactly below 36^k |
| `Base36.PrintedIff` | doc/dev/skeleton_ext_orc15/src/ext_orc15_big.cpp:40-74 | A number has exactly one printed text: a minus sign if it is negative, and lower-case digits that denote it with no zero in front |
| `Base36.PrintedCharacters` | doc/dev/skeleton_ext_orc15/src/ext_orc15.cpp:17-17 | Nothing but 0 to 9 and a to z is printed, and a minus sign in first place for a negative number |
| `Base36.DigitValues` | doc/dev/skeleton_ext_orc15/src/ext_orc15.cpp:17-17 | The digit printed for a value is the lower-case one, and just that and its upper-case form are read as it |
| `Base36.PrintedFits` | doc/dev/skeleton_ext_orc15/src/ext_orc15_big.cpp:62-62 | 15 and 8 characters are enough for every number printed, and the smallest numbers need all of them |
| `Base36.BigInReadsNumerals` | doc/dev/skeleton_ext_orc15/src/ext_orc15_big.cpp:22-37 | A text is read as n if and only if it is spaces, sign and digits that denote n, and n is strictly between the limits |
| `Base36.InReadsNumerals` | doc/dev/skeleton_ext_orc15/src/ext_orc15.cpp:20-34 | The same for int32, limits included |
| `Base36.BigInRefusesIff` | doc/dev/skeleton_ext_orc15/src/ext_orc15_big.cpp:30-34 | Out of range is said of exactly the texts whose leading spaces, sign and digits denote a number not strictly between the 64-bit limits, whatever follows; a syntax error exactly of the others that are no numeral |
| `Base36.InRefusesIff` | doc/dev/skeleton_ext_orc15/src/ext_orc15.cpp:27-31 | The same for int32, where the limits are in range |
| `Base36.SpacesAndPlusAreRead` | doc/dev/skeleton_ext_orc15/src/ext_orc15_big.cpp:28-28 | White space in front of a printed number and a plus sign are read over, for all numbers strictly between the limits and no others |
| `Base36.StrtolOfNumeral` | doc/dev/skeleton_ext_orc15/src/ext_orc15_big.cpp:28-28 | What section 7.22.1.4 of ISO/IEC 9899:2011 gives for any text that starts with a numeral, in range or not: its clamped number, and what is behind its digits left over |
| `Base36.BigRoundTrip` | doc/dev/skeleton_ext_orc15/src/ext_orc15_big.cpp:22-74 | What is printed reads back as the number exactly for the numbers strictly between the limits |
| `Base36.RoundTrip` | doc/dev/skeleton_ext_orc15/src/ext_orc15.cpp:20-63 | What is printed reads back as the number exactly for int32 |

## Left out

- Receivers.SocketClientPacket.OnRecv: stated from the reset state; a candidate pending at the end of one call is continued by the next in a new packet object whose first bytes nobody has written. What the check then says of the packet is `Frames.MissingFrontDecides`; the run itself is not modelled. Streams are shorter than 2^31 bytes: the source passes the offset on as an `int`, and reads nothing from there on.
- StreamPackets.StreamPacket.PayloadPart: an offset so far behind the payload that the copy would leave the packet array is excluded, as C++ gives it no meaning.
- Base36.Out: INT_MIN is excluded; its negation overflows, to which C++ gives no meaning.
- Base64Streams.DecodeBase64: the two streams must not share memory, and neither may those of `EncodeBase64`; a stream coded into itself is not modelled. The forms that write to a character buffer instead of a stream run the same loops.
- RemoteServer.OrcRemoteServerClient.OnRecvPacket: the commands come parsed, with number fields as non-negative numbers; building and reading JSON, time stamps, senders and reference generation are not part of this model, and a response is assumed to fit a packet.
- MemStreams.MemStream.Read: the floating-point division that finds the first block is an integer division; for a block size of 2^18 and offsets below 2^53 they agree. Null buffers are not modelled.
- Base64Parallel.EncodeParallel: a thread is interrupted between bytes of its source, not between the two characters a third byte gives; reading of the shared source is by value.
- Base64ParallelDecode.DecodeParallel: the threads run in any order, but each decodes its part in one go; the length it leaves in place on failure is 0 here.
- StreamPackets.StreamPacket.CollectPayload: on an invalid packet the part size is one that divides 2^32, as the 512 of the source does; the offset of other sizes wraps to other places.
- Base64Codec.Base64State.StreamDecode: an open state that stands between groups is taken to carry nothing, as every state does that the calls leave behind.
- Base64Codec.DecodeFourAtATime: the three bytes are written one by one; built for fast unaligned access, each round also writes a zero behind them.
- The vector codecs and the tables' literals: the plain codec stands for whichever is chosen, and the 32-bit tables are those the generator prints.
- Big-endian branches, pointer alignment and prefetch instructions: words are loaded little-endian at any address. The look-up tables of 256 entries are their recurrence, not their literals; the table of 16 entries is taken literally.
- Sockets, event loops, queues and threads of the servers: the receiver is given a byte sequence, and its callbacks are recorded.
- `Buffer::Resize`, which is never asked for, moves, copies, memory pools, and use of a stream after `close`.
- Dumps, loggers, error texts, the PostgreSQL entry points and error macros, and the ORC column writers.
