# Verified model of the submarine monitoring system (PC side)

A Dafny 4.11 model of the shared wire protocol, the gateway `lnc_bridge`, the central computer's storage
and links, the Ground Station's queries and the fleet program, with proofs of what they promise. Run
`dafny verify dfyconfig.toml` in this directory.

## What is modelled

| Files | Part of the system |
|---|---|
| Bytes, Bits, Crc, CrcTheory | big-endian integers, CRC-16/CCITT-FALSE and its error detection |
| Frame | byte stuffing, frame encoder and decoder |
| Wrappers, Reassembly | Option; a bounded receive buffer polled once per turn, for any rule that cuts segments off its front |
| Bridge, Gateway, LineFaults | the TCP server and the poll loop of `lnc_bridge`, both directions; what damaged and oversized frames do to it |
| Tlv, Records | the TLV codec with its 16-bit arithmetic; measurement and event records |
| GroundLink, GroundStation | the central computer answering the Ground Station |
| TextLines, Dates, Retention, DataCollection, Concurrency | stored lines, dated files with rotation, queries, the two threads and their mutex |
| Fleet | the participation graph of the fleet program, as functions and as objects |
| Telemetry | the receive loop that stores keep-alives and event reports while waiting for a reply |
| EndToEnd | serial line to storage, storage to Ground Station, and the whole chain |

Code that works step by step is a method, with arrays or object fields where the source has buffers,
globals or members, and is proved equal to a specification function. The promises are lemmas about those
functions.

Conventions:

- A `uint16_t` of the CRC is its sixteen bits, most significant first. All other integers are
  mathematical with their width as a type, and the wrap-arounds of the source are written as `%`.
- Sockets, the serial port, the clock and the prompts are parameters: the bytes that arrive, whether a
  `send()` succeeds, today's date, the text entered.
- A run is a sequence of chunks or operations, and the theorems are about all of them.

Where code and documentation disagree the model follows the code:

- `data_collection.h` says that the oldest file goes on the first write of a new day. The code rotates
  before it writes, so an eighth file appears and goes with the next write (SevenFilesIff).
- `protocol.h` promises MALFORMED for buffers that are no field sequence. `(uint16_t)(3u + valueLen)` wraps
  for lengths above 65532; then other verdicts, or no end of the search, are possible. FindMeansIff and
  FindTerminatesIff say exactly when.
- The 256-byte receive buffer of the gateway must hold the noise and the stuffed frame together, so it
  cannot take every 256-byte payload the downlink sends (UplinkDeliversIff, WhichFramesFit).
- A damaged frame can take the next one with it: where a START is left over, the decoder takes it for the
  beginning of a frame and reads on over the next START (FrameBehindDamageIff, OneBitLosesTheNextFrame).
- `main.cpp` says that after a frame that is too large it resynchronises on the next START. The rest of that
  frame has first to fit the buffer together with the next one (ResynchronisesIff, NoiseWedges).
- `bridge_server.cpp` takes messages of up to 508 bytes. A longer one fills its buffer, and from then on
  `recv()` is not called and a close by the core is not noticed (TcpDeliversIff, WedgeLasts).

## Model

| member | source | states |
|---|---|---|
| Bytes.U16RoundTrip | common/protocol.c:4-24 | PutU16 and GetU16 are inverse to each other in both directions, big-endian. |
| Bytes.U32RoundTrip | common/protocol.c:11-31 | GetU32 reads back what PutU32 wrote, whatever follows it. |
| Bytes.IsBigEndian | common/protocol.c:4-31 | What is written and read, in 16 and in 32 bits, are the bytes of the number with the most significant first. |
| Crc.Crc16Update | common/protocol.c:109-125 | The double loop computes the register function `Update` for every message and start value. |
| Crc.ReduceByte | common/protocol.c:116-122 | The inner loop is eight shift-and-reduce steps. |
| Crc.Crc16 | common/protocol.c:127-130 | The checksum of a buffer is `Update` started from the preset, as a number. |
| Crc.Constants | common/protocol.c:118-129 | Preset and generator, as numbers, are 0xFFFF and 0x1021. |
| Crc.UpdateConcat | common/protocol.c:186-188 | Two chained calls equal one call on the concatenation, which Frame_Encode and Frame_Decode rely on. |
| Crc.UpdateIsBitSerial | common/protocol.c:114-123 | XORing in a byte and shifting eight times equals feeding its eight bits one at a time, for every message. |
| Polynomials.RemainderIsUnique | common/protocol.c:117-121 | Over the two-element field, division by x^16+x^12+x^5+1 leaves one remainder of degree below 16. |
| CrcTheory.CrcIsPolynomialRemainder | common/protocol.c:109-125 | The check of any message is the remainder of the message polynomial, preset included, and no other register value is. |
| CrcTheory.ResidueIsZero | common/protocol.c:254-261 | A received check is right if and only if the check over length, payload and check is zero. |
| CrcTheory.ErrorIsCaughtIff | common/protocol.c:257-263 | Whether an error goes unnoticed depends on the error pattern alone: exactly when the pattern, fed to a zero register, leaves zero. |
| CrcTheory.BurstIsRejected | common/protocol.c:254-263 | With the length fixed, any nonzero change within 16 consecutive bits of payload and check is rejected. |
| CrcTheory.AdjacentBytesAreProtected | common/protocol.c:254-263 | Any change to one byte, or to two adjacent bytes, of payload and check is rejected. |
| CrcTheory.CheckKeepsParity | common/protocol.c:114-123 | The parity of the register is that of its start value and the message bits. |
| CrcTheory.OddErrorIsRejected | common/protocol.c:254-263 | With the length fixed, any odd number of flipped bits is rejected. |
| CrcTheory.LongerReadingIsRejected | common/protocol.c:254-263 | An intact frame whose payload length is 0 or 1 modulo 4 and at most 253, read as two bytes longer, up to a START and a zero byte, never has a matching check. |
| Frame.XorEscapeIsXor | common/protocol.c:141-168 | The escape arithmetic is exclusive-or with 0x20 and its own inverse. |
| Frame.StuffWriteByte | common/protocol.c:134-149 | Writes the stuffed byte if and only if it fits, appending exactly it and touching nothing beyond the capacity, wherever the 16-bit guard does not wrap around. |
| Frame.GuardIsExactIff | common/protocol.c:137-143 | The 16-bit capacity guard is exact for every index and byte if and only if the capacity is at most 65533. |
| Frame.GuardsHoldWhen | common/protocol.c:137-143 | No guard wraps around while a frame is written if the capacity is at most 65533 or the frame fits it. |
| Frame.EncodesSafelyIff | common/protocol.c:176-207 | No guard wraps around while any frame is written if and only if the capacity is at most 65533; otherwise 65531 zeros and a START are a payload that runs past the end. |
| Frame.FrameEncode | common/protocol.c:176-207 | For every capacity, unless a guard wraps around on the way: writes exactly the frame of the payload, or reports a too small buffer, the latter exactly when the frame does not fit. |
| Frame.DestuffReadByte | common/protocol.c:154-174 | Reads one de-stuffed byte, or reports that it has not arrived. |
| Frame.FrameDecode | common/protocol.c:209-265 | Verdict, payload and consumed count are those of the specification `Decode`, on every input. |
| Frame.FrameRoundTrip | common/protocol.c:176-265 | A frame decodes to its payload after any noise without START and before any bytes, consuming noise and frame. |
| Frame.FrameInNumerals | common/protocol.c:134-207 | A frame byte for byte: 0x7E, then big-endian length, payload and CRC of both, in which 0x7E stands as 7D 5E, 0x7D as 7D 5D and every other byte for itself. |
| Frame.DecodeRawFrame | common/protocol.c:254-264 | A frame with any two check bytes decodes to its payload if they match and is reported malformed otherwise, with the same consumed count. |
| Frame.StartOnlyInFront | common/protocol.c:193-203 | 0x7E occurs in an encoded frame at index 0 and nowhere else. |
| Frame.SelfSynchronising | common/protocol.c:222-228 | Decoding from anywhere inside a frame skips its rest and yields the next frame whole. |
| Frame.StretchedSwallowsStart | common/protocol.c:209-265 | For a payload below 120 bytes whose length is 0 or 1 modulo 4, and a next payload below 256: with the bit of value two in the length wrong, the decoder takes the START of the next frame for a check byte and rejects the frame two bytes too late. |
| Frame.VerdictOfPrefix | common/protocol.c:209-265 | A prefix gets the verdict of the whole input or INCOMPLETE, and gets it exactly from the consumed count on. |
| Frame.VerdictIsFinal | common/protocol.h:305-310 | A verdict other than INCOMPLETE is unchanged by any further bytes. |
| Frame.FirstVerdict | common/protocol.c:222-265 | Fed byte by byte, the decoder gives the one-shot verdict exactly with the last byte it consumes. |
| Frame.EncodedSize | common/protocol.c:176-207 | A frame has n + 5 bytes plus one per escaped byte, so at most 2n + 9. |
| Reassembly.NothingLostOrInvented | pc_side/lnc_bridge/main.cpp:78-103 | For any rule that recognises segments by their own bytes and any chunking: messages out and bytes buffered are together exactly what has arrived. |
| Reassembly.EverythingIsDelivered | pc_side/lnc_bridge/main.cpp:75-103 | Once the stream is in, as many idle polls as there are segments deliver every message and empty the buffer. |
| Reassembly.EveryRunDelivers | pc_side/lnc_bridge/main.cpp:72-103 | With no segment larger than the buffer every run whose polls read something often enough delivers every message and ends with an empty buffer. |
| Reassembly.RunCuts | pc_side/lnc_bridge/main.cpp:78-103 | For any rule that does not change its mind, on any bytes and under any chunking: until a poll resets, what has come out, with what is still to be cut off the buffer and the bytes ahead, is what is cut off the whole; a reset comes only where that cut ends in one, and after everything in front of it has come out. |
| Reassembly.EveryRunCuts | pc_side/lnc_bridge/main.cpp:72-103 | On any bytes of which each piece to be cut off fits the buffer, every run whose polls read something often enough ends with exactly the cut of the whole. |
| Reassembly.OversizedSegmentStays | pc_side/lnc_bridge/main.cpp:79-102 | No run with reads bounded by the buffer ever gets past a segment larger than the buffer. |
| Reassembly.FullBufferWaitsForever | pc_side/lnc_bridge/main.cpp:79-102 | A full buffer at which the rule waits stays as it is in every continuation: nothing is read, nothing comes out. |
| Reassembly.DeliverableIff | pc_side/lnc_bridge/main.cpp:72-103 | A stream can be delivered through a bounded buffer if and only if no segment exceeds it. |
| BridgeServers.BridgeServer.Accept | pc_side/lnc_bridge/bridge_server.cpp:86-108 | Connected afterwards exactly if it was or, while listening, somebody waited; a new connection starts with an empty buffer, an old one is untouched. |
| BridgeServers.BridgeServer.Send | pc_side/lnc_bridge/bridge_server.cpp:110-127 | Sends the prefix and the data while connected; a failing send() disconnects. |
| BridgeServers.BridgeServer.TopUp | pc_side/lnc_bridge/bridge_server.cpp:135-149 | Received bytes are written behind those buffered if there is room; an orderly shutdown empties the buffer and disconnects. |
| BridgeServers.BridgeServer.CutMessage | pc_side/lnc_bridge/bridge_server.cpp:151-176 | Hands out and removes one length-prefixed message, with the 32-bit wrap-around of 4 + payloadLen and all that is then in the buffer, as `TakeOut` says; PollGivesMessage says what that means for a message. |
| BridgeServers.BridgeServer.TryRecv | pc_side/lnc_bridge/bridge_server.cpp:129-177 | Result and new buffer, the bytes left over behind its end included, are those of `PollInbox`, in each connection state and for every prefix; stuck behind an oversized message nothing changes, not even when the peer closes. PollInNumbers, PollGivesMessage and PollKeepsPart say what `PollInbox` gives. |
| BridgeServers.PollInNumbers | pc_side/lnc_bridge/bridge_server.cpp:135-176 | For every prefix, a wrapping one included: nothing without 4 + payloadLen (in 32 bits) bytes; otherwise the payload or its first maxLen bytes come out, and exactly those 4 + payloadLen bytes go. |
| BridgeServers.PollGivesMessage | pc_side/lnc_bridge/bridge_server.cpp:129-177 | The poll that completes a message of at most 508 bytes gives its first maxLen bytes if it is longer than that, otherwise all of it, and nothing exactly if it is empty; the bytes behind the message stay. |
| BridgeServers.PollKeepsPart | pc_side/lnc_bridge/bridge_server.cpp:151-161 | As long as a byte of the message is missing nothing comes out and every byte stays. |
| BridgeServers.PollInboxIsPoll | pc_side/lnc_bridge/bridge_server.cpp:129-177 | For every prefix that does not wrap around `PollInbox` is one poll of the rule `Parse`, whatever was left over in the buffer. |
| BridgeServers.SessionIsRun | pc_side/lnc_bridge/bridge_server.cpp:129-177 | So is a whole connection on which no prefix wraps around, poll by poll. |
| BridgeServers.BridgeServer.Close | pc_side/lnc_bridge/bridge_server.cpp:184-195 | Drops the client, stops listening and empties the buffer. |
| BridgeServers.TcpRefinesQueue | pc_side/lnc_bridge/bridge_server.cpp:129-177 | Under any chunking the nonzero results are the nonempty messages in order, those longer than maxLen as their first maxLen bytes and all others whole (`CutAll`), and the buffer is what has arrived beyond them. |
| BridgeServers.MessagesAreUnwrapped | pc_side/lnc_bridge/bridge_server.cpp:158 | However a stream of messages arrives, no poll sees a prefix for which 4 + payloadLen wraps around. |
| BridgeServers.TcpDeliversIff | pc_side/lnc_bridge/bridge_server.cpp:31-176 | Every message gets through if and only if each has at most 508 bytes. |
| BridgeServers.OversizedMessageWedges | pc_side/lnc_bridge/bridge_server.cpp:135-161 | With 512 bytes of a longer message buffered no later read takes a byte and no later poll gives a message. |
| Gateways.Gateway.Uplink | pc_side/lnc_bridge/main.cpp:78-103 | One uplink turn is one poll of the decoder on old buffer plus chunk: payload forwarded, rest kept. |
| Gateways.Gateway.Downlink | pc_side/lnc_bridge/main.cpp:105-114 | One downlink turn sends exactly the frame of what TryRecv hands out, stale bytes after a wrapping prefix included; the 600-byte buffer always suffices. |
| Gateways.Gateway.PollOnce | pc_side/lnc_bridge/main.cpp:75-117 | One turn of the loop makes the transition `Turned`: accept, uplink, downlink, with the new state of all buffers, connection and outputs in every connection case, a wrapping prefix included. |
| Gateways.Gateway.RunTurns | pc_side/lnc_bridge/main.cpp:75-117 | Any number of turns over any number of connections: what has been read is a prefix of what the serial line and each connection of the core held; what has been forwarded and buffered is what `Run` makes of it; what has been sent to the serial line, and what the TCP buffer holds, is what `ReadSessions` makes of all connections, wrapping prefixes included; and a connected core has been sent the payloads forwarded since it connected. |
| Gateways.AnyLineIsCut | pc_side/lnc_bridge/main.cpp:72-103 | Whatever bytes the serial line brings, at every moment of every run the payloads forwarded, with those still to be cut off what is buffered and to come, are those cut off the whole line, until a frame that is too large resets the buffer; that frame ends the cut, and everything in front of it has been forwarded first and in order. |
| Gateways.AnyLineProgresses | pc_side/lnc_bridge/main.cpp:72-103 | If nothing to be cut off the line, its rest included, exceeds 256 bytes, every run forwards all of it once it has had enough turns with something to read. |
| Gateways.BurstsAreCut | pc_side/lnc_bridge/main.cpp:82-102 | On frames and START-free noise the cut is exactly the payloads of the frames whose check is right. |
| Gateways.BurstIsRecognised | pc_side/lnc_bridge/main.cpp:82-102 | Noise and frame, check right or wrong, are consumed together by their own bytes alone and not before the last one. |
| Gateways.UplinkIsExact | pc_side/lnc_bridge/main.cpp:72-103 | On frames, their checks right or wrong, and noise: at every moment of every run the forwarded payloads are those of the frames with a right check among the first k, in order, and the buffer holds what arrived after them. |
| Gateways.UplinkForwardsAll | pc_side/lnc_bridge/main.cpp:72-103 | With the whole stream in, further polls forward the payloads of all frames whose check is right and stay in sync across frames whose check is wrong. |
| Gateways.UplinkProgresses | pc_side/lnc_bridge/main.cpp:72-103 | With no burst above 256 bytes every run of the loop ends with all intact payloads forwarded and nothing left, once it has had as many turns with something to read as there are bytes and bursts. |
| Gateways.UplinkDeliversIff | pc_side/lnc_bridge/main.cpp:72-103 | The loop can get every burst through if and only if none exceeds 256 bytes, its noise included. |
| Gateways.UplinkNeverStalls | pc_side/lnc_bridge/main.cpp:79-102 | With no burst above 256 bytes a full buffer always frees space at the next poll. |
| Gateways.WhichFramesFit | pc_side/lnc_bridge/main.cpp:72 | Payloads up to 123 bytes always fit the receive buffer, payloads above 251 bytes never do. |
| Gateways.FramesDecode | common/protocol.c:176-265 | The frames of any list of payloads, concatenated, decode to exactly that list. |
| Gateways.DownlinkIsExact | pc_side/lnc_bridge/main.cpp:105-114 | Under any TCP chunking the frames of what comes out decode to exactly the nonempty arrived messages, in order, those longer than 256 bytes as their first 256 bytes and all others whole. |
| Gateways.DownlinkOverRuns | pc_side/lnc_bridge/main.cpp:75-114 | At every moment of every run, over any number of connections whose prefixes do not wrap around, the bytes given to the serial line decode to exactly the nonempty messages the core has got across, in order, those above 256 bytes as their first 256; a connected core has been sent exactly the payloads forwarded since it connected. |
| Gateways.LastingRunDelivers | pc_side/lnc_bridge/main.cpp:75-114 | A lasting connection with enough turns, nothing on the line above 256 and no message above 508 bytes ends with everything through in both directions, messages above 256 bytes as their first 256. |
| Gateways.RelayAll | pc_side/lnc_bridge/main.cpp:75-114 | The same as a method: the loop run from its start sends the core exactly what is cut off the line and the serial line bytes that decode to exactly the core's messages. |
| Gateways.WedgeLasts | pc_side/lnc_bridge/main.cpp:75-114 | Once 512 bytes of a longer message are buffered, as long as sends succeed the core stays connected, nothing more of it goes through, no close is noticed and nobody else is accepted. |
| Gateways.FailedSendUnwedges | pc_side/lnc_bridge/bridge_server.cpp:110-127 | The stuck connection ends in a turn if and only if a send to it fails in that turn, and whoever is accepted next starts with an empty buffer. |
| LineFaults.FrameBehindDamageIff | common/protocol.c:222-265 | After any bytes whatever, headers of oversized frames included, the frame right behind them is read as a frame if and only if no START is left over when they have been decoded as far as possible; then it comes through and the rest is read as if it came first. |
| LineFaults.OneBitLosesTheNextFrame | pc_side/lnc_bridge/main.cpp:82-102 | For a payload below 120 bytes whose length is 0 or 1 modulo 4, and a next payload below 256: with the bit of value two in the first frame's length wrong, neither that frame nor the intact one behind it is forwarded; undamaged both are. |
| LineFaults.OversizedFrameResets | pc_side/lnc_bridge/main.cpp:98-100 | A frame declaring more than 256 bytes empties the buffer as soon as its length is in, and not before. |
| LineFaults.ResynchronisesIff | pc_side/lnc_bridge/main.cpp:98-102 | After a reset inside an oversized frame the loop can resynchronise and lose nothing further if and only if the rest of that frame fits the buffer together with the next burst, and each later burst fits it. |
| LineFaults.ResumesAnywhere | pc_side/lnc_bridge/main.cpp:98-102 | Whatever part of the stream a reset drops, exactly the bursts are lost whose START it has dropped, and the rest is again a stream of bursts after noise. |
| LineFaults.NoiseWedges | pc_side/lnc_bridge/main.cpp:79-102 | 256 bytes without START leave the loop waiting for ever with a full buffer. |
| LineFaults.MixedRun | pc_side/lnc_bridge/main.cpp:79-102 | On a line with fitting and oversized frames, at every moment of every run exactly those payloads among the first k frames have come out whose check is right and whose START no reset has dropped. |
| LineFaults.MixedLine | pc_side/lnc_bridge/main.cpp:72-103 | The same of the loop's state. |
| LineFaults.MixedLineEndsIff | pc_side/lnc_bridge/main.cpp:72-103 | Every run gets to the end of a line with oversized frames among others if and only if, however much each reset drops, the buffer holds what it takes to get past the next frame; otherwise some run is stuck for ever with a full buffer. |
| LineFaults.MixedLineProgresses | pc_side/lnc_bridge/main.cpp:72-103 | Then the loop, once it has had as many turns with something to read as there are bytes and frames, has read the whole line and forwarded exactly the intact payloads whose START no reset dropped. |
| Tlv.DecodeIsExactIff | common/protocol.c:53-74 | DecodeTLV accepts exactly the buffers holding a whole TLV if and only if the declared length is at most 65532. |
| Tlv.EncodeTlv | common/protocol.c:33-51 | For every value length: the capacity check compares the 16-bit total; if it passes, the whole TLV is written, also where that total has wrapped around, and nothing else changes; if not, nothing changes. |
| Tlv.EncodeOverrunsIff | common/protocol.c:36-46 | The check lets a TLV pass that does not fit, for some capacity, if and only if the value has more than 65532 bytes. |
| Tlv.FindField | common/protocol.c:76-105 | Where it ends the loop returns the result of the specification `Find`. |
| Tlv.FindFieldFor | common/protocol.c:76-105 | On every buffer, the state of the search loop after any number of turns. |
| Tlv.FindTerminatesIff | common/protocol.c:81-102 | The loop ends if and only if it meets no header that declares 65533 bytes under another tag. |
| Tlv.FindFirst | common/protocol.c:76-105 | On any sequence of sibling fields the search gives the value of the first field with the tag, or NOT_FOUND exactly if there is none. |
| Tlv.FindMeans | common/protocol.h:238-254 | Without wrap-around each verdict has its documented meaning, for arbitrary bytes. |
| Tlv.NoWrapStaysInside | common/protocol.c:76-105 | Without wrap-around the search ends and what it finds lies inside the buffer. |
| Tlv.FindMeansIff | common/protocol.h:238-254 | The documented meaning holds if and only if no visited length wraps around or the search visits an offset at which fewer bytes are left than the header or the 16-bit total asks for. |
| Tlv.WrapHidesMalformation | common/protocol.c:65-72 | A five-byte buffer that is no field sequence and yet gives NOT_FOUND. |
| Records.MeasurementRoundTrip | pc_side/ground_station/gs_queries.cpp:67-82 | Every measurement survives encoding and field extraction, negative temperatures included. |
| Records.FirstIsRead | pc_side/ground_station/gs_queries.cpp:74-79 | Of sibling fields the first with the tag is read, by its leading bytes. |
| Records.EventRoundTrip | pc_side/ground_station/gs_queries.cpp:215-245 | Every event, with or without measurement, survives encoding and field extraction. |
| Records.MeasurementSize | pc_side/central_computer/comm_gs.cpp:89-124 | A measurement's fields take 30 bytes, within the fixed buffers. |
| Records.EventSize | pc_side/central_computer/comm_gs.cpp:130-185 | An event's fields take 15 or 48 bytes, within the fixed buffers. |
| Records.MeasurementInNumerals | pc_side/central_computer/comm_gs.cpp:89-124 | The 33 bytes of a measurement record: every tag as a number, every length, the fields in their order. |
| Records.EventInNumerals | pc_side/central_computer/comm_gs.cpp:130-185 | The same for an event record, with or without its measurement. |
| GroundLink.AppendMeasurementRecord | pc_side/central_computer/comm_gs.cpp:89-124 | Appends exactly the MEASUREMENT_RECORD TLV of the measurement. |
| GroundLink.AppendEventRecord | pc_side/central_computer/comm_gs.cpp:130-185 | Appends exactly the EVENT_RECORD TLV of the event. |
| GroundLink.ParseRange | pc_side/central_computer/comm_gs.cpp:191-207 | Extracts identifier and range, or fails; RequestIsParsed says from which fields. |
| GroundLink.RequestRoundTrip | pc_side/central_computer/comm_gs.cpp:191-207 | The server parses every request whose size fits 16 bits back to its identifier and range. |
| GroundLink.RequestIsParsed | pc_side/central_computer/comm_gs.cpp:191-207 | From any fields in any order the server takes the first identifier and the leading four bytes of the first start and end, and fails if and only if one of the three is missing or a range field is shorter than four bytes. |
| GroundLink.RequestInNumerals | pc_side/ground_station/gs_queries.cpp:95-111 | The bytes of a request for measurements or events: prefix, tag and length, then the three fields in order. |
| GroundLink.OwnDirectoryIsRead | pc_side/central_computer/comm_gs.cpp:198-263 | For every identifier string, a request carrying its bytes is answered from the directory of that very string, measurements and events; only those bytes read that directory. |
| GroundLink.StatusInNumerals | pc_side/central_computer/comm_gs.cpp:230-242 | A response starts with the status field, 0x03 if there are no records and 0x00 if there are. |
| GroundLink.RequestFitsIff | pc_side/ground_station/gs_queries.cpp:95-109 | The three fields fit the 80-byte buffer if and only if the identifier has at most 63 bytes; the first two up to 70, the first up to 77. |
| GroundLink.BuildRequest | pc_side/ground_station/gs_queries.cpp:95-111 | The bytes sent are the length-prefixed request TLV. |
| GroundLink.HandleGetLog | pc_side/central_computer/comm_gs.cpp:213-242 | The response is the status field and the admitted records of what the store answers for the range in the directory named by the identifier (OwnDirectoryIsRead), or the failure status exactly if the request lacks a field (RequestIsParsed). |
| GroundLink.HandleGetEvents | pc_side/central_computer/comm_gs.cpp:248-277 | The same for events. |
| GroundLink.AdmittedSize | pc_side/central_computer/comm_gs.cpp:28-277 | No response payload exceeds 60051 bytes, so the 16-bit length is exact. |
| GroundLink.LogIsCutAt1819 | pc_side/central_computer/comm_gs.cpp:236-239 | A log response carries min(n, 1819) records. |
| GroundLink.AdmittedIsCrossing | pc_side/central_computer/comm_gs.cpp:271-274 | Records are sent up to the one with which the payload first exceeds 60000 bytes. |
| GroundStation.WalkLog | pc_side/ground_station/gs_queries.cpp:142-154 | The walk loop reads the records of all fields with the record tag, in order, whatever bytes are left over at the end. |
| GroundStation.WalkEvents | pc_side/ground_station/gs_queries.cpp:207-250 | The same for events. |
| GroundStation.WalkedIsShown | pc_side/ground_station/gs_queries.cpp:140-154 | Walking over encoded fields visits every field once and in order. |
| GroundStation.WalkLogFor | pc_side/ground_station/gs_queries.cpp:140-154 | On every value, the state of the walk loop after any number of turns, up to a read beyond the value. |
| GroundStation.WalkEventsFor | pc_side/ground_station/gs_queries.cpp:205-250 | The same for events. |
| GroundStation.WalkNeverStopsIff | pc_side/ground_station/gs_queries.cpp:142-154 | On every value the walk goes on for ever if and only if it meets a field whose end wraps around past 65535 and comes to that field again. |
| GroundStation.WalkWithoutWrapStops | pc_side/ground_station/gs_queries.cpp:142-154 | A walk that meets no field whose end wraps around stops within as many turns as the value has bytes. |
| GroundStation.WalkGoesRound | pc_side/ground_station/gs_queries.cpp:142-154 | Three bytes on which it never stops: a field declaring 65533 bytes leads back to itself. |
| GroundStation.ReplyIsRead | pc_side/ground_station/gs_queries.cpp:113-156 | A response is read back as exactly the records put into it, or as no data. |
| GroundStation.FailureIsShown | pc_side/central_computer/comm_gs.cpp:218-226 | A request that lacks a field is answered, whatever is stored, with status 0x05, and the Ground Station shows that status. |
| GroundStation.ShownByStatus | pc_side/ground_station/gs_queries.cpp:129-138 | Status 0x03 is shown as no data, every other status but 0x00 as itself. |
| GroundStation.LogExchange | pc_side/central_computer/comm_gs.cpp:213-242 | For every range and every answer of the query the Ground Station gets exactly the first 1819 measurements, field for field. |
| GroundStation.EventsExchange | pc_side/central_computer/comm_gs.cpp:248-277 | The same for events, cut where the response is full. |
| GroundStation.AskForLog | pc_side/central_computer/comm_gs.cpp:213-242 | For every identifier of at most 63 characters: request, server and response run in a row on a store give the first 1819 of the measurements in the directory of that identifier and in the range. |
| GroundStation.AskForEvents | pc_side/central_computer/comm_gs.cpp:248-277 | The same for events, cut where the response is full. |
| TextLines.ScanPrintedLine | pc_side/central_computer/data_collection.cpp:86-106 | A printed comma-separated line scans back to the same values under any format with at least as many conversions. |
| TextLines.MeasurementLineRoundTrip | pc_side/central_computer/data_collection.cpp:86-156 | Parsing a stored measurement line returns the measurement. |
| TextLines.MeasurementIsWritten | pc_side/central_computer/data_collection.cpp:86-93 | The line of a measurement, value by value. |
| TextLines.EventIsWritten | pc_side/central_computer/data_collection.cpp:95-106 | The line of an event, with or without its measurement, value by value. |
| TextLines.DigitsAreRead | pc_side/central_computer/data_collection.cpp:86-106 | A number is written in decimal digits that read as that number, without leading zeros. |
| TextLines.EventLineRoundTrip | pc_side/central_computer/data_collection.cpp:95-190 | Parsing a stored event line returns the event; the 3-field and 8-field shapes are never confused. |
| Dates.NamesAreChronological | pc_side/central_computer/data_collection.cpp:42-56 | String order of file names is date order, and equal names mean equal dates. |
| Dates.DateIsWritten | pc_side/central_computer/data_collection.cpp:42-49 | The name of a date is four, two and two decimal digits with dashes between, which read as its year, month and day. |
| Retention.OrderedDatesAreChronological | pc_side/central_computer/data_collection.cpp:42-56 | A clock that never runs backwards gives entries in chronological order. |
| Retention.RetentionOverRuns | pc_side/central_computer/data_collection.cpp:57-84 | After any chronological run the directory holds, by date, exactly the entries from a date boundary on; nothing goes before seven later dates exist; at most 8 files, at most 7 after a second write on a date. |
| Retention.SuffixIsReadBack | pc_side/central_computer/data_collection.cpp:112-134 | Reading everything back gives a date-aligned suffix of all lines ever appended, in order. |
| Retention.SevenFilesIff | pc_side/central_computer/data_collection.h:58-59 | The seven-file limit holds after a write if and only if the directory held fewer or had a file of that date. |
| Retention.EightFilesHappen | pc_side/central_computer/data_collection.cpp:68-83 | Seven files and a write on an eighth date leave eight files. |
| DataCollections.DataCollection.RotateIfNeeded | pc_side/central_computer/data_collection.cpp:57-72 | Removes the oldest file exactly if there are more than seven. |
| DataCollections.DataCollection.AppendLine | pc_side/central_computer/data_collection.cpp:74-84 | Rotates, then appends the line to the file of the day, in that directory only. |
| DataCollections.DataCollection.StoreMeasurement | pc_side/central_computer/data_collection.cpp:86-93 | Appends the measurement's line to the submarine's measurement directory and changes no other. |
| DataCollections.DataCollection.StoreEvent | pc_side/central_computer/data_collection.cpp:95-106 | Appends the event's line to the submarine's event directory and changes no other. |
| DataCollections.DataCollection.ReadAllLines | pc_side/central_computer/data_collection.cpp:112-134 | Every line of every file, oldest file first. |
| DataCollections.DataCollection.QueryMeasurements | pc_side/central_computer/data_collection.cpp:136-158 | The parsed lines with a timestamp in the inclusive range, in file order. |
| DataCollections.DataCollection.QueryEvents | pc_side/central_computer/data_collection.cpp:160-192 | The same for events. |
| DataCollections.MeasurementQueryIsFilter | pc_side/central_computer/data_collection.cpp:86-158 | Over every chronological run of stores a query is the range filter of the retained suffix of everything stored. |
| DataCollections.EventQueryIsFilter | pc_side/central_computer/data_collection.cpp:95-192 | The same for events. |
| DataCollections.MeasurementIsInIff | pc_side/central_computer/data_collection.cpp:148 | A measurement is in the filtered list if and only if it has been stored and start <= timestamp and timestamp <= end. |
| DataCollections.EventIsInIff | pc_side/central_computer/data_collection.cpp:174 | The same for events. |
| Concurrency.RunsAreDisciplined | pc_side/central_computer/data_collection.cpp:19-134 | In every interleaving, with stores to any directories, the mutex excludes, every directory is that of the completed appends outside AppendLine's critical section, and what a query has read goes back to one moment. The completed appends are read off the moments at which AppendLine takes and releases the mutex. |
| Concurrency.QueriesAreLinearisable | pc_side/central_computer/data_collection.cpp:74-192 | In every interleaving each query, for measurements or events, answers for its directory as it stood at one moment between call and return, with exactly the appends completed by then, all among them that had returned before the query was called. |
| Concurrency.StoreIsCompleted | pc_side/central_computer/data_collection.cpp:74-84 | Between taking the mutex for a line and releasing it, exactly that append is added to the completed ones. |
| Concurrency.StoreIsSeen | pc_side/central_computer/data_collection.cpp:74-192 | A query called after a store has returned answers for a history with that store in it. |
| Concurrency.NobodyIsStuck | pc_side/central_computer/data_collection.cpp:19-192 | In every state of every run each thread can go on unless the other holds the mutex. |
| Concurrency.MeasurementQueriesAreLinearisable | pc_side/central_computer/data_collection.cpp:86-158 | For measurements that answer is the range filter of what of them was retained at that moment. |
| Concurrency.EventQueriesAreLinearisable | pc_side/central_computer/data_collection.cpp:95-192 | The same for events. |
| FleetModel.EndMeans | pc_side/oop_fleet/fleet.cpp:87-108 | Ending a mission clears that submarine's list, strikes its serial from every other list and changes nothing else. |
| FleetModel.ConsistentOverRuns | pc_side/oop_fleet/fleet.cpp:14-160 | After every sequence of menu operations participation is mutual, irreflexive, duplicate-free and between assigned combat submarines of the fleet; everybody else has an empty list. |
| FleetModel.RunMeans | pc_side/oop_fleet/fleet.cpp:14-160 | After every sequence of menu operations it is exactly as the operations say, without the registry: who has been added and of which kind, who has been assigned and not ended its mission since, which two have been associated while both were combat submarines on a mission and neither has ended it since, and each mailbox is exactly the messages sent to it by a submarine associated at that moment, in order. |
| FleetModel.AssociatedIsMutual | pc_side/oop_fleet/fleet.cpp:110-135 | At every moment of every run two submarines are associated by the operations if and only if they are different combat submarines on a mission and list each other. |
| FleetModel.MailComesFromAssociates | pc_side/oop_fleet/fleet.cpp:137-160 | Every message in any mailbox was sent by an operation of the run while sender and receiver were mutually associated. |
| Fleets.Fleet.FindBySerial | pc_side/oop_fleet/fleet.cpp:208-214 | The submarine with that serial number, or null exactly if there is none. |
| Fleets.Fleet.AddSubmarine | pc_side/oop_fleet/fleet.cpp:14-33 | Adds at most one submarine, never with a serial number already taken. |
| Fleets.Fleet.AssignMission | pc_side/oop_fleet/fleet.cpp:57-70 | Marks an unassigned submarine as assigned and changes nothing else. |
| Fleets.Fleet.UnlinkOthers | pc_side/oop_fleet/fleet.cpp:99-105 | The loop strikes the serial number from every listed submarine while the list it runs over stays as it is. |
| Fleets.Fleet.EndMission | pc_side/oop_fleet/fleet.cpp:87-108 | On the objects: the effect of `End`, whose meaning is EndMeans. |
| Fleets.Fleet.AssociateCombatSubmarines | pc_side/oop_fleet/fleet.cpp:110-135 | Links two assigned combat submarines with each other, or does nothing. |
| Fleets.Fleet.SendMessage | pc_side/oop_fleet/fleet.cpp:137-160 | Delivers as `Send` says: behind the receiver's earlier mail, exactly if the sender lists the receiver; RunMeans says what that leaves in the mailboxes over every run. |
| Fleets.Fleet.Perform | pc_side/oop_fleet/main.cpp:64-72 | Each menu operation changes the objects as `Apply` says and keeps the participation graph consistent. |
| Fleets.RunMenu | pc_side/oop_fleet/main.cpp:64-72 | After every sequence of menu operations from the empty fleet every object, its kind, assignment, participants and mailbox, is as the operations say (RunMeans), and the registry is that of `After`. |
| Fleets.Submarine.AddParticipant | pc_side/oop_fleet/combat_submarine.cpp:113-119 | Adds another's serial number once and never one's own. |
| Fleets.Submarine.RemoveParticipant | pc_side/oop_fleet/combat_submarine.cpp:121-126 | Removes every occurrence; what is left keeps its order (WithoutKeepsOrder). |
| FleetModel.WithoutKeepsOrder | pc_side/oop_fleet/combat_submarine.cpp:121-126 | What is left of a list is what is left of its two parts, one behind the other. |
| Fleets.Submarine.HasParticipant | pc_side/oop_fleet/combat_submarine.cpp:128-132 | Membership in the list. |
| Fleets.Submarine.EndMission | pc_side/oop_fleet/combat_submarine.cpp:55-64 | Clears the participants of a combat submarine and the assignment flag. |
| Telemetry.PrintKeepAlive | pc_side/central_computer/log.cpp:12-61 | What is stored: nothing without a record; otherwise timestamp and mode of the message with the record's values. |
| Telemetry.PrintEventReport | pc_side/central_computer/log.cpp:63-122 | What is stored: the event, with the nested measurement if there is one. |
| Telemetry.KeepAliveIsStored | pc_side/central_computer/log.cpp:12-61 | A keep-alive is stored with the sender's values, in whatever order its fields come and whatever other fields it has. |
| Telemetry.KeepAliveWithoutRecord | pc_side/central_computer/log.cpp:32-37 | A keep-alive is stored if and only if it carries a measurement record. |
| Telemetry.EventIsStored | pc_side/central_computer/log.cpp:63-122 | An event report is stored with the sender's values, with or without measurement, in whatever order its fields come and whatever other fields it and its record have, the watchdog flag among them. |
| Telemetry.FieldsAreShaped | pc_side/central_computer/log.cpp:12-122 | Any sequence of fields long enough for their types is safe to read as a keep-alive or as an event report, by the fields the respective code reads. |
| Telemetry.LncLink.Recv | pc_side/central_computer/lnc_link_client.cpp:52-72 | One length-prefixed payload, or nothing on a short stream, an oversized or an empty message. |
| Telemetry.LncLink.RecvMessage | pc_side/central_computer/lnc_link_client.cpp:86-112 | The loop returns, stores and consumes what the specification `Receive` says, on every stream that is safe to read up to the first reply; FirstReplyItem and FailuresOfReceive say what that is. |
| Telemetry.LncLink.RecvAll | pc_side/central_computer/lnc_link_client.cpp:86-112 | Calls until one fails return and store what the specification `ReceiveAll` says; ServeItems says what that is for a connection that carries telemetry and replies. |
| Telemetry.FirstReplyIsReturned | pc_side/central_computer/lnc_link_client.cpp:86-112 | One call returns the first message that is not telemetry and stores what the dispatch makes of the telemetry before it, once and in order. |
| Telemetry.FirstReplyItem | pc_side/central_computer/lnc_link_client.cpp:86-112 | In terms of what was sent: one call returns the first message with a tag other than 0x11 and 0x12, and stores exactly the measurements of the keep-alives (0x11) and the events of the event reports (0x12) before it, in order. |
| Telemetry.ServeItems | pc_side/central_computer/lnc_link_client.cpp:86-112 | Over a whole connection of keep-alives, event reports and other messages, given by their fields in any order: exactly their measurements and events are stored and exactly the other messages returned, once and in order. |
| Telemetry.ItemsAreServed | pc_side/central_computer/log.cpp:12-122 | What the dispatch stores of such messages is what their senders put in; all of them are safe to read. |
| Telemetry.FailuresOfReceive | pc_side/central_computer/lnc_link_client.cpp:52-72 | A message longer than the buffer fails the call and only its prefix is consumed; a stream that ends within a prefix or message fails it and is used up. |
| Telemetry.ServedInFront | pc_side/central_computer/lnc_link_client.cpp:86-112 | Whatever follows on the connection: messages shaped as their senders shape them are safe to read, every reply among them is returned and every telemetry message stored before it, each exactly once and in order. |
| Telemetry.TelemetryIsConserved | pc_side/central_computer/lnc_link_client.cpp:86-112 | Over a whole connection the receive loop is safe to run, every reply is returned and every telemetry message stored, each exactly once and in order. |
| EndToEnd.FramesBringMessages | pc_side/lnc_bridge/main.cpp:72-103 | A line of frames and noise brings exactly the messages whose frames have a right check; the other frames may carry anything. |
| EndToEnd.CoreIsServed | pc_side/lnc_bridge/main.cpp:72-103 | Whatever is on the line, at every moment of every run and over any number of connections the core connected stores exactly the telemetry and gets exactly the replies among the messages cut off the line and forwarded since it connected, once and in order; other payloads follow them only where the cut ends with a frame that is too large. |
| EndToEnd.SerialLineToStorage | pc_side/lnc_bridge/main.cpp:72-103 | The gateway loop and the receive loop run in a row: of everything that can be cut off the line exactly the telemetry is stored and exactly the replies returned, while the core's messages reach the serial line, those above 256 bytes as their first 256. |
| EndToEnd.StorageToGroundStation | pc_side/central_computer/comm_gs.cpp:213-242 | From storing to display: the Ground Station is shown the first 1819 retained measurements in the range, field for field. |
| EndToEnd.EventStorageToGroundStation | pc_side/central_computer/comm_gs.cpp:248-277 | The same for events. |
| EndToEnd.StoreAll | pc_side/central_computer/data_collection.cpp:86-106 | Any sequence of stores leaves in the submarine's two directories what the history of its measurements and of its events says. |
| EndToEnd.SubmarineToGroundStation | pc_side/central_computer/log.cpp:12-122 | All programs in a row, from the bytes on the serial line to the Ground Station: of the measurements and events sent, stored under an identifier, a request for that identifier shows those retained and in the range, up to the size of a response, field for field and in order; every other message is returned to the central computer. |

## Left out

- Frame.StuffWriteByte: assumes that the 16-bit guard does not wrap around, as it can from capacity 65534 on; then the source writes past the buffer.
- Frame.FrameEncode: the same for the whole frame; EncodesSafelyIff says for which capacities that is always so.
- Tlv.EncodeTlv: what is written past the given capacity after a wrap-around is modelled as far as the array goes; beyond its end the source overwrites other memory.
- Tlv.FindField: assumes that the search ends, for which FindTerminatesIff gives the exact condition; FindFieldFor covers the other buffers turn by turn.
- GroundStation.WalkLog: assumes that no record leaves the value and no offset wraps around; WalkLogFor covers the other values turn by turn, up to the read beyond the value.
- GroundStation.WalkEvents: the same, with WalkEventsFor.
- GroundLink.BuildRequest: assumes an identifier of at most 63 bytes. With a longer one a field does not fit (RequestFitsIff) and the source goes on with an old or unset length.
- GroundLink.ParseRange: assumes that the searches it makes end and that what it reads lies in the request; the source has no such check.
- GroundLink.HandleGetLog: the same.
- GroundLink.HandleGetEvents: the same.
- Telemetry.PrintKeepAlive: assumes that the searches end and that the bytes read for each field lie in the message or record; beyond it the source reads other memory.
- Telemetry.PrintEventReport: the same.
- Telemetry.LncLink.RecvMessage: assumes that of the telemetry it meets, and that no message declares a length that wraps around.
- EndToEnd.SubmarineToGroundStation: takes keep-alives and event reports with the fields their senders write; SerialLineToStorage covers all telemetry that is safe to read.
- Records.ReadMeasurement: a field whose bytes would lie beyond the record counts as zero, where the source reads other memory; no sender in this system writes one.
- BridgeServers.BridgeServer.Send: takes a successful `send()` to have sent everything, as the source does.
- TextLines.ScanPrintedLine: conversions of numbers outside the C types, which no store prints, are reduced modulo the width.
- DataCollections.DataCollection.ReadAllLines: a file is its list of lines; newline characters and file-system errors are not modelled.
- Dates.NamesAreChronological: years from 0 to 9999.
- Concurrency covers one storing and one querying thread, as central_computer has them.
- Directory names: submarine identifiers are taken as distinct directories, path syntax inside them is not modelled.
- The pagination client in management_command.cpp depends on LNC firmware that is not part of this model.
- The embedded telemetry client of a combat submarine (oop_fleet/central_computer.cpp) gives up on split prefixes by design and has no stream property.
- Mission texts, commander, personnel, history, research missions and display change none of the state modelled here.
- Printing, time formatting, percentages and the plain-text handshake.
