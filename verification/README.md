# pamodbus, modelled and verified in Dafny

pamodbus is a MODBUS protocol stack without I/O of its own: it builds and parses PDUs, frames them for
RTU or TCP, and assembles received bytes into frames. This project models its layers and proves what
joins them.

| module | what it models |
|---|---|
| `Bytes`, `Bits`, `Status` | unsigned bytes and words, big-endian words, packed coils, result codes |
| `Crc16`, `CrcErrors`, `TwoBitErrors` | the table-driven CRC-16 loop, its bitwise definition, and the errors it detects |
| `RtuFramer`, `RtuTheorems` | RTU wrap and unwrap, the length rule, and their round trips |
| `TcpFramer` | the MBAP header and the transaction counter |
| `Requests` | the master's builders, writing and framing in the transmit buffer |
| `SlaveRequests`, `Responder`, `Slave` | the slave's parser, and the responder over registers and coils |
| `Responses` | the master's parser and accessors |
| `RequestTheorems`, `AnswerTheorems`, `ResponseTheorems` | what the slave's parser, the responder and the master's parser make of every input, byte by byte |
| `PduTheorems`, `StoreTheorems` | what requests and responses carry, and what requests do to the store |
| `Exchange`, `Polling` | end-to-end theorems between a master and a slave |
| `Receiver`, `ReceiverTheorems`, `Streams`, `Room` | the two non-blocking receivers, framed and raw, over one accumulator, and their runs |
| `ReceiverContext` | the receivers in place |
| `RawPath` | raw send, and its round trip |

**How it is modelled.** Bytes and words are bounded integers; bit operations on the CRC register and on
the masks of a mask write are on 16-bit vectors. Each part of the context struct that one side of the
library updates is a class (`Transmitter`, `Master`, `SlaveRequest`, `Slave`, `Context`, the TCP
`Framer`), with arrays for the C buffers; each method is proved to have the effect of a function on
values, and the theorems are about those functions. The receive callback is a parameter: the bytes it
delivered, or its failure. The register callbacks are a `Store`, after the array-backed callbacks of
`test/test_pamodbus.c:527-543` and `test/test_pamodbus.c:623-659`: arrays of at most 65536 elements, as
addresses have 16 bits; they refuse an address range they do not have, and a multiple coil write stops at
the first missing coil. FC 11 and FC 0C read past the last address, so a store may besides serve those two
blocks, of 64 registers at 0xFFF0 and of 5 at 0xFFFC, as fields of their own; a store over plain arrays has
neither. Ticks are a parameter modulo 2^32.

**Where the code and its documentation differ, the model follows the code.**

- `include/pamodbus.h:301-302` says a hard error resets the accumulator; the code does so in some cases only
  (see the next list).
- `README.md:145` says a receive callback returns 0 on timeout; `include/pamodbus.h:95-97` and the code
  take 0 as "nothing now".
- The comment at `src/framer_rtu.c:55-56` gives a read request 5 bytes; the code uses 8.

**Properties that are false as one would first state them, with the exact condition proved.**

- A hard error resets the accumulator exactly when no frame was found, or the frame that failed to parse was
  the last thing buffered (`ReceiverTheorems.ErrorEmpties`); a slave that gets an exception response and one
  byte more keeps that byte (`ReceiverTheorems.ErrorKeepsBytes`). A failing callback leaves everything.
- A complete frame is accepted whatever follows it exactly when it is not of FC 14 or 15, nor of FC 11 without
  a byte count that covers it (`RtuTheorems.ExtensionStable`); and fetching just the bytes asked for stops at
  its end exactly when it is not of FC 11, 14 or 15, or has the 4 bytes, of FC 11, or the 8 at which they stop
  (`RtuTheorems.PullStopsAtFrameEnd`).
- A read request (FC 01 to 04) is recognised over RTU exactly when the high byte of its address is 0, 3
  or above 250 (`Exchange.ReadRequestArrives`).
- An FC 17 request never round-trips over RTU (`Exchange.ReadWriteRequestLost`), and the eight-byte echo
  of FC 0F and FC 10 never reaches the master on its own (`Exchange.MultipleWriteEchoWaits`).
- A wrapped TCP frame is one byte short of what unwrapping asks for (`TcpFramer.TcpRoundTrip`).
- A mask write computes the formula of section 6.16 of the MODBUS Application Protocol V1.1b3 exactly
  when its masks share no bit (`PduTheorems.MaskWriteStandard`), and is acknowledged also when the
  register could not be read (`PduTheorems.MaskWriteAcknowledged`).
- What an FC 10 or FC 17 request, or an FC 0F request of at most 264 coils, does to the store is determined by
  the request exactly when its byte count covers the registers or coils that get written, which are none when
  a register write is refused, and those up to the end of the store in a coil write; otherwise the rest comes
  from earlier requests
  (`StoreTheorems.WriteRegistersDetermined`, `StoreTheorems.ReadWriteDetermined`,
  `StoreTheorems.WriteCoilsDetermined`).
- A refused request leaves the store unchanged except in exactly two cases: FC 0F that runs out of coils
  halfway, and FC 17 whose read fails after its write (`StoreTheorems.RefusalKeepsStore`).
- FC 11 asks the holding register callback for 64 registers at 0xFFF0, and FC 0C for 5 at 0xFFFC, past the
  last address: they are answered exactly when the callback serves these blocks specially, and every plain
  array of registers refuses them (`PduTheorems.ServerIdAnswered`, `PduTheorems.EventLogReadBack`). FC 0B
  needs all 65536 registers (`PduTheorems.EventCounterReadBack`).
- FC 01, 02 and 0F requests for more than 264 coils can parse Ok, and then do not fit the 33-byte buffers
  the responder copies through, at `src/pdu.c:625` and in the context: a parsed request fits exactly when
  its count is at most 264 (`PduTheorems.ParsedIsAnswerable`).
- A queue response (FC 18) reaches the master one byte out of step, and without the last byte of the queue
  (`PduTheorems.QueueReadBackShifted`, `PduTheorems.QueueLosesLastByte`). It is the one response that can
  exceed the 253 bytes of a PDU, exactly from 125 registers on (`PduTheorems.ResponseFits`).
- The receive callback is always offered room exactly when every raw receive has room for the PDU of the
  largest frame the buffer can hold; else a frame too large for its caller can fill the buffer for good
  (`Room.RoomIsGuaranteed`).
- A coil write of more than 264 coils, which the builder accepts, is refused by the slave's parser
  (`Exchange.CoilsWritten`).
- Of the responses, the echo of FC 0F and 10, the exception status, the event log and the queue are never
  recognised over RTU, and an FC 17 response only when its ninth byte happens to fit (`Exchange.ResponseArrives`).
- An exception response is recognised exactly for function codes 1 to 24 (`Exchange.ExceptionArrives`).

## Model

| member | source | states |
|---|---|---|
| Crc16.PaCrc16 | src/crc16.c:46-54 | the table-driven loop computes the bit-by-bit CRC with polynomial 0xA001 from 0xFFFF, for every input |
| Crc16.TableUpdate | src/crc16.c:49-52 | one turn of the table loop is one more byte shifted through the register bit by bit |
| Crc16.TableIsShift | src/crc16.c:11-44 | each of the 256 table entries is eight shift steps of its index |
| Crc16.ShiftBitsLinear | src/crc16.c:46-54 | the shift register is linear under XOR, for any number of steps |
| CrcErrors.BurstDetected | src/crc16.c:46-54 | two different messages of equal length that differ only within 16 consecutive bits have different CRCs |
| CrcErrors.KnownValues | test/test_pamodbus.c:36-72 | the CRCs of the five inputs that the repository checks |
| CrcErrors.SeventeenBitsMissed | src/crc16.c:46-54 | 16 bits is sharp: two messages that differ within 17 bits and share their CRC |
| CrcErrors.OddErrorsDetected | src/crc16.c:46-54 | the parity of the difference of two registers is that of the number of differing bits, so an odd number of flipped bits always changes the CRC |
| TwoBitErrors.LastTermReturns | src/crc16.c:46-54 | the order of the polynomial: the shift register, fed nothing, returns to 1 exactly after the multiples of 32767 steps |
| TwoBitErrors.TwoBitsDetected | src/crc16.c:46-54 | two flipped bits go undetected exactly when they are a multiple of 32767 places apart |
| TwoBitErrors.ThreeBitsDetected | src/crc16.c:46-54 | in messages of up to 32767 bits, one to three flipped bits always change the CRC |
| CrcErrors.ZeroResidue | src/framer_rtu.c:195-202 | the little-endian trailer check passes exactly when the CRC over the whole frame is zero |
| RtuFramer.Wrap | src/framer_rtu.c:16-36 | shifts the PDU up in place, puts the address before it and the CRC after it, or reports a full buffer and changes nothing |
| RtuFramer.Unwrap | src/framer_rtu.c:38-218 | an accepted PDU is the received bytes between the address and the CRC, and never empty |
| RtuTheorems.RoundTrip | src/framer_rtu.c:16-218 | unwrapping a wrapped PDU gives it back exactly when the length rule recognises the frame at its own length |
| RtuTheorems.AddressFilter | src/framer_rtu.c:204-213 | a recognised frame is refused with an address error exactly when its address is neither the context's nor a discovery address in use, and the context does not accept all; else it is accepted |
| RtuTheorems.FramingErrors | src/framer_rtu.c:68-213 | which error a buffer gets: an unknown function code first, then the CRC, then the address |
| RtuTheorems.AcceptedLength | src/framer_rtu.c:68-217 | how long the PDU of an accepted frame is, for every function code |
| RtuTheorems.AskedFor | src/framer_rtu.c:42-193 | when unwrap waits, and for how many bytes, before it knows a length |
| RtuTheorems.TruncationStable | src/framer_rtu.c:68-217 | a frame accepted inside a longer buffer is accepted, with the same PDU, when handed over alone |
| RtuTheorems.ExtensionStable | src/framer_rtu.c:68-217 | a complete frame with more bytes behind it is accepted unchanged exactly when it says where it ends |
| RtuTheorems.PullTerminates | src/framer_rtu.c:42-193 | fetching just what unwrap asks for, for as long as the stream has it, reaches a verdict after at most three requests |
| RtuTheorems.PullStopsAtFrameEnd | src/framer_rtu.c:42-193 | and never goes past the end of an accepted frame, whatever follows it; when it stops just there, exactly |
| RtuTheorems.BurstRejected | src/framer_rtu.c:195-202 | a valid frame damaged within 16 consecutive bits, CRC included, and still taken at its length, gives a CRC error |
| RtuTheorems.OddErrorsRejected | src/framer_rtu.c:195-202 | and so does one in which any odd number of bits was flipped |
| RtuTheorems.ThreeErrorsRejected | src/framer_rtu.c:195-202 | and one of up to 4095 bytes in which one to three bits were flipped |
| TcpFramer.Framer.Wrap | src/framer_tcp.c:20-44 | MBAP header before the PDU in place, counter advanced modulo 65536, or nothing changed |
| TcpFramer.TcpRoundTrip | src/framer_tcp.c:46-83 | a wrapped frame alone needs one byte more; with any bytes behind it, it gives its PDU back |
| TcpFramer.TcpVerdict | src/framer_tcp.c:46-83 | the verdict on every buffer: what is missing, protocol id before unit id, and the PDU by the length field |
| TcpFramer.TransactionsDistinct | src/framer_tcp.c:13-44 | over any run of wraps, no transaction number recurs within 65536 successful ones |
| Requests.Transmitter.BuildRead | src/pdu.c:37-83 | the four read builders: range check, PDU, frame, length |
| Requests.Transmitter.BuildWriteSingleCoil | src/pdu.c:85-95 | FC 05: nonzero is 0xFF00 |
| Requests.Transmitter.BuildWriteSingleRegister | src/pdu.c:97-106 | FC 06 |
| Requests.Transmitter.BuildWriteMultipleCoils | src/pdu.c:108-129 | FC 0F: one bit per nonzero value, padding clear; range and buffer errors leave everything unchanged |
| Requests.Transmitter.BuildReportServerId | src/pdu.c:131-138 | FC 11 |
| Requests.Transmitter.BuildMaskWrite | src/pdu.c:140-150 | FC 16 |
| Requests.Transmitter.BuildReadWrite | src/pdu.c:152-176 | FC 17 |
| Requests.Transmitter.BuildWriteMultipleRegisters | src/pdu.c:178-197 | FC 10 |
| Bits.BitOfPack | src/pdu.c:120-124 | bit j of packed byte k is coil 8k + j, and padding bits are clear |
| Bits.UnpackPack | src/pdu.c:120-124 | packed coils unpack to themselves |
| Bits.SetBitBits | src/pdu.c:123-123 | setting a bit sets that bit and no other |
| Bytes.PutGetWords | src/pdu.c:16-26 | big-endian words survive the wire, wherever in a message they are put |
| Responses.Master.Parse | src/pdu.c:207-398 | the master's parser, branch by branch, with everything it stores and leaves, the last error included |
| Responses.Master.Feed | src/pdu.c:998-1011 | unwrap, then parse; a framing error is recorded |
| ResponseTheorems.HeaderParsed | src/pdu.c:207-226 | empty, exception and other responses: verdict, function code, exception, last error, and what stays readable |
| ResponseTheorems.UnknownParsed | src/pdu.c:393-394 | an unknown function code is a protocol error |
| ResponseTheorems.BitsParsed | src/pdu.c:228-238 | FC 01 and 02: when they parse, and every coil then read |
| ResponseTheorems.RegistersParsed | src/pdu.c:240-252 | FC 03, 04, 14 and 17: when they parse, and every register then read |
| ResponseTheorems.EchoParsed | src/pdu.c:254-262 | FC 05, 06, 0F, 10 and 15: when they parse; nothing is readable |
| ResponseTheorems.ExceptionStatusParsed | src/pdu.c:264-269 | FC 07: when it parses, and every coil then read |
| ResponseTheorems.FieldsParsed | src/pdu.c:271-283 | FC 08, 0B and 16: when they parse, and every register then read |
| ResponseTheorems.EventLogParsed | src/pdu.c:285-302 | FC 0C: when it parses, and every register and coil then read |
| ResponseTheorems.ServerIdParsed | src/pdu.c:314-331 | FC 11: when it parses, and every register then read |
| ResponseTheorems.QueueParsed | src/pdu.c:379-391 | FC 18: when it parses, and every register then read |
| SlaveRequests.SlaveRequest.Parse | src/pdu.c:408-607 | the slave's parser, branch by branch, with everything it stores and leaves |
| SlaveRequests.SlaveRequest.Feed | src/pdu.c:1013-1024 | unwrap, then parse |
| RequestTheorems.RequestVerdict | src/pdu.c:408-607 | which requests parse, which are out of range, and which are protocol errors, for every function code |
| RequestTheorems.RequestHeader | src/pdu.c:408-418 | the function code kept, and when the data is valid |
| RequestTheorems.RequestTarget | src/pdu.c:420-607 | address and count of every parsed request |
| RequestTheorems.RequestRefused | src/pdu.c:408-607 | what a request that does not parse leaves, and what it has stored already |
| RequestTheorems.RequestRegisters | src/pdu.c:446-594 | every register of the buffer after a parsed request, those behind its own included |
| RequestTheorems.RequestCoils | src/pdu.c:437-594 | every byte of the coil buffer after a parsed request, those behind its own included |
| AnswerTheorems.RefusalError | src/pdu.c:613-972 | which error a refusal is, for every function code and every missing callback |
| AnswerTheorems.RegisterReadAnswered | src/pdu.c:642-662 | FC 03 and 04: exactly when they are answered, and with which registers |
| AnswerTheorems.CoilReadAnswered | src/pdu.c:620-640 | FC 01 and 02: exactly when they are answered, and with which bits, padding included |
| AnswerTheorems.CoilWriteAnswered | src/pdu.c:664-676 | FC 05: exactly when it is answered, the echo, and every coil after it |
| AnswerTheorems.RegisterWriteAnswered | src/pdu.c:678-690 | FC 06: the same of registers |
| AnswerTheorems.MaskWriteAnswered | src/pdu.c:892-917 | FC 16: the echo, and every register after it, the masked one bit by bit |
| AnswerTheorems.CoilsWriteAnswered | src/pdu.c:754-767 | FC 0F: exactly when it is answered, and every coil after it, also where it is refused or wraps around |
| AnswerTheorems.RegistersWriteAnswered | src/pdu.c:769-782 | FC 10: exactly when it is answered, and every register after it |
| AnswerTheorems.ReadWriteAnswered | src/pdu.c:919-946 | FC 17: what is written, exactly when it is answered, and with which registers |
| AnswerTheorems.StatusAnswered | src/pdu.c:692-802 | FC 07, 08, 0B, 0C, 11 and 18: exactly when they are answered; the store is unchanged |
| AnswerTheorems.ExceptionCarries | src/pdu.c:983-986 | the exception PDU: the request's function code with its highest bit set, and the code |
| Slave.Slave.Respond | src/pdu.c:613-981 | the responder: callbacks called, response framed, or error passed on |
| Slave.Slave.RespondError | src/pdu.c:983-992 | the exception response |
| Slave.Store.WriteCoils | test/test_pamodbus.c:647-659 | writes coil by coil, at 16-bit addresses, up to the first missing one |
| Slave.Store.WriteRegisters | test/test_pamodbus.c:536-543 | writes all of a range it has, or nothing |
| Exchange.ReadRequestArrives | src/framer_rtu.c:86-101 | a read request is parsed exactly when its high address byte is 0, 3 or above 250 |
| Exchange.RequestArrives | src/framer_rtu.c:68-217 | which built requests round-trip over RTU, exactly |
| Exchange.RegistersReadBack | src/pdu.c:642-662 | FC 03 and 04 over the wire: the master reads what the slave holds |
| Exchange.RegistersWritten | src/pdu.c:769-782 | FC 10 over the wire stores exactly its values |
| Exchange.ReadYourWrites | src/pdu.c:178-252 | registers written with FC 10 are read back with FC 03, and no other register changes |
| Exchange.CoilsWritten | src/pdu.c:482-496 | FC 0F over the wire stores exactly its coils; more than 264 are refused |
| Exchange.CoilsReadBack | src/pdu.c:620-640 | FC 01 and 02 over the wire, for up to 264 coils: the master reads what the slave holds, and off past the count |
| Exchange.ReadYourCoils | src/pamodbus.c:224-228 | nonzero values written with FC 0F read back as set coils over FC 01, and no other coil changes |
| Exchange.MultipleWriteEchoWaits | src/framer_rtu.c:110-114 | the echo of FC 0F and 10 alone always makes the master wait for as many bytes as its CRC's low byte says, and one |
| Exchange.ReadWriteRequestLost | src/framer_rtu.c:168-172 | FC 17 requests are never taken at their own length |
| Exchange.SingleWriteEchoed | src/pdu.c:664-690 | FC 05 and 06 over the wire: applied and echoed exactly when the address exists |
| Exchange.ExceptionArrives | src/framer_rtu.c:180-190 | an exception response reaches the master with its code, exactly for function codes 1 to 24 |
| Exchange.MaskWriteReadBack | src/pdu.c:356-363 | the response to a mask write always reaches the master, as address, AND mask and OR mask |
| Exchange.StrangersIgnored | src/pdu.c:998-1024 | a frame addressed to someone else changes nothing but the master's last error |
| Exchange.DamageIgnored | src/pdu.c:998-1024 | nor does a frame damaged in one to three bits |
| Exchange.PartialFrameWaits | src/pdu.c:998-1024 | of a frame that is not all there, both sides wait for just what is missing |
| Exchange.DiagnosticEchoed | src/pdu.c:707-715 | FC 08 echoes its data through both sides |
| Exchange.QueueNeverArrives | src/framer_rtu.c:175-177 | over RTU no register of an FC 18 response ever reaches the master |
| Exchange.ResponseArrives | src/framer_rtu.c:68-217 | which responses round-trip over RTU, exactly |
| PduTheorems.WriteBeforeRead | src/pdu.c:919-946 | FC 17 returns the read range of the bank after the write, overlapping or not |
| PduTheorems.ServerIdAnswered | src/pdu.c:784-802 | FC 11 over the wire always arrives, and is answered exactly when the callback serves the block past the address space; every plain array refuses |
| PduTheorems.ServerIdReadBack | src/pdu.c:784-802 | FC 11 over the wire, for every such block: whole registers, and the high byte of an odd last one |
| PduTheorems.EventCounterReadBack | src/pdu.c:717-731 | FC 0B is answered exactly by a store of all 65536 registers; status and count come back |
| PduTheorems.EventLogReadBack | src/pdu.c:733-752 | FC 0C is answered exactly when the callback serves the block past the address space; status, count and log bytes come back |
| PduTheorems.QueueReadBackShifted | src/pdu.c:948-968 | FC 18: what the master reads is the queue one byte out of step |
| PduTheorems.QueueLosesLastByte | src/pdu.c:948-968 | the low byte of the last register of a queue is not in the response |
| PduTheorems.ExceptionStatusReadBack | src/pdu.c:692-705 | FC 07: the first eight coils come back |
| PduTheorems.ParsedIsAnswerable | src/pdu.c:408-607 | a parsed request fits the responder's buffers exactly when it asks for at most 264 coils |
| PduTheorems.ResponseFits | src/pdu.c:613-968 | the byte count covers the response exactly; it has at most 253 bytes, and a 256-byte buffer frames it, exactly when it is not a queue of 125 registers or more |
| PduTheorems.SentIsFramed | src/framer_rtu.c:16-36 | what sending makes of the whole transmit buffer and its length, with room and without |
| PduTheorems.RequestFits | src/pdu.c:37-197 | every built request has at most 253 bytes, and a 256-byte buffer frames it |
| PduTheorems.MaskWriteStandard | src/pdu.c:903-905 | the mask formula is the standard's on every value exactly when the masks are disjoint |
| PduTheorems.MaskWriteAcknowledged | src/pdu.c:892-917 | FC 16 is always acknowledged; when the register really changes |
| StoreTheorems.WriteRegistersDetermined | src/pdu.c:498-514 | the store after FC 10 depends on the request alone exactly when it is refused or its byte count covers its count |
| StoreTheorems.ReadWriteDetermined | src/pdu.c:567-594 | the same of the write half of FC 17 |
| StoreTheorems.WriteCoilsDetermined | src/pdu.c:482-496 | the same of FC 0F, for the coils it reaches, also where it stops halfway or wraps around, at eight a byte |
| StoreTheorems.RefusalKeepsStore | src/pdu.c:613-981 | which refused requests leave every store of given sizes unchanged, exactly |
| Receiver.ScanFindsFirst | src/pamodbus.c:295-314 | the scan stops at the least offset where a complete accepted frame starts |
| Receiver.ScanRawIsShortest | src/pamodbus.c:425-439 | the raw frame is the shortest prefix of at least four bytes that closes with its CRC |
| ReceiverTheorems.RunConserves | src/pamodbus.c:295-455 | over every run of both receivers, what arrived is in order what the events took, then what is buffered |
| ReceiverTheorems.RunIsSafe | src/pamodbus.c:295-455 | over every run, each dispatch is the first valid, accepted frame and is parsed at once; each raw frame taken or held back is the shortest |
| Room.RoomUnlessJammed | src/pamodbus.c:316-455 | over every run, the callback always has room exactly when no raw frame is held back in a full buffer |
| Room.RoomIsGuaranteed | src/pamodbus.c:402-455 | room on every run exactly when each raw receive can take the PDU of a frame as long as the buffer |
| ReceiverTheorems.PollSkipsGarbage | src/pamodbus.c:291-314 | a poll skips garbage in front of a complete frame, and dispatches it, exactly when no frame is accepted inside the garbage |
| ReceiverTheorems.PollTakesFirst | src/pamodbus.c:334-353 | a poll after which the buffer starts with a complete frame dispatches exactly that frame |
| ReceiverTheorems.DrainsInOrder | src/pamodbus.c:343-352 | back-to-back frames are dispatched one per poll, in order, and exactly the tail is left |
| ReceiverTheorems.ChunkingIndependent | src/pamodbus.c:316-455 | for either receiver, however a frame is cut into chunks, the polls wait exactly when none comes late, and then the last has the effect of delivering it whole |
| Streams.StreamInOrder | src/pamodbus.c:316-371 | however a stream of several frames is cut into chunks, a run without a timeout dispatches its frames whole and in order, and keeps the rest |
| Streams.StreamDrains | src/pamodbus.c:316-371 | and idle polls then dispatch every frame that is left, and leave just the tail |
| ReceiverTheorems.TimeoutIsExact | src/pamodbus.c:362-368 | for either receiver, the idle timeout is exact in true time, across wraparound of the tick counter, after every run |
| ReceiverTheorems.OverflowIsExact | src/pamodbus.c:355-359 | a full buffer is reported exactly when it holds no frame, and emptied, or when a raw frame exceeds its caller's room, and kept |
| ReceiverTheorems.PollResult | src/pamodbus.c:316-455 | what every poll of either receiver returns; a raw one Ok exactly when it copied a frame out |
| ReceiverTheorems.RefusedPolls | src/pamodbus.c:316-416 | a failing callback and a missing buffer: nothing changes, and which error each receiver returns |
| ReceiverTheorems.ErrorEmpties | src/pamodbus.c:327-371 | which hard errors empty the accumulator, exactly |
| ReceiverTheorems.ErrorKeepsBytes | src/pamodbus.c:337-353 | a parse error that keeps the bytes behind its frame |
| ReceiverTheorems.ResyncsAfterTimeout | src/pamodbus.c:362-368 | after a timeout the next complete frame is dispatched whole |
| ReceiverContext.Context.Recv | src/pamodbus.c:316-371 | the in-place receiver does one step of the state machine, and keeps the history of bytes and events consistent |
| ReceiverContext.Context.RecvRaw | src/pamodbus.c:402-455 | so does the in-place raw receiver; the PDU is copied out, or the caller's buffer and length are left |
| ReceiverContext.Context.ScanFrame | src/pamodbus.c:295-314 | the loop over offsets finds what the scan function finds |
| ReceiverContext.Context.FindRaw | src/pamodbus.c:425-439 | the loop over frame lengths finds what the scan function finds |
| ReceiverContext.Context.Compact | src/pamodbus.c:345-351 | the move to the front keeps exactly the bytes after the frame |
| ReceiverContext.Context.RxReset | src/pamodbus.c:123-126 | empties the accumulator |
| RawPath.RawRoundTrip | src/pamodbus.c:377-439 | a PDU sent raw comes back with Ok, at the front of the caller's buffer, exactly when no shorter prefix of its frame closes with its CRC |
| RawPath.SendRaw | src/pamodbus.c:377-400 | what is sent, in buffers of every size; from seven bytes on the size guard makes the framer's own check unreachable |
| Polling.ReadThroughReceivers | src/pamodbus.c:316-371 | a register read through both receivers gives the master the slave's registers and leaves both accumulators empty |
| Polling.ReadYourWritesThroughReceivers | src/pamodbus.c:291-371 | registers written and read back through both receivers, with the unrecognised echo of the write left in front of the response: when that is still dispatched, exactly |

## Left out

- Slave.Slave.Respond: covers no FC 14 and 15 responses, and no counts above 264 coils, for which the source
  reads or writes past its fixed buffers; it asks that the transmit buffer hold what the response is written
  over, which the source needs and does not check; after an error it says nothing about the buffer's
  contents.
- FC 14 and 15 are parsed on both sides as the source does, but no round trip is proved for them.
- TcpFramer.TcpRoundTrip: `TcpUnwrap` is not defined for a Length field of 0, from which the source
  computes a PDU length of -1 as an unsigned number.
- RawPath.SendRaw: asks that a PDU fit a transmit buffer of fewer than seven bytes, into which the source
  copies it unchecked.
- Bits.SetBitBits: the `|=` of one bit is modelled on integers, not on bit vectors.
- TCP frames through the receiver: the scan's frame length and the unwrapper's differ by a byte.
- Setters and getters, callback registration, and the role heuristic: the role
  is a parameter.
- `host/` and `include/pa_port.h`: I/O plumbing. The discovery state machine lives elsewhere and is not
  part of this model.
- Pointer casts, aliasing of buffers, and role selection by the preprocessor: buffers are separate arrays.
- Null pointers: missing send, receive and buffer pointers, and a null value array. A receive buffer of
  size 0 stands for a missing one.
- Callbacks that fill their buffers partly or return other codes than success and failure.
