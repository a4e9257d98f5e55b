# openess in Dafny

A model of the core of openess, a client for an energy-monitoring
datalogger, with proofs about it. The model covers:

- the 8-byte frame header and the request/response exchange with the
  datalogger, including the text handshake;
- the three message bodies the client exchanges with the datalogger
  (heartbeat, query collector, set collector);
- the protocol descriptor: its register table, its segment groups, the
  check made after loading, and the custom JSON decoders of its scalars;
- the register codec and the register commands: read one register, write
  one register, read a whole segment in two ways, and read the device
  information;
- the client task's reconnect loop: backoff, the connect sequence, and the
  link teardown rules;
- the quote-aware tokenizer of the interactive shell;
- the command-line option parser.

Every module is one concept:

| module | file | models |
|---|---|---|
| `Base` | base.dfy | machine integers (uint16 and byte wrap-around), byte order, `Result`/`Option`, the error kinds |
| `Text` | text.dfy | `strconv.Atoi`/`Itoa`, lower-case hex, `strings.Trim(s, "\"")`, cutting at a separator |
| `Buffers` | buffers.dfy | a `bytes.Buffer` (and the receive side of a socket) as a class over a byte sequence; `io.ReadFull`, `binary.Read`, `binary.Write` |
| `Wire` | wire.dfy | `Header.Write` and `ReadHeader` |
| `Messages` | messages.dfy | the message bodies and their encoders and decoders |
| `Link` | device.dfy | `WriteRequest`, `ReadResponse`, the raw register exchange, the handshake text |
| `Descriptors` | descriptor.dfy | the descriptor datatypes, searches, post-load check, scalar decoders |
| `RegReadDescr` | reg_read_descr.dfy | `NewRegValueFromBytes` and the read-one-register command |
| `RegWriteDescr` | reg_write_descr.dfy | the write-one-register command |
| `RegReadSeg` | reg_read_seg.dfy | the continuous and sparse segment walks |
| `DeviceInfo` | info.dfy | the device-information command |
| `Client` | client.dfy | the client task as a sequential state machine |
| `Cli` | cli.dfy | `readLine` |
| `Arguments` | args.dfy | `ParseArgs` |

Conventions:

- I/O is replaced by inputs:
  - the bytes waiting on a socket are a `Buffer`'s contents, plus the error
    the stream ends with (`exhausted`);
  - a socket write is recorded in `Device.sent`, and its outcome is a
    constant of the device;
  - the raw register exchange with an inverter behind the datalogger
    (`NewRegReadRaw`/`NewRegWriteRaw`) is the oracle
    `Device.forwardAnswer(k, request)` for the k-th exchange;
  - dialing and file/JSON loading are the client task's `dial` and `parse`
    functions;
  - the clock is a `Timestamp` parameter.
- A Go runtime panic (index out of range) is the error `Panic`, and
  `os.Exit` is the outcome `Exit(code)`.
- A loop that cannot end carries a fuel count. A walk that reaches an
  address with no register would spin for ever in Go without changing
  anything. The model reports that as `Hangs(address)`.

The backoff follows the code: it doubles while it is under five minutes, so
it ends at 512 seconds, not at 300 seconds.

## Model

| member | source | states |
|---|---|---|
| Base.U16 | internal/protocol/protocol.go:36 | uint16 arithmetic: the result is the integer reduced modulo 2^16 |
| Base.Byte | internal/protocol/msg_heartbeat.go:43-48 | a byte conversion: the integer reduced modulo 256 |
| Base.WordOf | internal/commands/reg_read_descr.go:37-48 | a 16-bit word from two bytes: big-endian puts the first byte high, little-endian puts it low |
| Base.WordOfU16Bytes | internal/protocol/protocol.go:38-48 | the bytes `binary.Write` emits for a uint16 read back, in either byte order, as the same value |
| Buffers.ReadFullFrom | internal/protocol/device.go:108-115 | `io.ReadFull`: succeeds exactly when n bytes are there, returning the first n and leaving the rest; otherwise the buffer is drained and a partial read that hits EOF reports ErrUnexpectedEOF |
| Buffers.ReadU16From | internal/protocol/protocol.go:77-90 | `binary.Read` of a uint16: succeeds exactly with two bytes left, giving their word in the byte order and consuming them |
| Buffers.ReadByteFrom | internal/protocol/protocol.go:92-100 | `binary.Read` of a byte: succeeds exactly when a byte is left; otherwise reports the stream's error |
| Buffers.Buffer.constructor | internal/protocol/device.go:108-111 | a stream holding the given bytes and ending with the given error |
| Buffers.Buffer.FromBytes | internal/commands/reg_read_descr.go:193 | `bytes.NewBuffer`: a buffer over the bytes, ending with EOF |
| Buffers.Buffer.Write | internal/protocol/device.go:95-98 | appends the bytes |
| Buffers.Buffer.WriteByte | internal/protocol/msg_heartbeat.go:54-59 | appends one byte |
| Buffers.Buffer.WriteU16 | internal/protocol/protocol.go:38-51 | appends the two bytes of a uint16 in the byte order |
| Buffers.Buffer.ReadFull | internal/protocol/device.go:109-115 | the buffer's new contents and the result are those of ReadFullFrom |
| Buffers.Buffer.ReadU16 | internal/protocol/protocol.go:77-90 | the buffer's new contents and the result are those of ReadU16From |
| Buffers.Buffer.ReadByte | internal/protocol/protocol.go:92-100 | the buffer's new contents and the result are those of ReadByteFrom |
| Wire.HeaderLayout | internal/protocol/protocol.go:33-64 | the header is 8 bytes: TID, DevCode, Size + 2 mod 2^16 (each big-endian), then DevAddr and FuncCode |
| Wire.Write | internal/protocol/protocol.go:33-64 | `Header.Write` appends exactly those 8 bytes to the writer |
| Wire.ParseHeaderFields | internal/protocol/protocol.go:66-105 | with 8 bytes or more, `ReadHeader` succeeds, consumes 8 bytes, and reads each field big-endian, with Size = wire value − 2 mod 2^16 (so a wire size below 2 wraps) |
| Wire.ParseHeaderShort | internal/protocol/protocol.go:77-100 | with fewer than 8 bytes, `ReadHeader` fails with the stream's error or ErrUnexpectedEOF |
| Wire.ParseHeaderBytes | internal/protocol/protocol.go:33-105 | round trip: reading back a written header gives the same header, Size included, and leaves what followed |
| Wire.HeaderBytesOfParse | internal/protocol/protocol.go:66-105 | the converse: writing a parsed header gives back the 8 bytes it came from |
| Wire.ReadHeader | internal/protocol/protocol.go:66-105 | the method's result and the bytes it leaves are those of ParseHeader |
| Messages.HeartBeatLayout | internal/protocol/msg_heartbeat.go:42-62 | the heartbeat body is 8 bytes: year − 2000 mod 256, month, day, hour, minute, second, then the interval big-endian |
| Messages.EncodeHeartBeat | internal/protocol/msg_heartbeat.go:42-63 | the heartbeat encoder never fails and always yields exactly those 8 bytes |
| Messages.HeartBeatIntervalBytes | internal/protocol/msg_heartbeat.go:20-62 | the default interval 300 goes out as 0x01 0x2C |
| Messages.DecodeHeartBeat | internal/protocol/msg_heartbeat.go:65-70 | the heartbeat answer is the lower-case hex text of the body, twice its length, and never fails; it decodes back to the body |
| Messages.DecodeQueryCollector | internal/protocol/msg_query_collector.go:35-43 | Code = data[0], Par = data[1], Data = the rest as text of length len − 2; the three re-encode to the input |
| Messages.DecodeQueryRspBytes | internal/protocol/msg_query_collector.go:35-43 | round trip: decoding code, par and data laid out as bytes gives back the same three |
| Messages.EncodeSetCollector | internal/protocol/msg_set_collector.go:31-34 | the body is Par followed by the bytes of Value, 1 + len(Value) bytes |
| Messages.DecodeSetCollector | internal/protocol/msg_set_collector.go:36-40 | Status = data[0] and Par = data[1] |
| Messages.DecodeSetIgnoresTail | internal/protocol/msg_set_collector.go:36-40 | the bytes after the first two do not change the answer |
| Messages.EncodeRequest | internal/protocol/device.go:79-82 | every body encoder succeeds and yields BodyBytes of the body |
| Messages.DecodeResponse | internal/protocol/device.go:119-123 | a body decoder fails exactly when it is not the heartbeat's and fewer than 2 bytes came (the Go index panic); the answer's kind matches the request's |
| Link.FrameParses | internal/protocol/device.go:78-106 | the frame sent is the request's header with Size = body length mod 2^16, followed by the body: a receiver parses exactly that header, and the body is what follows |
| Link.ReadFrameConsumes | internal/protocol/device.go:128-159 | a successful read consumed 8 header bytes that re-encode to the returned header, then exactly Size body bytes, and the function code is the request's |
| Link.ReadFrameMismatchLast | internal/protocol/device.go:139-153 | the function-code mismatch is reported only after the header and all Size body bytes were read and the body decoded; read and decode errors come first |
| Link.ReadFrameOfResponse | internal/protocol/device.go:128-159 | reading a well-formed response frame gives its header and decoded body and leaves what followed; with another function code it gives the mismatch error |
| Link.Device.constructor | internal/protocol/device.go:71 | a connected device with the 5-second default timeout and nothing sent yet |
| Link.Device.WriteRequest | internal/protocol/device.go:78-106 | exactly one socket write carrying the whole frame; the write's error is returned |
| Link.Device.ReadResponse | internal/protocol/device.go:128-159 | the read deadline is the request's timeout when non-zero and the default otherwise; the result and the bytes left are those of ReadFrame |
| Link.Device.Forward | internal/commands/reg_read_descr.go:186-191 | a raw register exchange: the request is logged and the oracle's answer for that exchange is returned |
| Link.HandshakeRequestFrame | internal/protocol/device.go:40-46 | the handshake text is "set>server=", the local host, ':', the port, then ';' |
| Link.HandshakeRequestParses | internal/protocol/device.go:40-46 | the datalogger can read back exactly the local host (up to the first ':' of the local address) and the port from the handshake text |
| Link.ReadToSemicolon | internal/protocol/device.go:54-58 | `ReadString(';')`: succeeds exactly when a ';' arrives, giving the text up to and including the first one; otherwise the stream's error |
| Link.CheckHandshakeReplyAccepts | internal/protocol/device.go:54-62 | the reply is accepted exactly when it holds a ';' and starts with "rsp>server="; otherwise the read error, or the unexpected-answer error |
| Descriptors.FirstWhere | internal/protocol/descriptor.go:176-180 | an ordered search: the first index whose element satisfies the test, or the length when none does |
| Descriptors.AllSegments | internal/protocol/descriptor.go:203-210 | every segment of every group is among the segments searched |
| Descriptors.FirstAtAddrNone | internal/protocol/descriptor.go:173-183 | no register is found exactly when no Root register has the address |
| Descriptors.FirstAtAddrIsFirst | internal/protocol/descriptor.go:173-183 | the register found is the first Root register with the address |
| Descriptors.Descriptor.FindRegisterByAddr | internal/protocol/descriptor.go:173-183 | a register found has the address asked for and is in Root |
| Descriptors.Descriptor.FindRegister | internal/protocol/descriptor.go:185-223 | the first Root register whose "base" title exists and equals the name, or none and then no segment; the segment is the first, SystemInfoVC then SystemSettingVC, that passes the code's test StartAddress ≥ Address and StartAddress + Length (mod 2^16) ≥ Address, or none when none passes |
| Descriptors.Descriptor.FindRegisterContaining | internal/protocol/descriptor.go:185-223 | the same register, with the first segment in the same order whose range holds its address |
| Descriptors.Descriptor.FindGroup | internal/protocol/descriptor.go:225-239 | the segments of the first group, SystemInfoVC first, whose "base" title (missing counts as "") equals the name; an empty list when no group matches |
| Descriptors.SegmentTestIsNotContainment | internal/protocol/descriptor.go:205 | a register at 100 picks a segment starting at 200 that does not hold it, over a segment 90..110 that does |
| Descriptors.CheckAddressing | internal/protocol/descriptor.go:161-170 | a descriptor is kept exactly when it parsed and its OffsetType is 0; otherwise the parse error, or the unsupported-addressing error |
| Descriptors.DecodeDevAddr | internal/protocol/descriptor.go:65-73 | the text with every leading and trailing '"' stripped is parsed as a decimal int, and the result is truncated to a byte; a parse error is returned |
| Descriptors.DecodeEnumVariant | internal/protocol/descriptor.go:77-85 | the stripped text parsed as a decimal int, or the parse error |
| Descriptors.DecodeScalars | internal/protocol/descriptor.go:65-85 | any int64, written bare or in quotes, decodes back to itself (a device address to itself mod 256) |
| Descriptors.TrimQuotesQuoted | internal/protocol/descriptor.go:67 | stripping the quotes of a quoted text gives the text |
| Descriptors.DecodeExternEnum | internal/protocol/descriptor.go:35-61 | a non-object gives an empty table; for an object, the decode succeeds exactly when every Base key is a decimal int; the table then maps each key's number to the key's name, and every entry comes from such a key |
| Descriptors.ParsedKeys | internal/protocol/descriptor.go:106-117 | each Base member's key parsed as an int, with its name, in document order |
| Descriptors.BuildVariants | internal/protocol/descriptor.go:106-117 | the variants map exists exactly when every key parsed |
| Descriptors.BuildVariantsLastWins | internal/protocol/descriptor.go:106-117 | every key is in the map, and each number carries the name of the last member whose key denotes it |
| Descriptors.DecodeEnumeration | internal/protocol/descriptor.go:106-128 | an object with parseable keys gives inline variants; otherwise a JSON string gives an external table name; otherwise an error |
| RegReadDescr.OrderOf | internal/commands/reg_read_descr.go:37-40 | little-endian exactly when ByteSort = 1 |
| RegReadDescr.RawFromOneWord | internal/commands/reg_read_descr.go:45-48 | length unset or 1: the raw value is the first word in the register's byte order, and two bytes are consumed |
| RegReadDescr.RawFromTwoWords | internal/commands/reg_read_descr.go:49-62 | length 2: raw = word0 OR word1 << 16 (little-endian host), and four bytes are consumed |
| RegReadDescr.RawFromOtherLength | internal/commands/reg_read_descr.go:63-65 | any other length: raw 0 and nothing consumed |
| RegReadDescr.RawFromShort | internal/commands/reg_read_descr.go:45-62 | too few bytes: a failed `binary.Read` drains the buffer and leaves its variable unchanged, so a one-word register reads 0, a two-word register given fewer than 2 bytes reads 0, and one given 2 or 3 bytes repeats the first word in the high half |
| RegReadDescr.RawFromRoundTrip | internal/commands/reg_read_descr.go:45-62 | one or two words written in the register's byte order decode back to the value, and what follows is left |
| RegReadDescr.RawFromVectors | internal/commands/reg_read_descr_test.go:9-38 | DE AD BE EF gives 0xBEEFDEAD big-endian and 0xEFBEADDE little-endian |
| RegReadDescr.EnumName | internal/commands/reg_read_descr.go:67-102 | an external table's entry, or an inline entry; a missing table or a missing entry gives the raw value in decimal |
| RegReadDescr.EnumFallbackReadsBack | internal/commands/reg_read_descr.go:75-98 | the decimal fallback text parses back to the raw value |
| RegReadDescr.Interpret | internal/commands/reg_read_descr.go:67-111 | tag precedence: an enumeration gives Enum; otherwise a scale within 0.0001 of 1 gives Int = raw; otherwise Float = raw × scale |
| RegReadDescr.RawFromConsumes | internal/commands/reg_read_descr.go:36-65 | decoding takes at most 4 bytes from the front, and takes none only from an empty buffer or for a length other than 1 and 2 |
| RegReadDescr.NewRegValueFromBytes | internal/commands/reg_read_descr.go:36-114 | the value (raw, tag, units = the register's units) and the buffer left are those of DecodeFrom |
| RegReadDescr.ReadDescrRequest | internal/commands/reg_read_descr.go:163-186 | the checks in order (no descriptor, no register or segment, ValueType ≠ 1, no device address) and otherwise a raw read with DevAddrs[0], the segment's FunNumber, the Address, and the length (1 when unset) |
| RegReadDescr.ReadDescr | internal/commands/reg_read_descr.go:163-199 | nothing is sent when a check fails; otherwise one raw read, whose error is returned unchanged, or whose bytes are decoded |
| RegWriteDescr.Trunc | internal/commands/reg_write_descr.go:65-67 | Go's int(x): truncation toward zero |
| RegWriteDescr.RawValue | internal/commands/reg_write_descr.go:63-69 | as written: int(Value) for an enumeration or when (Scale − 1) < 0.0001, which holds for every scale below one; int(Value / Scale) otherwise |
| RegWriteDescr.RawValueCorrected | internal/commands/reg_write_descr.go:63-69 | as intended: int(Value) for an enumeration or when Scale is within 0.0001 of 1 (the read's test), int(Value / Scale) otherwise |
| RegWriteDescr.Payload | internal/commands/reg_write_descr.go:61-71 | uint16(rawValue), 2 bytes in the register's byte order |
| RegWriteDescr.WriteDescrRequest | internal/commands/reg_write_descr.go:29-80 | the checks in order (no descriptor, no register or segment, ValueType ≠ 1, effective length ≠ 1) and otherwise a raw write with DevAddrs[0], WriteOneFunCode, the Address, and the payload of the raw value as the code computes it (RawValue, the test as written) |
| RegWriteDescr.WriteDescr | internal/commands/reg_write_descr.go:29-83 | nothing is sent when a check fails; otherwise that one raw write, whose error or data is returned |
| RegWriteDescr.ReadBackRaw | internal/commands/reg_write_descr.go:71 | reading back a written payload gives uint16(raw), tagged as a read would tag it, and consumes it all |
| RegWriteDescr.WriteReadIntRoundTrip | internal/commands/reg_write_descr.go:63-71 | with a scale of one, the raw value the code computes for a whole value in 0..65535 reads back as that integer |
| RegWriteDescr.RawValueOfMultiple | internal/commands/reg_write_descr.go:67 | with a scale away from one, writing k × scale gives raw k |
| RegWriteDescr.WriteReadScaledRoundTrip | internal/commands/reg_write_descr.go:63-71 | with the corrected test, writing k × scale (0 ≤ k < 65536) reads back as k × scale, on either side of one |
| RegWriteDescr.WriteScaleBelowOne | internal/commands/reg_write_descr.go:65 | as written, with scale 0.1, writing 5.0 sends 5 and reads back 0.5; the corrected test sends 50 and reads back 5.0 |
| RegWriteDescr.RawValueAgrees | internal/commands/reg_write_descr.go:63-69 | for an enumeration or a scale above 0.9999 the test as written and the corrected test give the same raw value |
| RegWriteDescr.WriteCommandScaledRoundTrip | internal/commands/reg_write_descr.go:29-83 | the command on a plain one-word register of scale at least 1.0001: writing k × scale (0 ≤ k < 65536) sends the payload of k, which reads back as k × scale |
| RegWriteDescr.WriteCommandScaleBelowOne | internal/commands/reg_write_descr.go:29-83 | the command as written on a plain one-word register of scale 0.1: asked to write 5.0 it sends the payload of 5, which reads back as 0.5 |
| RegReadSeg.ContinuousWalkStep | internal/commands/reg_read_seg.go:61-80 | one round: the register at the address is decoded from the front of the buffer and stored; the walk stops when the buffer is empty, else moves on by the register's length (1 when unset) |
| RegReadSeg.ContinuousWalkShape | internal/commands/reg_read_seg.go:61-80 | the walk hangs only at an address with no register; it keeps the values it started with; every key it adds has a register; the start address is stored when it has a register |
| RegReadSeg.DecoderConsumes | internal/commands/reg_read_descr.go:36-65 | for one- and two-word registers, the register decoder never grows the buffer and shrinks a non-empty one |
| RegReadSeg.ConsumingWalkEnds | internal/commands/reg_read_seg.go:61-80 | with such a decoder and registers of length 1 or 2, the walk ends or hangs within as many rounds as there are bytes |
| RegReadSeg.ContinuousWalkEnds | internal/commands/reg_read_seg.go:61-80 | hence, when every register is 1 or 2 words long, the continuous walk ends or hangs within as many rounds as there are bytes |
| RegReadSeg.StartsPartition | internal/commands/reg_read_seg.go:61-80 | the registers of a tiling of n words (each 1 or 2 words long, each starting where the one before ends) begin at the first address, lie inside the n words, follow one another without gap, and do not overlap |
| RegReadSeg.DecoderTakesItsWords | internal/commands/reg_read_descr.go:36-56 | a register of one or two words takes exactly its own 2 or 4 bytes from the buffer |
| RegReadSeg.DecodeOwnWords | internal/commands/reg_read_descr.go:36-56 | the value of a register of one or two words depends on its own 2 or 4 bytes only |
| RegReadSeg.FilledKeys | internal/commands/reg_read_seg.go:61-80 | storing the registers of a tiling adds exactly its start addresses as keys and changes no value at any other key |
| RegReadSeg.FilledAt | internal/commands/reg_read_seg.go:61-80 | each start address of a tiling holds its register, decoded from the bytes after the words of the registers before it |
| RegReadSeg.ContinuousWalkLast | internal/commands/reg_read_seg.go:61-80 | a register whose words are all the bytes left is stored and the loop ends |
| RegReadSeg.ContinuousWalkOn | internal/commands/reg_read_seg.go:61-80 | a register with bytes left after its words is stored and the loop goes on at the address after it, with the bytes after its words |
| RegReadSeg.ContinuousWalkTilesRun | internal/commands/reg_read_seg.go:61-80 | when the decoder cuts the answer at the registers of a tiling, the loop ends Done with that tiling stored |
| RegReadSeg.TiledWalk | internal/commands/reg_read_seg.go:61-80 | for a decoder that takes exactly each register's own words, the loop over a tiling ends Done; its keys are the old keys and the start addresses; other values are unchanged; each start holds its register decoded from the bytes after the registers before it |
| RegReadSeg.ContinuousWalkTiles | internal/commands/reg_read_seg.go:42-80 | a segment answer of 2n bytes over registers of one or two words that tile its n words ends Done, with each register's start address holding that register decoded from its own 2 or 4 bytes, no other key added and no other value changed |
| RegReadSeg.CutRegisters | internal/commands/reg_read_seg.go:59-80 | the loop over the buffer gives exactly the ContinuousWalk of the answer |
| RegReadSeg.HandleContinuous | internal/commands/reg_read_seg.go:42-83 | an empty DevAddrs panics and sends nothing; otherwise exactly one raw read (DevAddrs[0], FunNumber, StartAddress, Length) is logged; its error is returned, else Ok of the ContinuousWalk of its answer from StartAddress |
| RegReadSeg.SparseWalkNoRegister | internal/commands/reg_read_seg.go:94-98 | at an address with no register the sparse walk hangs and issues nothing |
| RegReadSeg.SparseWalkRetry | internal/commands/reg_read_seg.go:106-110 | a failed raw read is followed by the same walk from the same address, one exchange later |
| RegReadSeg.SparseWalkAdvance | internal/commands/reg_read_seg.go:112-121 | a successful read stores the decoded value and moves by the length; the walk stops once the address reaches StartAddress + Length (mod 2^16) |
| RegReadSeg.SparseWalkRequests | internal/commands/reg_read_seg.go:99-106 | every raw read reads one register alone, at its own address, sized to its length, with DevAddrs[0] and FunNumber |
| RegReadSeg.SparseWalkFirst | internal/commands/reg_read_seg.go:91-106 | the first raw read is the register at the start address |
| RegReadSeg.SparseWalkRetries | internal/commands/reg_read_seg.go:106-110 | a failed raw read is always followed by the very same request: failures are retried and never returned |
| RegReadSeg.SparseWalkKeys | internal/commands/reg_read_seg.go:93-122 | the sparse walk hangs only where no register is; each key stored has a register and is the start or below the segment's end |
| RegReadSeg.ReadOne | internal/commands/reg_read_seg.go:104-114 | one raw read, decoded against the register, or its error |
| RegReadSeg.ReadRegisters | internal/commands/reg_read_seg.go:93-122 | the loop's outcome and the requests it issues are those of SparseWalk |
| RegReadSeg.HandleSparse | internal/commands/reg_read_seg.go:85-125 | an empty DevAddrs panics and sends nothing; otherwise Ok of the SparseWalk from StartAddress with DevAddrs[0], whose requests are exactly those logged: never an error once begun |
| RegReadSeg.ReadSegment | internal/commands/reg_read_seg.go:26-40 | no descriptor or no segment is an error; CanEdit gives exactly HandleSparse's outcome (the SparseWalk result and requests), otherwise exactly HandleContinuous's (one raw read, then its error or the ContinuousWalk of its answer); an error after the checks is only the continuous walk's raw read |
| DeviceInfo.KnownIsInfoPar | internal/commands/info.go:37-39 | the codes the command knows are exactly the 13 it asks for |
| DeviceInfo.Field | internal/commands/info.go:57-86 | each known code names one field |
| DeviceInfo.FieldsDetermineInfo | internal/commands/info.go:12-26 | the 13 fields make up the whole result: two results agreeing on every known code are equal |
| DeviceInfo.ApplyPar | internal/commands/info.go:57-86 | a known code sets its own field to the data and leaves every other field; an unknown code fails |
| DeviceInfo.ReadInfoFrom | internal/commands/info.go:48-87 | an error is an unknown code, or a read failure joined with "failed to read param i" |
| DeviceInfo.ReadAnswers | internal/commands/info.go:48-89 | the loop's result and the bytes it leaves are those of ReadInfoFrom from answer 0 with empty fields |
| DeviceInfo.Handle | internal/commands/info.go:36-90 | one query frame listing 1, 2, 5, 6, 7, 11, 12, 48, 3, 4, 14, 34, 41; a write error is returned with nothing read; otherwise ReadInfoFrom |
| DeviceInfo.ReadInfoOfAnswers | internal/commands/info.go:48-87 | 13 well-formed answer frames in a row are read as Collect of the answers, and what follows is left |
| DeviceInfo.CollectLastWins | internal/commands/info.go:57-86 | the command succeeds exactly when every answer's code is known; each field then holds the data of the last answer for its code, or "" when none came |
| Client.BackoffSchedule | internal/client/client.go:199-210 | the waits are 2, 4, …, 256, 512 seconds, then 512 for ever |
| Client.Backoffs | internal/client/client.go:199-215 | one wait per attempt |
| Client.TeardownKinds | internal/client/client.go:181-195 | a heartbeat error that tears down would also tear down a command; the two differ exactly on a timeout; no error and ErrUnexpectedEOF keep the link |
| Client.JoinedTeardown | internal/client/client.go:181-187 | a joined error counts as EOF/EPIPE exactly when its cause is a broken pipe |
| Client.DescriptorPathOf | internal/client/client.go:140-147 | the protocol name is DeviceProps up to its first comma, and the path is ProtoPath/name.json |
| Client.KeptDescriptor | internal/client/client.go:149-159 | the descriptor kept is the loaded one when loading and the check succeed, and nil otherwise |
| Client.FirstTearDown | internal/client/client.go:218-248 | the first event that tears the link down, or the number of events |
| Client.QuietHeartbeats | internal/client/client.go:232-246 | heartbeats that fail without EOF/EPIPE keep the link and reach no caller |
| Client.ClientTask.constructor | internal/client/client.go:49-83 | a disconnected task, with no descriptor and no attempt made |
| Client.ClientTask.ReadDeviceInfo | internal/client/client.go:123-133 | a fresh device for the peer, and the device-information result |
| Client.ClientTask.Connect | internal/client/client.go:120-168 | a dial error or an info error is returned with the state unchanged; on success the link is kept, isConnected is set, and the descriptor is the one loaded from the derived path (nil when loading failed) |
| Client.ClientTask.ConnectWithBackoff | internal/client/client.go:198-215 | sleeps 2, 4, … seconds before each attempt, the first included; stops at the first success; every earlier attempt failed |
| Client.ClientTask.Serve | internal/client/client.go:217-253 | events are handled until the first teardown (a command with EOF/EPIPE or a timeout, a heartbeat with EOF/EPIPE); every command's error is delivered, heartbeats are not; on teardown conn is nil and isConnected false; the descriptor is untouched |
| Client.FirstTearDownAt | internal/client/client.go:218-248 | the first teardown is the first one found scanning in order |
| Cli.Symbols | cmd/openess/cli.go:27-48 | what each character of the line contributes: a quote toggles quoting and is dropped, a newline is dropped, an unquoted space separates; no kept character is a quote or a newline |
| Cli.NonEmpty | cmd/openess/cli.go:39-52 | only non-empty pieces become tokens |
| Cli.WordsBreak | cmd/openess/cli.go:39-46 | a separator splits the tokens in two |
| Cli.TokensClean | cmd/openess/cli.go:27-52 | every token is non-empty and holds no quote and no newline |
| Cli.TokensWithoutQuotes | cmd/openess/cli.go:27-52 | a line without quotes gives its space-separated fields, newlines removed, empty pieces dropped |
| Cli.FieldsSpace | cmd/openess/cli.go:39-46 | runs of spaces give no empty tokens: the fields of a + " " + b are those of a then b |
| Cli.QuotedJoin | cmd/openess/cli.go:27-48 | a"b"c is one token abc, with the spaces of b kept |
| Cli.OpenQuote | cmd/openess/cli.go:39-52 | an unterminated quote runs to the end of the line |
| Cli.ReadString | cmd/openess/cli.go:18-21 | `ReadString('\n')`: succeeds exactly when a newline comes, giving the text up to and including the first one; otherwise EOF |
| Cli.Consume | cmd/openess/cli.go:27-48 | one character of the loop keeps the scan's invariant |
| Cli.ReadLine | cmd/openess/cli.go:17-55 | an error exactly when the input has no newline; otherwise the tokens of the line |
| Arguments.LevelOf | cmd/openess/args.go:55-68 | off, warn, info, debug map to LOG_OFF, LOG_ERROR, LOG_INFO, LOG_DEBUG; any other value has no level |
| Arguments.Step | cmd/openess/args.go:39-80 | an ended process stays ended, and nothing turns interactive mode back on |
| Arguments.RunAppend | cmd/openess/args.go:39-81 | the arguments are read in order, one after another |
| Arguments.RunExited | cmd/openess/args.go:46-77 | after os.Exit, later arguments do nothing |
| Arguments.NoArguments | cmd/openess/args.go:30-35 | the defaults: LOG_INFO, no device address, data/config.json, interactive |
| Arguments.HelpExits | cmd/openess/args.go:44-46 | -h or --help anywhere exits with 0, unless the process already ended |
| Arguments.BackgroundAnywhere | cmd/openess/args.go:41-43 | -b or --background anywhere makes the run non-interactive |
| Arguments.BackgroundKeepsKey | cmd/openess/args.go:40-52 | a flag between a key and its value does not consume the key |
| Arguments.Pair | cmd/openess/args.go:49-80 | a key and a value set the option the key names; a bad level, or an unknown key once a value follows it, exits with 1 |
| Arguments.LaterPairWins | cmd/openess/args.go:71-80 | for any key, once a first pair is accepted, a later pair with the same key overrides it (the later value, or the later bad level's exit) |
| Arguments.TrailingKeyIgnored | cmd/openess/args.go:49-52 | a key left without a value at the end is ignored |
| Arguments.ParseArgs | cmd/openess/args.go:29-84 | the loop's outcome is Parse of the arguments, args[0] skipped |

## Left out

- Sockets, the listener, `Accept`, `SetDeadline`, and `Device.Close`. They are network I/O. The handshake keeps only its text and the reply test, and `Connect` as a whole is the client task's `dial` input.
- The body-encoding error branch of `WriteRequest` (device.go:79-82) cannot be taken, because no body encoder fails (`Messages.EncodeRequest`). The header's write errors into a `bytes.Buffer` cannot happen either.
- `NewHeartBeatReq`, `NewQueryCollectorReq` and `NewSetCollectorReq` are plain constructors of request values. They carry no contract of their own; their constants appear in the functions of the same names.
- The forwarded raw requests (`NewRegReadRaw`, `NewRegWriteRaw`, the forward message encoders) are not part of this model. They are the oracle `Device.forwardAnswer`, indexed by the exchange number.
- Floating point: the scale is a `real`. The float32 rounding of `float32(raw) * scale`, of `Value / Scale`, and of the 0.0001 tests is not modelled. Neither is the `%.3f` formatting of `ToString` and `ToStringRaw`.
- RegWriteDescr.RawValueCorrected: the Go code divides by a zero scale in float32, which gives an infinity whose int conversion Go leaves to the platform. The model keeps a zero scale on the undivided path, as the test as written does.
- The big-endian-host branch of `NewRegValueFromBytes` (reg_read_descr.go:58-60) is not modelled; the model assumes a little-endian host.
- `LoadProtocolDescriptor`'s file reading and JSON decoding, and `LoadConfig`, are left out; only the OffsetType check follows them. A JSON `null` inside Base is an absent name (`None`).
- Descriptors.DecodeExternEnum: does not model the panic on empty input (`data[0]`), because encoding/json never hands an empty value to a decoder.
- Descriptors.DecodeExternEnum: Go visits map keys in an unspecified order, so which bad key is reported is left open, as is which name wins when two keys denote the same number.
- RegReadSeg: the continuous and sparse walks carry a fuel count. A walk that would go on for ever otherwise ends `OutOfFuel`: a register length that consumes nothing, or raw reads that keep failing. An address with no register is `Hangs`.
- Client.ClientTask.ConnectWithBackoff: carries a fuel count of attempts, where the Go loop retries for ever.
- Client.ClientTask: the device-information exchange is the constant `exchange`, which `Valid()` ties to the DeviceInfo command. Dialing is the input `dial(k)` for the k-th attempt.
- Client.ClientTask.Connect: the connection left open when the device-information command fails is not modelled.
- Concurrency is left out: goroutines, channels, `sync.Mutex`, `sync.Cond`, `time.After`, `SendCommand`, `WaitConnection`, `IsConnected`, `GetDescriptor`. Each handled command or heartbeat is an input event with its error, and each sleep is recorded as a number of seconds.
- Logging (internal/log/log.go) is a no-op; only its level constants are used.
- Cli.ReadLine: takes the input as a string, one character per byte, in place of a `bufio.Reader`. The rest is what a later call would read.
- Arguments.ParseArgs: requires at least one argument, because Go's os.Args always holds the program name. The help text and the messages printed to stderr before exiting are not modelled.
- `InteractiveMain`'s command dispatch, the daemon, the collector's polling loop, the MQTT exporter, and the thin command wrappers (reg_read_addr.go, reg_write_addr.go, ping.go, parameter.go, command.go) are not part of this model.

## Findings

| source | as written | input that shows it | evidently intended | confidence | as-written member | corrected member |
|---|---|---|---|---|---|---|
| internal/commands/reg_write_descr.go:65 | `(Scale - 1.0) < 0.0001` has no absolute value, so every scale below one skips the division | scale 0.1, value 5.0: raw 5 is sent and reads back as 0.5 | the read's test \|Scale − 1\| < 0.0001, which sends 50 and reads back 5.0 | not executed | RegWriteDescr.WriteCommandScaleBelowOne | RegWriteDescr.WriteReadScaledRoundTrip |
| internal/protocol/descriptor.go:205 | `StartAddress >= Address && StartAddress+Length >= Address` picks segments at or above the register | register at 100, segments 200..210 then 90..110: the first is chosen | the first segment whose range holds the register | not executed | Descriptors.SegmentTestIsNotContainment | Descriptors.Descriptor.FindRegisterContaining |

The write command itself follows the code as written: `WriteDescrRequest`
sends the payload of `RawValue`. `RawValueCorrected` states the evidently
intended rule, and `WriteReadScaledRoundTrip` proves its round trip on both
sides of one. `RawValueAgrees` shows that the two rules agree for an
enumeration or a scale above 0.9999. With that, `WriteCommandScaledRoundTrip`
proves the round trip of the command as written for scales of at least
1.0001.
