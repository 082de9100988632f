# JT/T 808 terminal server: a verified model

The repository holds two implementations of a server for vehicle terminals that speak
JT/T 808: `core/` with `protocol/`, and `jt808/`. This project models both in Dafny, from the
bytes on the socket to the tables behind the handlers, and proves what they guarantee and,
where they do not guarantee what one would expect, exactly when they do.

`dafny verify dfyconfig.toml` checks everything.

## Modules

| layer | modules |
|---|---|
| bytes | `Bits` (the bitwise operators), `Bytes` (integers, slices), `Stuffing`, `Checksum`, `Bcd` |
| messages | `FrameCodec` (protocol/codec.py), `MessageCodec` (jt808/protocol.py) |
| streams | `Assembly` and `Connection` (core/connection.py), `Extraction` (jt808/protocol.py), `Streams` (whole streams) |
| bodies | `Items`, `Location`, `Location808`, `LocationAgreement`, `Params` |
| connections | `Registry` (core/server.py under interleaving), `Handler` (core/handler.py) |
| sessions | `Session` (jt808/handlers.py, jt808/api.py), `SessionHistory`, `SessionAuth`, `SessionReplies`, `SessionLogs`, `SessionOnline`, `Interleaving` and `Receiver` (jt808/server.py) |

Code that the source writes as loops over mutable state is a method or a class here and is
proved against a function; the theorems are about those functions. Every message handler and
every request is one atomic step, because the source has no await inside; the registry's
coroutines are cut at every await.

## Main results

- **Streams.** `feed` is a two-state automaton over bytes, so cutting the stream into other
  chunks changes nothing, and building, concatenating with noise, empty flag pairs and damaged
  frames in between, cutting and feeding returns exactly the messages sent.
- **The flag conventions differ.** `feed` consumes a closing flag, `extract_frames` keeps it as
  the next opening flag. On frames with flags of their own, which is what the builder of
  `jt808/protocol.py` writes, `extract_frames` delivers the first frame of a connection and no
  other; on frames that share flags `feed` delivers every second one. Each is right exactly
  when there is at most one frame.
- **Two codecs, one format.** Both builders write the same bytes; the first parser accepts
  exactly the payloads that the second parses and whose declared body is present.
- **Two location parsers.** Both are last-wins: the first over the items long enough for a
  field, the second over those of exactly its length. On every body they agree exactly when
  the time is valid, the bytes do not break off in an item that the second one recognises, and
  the last long-enough item of each field begins with the last one of exact length.
- **Registry.** Over every interleaving of any number of connections an entry leads to an open
  connection that carries its phone, provided all frames carry real phones. In general the
  registry stays safe exactly as long as no handler writes a phone over that of a registered
  connection, which a registration with the all-zero phone can do. A newer connection that
  goes on working keeps its entry while older ones change phones and tear down.
- **The other connection table** has no such safety: after a run a phone leads to the
  connection of the last event that concerned it, so a teardown evicts another connection
  exactly when that one received the phone last, and leaves an entry of its own exactly when
  it received another phone that nothing concerned since.
- **What goes over the wire** is pinned byte by byte: the layout of headers, every answer of
  both servers, the body of every parameter request, and which padded codes authenticate.
- **Serials and acknowledgements.** Replies and commands of a phone draw 1, 2, 3, ... modulo
  65536 from the start of the process, whatever the tables hold. Every acknowledgement flips
  the row of the latest draw of its serial and no other, whatever the database picks, exactly
  when the phone's pending rows all belong to its last 65536 draws.
- **Authentication.** A terminal is authenticated after a run exactly when some 0x0102 of the
  run carried the code that was current on its arrival and no registration succeeded since, or
  it was authenticated before and no registration succeeded at all.
- **Connection loop.** However a connection's bytes are chunked, and whatever other
  connections and requests do at its awaits, `handle_connection` dispatches the readable
  payloads of the whole stream in order; of messages that the builder framed one by one these
  are only the first.

Where the code and its own words disagree the model follows the code: a header has 12 bytes
although `encode_header` speaks of 13 (jt808/protocol.py:230); coordinates are signed by
status bits 2 and 3 in protocol/parser.py and by 4 and 5 in jt808/protocol.py;
`build_server_time_response` promises BCD and writes plain bytes (protocol/builder.py:44-48);
`ConnectionManager` serials are never used, the counters in use are those of `_srv_serial`;
the repository's README promises full framing, which `extract_frames` gives to streams with shared flags only.

## Model

| member | source | states |
|---|---|---|
| Bits.Masks | protocol/codec.py:115-116 | The masks and shifts of the headers and of the serial wrap are remainders and quotients by powers of two, for the bitwise operators defined digit by digit |
| Bits.OrDisjoint | jt808/protocol.py:231-234 | Fields that do not overlap are combined by `\|` as by addition |
| Bits.XorAssociates | protocol/codec.py:44-48 | Bitwise XOR is associative, so the order in which the check code is folded does not matter |
| Bytes.Find | core/connection.py:82 | The first index of a byte from a position on, or -1 exactly when it does not occur there |
| Bytes.DWordRoundTrip | jt808/protocol.py:418 | A packed 32-bit integer is read back from wherever it stands in a buffer |
| Stuffing.EscapeBytes | protocol/codec.py:73-83 | The loop computes the stuffing function |
| Stuffing.UnescapeBytes | protocol/codec.py:51-70 | The loop computes the decoding function, with its pass-through of unknown and trailing escapes |
| Stuffing.StuffingCodes | protocol/codec.py:73-83 | 0x7E travels as 7D 02, 0x7D as 7D 01, every other byte as itself, in front of any data |
| Stuffing.DecodingCodes | protocol/codec.py:51-70 | 7D 02 and 7D 01 decode to these bytes; 7D before any other byte is kept with it, and so is 7D at the end |
| Stuffing.EscapeConcat | jt808/protocol.py:119-129 | Stuffing distributes over concatenation |
| Stuffing.EscapeOutput | protocol/codec.py:73-83 | The output has no flag, and one more byte for every special byte |
| Stuffing.UnescapeEscape | jt808/protocol.py:132-149 | Stuffed data in front of anything is decoded on its own |
| Stuffing.EscapeInjective | protocol/codec.py:73-83 | Different data are stuffed differently |
| Stuffing.StuffedLanguage | protocol/codec.py:51-83 | Decoding and stuffing again is the identity exactly on the flag-free strings in which every escape is followed by 01 or 02, and these are exactly the outputs of stuffing |
| Checksum.XorChecksum | protocol/codec.py:44-48 | The loop computes the XOR of all bytes |
| Checksum.FoldConcat | jt808/protocol.py:154-159 | The check code of a concatenation is the XOR of the check codes |
| Checksum.ChecksIffFoldsToZero | jt808/protocol.py:298-301 | A payload passes the receivers' check exactly when all its bytes fold to zero |
| Checksum.SealChecks | jt808/protocol.py:195-199 | Whatever is framed passes the check |
| Checksum.SingleByteErrorDetected | protocol/codec.py:109-111 | A payload that differs from a passing one in exactly one byte fails |
| Bcd.PhoneRoundTrip | protocol/codec.py:33-41 | A phone of at most 12 hexadecimal digits decodes to itself padded to 12, in the decoder's case; the encoders of both implementations agree |
| Bcd.FieldRoundTrip | jt808/protocol.py:164-172 | Every six-byte field survives decoding and encoding, in both implementations |
| Bcd.ZFillPads | protocol/codec.py:35 | Padding puts zeros on the left and keeps every digit |
| Bcd.DecodeDigits | protocol/codec.py:39-41 | Every byte is printed as its two hexadecimal digits, high before low, lower case in one implementation and upper case in the other |
| Bcd.LongPhone | protocol/codec.py:33-36 | Beyond twelve digits the first encoder cuts after the twelfth, the second keeps all, an odd last digit in a byte of its own |
| Bcd.TimeRoundTrip | jt808/protocol.py:175-190 | An encoded time decodes to the same time in 2000-2099, hence to itself exactly for those years, leap days included |
| Bcd.TimeFieldRoundTrip | jt808/protocol.py:175-190 | A field that decodes is the encoding of what it decodes to |
| Bcd.DecodableField | jt808/protocol.py:175-184 | A field decodes exactly when its six bytes are decimal and name a moment of 2000-2099, in the order year, month, day, hour, minute, second, by the calendar with its leap days |
| FrameCodec.PropsAreBitFields | protocol/codec.py:115-116 | Body length and sub-packet flag are the masked bits of the property word |
| FrameCodec.HeaderFields | protocol/codec.py:149-155 | Identifier, properties, phone and serial lie at offsets 0, 2, 4 and 10, whatever follows |
| FrameCodec.ParseBuilt | protocol/codec.py:145-158 | A built frame parses to its arguments with the first len mod 1024 bytes of the body, and its segment has no flag |
| FrameCodec.BodyFits | protocol/codec.py:101-158 | A built frame is recovered whole exactly when its body is shorter than 1024 bytes |
| MessageCodec.PropsArePacked | jt808/protocol.py:229-234 | The property word is what masking, shifting and or-ing length, encryption and sub-packet bit give |
| MessageCodec.PropsAreUnpacked | jt808/protocol.py:252-255 | Encryption and sub-packet bit are the bits that the decoder tests |
| MessageCodec.HeaderLayout | jt808/protocol.py:229-244 | Byte by byte: identifier, properties, phone, serial, then packet total and number, most significant byte first |
| MessageCodec.HeaderRoundTrip | jt808/protocol.py:229-277 | Decoding an encoded header recovers every field, the length modulo 1024, the encryption modulo 8, the packet fields as 0 when absent, and the offset after the header |
| MessageCodec.HeaderExact | jt808/protocol.py:229-277 | A header is recovered unchanged exactly when its fields fit and it is in the decoder's normal form |
| MessageCodec.MessageRoundTrip | jt808/protocol.py:195-199 | A framed message parses to its header and its whole body, of any size |
| MessageCodec.BuildersAgree | jt808/protocol.py:282-287 | Both implementations write the same bytes for the same message |
| MessageCodec.FirstParserAccepts | protocol/codec.py:101-130 | `parse_frame` accepts exactly what `parse_message` parses and whose declared body is present |
| MessageCodec.ParsersAgree | jt808/protocol.py:290-305 | On those payloads all header fields agree, the first body is a prefix of the second followed by the check code, and the bodies are equal exactly when the declared length is |
| MessageCodec.ParseRaises | jt808/protocol.py:263-264 | `parse_message` raises exactly on passing payloads of 13 to 15 bytes with the sub-packet bit |
| MessageCodec.CorruptionRejected | jt808/protocol.py:295-301 | One corrupted byte in an accepted payload makes both parsers reject it |
| MessageCodec.ParsedPhone | jt808/protocol.py:257-258 | A parsed phone is twelve upper-case digits and encodes to the bytes received |
| Assembly.ScanConcat | core/connection.py:77-123 | The automaton can be run in pieces from any state |
| Assembly.ScanKeepsShape | core/connection.py:87-103 | Buffers stand for states: after any data the buffer is empty or holds one flag, at index 0 |
| Assembly.JoinSplit | core/connection.py:81-103 | Cutting a stream at its flags loses nothing and leaves flag-free segments |
| Assembly.ScanSegments | core/connection.py:80-123 | A fresh connection delivers exactly the non-empty closed segments of odd index, and ends outside or inside by the parity of the last |
| Connection.TerminalConnection.NextSerial | core/connection.py:42-44 | The counter advances by one modulo 65536 |
| Connection.TerminalConnection.SendFrame | core/connection.py:48-53 | The bytes written are the built frame under the connection's own phone, or under twelve zeros while it has none, and the next serial |
| Connection.TerminalConnection.Feed | core/connection.py:72-123 | The buffer and the frames returned are those of the automaton continued from the old buffer |
| Connection.TerminalConnection.FeedAll | core/server.py:71-87 | The frames of all chunks, from any reachable buffer, are those of their concatenation |
| Streams.StreamIdentity | core/connection.py:72-123 | Of messages interleaved with noise, empty pairs and damaged frames exactly the messages are delivered, in order |
| Streams.Transmit | core/connection.py:72-123 | End to end: however that stream is cut, a fresh connection returns exactly the messages |
| Streams.FeedSeparate | core/connection.py:101-103 | Segments with flags of their own are all delivered by `feed` |
| Streams.FeedShared | core/connection.py:101-103 | Of segments with shared flags `feed` delivers every second, so all of them exactly when there is at most one |
| Extraction.ExtractFrames | jt808/protocol.py:202-224 | The loop returns the payloads and the leftover of its automaton, for every buffer |
| Extraction.Continue | jt808/server.py:43-44 | The leftover buffer carries the whole state: continuing from it redelivers and loses nothing |
| Extraction.ScanSegments | jt808/protocol.py:209-224 | The delivered segments and the leftover in terms of the stream cut at its flags: an empty open segment closes without opening the next, and the last segment is left, behind a flag exactly if one is open |
| Extraction.ReceiveAll | jt808/server.py:43-46 | Threading the leftover through any chunks delivers the payloads of their concatenation, from every reachable leftover |
| Streams.ExtractShared | jt808/protocol.py:217-223 | Segments with shared flags are all delivered in order, and one flag is left |
| Streams.ExtractSeparate | jt808/protocol.py:217-221 | Of segments with flags of their own only the first is delivered, so all of them exactly when there is at most one |
| Streams.ReceiveBuilt | jt808/protocol.py:195-224 | Of messages written by the same module's builder the receive loop returns the first only, however they are cut |
| Items.CompleteEncode | protocol/parser.py:115-124 | The complete items and the truncated rest are read back from their encoding |
| Items.EncodeComplete | protocol/parser.py:115-124 | Every body is the encoding of its complete items followed by a truncated rest |
| Items.LastMeaning | protocol/parser.py:125-145 | The last item of an id with enough bytes, characterised by position |
| Location.ParseLocationReport | protocol/parser.py:68-149 | The parser returns the fold of the complete items over the fixed part, and fails exactly below 28 bytes |
| Location.FixedPart | protocol/parser.py:86-112 | The offset of every fixed field; status bit 2 makes the latitude negative and bit 3 the longitude; an invalid time is replaced by the clock's |
| Location.ApplyItem | protocol/parser.py:124-145 | The branches for one item set the fields of the fold's step |
| Location.FoldIsLastWins | protocol/parser.py:124-147 | The fold is the only report whose fixed part is unchanged, whose fields hold the last long-enough item and whose dictionary holds the last item of every id |
| Location.ParseEncoded | protocol/parser.py:121-122 | On encoded items the parser sees exactly those items; a truncated last one is ignored |
| Location.ItemOrderIrrelevant | protocol/parser.py:114-149 | Reordering or repeating items whose ids identify them changes nothing |
| Location.UnknownItemsIgnored | protocol/parser.py:124-145 | Unknown items, wherever they stand, leave every typed field alone |
| Location808.ParseLocationReport808 | jt808/protocol.py:310-370 | The method with its loop computes the specification that the following rows characterise, failures included |
| Location808.FixedPart808 | jt808/protocol.py:310-327 | The offset of every fixed field; status bit 4 makes the latitude negative and bit 5 the longitude |
| Location808.Run808Fails | jt808/protocol.py:331-358 | Its loop fails exactly on a truncated last item that it recognises, unless that is 0xEE with both bytes present |
| Location808.RunIsLastWins | jt808/protocol.py:331-358 | The loop succeeds exactly when the bytes do not break off in a recognised item, and then with the only record in which each of the eleven fields holds the last item of its id and exact length; the 0xEE pair also reads a truncated last item that has both bytes |
| Location808.ItemOrderIrrelevant808 | jt808/protocol.py:331-358 | For the second parser too, reordering or repeating items whose ids identify them changes nothing |
| Location808.Refused808 | jt808/protocol.py:310-358 | A body is refused exactly when it is too short, its time is invalid or it breaks off in a recognised item |
| LocationAgreement.ItemAgreement | jt808/protocol.py:337-358 | Parsers that agree go on agreeing after a complete item exactly unless it is overlong and brings a new value |
| LocationAgreement.ItemDisagreement | protocol/parser.py:127-142 | An overlong item never reaches the second parser, whatever it holds; the first reads its prefix |
| LocationAgreement.LocationParsersAgree | protocol/parser.py:114-147 | On every body: both accept and read the same mileage, fuel, speed, signal, satellites and 0xEE bytes exactly if the time is valid, the bytes do not break off in a recognised item, the last long-enough item of each field begins with the last of exact length, and a truncated 0xEE item repeats the last complete one |
| LocationAgreement.FixedPartsAgree | jt808/protocol.py:312-332 | Whenever both accept, the fixed parts are equal; each coordinate agrees exactly when its two sign bits do or it is 0 |
| LocationAgreement.CanonicalIsCovered | protocol/parser.py:127-142 | Items of canonical length, and no truncated 0xEE item, satisfy that condition |
| LocationAgreement.SingleOverlongItem | jt808/protocol.py:337-354 | A body with one overlong item is accepted by both parsers and read differently |
| Params.BuildSetParams | jt808/protocol.py:412-419 | The loop writes the count and every entry |
| Params.BuildQueryParams | jt808/protocol.py:422-429 | The loop writes the count and every identifier, and fails exactly on more than 255 or one outside 32 bits |
| Params.QueryBodyLists | jt808/protocol.py:426-428 | The query body is one byte of count and the identifiers as 32-bit words, in order |
| Params.ParseParamsResponse | jt808/handlers.py:263-272 | The loop ends on every body and computes the reading function |
| Params.Decompose | jt808/handlers.py:267-272 | Every body is a list of complete entries followed by a truncated rest |
| Params.ReadBody | jt808/handlers.py:264-272 | From any body: three bytes are skipped whatever the count says, the entries are taken in order, and a truncated last one counts with the bytes that are there |
| Params.LastStands | jt808/handlers.py:271 | Of an identifier that occurs more than once the last value stands |
| Params.SetParamsRoundTrip | jt808/handlers.py:263-272 | Any serial in front of the body of a set message reads back as exactly the dictionary sent |
| Params.SetParamsOverTheWire | jt808/protocol.py:412-419 | The same through framing and parsing, for bodies of any size |
| Registry.ConnectionRegistry.Add | core/server.py:25-28 | The connection's phone, if any, leads to it afterwards; nothing else changes |
| Registry.ConnectionRegistry.Remove | core/server.py:30-34 | The entry under the connection's phone goes exactly when it is the connection's own |
| Registry.ConnectionRegistry.Get | core/server.py:36-37 | The connection registered under a phone, if any |
| Registry.StepKeepsOthers | core/server.py:25-34 | An event of one connection leaves the entries of all others, except the one under its own phone that it takes over |
| Registry.TeardownKeepsOthers | core/server.py:112-116 | Teardown and phone change evict nobody else |
| Registry.EntryExact | core/server.py:25-34 | Over any interleaved run a phone leads to its connection after every event exactly if no other connection registers itself under it and its own never resumes into a removal |
| Registry.EntryPersists | core/server.py:88-116 | A connection that goes on reading and handling frames of its phone keeps its entry at every moment, through all phone changes, failures and teardowns of connections that do not take the phone over |
| Registry.NewcomerOwns | core/server.py:91-93 | A new connection owns its phone two steps after the first frame, whoever owned it before, and is in the state from which it keeps it |
| Registry.ClosedIsGone | core/server.py:112-116 | A closed connection has no entry |
| Registry.OnePhoneEach | core/server.py:94-97 | In a safe registry no connection sits under two phones |
| Registry.HandlerWriteExact | core/handler.py:76-77 | In a safe registry the handler's phone write keeps it safe exactly when it does not overwrite the phone of a registered connection |
| Registry.SafetyExact | core/server.py:88-116 | Over whole interleaved runs the registry is safe after every event exactly when no event is such a write |
| Registry.RegistrySafety | core/server.py:88-116 | Every interleaving of any number of connections with real phones is safe throughout |
| Registry.ZeroPhoneRegistration | core/handler.py:76-77 | A run from the empty system: a heartbeat with a real phone, then a registration with the all-zero phone, and the connection sits under two phones |
| Registry.FramesInTurn | core/server.py:71-89 | A coroutine takes its next frame only after the one in hand, and nothing happens to it after its teardown |
| Registry.UninterruptedFrame | core/server.py:89-104 | The steps of one coroutine for a frame, without interference, have the effect of the frame loop's body |
| Registry.PhoneAfterFrame | core/server.py:89-97 | The connection's phone after a frame: that of the frame if it is real, or of a registration or authentication, or of a location report that finds none; otherwise unchanged |
| Registry.RegistryAfterFrame | core/server.py:89-104 | The registry after a frame, entry by entry: the new phone leads to the connection, its own replaced entry is gone, all others stay |
| Handler.Handle | core/handler.py:35-138 | The phone, authentication flag, serial and bytes sent for every message identifier, also when the database fails |
| Handler.HandleFrame | core/server.py:89-104 | The loop body changes registry, phone, flag and serial as specified, and sends the specified frame |
| Handler.CloseClient | core/server.py:112-113 | Closing removes the connection's own entry and keeps all others |
| Handler.ReplyBytes | core/handler.py:71-133 | The identifier and the bytes of every reply, and which frames get none |
| Handler.ReplyArrives | core/connection.py:48-51 | A reply parses at the terminal to the intended message and serial, under the connection's own phone or under twelve zeros while it has none |
| Handler.TimeAnswerExact | protocol/builder.py:44-48 | The time answer has plain bytes where BCD is promised: it reads as the clock's time exactly when year of the century, month, day, hour, minute and second are all below 10 |
| Session.PendingRow | jt808/handlers.py:247-251 | The query returns some pending row of the phone and serial, any of them, and none exactly when there is none |
| Session.Server.SrvSerial | jt808/handlers.py:285-287 | The phone's counter advances by one modulo 65536, all others stay |
| Session.Server.HandleRegistration | jt808/handlers.py:132-167 | A parsed registration stores the fresh code and revokes; a short one changes nothing and is answered 1 |
| Session.Server.HandleAuthentication | jt808/handlers.py:170-185 | The new tables and the answer; `SessionAuth.AttemptExact` says which bodies succeed |
| SessionAuth.CarriesExact | jt808/handlers.py:173 | Stripping finds a code exactly in the bodies that are the code followed by any number of NULs, and never one that ends in NUL |
| SessionAuth.AttemptExact | jt808/handlers.py:170-185 | An attempt sets the flag and is answered 0 exactly if its body is the stored code with any padding; otherwise it is answered 1 and sets no flag |
| Session.Server.HandleLocationReport | jt808/handlers.py:196-236 | A parsed report is appended to the log; a failed parse is answered 1 |
| Session.Server.HandleTerminalAck | jt808/handlers.py:239-257 | One pending row, if any, is flipped with the result byte; a short body changes nothing |
| Session.Server.HandleParamsResponse | jt808/handlers.py:260-276 | The dictionary read is appended to the parameter log |
| Session.Server.Register | jt808/handlers.py:45-47 | The phone leads to the writer afterwards, all other tables stay |
| Session.Server.UnregisterPhone | jt808/handlers.py:49-50 | The phone's entry goes, whoever owns it |
| Session.Server.Dispatch | jt808/handlers.py:85-127 | The whole new state and the bytes of the reply, for every message |
| Session.Server.SendControlCommand | jt808/api.py:278-294 | Online: a serial is drawn, a pending row logged and the command built with it; otherwise nothing |
| Session.Server.SetParameters | jt808/api.py:319-345 | The same for the given switches, whose bytes `SessionLogs.SwitchBytes` gives, with a row in both logs; an empty request draws nothing |
| Session.Server.QueryParameters | jt808/api.py:367-385 | A serial is drawn and a parameter row logged, but no command row; more than 255 identifiers, or one outside 32 bits, fail after the draw |
| SessionHistory.CommandsStep | jt808/handlers.py:239-257 | An event changes an old command row only by acknowledging it: same phone, same serial, not acknowledged before |
| SessionHistory.AckedForever | jt808/handlers.py:252-256 | No run removes a row or takes an acknowledgement back |
| SessionHistory.ConsistentRun | jt808/handlers.py:282-287 | Over whole runs every command row of this process belongs to exactly one recorded draw of its phone, with its serial |
| SessionHistory.SerialsOfRun | jt808/handlers.py:282-287 | The k-th draw of a phone since the start of the process, for whatever purpose and whatever the tables hold, has serial k modulo 65536 |
| SessionHistory.SerialsRepeat | jt808/handlers.py:282-287 | Two draws share a serial exactly when 65536 divides their distance, so no window of 65536 repeats one |
| SessionHistory.AckExact | jt808/handlers.py:247-256 | An acknowledgement reaches the row of the latest draw of its serial, and no other, for every pick exactly when no other pending row has that serial |
| SessionHistory.WindowExact | jt808/handlers.py:247-251 | No serial of the phone has a stale row exactly when every pending row belongs to this process and to the phone's last 65536 draws |
| SessionHistory.AckCorrect | jt808/handlers.py:239-257 | Over whole runs: every acknowledgement that may come next flips exactly the command its serial was last drawn for, and none if that was a reply or a query, exactly when the phone's pending rows lie in that window |
| SessionHistory.LeftoverRowFlipped | jt808/handlers.py:247-256 | A run: a pending row with serial 1 from an earlier process, a heartbeat, then the acknowledgement of serial 1 flips that row, though the serial was drawn for the reply |
| SessionHistory.WrapAround | jt808/handlers.py:285-287 | Two commands 65536 draws apart wait for the same serial |
| SessionAuth.RowStep | jt808/handlers.py:148-182 | What every event does to the code and the flag of a phone |
| SessionAuth.KnownTerminals | jt808/handlers.py:290-297 | A phone has a row after a run exactly when it had one or some message of it arrived |
| SessionAuth.CurrentCodeIsLatest | jt808/handlers.py:149-164 | The stored code is that of the latest successful registration |
| SessionAuth.AuthenticationSafety | jt808/handlers.py:132-185 | A phone is authenticated after a run exactly when some 0x0102 carried the then current code and no registration of it succeeded since, or it was before and none succeeded |
| SessionAuth.StaleCodeRefused | jt808/handlers.py:170-178 | With distinct codes a code that was current at any time, stored before the run or issued in it, and was then replaced changes no flag and is answered 1 |
| SessionAuth.MalformedRegistration | jt808/handlers.py:137-146 | A registration body that is too short changes neither code nor flag and is answered 1 |
| SessionAuth.RegistrationRevokes | jt808/handlers.py:162-167 | A successful registration revokes, and its answer carries the code that is then current |
| SessionAuth.RegisterThenAuthenticate | jt808/handlers.py:170-185 | The issued code followed by any number of NULs authenticates and is answered 0 |
| SessionReplies.AnsweredExactly | jt808/handlers.py:99-127 | Exactly 0x0001 and 0x0104 get no reply |
| SessionReplies.AnswerBytes | jt808/handlers.py:99-127 | The identifier and the bytes of the answer to every message: 0x8001 echoes serial and identifier and ends in 0 except for a wrong code or a refused report; 0x8100 carries the code; 0x8004 the encoded time |
| SessionReplies.AnswerEchoes | jt808/protocol.py:375-401 | Every answer begins with the serial of the request, except the time, which decodes to the clock's |
| SessionLogs.SwitchBytes | jt808/api.py:319-331 | The body of every set request, byte by byte: 1 under 0xFF01 prohibits ignition, 1 under 0xFF02 enables the fence |
| SessionLogs.ControlReads | jt808/protocol.py:404-409 | A control request reads at the terminal as 0x8105 with the command word, under the serial drawn |
| SessionLogs.SettingReads | jt808/protocol.py:412-419 | A set request reads at the terminal as 0x8103 with its body, under the serial drawn |
| SessionLogs.RequestRows | jt808/api.py:283-385 | A request draws one serial and logs it: a pending command row for 0x8105 and 0x8103, none for a query |
| SessionLogs.RequestRefused | jt808/api.py:278-328 | A request for a phone that is not connected, or without parameters, changes nothing |
| SessionLogs.LocationsOfRun | jt808/handlers.py:200-230 | After a run the location log is what it was, followed by every accepted report in order |
| SessionLogs.ParamLogsOfRun | jt808/handlers.py:274-276 | After a run the parameter log is what it was, followed by the entries of all responses and requests in order |
| SessionReplies.ReplyReads | jt808/protocol.py:375-409 | A reply is extracted as one payload that parses to the request's phone, the serial drawn and the answer |
| SessionReplies.ReplyDiscipline | jt808/handlers.py:85-127 | Over any run of a process, whatever the tables held at its start, the next reply reads under the request's phone with the serial that continues the phone's sequence |
| SessionOnline.OnlineExact | jt808/handlers.py:45-50 | After a run a phone leads to a connection exactly when the last event that concerns the phone is its reception of a message other than 0x0003, or nothing concerned the phone and it did before |
| SessionOnline.UnregisterExact | jt808/handlers.py:49-50 | Unregistering a phone spares the entries of all others exactly when the entry is absent or one's own |
| SessionOnline.TeardownExact | jt808/server.py:72-74 | Over whole runs: a teardown evicts another connection exactly when the last event that concerned the phone is that one's reception |
| SessionOnline.NewerConnectionEvicted | jt808/server.py:72-74 | A run: two connections receive one phone, the older one tears down, and the newer one is gone from the table |
| SessionOnline.LeftBehind | jt808/server.py:52-74 | After a teardown some entry leads to the closed connection exactly when it received another phone that nothing concerned since |
| SessionOnline.PhoneChangeLeavesEntry | jt808/server.py:52-74 | A run: a connection changes its phone and tears down, and its first phone still leads to it |
| Receiver.HandlePayload | jt808/server.py:46-66 | A payload is skipped, ends the connection, or is registered, dispatched with the next code and time, and answered |
| Receiver.HandleConnection | jt808/server.py:23-80 | However the bytes are cut and whatever other coroutines do at every await, the messages dispatched are the readable payloads of the whole stream, replied to in order; the last phone is unregistered at the end, and no entry is left for the writer exactly when it left none under another phone |
| Receiver.SharedFlagsDispatched | jt808/server.py:43-58 | With one flag between neighbours every built message of a connection is dispatched, in order, with its phone, serial and body |
| Receiver.OwnFlagsDispatched | jt808/server.py:43-58 | Of messages framed one by one by the builder only the first is dispatched, so all of them exactly when there is at most one |

## Left out

- Sockets, timeouts, logging, the HTTP layer, users and tokens, the dashboard, seeding and deployment: I/O and libraries.
- The database engine: tables are maps and sequences; of a query without order any matching row may be the first. Terminal columns other than code and flag, and times of rows, are not kept.
- Text decoding: fields are bytes. Issued codes are ASCII without NUL, for which comparing GBK-decoded text and comparing bytes is the same.
- Phones with characters other than hexadecimal digits, which the encoders refuse or read by the rules of Python's `int`; phones of parsed messages are always hexadecimal.
- Floating point: coordinates are signed micro-degrees and the other quantities raw tenths.
- Parameter dictionaries are keyed by number, not by the formatted identifier under which they are logged.
- protocol/builder.py beyond the replies of core/handler.py: its circular-area body packs coordinates as 16-bit fields.
- Database failures in `jt808/`, where every query and commit succeeds; and the awaits inside a handler of core/handler.py as separate steps: between its phone write and its end a handler touches no shared state of the model.
- Reading requests: a request carries the command word, switches or identifiers already read from its text; unknown commands and identifiers that are not hexadecimal are refused before anything is drawn.
- Handler.Handle: one frame of one coroutine; interleaving is the subject of `Registry`.
- Receiver.HandleConnection: the steps of other coroutines are any events of `Session`; that their messages come out of streams of their own is not required.
- Reassembly of sub-packets and decryption, which the source does not implement.
