# pico-conduit: verified model

pico-conduit is firmware that turns byte streams (TCP lines or WebSocket frames) into JSON commands, runs them
against the device state of one connection, and answers in order. This project models that path and the codecs
around it, and proves what they promise on all inputs and over all runs.

| file | models |
|---|---|
| `Bytes.dfy`, `Utf8.dfy` | bytes, bit strings, bitwise xor/and, well-formed UTF-8 (section 4 of RFC 3629) |
| `Base64.dfy` | `src/base64.rs` against section 4 of RFC 4648 |
| `Sha1.dfy`, `Sha1Vectors.dfy` | `sha1`, `sha1_block`, `compute_accept_key` against sections 4, 5 and 6.1 of RFC 3174 and section 4.2.2 of RFC 6455; known digests |
| `WsFrame.dfy` | frame encoders, masking and header parsing against sections 5.2, 5.3 and 5.5 of RFC 6455 |
| `Sockets.dfy` | the socket as a byte stream with arbitrary read sizes |
| `WsTransport.dfy`, `TcpTransport.dfy` | the two transports of `src/net.rs` |
| `Framing.dfy` | `FrameReader` and `serialize_response` |
| `Protocol.dfy`, `Interfaces.dfy` | commands, responses, and the peripheral handlers' validation |
| `Router.dfy`, `RouterHistory.dfy`, `RouteAnswers.dfy` | `src/router.rs`, its properties over whole command sequences, and what each route answers |
| `Session.dfy`, `SessionEnds.dfy` | `handle_client` over both transports, a client's session in `tcp_server` and `ws_server`, and why it ends |
| `Flash.dfy` | the credential record on NOR flash |
| `Portal.dfy` | `POST /connect`: the body, percent decoding, the form, the fixed-size copies |
| `Provision.dfy` | from an accepted form to the flash and the next start |
| `Dhcp.dfy` | option lookup, the fixed reply, and which packets get one |
| `Reconnect.dfy` | the accept loops' counters |

How things are modelled:

- Code that updates buffers, cursors or fields is a method over arrays or a class, proved against a function of
  its inputs; the theorems are about those functions. Shifts and masks of disjoint bit fields are written
  arithmetically; xor and flash programming are bitwise; SHA-1 words are `bv32`.
- A Rust index panic is a result value (`Panic`), not a precondition, wherever a caller can provoke it.
- Which bytes, names and answers are meant is stated with literals: octets on the wire, published test vectors,
  route names and bytes of the reply, not with the functions that compute them.
- The JSON library is a pair of functions (`parse`, `render`). The socket delivers its bytes in any pieces and
  ends by timeout or disconnect. Results of writes are an arbitrary script.
- What an abort leaves of bytes already received is up to the network stack, which is not part of this model: any
  number of them (`surviving`) may still be readable. That an aborted socket cannot be written is assumed.
- Text fields are their UTF-8 bytes, one `char` per byte. The build modelled is the TCP/WebSocket one.

Where the code differs from its comments, the code is followed:

- `decode_bytes` says its length is bounded by construction (`src/interfaces/mod.rs:97`). It is not: 684 alphabet
  characters overrun the 512-byte buffer. `PayloadVerdict` gives the exact condition, `OverlongExample` an input,
  `PanicsIff` when a session dies of it.
- The connect form does not always come back. The body is cut at 256 bytes (`src/net.rs:1579`), also inside an
  escape or a value, and decoded before it is split (`src/net.rs:1591-1593`), so an escaped `&` ends a value.
  `FormRoundTrip` is the exact condition; `AmpersandLost` (a password arrives shortened), `CutShortens` (the same,
  by the cut) and `EscapedRefused` are the failing inputs.
- The portal's page has a field for the SSID of a hidden network and says it is used unless left blank
  (`src/net.rs:1700-1701`). The parser ignores it: `ManualIgnored`, and on whole requests `PageRoundTrip`.
- On a WebSocket an oversized frame aborts the socket before `handle_client` writes its error answer
  (`src/net.rs:702-707`, `src/net.rs:1151-1157`), so the answer is never sent and nothing is after it
  (`ClosedWritesNothing`); over TCP it is sent. The loop still goes on, so bytes that survive the abort, the
  oversized payload included, are read as frames and executed: `ServeWs` states the result for any number of them.
- "Ten minutes" offline (`src/net.rs:83`) is 555 seconds of actual waiting: the limit is compared before sleeping.

## Model

| member | source | states |
|---|---|---|
| Base64.BuildDecodeTable | src/base64.rs:10-39 | the filled table inverts the alphabet and marks exactly the other bytes |
| Base64.Encode | src/base64.rs:46-81 | writes exactly the encoding, touches nothing after it, needs only the exact size |
| Base64.EncodeMeansBits | src/base64.rs:46-81 | the data characters carry exactly the input's bit stream, zero-filled to whole 6-bit values; the text is whole 4-character groups |
| Base64.Decode | src/base64.rs:96-154 | result, bytes written and bounds panic for every input and every output size; after a success the rest of the output is untouched |
| Base64.DecodeMeansBits | src/base64.rs:96-154 | decoded bytes are the leading bits of the text's bit stream |
| Base64.DecodeSucceedsIff | src/base64.rs:96-153 | decoding succeeds exactly on alphabet text, length not 1 modulo 4, that fits; it then gives floor(3L/4) bytes |
| Base64.DecodePanicsIff | src/base64.rs:111-145 | for every output size, exactly when the output bounds are overrun: after the groups that fit come enough valid characters for one that does not |
| Base64.RoundTrip | src/base64.rs:46-154 | decode after encode is the identity, padding kept or stripped |
| Base64.PaddingTaken | src/base64.rs:98-107 | up to two '=' are taken as padding whatever the length; with more, nothing decodes |
| Base64.EncodeAfterDecode | src/base64.rs:46-154 | encode after decode is the canonical text: trailing bits cleared, padding restored |
| Base64.KnownTexts | src/base64.rs:46-81 | "foobar", "fooba" and "foob" of section 10 of RFC 4648, and a text with both special characters |
| Sha1.PaddedShape | src/ws.rs:199-206 | the padded message is whole blocks: message, 0x80, fewer than 64 zeros, bit length |
| Sha1.LengthMeans | src/ws.rs:199-206 | the last eight bytes are the length in bits as a 64-bit number, most significant byte first |
| Sha1.Schedule | src/ws.rs:222-233 | the array loops compute the recursive message schedule |
| Sha1.Sha1Block | src/ws.rs:221-262 | the 80-step loop refines the recursive steps and adds them to the chaining words in place |
| Sha1.TailBuffer | src/ws.rs:199-206 | leftover bytes, 0x80, zeros and length in one or two blocks |
| Sha1.TailIsPadding | src/ws.rs:189-206 | the tail buffer is exactly the rest of the padded message |
| Sha1.Sha1 | src/ws.rs:183-218 | block loop plus tail buffer compute the digest of the padded message |
| Sha1.ComputeAcceptKey | src/ws.rs:171-178 | 28 bytes that are the base64 text of the digest of key (cut at 64 bytes) and GUID, and decode back to it |
| Sha1Vectors.DigestOfAbc | src/ws.rs:183-262 | the digest of "abc" is the published one |
| Sha1Vectors.AcceptOfSampleKey | src/ws.rs:171-262 | the sample key of section 1.3 of RFC 6455 (two blocks) has its published accept text |
| Sha1Vectors.ChooseBits | src/ws.rs:239 | each bit is c's where b's is set, else d's |
| Sha1Vectors.ParityBits | src/ws.rs:240-242 | with two of the words it gives the third back, in both of its rounds |
| Sha1Vectors.MajorityBits | src/ws.rs:241 | each bit is the common one where b and c agree, else d's |
| WsFrame.MaskTwice | src/ws.rs:13-21 | masking is its own inverse |
| WsFrame.Unmask | src/ws.rs:17-21 | every bit of octet i is flipped exactly where key octet i mod 4 has a one; the rest of the buffer is untouched |
| WsFrame.EncodeTextFrameHeader | src/ws.rs:35-57 | exactly when it succeeds, the two or four header octets, and no change on error |
| WsFrame.EncodeTextFrame | src/ws.rs:66-74 | succeeds exactly when size and room allow, and then is the wire form of the text frame |
| WsFrame.EncodePongFrame | src/ws.rs:147-159 | succeeds exactly up to 125 bytes and room, and then is the wire form of the pong |
| WsFrame.HeaderDependsOnPrefix | src/ws.rs:95-137 | the answer depends only on the header's own bytes and never changes when more arrive |
| WsFrame.HeaderNeedsAllBytes | src/ws.rs:95-137 | no strict prefix of a header parses |
| WsFrame.ParseOfHeader | src/ws.rs:95-137 | parsing inverts the wire format for every opcode, mask and length form |
| WsFrame.ParseOfTextFrame | src/ws.rs:35-137 | an encoded text frame gives back length, opcode and payload offset |
| WsTransport.ReadExact | src/net.rs:655-665 | exactly the next n bytes however the socket splits them, or the stream's end |
| WsTransport.ReadHeader | src/net.rs:674-713 | the piecewise header reader gives the verdict of `parse_frame_header` |
| WsTransport.HeadersAgree | src/net.rs:674-713 | the two header readers agree on every byte stream and verdicts are stable |
| WsTransport.ReadFrame | src/net.rs:670-744 | result, replies written if the socket is open, bytes left and abort, as a function of the byte stream |
| WsTransport.FrameOnTheWire | src/net.rs:670-744 | for every whole frame at the head of any stream, from its raw octets: the unmasked payload bit by bit, and delivery, close reply, pong or skip by opcode |
| WsTransport.NoFrameOnTheWire | src/net.rs:674-721 | every other stream is refused on its length octets, or waited for until it ends |
| WsTransport.HelloDelivered | src/net.rs:670-744 | the masked "Hello" of section 5.7 of RFC 6455 is delivered as "Hello" |
| WsTransport.WriteFrame | src/net.rs:746-760 | succeeds exactly when the length is allowed, the socket is open and both writes succeed; what was written up to a failure, which aborts |
| WsTransport.AnswerOnTheWire | src/net.rs:746-760 | the octets of every answer: 0x81, the length in one or three octets, the data |
| WsTransport.ReceiveAll | src/net.rs:670-744 | repeated reading depends only on the byte stream, not on the read sizes |
| WsTransport.FramesReceived | src/net.rs:670-744 | any frames without a close deliver exactly the text payloads in order and exactly one pong per short ping |
| WsTransport.CloseEndsStream | src/net.rs:728-733 | the first close is answered with 0x88 0x00, reported as a disconnect, and nothing after it matters |
| WsTransport.OversizedEndsStream | src/net.rs:702-707 | the first frame over 1024 bytes ends the stream with a protocol error, nothing of it delivered |
| WsTransport.CutOffEndsStream | src/net.rs:655-721 | a stream that stops inside a frame delivers the frames before it and then how the stream ended |
| WsTransport.EveryStream | src/net.rs:670-744 | every byte stream is frames without a close and then something that stops the reading, and is received as exactly that |
| WsTransport.PrefixReceived | src/net.rs:670-744 | from any part of a stream that arrives, the texts received are the first ones of the whole |
| Framing.SplitIsFaithful | src/protocol.rs:441-444 | the newline split loses nothing and no segment holds a newline |
| Framing.SplitOfJoined | src/protocol.rs:441-444 | splitting inverts joining, so the split is unique |
| Framing.SplitOfPrefix | src/protocol.rs:441-494 | from any part of a stream that arrives, the segments are the first ones of the whole |
| Framing.KnownSplit | src/protocol.rs:475-494 | "a\nbc\nd" is the segments "a" and "bc", and "d" pending |
| Framing.FrameReader.Push | src/protocol.rs:475-494 | the report of a byte is that of the segment it ends, overflow included |
| Framing.FrameReader.PushAll | src/protocol.rs:445-494 | a stream reports its segments in order: up to 1023 bytes verbatim, longer ones once as too large; the tail stays pending |
| Framing.SerializeResponse | src/protocol.rs:432-439 | succeeds exactly when body and newline fit, and writes them |
| Framing.ResponsesRecovered | src/protocol.rs:432-494 | accepted bodies come back whole and in order, short enough for `parse_command` |
| TcpTransport.ReadFrame | src/net.rs:114-149 | one frame, oversize error or end, as a function of the byte stream |
| TcpTransport.WriteFrame | src/net.rs:151-158 | succeeds exactly when the socket is open and the write succeeds; a failure aborts |
| TcpTransport.ResultsAreSegments | src/net.rs:114-149 | reading a connection to its end delivers exactly its newline segments and then its end |
| Interfaces.DecodeBytes | src/interfaces/mod.rs:85-101 | payload, refusal or overrun |
| Interfaces.PayloadVerdict | src/interfaces/mod.rs:85-101 | a payload is usable exactly up to 683 valid characters; the buffer overruns exactly from 684 valid ones |
| Interfaces.OverlongExample | src/interfaces/mod.rs:93-95 | 684 characters 'A' overrun the buffer |
| Interfaces.PayloadReencodes | src/protocol.rs:325-332 | every payload encodes within the buffer constant and is accepted again |
| Protocol.VersionOne | src/protocol.rs:310-316 | exactly version 1 is accepted |
| Protocol.InnerFields | src/protocol.rs:172-204 | a batch's command has every field of its inner command |
| Router.RoutesMatchArms | src/router.rs:65-262 | the routing table and the dispatch arms cover the same routes; the unreachable arm is unreachable |
| Router.DeviceState.constructor | src/net.rs:1141-1146 | a session starts with defaults and its network data |
| Router.DeviceState.Subscribe | src/router.rs:327-344 | duplicate check, limit and append, in place |
| Router.DeviceState.Unsubscribe | src/router.rs:347-378 | retain and length comparison, in place |
| Router.DeviceState.ConfigureBus | src/router.rs:125-135 | validated configuration stored at its index, nothing else changed |
| Router.DeviceState.Dispatch | src/router.rs:119-264 | every arm does in place what its meaning says |
| Router.DeviceState.Step | src/net.rs:1165-1168 | validation and dispatch of one command |
| Router.DeviceState.DispatchBatch | src/router.rs:274-322 | same responses and state as stepping the inner commands; empty or oversized batches change nothing |
| Router.BatchIsStepwise | src/router.rs:304-314 | one response per command, each the answer on the state the earlier ones left |
| RouterHistory.BatchIsHistory | src/router.rs:274-322 | a batch leaves the state of its commands in sequence, with their outcomes, and stops exactly at one that panics: the history theorems hold for batches |
| RouterHistory.RefusedLeavesState | src/router.rs:119-378 | any answer that is not ok leaves the whole state as it was |
| RouterHistory.StepKeepsInv | src/router.rs:119-378 | configurations in range, at most 8 subscriptions, targets distinct |
| RouterHistory.InvAlways | src/router.rs:119-378 | the invariant over every command sequence |
| RouterHistory.PanicsIff | src/router.rs:138-146 | from any state a session can reach, a command panics exactly when it is `uart`, `spi` or `i2c` / `write` to a configured index (with an address, for I2C) with an overlong payload |
| RouterHistory.RegistryIsLive | src/router.rs:327-378 | the subscription list is, in order, what was subscribed and not touched since |
| RouterHistory.LiveKeys | src/router.rs:327-378 | a key is in the reference registry exactly when its latest event added it |
| RouterHistory.KeyPresentIffSubscribedLast | src/router.rs:155-204 | present exactly when the latest successful command touching the key was a subscribe; distinct keys, at most 8 |
| RouterHistory.SameTargetIsSameKey | src/protocol.rs:553-569 | level and edge of one pin are different keys |
| RouterHistory.SubscribeVerdict | src/router.rs:155-204 | exact answer of every `gpio/subscribe` and `adc/subscribe`, by trigger name and default interval |
| RouterHistory.UnsubscribeVerdict | src/router.rs:173-204 | exact answer of every `gpio/unsubscribe` and `adc/unsubscribe` |
| RouterHistory.ConfigureOkIff | src/interfaces/uart.rs:52-87 | `uart`, `spi` and `i2c` / `configure` are ok exactly for a valid index and in-range parameters |
| RouterHistory.ConfigureVerdict | src/interfaces/spi.rs:43-70 | which error a refused configure gets |
| RouterHistory.ConfigIsLatest | src/router.rs:125-135 | each stored configuration is field by field the latest accepted one of its kind and index, or 115200 baud 8N1, 1 MHz mode 0, 100 kHz |
| RouterHistory.StepOnConfig | src/router.rs:125-135 | only an accepted configure of an index changes it; the other index is untouched |
| RouterHistory.ConfiguredIffBefore | src/router.rs:125-135 | configured exactly when an earlier configure was answered ok |
| RouterHistory.WriteOkIff | src/router.rs:138-146 | a write is ok exactly when configured earlier and payload (and I2C address) valid |
| RouterHistory.WriteVerdict | src/interfaces/i2c.rs:84-89 | which error a refused write gets, in the order of the checks |
| RouterHistory.SessionPanicsIff | src/router.rs:138-146 | a session dies exactly at a write to an index for which an earlier configure was answered ok, with an overlong payload |
| RouterHistory.OverlongSession | src/router.rs:125-146 | configuring UART 0 and writing 684 characters 'A' is such a session |
| RouterHistory.AnswersEchoId | src/protocol.rs:377-399 | every answer echoes the id, with an error code exactly when not ok |
| RouterHistory.SessionFields | src/router.rs:232-254 | network data never changes; a reboot is pending exactly after a `system/reboot_to_bootloader` |
| RouteAnswers.ConfigGetReports | src/router.rs:232-243 | `config/get` reports the network data the session started with, in every session |
| RouteAnswers.UnknownRefused | src/router.rs:65-112 | a command off the 28 listed routes is refused for its interface or its action, in that order |
| RouteAnswers.SystemAnswers | src/router.rs:246-259 | `system/get_version` answers "0.1.0" and keeps the state, `system/reboot_to_bootloader` only sets the flag, `batch/run` is refused |
| RouteAnswers.StubsRefuse | src/router.rs:151-229 | the seven routes that need hardware answer not_configured |
| RouteAnswers.SetModeAnswers | src/interfaces/gpio.rs:14-84 | every `gpio/set_mode`: pins 0 to 22, the two modes, the three pulls, and the error of everything else |
| RouteAnswers.PwmAnswers | src/interfaces/pwm.rs:17-75 | every PWM command: channels 0 to 15, a duty, a positive frequency |
| RouteAnswers.AdcAndUsbRefuse | src/router.rs:181-228 | `adc/read` and, in every session, `usb/write` are refused |
| RouteAnswers.WriteIndexRefused | src/router.rs:138-146 | a write without a usable index is refused before anything else is looked at |
| RouteAnswers.IncompleteRefused | src/router.rs:155-204 | a subscribe or unsubscribe without pin or channel, or with an unknown trigger, answers missing_field |
| Session.HandleClient | src/net.rs:1139-1185 | over either transport: which reads are taken, the state as their fold, everything written including a failing last answer, and why the session ends |
| Session.StateIsFold | src/net.rs:1163-1169 | after any number of reads the state is the fold of dispatch over the frames that parsed and routed |
| Session.NoCommandNoChange | src/net.rs:1151-1169 | malformed frames, unknown routes and protocol errors never change the state |
| Session.AnswerGiven | src/net.rs:1149-1175 | what each read is answered on an open connection: the protocol, size, JSON or version error without id, or exactly the response of the router on the state so far, as its text and a newline |
| Session.AnswersAreResponses | src/net.rs:1149-1175 | the answers of a session are those texts, in order, for the reads before an abort |
| Session.ServeTcp | src/net.rs:599-602 | a TCP session ends in the fold over the newline segments it has read, in order, and has written exactly the answers it had a connection for, for any bytes, pieces, write results and aborts; an open one is read to its end |
| Session.TcpReads | src/net.rs:114-149 | the first k reads are the first k newline segments, also after an abort that leaves any part of the stream |
| Session.ServeWs | src/net.rs:859-872 | a WebSocket session ends in the fold over its first n reads: its text payloads, and after an oversized frame whatever survives the abort |
| Session.WsReadsTaken | src/net.rs:670-744 | a session takes the first of the reads its byte stream determines, whatever its commands do |
| Session.WsReadsAreTexts | src/net.rs:670-744 | those reads are the texts and the final error; more only after a protocol error |
| Session.ClosedWritesNothing | src/net.rs:702-760 | once the connection is aborted nothing more is written, whatever is still read |
| Session.ClientRecoversAnswers | src/net.rs:1171-1172 | a client with the same newline framing recovers every response that fits, whole and in order, rendered from the router's answers; from any part of the bytes the first ones |
| Session.WsAnswersReceived | src/net.rs:735-760 | what is written over k reads is received as exactly the answers, in order, the pongs between them skipped, whatever follows |
| Session.WsClientRecoversAnswers | src/net.rs:735-760 | a client parsing what a WebSocket session wrote receives those responses as lines in order, all of them unless the last write failed; from any part of the bytes the first ones |
| SessionEnds.NothingAfterReboot | src/net.rs:1177-1184 | in every session the reboot command is the last one that is read |
| SessionEnds.EndMeans | src/net.rs:1149-1184 | what the last read was for each way a session ends: a failed read, a reboot command, a command that panics on the state so far, an answer that cannot be sent |
| Utf8.TextIsValid | src/provisioning/portal.rs:183 | the encoding of any Unicode scalar values is valid |
| Utf8.ValidIsText | src/provisioning/portal.rs:183 | all valid text is the encoding of some scalar values |
| Utf8.NoErasedByte | src/net.rs:310-318 | 0xFF never occurs in valid text |
| Flash.CredFlash.Save | src/net.rs:327-356 | erase and program leave the record, or the part written before power failed |
| Flash.BuildRecord | src/net.rs:335-353 | the buffer is the record layout |
| Flash.SavedHolds | src/net.rs:335-353 | magic 43 EE FF C0, lengths, texts and port at their offsets, every other byte erased |
| Flash.LoadsIff | src/net.rs:294-322 | 169 bytes load as some credentials exactly when they hold them so |
| Flash.LoadedSavesBack | src/net.rs:294-356 | whatever 169 bytes are there, what loads is storable and loads again after being saved |
| Flash.LoadAfterSave | src/net.rs:294-356 | cut off anywhere, a record loads exactly from the end of the host text on, and only the port can differ |
| Flash.SaveThenLoad | src/net.rs:294-356 | the same through the flash, whatever it held before |
| Portal.DecodeUrlEncoded | src/provisioning/portal.rs:141-184 | decoded bytes or the first error, within 128 bytes |
| Portal.CutDecodes | src/provisioning/portal.rs:141-213 | every percent-encoding, cut anywhere, decodes to the bytes it still spells, or is refused when cut inside an escape or too long |
| Portal.DecodeInvertsEncoding | src/provisioning/portal.rs:141-213 | decoding inverts every percent-encoding that fits and refuses longer ones |
| Portal.DecodedIsSpelled | src/provisioning/portal.rs:141-213 | nothing else decodes: an accepted input is a percent-encoding of what it decodes to |
| Portal.KnownDecoding | src/provisioning/portal.rs:141-213 | "%4A+%2f" is "J /" |
| Portal.KnownRefusals | src/provisioning/portal.rs:141-213 | a digit that is not hexadecimal, a cut escape and text that is not UTF-8 are refused, with their errors |
| Portal.PortNumbers | src/provisioning/portal.rs:114-119 | a port is any decimal number below 65536, with leading zeros and a plus sign if the client likes |
| Portal.PortRefused | src/provisioning/portal.rs:114-119 | a text with anything else in it, or without digits, is no port |
| Portal.ParseConnectForm | src/provisioning/portal.rs:100-130 | last pair of each key wins; port is the last that parses, else 1883 |
| Portal.FieldsAreParsed | src/provisioning/portal.rs:100-130 | of any fields in any order, unknown ones included, each known key has the value of its last field |
| Portal.KnownForms | src/provisioning/portal.rs:100-130 | "ssid=x&password=y&mqtt_host=z&mqtt_port=99" and "ssid=x&password=y" |
| Portal.ManualIgnored | src/net.rs:1696-1710 | the page's manual SSID never changes the form |
| Portal.CutIsParsed | src/provisioning/portal.rs:100-130 | what every prefix of a form's text is parsed as |
| Portal.FormParsesBackIff | src/provisioning/portal.rs:100-130 | a prefix of a form's text parses back to the form exactly when no value contains '&' and the prefix is long enough |
| Portal.ReadBody | src/net.rs:1575-1588 | what arrives of the declared length, at most 256 bytes, however it is split |
| Portal.HandleConnect | src/net.rs:1575-1603 | the credentials a request is accepted with, or none |
| Portal.AmpersandLost | src/net.rs:1591-1593 | the password "a&b" arrives as "a" under every encoding |
| Portal.FormRoundTrip | src/net.rs:1575-1603 | a form comes back through body limit, decoding, parsing and copying exactly when no value contains '&', all fit, and enough of it arrives whole; with a body of at most 256 bytes, exactly when no '&', all fit and at most 128 bytes of text |
| Portal.PageRoundTrip | src/net.rs:1575-1710 | a form submitted from the portal's own page comes back exactly when no value contains '&', all fit and the text is at most 128 bytes, whatever the manual SSID |
| Portal.SubmittedIsValid | src/net.rs:1590-1603 | whatever is accepted is valid text that fits the fixed strings |
| Portal.CutSubmitted | src/net.rs:1575-1603 | what comes back of a form without '&' in every case |
| Portal.AmpersandCuts | src/net.rs:1591-1593 | a password with '&' arrives cut before it |
| Portal.CutShortens | src/net.rs:1579-1593 | an encoded form over 256 bytes is accepted with 51 of its 60 password bytes |
| Portal.EscapedRefused | src/net.rs:1579-1593 | every form of at least 86 bytes with all bytes escaped is refused |
| Provision.AcceptedIsStorable | src/provisioning/storage.rs:45-55 | every accepted form can be stored as it is |
| Provision.HandleProvision | src/net.rs:1715-1767 | credentials are saved exactly when the network is joined and they fit; otherwise the flash is untouched |
| Provision.ProvisionAndRestart | src/net.rs:1575-1767 | after a join and a complete save exactly the accepted form is loaded; cut off, nothing or the same SSID, password and host |
| Dhcp.DhcpOptionU8 | src/net.rs:1299-1324 | terminates on every packet, and what it finds |
| Dhcp.LookupFindsFirst | src/net.rs:1299-1324 | on any option list the first byte of the first non-empty option with the code, or nothing |
| Dhcp.EveryArea | src/net.rs:1299-1324 | every options area is whole options and then something that stops the scan, and what is found is the first match, else the first byte of a cut last option with the code |
| Dhcp.BuildDhcpReply | src/net.rs:1327-1386 | all 300 bytes of the reply, byte by byte: header, transaction id, both addresses, hardware address, cookie, the five options, zeros |
| Dhcp.ReplyOptions | src/net.rs:1352-1383 | offer for discover, acknowledgement for request, and options 54, 51, 1 and 3 can be looked up |
| Dhcp.HandlePacket | src/net.rs:1268-1294 | exactly which packets are answered, and every byte of the answer |
| Reconnect.Serve | src/net.rs:571-638 | permanent error exactly at the first 13th failure in a row, after 555 s of waiting; the waits since the last success are 5, 10, 20, 40 and then 60 s |
| Reconnect.LimitReachedIff | src/net.rs:394-402 | the backoff sum passes the limit exactly from the 13th failure on |
| Reconnect.FailureRunMeans | src/net.rs:596-597 | a failure run is that many failures since the last success |

## Left out

- The read handlers (`handle_read_with_data`, `handle_transfer`, `handle_write_read`, `bytes_response`, `require_positive`): `dispatch` never calls them.
- MQTT: its client loop, the two MQTT fields of the device state, topic names; thin use of a library.
- JSON, postcard and their size accounting beyond `serialize_response`; `serialize_batch_response` has the same shape and no caller in `handle_client`.
- HTTP request lines and headers, the rest of the WebSocket upgrade, portal pages; the declared length of a form's body is a parameter.
- Wi-Fi bring-up, power management, LED patterns, watchdog, factory reset, board checks, ADC arithmetic.
- Flash.CredFlash.Save: does not model a failing erase or write call, which returns false before the record matters.
- Sha1.Sha1: takes the message length as unbounded; the code's lengths are far below the 2^61 bytes where the bit count would wrap.
- Reconnect.Serve: treats serving a client as one step; the time a client is connected is not counted.
