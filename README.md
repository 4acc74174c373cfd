# Fake TLS 1.2 handshake of the shadowproxy `tls` plugin

This project models the obfuscation handshake in
`shadowproxy/plugins/tls_parser.py` and proves properties of the model. The
plugin makes a proxied stream look like a TLS 1.2 session. Its parts:

- `tls1_2_request` reads a fake ClientHello record. It checks the record head
  `16 03 01`, the length bound of 2^14 - 1, the handshake type, the client
  version, the timestamp against `time_tolerance`, the session id length, and
  a 10-byte truncated HMAC-SHA1 tag keyed by `master_key + session_id`.
  It then writes one buffer: ServerHello, an optional SessionTicket,
  ChangeCipherSpec, a Finished-looking record, and a 10-byte tag of
  everything before it.
- `ChangeCipherReader` checks the client's ChangeCipherSpec and Finished
  positionally and verifies the Finished tag.
- `application_data` forwards the payload of one application-data record
  after another.
- `pack_uint16` and `sni` are length-prefix serialisers.

Record and handshake headers follow section 6.2.1 and section 7.4 of RFC
5246. The server_name extension is section 3 of RFC 6066.

Modules, one per file:

- `Bytes` (`bytes.dfy`): octets, Python's clamped slicing, big-endian integers.
- `Framing` (`framing.dfy`): `pack_uint16` and `sni`, with an unpacker used
  for the round trip.
- `Protocol` (`protocol.dfy`): the configuration, that is the version,
  master key, tolerance and keyed hash. Also the error kinds, the
  three-way outcome `Parse` (`Pending`, `Reject`, `Accept`), and `Env`, the
  clock and random values one handshake draws.
- `HelloParser` (`hello_parser.dfy`): the ClientHello checks as functions
  over the received bytes.
- `HelloReply` (`hello_reply.dfy`): the response as a function of the
  configuration, `Env` and the accepted hello.
- `FinishedReader` (`finished_reader.dfy`): `ChangeCipherReader` as a
  function over the bytes received after the response.
- `AppData` (`app_data.dfy`): one turn of the relay loop (`ParseRecord`) and
  the loop run to its stopping point (`Relay`).
- `Server` (`server.dfy`): the three parsers chained. `Advance` takes a
  phase and the buffered bytes to the phase reached, the unread bytes and
  the bytes written.
- `Session` (`session.dfy`): the imperative form. `Connection` has an inbox
  that `Read(n)` consumes, an outbox that `Write` appends to, and the
  phase. `ReadClientHello`, `ReadChangeCipher` and the `while` loop of
  `RelayApplicationData` follow the source read by read. Each is proved to
  leave the state its function describes.

A suspended read (`yield from iofree.read(n)` with fewer than `n` bytes
buffered) is modelled as `Pending`. A wait leaves the buffer at the start
of the current step: the ClientHello phase, the Finished phase, or the
record the relay loop was reading. Records already relayed stay consumed,
and their payloads stay written. When more bytes arrive, that step is run
again from its start. Nothing is written between two reads of one step, so
this is the same as resuming. `Server.AdvanceExtends` proves that the outcome does not depend on
how the stream is cut into deliveries. `Session.Connection.Deliver` then
keeps the connection equal to `Advance` applied to the whole received
stream.

The freshness check compares the client timestamp with the clock taken
modulo 2^32, `int(time()) & 0xFFFFFFFF` (`tls_parser.py` line 36). A failed
`assert`, or an `IndexError` of a missing byte, ends the connection with a
`Protocol.Error` kind naming the check. Some checks share a kind:
`WrongVersion` covers the version checks at lines 86-88, 91-93 and 110-112,
`MissingByte` covers the missing `fragment[0]` (line 29) and
`client_hello[34]` (line 38), `RecordOverflow` covers lines 27 and 114, and
`MacMismatch` covers lines 44 and 102. The kind alone therefore does not
tell the two version checks of the Finished phase apart, nor the two
missing bytes of the ClientHello.

## Model

| member | source | states |
|---|---|---|
| Framing.PackUint16 | shadowproxy/plugins/tls_parser.py:11-12 | the result is 2 bytes longer than `s`; its first two bytes are `len(s)` big-endian and the rest is `s` unchanged |
| Framing.PackUint16RoundTrip | shadowproxy/plugins/tls_parser.py:11-12 | unpacking a packed field followed by any bytes gives back the field and those bytes |
| Framing.UnpackUint16Inverse | shadowproxy/plugins/tls_parser.py:11-12 | every field the unpacker reads is shorter than 2^16, and the input is that field packed, followed by the rest |
| Framing.Sni | shadowproxy/plugins/tls_parser.py:15-16 | `sni(host)` as written; no contract of its own, described by `SniLayout` and `SniMisplacesNameType` |
| Framing.SniLayout | shadowproxy/plugins/tls_parser.py:15-16 | `sni(host)` is `len(host) + 9` bytes, starts `00 00`, carries the nested lengths `h+5`, `h+3`, `h+1`, and ends with `00 ++ host` |
| Framing.SniMisplacesNameType | shadowproxy/plugins/tls_parser.py:15-16 | `sni` and the RFC 6066 encoding agree everywhere except bytes 6 to 8. There `sni` has length-then-`00` and the RFC has `00`-then-length, so the two always differ |
| Framing.SniExample | shadowproxy/plugins/tls_parser.py:15-16 | for host `a`, `sni` gives `00 00 00 06 00 04 00 02 00 61` and the RFC 6066 encoding gives `00 00 00 06 00 04 00 00 01 61` |
| Framing.MisplacedDiffers | shadowproxy/plugins/tls_parser.py:15-16 | a 16-bit length of `h+1` followed by `00` never equals `00` followed by a 16-bit length of `h` |
| Framing.SniExtensionLayout | shadowproxy/plugins/tls_parser.py:15-16 | the corrected encoding: type `00 00`, extension and list lengths that match the bytes after them, name_type 0, then the host length and the host |
| Protocol.Mask14Admits | shadowproxy/plugins/tls_parser.py:27 | `length == length & 0x3FFF` holds exactly for lengths up to `0x3FFF` |
| Protocol.TicketLenRange | shadowproxy/plugins/tls_parser.py:64 | a ticket length is even and between 64 and 390, and every such length can be drawn |
| HelloParser.CheckHelloBody | shadowproxy/plugins/tls_parser.py:32-44 | an accepted body yields a session length of at least 32 and a session id no longer than that length |
| HelloParser.CheckClientHello | shadowproxy/plugins/tls_parser.py:29-44 | an accepted fragment yields a valid session length and session id |
| HelloParser.ParseClientHello | shadowproxy/plugins/tls_parser.py:22-44 | an accepted hello is valid, and the bytes consumed (at least the 5 head bytes) are within the input |
| HelloParser.CheckClientHelloExact | shadowproxy/plugins/tls_parser.py:29-44 | a fragment passes exactly when: its type is 1, the body starts with `tls_version`, the timestamp is fresh, byte 34 exists and is at least 32, and `verify_id[22:]` is the tag of `verify_id[:22]` under `master_key + session_id`. The session id is then `body[35:35+session_length]` |
| HelloParser.ClientHelloAcceptance | shadowproxy/plugins/tls_parser.py:22-44 | the parser accepts exactly when: the head is `16 03 01`, the length is at most `0x3FFF`, the whole fragment is present and it passes the checks |
| HelloParser.ClientHelloConsumed | shadowproxy/plugins/tls_parser.py:22-44 | an accepted ClientHello consumes `5 + length` bytes, exactly its record, and yields `body[35:35+session_length]` as the session id |
| HelloParser.ClientHelloWaits | shadowproxy/plugins/tls_parser.py:22-28 | the parser waits exactly while the head is incomplete, or while the head passes and the fragment is incomplete |
| HelloParser.HeadRejectedEarly | shadowproxy/plugins/tls_parser.py:22-28 | a wrong head, or a length over `0x3FFF`, is rejected from the 5 head bytes alone, whatever follows |
| HelloParser.ParseClientHelloExtends | shadowproxy/plugins/tls_parser.py:22-44 | once the parser has accepted or rejected, more input does not change the outcome |
| HelloParser.HelloBodyWithOutcome | shadowproxy/plugins/tls_parser.py:32-44 | a client_hello body built with version, timestamp, nonce, tag and session id fails `Expired` when stale, even with the genuine tag. When fresh, it fails `MacMismatch` unless the tag is genuine, and otherwise yields the session id |
| HelloParser.ClientHelloRecordUnwraps | shadowproxy/plugins/tls_parser.py:22-31 | a body wrapped in a handshake message and a `16 03 01` record reaches exactly the body checks, and acceptance consumes the whole record |
| HelloParser.ClientHelloWithOutcome | shadowproxy/plugins/tls_parser.py:35-44 | a framed ClientHello is rejected as `Expired` when stale, even with the genuine tag. If fresh, any other tag is rejected as `MacMismatch`; otherwise the whole record is accepted |
| HelloReply.ServerRandom | shadowproxy/plugins/tls_parser.py:49-53 | the server random; no contract of its own, described by `ServerRandomLayout` |
| HelloReply.HelloBodyOut | shadowproxy/plugins/tls_parser.py:54-60 | the ServerHello body; no contract of its own, described by `HelloRecordLayout` |
| HelloReply.HelloRecord | shadowproxy/plugins/tls_parser.py:54-62 | the ServerHello record is `54 + len(session_id)` bytes |
| HelloReply.TicketRecord | shadowproxy/plugins/tls_parser.py:63-66 | the SessionTicket record is 9 bytes longer than the drawn ticket |
| HelloReply.ServerRandomLayout | shadowproxy/plugins/tls_parser.py:49-53 | the random is 32 bytes: first byte 0, first 4 bytes the clock masked to 24 bits, then the 18 random bytes, then the tag of the first 22 bytes |
| HelloReply.HelloRecordLayout | shadowproxy/plugins/tls_parser.py:54-62 | byte positions of the ServerHello record: type 22, version, length `49+s`, `02 00`, length `45+s`, version, random, session length, session id, `c02f000005ff01000100` |
| HelloReply.HelloRecordHead | shadowproxy/plugins/tls_parser.py:54-62 | the record head is type 22, the version and a length `49+s` counting everything after it; the handshake head is `02 00` and a length `45+s` counting the body after it |
| HelloReply.HelloRecordRandom | shadowproxy/plugins/tls_parser.py:49-62 | in the ServerHello record the random starts with 0, and its last 10 bytes are the tag of its first 22 |
| HelloReply.TicketRecordLayout | shadowproxy/plugins/tls_parser.py:63-66 | ticket record: type 22, version, length `t+4`, `04 00`, length `t`, then the ticket bytes |
| HelloReply.FinishedHead | shadowproxy/plugins/tls_parser.py:68-74 | the Finished-looking record without its tag; no contract of its own, described by `FinishedHeadLayout` |
| HelloReply.ServerHello | shadowproxy/plugins/tls_parser.py:49-77 | the whole response `tls1_2_request` writes; no contract of its own, described by the `ServerHello*` lemmas below |
| HelloReply.ServerHelloOpens | shadowproxy/plugins/tls_parser.py:54-62 | the response begins with the ServerHello record |
| HelloReply.ServerHelloTicket | shadowproxy/plugins/tls_parser.py:63-66 | when `randint(0, 8)` gave 0, the SessionTicket record comes right after the ServerHello record |
| HelloReply.ServerHelloChangeCipher | shadowproxy/plugins/tls_parser.py:63-67 | the ChangeCipherSpec record comes right after the ServerHello record and the ticket record, if one was drawn |
| HelloReply.ServerHelloFinished | shadowproxy/plugins/tls_parser.py:68-77 | the Finished-looking record, without its last 10 bytes, comes just before the final 10 bytes |
| HelloReply.FinishedHeadLayout | shadowproxy/plugins/tls_parser.py:68-74 | that record is type 22, the version, and the length `finish_len`, which is 32 or 40. The length counts its padding and the 10-byte tag after it |
| HelloReply.ServerHelloTag | shadowproxy/plugins/tls_parser.py:75-77 | the last 10 bytes of the response are the tag, under `master_key + session_id`, of everything before them |
| HelloReply.ServerHelloLength | shadowproxy/plugins/tls_parser.py:54-77 | the response is `54 + s` bytes of ServerHello, the ticket record if drawn, 6 bytes of ChangeCipherSpec, and `5 + finish_len` bytes of Finished-looking record |
| FinishedReader.CheckCipherHead | shadowproxy/plugins/tls_parser.py:84-95 | a passing 11-byte head announces a Finished length below 256 |
| FinishedReader.ParseFinished | shadowproxy/plugins/tls_parser.py:84-102 | acceptance consumes at least the 11 head bytes and no more than the input |
| FinishedReader.FinishedAcceptance | shadowproxy/plugins/tls_parser.py:84-102 | acceptance holds exactly when `data[0] == 0x14`, `data[1:3]` and `data[7:9]` are the version, `data[3:6] == 00 01 01`, `data[6] == 0x16` and `data[9] == 0`, the body is present, and its last 10 bytes are the tag of all bytes before them. It then consumes `11 + data[10]` bytes |
| FinishedReader.FinishedWaits | shadowproxy/plugins/tls_parser.py:84-96 | the reader waits exactly while the 11 head bytes are incomplete, or while they pass and the body is incomplete |
| FinishedReader.ShortFinishedRejected | shadowproxy/plugins/tls_parser.py:95-102 | a Finished body shorter than 10 bytes is never accepted |
| FinishedReader.ParseFinishedExtends | shadowproxy/plugins/tls_parser.py:84-102 | once decided, more input does not change the outcome |
| FinishedReader.ClientFinishedOutcome | shadowproxy/plugins/tls_parser.py:84-102 | a framed ChangeCipherSpec and Finished is accepted, consuming exactly those records, exactly when its tag is genuine; otherwise `MacMismatch` |
| AppData.ParseRecord | shadowproxy/plugins/tls_parser.py:108-115 | one turn of the `application_data` loop; no contract of its own, described by `RecordHeadRejected`, `RecordWaits`, `ParseRecordExtends` and `ParseAppRecord` |
| AppData.Relay | shadowproxy/plugins/tls_parser.py:107-116 | the `while True` loop run until a read waits or a check fails; no contract of its own, described by `RelayStops`, `RelayAccepted`, `RelayExtends` and `RelayRecords` |
| AppData.RecordHeadRejected | shadowproxy/plugins/tls_parser.py:108-114 | a record of type other than `0x17`, or with a wrong version, or with a size over `0x3FFF`, is rejected from its 5 head bytes, whatever follows |
| AppData.RecordWaits | shadowproxy/plugins/tls_parser.py:107-115 | one turn waits exactly while the head is incomplete, or while the head passes and the payload is incomplete |
| AppData.RelayStops | shadowproxy/plugins/tls_parser.py:107-116 | the loop stops only on an incomplete record (no error) or on a rejected one (that error). The unread bytes are a suffix of the input, and the output is no longer than the bytes consumed |
| AppData.ParseRecordExtends | shadowproxy/plugins/tls_parser.py:108-115 | once a record is decided, more input does not change the decision |
| AppData.RelayAccepted | shadowproxy/plugins/tls_parser.py:107-116 | an accepted record writes its payload, then the loop goes on with the bytes after it |
| AppData.RelayExtends | shadowproxy/plugins/tls_parser.py:107-116 | relaying bytes delivered in two pieces writes the same output as relaying them at once. If the loop had stopped on an error, it stays stopped |
| AppData.ParseAppRecord | shadowproxy/plugins/tls_parser.py:108-115 | a well-formed record is accepted with its payload, consuming `5 + len(payload)` bytes |
| AppData.RelayAppRecord | shadowproxy/plugins/tls_parser.py:107-116 | a well-formed record writes its payload, and the loop goes on with what follows |
| AppData.RelayRecords | shadowproxy/plugins/tls_parser.py:107-116 | a sequence of well-formed records relays to the concatenation of their payloads, leaving nothing unread and no error |
| AppData.RelayFrameChunks | shadowproxy/plugins/tls_parser.py:107-116 | a stream cut into records of at most `0x3FFF` bytes relays back to exactly that stream |
| Server.Advance | shadowproxy/plugins/tls_parser.py:19-116 | the three parsers chained from a phase over the buffered bytes; no contract of its own, described by `AdvanceExtends`, `NoReplyUnlessAccepted` and `GenuineSession` |
| Server.AdvanceExtends | shadowproxy/plugins/tls_parser.py:19-116 | running the parsers on bytes delivered in two pieces gives the same phase, unread bytes and written bytes as running them on the whole |
| Server.NoReplyUnlessAccepted | shadowproxy/plugins/tls_parser.py:22-78 | nothing is written unless a ClientHello has passed every check. When one has, the output starts with the response built for it |
| Server.GenuineSession | shadowproxy/plugins/tls_parser.py:19-116 | a client sharing the key sends a fresh genuine ClientHello, the genuine ChangeCipherSpec and Finished, then application-data records. The server writes its response and then exactly the payloads, and stays relaying with nothing unread |
| Server.GenuineFinish | shadowproxy/plugins/tls_parser.py:79-116 | after the response, the genuine ChangeCipherSpec and Finished and then application-data records relay exactly the payloads, with nothing unread |
| Server.UnauthenticHelloClosed | shadowproxy/plugins/tls_parser.py:35-44 | a stale ClientHello closes as `Expired`, and a fresh one with a wrong tag closes as `MacMismatch`. Either way nothing is written |
| Server.ForgedFinishedClosed | shadowproxy/plugins/tls_parser.py:97-102 | a Finished with a wrong tag closes as `MacMismatch` before any application data is relayed |
| Session.Connection.Read | shadowproxy/plugins/tls_parser.py:22 | `iofree.read(n)` for `n >= 1` gives exactly the next `n` bytes and consumes them. With fewer buffered it gives nothing and consumes nothing. `Read(0)` gives no bytes (see "Left out") |
| Session.Connection.Write | shadowproxy/plugins/tls_parser.py:78 | `iofree.write` appends to the output |
| Session.Connection.ReadClientHello | shadowproxy/plugins/tls_parser.py:20-78 | in every outcome (waiting, each rejection, acceptance), the bytes consumed, the bytes written and the new phase are those of `ParseClientHello` and the response |
| Session.Connection.BuildServerHello | shadowproxy/plugins/tls_parser.py:49-77 | growing `server_hello` record by record and appending the tag gives the response `ServerHello` that the `ServerHello*` lemmas describe |
| Session.Connection.ReadChangeCipher | shadowproxy/plugins/tls_parser.py:83-102 | the bytes consumed and the new phase are those of `ParseFinished`; a rejection consumes nothing |
| Session.Connection.ReadRecord | shadowproxy/plugins/tls_parser.py:108-116 | one turn of the loop consumes and writes what `ParseRecord` says, and reports whether it forwarded a payload |
| Session.Connection.RelayApplicationData | shadowproxy/plugins/tls_parser.py:105-116 | the loop writes exactly what `Relay` computes for the buffered bytes, and leaves the unread bytes and the error it stopped on |
| Session.Connection.HandshakeAndRelay | shadowproxy/plugins/tls_parser.py:19-116 | `tls1_2_request`, then `ChangeCipherReader` and the relay loop, leave the state that `Advance` gives for the ClientHello phase |
| Session.Connection.FinishAndRelay | shadowproxy/plugins/tls_parser.py:79-116 | `ChangeCipherReader` and then the relay loop leave the state `Advance` gives for the Finished phase |
| Session.Connection.Pump | shadowproxy/plugins/tls_parser.py:19-116 | one run of the parsers leaves the phase, unread bytes and output that `Advance` gives |
| Session.Connection.Deliver | shadowproxy/plugins/tls_parser.py:19-116 | after any sequence of deliveries, the state is what `Advance` makes of the whole received stream |

## Left out

- The `iofree` coroutine machinery is not modelled. A suspended read is
  modelled by re-running the current step (phase, or relay record) from its
  start once more bytes arrive. `Server.AdvanceExtends` proves this gives
  the same result.
- The hand-off from `tls1_2_request` (line 19) to `application_data`
  (line 105) is host code that `tls_parser.py` does not contain, and the
  model assumes it. These are two separate `@iofree.parser`s. `Server.Advance`,
  `Session.Connection.FinishAndRelay`, `Server.GenuineSession` and
  `Server.AdvanceExtends` across phases assume two things of the host. It
  starts `application_data` once `tls1_2_request` returns `"done"`. It feeds
  that parser the bytes still buffered after the Finished record, the
  `readall()` hand-off that `shadowproxy/proxies/socks/client.py` shows at
  lines 31 and 51 for its own parsers.
- Every check of the core is a Python `assert` (lines 23-44, 85-102 and
  109-114). The model assumes assertions are enabled. Under `python -O`
  they are removed and the source accepts any input; that mode is not
  modelled.
- HMAC-SHA1 is not modelled. The keyed hash truncated to 10 bytes is the
  parameter `Config.mac`, about which nothing is assumed.
- `time()`, `os.urandom`, `random.randint` and `random.choice` are inputs,
  the fields of `Env`. `ValidEnv` states the ranges they draw from.
- `Session.Connection.Deliver` uses one `Env` for the whole stream. Only the
  ClientHello phase draws from it, and that phase completes once.
- `time_tolerance` is an integer in the model. A float tolerance is not
  modelled.
- The cipher suite and compression method slices read at lines 45-48 are
  discarded by the source and are not modelled.
- There is no replay cache, as in the source (the TODO at line 34).
- After a failed check, the connection is `Closed` with the error and its
  buffer is kept as it was. What the host does next with the transport is
  not modelled.
- The outbound direction, wrapping proxied bytes into application-data
  records, is not in `tls_parser.py`. `AppData.FrameChunks` is a reference
  encoder used to state what the relay loop accepts.
- `shadowproxy/proxies/socks/client.py` is socket I/O and is not part of
  this model. `shadowproxy/proxies/__init__.py` is a name-to-class table
  and is not part of this model either.
- Zero-length reads are not modelled as `iofree` runs them. `iofree` is
  not part of this model. Its `read(0)` is documented as reading whatever
  is buffered, whereas `Session.Connection.Read`, `AppData.ParseRecord`,
  `HelloParser.ParseClientHello` and `FinishedReader.ParseFinished` treat a
  length of 0 as reading no bytes. So an application-data record of size 0
  (line 115) forwards nothing here, and the relay goes on to parse what
  follows as records; under `iofree` the source would forward all buffered
  bytes raw. A ClientHello record of length 0 (line 28) is rejected here as
  `MissingByte`, and a Finished length of 0 (line 96) is read as an empty
  body. Under `iofree` a zero-length read would also depend on how the
  stream was cut into deliveries, so `Server.AdvanceExtends` would not hold
  for it.
- Framing.PackUint16: requires `len(s) < 2^16`. `int.to_bytes(2, "big")`
  raises `OverflowError` for longer inputs, and that error path is not
  modelled.
- Framing.Sni: requires `len(host) + 5 < 2^16`, for the same reason.

## Findings

| source | as written | input that shows it | evidently intended | confidence | as-written member | corrected member |
|---|---|---|---|---|---|---|
| shadowproxy/plugins/tls_parser.py:15-16 | `sni` packs `00 ++ host` with a 16-bit length, so the host_name length comes before the name_type byte | host `a`: `sni` gives `00 00 00 06 00 04 00 02 00 61` | section 3 of RFC 6066: name_type `00`, then the 16-bit host length, then the host, giving `00 00 00 06 00 04 00 00 01 61` | not executed | Framing.SniMisplacesNameType | Framing.SniExtensionLayout |
