# HybridWire protocol core in Dafny

HybridWire is a dual-mode wire protocol: one listening endpoint serves plain
HTTP and a compact binary session protocol, telling them apart by sniffing
the first bytes of a connection. The repository holds three overlapping
drafts of its byte-level core, each with its own header layout. This project
models each draft in its own module, as its code defines it, without
reconciling them:

- `HybridWire` (`hybridwire.dfy`, proofs in `hybridwire_proofs.dfy`): the
  sniffing parser. A packed 12-byte `ProtocolHeader` (magic `"HWP\0"`,
  big-endian `head_len`, version, flags, reserved) and a 16-byte binary
  `SessionHeader` (big-endian u64 session id, u32 message type, u32 payload
  length); the heuristic `is_http_request`; and `ProtocolParser::parse`, a
  class method that answers NEED_MORE, HTTP, CUSTOM or ERROR and stores what
  it decoded in the parser's fields. `Parse` is proved against the pure
  function `Classify`, and the properties are lemmas about `Classify`.
  The accessors `header()`, `http_data()` and `session_header()` are the
  functions `Header`, `HttpData` and `Session`, which read the fields and
  change nothing.
- `HybridWireProtocol` (`hybridwire_protocol.dfy`): the codec over a packed
  15-byte header (magic, version, type, flags, u32 session id, u32 payload
  length), with `createMessage` (16 MiB payload limit, flags defaulting to
  0), `serializeMessage`, `deserializeMessage` and the constructors
  `initializeFileTransfer` and `createSession`, plus the message-type, flag
  and error-code constants.
- `Hwp` (`hwp_protocol.dfy`): the hwp draft over an 8-byte base header and
  a 12-byte session header, with `create_message`, `serialize_message` and a
  three-way `ProtocolHandler::parse` in which the HTTP bit wins and a short
  buffer is an error.
- `Bytes` (`bytes.dfy`): fixed-width integers, big- and little-endian
  encodings, and `htonl`/`ntohl` on a little-endian host; `Results`
  (`results.dfy`): the `Result` type that stands for thrown exceptions.

Struct copies (`memcpy`, `reinterpret_cast`) are explicit encode/decode
functions. Fields the code converts with `ntohl`/`be64toh`/`htonl` are read
or written big-endian; fields it copies without conversion are in host
order, and the host is fixed as little-endian. The byte-order chain of the
codec is modelled literally: `createMessage` stores `htonl` values in its
struct, `serializeMessage` copies the struct's memory image, and
`deserializeMessage` applies `ntohl` to the copied words.

The three drafts disagree with each other, and each module keeps its own
draft's behaviour: only the hybridwire parser reports an incomplete read
(src/hybridwire.cpp:29-32, 49-52, 93-97), while hwp's `parse` answers ERROR
on a short buffer and never reads `head_len` (src/protocol.cpp:51-80); the
codec does not check the version byte it writes (src/hybridwire_protocol.cpp:47-75);
the hybridwire headers are 12 and 16 bytes, the codec's 15 and hwp's 8 and 12.

## Model

| member | source | states |
|---|---|---|
| `Bytes.ByteSwap32` | src/hybridwire_protocol.cpp:26-27 | the value `htonl` stores has the big-endian bytes of its argument as its memory image |
| `Bytes.ByteSwapOfHostWord` | src/hybridwire_protocol.cpp:61-62 | `ntohl` applied to a host-order copy of four bytes reads them big-endian |
| `Bytes.ByteSwapInvolutive` | src/hybridwire_protocol.cpp:61-62 | `ntohl` undoes `htonl` |
| `HybridWire.EncodeProtocolHeader` | include/hybridwire.hpp:11-17 | the packed protocol header is 12 bytes: magic, head_len, version, flags, reserved |
| `HybridWire.DecodeProtocolHeader` | src/hybridwire.cpp:34-36 | the memcpy of 12 bytes with `ntohl` of head_len keeps every byte: re-encoding the decoded header gives the bytes back |
| `HybridWire.ProtocolHeaderRoundTrip` | src/hybridwire.cpp:34-36 | decoding the first 12 bytes (copy, then `ntohl` of head_len) recovers every header field that was encoded |
| `HybridWire.EncodeSessionHeader` | include/hybridwire.hpp:20-24 | the packed session header is 16 bytes, so a binary head_len is 12 + 16 = 28 |
| `HybridWire.DecodeSessionHeader` | src/hybridwire.cpp:86-90 | the memcpy of bytes 12..28 with `be64toh`, `ntohl`, `ntohl` keeps every byte: re-encoding gives them back |
| `HybridWire.SessionHeaderRoundTrip` | src/hybridwire.cpp:86-90 | the `be64toh`/`ntohl` decode of bytes 12..28 recovers session id, message type and payload length |
| `HybridWire.SearchFrom` | src/hybridwire.cpp:23-24 | `std::search` returns the first position where "HTTP/1." occurs, or the end when it occurs nowhere |
| `HybridWire.IsHttpRequest` | src/hybridwire.cpp:7-25 | false under 16 bytes; from 16 bytes on, true iff the buffer starts with "GET ", "POST ", "HEAD ", "PUT " or "DELETE " or contains "HTTP/1." anywhere |
| `HybridWire.IsHttpRequestExtends` | src/hybridwire.cpp:7-25 | appending bytes to an HTTP-looking buffer keeps it HTTP-looking |
| `HybridWire.TotalNeededAsWritten` | src/hybridwire.cpp:93 | the source's uint32_t sum of head_len and payload_len, which wraps past 2^32 |
| `HybridWire.Classify` | src/hybridwire.cpp:27-103 | NEED_MORE always asks for more bytes than were given; HTTP's body is the slice after head_len; CUSTOM has head_len 28 and the whole announced payload in the buffer |
| `HybridWire.ProtocolParser.constructor` | include/hybridwire.hpp:42-46 | a fresh parser has required_bytes_ 0 and empty http_data_ |
| `HybridWire.ProtocolParser.Header` | include/hybridwire.hpp:38 | `header()` returns the stored header_ and reads nothing but the parser |
| `HybridWire.ProtocolParser.HttpData` | include/hybridwire.hpp:39 | `http_data()` returns the stored http_data_ and reads nothing but the parser |
| `HybridWire.ProtocolParser.Session` | include/hybridwire.hpp:40 | `session_header()` returns the stored session_header_ and reads nothing but the parser |
| `HybridWire.ProtocolParser.Parse` | src/hybridwire.cpp:27-103 | returns the classification of the buffer; NEED_MORE sets only required_bytes_ (to more than the length), HTTP sets only header_ and http_data_, CUSTOM only header_ and session_header_, ERROR changes nothing |
| `HybridWireProofs.ShortBufferNeedsHeader` | src/hybridwire.cpp:29-32 | under 12 bytes the answer is NEED_MORE for 12 |
| `HybridWireProofs.BadMagicOrVersionRejected` | src/hybridwire.cpp:39-46 | bytes 0..4 other than "HWP\0" or a version byte (offset 8) other than 1 give ERROR |
| `HybridWireProofs.ShortOfHeadLenNeedsMore` | src/hybridwire.cpp:49-52 | a valid header with head_len above the length gives NEED_MORE for head_len |
| `HybridWireProofs.ConflictingFlagsRejected` | src/hybridwire.cpp:55-62 | flag bits 0x01 and 0x02 both set or both clear give ERROR |
| `HybridWireProofs.HttpIff` | src/hybridwire.cpp:64-78 | HTTP iff the header passes, only the HTTP bit is set and the bytes from head_len on look like HTTP; the result then carries the decoded header and exactly that slice |
| `HybridWireProofs.CustomIff` | src/hybridwire.cpp:79-102 | CUSTOM iff the header passes, only the binary bit is set, head_len is 28 and the length is at least 28 + payload_len; the session header is then the big-endian decode of bytes 12..20, 20..24, 24..28 |
| `HybridWireProofs.CustomWrongHeadLenRejected` | src/hybridwire.cpp:81-83 | a passing header with only the binary bit and a head_len other than 28 gives ERROR |
| `HybridWireProofs.NonHttpBodyRejected` | src/hybridwire.cpp:71-72 | under the HTTP bit, bytes after head_len that do not look like HTTP give ERROR, for every head_len |
| `HybridWireProofs.IncompleteIff` | src/hybridwire.cpp:29-97 | NEED_MORE iff under 12 bytes, or a valid header announcing more than is present, or a binary frame (head_len 28) lacking part of its payload; with HttpIff and CustomIff every other buffer is ERROR |
| `HybridWireProofs.NeedMoreIsPrefixClosed` | src/hybridwire.cpp:29-97 | after NEED_MORE for n bytes of a stream, every read of that stream shorter than n also gets NEED_MORE |
| `HybridWireProofs.CustomFrameRoundTrip` | src/hybridwire.cpp:79-102 | an encoded binary frame with its whole payload is CUSTOM with the encoded headers whatever bytes trail it, a 28-byte frame with payload_len 0 included |
| `HybridWireProofs.CustomFramePrefixNeedsMore` | src/hybridwire.cpp:93-97 | every proper prefix of an encoded binary frame is NEED_MORE |
| `HybridWireProofs.HttpFrameRoundTrip` | src/hybridwire.cpp:64-78 | a 12-byte HTTP-mode header followed by a request is HTTP with that request when it looks like HTTP, ERROR otherwise |
| `HybridWireProofs.SampleRequestIsHttp` | src/hybridwire.cpp:64-78 | a header followed by "GET / HTTP/1.1\r\n\r\n" is HTTP with that request as http_data_ |
| `HybridWireProofs.WrappedTotalAcceptsTruncatedFrame` | src/hybridwire.cpp:93-97 | with payload_len 0xFFFFFFFF the source's sum wraps to 27, so its test passes a 28-byte frame, while the model asks for 28 + 0xFFFFFFFF bytes |
| `HybridWireProtocol.CreateMessage` | src/hybridwire_protocol.cpp:15-31 | fails iff the payload exceeds 16 MiB; otherwise magic "HWP\0", version 1, the given type and flags (0 by default), session id and payload length in network order, the payload unchanged |
| `HybridWireProtocol.HeaderImage` | include/hybridwire_protocol.h:35-42 | the packed header occupies 4+1+1+1+4+4 = 15 bytes |
| `HybridWireProtocol.HeaderFromImage` | src/hybridwire_protocol.cpp:53 | the memcpy into the header struct keeps every byte: the struct's image is exactly the 15 bytes copied |
| `HybridWireProtocol.SerializeMessage` | src/hybridwire_protocol.cpp:32-45 | the output is 15 + payload bytes long: the header struct's memory image (host-order words, whatever values the struct holds), then the payload verbatim |
| `HybridWireProtocol.DeserializeMessage` | src/hybridwire_protocol.cpp:47-75 | fails with too-small iff under 15 bytes, wrong-magic iff the first four bytes are not "HWP\0", size-mismatch iff the length differs from 15 + the big-endian length, and succeeds iff none of the three holds; the payload is then bytes 15.. and the session id and length are the big-endian decodes; version and type are not checked |
| `HybridWireProtocol.SerializedLayout` | src/hybridwire_protocol.cpp:15-45 | a created message serializes with the session id at 7..11 and the payload length at 11..15, both big-endian |
| `HybridWireProtocol.RoundTrip` | src/hybridwire_protocol.cpp:15-75 | deserializing a serialized created message succeeds with the type, session id, flags and payload it was created with |
| `HybridWireProtocol.CreatedAndDecodedHeadersDiffer` | src/hybridwire_protocol.cpp:26-62 | for every created message, the struct holds the byte-swapped session id and length while the deserialized one holds the values themselves (0x01000000 against 1 for id 1) |
| `HybridWireProtocol.InitializeFileTransfer` | src/hybridwire_protocol.cpp:77-85 | filename and total size copied, nothing transferred, 65536-byte chunks, not complete |
| `HybridWireProtocol.CreateSession` | src/hybridwire_protocol.cpp:87-94 | client id copied, not authenticated, id and timestamp as supplied |
| `Hwp.CreateMessage` | src/protocol.cpp:7-30 | magic, version 1, the given flags, head_len 8 + 12 = 20 whatever the flags, the session id with sequence and ack numbers 0, the payload with no size limit |
| `Hwp.TypeIsNotStored` | src/protocol.cpp:7-30 | the message does not depend on the type argument |
| `Hwp.EncodeBaseHeader` | include/hwp/protocol.hpp:27-32 | the base header is 8 bytes: magic, version, flags, head_len |
| `Hwp.EncodeSessionHeader` | include/hwp/protocol.hpp:35-39 | the session header is three u32 fields, 12 bytes |
| `Hwp.DecodeSessionHeader` | src/protocol.cpp:74 | the reinterpret_cast of bytes 8..20 keeps every byte: the struct's image is exactly those 12 bytes |
| `Hwp.SessionHeaderRoundTrip` | src/protocol.cpp:74 | reinterpreting 12 host-order bytes recovers the session header that was copied |
| `Hwp.SerializeMessage` | src/protocol.cpp:32-49 | the output is 20 + payload bytes: base header, session header (also in HTTP mode), then the payload verbatim |
| `Hwp.Classify` | src/protocol.cpp:51-80 | a verdict other than ERROR needs 8 bytes, an "HWP" prefix and version 1; BINARY needs 20 bytes and only the binary bit |
| `Hwp.ProtocolHandler.constructor` | include/hwp/protocol.hpp:66-67 | a fresh handler's current session is zeroed |
| `Hwp.ProtocolHandler.GetSessionHeader` | include/hwp/protocol.hpp:64 | `get_session_header()` returns the stored current_session_ and reads nothing but the handler |
| `Hwp.ProtocolHandler.Parse` | src/protocol.cpp:51-80 | returns the verdict; current_session_ is set from bytes 8..20 on BINARY and unchanged otherwise |
| `Hwp.ShortIsError` | src/protocol.cpp:52-54 | under 8 bytes the verdict is ERROR; there is no incomplete-input outcome |
| `Hwp.FourthMagicByteIgnored` | src/protocol.cpp:59-61 | changing the fourth magic byte never changes the verdict |
| `Hwp.HttpBitTakesPrecedence` | src/protocol.cpp:69-70 | with a valid prefix and version, bit 0x01 gives HTTP whatever bit 0x02 says |
| `Hwp.HttpIff` | src/protocol.cpp:59-70 | HTTP iff at least 8 bytes, the "HWP" prefix, version 1 and bit 0x01; with BinaryIff every other buffer is ERROR |
| `Hwp.BinaryIff` | src/protocol.cpp:71-79 | BINARY iff prefix and version pass, 0x01 is clear, 0x02 is set and at least 20 bytes are present |
| `Hwp.RoundTrip` | src/protocol.cpp:7-80 | a serialized created message is HTTP, BINARY or ERROR as its flags say, and its session header reads back as the session id with zero sequence numbers |

## Left out

- Network and threading (`src/server.cpp`, `src/HybridClient.cpp`, `examples/http_example.cpp`, `include/hwp/client.hpp`, `include/hwp/server.hpp`): socket and thread code with no protocol logic. The client writes `head_len` with `htons` (src/HybridClient.cpp:37) while `create_message` stores it in host order; hwp's `parse` never reads `head_len`, so the disagreement has no effect on the model.
- `src/example.cpp`: a file and console demo. Nothing in the code sets `is_complete` to true, so the model attaches no completion semantics to `FileTransferState`.
- `generateSessionId` and `getCurrentTimestamp` read the system clock; `CreateSession` takes the session id and timestamp as parameters instead.
- Host byte order: fixed as little-endian. It decides the reserved field of the hybridwire header, the numeric values held in the codec's header struct, and every multi-byte field of the hwp draft.
- Exceptions: each `std::runtime_error` of the codec is a `CodecError` value.
- The compression, encryption and acknowledgement flags are carried as bytes with no behaviour.
- Fields the C++ leaves uninitialised (`header_` and `session_header_` of the parser, `current_session_` of the hwp handler) are zeroed by the constructors.
- `size_t` lengths are unbounded naturals (a 64-bit `size_t` never overflows here); `http_data_`, a `std::string`, is a byte sequence.
- `HybridWire.ProtocolParser.Parse`: computes the payload-completeness total exactly instead of in 32-bit arithmetic as the source does (see Findings).
- `HybridWire.Classify`: uses the same exact total as `Parse`, not the source's 32-bit wrapped sum (see Findings).

## Findings

| source | as written | input that shows it | evidently intended | confidence | as-written member | corrected member |
|---|---|---|---|---|---|---|
| src/hybridwire.cpp:93 | `total_needed = head_len + payload_len` adds two `uint32_t` values, so the sum wraps modulo 2^32 before it is widened to `size_t` | a 28-byte buffer: magic "HWP\0", head_len 28, version 1, flags 0x02, payload_len 0xFFFFFFFF; `total_needed` is 27, so `parse` answers CUSTOM although no payload byte is present | CUSTOM only when the buffer holds head_len + payload_len bytes, NEED_MORE otherwise | not executed | `HybridWire.TotalNeededAsWritten`, `HybridWireProofs.WrappedTotalAcceptsTruncatedFrame` | `HybridWire.Classify`, `HybridWireProofs.CustomIff` |
