/** The hybridwire message codec of include/hybridwire_protocol.h and
    src/hybridwire_protocol.cpp: a packed 15-byte header whose session id
    and payload length are converted with htonl, the payload after it, and
    two plain constructors for session and file-transfer state. */
module HybridWireProtocol {
  import opened Bytes
  import opened Results

  const PROTOCOL_VERSION: byte := 0x01

  // MessageType (an enum class over uint8_t)
  const HANDSHAKE: byte := 0x01
  const SESSION_INIT: byte := 0x02
  const SESSION_ACK: byte := 0x03
  const FILE_TRANSFER_START: byte := 0x10
  const FILE_TRANSFER_DATA: byte := 0x11
  const FILE_TRANSFER_END: byte := 0x12
  const MESSAGE: byte := 0x20
  const ERROR: byte := 0xFF

  // Flags: carried only, no behaviour is attached to them
  const NONE: byte := 0x00
  const COMPRESSED: byte := 0x01
  const ENCRYPTED: byte := 0x02
  const REQUIRES_ACK: byte := 0x04

  // ErrorCode (an enum class over uint16_t)
  const NO_ERROR: u16 := 0x0000
  const INVALID_PROTOCOL: u16 := 0x0001
  const INVALID_SESSION: u16 := 0x0002
  const AUTHENTICATION_FAILED: u16 := 0x0003
  const FILE_TRANSFER_ERROR: u16 := 0x0004
  const COMPRESSION_ERROR: u16 := 0x0005
  const ENCRYPTION_ERROR: u16 := 0x0006

  /** sizeof(ProtocolHeader): 4 + 1 + 1 + 1 + 4 + 4 (the header comment's
      "16 bytes" does not match the packed struct). */
  const HEADER_SIZE: nat := 15
  const MAX_PAYLOAD_SIZE: nat := 16 * 1024 * 1024
  const DEFAULT_CHUNK_SIZE: u32 := 64 * 1024

  /** The header struct with each field as the program holds it. After
      createMessage sessionId and payloadLength hold htonl'd values; after
      deserializeMessage they hold host values. */
  datatype ProtocolHeader = ProtocolHeader(
    magic: Bytes4, version: byte, msgType: byte, flags: byte,
    sessionId: u32, payloadLength: u32)

  datatype Message = Message(header: ProtocolHeader, payload: seq<byte>)

  datatype SessionState = SessionState(
    sessionId: u32, isAuthenticated: bool, clientId: string, lastActivity: u64)

  datatype FileTransferState = FileTransferState(
    filename: string, totalSize: u64, bytesTransferred: u64, chunkSize: u32, isComplete: bool)

  /** The three runtime_error throws of the codec, one per message. */
  datatype CodecError = PayloadTooLarge | TooSmall | WrongMagic | PayloadSizeMismatch

  /** Build a message. Fails exactly when the payload exceeds 16 MiB;
      otherwise the header carries the magic, version 1, the given type and
      flags, and the session id and payload length in network byte order. */
  function CreateMessage(msgType: byte, sessionId: u32, payload: seq<byte>, flags: byte := NONE)
    : (r: Result<Message, CodecError>)
    ensures r.Err? <==> |payload| > MAX_PAYLOAD_SIZE
    ensures r.Err? ==> r.error == PayloadTooLarge
    ensures r.Ok? ==>
      && r.value.header.magic == MAGIC
      && r.value.header.version == PROTOCOL_VERSION
      && r.value.header.msgType == msgType
      && r.value.header.flags == flags
      && ToLE32(r.value.header.sessionId) == ToBE32(sessionId)
      && ToLE32(r.value.header.payloadLength) == ToBE32(|payload|)
      && r.value.payload == payload
  {
    if |payload| > MAX_PAYLOAD_SIZE then Err(PayloadTooLarge)
    else
      var header := ProtocolHeader(MAGIC, PROTOCOL_VERSION, msgType, flags,
                                   ByteSwap32(sessionId), ByteSwap32(|payload|));
      Ok(Message(header, payload))
  }

  /** The memory image of the packed header (host-order fields). */
  function HeaderImage(h: ProtocolHeader): (b: seq<byte>)
    ensures |b| == HEADER_SIZE
  {
    h.magic + [h.version, h.msgType, h.flags] + ToLE32(h.sessionId) + ToLE32(h.payloadLength)
  }

  /** memcpy of 15 bytes into the header struct: the struct's memory image
      is then exactly those bytes. */
  function HeaderFromImage(b: seq<byte>): (h: ProtocolHeader)
    requires |b| == HEADER_SIZE
    ensures HeaderImage(h) == b
  {
    LE32BijectiveOnBytes(b[7..11]);
    LE32BijectiveOnBytes(b[11..15]);
    assert b == b[..4] + [b[4], b[5], b[6]] + b[7..11] + b[11..15];
    ProtocolHeader(b[..4], b[4], b[5], b[6], LE32(b[7..11]), LE32(b[11..15]))
  }

  /** The header's 15 bytes followed by the payload verbatim. */
  function SerializeMessage(m: Message): (r: seq<byte>)
    ensures |r| == HEADER_SIZE + |m.payload|
    ensures r[..HEADER_SIZE] == HeaderImage(m.header)
    ensures r[HEADER_SIZE..] == m.payload
  {
    HeaderImage(m.header) + m.payload
  }

  /** Parse a message. Fails when fewer than 15 bytes are given, when the
      first four are not "HWP\0", or when the length is not 15 plus the
      big-endian payload length; the version and type bytes are not checked.
      On success the session id and payload length hold host values. */
  function DeserializeMessage(data: seq<byte>): (r: Result<Message, CodecError>)
    ensures r == Err(TooSmall) <==> |data| < HEADER_SIZE
    ensures r == Err(WrongMagic) <==> |data| >= HEADER_SIZE && data[..4] != MAGIC
    ensures r == Err(PayloadSizeMismatch) <==>
      |data| >= HEADER_SIZE && data[..4] == MAGIC && |data| != HEADER_SIZE + BE32(data[11..15])
    ensures r.Ok? <==>
      |data| >= HEADER_SIZE && data[..4] == MAGIC && |data| == HEADER_SIZE + BE32(data[11..15])
    ensures r.Ok? ==>
      r.value == Message(
        ProtocolHeader(MAGIC, data[4], data[5], data[6], BE32(data[7..11]), BE32(data[11..15])),
        data[HEADER_SIZE..])
  {
    if |data| < HEADER_SIZE then Err(TooSmall)
    else
      var image := data[..HEADER_SIZE];
      assert image[..4] == data[..4] && image[7..11] == data[7..11] && image[11..15] == data[11..15];
      var raw := HeaderFromImage(image);
      if raw.magic != MAGIC then Err(WrongMagic)
      else
        var header := raw.(sessionId := ByteSwap32(raw.sessionId),
                           payloadLength := ByteSwap32(raw.payloadLength));
        ByteSwapOfHostWord(data[7..11]);
        ByteSwapOfHostWord(data[11..15]);
        if |data| != HEADER_SIZE + header.payloadLength then Err(PayloadSizeMismatch)
        else Ok(Message(header, data[HEADER_SIZE..]))
  }

  /** A fresh transfer: nothing sent yet, 64 KiB chunks, not complete. */
  function InitializeFileTransfer(filename: string, totalSize: u64): (s: FileTransferState)
    ensures s.filename == filename && s.totalSize == totalSize
    ensures s.bytesTransferred == 0 && s.chunkSize == DEFAULT_CHUNK_SIZE && !s.isComplete
  {
    FileTransferState(filename, totalSize, 0, DEFAULT_CHUNK_SIZE, false)
  }

  /** A fresh, unauthenticated session. The identifier and the timestamp,
      which the source reads from the system clock, are parameters. */
  function CreateSession(clientId: string, sessionId: u32, timestamp: u64): (s: SessionState)
    ensures s.clientId == clientId && !s.isAuthenticated
    ensures s.sessionId == sessionId && s.lastActivity == timestamp
  {
    SessionState(sessionId, false, clientId, timestamp)
  }

  // ---- properties ----

  /** The bytes of a created message: magic, version 1, type, flags, then
      the session id and the payload length big-endian at offsets 7..11 and
      11..15, then the payload. */
  lemma {:induction false} SerializedLayout(msgType: byte, sessionId: u32, payload: seq<byte>, flags: byte)
    requires |payload| <= MAX_PAYLOAD_SIZE
    ensures CreateMessage(msgType, sessionId, payload, flags).Ok?
    ensures var b := SerializeMessage(CreateMessage(msgType, sessionId, payload, flags).value);
      && |b| == HEADER_SIZE + |payload|
      && b[..4] == MAGIC && b[4] == PROTOCOL_VERSION && b[5] == msgType && b[6] == flags
      && b[7..11] == ToBE32(sessionId) && b[11..15] == ToBE32(|payload|)
      && b[HEADER_SIZE..] == payload
  {
    var m := CreateMessage(msgType, sessionId, payload, flags).value;
    var b := SerializeMessage(m);
    var h := m.header;
    assert b[..HEADER_SIZE] == HeaderImage(h);
    assert b[7..11] == HeaderImage(h)[7..11] == ToLE32(h.sessionId);
    assert b[11..15] == HeaderImage(h)[11..15] == ToLE32(h.payloadLength);
  }

  /** Deserializing a serialized created message succeeds and gives back
      the type, session id, flags and payload, with the session id and
      length as host values and version 1. */
  lemma {:induction false} RoundTrip(msgType: byte, sessionId: u32, payload: seq<byte>, flags: byte)
    requires |payload| <= MAX_PAYLOAD_SIZE
    ensures CreateMessage(msgType, sessionId, payload, flags).Ok?
    ensures DeserializeMessage(SerializeMessage(CreateMessage(msgType, sessionId, payload, flags).value))
      == Ok(Message(ProtocolHeader(MAGIC, PROTOCOL_VERSION, msgType, flags, sessionId, |payload|), payload))
  {
    SerializedLayout(msgType, sessionId, payload, flags);
    BE32RoundTrip(sessionId);
    BE32RoundTrip(|payload|);
  }

  /** The two ends do not hold the header the same way: createMessage
      stores the byte-swapped session id and length, deserializeMessage
      hands back the values themselves, so a round trip reproduces the
      message's meaning but not the created struct (for session id 1 the
      created struct holds 0x01000000). */
  lemma {:induction false} CreatedAndDecodedHeadersDiffer(
    msgType: byte, sessionId: u32, payload: seq<byte>, flags: byte)
    requires |payload| <= MAX_PAYLOAD_SIZE
    ensures CreateMessage(msgType, sessionId, payload, flags).Ok?
    ensures var created := CreateMessage(msgType, sessionId, payload, flags).value;
      var decoded := DeserializeMessage(SerializeMessage(created));
      && created.header.sessionId == ByteSwap32(sessionId)
      && created.header.payloadLength == ByteSwap32(|payload|)
      && decoded.Ok?
      && decoded.value.header.sessionId == sessionId
      && decoded.value.header.payloadLength == |payload|
    ensures sessionId == 1 ==> CreateMessage(msgType, sessionId, payload, flags).value.header.sessionId == 0x0100_0000
  {
    var created := CreateMessage(msgType, sessionId, payload, flags).value;
    LE32BijectiveOnBytes(ToBE32(sessionId));
    LE32BijectiveOnBytes(ToBE32(|payload|));
    assert ToLE32(created.header.sessionId) == ToLE32(ByteSwap32(sessionId));
    LE32RoundTrip(created.header.sessionId);
    LE32RoundTrip(ByteSwap32(sessionId));
    assert ToLE32(created.header.payloadLength) == ToLE32(ByteSwap32(|payload|));
    LE32RoundTrip(created.header.payloadLength);
    LE32RoundTrip(ByteSwap32(|payload|));
    RoundTrip(msgType, sessionId, payload, flags);
    if sessionId == 1 {
      assert ToBE32(1) == [0, 0, 0, 1];
      assert LE32([0, 0, 0, 1]) == 0x0100_0000;
    }
  }
}
