/** The hwp draft of include/hwp/protocol.hpp and src/protocol.cpp: an
    8-byte base header and a 12-byte session header, both copied in host
    order, and a three-way `parse` in which the HTTP bit wins and an
    incomplete read is an error. */
module Hwp {
  import opened Bytes

  const PROTOCOL_VERSION: byte := 1

  // MessageType (an enum class over uint8_t)
  const HANDSHAKE: byte := 0x01
  const DATA: byte := 0x02
  const CONTROL: byte := 0x03

  // Flags
  const NONE: byte := 0x00
  const HTTP_MODE: byte := 0x01
  const BINARY_MODE: byte := 0x02

  /** sizeof(BaseHeader): magic[4], version, flags, head_len u16. */
  const BASE_HEADER_SIZE: nat := 8
  /** sizeof(SessionHeader): session_id, seq_num, ack_num, u32 each. */
  const SESSION_HEADER_SIZE: nat := 12
  const FULL_HEADER_SIZE: nat := BASE_HEADER_SIZE + SESSION_HEADER_SIZE

  /** The three bytes `strncmp(magic, "HWP", 3)` compares. */
  const MAGIC_PREFIX: seq<byte> := Ascii("HWP")

  datatype BaseHeader = BaseHeader(magic: Bytes4, version: byte, flags: byte, headLen: u16)
  datatype SessionHeader = SessionHeader(sessionId: u32, seqNum: u32, ackNum: u32)
  datatype Message = Message(baseHeader: BaseHeader, sessionHeader: SessionHeader, payload: seq<byte>)

  datatype ParseResult = Http | Binary | Error

  /** flags & HTTP_MODE */
  predicate HttpBit(flags: byte) { flags % 2 == 1 }

  /** flags & BINARY_MODE */
  predicate BinaryBit(flags: byte) { (flags / 2) % 2 == 1 }

  /** Build a message: the magic, version 1, the given flags, head_len 20
      in host order whatever the flags, the session id with sequence and
      acknowledgement numbers 0, and the payload with no size limit. The
      type argument is not stored. */
  function CreateMessage(msgType: byte, sessionId: u32, payload: seq<byte>, flags: byte): (m: Message)
    ensures m.baseHeader == BaseHeader(MAGIC, PROTOCOL_VERSION, flags, FULL_HEADER_SIZE)
    ensures m.sessionHeader == SessionHeader(sessionId, 0, 0)
    ensures m.payload == payload
  {
    Message(BaseHeader(MAGIC, PROTOCOL_VERSION, flags, FULL_HEADER_SIZE),
            SessionHeader(sessionId, 0, 0),
            payload)
  }

  /** Memory image of the base header (head_len in host order). */
  function EncodeBaseHeader(h: BaseHeader): (b: seq<byte>)
    ensures |b| == BASE_HEADER_SIZE
  {
    h.magic + [h.version, h.flags] + ToLE16(h.headLen)
  }

  /** Memory image of the session header (all fields in host order). */
  function EncodeSessionHeader(s: SessionHeader): (b: seq<byte>)
    ensures |b| == SESSION_HEADER_SIZE
  {
    ToLE32(s.sessionId) + ToLE32(s.seqNum) + ToLE32(s.ackNum)
  }

  /** reinterpret_cast of 12 bytes as a SessionHeader: the struct's memory
      image is then exactly those bytes. */
  function DecodeSessionHeader(b: seq<byte>): (s: SessionHeader)
    requires |b| == SESSION_HEADER_SIZE
    ensures EncodeSessionHeader(s) == b
  {
    LE32BijectiveOnBytes(b[..4]);
    LE32BijectiveOnBytes(b[4..8]);
    LE32BijectiveOnBytes(b[8..12]);
    assert b == b[..4] + b[4..8] + b[8..12];
    SessionHeader(LE32(b[..4]), LE32(b[4..8]), LE32(b[8..12]))
  }

  lemma SessionHeaderRoundTrip(s: SessionHeader)
    ensures DecodeSessionHeader(EncodeSessionHeader(s)) == s
  {
    var b := EncodeSessionHeader(s);
    assert b[..4] == ToLE32(s.sessionId);
    assert b[4..8] == ToLE32(s.seqNum);
    assert b[8..12] == ToLE32(s.ackNum);
    LE32RoundTrip(s.sessionId);
    LE32RoundTrip(s.seqNum);
    LE32RoundTrip(s.ackNum);
  }

  /** Base header, then the session header (even in HTTP mode), then the
      payload verbatim. */
  function SerializeMessage(m: Message): (r: seq<byte>)
    ensures |r| == FULL_HEADER_SIZE + |m.payload|
    ensures r[..BASE_HEADER_SIZE] == EncodeBaseHeader(m.baseHeader)
    ensures r[BASE_HEADER_SIZE..FULL_HEADER_SIZE] == EncodeSessionHeader(m.sessionHeader)
    ensures r[FULL_HEADER_SIZE..] == m.payload
  {
    var r := EncodeBaseHeader(m.baseHeader) + EncodeSessionHeader(m.sessionHeader) + m.payload;
    assert r[..BASE_HEADER_SIZE] == EncodeBaseHeader(m.baseHeader);
    assert r[BASE_HEADER_SIZE..FULL_HEADER_SIZE] == EncodeSessionHeader(m.sessionHeader);
    r
  }

  /** The verdict of `parse`: ERROR under 8 bytes, on a wrong "HWP" prefix
      (the fourth magic byte is not looked at) or a version other than 1;
      HTTP when the HTTP bit is set, whatever the binary bit says; BINARY
      when only the binary bit is set and a session header is present;
      ERROR otherwise. head_len is never consulted. */
  function Classify(data: seq<byte>): (r: ParseResult)
    ensures r != Error ==> |data| >= BASE_HEADER_SIZE && data[..3] == MAGIC_PREFIX && data[4] == PROTOCOL_VERSION
    ensures r == Binary ==> |data| >= FULL_HEADER_SIZE && !HttpBit(data[5]) && BinaryBit(data[5])
  {
    if |data| < BASE_HEADER_SIZE then Error
    else if data[..3] != MAGIC_PREFIX then Error
    else if data[4] != PROTOCOL_VERSION then Error
    else if HttpBit(data[5]) then Http
    else if BinaryBit(data[5]) && |data| >= FULL_HEADER_SIZE then Binary
    else Error
  }

  class ProtocolHandler {
    var currentSession: SessionHeader

    /** The source leaves current_session_ uninitialised; it is zeroed here. */
    constructor ()
      ensures currentSession == SessionHeader(0, 0, 0)
    {
      currentSession := SessionHeader(0, 0, 0);
    }

    /** get_session_header() */
    function GetSessionHeader(): SessionHeader reads this { currentSession }

    /** Classify `data`; current_session_ is overwritten with bytes 8..20
        on BINARY and left alone otherwise. */
    method Parse(data: seq<byte>) returns (r: ParseResult)
      modifies this
      ensures r == Classify(data)
      ensures r == Binary ==> currentSession == DecodeSessionHeader(data[BASE_HEADER_SIZE..FULL_HEADER_SIZE])
      ensures r != Binary ==> currentSession == old(currentSession)
    {
      if |data| < BASE_HEADER_SIZE {
        return Error;
      }
      if data[..3] != MAGIC_PREFIX {
        return Error;
      }
      if data[4] != PROTOCOL_VERSION {
        return Error;
      }
      var flags := data[5];
      if HttpBit(flags) {
        return Http;
      } else if BinaryBit(flags) {
        if |data| >= FULL_HEADER_SIZE {
          currentSession := DecodeSessionHeader(data[BASE_HEADER_SIZE..FULL_HEADER_SIZE]);
          return Binary;
        }
      }
      return Error;
    }
  }

  // ---- properties ----

  /** Under 8 bytes the verdict is ERROR: this draft has no "need more". */
  lemma ShortIsError(data: seq<byte>)
    requires |data| < BASE_HEADER_SIZE
    ensures Classify(data) == Error
  {
  }

  /** The fourth magic byte does not influence the verdict. */
  lemma FourthMagicByteIgnored(data: seq<byte>, b: byte)
    requires |data| >= BASE_HEADER_SIZE
    ensures Classify(data[3 := b]) == Classify(data)
  {
    assert data[3 := b][..3] == data[..3];
  }

  /** With a valid prefix and version, a set HTTP bit gives HTTP whatever
      the binary bit and the length beyond 8 bytes are. */
  lemma HttpBitTakesPrecedence(data: seq<byte>)
    requires |data| >= BASE_HEADER_SIZE && data[..3] == MAGIC_PREFIX && data[4] == PROTOCOL_VERSION
    requires HttpBit(data[5])
    ensures Classify(data) == Http
  {
  }

  /** HTTP exactly when the prefix and version pass and the HTTP bit is
      set; with BinaryIff this leaves ERROR for every other buffer. */
  lemma HttpIff(data: seq<byte>)
    ensures Classify(data) == Http <==>
      && |data| >= BASE_HEADER_SIZE && data[..3] == MAGIC_PREFIX && data[4] == PROTOCOL_VERSION
      && HttpBit(data[5])
  {
  }

  /** BINARY exactly when the prefix and version pass, only the binary bit
      of the two is set and at least 20 bytes are present. */
  lemma BinaryIff(data: seq<byte>)
    ensures Classify(data) == Binary <==>
      && |data| >= FULL_HEADER_SIZE && data[..3] == MAGIC_PREFIX && data[4] == PROTOCOL_VERSION
      && !HttpBit(data[5]) && BinaryBit(data[5])
  {
  }

  /** The type argument does not reach the message. */
  lemma TypeIsNotStored(t1: byte, t2: byte, sessionId: u32, payload: seq<byte>, flags: byte)
    ensures CreateMessage(t1, sessionId, payload, flags) == CreateMessage(t2, sessionId, payload, flags)
  {
  }

  /** A serialized created message is HTTP when its flags carry the HTTP
      bit, BINARY when they carry only the binary bit (and its session
      header then reads back as the session id with zero sequence numbers),
      and ERROR when they carry neither. */
  lemma {:induction false} RoundTrip(msgType: byte, sessionId: u32, payload: seq<byte>, flags: byte)
    ensures var b := SerializeMessage(CreateMessage(msgType, sessionId, payload, flags));
      && Classify(b) == (if HttpBit(flags) then Http else if BinaryBit(flags) then Binary else Error)
      && DecodeSessionHeader(b[BASE_HEADER_SIZE..FULL_HEADER_SIZE]) == SessionHeader(sessionId, 0, 0)
  {
    var m := CreateMessage(msgType, sessionId, payload, flags);
    var b := SerializeMessage(m);
    var base := EncodeBaseHeader(m.baseHeader);
    assert b[..3] == base[..3] == MAGIC_PREFIX;
    assert b[4] == base[4] && b[5] == base[5];
    SessionHeaderRoundTrip(m.sessionHeader);
  }
}
