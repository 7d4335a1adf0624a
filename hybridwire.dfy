/** The HybridWire sniffing parser: the packed header layouts of
    include/hybridwire.hpp, the HTTP detector `is_http_request` and the
    partial-read-tolerant classifier `ProtocolParser::parse` of
    src/hybridwire.cpp. */
module HybridWire {
  import opened Bytes

  // ---- packed layouts ----

  /** sizeof(ProtocolHeader): magic[4], head_len u32, version, flags, reserved u16. */
  const PROTOCOL_HEADER_SIZE: nat := 12
  /** sizeof(SessionHeader): session_id u64, msg_type u32, payload_len u32. */
  const SESSION_HEADER_SIZE: nat := 16
  /** The only head_len a binary frame may carry. */
  const CUSTOM_HEAD_LEN: nat := PROTOCOL_HEADER_SIZE + SESSION_HEADER_SIZE
  const PROTOCOL_VERSION: byte := 0x01
  /** Smallest buffer `is_http_request` considers a request. */
  const MIN_HTTP_REQUEST_SIZE: nat := 16

  /** The protocol header as `parse` holds it: `head_len` converted to host
      order, `reserved` left as copied. */
  datatype ProtocolHeader = ProtocolHeader(
    magic: Bytes4, headLen: u32, version: byte, flags: byte, reserved: u16)

  /** The session header after its three big-endian conversions. */
  datatype SessionHeader = SessionHeader(sessionId: u64, msgType: u32, payloadLen: u32)

  datatype ParseResult = NeedMore | Http | Custom | Error

  /** The wire image of a protocol header: head_len in network order,
      reserved in host order (it is never converted). */
  function EncodeProtocolHeader(h: ProtocolHeader): (b: seq<byte>)
    ensures |b| == PROTOCOL_HEADER_SIZE
  {
    h.magic + ToBE32(h.headLen) + [h.version, h.flags] + ToLE16(h.reserved)
  }

  /** memcpy of the first 12 bytes followed by ntohl of head_len. Every
      byte lands in some field: re-encoding the result gives the bytes back. */
  function DecodeProtocolHeader(b: seq<byte>): (h: ProtocolHeader)
    requires |b| == PROTOCOL_HEADER_SIZE
    ensures EncodeProtocolHeader(h) == b
  {
    BE32BijectiveOnBytes(b[4..8]);
    LE16BijectiveOnBytes(b[10..12]);
    assert b == b[..4] + b[4..8] + [b[8], b[9]] + b[10..12];
    ProtocolHeader(b[..4], BE32(b[4..8]), b[8], b[9], LE16(b[10..12]))
  }

  function EncodeSessionHeader(s: SessionHeader): (b: seq<byte>)
    ensures |b| == SESSION_HEADER_SIZE
  {
    ToBE64(s.sessionId) + ToBE32(s.msgType) + ToBE32(s.payloadLen)
  }

  /** memcpy of 16 bytes followed by be64toh, ntohl, ntohl; re-encoding the
      result gives the bytes back. */
  function DecodeSessionHeader(b: seq<byte>): (s: SessionHeader)
    requires |b| == SESSION_HEADER_SIZE
    ensures EncodeSessionHeader(s) == b
  {
    BE64BijectiveOnBytes(b[..8]);
    BE32BijectiveOnBytes(b[8..12]);
    BE32BijectiveOnBytes(b[12..16]);
    assert b == b[..8] + b[8..12] + b[12..16];
    SessionHeader(BE64(b[..8]), BE32(b[8..12]), BE32(b[12..16]))
  }

  lemma ProtocolHeaderRoundTrip(h: ProtocolHeader)
    ensures DecodeProtocolHeader(EncodeProtocolHeader(h)) == h
  {
    var b := EncodeProtocolHeader(h);
    assert b[..4] == h.magic;
    assert b[4..8] == ToBE32(h.headLen);
    assert b[10..12] == ToLE16(h.reserved);
    BE32RoundTrip(h.headLen);
    LE16RoundTrip(h.reserved);
  }

  lemma SessionHeaderRoundTrip(s: SessionHeader)
    ensures DecodeSessionHeader(EncodeSessionHeader(s)) == s
  {
    var b := EncodeSessionHeader(s);
    assert b[..8] == ToBE64(s.sessionId);
    assert b[8..12] == ToBE32(s.msgType);
    assert b[12..16] == ToBE32(s.payloadLen);
    BE64RoundTrip(s.sessionId);
    BE32RoundTrip(s.msgType);
    BE32RoundTrip(s.payloadLen);
  }

  // ---- flag bits ----

  /** flags & 0x01 */
  predicate HttpBit(flags: byte) { flags % 2 == 1 }

  /** flags & 0x02 */
  predicate CustomBit(flags: byte) { (flags / 2) % 2 == 1 }

  // ---- is_http_request ----

  const GET_METHOD: seq<byte> := Ascii("GET ")
  const POST_METHOD: seq<byte> := Ascii("POST ")
  const HEAD_METHOD: seq<byte> := Ascii("HEAD ")
  const PUT_METHOD: seq<byte> := Ascii("PUT ")
  const DELETE_METHOD: seq<byte> := Ascii("DELETE ")
  const HTTP_VERSION_MARK: seq<byte> := Ascii("HTTP/1.")

  /** The lambda has_http_method: the buffer begins with `token`. */
  predicate StartsWith(data: seq<byte>, token: seq<byte>) {
    |data| >= |token| && data[..|token|] == token
  }

  predicate OccursAt(data: seq<byte>, pattern: seq<byte>, i: nat) {
    i + |pattern| <= |data| && data[i..i + |pattern|] == pattern
  }

  ghost predicate Contains(data: seq<byte>, pattern: seq<byte>) {
    exists i: nat :: OccursAt(data, pattern, i)
  }

  /** std::search from position i: the first occurrence of `pattern` at or
      after i, or |data| (the end iterator) when there is none. */
  function SearchFrom(data: seq<byte>, pattern: seq<byte>, i: nat): (r: nat)
    requires i <= |data|
    ensures i <= r <= |data|
    ensures r < |data| ==> OccursAt(data, pattern, r)
    ensures forall j: nat :: i <= j < r ==> !OccursAt(data, pattern, j)
    ensures r == |data| && |pattern| > 0 ==> forall j: nat :: i <= j ==> !OccursAt(data, pattern, j)
    decreases |data| - i
  {
    if i == |data| then |data|
    else if OccursAt(data, pattern, i) then i
    else SearchFrom(data, pattern, i + 1)
  }

  predicate StartsWithHttpMethod(data: seq<byte>) {
    StartsWith(data, GET_METHOD) || StartsWith(data, POST_METHOD) ||
    StartsWith(data, HEAD_METHOD) || StartsWith(data, PUT_METHOD) ||
    StartsWith(data, DELETE_METHOD)
  }

  /** The HTTP heuristic: a buffer of at least 16 bytes that starts with one
      of five method tokens or contains "HTTP/1." anywhere. */
  function IsHttpRequest(data: seq<byte>): (r: bool)
    ensures r <==> |data| >= MIN_HTTP_REQUEST_SIZE &&
                   (StartsWithHttpMethod(data) || Contains(data, HTTP_VERSION_MARK))
  {
    if |data| < MIN_HTTP_REQUEST_SIZE then false
    else if StartsWithHttpMethod(data) then true
    else SearchFrom(data, HTTP_VERSION_MARK, 0) != |data|
  }

  /** Appending bytes never turns an HTTP-looking buffer into one that is not. */
  lemma IsHttpRequestExtends(data: seq<byte>, more: seq<byte>)
    requires IsHttpRequest(data)
    ensures IsHttpRequest(data + more)
  {
    var longer := data + more;
    forall m: seq<byte> | StartsWith(data, m) ensures StartsWith(longer, m) {
      assert longer[..|m|] == data[..|m|];
    }
    if !StartsWithHttpMethod(data) {
      var i: nat :| OccursAt(data, HTTP_VERSION_MARK, i);
      assert longer[i..i + |HTTP_VERSION_MARK|] == data[i..i + |HTTP_VERSION_MARK|];
      assert OccursAt(longer, HTTP_VERSION_MARK, i);
    }
  }

  // ---- ProtocolParser::parse ----

  /** What one call of `parse` decides, with the values it stores. */
  datatype Outcome =
    | Incomplete(required: nat)
    | HttpFrame(header: ProtocolHeader, body: seq<byte>)
    | CustomFrame(header: ProtocolHeader, session: SessionHeader)
    | Malformed
  {
    function Result(): ParseResult {
      match this
      case Incomplete(_) => NeedMore
      case HttpFrame(_, _) => Http
      case CustomFrame(_, _) => Custom
      case Malformed => Error
    }
  }

  /** `head_len + payload_len` as the source computes it: 32-bit unsigned
      addition, which wraps before the result is widened to size_t. */
  function TotalNeededAsWritten(headLen: u32, payloadLen: u32): (r: u32)
    ensures headLen + payloadLen < 0x1_0000_0000 ==> r == headLen + payloadLen
    ensures headLen + payloadLen >= 0x1_0000_0000 ==> r == headLen + payloadLen - 0x1_0000_0000
  {
    (headLen + payloadLen) % 0x1_0000_0000
  }

  /** The classification `parse` computes from the buffer alone. */
  function Classify(data: seq<byte>): (o: Outcome)
    ensures o.Incomplete? ==> o.required > |data|
    ensures o.HttpFrame? ==> o.header.headLen <= |data| && o.body == data[o.header.headLen..]
    ensures o.CustomFrame? ==> o.header.headLen == CUSTOM_HEAD_LEN &&
                               |data| >= CUSTOM_HEAD_LEN + o.session.payloadLen
  {
    if |data| < PROTOCOL_HEADER_SIZE then Incomplete(PROTOCOL_HEADER_SIZE)
    else
      var h := DecodeProtocolHeader(data[..PROTOCOL_HEADER_SIZE]);
      if h.magic != MAGIC then Malformed
      else if h.version != PROTOCOL_VERSION then Malformed
      else if |data| < h.headLen then Incomplete(h.headLen)
      else if HttpBit(h.flags) == CustomBit(h.flags) then Malformed
      else if HttpBit(h.flags) then
        if IsHttpRequest(data[h.headLen..]) then HttpFrame(h, data[h.headLen..]) else Malformed
      else if h.headLen != CUSTOM_HEAD_LEN then Malformed
      else
        var s := DecodeSessionHeader(data[PROTOCOL_HEADER_SIZE..CUSTOM_HEAD_LEN]);
        // the exact sum; the source's is TotalNeededAsWritten
        var total := h.headLen + s.payloadLen;
        if |data| < total then Incomplete(total) else CustomFrame(h, s)
  }

  class ProtocolParser {
    var header: ProtocolHeader
    var sessionHeader: SessionHeader
    var httpData: seq<byte>
    var requiredBytes: nat

    /** A fresh parser: required_bytes_ is 0 and http_data_ is empty; the
        two headers, which the source leaves uninitialised, are zeroed. */
    constructor ()
      ensures requiredBytes == 0 && httpData == []
      ensures header == ProtocolHeader([0, 0, 0, 0], 0, 0, 0, 0)
      ensures sessionHeader == SessionHeader(0, 0, 0)
    {
      header := ProtocolHeader([0, 0, 0, 0], 0, 0, 0, 0);
      sessionHeader := SessionHeader(0, 0, 0);
      httpData := [];
      requiredBytes := 0;
    }

    /** header() */
    function Header(): ProtocolHeader reads this { header }

    /** http_data() */
    function HttpData(): seq<byte> reads this { httpData }

    /** session_header() */
    function Session(): SessionHeader reads this { sessionHeader }

    /** Classify `data`; on NEED_MORE only required_bytes_ changes, on HTTP
        only header_ and http_data_, on CUSTOM only header_ and
        session_header_, and on ERROR nothing. */
    method Parse(data: seq<byte>) returns (r: ParseResult)
      modifies this
      ensures r == Classify(data).Result()
      ensures r == NeedMore ==> requiredBytes > |data|
      ensures match Classify(data)
        case Incomplete(n) =>
          requiredBytes == n && header == old(header) &&
          sessionHeader == old(sessionHeader) && httpData == old(httpData)
        case HttpFrame(h, body) =>
          header == h && httpData == body &&
          sessionHeader == old(sessionHeader) && requiredBytes == old(requiredBytes)
        case CustomFrame(h, s) =>
          header == h && sessionHeader == s &&
          httpData == old(httpData) && requiredBytes == old(requiredBytes)
        case Malformed =>
          header == old(header) && sessionHeader == old(sessionHeader) &&
          httpData == old(httpData) && requiredBytes == old(requiredBytes)
    {
      if |data| < PROTOCOL_HEADER_SIZE {
        requiredBytes := PROTOCOL_HEADER_SIZE;
        return NeedMore;
      }
      var tempHeader := DecodeProtocolHeader(data[..PROTOCOL_HEADER_SIZE]);
      if tempHeader.magic != MAGIC {
        return Error;
      }
      if tempHeader.version != PROTOCOL_VERSION {
        return Error;
      }
      if |data| < tempHeader.headLen {
        requiredBytes := tempHeader.headLen;
        return NeedMore;
      }
      var isHttp := HttpBit(tempHeader.flags);
      var isCustom := CustomBit(tempHeader.flags);
      if isHttp == isCustom {
        return Error;
      }
      if isHttp {
        var httpBuffer := data[tempHeader.headLen..];
        if !IsHttpRequest(httpBuffer) {
          return Error;
        }
        httpData := httpBuffer;
        header := tempHeader;
        return Http;
      } else {
        if tempHeader.headLen != CUSTOM_HEAD_LEN {
          return Error;
        }
        var tempSession := DecodeSessionHeader(data[PROTOCOL_HEADER_SIZE..CUSTOM_HEAD_LEN]);
        var totalNeeded := tempHeader.headLen + tempSession.payloadLen;
        if |data| < totalNeeded {
          requiredBytes := totalNeeded;
          return NeedMore;
        }
        header := tempHeader;
        sessionHeader := tempSession;
        return Custom;
      }
    }
  }
}
