/** Properties of the HybridWire classifier: its outcome in every branch,
    that NEED_MORE is never followed by a premature verdict on a shorter
    read, that encoded frames are recognised, and the 32-bit wrap-around of
    the source's payload-completeness test. */
module HybridWireProofs {
  import opened Bytes
  import opened HybridWire

  /** The decoded header of a buffer that holds at least one. */
  function HeaderOf(data: seq<byte>): ProtocolHeader
    requires |data| >= PROTOCOL_HEADER_SIZE
  {
    DecodeProtocolHeader(data[..PROTOCOL_HEADER_SIZE])
  }

  /** Stages 1 and 2 passed: the header is present, it carries the magic
      and version 1, and the buffer holds head_len bytes. */
  predicate HeaderAccepted(data: seq<byte>) {
    && |data| >= PROTOCOL_HEADER_SIZE
    && HeaderOf(data).magic == MAGIC
    && HeaderOf(data).version == PROTOCOL_VERSION
    && HeaderOf(data).headLen <= |data|
  }

  /** Fewer than 12 bytes: NEED_MORE for exactly the header size. */
  lemma ShortBufferNeedsHeader(data: seq<byte>)
    requires |data| < PROTOCOL_HEADER_SIZE
    ensures Classify(data) == Incomplete(PROTOCOL_HEADER_SIZE)
  {
  }

  /** A wrong magic or a version other than 1 is an error. */
  lemma BadMagicOrVersionRejected(data: seq<byte>)
    requires |data| >= PROTOCOL_HEADER_SIZE
    requires data[..4] != MAGIC || data[8] != PROTOCOL_VERSION
    ensures Classify(data) == Malformed
  {
  }

  /** A valid header announcing more bytes than are present: NEED_MORE for head_len. */
  lemma ShortOfHeadLenNeedsMore(data: seq<byte>)
    requires |data| >= PROTOCOL_HEADER_SIZE
    requires HeaderOf(data).magic == MAGIC && HeaderOf(data).version == PROTOCOL_VERSION
    requires |data| < HeaderOf(data).headLen
    ensures Classify(data) == Incomplete(HeaderOf(data).headLen)
  {
  }

  /** Both mode bits set, or neither: an error. */
  lemma ConflictingFlagsRejected(data: seq<byte>)
    requires HeaderAccepted(data)
    requires HttpBit(HeaderOf(data).flags) == CustomBit(HeaderOf(data).flags)
    ensures Classify(data) == Malformed
  {
  }

  /** HTTP exactly when the header passes, only the HTTP bit is set and the
      bytes after head_len look like HTTP; they are then the body. */
  lemma HttpIff(data: seq<byte>)
    ensures Classify(data).HttpFrame? <==>
      && HeaderAccepted(data)
      && HttpBit(HeaderOf(data).flags) && !CustomBit(HeaderOf(data).flags)
      && IsHttpRequest(data[HeaderOf(data).headLen..])
    ensures Classify(data).HttpFrame? ==>
      Classify(data) == HttpFrame(HeaderOf(data), data[HeaderOf(data).headLen..])
  {
  }

  /** CUSTOM exactly when the header passes, only the binary bit is set,
      head_len is 28 and the payload announced by bytes 24..28 is all there;
      the session header is then the decode of bytes 12..28. Trailing bytes
      are ignored. */
  lemma CustomIff(data: seq<byte>)
    ensures Classify(data).CustomFrame? <==>
      && HeaderAccepted(data)
      && !HttpBit(HeaderOf(data).flags) && CustomBit(HeaderOf(data).flags)
      && HeaderOf(data).headLen == CUSTOM_HEAD_LEN
      && |data| >= CUSTOM_HEAD_LEN + BE32(data[24..28])
    ensures Classify(data).CustomFrame? ==>
      Classify(data) == CustomFrame(HeaderOf(data),
        SessionHeader(BE64(data[12..20]), BE32(data[20..24]), BE32(data[24..28])))
  {
    if |data| >= CUSTOM_HEAD_LEN {
      var b := data[PROTOCOL_HEADER_SIZE..CUSTOM_HEAD_LEN];
      assert forall i :: 0 <= i < SESSION_HEADER_SIZE ==> b[i] == data[PROTOCOL_HEADER_SIZE + i];
      assert b[..8] == data[12..20];
      assert b[8..12] == data[20..24];
      assert b[12..16] == data[24..28];
    }
  }

  /** A header that passes with only the binary bit set but a head_len
      other than 28 is an error, not a request for more bytes. */
  lemma CustomWrongHeadLenRejected(data: seq<byte>)
    requires HeaderAccepted(data)
    requires !HttpBit(HeaderOf(data).flags) && CustomBit(HeaderOf(data).flags)
    requires HeaderOf(data).headLen != CUSTOM_HEAD_LEN
    ensures Classify(data) == Malformed
  {
  }

  /** Under the HTTP bit, bytes after head_len that do not look like HTTP
      are an error, whatever head_len is. */
  lemma NonHttpBodyRejected(data: seq<byte>)
    requires HeaderAccepted(data)
    requires HttpBit(HeaderOf(data).flags) && !CustomBit(HeaderOf(data).flags)
    requires !IsHttpRequest(data[HeaderOf(data).headLen..])
    ensures Classify(data) == Malformed
  {
  }

  /** NEED_MORE exactly when the header is short, when a valid header
      announces more than is present, or when a binary frame's payload is
      not all there; with HttpIff and CustomIff this leaves ERROR for every
      other buffer. */
  lemma IncompleteIff(data: seq<byte>)
    ensures Classify(data).Incomplete? <==>
      || |data| < PROTOCOL_HEADER_SIZE
      || (&& |data| >= PROTOCOL_HEADER_SIZE
          && HeaderOf(data).magic == MAGIC && HeaderOf(data).version == PROTOCOL_VERSION
          && |data| < HeaderOf(data).headLen)
      || (&& HeaderAccepted(data)
          && !HttpBit(HeaderOf(data).flags) && CustomBit(HeaderOf(data).flags)
          && HeaderOf(data).headLen == CUSTOM_HEAD_LEN
          && |data| < CUSTOM_HEAD_LEN + BE32(data[24..28]))
  {
    CustomIff(data);
  }

  /** Once `parse` has asked for n bytes of a stream, every read of that
      stream shorter than n also gets NEED_MORE, whether it is shorter or
      longer than the read that asked: no premature ERROR, HTTP or CUSTOM. */
  lemma {:induction false} NeedMoreIsPrefixClosed(stream: seq<byte>, k: nat, k': nat)
    requires k <= |stream| && k' <= |stream|
    requires Classify(stream[..k]).Incomplete?
    requires k' < Classify(stream[..k]).required
    ensures Classify(stream[..k']).Incomplete?
  {
    if k' >= PROTOCOL_HEADER_SIZE {
      var a, b := stream[..k], stream[..k'];
      assert |a| >= PROTOCOL_HEADER_SIZE;
      assert a[..PROTOCOL_HEADER_SIZE] == b[..PROTOCOL_HEADER_SIZE];
      var h := HeaderOf(a);
      if k' >= h.headLen {
        assert k >= h.headLen;
        assert h.headLen == CUSTOM_HEAD_LEN;
        assert a[PROTOCOL_HEADER_SIZE..CUSTOM_HEAD_LEN] == b[PROTOCOL_HEADER_SIZE..CUSTOM_HEAD_LEN];
      }
    }
  }

  /** A well-formed binary header. */
  predicate CustomHeader(h: ProtocolHeader) {
    && h.magic == MAGIC && h.version == PROTOCOL_VERSION
    && h.headLen == CUSTOM_HEAD_LEN
    && !HttpBit(h.flags) && CustomBit(h.flags)
  }

  function CustomFrameBytes(h: ProtocolHeader, s: SessionHeader, payload: seq<byte>): (b: seq<byte>)
    ensures |b| == CUSTOM_HEAD_LEN + |payload|
  {
    EncodeProtocolHeader(h) + EncodeSessionHeader(s) + payload
  }

  /** An encoded binary frame whose payload is all present is CUSTOM with
      both headers as encoded, whatever follows it; in particular a frame
      of exactly 28 bytes with payload_len 0 is complete. */
  lemma {:induction false} CustomFrameRoundTrip(
    h: ProtocolHeader, s: SessionHeader, payload: seq<byte>, trailing: seq<byte>)
    requires CustomHeader(h) && |payload| == s.payloadLen
    ensures Classify(CustomFrameBytes(h, s, payload) + trailing) == CustomFrame(h, s)
  {
    var data := CustomFrameBytes(h, s, payload) + trailing;
    assert data[..PROTOCOL_HEADER_SIZE] == EncodeProtocolHeader(h);
    assert data[PROTOCOL_HEADER_SIZE..CUSTOM_HEAD_LEN] == EncodeSessionHeader(s);
    ProtocolHeaderRoundTrip(h);
    SessionHeaderRoundTrip(s);
  }

  /** Every proper prefix of an encoded binary frame is NEED_MORE. */
  lemma {:induction false} CustomFramePrefixNeedsMore(
    h: ProtocolHeader, s: SessionHeader, payload: seq<byte>, k: nat)
    requires CustomHeader(h) && |payload| == s.payloadLen
    requires k < CUSTOM_HEAD_LEN + |payload|
    ensures Classify(CustomFrameBytes(h, s, payload)[..k]).Incomplete?
  {
    var frame := CustomFrameBytes(h, s, payload);
    CustomFrameRoundTrip(h, s, payload, []);
    assert frame + [] == frame;
    assert frame[..|frame|] == frame;
    if k < PROTOCOL_HEADER_SIZE {
    } else {
      var data := frame[..k];
      assert data[..PROTOCOL_HEADER_SIZE] == frame[..PROTOCOL_HEADER_SIZE];
      ProtocolHeaderRoundTrip(h);
      if k >= CUSTOM_HEAD_LEN {
        assert data[PROTOCOL_HEADER_SIZE..CUSTOM_HEAD_LEN] == frame[PROTOCOL_HEADER_SIZE..CUSTOM_HEAD_LEN];
      }
    }
  }

  /** A well-formed HTTP header with head_len 12. */
  predicate HttpHeader(h: ProtocolHeader) {
    && h.magic == MAGIC && h.version == PROTOCOL_VERSION
    && h.headLen == PROTOCOL_HEADER_SIZE
    && HttpBit(h.flags) && !CustomBit(h.flags)
  }

  /** A 12-byte HTTP-mode header followed by a request is HTTP with the
      request as its body if the request looks like HTTP, and an error if it
      does not. */
  lemma {:induction false} HttpFrameRoundTrip(h: ProtocolHeader, request: seq<byte>)
    requires HttpHeader(h)
    ensures Classify(EncodeProtocolHeader(h) + request) ==
      if IsHttpRequest(request) then HttpFrame(h, request) else Malformed
  {
    var data := EncodeProtocolHeader(h) + request;
    assert data[..PROTOCOL_HEADER_SIZE] == EncodeProtocolHeader(h);
    assert data[PROTOCOL_HEADER_SIZE..] == request;
    ProtocolHeaderRoundTrip(h);
  }

  const SAMPLE_REQUEST: seq<byte> := Ascii("GET / HTTP/1.1\r\n\r\n")

  /** A 12-byte HTTP-mode header followed by "GET / HTTP/1.1\r\n\r\n" is
      HTTP with exactly that request as http_data_. */
  lemma SampleRequestIsHttp(h: ProtocolHeader)
    requires HttpHeader(h)
    ensures Classify(EncodeProtocolHeader(h) + SAMPLE_REQUEST) == HttpFrame(h, SAMPLE_REQUEST)
  {
    assert SAMPLE_REQUEST[..|GET_METHOD|] == GET_METHOD;
    HttpFrameRoundTrip(h, SAMPLE_REQUEST);
  }

  /** A 28-byte binary frame whose payload_len is 0xFFFFFFFF: the whole
      payload is missing. */
  function TruncatedFrame(): (b: seq<byte>)
    ensures |b| == CUSTOM_HEAD_LEN
  {
    CustomFrameBytes(ProtocolHeader(MAGIC, CUSTOM_HEAD_LEN, PROTOCOL_VERSION, 0x02, 0),
                     SessionHeader(0, 0, 0xFFFF_FFFF), [])
  }

  /** The source's test `length < head_len + payload_len`, computed in
      uint32_t, wraps to 27 on TruncatedFrame, so the source answers CUSTOM
      for a frame lacking 4294967295 payload bytes; the exact sum the model
      uses asks for them instead. */
  lemma WrappedTotalAcceptsTruncatedFrame()
    ensures TotalNeededAsWritten(CUSTOM_HEAD_LEN, 0xFFFF_FFFF) == 27
    ensures !(|TruncatedFrame()| < TotalNeededAsWritten(CUSTOM_HEAD_LEN, 0xFFFF_FFFF))
    ensures Classify(TruncatedFrame()) == Incomplete(CUSTOM_HEAD_LEN + 0xFFFF_FFFF)
  {
    var h := ProtocolHeader(MAGIC, CUSTOM_HEAD_LEN, PROTOCOL_VERSION, 0x02, 0);
    var s := SessionHeader(0, 0, 0xFFFF_FFFF);
    assert CustomHeader(h);
    var data := TruncatedFrame();
    assert data[..PROTOCOL_HEADER_SIZE] == EncodeProtocolHeader(h);
    assert data[PROTOCOL_HEADER_SIZE..CUSTOM_HEAD_LEN] == EncodeSessionHeader(s);
    ProtocolHeaderRoundTrip(h);
    SessionHeaderRoundTrip(s);
  }
}
