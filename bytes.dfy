/** Fixed-width unsigned integers and the byte-order conversions of
    <arpa/inet.h> (htonl, ntohl, be64toh) that the three drafts use.

    Multi-byte fields that the source copies with memcpy or reinterpret_cast
    without a conversion are laid out in host order; this model fixes the host
    as little-endian, so such a field's memory image is its little-endian
    encoding. */
module Bytes {

  type byte = x: int | 0 <= x < 0x100
  type u16 = x: int | 0 <= x < 0x1_0000
  type u32 = x: int | 0 <= x < 0x1_0000_0000
  type u64 = x: int | 0 <= x < 0x1_0000_0000_0000_0000

  /** A 4-byte array such as the `magic` field of every header. */
  type Bytes4 = s: seq<byte> | |s| == 4 witness [0, 0, 0, 0]

  predicate IsAscii(s: string) {
    forall i :: 0 <= i < |s| ==> s[i] as int < 0x100
  }

  /** The bytes of a C string literal, without its terminating NUL. */
  function Ascii(s: string): (b: seq<byte>)
    requires IsAscii(s)
    ensures |b| == |s|
    ensures forall i :: 0 <= i < |s| ==> b[i] == s[i] as int
  {
    seq(|s|, i requires 0 <= i < |s| => s[i] as int)
  }

  /** "HWP\0", the magic shared by all three drafts. */
  const MAGIC: Bytes4 := [0x48, 0x57, 0x50, 0x00]

  // ---- big-endian (network order) ----

  function ToBE16(v: u16): (b: seq<byte>)
    ensures |b| == 2
  {
    [v / 0x100, v % 0x100]
  }

  function BE16(b: seq<byte>): u16
    requires |b| == 2
  {
    b[0] as int * 0x100 + b[1]
  }

  function ToBE32(v: u32): (b: seq<byte>)
    ensures |b| == 4
  {
    ToBE16(v / 0x1_0000) + ToBE16(v % 0x1_0000)
  }

  function BE32(b: seq<byte>): u32
    requires |b| == 4
  {
    BE16(b[..2]) * 0x1_0000 + BE16(b[2..])
  }

  function ToBE64(v: u64): (b: seq<byte>)
    ensures |b| == 8
  {
    ToBE32(v / 0x1_0000_0000) + ToBE32(v % 0x1_0000_0000)
  }

  function BE64(b: seq<byte>): u64
    requires |b| == 8
  {
    BE32(b[..4]) * 0x1_0000_0000 + BE32(b[4..])
  }

  // ---- little-endian (the host order fixed by this model) ----

  function ToLE16(v: u16): (b: seq<byte>)
    ensures |b| == 2
  {
    [v % 0x100, v / 0x100]
  }

  function LE16(b: seq<byte>): u16
    requires |b| == 2
  {
    b[1] as int * 0x100 + b[0]
  }

  function ToLE32(v: u32): (b: seq<byte>)
    ensures |b| == 4
  {
    ToLE16(v % 0x1_0000) + ToLE16(v / 0x1_0000)
  }

  function LE32(b: seq<byte>): u32
    requires |b| == 4
  {
    LE16(b[2..]) * 0x1_0000 + LE16(b[..2])
  }

  /** htonl and ntohl on a little-endian host: the value whose memory image
      is the other byte order of v. */
  function ByteSwap32(v: u32): (r: u32)
    ensures ToLE32(r) == ToBE32(v)
  {
    LE32BijectiveOnBytes(ToBE32(v));
    LE32(ToBE32(v))
  }

  // ---- round trips ----

  lemma BE16RoundTrip(v: u16)
    ensures BE16(ToBE16(v)) == v
  {
  }

  lemma LE16RoundTrip(v: u16)
    ensures LE16(ToLE16(v)) == v
  {
  }

  lemma BE32RoundTrip(v: u32)
    ensures BE32(ToBE32(v)) == v
  {
    var b := ToBE32(v);
    assert b[..2] == ToBE16(v / 0x1_0000);
    assert b[2..] == ToBE16(v % 0x1_0000);
    BE16RoundTrip(v / 0x1_0000);
    BE16RoundTrip(v % 0x1_0000);
  }

  lemma LE32RoundTrip(v: u32)
    ensures LE32(ToLE32(v)) == v
  {
    var b := ToLE32(v);
    assert b[..2] == ToLE16(v % 0x1_0000);
    assert b[2..] == ToLE16(v / 0x1_0000);
    LE16RoundTrip(v % 0x1_0000);
    LE16RoundTrip(v / 0x1_0000);
  }

  lemma BE64RoundTrip(v: u64)
    ensures BE64(ToBE64(v)) == v
  {
    var b := ToBE64(v);
    assert b[..4] == ToBE32(v / 0x1_0000_0000);
    assert b[4..] == ToBE32(v % 0x1_0000_0000);
    BE32RoundTrip(v / 0x1_0000_0000);
    BE32RoundTrip(v % 0x1_0000_0000);
  }

  /** Encoding a decoded word gives back its bytes, in either order: the
      decoders lose nothing. */
  lemma BE16BijectiveOnBytes(b: seq<byte>)
    requires |b| == 2
    ensures ToBE16(BE16(b)) == b
  {
  }

  lemma LE16BijectiveOnBytes(b: seq<byte>)
    requires |b| == 2
    ensures ToLE16(LE16(b)) == b
  {
  }

  lemma BE32BijectiveOnBytes(b: seq<byte>)
    requires |b| == 4
    ensures ToBE32(BE32(b)) == b
  {
    var hi, lo := BE16(b[..2]), BE16(b[2..]);
    assert BE32(b) / 0x1_0000 == hi && BE32(b) % 0x1_0000 == lo;
    BE16BijectiveOnBytes(b[..2]);
    BE16BijectiveOnBytes(b[2..]);
    assert b == b[..2] + b[2..];
  }

  lemma BE64BijectiveOnBytes(b: seq<byte>)
    requires |b| == 8
    ensures ToBE64(BE64(b)) == b
  {
    var hi, lo := BE32(b[..4]), BE32(b[4..]);
    assert BE64(b) / 0x1_0000_0000 == hi && BE64(b) % 0x1_0000_0000 == lo;
    BE32BijectiveOnBytes(b[..4]);
    BE32BijectiveOnBytes(b[4..]);
    assert b == b[..4] + b[4..];
  }

  /** Encoding a decoded little-endian word gives back its bytes. */
  lemma LE32BijectiveOnBytes(b: seq<byte>)
    requires |b| == 4
    ensures ToLE32(LE32(b)) == b
  {
    var lo, hi := LE16(b[..2]), LE16(b[2..]);
    assert LE32(b) / 0x1_0000 == hi && LE32(b) % 0x1_0000 == lo;
    assert ToLE16(lo) == b[..2];
    assert ToLE16(hi) == b[2..];
    assert b == b[..2] + b[2..];
  }

  /** ntohl applied to a host-order memcpy of four bytes reads them
      big-endian. */
  lemma ByteSwapOfHostWord(b: seq<byte>)
    requires |b| == 4
    ensures ByteSwap32(LE32(b)) == BE32(b)
  {
    var v := LE32(b);
    var hi, lo := LE16(b[2..]), LE16(b[..2]);
    assert v / 0x1_0000 == hi && v % 0x1_0000 == lo;
    assert ToBE16(hi) == [b[3], b[2]];
    assert ToBE16(lo) == [b[1], b[0]];
    assert ToBE32(v) == [b[3], b[2], b[1], b[0]];
  }

  /** htonl followed by ntohl is the identity. */
  lemma ByteSwapInvolutive(v: u32)
    ensures ByteSwap32(ByteSwap32(v)) == v
  {
    LE32BijectiveOnBytes(ToBE32(v));
    ByteSwapOfHostWord(ToBE32(v));
    BE32RoundTrip(v);
  }
}
