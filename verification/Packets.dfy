/**
 * The IPv4, IPv6 and UDP decoder of the DNS capture (internal/dnswatch/packet.go), with an encoder for each of
 * the two headers and for UDP datagrams (section 3.1 of RFC 791, section 3 of RFC 8200, RFC 768). The direction
 * of a packet, which the capture sets afterwards, is not part of this model.
 */
module Packets {
  import opened Collections

  type Byte = n: nat | n < 256

  /** A UDP datagram; the capture sets its direction afterwards. */
  datatype Packet = Packet(src: seq<Byte>, dst: seq<Byte>, srcPort: nat, dstPort: nat, payload: seq<Byte>)

  /** The big-endian 16-bit number at k. */
  function Half(b: seq<Byte>, k: nat): nat
    requires k + 2 <= |b|
  {
    256 * (b[k] as nat) + (b[k + 1] as nat)
  }

  function Version(b: seq<Byte>): nat
    requires b != []
  {
    b[0] / 16
  }

  /** The IPv4 header length in bytes. */
  function HeaderLength(b: seq<Byte>): nat
    requires b != []
  {
    b[0] % 16 * 4
  }

  /** The UDP header and payload at off; a length field out of range stands for the rest of the packet. */
  function ParseUdp(b: seq<Byte>, off: nat, src: seq<Byte>, dst: seq<Byte>): Packet
    requires off + 8 <= |b|
  {
    var udp := b[off..];
    var field := Half(udp, 4);
    var ulen := if field < 8 || field > |udp| then |udp| else field;
    Packet(src, dst, Half(udp, 0), Half(udp, 2), udp[8..ulen])
  }

  function ParseIP(b: seq<Byte>): Option<Packet> {
    if |b| < 1 then None
    else if Version(b) == 4 then
      if |b| < 20 then None
      else
        var ihl := HeaderLength(b);
        if ihl < 20 || |b| < ihl + 8 || b[9] != 17 then None
        else if Half(b, 6) % 0x4000 != 0 then None
        else Some(ParseUdp(b, ihl, b[12..16], b[16..20]))
    else if Version(b) == 6 then
      if |b| < 48 || b[6] != 17 then None
      else Some(ParseUdp(b, 40, b[8..24], b[24..40]))
    else None
  }

  // ---- encoding, after section 3.1 of RFC 791, section 3 of RFC 8200 and RFC 768

  function Split16(n: nat): seq<Byte>
    requires n < 0x1_0000
  {
    [n / 256, n % 256]
  }

  function EncodeUdp(srcPort: nat, dstPort: nat, checksum: seq<Byte>, payload: seq<Byte>): seq<Byte>
    requires srcPort < 0x1_0000 && dstPort < 0x1_0000 && |checksum| == 2 && |payload| + 8 < 0x1_0000
  {
    Split16(srcPort) + Split16(dstPort) + Split16(8 + |payload|) + checksum + payload
  }

  /**
   * An IPv4 packet that is no fragment: tosLengthId, timeToLive and checksum are free, dontFragment is the
   * only flag that may be set beside the reserved one, options fill the header to a multiple of four bytes.
   */
  datatype Header4 = Header4(tosLengthId: seq<Byte>, reserved: bool, dontFragment: bool, timeToLive: Byte,
                             checksum: seq<Byte>, src: seq<Byte>, dst: seq<Byte>, options: seq<Byte>)
  {
    predicate Valid() {
      && |tosLengthId| == 5 && |checksum| == 2 && |src| == 4 && |dst| == 4
      && |options| % 4 == 0 && |options| <= 40
    }

    function Encode(): seq<Byte>
      requires Valid()
    {
      [64 + 5 + |options| / 4] + tosLengthId
      + [(if reserved then 128 else 0) + (if dontFragment then 64 else 0), 0]
      + [timeToLive, 17] + checksum + src + dst + options
    }
  }

  datatype Header6 = Header6(classAndFlow: seq<Byte>, length: seq<Byte>, hopLimit: Byte, src: seq<Byte>, dst: seq<Byte>)
  {
    predicate Valid() {
      |classAndFlow| == 4 && classAndFlow[0] / 16 == 6 && |length| == 2 && |src| == 16 && |dst| == 16
    }

    function Encode(): seq<Byte>
      requires Valid()
    {
      classAndFlow + length + [17, hopLimit] + src + dst
    }
  }

  /** The datagram is found behind any header of length off, whatever padding follows it. */
  lemma UdpRoundTrip(head: seq<Byte>, srcPort: nat, dstPort: nat, checksum: seq<Byte>, payload: seq<Byte>,
                     padding: seq<Byte>, src: seq<Byte>, dst: seq<Byte>)
    requires srcPort < 0x1_0000 && dstPort < 0x1_0000 && |checksum| == 2 && |payload| + 8 < 0x1_0000
    ensures var b := head + EncodeUdp(srcPort, dstPort, checksum, payload) + padding;
            |head| + 8 <= |b| && ParseUdp(b, |head|, src, dst) == Packet(src, dst, srcPort, dstPort, payload)
  {
    var u := EncodeUdp(srcPort, dstPort, checksum, payload);
    var b := head + u + padding;
    var udp := b[|head|..];
    assert udp == u + padding;
    assert Half(udp, 0) == srcPort && Half(udp, 2) == dstPort && Half(udp, 4) == 8 + |payload|;
    assert udp[8..8 + |payload|] == payload;
  }

  /** The payload ends where the length field says, or with the packet when that is out of range. */
  lemma PayloadIsExact(b: seq<Byte>, off: nat, src: seq<Byte>, dst: seq<Byte>)
    requires off + 8 <= |b|
    ensures var n := 256 * (b[off + 4] as nat) + (b[off + 5] as nat);
            ParseUdp(b, off, src, dst).payload == b[off + 8..if n >= 8 && off + n <= |b| then off + n else |b|]
  {
    var udp, n := b[off..], 256 * (b[off + 4] as nat) + (b[off + 5] as nat);
    assert Half(udp, 4) == n;
    assert udp[8..] == b[off + 8..];
    if n >= 8 && off + n <= |b| {
      assert udp[8..n] == b[off + 8..off + n];
    }
  }

  /** Decoding inverts encoding for every IPv4 datagram that is no fragment. */
  lemma ParseInvertsEncode4(h: Header4, srcPort: nat, dstPort: nat, checksum: seq<Byte>, payload: seq<Byte>,
                            padding: seq<Byte>)
    requires h.Valid()
    requires srcPort < 0x1_0000 && dstPort < 0x1_0000 && |checksum| == 2 && |payload| + 8 < 0x1_0000
    ensures ParseIP(h.Encode() + EncodeUdp(srcPort, dstPort, checksum, payload) + padding)
            == Some(Packet(h.src, h.dst, srcPort, dstPort, payload))
  {
    var rest := EncodeUdp(srcPort, dstPort, checksum, payload) + padding;
    UdpRoundTrip(h.Encode(), srcPort, dstPort, checksum, payload, padding, h.src, h.dst);
    HeaderIsRead(h, rest);
    assert h.Encode() + EncodeUdp(srcPort, dstPort, checksum, payload) + padding == h.Encode() + rest;
  }

  lemma HeaderIsRead(h: Header4, rest: seq<Byte>)
    requires h.Valid() && |rest| >= 8
    ensures var b := h.Encode() + rest;
            |h.Encode()| + 8 <= |b| && ParseIP(b) == Some(ParseUdp(b, |h.Encode()|, h.src, h.dst))
  {
    var head := h.Encode();
    var b := head + rest;
    HeaderParts(h);
    assert b[12..16] == head[12..16] && b[16..20] == head[16..20];
    assert b[0] == head[0] && b[6] == head[6] && b[7] == head[7] && b[9] == head[9];
    assert |head| == HeaderLength(b);
  }

  lemma HeaderParts(h: Header4)
    requires h.Valid()
    ensures var head := h.Encode();
            && |head| == 20 + |h.options| && head[0] == 64 + 5 + |h.options| / 4
            && head[6] == (if h.reserved then 128 else 0) + (if h.dontFragment then 64 else 0)
            && head[7] == 0 && head[9] == 17
            && head[12..16] == h.src && head[16..20] == h.dst
  {
  }

  lemma ParseInvertsEncode6(h: Header6, srcPort: nat, dstPort: nat, checksum: seq<Byte>, payload: seq<Byte>,
                            padding: seq<Byte>)
    requires h.Valid()
    requires srcPort < 0x1_0000 && dstPort < 0x1_0000 && |checksum| == 2 && |payload| + 8 < 0x1_0000
    ensures ParseIP(h.Encode() + EncodeUdp(srcPort, dstPort, checksum, payload) + padding)
            == Some(Packet(h.src, h.dst, srcPort, dstPort, payload))
  {
    var head := h.Encode();
    var b := head + EncodeUdp(srcPort, dstPort, checksum, payload) + padding;
    UdpRoundTrip(head, srcPort, dstPort, checksum, payload, padding, h.src, h.dst);
    assert |head| == 40 && b[0] == h.classAndFlow[0] && b[6] == head[6] == 17;
    assert b[8..24] == h.src && b[24..40] == h.dst;
  }
}
