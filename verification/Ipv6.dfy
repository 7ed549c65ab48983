/**
 The fixed IPv6 header and the framer that cuts a byte stream into packets
 (section 3 of RFC 8200).
 */
module Ipv6 {
  import opened Words
  import opened Transports

  const IPV6_HEADER_SIZE: nat := 40
  const IPV6_VERSION: nat := 6
  const READ_SIZE: nat := 16384

  type Address = a: Bytes | |a| == 16 witness seq(16, _ => 0)

  datatype Ipv6Header = Ipv6Header(
    version: Byte, trafficClass: Byte, flowLabel: Word32, payloadLength: Word16,
    nextHeader: Byte, hopLimit: Byte, source: Address, destination: Address)
  {
    /** The version fits its 4 bits and the flow label its 20. */
    predicate Fits() {
      version < 16 && flowLabel < 0x10_0000
    }

    function Encode(): (s: Bytes)
      ensures |s| == IPV6_HEADER_SIZE
    {
      [version % 16 * 16 + trafficClass / 16,
       trafficClass % 16 * 16 + flowLabel / 0x1_0000 % 16,
       flowLabel / 256 % 256,
       flowLabel % 256,
       payloadLength / 256,
       payloadLength % 256,
       nextHeader,
       hopLimit] + source + destination
    }
  }

  function DecodeHeader(s: Bytes): Ipv6Header
    requires |s| == IPV6_HEADER_SIZE
  {
    Ipv6Header(s[0] / 16, s[0] % 16 * 16 + s[1] / 16,
               0x1_0000 * (s[1] as int % 16) + 256 * (s[2] as int) + s[3],
               256 * (s[4] as int) + s[5], s[6], s[7], s[8..24], s[24..40])
  }

  /** A header comes back from its bytes if and only if its narrow fields fit. */
  lemma HeaderBack(h: Ipv6Header)
    ensures DecodeHeader(h.Encode()) == h <==> h.Fits()
    ensures DecodeHeader(h.Encode()).payloadLength == h.payloadLength
  {
    var s := h.Encode();
    assert s[8..24] == h.source && s[24..40] == h.destination;
    HeadBack(h);
  }

  lemma HeadBack(h: Ipv6Header)
    ensures var s, d := h.Encode(), DecodeHeader(h.Encode());
            && d.version == h.version % 16 && d.trafficClass == h.trafficClass
            && d.flowLabel == h.flowLabel % 0x10_0000 && d.payloadLength == h.payloadLength
            && d.nextHeader == h.nextHeader && d.hopLimit == h.hopLimit
  {
    LabelDigits(h.flowLabel);
    assert h.payloadLength == 256 * (h.payloadLength / 256) + h.payloadLength % 256;
    assert 16 * (h.trafficClass as int / 16) + h.trafficClass % 16 == h.trafficClass;
  }

  lemma LabelDigits(f: nat)
    ensures 0x1_0000 * (f / 0x1_0000 % 16) + 256 * (f / 256 % 256) + f % 256 == f % 0x10_0000
  {
    assert f / 256 / 256 == f / 0x1_0000;
    assert f / 0x1_0000 / 16 == f / 0x10_0000;
  }

  /** Every forty bytes are the encoding of the header they decode to. */
  lemma HeaderForth(s: Bytes)
    requires |s| == IPV6_HEADER_SIZE
    ensures DecodeHeader(s).Fits() && DecodeHeader(s).Encode() == s
  {
    var h := DecodeHeader(s);
    HeadForth(s);
    assert h.source == s[8..24] && h.destination == s[24..40] && h.Encode()[8..] == h.source + h.destination;
    hide DecodeHeader, Ipv6Header.Encode;
    assert h.Encode() == h.Encode()[..8] + h.Encode()[8..];
    assert s == s[..8] + (s[8..24] + s[24..40]);
  }

  lemma HeadForth(s: Bytes)
    requires |s| == IPV6_HEADER_SIZE
    ensures DecodeHeader(s).Fits() && DecodeHeader(s).Encode()[..8] == s[..8]
  {
    var h := DecodeHeader(s);
    NibbleAndByte(s[0] % 16, s[1] / 16);
    NibbleAndByte(s[0] / 16, s[0] % 16);
    NibbleAndByte(s[1] / 16, s[1] % 16);
    LabelBytes(s[1] % 16, s[2], s[3]);
    assert h.payloadLength / 256 == s[4] && h.payloadLength % 256 == s[5];
    assert h.Encode()[..8] == s[..8];
  }

  lemma NibbleAndByte(high: nat, low: nat)
    requires high < 16 && low < 16
    ensures (16 * high + low) / 16 == high && (16 * high + low) % 16 == low
  {
  }

  lemma LabelBytes(a: nat, b: nat, c: nat)
    requires a < 16 && b < 256 && c < 256
    ensures var f := 0x1_0000 * a + 256 * b + c;
            f / 0x1_0000 % 16 == a && f / 256 % 256 == b && f % 256 == c && f < 0x10_0000
  {
  }

  /** The size of the packet that a full header announces. */
  function PacketSize(s: Bytes): (size: nat)
    requires |s| >= IPV6_HEADER_SIZE
    ensures IPV6_HEADER_SIZE <= size
  {
    IPV6_HEADER_SIZE + DecodeHeader(s[..40]).payloadLength
  }

  /** Why the start of a stream is, or is not yet, a packet. */
  datatype Framed = Whole(packet: Bytes) | Foreign | TooLarge | Short

  function FirstPacket(s: Bytes, limit: nat): (r: Framed)
    ensures r.Whole? ==> IPV6_HEADER_SIZE <= |r.packet| <= |s| && r.packet == s[..|r.packet|]
  {
    if |s| < IPV6_HEADER_SIZE then Short
    else if DecodeHeader(s[..40]).version != IPV6_VERSION then Foreign
    else if PacketSize(s) > limit then TooLarge
    else if |s| < PacketSize(s) then Short
    else Whole(s[..PacketSize(s)])
  }

  /** One whole packet within the limit. */
  predicate IsPacket(p: Bytes, limit: nat) {
    FirstPacket(p, limit) == Whole(p)
  }

  /** Packets are self-delimiting. */
  lemma PacketBack(p: Bytes, rest: Bytes, limit: nat)
    requires IsPacket(p, limit)
    ensures FirstPacket(p + rest, limit) == Whole(p)
  {
    assert (p + rest)[..40] == p[..40];
    assert (p + rest)[..|p|] == p;
  }

  lemma PacketForth(s: Bytes, limit: nat)
    requires FirstPacket(s, limit).Whole?
    ensures IsPacket(FirstPacket(s, limit).packet, limit)
  {
    var p := FirstPacket(s, limit).packet;
    assert p[..40] == s[..40];
  }

  ghost predicate ArePackets(packets: seq<Bytes>, limit: nat) {
    forall p :: p in packets ==> IsPacket(p, limit)
  }

  /**
   The packets taken from a stream of packets are those packets: whatever was taken is
   the stream's own beginning, and what remains is the rest of the stream.
   */
  lemma {:induction false} TakenInOrder(taken: seq<Bytes>, remaining: Bytes, stream: seq<Bytes>, limit: nat)
    requires ArePackets(taken, limit) && ArePackets(stream, limit)
    requires Concat(taken) + remaining == Concat(stream)
    ensures taken <= stream && remaining == Concat(stream[|taken|..])
  {
    hide FirstPacket;
    if taken == [] {
      assert stream[0..] == stream;
    } else {
      var p := taken[0];
      assert p in taken;
      assert Concat(taken) + remaining == p + (Concat(taken[1..]) + remaining);
      PacketBack(p, Concat(taken[1..]) + remaining, limit);
      if stream != [] {
        assert stream[0] in stream;
        PacketBack(stream[0], Concat(stream[1..]), limit);
        assert stream[0] == p;
        assert (p + (Concat(taken[1..]) + remaining))[|p|..] == (p + Concat(stream[1..]))[|p|..];
        assert Concat(taken[1..]) + remaining == Concat(stream[1..]);
        TakenInOrder(taken[1..], remaining, stream[1..], limit);
        assert stream[|taken|..] == stream[1..][|taken| - 1..];
        assert taken == [p] + taken[1..] && stream == [p] + stream[1..];
      } else {
        EmptyIsNoPacket(limit);
      }
    }
  }

  lemma EmptyIsNoPacket(limit: nat)
    ensures FirstPacket([], limit) == Short
  {
  }

  /** A stream of packets always starts with its next packet. */
  lemma NextPacket(stream: seq<Bytes>, limit: nat)
    requires ArePackets(stream, limit) && stream != []
    ensures FirstPacket(Concat(stream), limit) == Whole(stream[0])
  {
    assert stream[0] in stream;
    PacketBack(stream[0], Concat(stream[1..]), limit);
  }

  /**
   Reads whole packets from a transport that chunks them arbitrarily. `taken` is a ghost
   record of the packets returned and `input` the whole stream.
   */
  class Ipv6Framer {
    const transport: Transport
    const maxPacketSize: nat
    var buffer: Bytes
    var offset: nat

    ghost var taken: seq<Bytes>
    ghost const input: Bytes

    /** The unread buffer and the unread input: the part of the stream not yet taken. */
    ghost function Remaining(): Bytes
      reads this, transport`incoming
    {
      (if offset <= |buffer| then buffer[offset..] else []) + transport.incoming
    }

    ghost predicate Valid()
      reads this, transport`incoming
    {
      && offset <= |buffer| <= Max(IPV6_HEADER_SIZE, maxPacketSize) + READ_SIZE - 1
      && input == Concat(taken) + Remaining()
      && ArePackets(taken, maxPacketSize)
    }

    constructor (transport: Transport, maxPacketSize: nat)
      ensures Valid() && this.transport == transport && this.maxPacketSize == maxPacketSize
      ensures taken == [] && input == transport.incoming
    {
      this.transport, this.maxPacketSize := transport, maxPacketSize;
      buffer, offset := [], 0;
      taken, input := [], transport.incoming;
    }

    /** A call of the transport failed, and that is the error. */
    ghost predicate Failed(error: Error, before: nat)
      reads transport`failures
    {
      transport.failures > before && error == Error.Transport
    }

    /** The transport failed, or without a failure no whole packet remains. */
    ghost predicate Cut(error: Error, before: nat)
      reads this, transport
    {
      || Failed(error, before)
      || (error == Protocol && transport.failures == before && !FirstPacket(Remaining(), maxPacketSize).Whole?)
    }

    /** Ensures `count` bytes are buffered past the consumed prefix, which is dropped first. */
    method Fill(count: nat) returns (status: Result<()>)
      requires Valid() && count <= Max(IPV6_HEADER_SIZE, maxPacketSize)
      modifies this`buffer, this`offset, transport`incoming, transport`failures
      ensures Valid() && Remaining() == old(Remaining()) && offset == 0
      ensures status.Ok? ==> |buffer| >= count && transport.failures == old(transport.failures)
      ensures status.Err? ==>
                Failed(status.error, old(transport.failures)) ||
                (status.error == Protocol && |Remaining()| < count && transport.failures == old(transport.failures))
    {
      hide ArePackets, Concat;
      if offset > 0 {
        buffer := buffer[offset..];
        offset := 0;
      }
      assert buffer[0..] == buffer;
      while |buffer| < count
        invariant offset == 0 && Remaining() == old(Remaining()) && transport.failures == old(transport.failures)
        invariant |buffer| <= Max(IPV6_HEADER_SIZE, maxPacketSize) + READ_SIZE - 1
        decreases count - |buffer|
      {
        assert buffer[0..] == buffer;
        var chunk := transport.Read(READ_SIZE);
        if chunk.Err? {
          return Err(chunk.error);
        }
        if chunk.value == [] {
          return Err(Protocol);
        }
        assert buffer + (chunk.value + transport.incoming) == (buffer + chunk.value) + transport.incoming;
        buffer := buffer + chunk.value;
        assert buffer[0..] == buffer;
      }
      status := Ok(());
    }

    /** Reads exactly one packet, the first of the remaining stream. */
    method ReadPacket() returns (packet: Result<Bytes>)
      requires Valid()
      modifies this`buffer, this`offset, this`taken, transport`incoming, transport`failures
      ensures Valid()
      ensures packet.Ok? ==> transport.failures == old(transport.failures)
      ensures packet.Ok? ==>
                && FirstPacket(old(Remaining()), maxPacketSize) == Whole(packet.value)
                && taken == old(taken) + [packet.value]
                && old(Remaining()) == packet.value + Remaining()
      ensures packet.Err? ==> taken == old(taken) && Remaining() == old(Remaining())
      ensures packet.Err? ==> Cut(packet.error, old(transport.failures))
    {
      hide ArePackets, Concat, DecodeHeader, IsPacket;
      var status := Fill(IPV6_HEADER_SIZE);
      if status.Err? {
        return Err(status.error);
      }
      assert Remaining()[..40] == buffer[offset..offset + 40];
      var header := DecodeHeader(buffer[offset..offset + 40]);
      if header.version != IPV6_VERSION {
        return Err(Protocol);
      }
      var total := IPV6_HEADER_SIZE + header.payloadLength;
      if total > maxPacketSize {
        return Err(Protocol);
      }
      status := Fill(total);
      if status.Err? {
        return Err(status.error);
      }
      var result := buffer[offset..offset + total];
      assert Remaining()[..total] == result;
      Take(result);
      packet := Ok(result);
    }

    /** Moves past the first packet of the buffer and records it. */
    method Take(packet: Bytes)
      requires Valid() && offset == 0 && |packet| <= |buffer| && packet == buffer[..|packet|]
      requires FirstPacket(Remaining(), maxPacketSize) == Whole(packet)
      modifies this`offset, this`taken
      ensures Valid() && taken == old(taken) + [packet] && old(Remaining()) == packet + Remaining()
    {
      hide FirstPacket, Concat;
      PacketForth(Remaining(), maxPacketSize);
      ConcatSnoc(taken, packet);
      assert buffer[0..] == packet + buffer[|packet|..];
      offset := offset + |packet|;
      taken := taken + [packet];
      assert input == Concat(old(taken)) + (packet + Remaining());
    }

    /**
     Whatever the chunking, on a stream of packets the framer stands between two of them and
     the next one it returns is the next of the stream.
     */
    lemma FollowsStream(stream: seq<Bytes>)
      requires Valid() && ArePackets(stream, maxPacketSize) && input == Concat(stream)
      ensures taken <= stream && Remaining() == Concat(stream[|taken|..])
      ensures |taken| < |stream| ==> FirstPacket(Remaining(), maxPacketSize) == Whole(stream[|taken|])
    {
      TakenInOrder(taken, Remaining(), stream, maxPacketSize);
      if |taken| < |stream| {
        NextPacket(stream[|taken|..], maxPacketSize);
      }
    }

    method WritePacket(packet: Bytes) returns (status: Result<()>)
      modifies transport`sent, transport`failures
      ensures if status.Ok? then transport.failures == old(transport.failures)
              else Failed(status.error, old(transport.failures))
      ensures transport.sent == if status.Ok? then old(transport.sent) + packet else old(transport.sent)
    {
      status := transport.Write(packet);
    }
  }
}
