/**
 The bytes of the packets the userspace TCP link sends and accepts, by position: the IPv6
 header (section 3 of RFC 8200), the TCP header and its checksum (section 3.1 of RFC 9293).
 */
module TcpWire {
  import opened Words
  import opened NetworkOrder
  import opened Ipv6
  import opened Checksum
  import opened TcpSegments
  import opened TcpLinks

  lemma Read16(s: Bytes, i: nat)
    requires i + 2 <= |s|
    ensures Word16At(s, i) == Number16(s, i)
  {
    hide FromBigEndian;
    FromTwo(s[i..i + 2]);
  }

  lemma Read32(s: Bytes, i: nat)
    requires i + 4 <= |s|
    ensures Word32At(s, i) == Number32(s, i)
  {
    hide FromBigEndian;
    FromFour(s[i..i + 4]);
  }

  // ---------------------------------------------------------------------------
  // IPv6 packets
  // ---------------------------------------------------------------------------

  /** The forty bytes of a header whose narrow fields fit: version, class and label share the first four. */
  lemma HeaderBytes(h: Ipv6Header)
    requires h.Fits()
    ensures var s := h.Encode();
            && Number32(s, 0) == 0x1000_0000 * h.version + 0x10_0000 * h.trafficClass + h.flowLabel
            && Number16(s, 4) == h.payloadLength && s[6] == h.nextHeader && s[7] == h.hopLimit
            && s[8..24] == h.source && s[24..40] == h.destination
  {
    var s := h.Encode();
    assert s[8..24] == h.source && s[24..40] == h.destination;
    var c, f := h.trafficClass, h.flowLabel;
    LabelDigits(f);
    assert f % 0x10_0000 == f;
    assert 16 * (c / 16) + c % 16 == c;
  }

  /** The first packet of a stream: version 6, its length at byte 4, and all of it there. */
  lemma PacketExactly(s: Bytes, limit: nat, p: Bytes)
    ensures FirstPacket(s, limit) == Whole(p) <==>
              && |s| >= 40 && 0x60 <= s[0] <= 0x6f && |p| == 40 + Number16(s, 4) && |p| <= limit && p <= s
  {
    if |s| >= 40 {
      assert s[..40][0] == s[0] && s[..40][4] == s[4] && s[..40][5] == s[5];
      assert s[0] / 16 == 6 <==> 0x60 <= s[0] <= 0x6f;
    }
  }

  // ---------------------------------------------------------------------------
  // Segments
  // ---------------------------------------------------------------------------

  /** The segments the link takes: TCP (6), to its port and from the peer's. */
  lemma AcceptedExactly(packet: Bytes, sourcePort: Word16, peerPort: Word16, a: Arrival)
    ensures Accepted(packet, sourcePort, peerPort) == Some(a) <==>
              && |packet| >= 60 && packet[6] == 6
              && Number16(packet, 40) == peerPort && Number16(packet, 42) == sourcePort
              && a == Arrival(packet[53], Number32(packet, 44), packet[60..])
  {
    hide Word16At, Word32At;
    if |packet| >= 60 {
      var tcp := packet[40..60];
      Read16(tcp, 0);
      Read16(tcp, 2);
      Read32(tcp, 4);
      assert forall i :: 0 <= i < 20 ==> tcp[i] == packet[40 + i];
    }
  }

  /** The bits of the flags: FIN is 1, SYN 2, RST 4, PSH 8 and ACK 16. */
  lemma FlagBits(fin: nat, syn: nat, rst: nat, psh: nat, ack: nat, others: nat)
    requires fin < 2 && syn < 2 && rst < 2 && psh < 2 && ack < 2 && others < 8
    ensures var flags := fin + 2 * syn + 4 * rst + 8 * psh + 16 * ack + 32 * others;
            && (HasFin(flags) <==> fin == 1) && (HasSyn(flags) <==> syn == 1)
            && (HasRst(flags) <==> rst == 1) && (HasAck(flags) <==> ack == 1)
    ensures FIN == 1 && SYN == 2 && ACK == 16
  {
    var flags := fin + 2 * syn + 4 * rst + 8 * psh + 16 * ack + 32 * others;
    QuotientIs(flags, 2, syn + 2 * rst + 4 * psh + 8 * ack + 16 * others, fin);
    QuotientIs(flags, 4, rst + 2 * psh + 4 * ack + 8 * others, fin + 2 * syn);
    QuotientIs(flags, 16, ack + 2 * others, fin + 2 * syn + 4 * rst + 8 * psh);
  }

  /** A segment by its bits: which one answers a SYN, which ends the stream, and what it acknowledges. */
  lemma SegmentMeans(fin: nat, syn: nat, rst: nat, psh: nat, ack: nat, others: nat, sequence: Word32, payload: Bytes,
                     before: Word32)
    requires fin < 2 && syn < 2 && rst < 2 && psh < 2 && ack < 2 && others < 8
    ensures var a := Arrival(fin + 2 * syn + 4 * rst + 8 * psh + 16 * ack + 32 * others, sequence, payload);
            && (IsAnswer(a) <==> syn == 1 && ack == 1 && rst == 0)
            && (Terminates(a) <==> fin == 1 || rst == 1)
            && AckAfter(a, before) == (if rst == 1 || (fin == 0 && payload == []) then before
                                       else (sequence + |payload| + fin) % 0x1_0000_0000)
  {
    hide HasFin, HasSyn, HasRst, HasAck;
    FlagBits(fin, syn, rst, psh, ack, others);
  }

  /** The one's complement sum of big-endian words, the carry brought around; an odd last byte is a high half. */
  function Carried(s: Bytes): nat {
    if s == [] then 0
    else if |s| == 1 then 256 * (s[0] as int)
    else
      var sum := Number16(s, 0) + Carried(s[2..]);
      if sum >= 0x1_0000 then sum - 0xffff else sum
  }

  lemma {:induction false} CarriedIs(s: Bytes)
    ensures OnesSum(s) == Carried(s)
  {
    if |s| >= 2 {
      CarriedIs(s[2..]);
    }
  }

  /** The TCP header of what the link sends, with checksum `c`: five words, the widest window, no urgent data. */
  function HeaderWith(o: Outgoing, c: nat): Bytes {
    Two(o.ends.sourcePort) + (Two(o.ends.peerPort) + (Four(o.sequence) + (Four(o.acknowledgement) +
      ([0x50, o.flags, 0xff, 0xff] + (Two(c) + [0x00, 0x00])))))
  }

  /** What the checksum covers besides the segment. */
  function PseudoHeader(o: Outgoing): Bytes {
    o.ends.source + (o.ends.destination + (Four(20 + |o.payload|) + [0x00, 0x00, 0x00, 0x06]))
  }

  lemma HeaderIs(o: Outgoing)
    ensures o.Header().Encode() == HeaderWith(o, 0)
  {
    hide BigEndian, Two, Four;
    TwoIs(o.ends.sourcePort);
    TwoIs(o.ends.peerPort);
    FourIs(o.sequence);
    FourIs(o.acknowledgement);
    TwoIs(0xffff);
    TwoIs(0);
    TwoValues();
  }

  lemma TwoValues()
    ensures Two(0xffff) == [0xff, 0xff] && Two(0) == [0x00, 0x00]
  {
  }

  /** Every packet the link sends, byte by byte. */
  lemma PacketBytes(o: Outgoing)
    ensures var c := 0xffff - Carried(PseudoHeader(o) + (HeaderWith(o, 0) + o.payload));
            && 0 <= c <= 0xffff
            && o.Packet() == [0x60, 0x00, 0x00, 0x00] + (Two((20 + |o.payload|) % 0x1_0000) + ([0x06, 0x40] +
                 (o.ends.source + (o.ends.destination + (HeaderWith(o, c) + o.payload)))))
  {
    hide BigEndian, OnesSum, Carried, Four, TcpHeader.Encode;
    FourIs(20 + |o.payload|);
    HeaderIs(o);
    var pseudo := Pseudo(o.ends.source, o.ends.destination, 20 + |o.payload|);
    assert pseudo == PseudoHeader(o);
    CarriedIs(pseudo + o.Unstamped());
    var c := 0xffff - Carried(pseudo + o.Unstamped());
    StampedIs(o, c);
    IpHeaderIs((20 + |o.payload|) % 0x1_0000, o.ends.source, o.ends.destination);
    Regrouped(Two((20 + |o.payload|) % 0x1_0000), o.ends.source, o.ends.destination, o.Segment());
  }

  lemma StampedIs(o: Outgoing, c: Word16)
    ensures Stamped(HeaderWith(o, 0) + o.payload, c) == HeaderWith(o, c) + o.payload
  {
    hide Four;
  }

  lemma IpHeaderIs(length: Word16, source: Address, destination: Address)
    ensures Ipv6Header(6, 0, 0, length, 6, 64, source, destination).Encode() ==
            [0x60, 0x00, 0x00, 0x00] + Two(length) + [0x06, 0x40] + source + destination
  {
  }

  lemma Regrouped(length: Bytes, source: Bytes, destination: Bytes, segment: Bytes)
    ensures [0x60, 0x00, 0x00, 0x00] + length + [0x06, 0x40] + source + destination + segment ==
            [0x60, 0x00, 0x00, 0x00] + (length + ([0x06, 0x40] + (source + (destination + segment))))
  {
  }
}
