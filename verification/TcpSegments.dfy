/**
 The TCP segments of the userspace link: the header codec, the packet that carries a
 segment out, the filter that accepts one coming in, and sequence-number arithmetic.
 */
module TcpSegments {
  import opened Words
  import opened Ipv6
  import opened Checksum

  const TCP_HEADER_SIZE: nat := 20
  const HEADERS_SIZE: nat := IPV6_HEADER_SIZE + TCP_HEADER_SIZE
  const HOP_LIMIT: Byte := 64
  const TCP_WINDOW: Word16 := 0xffff

  const FIN: Byte := 0x01
  const SYN: Byte := 0x02
  const ACK: Byte := 0x10

  predicate HasFin(flags: Byte) {
    flags % 2 == 1
  }

  predicate HasSyn(flags: Byte) {
    flags / 2 % 2 == 1
  }

  predicate HasRst(flags: Byte) {
    flags / 4 % 2 == 1
  }

  predicate HasAck(flags: Byte) {
    flags / 16 % 2 == 1
  }

  datatype TcpHeader = TcpHeader(
    sourcePort: Word16, destinationPort: Word16, sequence: Word32, acknowledgement: Word32,
    dataOffset: Byte, flags: Byte, window: Word16, checksum: Word16, urgent: Word16)
  {
    function Encode(): (s: Bytes)
      ensures |s| == TCP_HEADER_SIZE
    {
      BigEndian(sourcePort, 2) + BigEndian(destinationPort, 2) +
      BigEndian(sequence, 4) + BigEndian(acknowledgement, 4) +
      [dataOffset % 16 * 16, flags] + BigEndian(window, 2) + BigEndian(checksum, 2) + BigEndian(urgent, 2)
    }
  }

  function Word16At(s: Bytes, i: nat): Word16
    requires i + 2 <= |s|
  {
    FromBigEndianBound(s[i..i + 2]);
    Pow256Values();
    FromBigEndian(s[i..i + 2])
  }

  function Word32At(s: Bytes, i: nat): Word32
    requires i + 4 <= |s|
  {
    FromBigEndianBound(s[i..i + 4]);
    Pow256Values();
    FromBigEndian(s[i..i + 4])
  }

  function DecodeTcp(s: Bytes): TcpHeader
    requires |s| == TCP_HEADER_SIZE
  {
    TcpHeader(Word16At(s, 0), Word16At(s, 2), Word32At(s, 4), Word32At(s, 8), s[12] / 16, s[13],
              Word16At(s, 14), Word16At(s, 16), Word16At(s, 18))
  }

  /** A header comes back from its bytes; a data offset keeps its low four bits. */
  lemma TcpHeaderBack(h: TcpHeader)
    ensures DecodeTcp(h.Encode()) == h.(dataOffset := h.dataOffset % 16)
  {
    hide BigEndian, FromBigEndian, Word16At, Word32At;
    var s := h.Encode();
    Field16(s, 0, h.sourcePort);
    Field16(s, 2, h.destinationPort);
    Field32(s, 4, h.sequence);
    Field32(s, 8, h.acknowledgement);
    Field16(s, 14, h.window);
    Field16(s, 16, h.checksum);
    Field16(s, 18, h.urgent);
  }

  lemma Field16(s: Bytes, i: nat, w: Word16)
    requires i + 2 <= |s| && s[i..i + 2] == BigEndian(w, 2)
    ensures Word16At(s, i) == w
  {
    hide BigEndian, FromBigEndian;
    Pow256Values();
    BigEndianRoundTrip(w, 2);
  }

  lemma Field32(s: Bytes, i: nat, w: Word32)
    requires i + 4 <= |s| && s[i..i + 4] == BigEndian(w, 4)
    ensures Word32At(s, i) == w
  {
    hide BigEndian, FromBigEndian;
    Pow256Values();
    BigEndianRoundTrip(w, 4);
  }

  // ---------------------------------------------------------------------------
  // Outgoing segments
  // ---------------------------------------------------------------------------

  datatype Ends = Ends(source: Address, destination: Address, sourcePort: Word16, peerPort: Word16)

  datatype Outgoing = Outgoing(ends: Ends, sequence: Word32, acknowledgement: Word32, flags: Byte, payload: Bytes) {
    /** The sequence numbers it takes: one a byte, and one for a SYN or a FIN. */
    function Length(): nat {
      |payload| + if HasSyn(flags) || HasFin(flags) then 1 else 0
    }

    function Header(): TcpHeader {
      TcpHeader(ends.sourcePort, ends.peerPort, sequence, acknowledgement, 5, flags, TCP_WINDOW, 0, 0)
    }

    /** The segment before its checksum is written. */
    function Unstamped(): (s: Bytes)
      ensures |s| == TCP_HEADER_SIZE + |payload|
    {
      Header().Encode() + payload
    }

    function Segment(): (s: Bytes)
      ensures |s| == TCP_HEADER_SIZE + |payload|
    {
      Stamped(Unstamped(), 65535 - OnesSum(Pseudo(ends.source, ends.destination, |Unstamped()|) + Unstamped()))
    }

    /** The whole IPv6 packet; the payload length is cut to 16 bits. */
    function Packet(): (s: Bytes)
      ensures |s| == HEADERS_SIZE + |payload|
    {
      var length := |Segment()| % TWO_TO_THE_16;
      Ipv6Header(IPV6_VERSION, 0, 0, length, NEXT_TCP, HOP_LIMIT, ends.source, ends.destination).Encode() + Segment()
    }
  }

  /** What one received segment tells the link. */
  datatype Arrival = Arrival(flags: Byte, sequence: Word32, payload: Bytes)

  /** The segment in `packet`, if it is TCP and for this pair of ports. */
  function Accepted(packet: Bytes, sourcePort: Word16, peerPort: Word16): Option<Arrival> {
    if |packet| < HEADERS_SIZE then None
    else if DecodeHeader(packet[..40]).nextHeader != NEXT_TCP then None
    else
      var tcp := DecodeTcp(packet[40..60]);
      if tcp.destinationPort != sourcePort || tcp.sourcePort != peerPort then None
      else Some(Arrival(tcp.flags, tcp.sequence, packet[60..]))
  }

  /** The payload section 3.1 of RFC 9293 gives a segment: what follows the options. */
  function PayloadAfterOptions(packet: Bytes): Bytes
    requires |packet| >= HEADERS_SIZE
    requires IPV6_HEADER_SIZE + 4 * DecodeTcp(packet[40..60]).dataOffset <= |packet|
  {
    packet[IPV6_HEADER_SIZE + 4 * DecodeTcp(packet[40..60]).dataOffset..]
  }

  /** The link ignores the data offset: its payload is the segment's if and only if there are no options. */
  lemma PayloadExactly(packet: Bytes, sourcePort: Word16, peerPort: Word16)
    requires Accepted(packet, sourcePort, peerPort).Some?
    requires IPV6_HEADER_SIZE + 4 * DecodeTcp(packet[40..60]).dataOffset <= |packet|
    ensures Accepted(packet, sourcePort, peerPort).value.payload == PayloadAfterOptions(packet) <==>
            DecodeTcp(packet[40..60]).dataOffset == 5
  {
    hide DecodeTcp, DecodeHeader;
    var offset: nat := DecodeTcp(packet[40..60]).dataOffset;
    assert |PayloadAfterOptions(packet)| == |packet| - 40 - 4 * offset;
  }

  /** Stamping leaves every header field but the checksum as it was. */
  lemma StampedHeader(o: Outgoing)
    ensures DecodeTcp(o.Segment()[..20]) == o.Header().(checksum := Word16At(o.Segment(), 16))
    ensures o.Segment()[20..] == o.payload
  {
    hide BigEndian, FromBigEndian, Word16At, Word32At, OnesSum, Pseudo, TcpHeader.Encode;
    TcpHeaderBack(o.Header());
    var u, s := o.Header().Encode(), o.Segment();
    assert forall k :: 0 <= k < 20 && k != 16 && k != 17 ==> u[k] == s[..20][k];
    SameField(u, s[..20], 0, 2);
    SameField(u, s[..20], 2, 2);
    SameField(u, s[..20], 4, 4);
    SameField(u, s[..20], 8, 4);
    SameField(u, s[..20], 14, 2);
    SameField(u, s[..20], 18, 2);
    assert s[..20][16..18] == s[16..18];
    SameWord(s[..20], s, 16);
  }

  lemma SameWord(s: Bytes, t: Bytes, i: nat)
    requires i + 2 <= |s| && i + 2 <= |t| && s[i..i + 2] == t[i..i + 2]
    ensures Word16At(s, i) == Word16At(t, i)
  {
  }

  lemma SameField(s: Bytes, t: Bytes, i: nat, n: nat)
    requires |s| == |t| == 20 && i + n <= 20 && (n == 2 || n == 4)
    requires (forall k :: 0 <= k < 20 && k != 16 && k != 17 ==> s[k] == t[k]) && (i + n <= 16 || i == 18)
    ensures s[i..i + n] == t[i..i + n]
    ensures if n == 2 then Word16At(s, i) == Word16At(t, i) else Word32At(s, i) == Word32At(t, i)
  {
    hide FromBigEndian;
    var a, b := s[i..i + n], t[i..i + n];
    assert forall k :: 0 <= k < n ==> a[k] == s[i + k] && b[k] == t[i + k];
    assert a == b;
  }

  /**
   What the link sends, a peer with the same filter accepts: the packet is one whole IPv6
   packet of its length, its checksum verifies, and the segment comes back as it was sent.
   */
  lemma PacketArrives(o: Outgoing, limit: nat)
    requires HEADERS_SIZE + |o.payload| <= limit && TCP_HEADER_SIZE + |o.payload| < TWO_TO_THE_16
    ensures IsPacket(o.Packet(), limit)
    ensures Accepted(o.Packet(), o.ends.peerPort, o.ends.sourcePort) == Some(Arrival(o.flags, o.sequence, o.payload))
    ensures OnesSum(Pseudo(o.ends.source, o.ends.destination, |o.payload| + 20) + o.Packet()[40..]) == 0xffff
  {
    hide OnesSum, Pseudo, Outgoing.Segment, Ipv6Header.Encode, DecodeTcp, DecodeHeader;
    var h := Ipv6Header(IPV6_VERSION, 0, 0, |o.Segment()| % TWO_TO_THE_16, NEXT_TCP, HOP_LIMIT,
                        o.ends.source, o.ends.destination);
    HeaderBack(h);
    var p := o.Packet();
    assert p[..40] == h.Encode() && p[40..] == o.Segment();
    assert p[40..60] == o.Segment()[..20] && p[60..] == o.Segment()[20..];
    StampedHeader(o);
    SegmentVerifies(o);
    assert p[..|p|] == p;
  }

  lemma SegmentVerifies(o: Outgoing)
    ensures OnesSum(Pseudo(o.ends.source, o.ends.destination, |o.payload| + 20) + o.Segment()) == 0xffff
  {
    hide OnesSum, Pseudo, TcpHeader.Encode, Stamped;
    ZeroField(o.Header());
    assert o.Unstamped()[16] == o.Header().Encode()[16] && o.Unstamped()[17] == o.Header().Encode()[17];
    ChecksumVerifies(o.ends.source, o.ends.destination, o.Unstamped());
  }

  lemma ZeroField(h: TcpHeader)
    requires h.checksum == 0
    ensures h.Encode()[16] == h.Encode()[17] == 0
  {
    assert BigEndian(0, 2) == [0, 0];
    assert h.Encode()[16..18] == BigEndian(0, 2);
    assert h.Encode()[16] == h.Encode()[16..18][0];
    assert h.Encode()[17] == h.Encode()[16..18][1];
  }

  // ---------------------------------------------------------------------------
  // The record of what was sent
  // ---------------------------------------------------------------------------

  type Log = seq<Outgoing>

  function Front(log: Log): Log
    requires log != []
  {
    log[..|log| - 1]
  }

  function Last(log: Log): Outgoing
    requires log != []
  {
    log[|log| - 1]
  }

  function Wire(log: Log): Bytes {
    if log == [] then [] else Wire(Front(log)) + Last(log).Packet()
  }

  function Payloads(log: Log): Bytes {
    if log == [] then [] else Payloads(Front(log)) + Last(log).payload
  }

  /** The sequence number after everything in the log. */
  function NextSequence(log: Log): Word32 {
    if log == [] then 0 else (Last(log).sequence + Last(log).Length()) % TWO_TO_THE_32
  }

  /** Each segment starts where the one before it ended, modulo 2^32, the first at 0. */
  predicate Contiguous(log: Log) {
    log == [] || (Contiguous(Front(log)) && Last(log).sequence == NextSequence(Front(log)))
  }

  function Fins(log: Log): nat {
    if log == [] then 0 else Fins(Front(log)) + if HasFin(Last(log).flags) then 1 else 0
  }

  /** No payload is larger than the maximum segment size. */
  predicate Sized(log: Log, mss: int) {
    forall o :: o in log ==> |o.payload| <= mss
  }

  function Lengths(log: Log): nat {
    if log == [] then 0 else Lengths(Front(log)) + Last(log).Length()
  }

  /** The sequence number of a segment is its position in the stream, modulo 2^32. */
  lemma {:induction false} SequenceIsPosition(log: Log)
    requires Contiguous(log)
    ensures NextSequence(log) == Lengths(log) % TWO_TO_THE_32
    ensures forall i :: 0 <= i < |log| ==> log[i].sequence == Lengths(log[..i]) % TWO_TO_THE_32
  {
    if log != [] {
      SequenceIsPosition(Front(log));
      forall i | 0 <= i < |log|
        ensures log[i].sequence == Lengths(log[..i]) % TWO_TO_THE_32
      {
        if i < |log| - 1 {
          assert log[..i] == Front(log)[..i] && log[i] == Front(log)[i];
        }
      }
      AddModulo(Lengths(Front(log)), Last(log).Length());
    }
  }

  lemma AddModulo(a: nat, b: nat)
    ensures (a % TWO_TO_THE_32 + b) % TWO_TO_THE_32 == (a + b) % TWO_TO_THE_32
  {
  }

  lemma AfterSegment(log: Log, o: Outgoing)
    ensures var g := log + [o];
            && Wire(g) == Wire(log) + o.Packet() && Payloads(g) == Payloads(log) + o.payload
            && NextSequence(g) == (o.sequence + o.Length()) % TWO_TO_THE_32
            && (Contiguous(g) <==> Contiguous(log) && o.sequence == NextSequence(log))
            && Fins(g) == Fins(log) + (if HasFin(o.flags) then 1 else 0)
            && forall mss :: Sized(g, mss) <==> Sized(log, mss) && |o.payload| <= mss
  {
    hide Outgoing.Packet;
    assert forall p :: p in log + [o] <==> p in log || p == o;
    assert Front(log + [o]) == log;
  }

  // ---------------------------------------------------------------------------
  // The record of what was received
  // ---------------------------------------------------------------------------

  /** The segments among some packets, in order; every other packet is passed over. */
  function Arrivals(packets: seq<Bytes>, sourcePort: Word16, peerPort: Word16): seq<Arrival> {
    if packets == [] then [] else
    var rest := Arrivals(packets[..|packets| - 1], sourcePort, peerPort);
    match Accepted(packets[|packets| - 1], sourcePort, peerPort)
    case Some(arrival) => rest + [arrival]
    case None => rest
  }

  lemma AfterPacket(packets: seq<Bytes>, p: Bytes, sourcePort: Word16, peerPort: Word16)
    ensures Arrivals(packets + [p], sourcePort, peerPort) == Arrivals(packets, sourcePort, peerPort) +
                match Accepted(p, sourcePort, peerPort) { case Some(arrival) => [arrival] case None => [] }
  {
    hide Accepted;
    assert (packets + [p])[..|packets|] == packets;
  }

  /** The byte stream the peer sent: the payloads in order, a reset carrying none. */
  function Stream(arrivals: seq<Arrival>): Bytes {
    if arrivals == [] then [] else
    var last := arrivals[|arrivals| - 1];
    Stream(arrivals[..|arrivals| - 1]) + if HasRst(last.flags) then [] else last.payload
  }

  /** The acknowledgement one segment moves the receiver to. */
  function AckAfter(a: Arrival, ack: Word32): Word32 {
    if HasRst(a.flags) then ack
    else if HasFin(a.flags) then (a.sequence + |a.payload| + 1) % TWO_TO_THE_32
    else if a.payload != [] then (a.sequence + |a.payload|) % TWO_TO_THE_32
    else ack
  }

  /** The acknowledgement after some segments, from the first byte expected. */
  function Acked(arrivals: seq<Arrival>, base: Word32): Word32 {
    if arrivals == [] then base else
    AckAfter(arrivals[|arrivals| - 1], Acked(arrivals[..|arrivals| - 1], base))
  }

  predicate Terminates(a: Arrival) {
    HasRst(a.flags) || HasFin(a.flags)
  }

  /** No segment ended the stream. */
  predicate Running(arrivals: seq<Arrival>) {
    forall a :: a in arrivals ==> !Terminates(a)
  }

  /** The peer sends in order: each segment that counts starts where the last one ended. */
  predicate InOrder(arrivals: seq<Arrival>, base: Word32) {
    arrivals == [] ||
    var front, last := arrivals[..|arrivals| - 1], arrivals[|arrivals| - 1];
    && InOrder(front, base)
    && (!HasRst(last.flags) && (HasFin(last.flags) || last.payload != []) ==> last.sequence == Acked(front, base))
  }

  /** The acknowledgement of an in-order peer is the count of its bytes, modulo 2^32. */
  lemma {:induction false} AcknowledgesTheStream(arrivals: seq<Arrival>, base: Word32)
    requires InOrder(arrivals, base) && Running(arrivals)
    ensures Acked(arrivals, base) == (base + |Stream(arrivals)|) % TWO_TO_THE_32
  {
    if arrivals != [] {
      var front, last := arrivals[..|arrivals| - 1], arrivals[|arrivals| - 1];
      assert last in arrivals && !Terminates(last);
      AcknowledgesTheStream(front, base);
      AddModulo(base + |Stream(front)|, |last.payload|);
    }
  }

  lemma AfterArrival(arrivals: seq<Arrival>, a: Arrival, base: Word32)
    ensures var g := arrivals + [a];
            && Stream(g) == Stream(arrivals) + (if HasRst(a.flags) then [] else a.payload)
            && Acked(g, base) == AckAfter(a, Acked(arrivals, base))
            && (Running(g) <==> Running(arrivals) && !Terminates(a))
  {
    var g := arrivals + [a];
    assert g[..|arrivals|] == arrivals;
    assert forall b :: b in g <==> b in arrivals || b == a;
  }

  // ---------------------------------------------------------------------------
  // What became of each segment received
  // ---------------------------------------------------------------------------

  /** The payload of a segment is kept, unless its acknowledgement could not be written. */
  datatype Fate = Kept | Lost

  /** The payloads that were kept, in order. */
  function Retained(arrivals: seq<Arrival>, fates: seq<Fate>): Bytes
    requires |fates| == |arrivals|
  {
    if arrivals == [] then [] else
    var n := |arrivals| - 1;
    Retained(arrivals[..n], fates[..n]) +
    if HasRst(arrivals[n].flags) || fates[n] == Lost then [] else arrivals[n].payload
  }

  /** Only a segment that carries data and does not end the stream can be lost. */
  predicate OnlyDataIsLost(arrivals: seq<Arrival>, fates: seq<Fate>) {
    && |fates| == |arrivals|
    && forall i :: 0 <= i < |fates| && fates[i] == Lost ==> arrivals[i].payload != [] && !Terminates(arrivals[i])
  }

  lemma AfterFate(arrivals: seq<Arrival>, fates: seq<Fate>, a: Arrival, fate: Fate)
    requires OnlyDataIsLost(arrivals, fates)
    requires fate == Lost ==> a.payload != [] && !Terminates(a)
    ensures OnlyDataIsLost(arrivals + [a], fates + [fate])
    ensures Retained(arrivals + [a], fates + [fate]) ==
            Retained(arrivals, fates) + if HasRst(a.flags) || fate == Lost then [] else a.payload
  {
    assert (arrivals + [a])[..|arrivals|] == arrivals && (fates + [fate])[..|fates|] == fates;
  }

  /** The whole stream was kept if and only if no payload was lost; otherwise it is shorter. */
  lemma {:induction false} RetainedExactly(arrivals: seq<Arrival>, fates: seq<Fate>)
    requires OnlyDataIsLost(arrivals, fates)
    ensures Retained(arrivals, fates) == Stream(arrivals) <==> Lost !in fates
    ensures |Retained(arrivals, fates)| <= |Stream(arrivals)|
    ensures Lost in fates ==> |Retained(arrivals, fates)| < |Stream(arrivals)|
  {
    if arrivals != [] {
      var n := |arrivals| - 1;
      RetainedExactly(arrivals[..n], fates[..n]);
      assert Lost in fates <==> Lost in fates[..n] || fates[n] == Lost;
    }
  }

  lemma NothingReceived(base: Word32, sourcePort: Word16, peerPort: Word16)
    ensures Running([]) && Stream([]) == [] && Arrivals([], sourcePort, peerPort) == [] && Acked([], base) == base
    ensures Retained([], []) == [] && OnlyDataIsLost([], [])
  {
  }

  /**
   Of two payloads the first is lost and the second kept: what the caller is given is not
   a prefix of the stream, and the acknowledgement covers the byte that is missing.
   */
  lemma LostPayloadLeavesAHole()
    ensures var arrivals, fates := [Arrival(ACK, 1, [7]), Arrival(ACK, 2, [8])], [Lost, Kept];
            && OnlyDataIsLost(arrivals, fates) && InOrder(arrivals, 1) && Running(arrivals)
            && Retained(arrivals, fates) == [8] && Stream(arrivals) == [7, 8]
            && Acked(arrivals, 1) == 3
  {
    hide Retained, Stream, Acked, Running, OnlyDataIsLost;
    var a, b := Arrival(ACK, 1, [7]), Arrival(ACK, 2, [8]);
    NothingReceived(1, 0, 0);
    AfterArrival([], a, 1);
    AfterArrival([a], b, 1);
    AfterFate([], [], a, Lost);
    AfterFate([a], [Lost], b, Kept);
    assert [] + [a] == [a] && [a] + [b] == [a, b] && [] + [Lost] == [Lost] && [Lost] + [Kept] == [Lost, Kept];
    assert [a][..0] == [] && [a, b][..1] == [a];
    assert InOrder([], 1) && InOrder([a], 1);
  }
}
