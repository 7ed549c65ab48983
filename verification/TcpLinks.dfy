/**
 A userspace TCP connection over the tunnel's IPv6 packets.

 The tunnel below is reliable and in order, so the link neither retransmits nor reorders.
 Ghost fields record what was sent (`log`, for the current connection, and `past`, before
 it), the segments received since the connection was made (`arrivals`), whether the payload
 of each was kept (`fates`) and the bytes given to the caller (`delivered`).
 */
module TcpLinks {
  import opened Words
  import opened Transports
  import opened Ipv6
  import opened Checksum
  import opened TcpSegments

  class TcpLink {
    const framer: Ipv6Framer
    const mtu: Word16
    const source: Address
    const sourcePort: Word16
    var destination: Address
    var peerPort: Word16
    var sendSeq: Word32
    var recvSeq: Word32
    var established: bool
    var closed: bool
    var incoming: Bytes
    var incomingOffset: nat

    ghost const before: Bytes
    ghost var past: Log
    ghost var log: Log
    ghost var joined: nat
    ghost var base: Word32
    ghost var carried: Bytes
    ghost var arrivals: seq<Arrival>
    ghost var delivered: Bytes
    ghost var fates: seq<Fate>

    function Mss(): int {
      mtu - HEADERS_SIZE
    }

    /** The bytes received and not yet read. */
    ghost function Unread(): Bytes
      reads this
    {
      if incomingOffset <= |incoming| then incoming[incomingOffset..] else []
    }

    /**
     The sending side: the wire carries the recorded segments, each fits the MTU, and the
     sequence numbers of the connection are contiguous.
     */
    ghost predicate Sending()
      reads this`past, this`log, this`sendSeq, framer.transport`sent
    {
      && mtu > HEADERS_SIZE
      && framer.transport.sent == before + Wire(past + log)
      && Contiguous(log)
      && sendSeq == NextSequence(log)
      && Sized(past + log, Mss())
    }

    /** The receiving side: the bytes given out and those unread are the payloads that were kept. */
    ghost predicate Receiving()
      reads this, framer, framer.transport`incoming
    {
      && framer.Valid()
      && incomingOffset <= |incoming|
      && joined <= |framer.taken|
      && arrivals == Arrivals(framer.taken[joined..], sourcePort, peerPort)
      && recvSeq == Acked(arrivals, base)
      && (closed || Running(arrivals))
      && OnlyDataIsLost(arrivals, fates)
      && delivered + Unread() == carried + Retained(arrivals, fates)
    }

    /** A FIN is sent at most once, and only by a link that is closed from then on. */
    ghost predicate Valid()
      reads this, framer, framer.transport
    {
      Sending() && Receiving() && Fins(past + log) <= if closed then 1 else 0
    }

    /** The link of an MTU that leaves room for a segment. */
    constructor (transport: Transport, source: Address, sourcePort: Word16, mtu: Word16)
      requires mtu > HEADERS_SIZE
      ensures Valid() && framer.transport == transport && fresh(framer)
      ensures !closed && !established && log == past == [] && delivered == [] && fates == []
      ensures this.mtu == mtu && this.source == source && this.sourcePort == sourcePort
      ensures transport.failures == old(transport.failures)
    {
      this.mtu, this.source, this.sourcePort := mtu, source, sourcePort;
      destination, peerPort := source, 0;
      sendSeq, recvSeq, established, closed := 0, 0, false, false;
      incoming, incomingOffset := [], 0;
      before, past, log, joined, base := transport.sent, [], [], 0, 0;
      carried, arrivals, delivered, fates := [], [], [], [];
      framer := new Ipv6Framer(transport, IPV6_HEADER_SIZE + 65535);
    }

    function Endpoints(): Ends
      reads this
    {
      Ends(source, destination, sourcePort, peerPort)
    }

    /** No call of the transport has failed since there were `before` failures. */
    ghost predicate Steady(before: nat)
      reads framer.transport`failures
    {
      framer.transport.failures == before
    }

    /** Sends one segment with its checksum; a SYN or a FIN takes one sequence number. */
    method SendSegment(flags: Byte, payload: Bytes) returns (status: Result<()>)
      requires Sending() && |payload| <= Mss()
      modifies this`sendSeq, this`log, framer.transport`sent, framer.transport`failures
      ensures Sending()
      ensures if status.Ok? then Steady(old(framer.transport.failures))
              else framer.Failed(status.error, old(framer.transport.failures))
      ensures log == if status.Ok? then old(log) + [Outgoing(Endpoints(), old(sendSeq), recvSeq, flags, payload)]
                     else old(log)
      ensures Fins(past + log) == Fins(past + old(log)) + if status.Ok? && HasFin(flags) then 1 else 0
    {
      hide Wire, Sized, Payloads, Contiguous, NextSequence, Fins, OnesSum, Pseudo, TcpHeader.Encode, Ipv6Header.Encode;
      ghost var o := Outgoing(Endpoints(), sendSeq, recvSeq, flags, payload);
      var header := TcpHeader(sourcePort, peerPort, sendSeq, recvSeq, 5, flags, TCP_WINDOW, 0, 0);
      var segment := header.Encode() + payload;
      var checksum := TcpChecksum(source, destination, segment);
      segment := segment[16 := checksum / 256][17 := checksum % 256];
      assert segment == o.Segment();
      var ipv6 := Ipv6Header(IPV6_VERSION, 0, 0, |segment| % TWO_TO_THE_16, NEXT_TCP, HOP_LIMIT, source, destination);
      var packet := ipv6.Encode() + segment;
      status := framer.WritePacket(packet);
      if status.Ok? {
        RecordSegment(o, packet);
        sendSeq := (sendSeq + (|payload| + if HasSyn(flags) || HasFin(flags) then 1 else 0)) % TWO_TO_THE_32;
      }
    }

    /** Adds the packet just written to the log. */
    ghost method RecordSegment(o: Outgoing, packet: Bytes)
      requires packet == o.Packet() && o.sequence == sendSeq && |o.payload| <= Mss() && mtu > HEADERS_SIZE
      requires framer.transport.sent == before + Wire(past + log) + packet
      requires Contiguous(log) && sendSeq == NextSequence(log)
      requires Sized(past + log, Mss())
      modifies this`log
      ensures log == old(log) + [o] && Contiguous(log)
      ensures NextSequence(log) == (o.sequence + o.Length()) % TWO_TO_THE_32
      ensures framer.transport.sent == before + Wire(past + log)
      ensures Sized(past + log, Mss())
      ensures Fins(past + log) == Fins(past + old(log)) + if HasFin(o.flags) then 1 else 0
    {
      hide Wire, Sized, Payloads, Contiguous, NextSequence, Fins, Outgoing.Packet;
      AfterSegment(log, o);
      AfterSegment(past + log, o);
      assert past + (log + [o]) == past + log + [o];
      assert before + Wire(past + log) + packet == before + (Wire(past + log) + packet);
      log := log + [o];
    }

    /** The next packet that is a segment for this connection; the others are dropped. */
    method ReceiveSegment(ghost from: nat) returns (segment: Result<Arrival>)
      requires framer.Valid() && from <= |framer.taken|
      modifies framer, framer.transport`incoming, framer.transport`failures
      ensures framer.Valid() && old(framer.taken) <= framer.taken
      ensures Arrivals(framer.taken[from..], sourcePort, peerPort) ==
              Arrivals(old(framer.taken)[from..], sourcePort, peerPort) + if segment.Ok? then [segment.value] else []
      ensures segment.Ok? ==> |framer.Remaining()| < |old(framer.Remaining())| && Steady(old(framer.transport.failures))
      ensures segment.Err? ==> framer.Cut(segment.error, old(framer.transport.failures))
    {
      hide Arrivals, Accepted, FirstPacket, Concat, ArePackets;
      while true
        invariant framer.Valid() && old(framer.taken) <= framer.taken && Steady(old(framer.transport.failures))
        invariant Arrivals(framer.taken[from..], sourcePort, peerPort) ==
                  Arrivals(old(framer.taken)[from..], sourcePort, peerPort)
        invariant |framer.Remaining()| <= |old(framer.Remaining())|
        decreases |framer.Remaining()|
      {
        ghost var taken := framer.taken;
        var packet := framer.ReadPacket();
        if packet.Err? {
          return Err(packet.error);
        }
        assert framer.taken[from..] == taken[from..] + [packet.value];
        AfterPacket(taken[from..], packet.value, sourcePort, peerPort);
        var accepted := Accepted(packet.value, sourcePort, peerPort);
        if accepted.Some? {
          return Ok(accepted.value);
        }
      }
    }

    /** Nothing has been received on the current connection. */
    ghost predicate Fresh()
      reads this
    {
      arrivals == [] && delivered == [] && fates == [] && recvSeq == base
    }

    /** The record starts again for a new connection; bytes not yet read stay to be read. */
    ghost method StartOver()
      requires framer.Valid() && incomingOffset <= |incoming| && sendSeq == 0 && mtu > HEADERS_SIZE
      requires framer.transport.sent == before + Wire(past + log)
      requires Sized(past + log, Mss())
      modifies this`past, this`log, this`joined, this`base, this`carried, this`arrivals, this`delivered, this`fates
      ensures past == old(past + log) && log == [] && Sending() && Receiving() && Fresh() && carried == old(Unread())
    {
      hide Wire, Sized, Outgoing.Packet, Stream, Retained, OnlyDataIsLost, Acked, Arrivals;
      NothingRecorded();
      past := past + log;
      log := [];
      assert past + log == past;
      Join(recvSeq);
    }

    /** The connection begins after the packets taken so far, at the peer's byte `first`. */
    ghost method Join(first: Word32)
      requires framer.Valid() && incomingOffset <= |incoming| && recvSeq == first
      modifies this`joined, this`base, this`carried, this`arrivals, this`delivered, this`fates
      ensures Receiving() && Fresh() && carried == old(Unread())
    {
      hide Stream, Retained, OnlyDataIsLost, Acked, Arrivals, Ipv6Framer.Valid, Ipv6Framer.Remaining;
      joined := |framer.taken|;
      base, carried, arrivals, delivered, fates := first, Unread(), [], [], [];
      assert framer.taken[joined..] == [];
      NothingReceived(first, sourcePort, peerPort);
    }

    /**
     Waits for the SYN|ACK; anything else but a reset is stale and passed over. The segments
     taken during the call are the stale ones and then the answer or the reset, if either came.
     */
    method AwaitAnswer() returns (answer: Result<Arrival>, ghost stale: seq<Arrival>)
      requires framer.Valid()
      modifies framer, framer.transport`incoming, framer.transport`failures
      ensures framer.Valid() && old(framer.taken) <= framer.taken && AllStale(stale)
      ensures answer.Ok? ==>
                && Arrivals(framer.taken[|old(framer.taken)|..], sourcePort, peerPort) == stale + [answer.value]
                && IsAnswer(answer.value) && Steady(old(framer.transport.failures))
      ensures answer.Err? ==>
                Refused(framer.taken[|old(framer.taken)|..], stale, answer.error, old(framer.transport.failures))
    {
      hide Arrivals, ArePackets, Concat, Ipv6Framer.Remaining;
      ghost var from := |framer.taken|;
      stale := [];
      assert framer.taken[from..] == [];
      NothingReceived(0, sourcePort, peerPort);
      while true
        invariant framer.Valid() && old(framer.taken) <= framer.taken && Steady(old(framer.transport.failures))
        invariant Arrivals(framer.taken[from..], sourcePort, peerPort) == stale && AllStale(stale)
        decreases |framer.Remaining()|
      {
        var segment := ReceiveSegment(from);
        if segment.Err? {
          return Err(segment.error), stale;
        }
        if HasRst(segment.value.flags) {
          assert (stale + [segment.value])[|stale|] == segment.value;
          return Err(Device), stale;
        }
        if HasSyn(segment.value.flags) && HasAck(segment.value.flags) {
          return Ok(segment.value), stale;
        }
        stale := stale + [segment.value];
      }
    }

    /**
     No answer came: a reset followed the stale segments, or nothing did and the transport
     failed or no whole packet remains.
     */
    ghost predicate Refused(packets: seq<Bytes>, stale: seq<Arrival>, error: Error, before: nat)
      reads this`peerPort, framer, framer.transport
    {
      var segments := Arrivals(packets, sourcePort, peerPort);
      if error == Device then
        && Steady(before) && |segments| == |stale| + 1 && segments[..|stale|] == stale
        && HasRst(segments[|stale|].flags)
      else segments == stale && framer.Cut(error, before)
    }

    /** Begins a connection: the endpoints, the sequence numbers and the SYN. */
    method Dial(address: Address, port: Word16) returns (status: Result<()>)
      requires Valid()
      modifies this, framer.transport`sent, framer.transport`failures
      ensures Valid() && Fresh() && destination == address && peerPort == port
      ensures past == old(past + log) && closed == old(closed) && carried == Unread() == old(Unread())
      ensures log == if status.Ok? then [Outgoing(Endpoints(), 0, 0, SYN, [])] else []
      ensures if status.Ok? then Steady(old(framer.transport.failures))
              else framer.Failed(status.error, old(framer.transport.failures))
    {
      hide Wire, Sized, Payloads, Fins, Outgoing.Packet, Arrivals, Stream, Retained, OnlyDataIsLost, Acked, Concat,
           ArePackets, Contiguous, Running, Ipv6Framer.Valid, Ipv6Framer.Remaining, NextSequence;
      destination, peerPort := address, port;
      sendSeq, recvSeq := 0, 0;
      StartOver();
      assert past + [] == past;
      status := SendSegment(SYN, []);
    }

    lemma BothReady()
      requires Valid()
      ensures framer.Valid() && incomingOffset <= |incoming|
      ensures mtu > HEADERS_SIZE && sendSeq == NextSequence(log)
    {
    }

    /** Ends the handshake: the peer's stream begins one after the sequence number of its SYN. */
    method Establish(sequence: Word32) returns (status: Result<()>)
      requires Valid() && sendSeq == 1
      modifies this`recvSeq, this`established, this`sendSeq, this`log, framer.transport`sent, framer.transport`failures
      modifies this`joined, this`base, this`carried, this`arrivals, this`delivered, this`fates
      ensures Valid() && Fresh()
      ensures base == (sequence + 1) % TWO_TO_THE_32 && carried == old(Unread())
      ensures log == old(log) + if status.Ok? then [Outgoing(Endpoints(), 1, base, ACK, [])] else []
      ensures if status.Ok? then established && Steady(old(framer.transport.failures))
              else framer.Failed(status.error, old(framer.transport.failures))
    {
      hide Sending, Fins, Outgoing.Packet, Arrivals, Stream, Retained, OnlyDataIsLost, Acked, Concat, ArePackets,
           Running, Ipv6Framer.Valid, Ipv6Framer.Remaining, NextSequence;
      BothReady();
      recvSeq := (sequence + 1) % TWO_TO_THE_32;
      Join(recvSeq);
      status := SendSegment(ACK, []);
      if status.Ok? {
        established := true;
      }
    }

    /**
     Connects to a peer: a SYN at sequence 0, then segments until the SYN|ACK, which is
     acknowledged. Of the segments received during the call, all but the last are stale; it
     is the SYN|ACK whose sequence number the connection begins after.
     */
    method Connect(address: Address, port: Word16) returns (status: Result<()>, ghost stale: seq<Arrival>)
      requires Valid()
      modifies this, framer, framer.transport
      ensures Valid() && destination == address && peerPort == port
      ensures past == old(past + log) && closed == old(closed)
      ensures old(framer.taken) <= framer.taken && AllStale(stale)
      ensures status.Ok? ==>
                && established && Fresh() && Steady(old(framer.transport.failures)) && carried == old(Unread())
                && log == [Outgoing(Endpoints(), 0, 0, SYN, []), Outgoing(Endpoints(), 1, base, ACK, [])]
                && Answered(framer.taken[|old(framer.taken)|..], stale)
      ensures status.Err? ==>
                || framer.Failed(status.error, old(framer.transport.failures))
                || Refused(framer.taken[|old(framer.taken)|..], stale, status.error, old(framer.transport.failures))
    {
      hide Sending, Receiving, Ipv6Framer.Valid, Ipv6Framer.Remaining, NextSequence, Fins, Outgoing.Packet, Refused,
           AllStale, IsAnswer, Arrivals, Wire, Sized, Contiguous, FirstPacket;
      stale := [];
      NoneStale();
      status := Dial(address, port);
      if status.Err? {
        return;
      }
      BothReady();
      SynTakesOne(log);
      var answer;
      answer, stale := AwaitAnswer();
      Join(recvSeq);
      if answer.Err? {
        return Err(answer.error), stale;
      }
      status := Establish(answer.value.sequence);
    }

    /** The answer followed the stale segments, and the connection begins after it. */
    ghost predicate Answered(packets: seq<Bytes>, stale: seq<Arrival>)
      reads this
    {
      var segments := Arrivals(packets, sourcePort, peerPort);
      && |segments| == |stale| + 1 && segments[..|stale|] == stale
      && IsAnswer(segments[|stale|]) && base == (segments[|stale|].sequence + 1) % TWO_TO_THE_32
    }

    /** What answers a segment: a FIN, if it can be written, a FIN; data an acknowledgement; the rest nothing. */
    ghost function Reply(ends: Ends, sequence: Word32, a: Arrival, written: bool): Log
      reads this
    {
      if HasFin(a.flags) then
        (if written then [Outgoing(ends, sequence, Acked(arrivals, base), ACK + FIN, [])] else [])
      else if a.payload != [] then [Outgoing(ends, sequence, Acked(arrivals, base), ACK, [])]
      else []
    }

    /** A link that is not closed has sent no FIN. */
    lemma StillOpen()
      requires Valid() && !closed
      ensures Fins(past + log) == 0
    {
    }

    lemma HasRoom()
      requires Sending()
      ensures Mss() > 0
    {
    }

    /** Sends one piece of data as one segment. */
    method SendPiece(piece: Bytes) returns (status: Result<()>)
      requires Valid() && 1 <= |piece| <= Mss()
      modifies this`sendSeq, this`log, framer.transport`sent, framer.transport`failures
      ensures Valid()
      ensures log == old(log) +
                     if status.Ok? then [Outgoing(Endpoints(), old(sendSeq), recvSeq, ACK, piece)] else []
      ensures if status.Ok? then Steady(old(framer.transport.failures))
              else framer.Failed(status.error, old(framer.transport.failures))
    {
      hide Wire, Sized, Payloads, Fins, Outgoing.Packet, Arrivals, Stream, Retained, OnlyDataIsLost, Acked, Concat,
           ArePackets, Contiguous, Running, Ipv6Framer.Valid, Ipv6Framer.Remaining, NextSequence;
      status := SendSegment(ACK, piece);
    }

    /**
     Sends `data` in order in segments of MSS bytes, but for the last: the segments `added`
     carry the first `count` bytes, all of them on success. It fails only with the transport.
     */
    method Write(data: Bytes) returns (status: Result<()>, ghost count: nat, ghost added: Log)
      requires Valid()
      modifies this`sendSeq, this`log, framer.transport`sent, framer.transport`failures
      ensures Valid() && log == old(log) + added && AllData(added, Mss())
      ensures count <= |data| && Payloads(added) == data[..count]
      ensures Full(added, |data|, Mss())
      ensures if status.Ok? then count == |data| && Steady(old(framer.transport.failures))
              else framer.Failed(status.error, old(framer.transport.failures))
    {
      hide Valid, Sending, Receiving, Fins, Payloads, AllData, Full, Outgoing.Packet;
      BothReady();
      var offset := 0;
      count, added := 0, [];
      NothingAdded(Mss());
      assert old(log) + [] == old(log);
      while offset < |data|
        invariant Valid() && Mss() > 0 && log == old(log) + added && AllData(added, Mss())
        invariant count == offset <= |data| && Payloads(added) == data[..count]
        invariant Steady(old(framer.transport.failures)) && (offset < |data| ==> offset == |added| * Mss())
        invariant Full(added, |data|, Mss())
      {
        var chunk := Min(Mss(), |data| - offset);
        ghost var o := Outgoing(Endpoints(), sendSeq, recvSeq, ACK, data[offset..offset + chunk]);
        OneAdded(added, o, Mss());
        OneFull(added, o, |data|, Mss());
        status := SendPiece(data[offset..offset + chunk]);
        if status.Err? {
          return;
        }
        assert data[..offset] + data[offset..offset + chunk] == data[..offset + chunk];
        assert old(log) + added + [o] == old(log) + (added + [o]);
        added := added + [o];
        offset := offset + chunk;
        count := offset;
      }
      status := Ok(());
    }

    /** The last segment has been taken from the tunnel and not yet acted on. */
    ghost predicate Pending(a: Arrival)
      reads this, framer, framer.transport`incoming
    {
      && framer.Valid() && joined <= |framer.taken|
      && arrivals == Arrivals(framer.taken[joined..], sourcePort, peerPort)
      && arrivals != [] && arrivals[|arrivals| - 1] == a
      && incoming == [] && incomingOffset == 0
      && recvSeq == Acked(arrivals[..|arrivals| - 1], base)
      && Running(arrivals[..|arrivals| - 1])
      && OnlyDataIsLost(arrivals[..|arrivals| - 1], fates)
      && delivered == carried + Retained(arrivals[..|arrivals| - 1], fates)
    }

    /** Takes one segment from the tunnel onto the record. */
    method NextArrival() returns (segment: Result<Arrival>)
      requires Receiving() && Unread() == [] && !closed
      modifies framer, framer.transport`incoming, framer.transport`failures
      modifies this`arrivals, this`incoming, this`incomingOffset
      ensures if segment.Ok? then Pending(segment.value) else Receiving() && Unread() == []
      ensures arrivals == old(arrivals) + if segment.Ok? then [segment.value] else []
      ensures segment.Ok? ==> |framer.Remaining()| < |old(framer.Remaining())| && Steady(old(framer.transport.failures))
      ensures segment.Err? ==> framer.Cut(segment.error, old(framer.transport.failures))
    {
      hide Arrivals, Stream, Retained, OnlyDataIsLost, Acked, Running, Ipv6Framer.Valid, Ipv6Framer.Remaining;
      incoming, incomingOffset := [], 0;
      segment := ReceiveSegment(joined);
      if segment.Ok? {
        arrivals := arrivals + [segment.value];
        assert arrivals[..|arrivals| - 1] == old(arrivals);
      }
    }

    /** What one pending segment does to the receiving side, once its fate is known. */
    lemma Settled(a: Arrival, fate: Fate)
      requires Pending(a) && (fate == Lost ==> a.payload != [] && !Terminates(a))
      ensures AckAfter(a, recvSeq) == Acked(arrivals, base)
      ensures OnlyDataIsLost(arrivals, fates + [fate])
      ensures Retained(arrivals, fates + [fate]) == Retained(arrivals[..|arrivals| - 1], fates) +
                                                    if HasRst(a.flags) || fate == Lost then [] else a.payload
      ensures Running(arrivals) <==> !Terminates(a)
    {
      hide Arrivals, Stream, Retained, OnlyDataIsLost, Acked, Running, AckAfter, Terminates, Ipv6Framer.Valid;
      AfterArrival(arrivals[..|arrivals| - 1], a, base);
      AfterFate(arrivals[..|arrivals| - 1], fates, a, fate);
      assert arrivals[..|arrivals| - 1] + [a] == arrivals;
    }

    /** Answers a FIN with the link's own, closes the link and keeps the last payload. */
    method AnswerFin(a: Arrival)
      requires Sending() && Pending(a) && HasFin(a.flags) && !HasRst(a.flags) && Fins(past + log) == 0
      modifies this`recvSeq, this`sendSeq, this`log, this`closed, this`incoming, this`fates
      modifies framer.transport`sent, framer.transport`failures
      ensures Valid() && closed && Unread() == a.payload && fates == old(fates) + [Kept]
      ensures log == old(log) +
                     if Steady(old(framer.transport.failures))
                     then [Outgoing(Endpoints(), old(sendSeq), Acked(arrivals, base), ACK + FIN, [])] else []
    {
      hide Sending, Fins, Outgoing.Packet, Arrivals, Stream, Retained, OnlyDataIsLost, Acked, Concat, ArePackets,
           Running, Ipv6Framer.Valid, Ipv6Framer.Remaining;
      HasRoom();
      Settled(a, Kept);
      fates := fates + [Kept];
      recvSeq := (a.sequence + |a.payload| + 1) % TWO_TO_THE_32;
      var _ := SendSegment(ACK + FIN, []);
      closed := true;
      incoming := a.payload;
      assert incoming[0..] == incoming;
    }

    /** Acknowledges a payload and keeps it, or loses it if the acknowledgement cannot be written. */
    method AnswerData(a: Arrival) returns (status: Result<()>)
      requires Sending() && Pending(a) && !Terminates(a) && a.payload != [] && Fins(past + log) == 0
      modifies this`recvSeq, this`sendSeq, this`log, this`incoming, this`fates
      modifies framer.transport`sent, framer.transport`failures
      ensures Valid() && fates == old(fates) + [if status.Ok? then Kept else Lost]
      ensures if status.Ok? then Steady(old(framer.transport.failures))
              else framer.Failed(status.error, old(framer.transport.failures))
      ensures Unread() == if status.Ok? then a.payload else []
      ensures log == old(log) +
                     if status.Ok? then [Outgoing(Endpoints(), old(sendSeq), Acked(arrivals, base), ACK, [])] else []
    {
      hide Sending, Fins, Outgoing.Packet, Arrivals, Stream, Retained, OnlyDataIsLost, Acked, Concat, ArePackets,
           Running, Ipv6Framer.Valid, Ipv6Framer.Remaining;
      HasRoom();
      Settled(a, Kept);
      Settled(a, Lost);
      recvSeq := (a.sequence + |a.payload|) % TWO_TO_THE_32;
      status := SendSegment(ACK, []);
      fates := fates + [if status.Ok? then Kept else Lost];
      if status.Err? {
        return;
      }
      incoming := a.payload;
      assert incoming[0..] == incoming;
    }

    /** Acts on a segment that needs no answer: a reset closes the link, an empty segment does nothing. */
    method PassOver(a: Arrival)
      requires Sending() && Pending(a) && Fins(past + log) == 0
      requires HasRst(a.flags) || (a.payload == [] && !HasFin(a.flags))
      modifies this`closed, this`fates
      ensures Valid() && Unread() == [] && fates == old(fates) + [Kept]
      ensures closed <==> old(closed) || HasRst(a.flags)
    {
      hide Wire, Sized, Payloads, Fins, Outgoing.Packet, Arrivals, Stream, Retained, OnlyDataIsLost, Acked, Concat,
           ArePackets, Contiguous, Running, Ipv6Framer.Valid, Ipv6Framer.Remaining, NextSequence;
      Settled(a, Kept);
      fates := fates + [Kept];
      if HasRst(a.flags) {
        closed := true;
      }
    }

    /**
     Receives one segment and answers it: a reset or a FIN closes the link, a FIN and every
     payload is acknowledged, and the payload becomes the unread bytes.
     */
    method Receive() returns (status: Result<()>)
      requires Valid() && Unread() == [] && !closed
      modifies framer, framer.transport, this`arrivals, this`recvSeq, this`sendSeq, this`log
      modifies this`closed, this`incoming, this`incomingOffset, this`fates
      ensures Valid() && old(arrivals) <= arrivals && Replied(old(log), log)
      ensures status.Ok? || status == Err(Device) ==>
                && fates == old(fates) + [Kept] && |arrivals| == |old(arrivals)| + 1
                && (closed <==> Terminates(arrivals[|arrivals| - 1]))
                && (HasRst(arrivals[|arrivals| - 1].flags) <==> status == Err(Device))
      ensures status.Ok? ==>
                && |framer.Remaining()| < |old(framer.Remaining())|
                && Unread() == arrivals[|arrivals| - 1].payload
                && log == old(log) + Reply(old(Endpoints()), old(sendSeq), arrivals[|arrivals| - 1],
                                           Steady(old(framer.transport.failures)))
                && (closed || Steady(old(framer.transport.failures)))
      ensures status.Err? ==> Unread() == [] && log == old(log)
      ensures status.Err? && status != Err(Device) ==>
                && !closed
                && (|| (fates == old(fates) && framer.Cut(status.error, old(framer.transport.failures)))
                    || (fates == old(fates) + [Lost] && framer.Failed(status.error, old(framer.transport.failures))))
    {
      hide Sending, Receiving, Pending, Payloads, Fins, Outgoing.Packet, Ipv6Framer.Valid, Ipv6Framer.Remaining, Acked;
      StillOpen();
      var segment := NextArrival();
      if segment.Err? {
        return Err(segment.error);
      }
      var a := segment.value;
      status := Ok(());
      if HasRst(a.flags) {
        PassOver(a);
        return Err(Device);
      }
      if HasFin(a.flags) {
        AnswerFin(a);
      } else if a.payload != [] {
        status := AnswerData(a);
      } else {
        PassOver(a);
      }
    }

    /**
     Reads between one and `size` bytes, waiting for them; an empty result means that the
     link is closed and everything was read (or that nothing was asked for).
     */
    method Read(size: nat) returns (result: Result<Bytes>)
      requires Valid()
      modifies framer, framer.transport, this`arrivals, this`recvSeq, this`sendSeq, this`log
      modifies this`closed, this`incoming, this`incomingOffset, this`fates, this`delivered
      ensures Valid() && old(arrivals) <= arrivals
      ensures delivered == old(delivered) + if result.Ok? then result.value else []
      ensures result.Ok? ==> |result.value| <= size && (closed || Steady(old(framer.transport.failures)))
      ensures result.Ok? && result.value == [] && size > 0 ==> closed && Unread() == []
      ensures old(closed) ==> closed
      ensures result.Err? ==> Unread() == []
      ensures result == Err(Device) ==> closed && arrivals != [] && HasRst(arrivals[|arrivals| - 1].flags)
      ensures result.Err? && result != Err(Device) ==>
                !closed && framer.Cut(result.error, old(framer.transport.failures))
      ensures AddedKept(old(fates), fates) || (result == Err(Error.Transport) && AddedOneLost(old(fates), fates))
      ensures Payloads(log) == Payloads(old(log))
    {
      hide Sending, Receiving, Pending, Payloads, Fins, Outgoing.Packet, Ipv6Framer.Valid, Ipv6Framer.Remaining, Acked,
           Reply;
      while incomingOffset == |incoming|
        invariant Valid() && delivered == old(delivered) && old(arrivals) <= arrivals && AddedKept(old(fates), fates)
        invariant old(closed) ==> closed
        invariant Payloads(log) == Payloads(old(log)) && (closed || Steady(old(framer.transport.failures)))
        decreases |framer.Remaining()|
      {
        Clear();
        if closed {
          return Ok([]);
        }
        ghost var sent, settled := log, fates;
        var status := Receive();
        ReplyCarriesNothing(sent, log);
        assert (settled + [Lost])[..|settled|] == settled;
        if status.Err? {
          return Err(status.error);
        }
        if closed && incoming == [] {
          return Ok([]);
        }
      }
      BothReady();
      var data := Deliver(size);
      result := Ok(data);
    }

    /** No packet the link has ever sent is larger than the MTU. */
    lemma PacketsFitTheMtu()
      requires Valid()
      ensures forall o :: o in past + log ==> |o.Packet()| <= mtu
    {
      hide Outgoing.Packet, Wire, Contiguous, Fins;
      forall o | o in past + log
        ensures |o.Packet()| <= mtu
      {
        assert |o.payload| <= Mss();
      }
    }

    /** Empties the buffer once all of it was read. */
    method Clear()
      requires Valid() && Unread() == []
      modifies this`incoming, this`incomingOffset
      ensures Valid() && Unread() == [] && incoming == [] && incomingOffset == 0
    {
      hide Sending, Fins, Arrivals, Retained, OnlyDataIsLost, Acked, Running, Ipv6Framer.Valid;
      incoming, incomingOffset := [], 0;
    }

    /** Hands out the next unread bytes. */
    method Deliver(size: nat) returns (data: Bytes)
      requires Valid() && Unread() != []
      modifies this`incomingOffset, this`delivered
      ensures Valid() && delivered == old(delivered) + data && old(Unread()) == data + Unread()
      ensures |data| == Min(|old(Unread())|, size)
    {
      hide Wire, Sized, Payloads, Fins, Outgoing.Packet, Arrivals, Stream, Retained, OnlyDataIsLost, Acked, Concat,
           ArePackets, Contiguous, Running, Ipv6Framer.Valid, Ipv6Framer.Remaining, NextSequence;
      var count := Min(|incoming| - incomingOffset, size);
      data := incoming[incomingOffset..incomingOffset + count];
      assert delivered + Unread() == delivered + data + incoming[incomingOffset + count..];
      incomingOffset := incomingOffset + count;
      delivered := delivered + data;
    }

    /**
     Against a peer that sends well-formed packets, whatever the tunnel's chunking and
     whatever other packets lie between the segments, the segments received are the first
     the peer sent since the handshake, and the bytes given out and those unread are the
     payloads of those that were kept, in order. That is the beginning of the peer's stream
     if and only if no payload was lost, which happens only where an acknowledgement could
     not be written.
     */
    lemma DeliversTheStream(packets: seq<Bytes>)
      requires Valid()
      requires ArePackets(packets, framer.maxPacketSize) && framer.input == Concat(packets)
      ensures framer.taken <= packets && joined <= |framer.taken|
      ensures arrivals == Arrivals(packets[joined..|framer.taken|], sourcePort, peerPort)
      ensures OnlyDataIsLost(arrivals, fates) && delivered + Unread() == carried + Retained(arrivals, fates)
      ensures delivered + Unread() == carried + Stream(arrivals) <==> Lost !in fates
      ensures Lost !in fates ==>
                delivered + Unread() <= carried + Stream(Arrivals(packets[joined..], sourcePort, peerPort))
    {
      hide Wire, Sized, Payloads, Fins, Outgoing.Packet, Arrivals, Stream, Retained, OnlyDataIsLost, Acked, Concat,
           ArePackets, Contiguous, Running;
      framer.FollowsStream(packets);
      RetainedExactly(arrivals, fates);
      assert packets[joined..|framer.taken|] == framer.taken[joined..];
      StreamGrows(packets[joined..], |framer.taken| - joined, sourcePort, peerPort);
      assert packets[joined..][..|framer.taken| - joined] == packets[joined..|framer.taken|];
    }

    /**
     Reads exactly `size` bytes. On failure the bytes read before it are gone from the
     stream: they are counted as delivered.
     */
    method ReadExact(size: nat) returns (result: Result<Bytes>)
      requires Valid()
      modifies framer, framer.transport, this`arrivals, this`recvSeq, this`sendSeq, this`log
      modifies this`closed, this`incoming, this`incomingOffset, this`fates, this`delivered
      ensures Valid() && old(arrivals) <= arrivals && old(delivered) <= delivered
      ensures result.Ok? ==> |result.value| == size && delivered == old(delivered) + result.value
      ensures AddedKept(old(fates), fates) || (result == Err(Error.Transport) && AddedOneLost(old(fates), fates))
      ensures result.Err? ==> |delivered| < |old(delivered)| + size && Unread() == []
      ensures result == Err(Device) ==> closed && arrivals != [] && HasRst(arrivals[|arrivals| - 1].flags)
      ensures result.Err? && result != Err(Device) ==>
                framer.Cut(result.error, old(framer.transport.failures)) || (closed && result == Err(Protocol))
      ensures Payloads(log) == Payloads(old(log))
    {
      hide Valid, Payloads, AddedKept, AddedOneLost, Unread, HasRst, Ipv6Framer.Remaining;
      KeptNothing(fates);
      var data := [];
      while |data| < size
        invariant Valid() && delivered == old(delivered) + data && |data| <= size
        invariant old(arrivals) <= arrivals && AddedKept(old(fates), fates)
        invariant closed || Steady(old(framer.transport.failures))
        invariant Payloads(log) == Payloads(old(log))
        decreases size - |data|
      {
        ghost var settled := fates;
        var chunk := Read(size - |data|);
        KeptMore(old(fates), settled, fates);
        if chunk.Err? {
          return chunk;
        }
        if chunk.value == [] {
          return Err(Protocol);
        }
        data := data + chunk.value;
      }
      result := Ok(data);
    }

    /** Closes the link once; an established one sends its FIN. */
    method Close()
      requires Valid()
      modifies this`closed, this`sendSeq, this`log, framer.transport`sent, framer.transport`failures
      ensures Valid() && closed
      ensures log == old(log) +
                     if !old(closed) && established && Steady(old(framer.transport.failures))
                     then [Outgoing(Endpoints(), old(sendSeq), recvSeq, ACK + FIN, [])] else []
      ensures old(closed) || !established ==> Steady(old(framer.transport.failures))
    {
      hide Wire, Sized, Payloads, Fins, Outgoing.Packet, Arrivals, Stream, Retained, OnlyDataIsLost, Acked, Concat,
           ArePackets, Contiguous, Running, Ipv6Framer.Valid, Ipv6Framer.Remaining, NextSequence;
      if closed {
        return;
      }
      closed := true;
      if established {
        var _ := SendSegment(FIN + ACK, []);
      }
    }
  }

  lemma {:induction false} StreamGrows(packets: seq<Bytes>, n: nat, sourcePort: Word16, peerPort: Word16)
    requires n <= |packets|
    ensures Stream(Arrivals(packets[..n], sourcePort, peerPort)) <= Stream(Arrivals(packets, sourcePort, peerPort))
  {
    hide Accepted, Stream, Arrivals;
    if n == |packets| {
      assert packets[..n] == packets;
    } else {
      var front, p := packets[..|packets| - 1], packets[|packets| - 1];
      StreamGrows(front, n, sourcePort, peerPort);
      assert front[..n] == packets[..n] && front + [p] == packets;
      AfterPacket(front, p, sourcePort, peerPort);
      var rest := Arrivals(front, sourcePort, peerPort);
      match Accepted(p, sourcePort, peerPort)
      case Some(a) => AfterArrival(rest, a, 0);
      case None => assert rest + [] == rest;
    }
  }

  lemma ReplyCarriesNothing(before: Log, after: Log)
    requires Replied(before, after)
    ensures Payloads(after) == Payloads(before)
  {
  }

  /** More segments were settled, and none of them lost. */
  predicate AddedKept(before: seq<Fate>, after: seq<Fate>) {
    before <= after && Lost !in after[|before|..]
  }

  /** More segments were settled, and of them exactly the last is lost. */
  predicate AddedOneLost(before: seq<Fate>, after: seq<Fate>) {
    |before| < |after| && AddedKept(before, after[..|after| - 1]) && after[|after| - 1] == Lost
  }

  lemma KeptNothing(fates: seq<Fate>)
    ensures AddedKept(fates, fates)
  {
  }

  lemma KeptMore(first: seq<Fate>, second: seq<Fate>, third: seq<Fate>)
    requires AddedKept(first, second)
    ensures AddedKept(second, third) ==> AddedKept(first, third)
    ensures AddedOneLost(second, third) ==> AddedOneLost(first, third)
  {
    if second <= third {
      assert third[|first|..] == second[|first|..] + third[|second|..];
    }
    if AddedOneLost(second, third) {
      var kept := third[..|third| - 1];
      assert kept[|first|..] == second[|first|..] + kept[|second|..];
    }
  }

  predicate IsAnswer(a: Arrival) {
    HasSyn(a.flags) && HasAck(a.flags) && !HasRst(a.flags)
  }

  /** Neither an answer nor a reset. */
  predicate AllStale(segments: seq<Arrival>) {
    forall a :: a in segments ==> !IsAnswer(a) && !HasRst(a.flags)
  }

  lemma NoneStale()
    ensures AllStale([])
  {
  }

  predicate AllData(log: Log, mss: int) {
    forall o :: o in log ==> IsData(o, mss)
  }

  /** Every segment that has the data to be full is full. */
  predicate Full(log: Log, total: nat, mss: int) {
    forall i :: 0 <= i < |log| && i * mss + mss <= total ==> |log[i].payload| == mss
  }

  lemma OneFull(log: Log, o: Outgoing, total: nat, mss: int)
    requires mss > 0 && Full(log, total, mss) && |log| * mss < total
    requires |o.payload| == Min(mss, total - |log| * mss)
    ensures Full(log + [o], total, mss)
    ensures |log| * mss + |o.payload| < total ==> |log| * mss + |o.payload| == |log + [o]| * mss
  {
    assert (|log| + 1) * mss == |log| * mss + mss;
  }

  lemma NothingAdded(mss: int)
    ensures AllData([], mss) && Payloads([]) == []
    ensures forall total :: Full([], total, mss)
  {
  }

  lemma OneAdded(log: Log, o: Outgoing, mss: int)
    requires AllData(log, mss) && IsData(o, mss)
    ensures AllData(log + [o], mss) && Payloads(log + [o]) == Payloads(log) + o.payload
  {
    hide IsData, Outgoing.Packet;
    AfterSegment(log, o);
  }

  /** At most one segment was added, and it carries no payload. */
  predicate Replied(before: Log, after: Log) {
    after == before || (after != [] && Front(after) == before && Last(after).payload == [])
  }

  /** A data segment: a plain acknowledgement that carries one byte to MSS bytes. */
  predicate IsData(o: Outgoing, mss: int) {
    o.flags == ACK && 1 <= |o.payload| <= mss
  }

  lemma SynTakesOne(log: Log)
    requires |log| == 1 && log[0].sequence == 0 && log[0].flags == SYN && log[0].payload == []
    ensures NextSequence(log) == 1
  {
  }

  lemma NothingRecorded()
    ensures Wire([]) == [] && Contiguous([]) && NextSequence([]) == 0
  {
  }
}
