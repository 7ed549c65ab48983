/** What a DTX connection wrote and read, and what became of each message it read. */
module DtxHistory {
  import opened Words
  import opened Fields
  import opened DtxFormat
  import opened DtxRoundTrip

  /** What one write put on the wire: a whole frame, or the part of one that failed on the way. */
  datatype Outgoing = Request(message: Dtx) | Acknowledgement(message: Dtx) | Torn(part: Bytes) {
    function Sent(): Bytes {
      if Torn? then part else Encode(message)
    }
  }

  /**
   A message read was returned by a direct receive, returned as the reply to a request,
   queued while a reply was awaited, or dropped because its acknowledgement could not be
   written.
   */
  datatype Fate = Direct | Reply | Queued | Dropped

  datatype Arrival = Arrival(message: Dtx, fate: Fate)

  function Wire(wrote: seq<Outgoing>): Bytes {
    if wrote == [] then [] else Wire(wrote[..|wrote| - 1]) + wrote[|wrote| - 1].Sent()
  }

  /** The acknowledgements among the messages written. */
  function AcksIn(wrote: seq<Outgoing>): seq<Dtx> {
    if wrote == [] then [] else
    var last := wrote[|wrote| - 1];
    AcksIn(wrote[..|wrote| - 1]) + if last.Acknowledgement? then [last.message] else []
  }

  /** The acknowledgements the messages read ask for. */
  function AcksFor(arrivals: seq<Arrival>): seq<Dtx> {
    if arrivals == [] then [] else
    var last := arrivals[|arrivals| - 1];
    AcksFor(arrivals[..|arrivals| - 1]) +
    if last.message.expectsReply && last.fate != Dropped then [AckOf(last.message)] else []
  }

  /** The messages of one fate, in the order they were read. */
  function Those(arrivals: seq<Arrival>, fate: Fate): seq<Dtx> {
    if arrivals == [] then [] else
    var last := arrivals[|arrivals| - 1];
    Those(arrivals[..|arrivals| - 1], fate) + if last.fate == fate then [last.message] else []
  }

  function Messages(arrivals: seq<Arrival>): seq<Dtx> {
    seq(|arrivals|, i requires 0 <= i < |arrivals| => arrivals[i].message)
  }

  lemma AfterWriting(wrote: seq<Outgoing>, o: Outgoing)
    ensures Wire(wrote + [o]) == Wire(wrote) + o.Sent()
    ensures AcksIn(wrote + [o]) == AcksIn(wrote) + if o.Acknowledgement? then [o.message] else []
  {
    hide Outgoing.Sent;
    assert (wrote + [o])[..|wrote|] == wrote;
  }

  /** One more write was made, and it broke off within the frame of `m`. */
  predicate BrokeOff(before: seq<Outgoing>, after: seq<Outgoing>, m: Dtx) {
    && |after| == |before| + 1 && after[..|before|] == before
    && after[|before|].Torn? && after[|before|].part <= Encode(m)
  }

  lemma AfterReading(arrivals: seq<Arrival>, a: Arrival)
    ensures AcksFor(arrivals + [a]) == AcksFor(arrivals) +
                if a.message.expectsReply && a.fate != Dropped then [AckOf(a.message)] else []
    ensures forall fate :: Those(arrivals + [a], fate) ==
                           Those(arrivals, fate) + if a.fate == fate then [a.message] else []
  {
    assert (arrivals + [a])[..|arrivals|] == arrivals;
  }

  /** No message is lost or doubled: the four fates share out the messages read. */
  lemma {:induction false} FatesPartition(arrivals: seq<Arrival>)
    ensures multiset(Messages(arrivals)) ==
            multiset(Those(arrivals, Direct)) + multiset(Those(arrivals, Reply)) +
            multiset(Those(arrivals, Queued)) + multiset(Those(arrivals, Dropped))
  {
    hide Those, Messages;
    NothingRead();
    if arrivals != [] {
      var front, last := arrivals[..|arrivals| - 1], arrivals[|arrivals| - 1];
      FatesPartition(front);
      OneMore(front, last, Direct);
      OneMore(front, last, Reply);
      OneMore(front, last, Queued);
      OneMore(front, last, Dropped);
      OneMoreMessage(front, last);
      assert front + [last] == arrivals;
    }
  }

  lemma NothingRead()
    ensures Messages([]) == [] && forall fate :: Those([], fate) == []
  {
  }

  lemma OneMore(front: seq<Arrival>, last: Arrival, fate: Fate)
    ensures multiset(Those(front + [last], fate)) ==
            multiset(Those(front, fate)) + if last.fate == fate then multiset{last.message} else multiset{}
  {
    hide Those;
    AfterReading(front, last);
  }

  lemma OneMoreMessage(front: seq<Arrival>, last: Arrival)
    ensures multiset(Messages(front + [last])) == multiset(Messages(front)) + multiset{last.message}
  {
    assert Messages(front + [last]) == Messages(front) + [last.message];
  }

  // ---------------------------------------------------------------------------
  // Frames and streams of frames
  // ---------------------------------------------------------------------------

  function EncodeAll(messages: seq<Dtx>): Bytes {
    if messages == [] then [] else Encode(messages[0]) + EncodeAll(messages[1..])
  }

  /** One whole frame that reads as `m`. */
  predicate FrameOf(frame: Bytes, m: Dtx) {
    FirstMessage(frame) == Got(m, |frame|)
  }

  ghost predicate AllSendable(messages: seq<Dtx>) {
    messages != [] ==> Sendable(messages[0]) && AllSendable(messages[1..])
  }

  ghost predicate FramesOf(frames: seq<Bytes>, messages: seq<Dtx>) {
    |frames| == |messages| && forall i :: 0 <= i < |frames| ==> FrameOf(frames[i], messages[i])
  }

  /** Any accepted frame, not only an encoding, is read the same whatever follows it. */
  lemma FrameThenAnything(frame: Bytes, m: Dtx, rest: Bytes)
    requires FrameOf(frame, m)
    ensures FirstMessage(frame + rest) == Got(m, |frame|)
  {
    hide U32, Parsed;
    var s := frame + rest;
    Prefix32(s, frame, 0);
    Prefix32(s, frame, 4);
    Prefix32(s, frame, 12);
    assert s[..|frame|] == frame && frame[..|frame|] == frame;
  }

  /**
   A stream of encodings is split into exactly the messages that were encoded: what has
   been read is the beginning of the list, and what is left encodes the rest.
   */
  lemma {:induction false} SplitsTheStream(frames: seq<Bytes>, read: seq<Dtx>, rest: Bytes, messages: seq<Dtx>)
    requires FramesOf(frames, read) && Concat(frames) + rest == EncodeAll(messages)
    requires AllSendable(messages)
    ensures read <= messages && rest == EncodeAll(messages[|read|..])
    decreases |frames|
  {
    hide FirstMessage, Encode, Sendable;
    if frames == [] {
      assert messages[0..] == messages;
    } else {
      var f, m := frames[0], read[0];
      assert FrameOf(f, m);
      assert Concat(frames) + rest == f + (Concat(frames[1..]) + rest);
      FrameThenAnything(f, m, Concat(frames[1..]) + rest);
      if messages == [] {
        NothingIsNoMessage();
      } else {
        var n := messages[0];
        FirstMessageBack(n, EncodeAll(messages[1..]));
        assert m == n && |f| == |Encode(n)|;
        assert (f + (Concat(frames[1..]) + rest))[|f|..] == (Encode(n) + EncodeAll(messages[1..]))[|f|..];
        SplitsTheStream(frames[1..], read[1..], rest, messages[1..]);
        assert messages[|read|..] == messages[1..][|read| - 1..];
        assert read == [m] + read[1..] && messages == [n] + messages[1..];
      }
    }
  }

  lemma NothingIsNoMessage()
    ensures FirstMessage([]).Bad?
  {
  }

  // ---------------------------------------------------------------------------
  // Numbers handed out in sequence
  // ---------------------------------------------------------------------------

  /** The numbers handed out so far count up from 1, modulo 2^32. */
  ghost predicate CountsUp(given: seq<Word32>, next: Word32) {
    && (forall i :: 0 <= i < |given| ==> given[i] == (i + 1) % TWO_TO_THE_32)
    && next == (|given| + 1) % TWO_TO_THE_32
  }

  /** Until the counter wraps, no number is handed out twice, and 0 never is. */
  lemma DistinctBeforeWrap(given: seq<Word32>, next: Word32)
    requires CountsUp(given, next) && |given| < TWO_TO_THE_32 - 1
    ensures forall i, j :: 0 <= i < j < |given| ==> given[i] != given[j]
    ensures next != 0 && next !in given && 0 !in given
  {
    forall i | 0 <= i < |given|
      ensures given[i] == i + 1
    {
    }
  }
}
