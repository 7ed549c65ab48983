/**
 The DTX request and reply connection over a byte stream.

 `arrivals` is a ghost record of every message read and of its fate, `wrote` of every
 message written; `Valid` ties the queue, the acknowledgements and the counters to them.
 */
module DtxConnections {
  import opened Words
  import opened Transports
  import opened Fields
  import opened DtxFormat
  import opened DtxRoundTrip
  import opened DtxCodec
  import opened DtxHistory

  const GLOBAL_CHANNEL: Int32 := 0
  const DISPATCH: Word32 := 2

  datatype Channel = Channel(code: Words.Int32, identifier: Bytes)

  /** A reply shares the request's identifier and has a non-zero conversation index. */
  predicate Answers(m: Dtx, identifier: Word32) {
    m.identifier == identifier && m.conversationIndex > 0
  }

  /** What becomes of a message read by a caller that awaits a reply, or awaits nothing. */
  function FateOf(m: Dtx, awaiting: Option<Word32>): Fate {
    match awaiting
    case None => Direct
    case Some(identifier) => if Answers(m, identifier) then Reply else Queued
  }

  /** Nothing was read, or one message that was dropped for want of its acknowledgement. */
  predicate IsDropped(read: seq<Arrival>) {
    read == [] || (|read| == 1 && read[0].fate == Dropped && read[0].message.expectsReply)
  }

  class DtxConnection {
    const stream: ByteStream
    var nextIdentifier: Word32
    var nextChannelCode: Words.Int32
    var pending: seq<Dtx>

    ghost const before: Bytes
    ghost const input: Bytes
    ghost var wrote: seq<Outgoing>
    ghost var arrivals: seq<Arrival>
    ghost var frames: seq<Bytes>
    ghost var synced: bool
    ghost var popped: seq<Dtx>
    ghost var given: seq<Word32>
    ghost var codes: seq<Word32>

    /** Everything but the queue. */
    ghost predicate Recorded()
      reads this`wrote, this`arrivals, this`frames, this`synced, this`given, this`codes
      reads this`nextIdentifier, this`nextChannelCode, stream
    {
      && stream.sent == before + Wire(wrote)
      && AcksIn(wrote) == AcksFor(arrivals)
      && FramesOf(frames, Messages(arrivals))
      && (synced ==> input == Concat(frames) + stream.incoming)
      && CountsUp(given, nextIdentifier)
      && CountsUp(codes, Unsigned32(nextChannelCode))
    }

    /** Nothing is lost: the queued messages are those popped and those still in the queue. */
    ghost predicate Valid()
      reads this, stream
    {
      Recorded() && Those(arrivals, Queued) == popped + pending
    }

    constructor (stream: ByteStream)
      ensures Valid() && this.stream == stream && synced && input == stream.incoming
      ensures arrivals == [] && wrote == [] && popped == [] && given == [] && codes == []
    {
      this.stream := stream;
      nextIdentifier, nextChannelCode, pending := 1, 1, [];
      before, input := stream.sent, stream.incoming;
      wrote, arrivals, frames, synced, popped, given, codes := [], [], [], true, [], [], [];
    }

    /** Writes one frame. */
    method Post(ghost o: Outgoing, message: Dtx) returns (status: Result<()>)
      requires !o.Torn? && o.message == message && stream.sent == before + Wire(wrote)
      modifies this`wrote, stream`sent, stream`failures
      ensures if status.Ok? then wrote == old(wrote) + [o] else BrokeOff(old(wrote), wrote, message)
      ensures stream.sent == before + Wire(wrote)
      ensures AcksIn(wrote) == AcksIn(old(wrote)) + if status.Ok? && o.Acknowledgement? then [message] else []
      ensures stream.failures == old(stream.failures) + if status.Ok? then 0 else 1
    {
      hide Wire, AcksIn, Encode;
      var frame := EncodeMessage(message);
      ghost var count;
      status, count := stream.Write(frame);
      assert frame[..|frame|] == frame;
      ghost var added := if status.Ok? then o else Torn(frame[..count]);
      AfterWriting(wrote, added);
      assert before + Wire(wrote) + frame[..count] == before + (Wire(wrote) + frame[..count]);
      wrote := wrote + [added];
    }

    method Send(message: Dtx) returns (status: Result<()>)
      requires Valid()
      modifies this`wrote, stream`sent, stream`failures
      ensures Valid() && stream.failures == old(stream.failures) + if status.Ok? then 0 else 1
      ensures if status.Ok? then wrote == old(wrote) + [Request(message)] else BrokeOff(old(wrote), wrote, message)
    {
      hide Wire, AcksIn, AcksFor, FramesOf, Concat, CountsUp, Those;
      status := Post(Request(message), message);
    }

    /** Reads one frame off the stream, sized by its header, and parses it. */
    method ReadFrame() returns (message: Result<Dtx>, ghost frame: Bytes)
      modifies stream`incoming, stream`failures
      ensures message.Ok? ==> FrameOf(frame, message.value) && old(stream.incoming) == frame + stream.incoming
      ensures message.Err? && stream.failures == old(stream.failures) ==>
                message.error == Protocol && FirstMessage(old(stream.incoming)).Bad?
      ensures old(stream.failures) <= stream.failures && (message.Ok? ==> stream.failures == old(stream.failures))
    {
      hide U32, Parsed;
      ghost var whole := stream.incoming;
      frame := [];
      var header := stream.ReadExact(HEADER_SIZE);
      if header.Err? {
        return Err(header.error), [];
      }
      var h := header.value;
      ghost var afterHeader := stream.incoming;
      var magic, size, length := U32(h), U32(h[4..]), U32(h[12..]);
      SameWords(whole, h);
      if magic != MAGIC || size < HEADER_SIZE || length > MAX_MESSAGE_SIZE {
        return Err(Protocol), [];
      }
      var bytes := h;
      if size + length > HEADER_SIZE {
        var rest := stream.ReadExact(size + length - HEADER_SIZE);
        if rest.Err? {
          return Err(rest.error), [];
        }
        bytes := h + rest.value;
      }
      frame := bytes;
      assert whole == frame + stream.incoming;
      SameWords(frame, h);
      assert whole[..|frame|] == frame && frame[..|frame|] == frame;
      message := ParseMessage(bytes);
      assert message.Err? ==> message.error == Protocol by {
        ParsingFailsAsProtocol(bytes);
      }
    }

    /**
     Reads one message and acknowledges it when it expects a reply. A message whose
     acknowledgement cannot be written is dropped.
     */
    method Next(ghost awaiting: Option<Word32>) returns (message: Result<Dtx>, ghost read: seq<Arrival>)
      requires Recorded()
      modifies this`wrote, this`arrivals, this`frames, this`synced, stream
      ensures Recorded()
      ensures arrivals == old(arrivals) + read
      ensures message.Ok? ==> read == [Arrival(message.value, FateOf(message.value, awaiting))]
      ensures message.Err? ==> IsDropped(read)
      ensures Those(arrivals, Queued) ==
              if message.Ok? && FateOf(message.value, awaiting) == Queued
              then Those(old(arrivals), Queued) + [message.value]
              else Those(old(arrivals), Queued)
      ensures old(wrote) <= wrote
      ensures synced <==> old(synced) && (message.Ok? || read != [])
      ensures message.Ok? ==> stream.failures == old(stream.failures)
      ensures old(stream.failures) <= stream.failures && (read == [] ==> frames == old(frames))
      ensures message.Ok? ==> |stream.incoming| < |old(stream.incoming)|
      ensures message.Err? && stream.failures == old(stream.failures) ==>
                message.error == Protocol && FirstMessage(old(stream.incoming)).Bad? && read == []
    {
      hide Wire, AcksIn, AcksFor, FramesOf, Concat, CountsUp, Those, FirstMessage, Encode, Messages;
      ghost var whole := stream.incoming;
      ghost var frame;
      message, frame := ReadFrame();
      read := [];
      if message.Err? {
        synced := false;
        assert arrivals + [] == arrivals;
        return;
      }
      var m := message.value;
      ghost var fate := FateOf(m, awaiting);
      RecordFrame(m, frame, whole);
      if m.expectsReply {
        var status := Post(Acknowledgement(AckOf(m)), AckOf(m));
        if status.Err? {
          fate := Dropped;
          message := Err(status.error);
        }
      }
      AfterReading(arrivals, Arrival(m, fate));
      SameMessages(arrivals, m, fate);
      read := [Arrival(m, fate)];
      arrivals := arrivals + read;
    }

    /** Adds the frame just read to the record. */
    ghost method RecordFrame(m: Dtx, frame: Bytes, whole: Bytes)
      requires FrameOf(frame, m) && whole == frame + stream.incoming
      requires FramesOf(frames, Messages(arrivals)) && (synced ==> input == Concat(frames) + whole)
      modifies this`frames
      ensures FramesOf(frames, Messages(arrivals) + [m])
      ensures synced ==> input == Concat(frames) + stream.incoming
      ensures |stream.incoming| < |whole|
    {
      hide Concat, Messages, FirstMessage;
      ConcatSnoc(frames, frame);
      assert synced ==> input == Concat(frames) + frame + stream.incoming;
      frames := frames + [frame];
    }

    /**
     Reads one message, acknowledged before it is returned. `read` is what it adds to the
     record; without a failure of the stream it fails only on a frame that does not parse.
     */
    method Receive() returns (message: Result<Dtx>, ghost read: seq<Arrival>)
      requires Valid()
      modifies this`wrote, this`arrivals, this`frames, this`synced, stream
      ensures Valid()
      ensures arrivals == old(arrivals) + read && old(wrote) <= wrote
      ensures if message.Ok? then read == [Arrival(message.value, Direct)] else IsDropped(read)
      ensures synced <==> old(synced) && (message.Ok? || read != [])
      ensures message.Err? && stream.failures == old(stream.failures) ==>
                message.error == Protocol && FirstMessage(old(stream.incoming)).Bad?
    {
      hide Wire, AcksIn, AcksFor, FramesOf, Concat, CountsUp, Those, FirstMessage, Encode, Messages;
      message, read := Next(None);
    }

    /** Hands out the next identifier. */
    method TakeIdentifier() returns (id: Word32)
      requires Recorded()
      modifies this`nextIdentifier, this`given
      ensures Recorded()
      ensures id == old(nextIdentifier) && given == old(given) + [id]
    {
      hide Wire, AcksIn, AcksFor, FramesOf, Concat, CountsUp, Messages;
      id := nextIdentifier;
      HandOut(given, id);
      given := given + [id];
      nextIdentifier := (nextIdentifier + 1) % TWO_TO_THE_32;
    }

    /**
     Sends `request` and reads until its reply. Every message read before the reply is
     queued, and the reply is the first message that answers the request. Without a failure
     of the stream there is a reply unless `unread`, what follows the messages read, starts
     with no frame that parses.
     */
    method SendAndAwaitReply(request: Dtx)
      returns (reply: Result<Dtx>, ghost identifier: Word32, ghost waited: seq<Arrival>, ghost unread: Bytes)
      requires Valid()
      modifies this`nextIdentifier, this`pending, this`wrote, this`arrivals, this`frames, this`synced, this`given
      modifies stream
      ensures Valid()
      ensures identifier == if request.identifier == 0 then old(nextIdentifier) else request.identifier
      ensures given == if request.identifier == 0 then old(given) + [identifier] else old(given)
      ensures reply.Ok? ==> Answers(reply.value, identifier)
      ensures forall a :: a in waited ==> a.fate == Queued && !Answers(a.message, identifier)
      ensures reply.Ok? ==> arrivals == old(arrivals) + waited + [Arrival(reply.value, Reply)]
      ensures reply.Err? ==> exists read :: IsDropped(read) && arrivals == old(arrivals) + waited + read
      ensures reply.Err? && stream.failures == old(stream.failures) ==> Unparsed(reply.error, old(synced), unread)
      ensures old(arrivals) <= arrivals && old(wrote) <= wrote
      ensures reply.Ok? ==> old(wrote) + [Request(Addressed(request, identifier))] <= wrote && synced == old(synced)
    {
      hide Recorded, Those, Answers, Addressed, FirstMessage, Encode, Concat;
      var id := request.identifier;
      waited, unread := [], [];
      if id == 0 {
        id := TakeIdentifier();
      }
      identifier := id;
      var message := Addressed(request, id);
      var status := Send(message);
      assert arrivals == old(arrivals) + waited + [];
      if status.Err? {
        reply := Err(status.error);
        assert IsDropped([]);
        return;
      }
      while true
        invariant Valid() && arrivals == old(arrivals) + waited && synced == old(synced)
        invariant stream.failures == old(stream.failures)
        invariant forall a :: a in waited ==> a.fate == Queued && !Answers(a.message, identifier)
        invariant old(wrote) + [Request(Addressed(request, identifier))] <= wrote
        invariant given == if request.identifier == 0 then old(given) + [identifier] else old(given)
        decreases |stream.incoming|
      {
        ghost var read;
        unread := stream.incoming;
        InStep();
        reply, read := Next(Some(id));
        if reply.Err? || Answers(reply.value, id) {
          return;
        }
        assert popped + pending + [reply.value] == popped + (pending + [reply.value]);
        pending := pending + [reply.value];
        assert old(arrivals) + waited + read == old(arrivals) + (waited + read);
        waited := waited + read;
      }
    }

    /** Without a failure of the stream: the messages read are followed by no frame that parses. */
    ghost predicate Unparsed(error: Error, inStep: bool, unread: Bytes)
      reads this`frames
    {
      error == Protocol && FirstMessage(unread).Bad? && (inStep ==> input == Concat(frames) + unread)
    }

    lemma InStep()
      requires Recorded()
      ensures synced ==> input == Concat(frames) + stream.incoming
    {
    }

    /** Opens a channel: it takes the next code and asks for it on the global channel. */
    method RequestChannel(identifier: Bytes, selector: Bytes, archived: Bytes)
      returns (channel: Result<Channel>, ghost unread: Bytes)
      requires Valid()
      ensures channel.Err? && stream.failures == old(stream.failures) ==> Unparsed(channel.error, old(synced), unread)
      modifies this, stream
      ensures Valid()
      ensures codes == old(codes) + [Unsigned32(old(nextChannelCode))]
      ensures channel.Ok? ==> channel.value == Channel(old(nextChannelCode), identifier)
      ensures popped == old(popped) && given == old(given) + [old(nextIdentifier)]
      ensures old(arrivals) <= arrivals && old(wrote) <= wrote
      ensures channel.Ok? ==>
                && synced == old(synced) && |old(arrivals)| < |arrivals|
                && arrivals[|arrivals| - 1].fate == Reply
                && Answers(arrivals[|arrivals| - 1].message, old(nextIdentifier))
      ensures channel.Ok? ==>
                var call := Call(GLOBAL_CHANNEL, selector, [Int32(old(nextChannelCode)), Buffer(archived)]);
                old(wrote) + [Request(Addressed(call, old(nextIdentifier)))] <= wrote
    {
      hide Wire, AcksIn, AcksFor, FramesOf, Concat, CountsUp, Those, FirstMessage, Encode, Messages;
      var code := nextChannelCode;
      HandOut(codes, Unsigned32(code));
      codes := codes + [Unsigned32(code)];
      nextChannelCode := Signed32((Unsigned32(nextChannelCode) + 1) % TWO_TO_THE_32);
      var reply;
      reply, unread := Invoke(GLOBAL_CHANNEL, selector, [Int32(code), Buffer(archived)]);
      channel := if reply.Ok? then Ok(Channel(code, identifier)) else Err(reply.error);
    }

    /** Calls an archived selector on a channel and awaits the reply. */
    method Invoke(code: Words.Int32, selector: Bytes, auxiliary: seq<DtxValue>)
      returns (reply: Result<Dtx>, ghost unread: Bytes)
      requires Valid()
      ensures reply.Err? && stream.failures == old(stream.failures) ==> Unparsed(reply.error, old(synced), unread)
      modifies this`nextIdentifier, this`pending, this`wrote, this`arrivals, this`frames, this`synced, this`given
      modifies stream
      ensures Valid()
      ensures given == old(given) + [old(nextIdentifier)]
      ensures old(arrivals) <= arrivals && old(wrote) <= wrote
      ensures reply.Ok? ==>
                && Answers(reply.value, old(nextIdentifier)) && synced == old(synced)
                && |old(arrivals)| < |arrivals| && arrivals[|arrivals| - 1] == Arrival(reply.value, Reply)
                && old(wrote) + [Request(Addressed(Call(code, selector, auxiliary), old(nextIdentifier)))] <= wrote
    {
      ghost var identifier, waited;
      reply, identifier, waited, unread := SendAndAwaitReply(Call(code, selector, auxiliary));
    }

    predicate HasPending()
      reads this
    {
      pending != []
    }

    /** The oldest queued message. */
    method NextPending() returns (message: Result<Dtx>)
      requires Valid()
      modifies this`pending, this`popped
      ensures Valid()
      ensures message.Ok? <==> old(HasPending())
      ensures if message.Ok? then old(pending) == [message.value] + pending && popped == old(popped) + [message.value]
              else message == Err(Protocol) && pending == old(pending) && popped == old(popped)
    {
      hide Recorded, Those;
      if pending == [] {
        return Err(Protocol);
      }
      message := Ok(pending[0]);
      assert popped + pending == popped + [pending[0]] + pending[1..];
      popped := popped + [pending[0]];
      pending := pending[1..];
    }

    /**
     As long as the stream is in step, on a stream of encoded messages the messages read are
     exactly the first of them, and what is left is the rest.
     */
    lemma ReadsTheStream(messages: seq<Dtx>)
      requires Valid() && synced && input == EncodeAll(messages)
      requires AllSendable(messages)
      ensures Messages(arrivals) <= messages && stream.incoming == EncodeAll(messages[|arrivals|..])
    {
      SplitsTheStream(frames, Messages(arrivals), stream.incoming, messages);
    }
  }

  /** A dispatch on a channel, not yet numbered. */
  function Call(code: Words.Int32, selector: Bytes, auxiliary: seq<DtxValue>): Dtx {
    Dtx(0, 1, 0, 0, code, false, DISPATCH, auxiliary, selector)
  }

  /** A request as it is sent: numbered, first of its conversation and expecting a reply. */
  function Addressed(request: Dtx, identifier: Word32): Dtx {
    request.(identifier := identifier, conversationIndex := 0, expectsReply := true)
  }

  lemma HandOut(given: seq<Word32>, next: Word32)
    requires CountsUp(given, next)
    ensures CountsUp(given + [next], (next + 1) % TWO_TO_THE_32)
  {
  }

  lemma SameWords(s: Bytes, h: Bytes)
    requires |h| == HEADER_SIZE && h <= s
    ensures U32(s) == U32(h) && U32(s[4..]) == U32(h[4..]) && U32(s[12..]) == U32(h[12..])
  {
    Prefix32(s, h, 0);
    Prefix32(s, h, 4);
    Prefix32(s, h, 12);
  }

  lemma ParsingFailsAsProtocol(s: Bytes)
    ensures Parsed(s).Err? ==> Parsed(s).error == Protocol
  {
  }

  lemma SameMessages(arrivals: seq<Arrival>, m: Dtx, fate: Fate)
    ensures Messages(arrivals + [Arrival(m, fate)]) == Messages(arrivals) + [m]
  {
  }
}
