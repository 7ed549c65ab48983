/**
 The history of an HTTP/2 connection: what it wrote, what it consumed and the messages it
 delivered, which depend on the bytes received alone and not on how they were chunked.
 */
module Http2History {
  import opened Words
  import opened Http2Frames

  /**
   One step of a connection. `Unanswered` is a frame that was acted on but stays in the
   buffer, because the acknowledgement it asks for could not be written.
   */
  datatype Event =
    | Greeted(text: Bytes)
    | Sent(frame: Frame)
    | Received(frame: Frame)
    | Unanswered(frame: Frame)
  {
    predicate Arrives(kind: Byte) {
      (Received? || Unanswered?) && frame.kind == kind
    }

    /** The bytes of DATA this event spends. */
    predicate Spends() {
      Sent? && frame.kind == DATA
    }

    predicate Credits() {
      Arrives(WINDOW_UPDATE) && |frame.payload| >= 4
    }

    /** A SETTINGS frame from the peer that sets the initial window. */
    predicate Resets() {
      Arrives(SETTINGS) && !frame.Acknowledges() && InitialWindow(frame.payload).Some?
    }

    function Amount(): int {
      if Spends() then -|frame.payload| else if Credits() then Increment(frame.payload) else 0
    }

    function Initial(): int
      requires Resets()
    {
      InitialWindow(frame.payload).value
    }
  }

  type History = seq<Event>

  function Front(h: History): History
    requires h != []
  {
    h[..|h| - 1]
  }

  function Last(h: History): Event
    requires h != []
  {
    h[|h| - 1]
  }

  // ---------------------------------------------------------------------------
  // What a history wrote, consumed and delivered
  // ---------------------------------------------------------------------------

  /** The bytes written to the transport. */
  function Written(h: History): Bytes {
    if h == [] then [] else
    Written(Front(h)) + match Last(h) {
      case Greeted(text) => text
      case Sent(frame) => FrameBytes(frame)
      case _ => []
    }
  }

  /** The bytes taken from the transport and from the buffer. */
  function Consumed(h: History): Bytes {
    if h == [] then [] else
    Consumed(Front(h)) + if Last(h).Received? then FrameBytes(Last(h).frame) else []
  }

  datatype Message = Message(stream: Word32, payload: Bytes)

  /** A non-empty DATA frame is a message. */
  function Delivered(e: Event): seq<Message> {
    if e.Received? && e.frame.kind == DATA && e.frame.payload != []
    then [Message(e.frame.stream, e.frame.payload)]
    else []
  }

  function Messages(h: History): seq<Message> {
    if h == [] then [] else Messages(Front(h)) + Delivered(Last(h))
  }

  /** The peer's SETTINGS has arrived. */
  predicate SettingsArrived(h: History) {
    h != [] && (SettingsArrived(Front(h)) || (Last(h).Arrives(SETTINGS) && !Last(h).frame.Acknowledges()))
  }

  /** The peer has ended the connection or a stream. */
  predicate EndArrived(h: History) {
    h != [] && (EndArrived(Front(h)) || Last(h).Arrives(GOAWAY) || Last(h).Arrives(RST_STREAM))
  }

  /** The DATA bytes sent on `stream`, in order. */
  function DataOn(h: History, stream: Word32): Bytes {
    if h == [] then [] else
    DataOn(Front(h), stream) +
    if Last(h).Spends() && Last(h).frame.stream == stream then Last(h).frame.payload else []
  }

  // ---------------------------------------------------------------------------
  // The frames received depend on the bytes alone, not on how they were chunked
  // ---------------------------------------------------------------------------

  function FramesIn(h: History): seq<Frame> {
    if h == [] then [] else FramesIn(Front(h)) + if Last(h).Received? then [Last(h).frame] else []
  }

  /** Every frame received has a length that its 24-bit field can hold. */
  predicate Measured(h: History) {
    h == [] || (Measured(Front(h)) && (Last(h).Received? ==> |Last(h).frame.payload| < LENGTH_LIMIT))
  }

  predicate AllMeasured(frames: seq<Frame>) {
    forall i :: 0 <= i < |frames| ==> |frames[i].payload| < LENGTH_LIMIT
  }

  function Wire(frames: seq<Frame>): Bytes {
    if frames == [] then [] else Wire(frames[..|frames| - 1]) + FrameBytes(frames[|frames| - 1])
  }

  function MessagesIn(frames: seq<Frame>): seq<Message> {
    if frames == [] then [] else
    MessagesIn(frames[..|frames| - 1]) + Delivered(Received(frames[|frames| - 1]))
  }

  lemma {:induction false} HistoryFrames(h: History)
    requires Measured(h)
    ensures Consumed(h) == Wire(FramesIn(h)) && Messages(h) == MessagesIn(FramesIn(h))
    ensures AllMeasured(FramesIn(h))
  {
    hide FrameBytes, Delivered, Wire, MessagesIn;
    if h == [] {
      assert Wire([]) == [] && MessagesIn([]) == [] by {
        NoFrames();
      }
    } else {
      HistoryFrames(Front(h));
      if Last(h).Received? {
        OneMoreFrame(FramesIn(Front(h)), Last(h).frame);
      } else {
        assert Delivered(Last(h)) == [] by {
          OtherEventsDeliverNothing(Last(h));
        }
        assert FramesIn(h) == FramesIn(Front(h));
        assert Consumed(h) == Consumed(Front(h)) && Messages(h) == Messages(Front(h));
      }
    }
  }

  lemma NoFrames()
    ensures Wire([]) == [] && MessagesIn([]) == []
  {
  }

  lemma OtherEventsDeliverNothing(e: Event)
    requires !e.Received?
    ensures Delivered(e) == []
  {
  }

  lemma OneMoreFrame(frames: seq<Frame>, frame: Frame)
    ensures Wire(frames + [frame]) == Wire(frames) + FrameBytes(frame)
    ensures MessagesIn(frames + [frame]) == MessagesIn(frames) + Delivered(Received(frame))
  {
    hide FrameBytes, Delivered;
    assert (frames + [frame])[..|frames|] == frames;
  }

  lemma {:induction false} WireFrom(frames: seq<Frame>, n: nat) returns (rest: Bytes)
    requires n <= |frames|
    ensures Wire(frames) == Wire(frames[..n]) + rest
  {
    hide FrameBytes;
    if n == |frames| {
      assert frames[..n] == frames;
      rest := [];
    } else {
      var last := |frames| - 1;
      rest := WireFrom(frames[..last], n);
      assert frames[..last][..n] == frames[..n];
      rest := rest + FrameBytes(frames[last]);
    }
  }

  lemma {:induction false} WireDetermines(fs: seq<Frame>, gs: seq<Frame>, a: Bytes, b: Bytes)
    requires |fs| <= |gs| && AllMeasured(fs) && AllMeasured(gs)
    requires Wire(fs) + a == Wire(gs) + b
    ensures fs == gs[..|fs|]
  {
    hide FrameBytes, FirstFrame;
    if fs != [] {
      var n := |fs| - 1;
      var f, g := fs[n], gs[n];
      assert Wire(fs) + a == Wire(fs[..n]) + (FrameBytes(f) + a);
      WireDetermines(fs[..n], gs, FrameBytes(f) + a, b);
      var rest := WireFrom(gs, n + 1);
      assert gs[..n + 1][..n] == gs[..n];
      assert Wire(gs) + b == Wire(gs[..n]) + (FrameBytes(g) + (rest + b));
      SamePrefix(Wire(gs[..n]), FrameBytes(f) + a, FrameBytes(g) + (rest + b));
      FrameBack(f, a);
      FrameBack(g, rest + b);
    }
  }

  lemma SamePrefix(p: Bytes, a: Bytes, b: Bytes)
    requires p + a == p + b
    ensures a == b
  {
    assert (p + a)[|p|..] == a;
    assert (p + b)[|p|..] == b;
  }

  lemma {:induction false} MessagesOfPrefix(frames: seq<Frame>, n: nat)
    requires n <= |frames|
    ensures MessagesIn(frames[..n]) <= MessagesIn(frames)
  {
    hide Delivered;
    if n < |frames| {
      MessagesOfPrefix(frames[..|frames| - 1], n);
      assert frames[..|frames| - 1][..n] == frames[..n];
    } else {
      assert frames[..n] == frames;
    }
  }

  /**
   Two connections that read the same bytes, however they were chunked and whatever was
   written in between, deliver the same messages: one list is a prefix of the other.
   */
  lemma ChunkingDoesNotMatter(h: History, g: History, input: Bytes)
    requires Measured(h) && Measured(g)
    requires Consumed(h) <= input && Consumed(g) <= input
    ensures FramesIn(h) <= FramesIn(g) || FramesIn(g) <= FramesIn(h)
    ensures Messages(h) <= Messages(g) || Messages(g) <= Messages(h)
  {
    HistoryFrames(h);
    HistoryFrames(g);
    var fs, gs := FramesIn(h), FramesIn(g);
    var a, b := input[|Consumed(h)|..], input[|Consumed(g)|..];
    hide *;
    assert Wire(fs) + a == input == Wire(gs) + b;
    if |fs| <= |gs| {
      WireDetermines(fs, gs, a, b);
      MessagesOfPrefix(gs, |fs|);
    } else {
      WireDetermines(gs, fs, b, a);
      MessagesOfPrefix(fs, |gs|);
    }
  }
}
