/**
 A blocking HTTP/2 connection over a byte transport.

 `history` is a ghost record of every frame sent and received; `Valid` ties each field to
 it, so that what the methods keep is stated once: the windows are the windows of the
 history, the queue holds the messages not yet popped, and the bytes taken from the
 transport are the frames received.
 */
module Http2Connection {
  import opened Words
  import opened Transports
  import opened Http2Frames
  import opened Http2History
  import opened Http2Windows

  const PREFACE: Bytes := [0x50, 0x52, 0x49, 0x20, 0x2a, 0x20, 0x48, 0x54, 0x54, 0x50, 0x2f, 0x32,
                           0x2e, 0x30, 0x0d, 0x0a, 0x0d, 0x0a, 0x53, 0x4d, 0x0d, 0x0a, 0x0d, 0x0a]
  const WINDOW_SIZE: Word32 := 0x100_0000
  const WINDOW_GRANT: Word32 := WINDOW_SIZE - 65535
  const STREAM_LIMIT: Word32 := 100

  /** An outgoing frame: the reserved bit of the stream is always clear. */
  function Outgoing(kind: Byte, flags: Byte, stream: Word32, payload: Bytes): Frame {
    Frame(kind, flags, stream % TWO_TO_THE_31, payload)
  }

  function Setting(id: Word16, value: Word32): Bytes {
    BigEndian(id, 2) + BigEndian(value, 4)
  }

  /** The frames every connection opens with, after the preface. */
  function Greeting(): History {
    [Greeted(PREFACE),
     Sent(Outgoing(SETTINGS, NO_FLAGS, 0,
                   Setting(MAX_CONCURRENT_STREAMS, STREAM_LIMIT) + Setting(INITIAL_WINDOW_SIZE, WINDOW_SIZE))),
     Sent(Outgoing(WINDOW_UPDATE, NO_FLAGS, 0, BigEndian(WINDOW_GRANT % TWO_TO_THE_31, 4)))]
  }

  class Http2 {
    const transport: Transport
    var buffer: Bytes
    var received: seq<Message>
    var connectionWindow: Int32
    var streamWindow: Int32
    var settingsSeen: bool
    var failed: bool
    var attached: bool

    ghost var history: History
    ghost var popped: seq<Message>
    ghost const input: Bytes
    ghost const before: Bytes

    /** The fields agree with the history. */
    ghost predicate Consistent()
      reads this`history, this`popped, this`received, this`connectionWindow, this`streamWindow
      reads this`settingsSeen, this`failed, transport`sent
    {
      && transport.sent == before + Written(history)
      && popped + received == Messages(history)
      && Measured(history)
      && Disciplined(history)
      && Tracks(history, connectionWindow, streamWindow)
      && (settingsSeen <==> SettingsArrived(history)) && (failed <==> EndArrived(history))
    }

    ghost predicate Valid()
      reads this, transport
    {
      Consistent() && input == Consumed(history) + Ahead()
    }

    constructor (transport: Transport)
      ensures Valid() && this.transport == transport && history == [] && popped == [] && attached
      ensures !settingsSeen && !failed && input == transport.incoming && transport.sent == old(transport.sent)
    {
      this.transport := transport;
      buffer, received := [], [];
      connectionWindow, streamWindow := DEFAULT_WINDOW, DEFAULT_WINDOW;
      settingsSeen, failed, attached := false, false, true;
      history, popped := [], [];
      input, before := transport.incoming, transport.sent;
    }

    /** No call of the transport has failed since there were `before` failures. */
    ghost predicate Steady(before: nat)
      reads transport`failures
    {
      transport.failures == before
    }

    /** A call of the transport failed, and that is the error. */
    ghost predicate Failed(error: Error, before: nat)
      reads transport`failures
    {
      transport.failures > before && error == Error.Transport
    }

    /** The transport failed, or without a failure the bytes ahead hold no whole frame. */
    ghost predicate Cut(error: Error, before: nat)
      reads this, transport
    {
      Failed(error, before) || (Steady(before) && error == Protocol && FirstFrame(Ahead()) == None)
    }

    /** The bytes that have arrived or will arrive but belong to no frame read so far. */
    ghost function Ahead(): Bytes
      reads this, transport
    {
      buffer + transport.incoming
    }

    /** Reads until the buffer holds `count` bytes; unless the transport fails it falls short only at the end. */
    method Fill(count: nat) returns (status: Result<()>)
      modifies this`buffer, transport`incoming, transport`failures
      ensures Ahead() == old(Ahead())
      ensures status.Ok? ==> |buffer| >= count && transport.failures == old(transport.failures)
      ensures status.Err? ==> Failed(status.error, old(transport.failures)) ||
                              (status.error == Protocol && |Ahead()| < count && Steady(old(transport.failures)))
      ensures |old(buffer)| <= |buffer| && old(buffer) == buffer[..|old(buffer)|]
    {
      while |buffer| < count
        invariant Ahead() == old(Ahead()) && Steady(old(transport.failures))
        invariant |old(buffer)| <= |buffer| && old(buffer) == buffer[..|old(buffer)|]
        decreases count - |buffer|
      {
        var chunk := transport.Read(MAX_FRAME_SIZE);
        if chunk.Err? {
          return Err(chunk.error);
        }
        if chunk.value == [] {
          return Err(Protocol);
        }
        assert buffer + (chunk.value + transport.incoming) == (buffer + chunk.value) + transport.incoming;
        buffer := buffer + chunk.value;
      }
      status := Ok(());
    }

    /** Writes a control frame; on success it is part of the history. */
    method Send(frame: Frame) returns (status: Result<()>)
      requires Valid() && frame.kind != DATA
      modifies this`history, transport`sent, transport`failures
      ensures Valid()
      ensures history == if status.Ok? then old(history) + [Sent(frame)] else old(history)
      ensures if status.Ok? then Steady(old(transport.failures)) else Failed(status.error, old(transport.failures))
    {
      hide SettingsArrived, EndArrived, Written, Consumed, Messages, Measured, Disciplined, ConnectionBounded,
           StreamBounded, ConnectionWindow, StreamWindow, FrameBytes;
      status := transport.Write(FrameBytes(frame));
      if status.Ok? {
        AfterSending(history, frame);
        assert before + Written(history) + FrameBytes(frame) == before + (Written(history) + FrameBytes(frame));
        history := history + [Sent(frame)];
      }
    }

    /** Reads a 32-bit field; a field that the payload does not hold has no defined value. */
    method ReadWord(payload: Bytes) returns (value: Word32)
      ensures |payload| >= 4 ==> value == Increment(payload)
    {
      if |payload| >= 4 {
        value := Increment(payload);
      } else {
        value := *;
      }
    }

    /** Applies the entries of a SETTINGS frame in order. */
    method ApplySettings(settings: Bytes)
      modifies this`streamWindow
      ensures streamWindow == match InitialWindow(settings) {
                                case Some(value) => Signed32(value)
                                case None => old(streamWindow)
                              }
    {
      hide FromBigEndian, Signed32;
      ghost var found: Option<Word32> := None;
      var offset := 0;
      while offset + SETTING_SIZE <= |settings|
        invariant 0 <= offset <= |settings|
        invariant InitialWindow(settings) == Later(found, InitialWindow(settings[offset..]))
        invariant streamWindow == match found { case Some(value) => Signed32(value) case None => old(streamWindow) }
      {
        assert settings[offset..][..2] == settings[offset..offset + 2];
        assert settings[offset..][2..6] == settings[offset + 2..offset + 6];
        assert settings[offset..][SETTING_SIZE..] == settings[offset + SETTING_SIZE..];
        Words256(settings[offset + 2..offset + 6]);
        var id, value := FromBigEndian(settings[offset..offset + 2]), FromBigEndian(settings[offset + 2..offset + 6]);
        if id == INITIAL_WINDOW_SIZE {
          streamWindow := Signed32(value);
          found := Some(value);
        }
        offset := offset + SETTING_SIZE;
      }
      assert InitialWindow(settings[offset..]) == None;
    }

    /** Writes the acknowledgement of `frame`, which has already taken effect. */
    method Acknowledge(frame: Frame) returns (status: Result<()>)
      requires Answer(frame).Some?
      requires transport.sent == before + Written(history)
      modifies transport`sent, transport`failures, this`history
      ensures history == old(history) + Handled(frame, status.Ok?)
      ensures transport.sent == before + Written(history)
      ensures if status.Ok? then Steady(old(transport.failures)) else Failed(status.error, old(transport.failures))
    {
      hide SettingsArrived, EndArrived, Written, Consumed, Messages, Measured, Disciplined, ConnectionBounded,
           StreamBounded, ConnectionWindow, StreamWindow, FrameBytes;
      var ack := Answer(frame).value;
      status := transport.Write(FrameBytes(ack));
      AfterArrival(history, Received(frame));
      AfterArrival(history, Unanswered(frame));
      AfterSending(history + [Received(frame)], ack);
      assert before + Written(history) + FrameBytes(ack) == before + (Written(history) + FrameBytes(ack));
      assert history + [Received(frame)] + [Sent(ack)] == history + [Received(frame), Sent(ack)];
      history := history + Handled(frame, status.Ok?);
    }

    /** Acts on one frame. */
    method Handle(frame: Frame) returns (status: Result<()>)
      requires Consistent() && |frame.payload| < LENGTH_LIMIT
      modifies this`received, this`connectionWindow, this`streamWindow, this`settingsSeen, this`failed, this`history
      modifies transport`sent, transport`failures
      ensures Consistent()
      ensures history == old(history) + Handled(frame, status.Ok?)
      ensures status.Err? ==> Answer(frame).Some? && received == old(received)
      ensures if status.Ok? then Steady(old(transport.failures)) else Failed(status.error, old(transport.failures))
      ensures settingsSeen <==> old(settingsSeen) || (frame.kind == SETTINGS && !frame.Acknowledges())
      ensures failed <==> old(failed) || frame.kind == GOAWAY || frame.kind == RST_STREAM
    {
      hide SettingsArrived, EndArrived, Written, Consumed, Messages, Measured, Disciplined, ConnectionBounded,
           StreamBounded, ConnectionWindow, StreamWindow, FrameBytes, Increase, Signed32, WellFormedFrame;
      HandlingKeeps(history, frame, true, connectionWindow, streamWindow);
      if Answer(frame).Some? {
        HandlingKeeps(history, frame, false, connectionWindow, streamWindow);
      }
      assert popped + (received + Delivered(Received(frame))) == popped + received + Delivered(Received(frame));
      status := Ok(());
      if Answer(frame).Some? {
        if frame.kind == SETTINGS {
          ApplySettings(frame.payload);
          settingsSeen := true;
        }
        status := Acknowledge(frame);
      } else {
        if frame.kind == DATA && frame.payload != [] {
          received := received + [Message(frame.stream, frame.payload)];
        } else if frame.kind == WINDOW_UPDATE {
          var increment := ReadWord(frame.payload);
          if frame.stream == 0 {
            connectionWindow := Increase(connectionWindow, increment);
          } else {
            streamWindow := Increase(streamWindow, increment);
          }
        } else if frame.kind == GOAWAY || frame.kind == RST_STREAM {
          failed := true;
        }
        history := history + [Received(frame)];
      }
    }

    /** Fills the buffer with the first frame of the bytes ahead and reads it, consuming nothing. */
    method NextFrame() returns (next: Result<Frame>)
      modifies this`buffer, transport`incoming, transport`failures
      ensures Ahead() == old(Ahead())
      ensures next.Ok? ==>
                && FirstFrame(Ahead()) == Some(next.value) && FRAME_HEADER_SIZE + |next.value.payload| <= |buffer|
                && Steady(old(transport.failures))
      ensures next.Err? ==> Cut(next.error, old(transport.failures))
    {
      hide FromBigEndian, FirstFrame;
      var status := Fill(FRAME_HEADER_SIZE);
      if status.Err? {
        TooShort(Ahead());
        return Err(status.error);
      }
      ghost var header := buffer;
      var length := FromBigEndian(buffer[..3]);
      Words256(buffer[5..9]);
      var kind, flags, stream := buffer[3], buffer[4], FromBigEndian(buffer[5..9]);
      status := Fill(FRAME_HEADER_SIZE + length);
      if status.Err? {
        SameHeader(header, Ahead());
        TooShort(Ahead());
        return Err(status.error);
      }
      SameHeader(header, buffer);
      var frame := Frame(kind, flags, stream, buffer[9..9 + length]);
      FirstFrameIs(Ahead(), buffer, frame, length);
      next := Ok(frame);
    }

    /** Handles the frame that the buffer starts with and, once it is answered, removes it. */
    method TakeFrame(frame: Frame) returns (status: Result<()>)
      requires Valid() && FirstFrame(Ahead()) == Some(frame) && FRAME_HEADER_SIZE + |frame.payload| <= |buffer|
      modifies this`buffer, this`received, this`connectionWindow, this`streamWindow
      modifies this`settingsSeen, this`failed, this`history, transport`sent, transport`failures
      ensures Valid()
      ensures history == old(history) + Handled(frame, status.Ok?)
      ensures settingsSeen && !old(settingsSeen) ==> failed == old(failed)
      ensures if status.Ok? then |Ahead()| < |old(Ahead())| && Steady(old(transport.failures))
              else Ahead() == old(Ahead()) && received == old(received) && Failed(status.error, old(transport.failures))
      ensures status.Err? ==> Answer(frame).Some?
      ensures forall s: Word32 :: DataOn(history, s) == DataOn(old(history), s)
    {
      hide SettingsArrived, EndArrived, Written, Messages, Measured, Disciplined, ConnectionBounded, StreamBounded,
           ConnectionWindow, StreamWindow, FrameBytes, Tracks, FirstFrame, Answer, DataOn, Consumed;
      var total := FRAME_HEADER_SIZE + |frame.payload|;
      FrameForth(Ahead());
      assert Ahead()[total..] == buffer[total..] + transport.incoming;
      HandlingKeeps(history, frame, true, connectionWindow, streamWindow);
      if Answer(frame).Some? {
        HandlingKeeps(history, frame, false, connectionWindow, streamWindow);
      }
      status := Handle(frame);
      if status.Ok? {
        buffer := buffer[total..];
        assert input == Consumed(old(history)) + (FrameBytes(frame) + Ahead());
      }
    }

    /**
     Reads and handles exactly one frame, the first of the bytes ahead. When its
     acknowledgement cannot be written the frame stays ahead, to be handled again.
     */
    method ReadFrame() returns (status: Result<()>)
      requires Valid()
      modifies this`buffer, this`received, this`connectionWindow, this`streamWindow
      modifies this`settingsSeen, this`failed, this`history, transport
      ensures Valid()
      ensures old(history) <= history && forall i :: |old(history)| <= i < |history| ==> !history[i].Spends()
      ensures settingsSeen && !old(settingsSeen) ==> failed == old(failed)
      ensures status.Ok? ==>
                && FirstFrame(old(Ahead())).Some?
                && history == old(history) + Handled(FirstFrame(old(Ahead())).value, true)
                && |Ahead()| < |old(Ahead())| && Steady(old(transport.failures))
      ensures status.Err? ==>
                && Ahead() == old(Ahead()) && received == old(received) && Cut(status.error, old(transport.failures))
                && (Steady(old(transport.failures)) ==>
                      && history == old(history)
                      && connectionWindow == old(connectionWindow) && streamWindow == old(streamWindow))
                && (history == old(history) ||
                    (FirstFrame(Ahead()).Some? && history == old(history) + [Unanswered(FirstFrame(Ahead()).value)]))
      ensures forall s: Word32 :: DataOn(history, s) == DataOn(old(history), s)
    {
      hide SettingsArrived, EndArrived, Written, Messages, Measured, Disciplined, ConnectionBounded, StreamBounded,
           ConnectionWindow, StreamWindow, FrameBytes, Tracks, FirstFrame, Answer, DataOn, Consumed, Consistent;
      var next := NextFrame();
      if next.Err? {
        return Err(next.error);
      }
      status := TakeFrame(next.value);
      HandlingSpendsNothing(next.value, status.Ok?);
    }

    /**
     Opens a connection: the preface, the client's SETTINGS and WINDOW_UPDATE, then frames
     until the peer's SETTINGS has arrived and its window is known.
     */
    static method Connect(transport: Transport)
      returns (connection: Result<Http2>, ghost seen: History, ghost rest: Bytes)
      modifies transport
      ensures connection.Ok? ==>
                && fresh(connection.value) && connection.value.transport == transport
                && connection.value.Valid() && connection.value.attached
                && connection.value.settingsSeen && !connection.value.failed
                && connection.value.popped == [] && connection.value.input == old(transport.incoming)
                && Greeting() <= connection.value.history
                && (forall s: Word32 :: DataOn(connection.value.history, s) == [])
                && transport.failures == old(transport.failures)
                && !SettingsArrived(seen) && FirstFrame(rest).Some?
                && connection.value.history == seen + Handled(FirstFrame(rest).value, true)
      ensures connection.Err? ==>
                || (transport.failures > old(transport.failures) && connection.error == Error.Transport)
                || (&& connection.error == Protocol && old(transport.incoming) == Consumed(seen) + rest
                    && !SettingsArrived(seen) && (EndArrived(seen) || FirstFrame(rest) == None))
    {
      hide SettingsArrived, EndArrived, Written, Consumed, Messages, Measured, Disciplined, ConnectionBounded,
           StreamBounded, ConnectionWindow, StreamWindow, FrameBytes, Tracks, FirstFrame, Answer, DataOn, Setting,
           Handled, Outgoing;
      var http := new Http2(transport);
      seen, rest := http.history, http.Ahead();
      var status := http.Greet();
      if status.Err? {
        return Err(status.error), seen, rest;
      }
      GreetingSpendsNothing();
      while !http.settingsSeen
        invariant http.Valid() && http.attached && (http.settingsSeen ==> !http.failed)
        invariant http.popped == [] && Greeting() <= http.history && http.Steady(old(transport.failures))
        invariant forall s: Word32 :: DataOn(http.history, s) == []
        invariant http.settingsSeen ==>
                    && !SettingsArrived(seen) && FirstFrame(rest).Some?
                    && http.history == seen + Handled(FirstFrame(rest).value, true)
        decreases !http.settingsSeen, |http.Ahead()|
      {
        seen, rest := http.history, http.Ahead();
        if http.failed {
          return Err(Protocol), seen, rest;
        }
        status := http.ReadFrame();
        if status.Err? {
          return Err(status.error), seen, rest;
        }
      }
      connection := Ok(http);
    }

    /** Writes the preface. */
    method SendPreface(text: Bytes) returns (status: Result<()>)
      requires Valid() && history == []
      modifies this`history, transport`sent, transport`failures
      ensures Valid()
      ensures history == if status.Ok? then [Greeted(text)] else []
      ensures if status.Ok? then Steady(old(transport.failures)) else Failed(status.error, old(transport.failures))
    {
      hide SettingsArrived, EndArrived, Written, Consumed, Messages, Measured, Disciplined, ConnectionBounded,
           StreamBounded, ConnectionWindow, StreamWindow, Tracks, DataOn;
      NothingYet();
      AfterPreface(text);
      status := transport.Write(text);
      if status.Ok? {
        history := [Greeted(text)];
      }
    }

    /** Writes what every connection opens with. */
    method Greet() returns (status: Result<()>)
      requires Valid() && history == []
      modifies this`history, transport`sent, transport`failures
      ensures Valid()
      ensures if status.Ok? then history == Greeting() && Steady(old(transport.failures))
              else Failed(status.error, old(transport.failures))
    {
      hide SettingsArrived, EndArrived, Written, Consumed, Messages, Measured, Disciplined, Tracks, DataOn, Greeting;
      status := SendPreface(PREFACE);
      if status.Ok? {
        GreetingIs();
        status := Send(Greeting()[1].frame);
        if status.Ok? {
          assert history == Greeting()[..2];
          status := Send(Greeting()[2].frame);
        }
      }
    }

    /** Opens `stream` with an empty HEADERS frame. */
    method Open(stream: Word32) returns (status: Result<()>)
      requires Valid() && attached
      modifies this`history, transport`sent, transport`failures
      ensures Valid()
      ensures history ==
              if status.Ok? then old(history) + [Sent(Outgoing(HEADERS, END_HEADERS, stream, []))] else old(history)
      ensures if status.Ok? then Steady(old(transport.failures)) else Failed(status.error, old(transport.failures))
    {
      status := Send(Outgoing(HEADERS, END_HEADERS, stream, []));
    }

    /** Sends one DATA frame and spends the windows. */
    method SendData(frame: Frame) returns (status: Result<()>)
      requires Valid() && frame.kind == DATA && Allowed(history, frame)
      requires |frame.payload| <= connectionWindow && |frame.payload| <= streamWindow
      modifies this`history, transport`sent, transport`failures, this`connectionWindow, this`streamWindow
      ensures Valid()
      ensures history == if status.Ok? then old(history) + [Sent(frame)] else old(history)
      ensures if status.Ok? then Steady(old(transport.failures)) else Failed(status.error, old(transport.failures))
      ensures forall s: Word32 :: DataOn(history, s) ==
                DataOn(old(history), s) + (if status.Ok? && s == frame.stream then frame.payload else [])
    {
      hide SettingsArrived, EndArrived, Written, Consumed, Messages, Measured, Disciplined, ConnectionBounded,
           StreamBounded, ConnectionWindow, StreamWindow, FrameBytes, DataOn, Allowed, Decrease;
      status := transport.Write(FrameBytes(frame));
      if status.Ok? {
        AfterData(history, frame);
        assert before + Written(history) + FrameBytes(frame) == before + (Written(history) + FrameBytes(frame));
        DecreaseIsExact(connectionWindow, |frame.payload|);
        DecreaseIsExact(streamWindow, |frame.payload|);
        connectionWindow := Decrease(connectionWindow, |frame.payload|);
        streamWindow := Decrease(streamWindow, |frame.payload|);
        history := history + [Sent(frame)];
      }
    }

    /**
     Sends `payload` on `stream`, split as the windows allow. The DATA frames sent during
     the call carry the first `count` bytes of the payload, all of them on success, and
     nothing on any other stream, each as large as the windows allow. It fails only with the
     transport, or where it has to wait for a window and everything the peer sent has been read.
     */
    method Write(stream: Word32, payload: Bytes) returns (status: Result<()>, ghost count: nat)
      requires Valid() && attached
      modifies this`buffer, this`received, this`connectionWindow, this`streamWindow
      modifies this`settingsSeen, this`failed, this`history, transport
      ensures Valid()
      ensures old(history) <= history
      ensures count <= |payload| && (status.Ok? ==> count == |payload| && Steady(old(transport.failures)))
      ensures Greedy(history, |old(history)|, stream % TWO_TO_THE_31,
                     |DataOn(old(history), stream % TWO_TO_THE_31)|, |payload|)
      ensures status.Err? ==>
                && Cut(status.error, old(transport.failures))
                && (Steady(old(transport.failures)) ==> connectionWindow <= 0 || streamWindow <= 0)
      ensures forall s: Word32 :: DataOn(history, s) ==
                DataOn(old(history), s) + (if s == stream % TWO_TO_THE_31 then payload[..count] else [])
    {
      hide SettingsArrived, EndArrived, Written, Consumed, Messages, Measured, Disciplined, ConnectionBounded,
           StreamBounded, ConnectionWindow, StreamWindow, FrameBytes, DataOn, Answer, FirstFrame, Handled,
           Greedy, AsLarge;
      ghost var start := |DataOn(history, stream % TWO_TO_THE_31)|;
      NothingSent(history, stream % TWO_TO_THE_31, start, |payload|);
      count := 0;
      var offset := 0;
      while offset < |payload|
        invariant Valid() && old(history) <= history && offset <= |payload| && count == offset
        invariant Steady(old(transport.failures))
        invariant Greedy(history, |old(history)|, stream % TWO_TO_THE_31, start, |payload|)
        invariant forall s: Word32 :: DataOn(history, s) ==
                    DataOn(old(history), s) + (if s == stream % TWO_TO_THE_31 then payload[..count] else [])
        decreases |payload| - offset, |Ahead()|
      {
        var budget := Min(Min(connectionWindow, streamWindow), MAX_FRAME_SIZE);
        ghost var before := history;
        if budget <= 0 {
          status := ReadFrame();
          GreedyGrows(before, history, |old(history)|, stream % TWO_TO_THE_31, start, |payload|);
          if status.Err? {
            return;
          }
        } else {
          var size := Min(budget, |payload| - offset);
          ghost var frame := Outgoing(DATA, NO_FLAGS, stream, payload[offset..offset + size]);
          TracksBudget(frame, stream % TWO_TO_THE_31, start, |payload|, offset);
          status := SendData(Outgoing(DATA, NO_FLAGS, stream, payload[offset..offset + size]));
          if status.Err? {
            return;
          }
          GreedySends(before, frame, |old(history)|, stream % TWO_TO_THE_31, start, |payload|);
          assert payload[..offset] + payload[offset..offset + size] == payload[..offset + size];
          offset := offset + size;
          count := offset;
        }
      }
      status := Ok(());
    }

    lemma TracksBudget(frame: Frame, stream: Word32, start: nat, size: nat, offset: nat)
      requires Valid() && offset <= size && |DataOn(history, stream)| == start + offset
      requires |frame.payload| == Min(Min(Min(connectionWindow, streamWindow), MAX_FRAME_SIZE), size - offset)
      ensures AsLarge(history, frame, stream, start, size)
    {
      hide SettingsArrived, EndArrived, Written, Consumed, Messages, Measured, Disciplined, ConnectionBounded,
           StreamBounded, ConnectionWindow, StreamWindow, DataOn;
    }

    /** The next message, in the order the DATA frames arrived. */
    method Read() returns (message: Result<Message>)
      requires Valid() && attached
      modifies this`buffer, this`received, this`connectionWindow, this`streamWindow
      modifies this`settingsSeen, this`failed, this`history, this`popped, transport
      ensures Valid()
      ensures old(history) <= history
      ensures popped == old(popped) + (if message.Ok? then [message.value] else [])
      ensures old(received) != [] ==> message == Ok(old(received)[0]) && history == old(history)
      ensures message.Ok? ==> Steady(old(transport.failures))
      ensures message.Err? ==>
                && received == []
                && (Cut(message.error, old(transport.failures)) ||
                    (Steady(old(transport.failures)) && message.error == Protocol && EndArrived(history)))
      ensures message.Ok? ==> |old(popped)| < |Messages(history)| && message.value == Messages(history)[|old(popped)|]
      ensures forall s: Word32 :: DataOn(history, s) == DataOn(old(history), s)
    {
      hide SettingsArrived, EndArrived, Written, Consumed, Messages, Measured, Disciplined, ConnectionBounded,
           StreamBounded, ConnectionWindow, StreamWindow, FrameBytes, DataOn, Answer, FirstFrame, Handled;
      while received == []
        invariant Valid() && popped == old(popped) && old(history) <= history && Steady(old(transport.failures))
        invariant old(received) != [] ==> received == old(received) && history == old(history)
        invariant forall s: Word32 :: DataOn(history, s) == DataOn(old(history), s)
        decreases |Ahead()|
      {
        if failed {
          return Err(Protocol);
        }
        var status := ReadFrame();
        if status.Err? {
          return Err(status.error);
        }
      }
      message := Ok(received[0]);
      assert popped + received == popped + [received[0]] + received[1..];
      popped := popped + [received[0]];
      received := received[1..];
    }

    /** Sends GOAWAY once, whether or not it can be written, and lets go of the transport. */
    method Close()
      requires Valid()
      modifies this`history, this`attached, transport`sent, transport`failures
      ensures Valid() && !attached
      ensures history == old(history) +
                if old(attached) && Steady(old(transport.failures))
                then [Sent(Outgoing(GOAWAY, NO_FLAGS, 0, []))] else []
      ensures !old(attached) ==> Steady(old(transport.failures))
    {
      if attached {
        var _ := Send(Outgoing(GOAWAY, NO_FLAGS, 0, []));
        attached := false;
      }
    }
  }

  lemma NothingYet()
    ensures Written([]) == [] && Consumed([]) == [] && Messages([]) == [] && !SettingsArrived([]) && !EndArrived([])
  {
  }

  lemma AfterPreface(text: Bytes)
    ensures var h := [Greeted(text)];
            && Written(h) == text && Consumed(h) == [] && Messages(h) == [] && Measured(h) && Disciplined(h)
            && !SettingsArrived(h) && !EndArrived(h)
            && (forall s: Word32 :: DataOn(h, s) == [])
            && forall c, w :: Tracks([], c, w) ==> Tracks(h, c, w)
  {
    assert Front([Greeted(text)]) == [];
    assert Disciplined([]) && Measured([]) && !SettingsArrived([]) && !EndArrived([]);
  }

  lemma GreetingIs()
    ensures |Greeting()| == 3 && Greeting()[1].Sent? && Greeting()[2].Sent?
    ensures Greeting()[1].frame.kind != DATA && Greeting()[2].frame.kind != DATA
    ensures [Greeted(PREFACE)] + [Greeting()[1]] == Greeting()[..2]
    ensures Greeting()[..2] + [Greeting()[2]] == Greeting()
  {
    hide Setting;
  }

  lemma GreetingSpendsNothing()
    ensures forall s: Word32 :: DataOn(Greeting(), s) == []
  {
    hide *;
    GreetingIs();
    AfterPreface(PREFACE);
    AfterSending([Greeted(PREFACE)], Greeting()[1].frame);
    AfterSending(Greeting()[..2], Greeting()[2].frame);
  }

  lemma SameHeader(header: Bytes, buffer: Bytes)
    requires FRAME_HEADER_SIZE <= |header| <= |buffer| && header == buffer[..|header|]
    ensures header[..3] == buffer[..3] && header[5..9] == buffer[5..9]
    ensures header[3] == buffer[3] && header[4] == buffer[4]
  {
  }

  /** A frame that is not there in full. */
  lemma TooShort(s: Bytes)
    ensures |s| < FRAME_HEADER_SIZE || |s| < FRAME_HEADER_SIZE + FromBigEndian(s[..3]) ==> FirstFrame(s) == None
  {
    hide FromBigEndian;
  }

  lemma FirstFrameIs(s: Bytes, buffer: Bytes, frame: Frame, length: nat)
    requires buffer <= s && FRAME_HEADER_SIZE + length <= |buffer| && length == FromBigEndian(buffer[..3])
    requires FromBigEndian(buffer[5..9]) < TWO_TO_THE_32
    requires frame == Frame(buffer[3], buffer[4], FromBigEndian(buffer[5..9]), buffer[9..9 + length])
    ensures FirstFrame(s) == Some(frame)
  {
    assert s[..3] == buffer[..3] && s[5..9] == buffer[5..9] && s[9..9 + length] == buffer[9..9 + length];
  }

  function Later(a: Option<Word32>, b: Option<Word32>): Option<Word32> {
    if b.Some? then b else a
  }

  /** The acknowledgement a frame asks for. */
  function Answer(frame: Frame): Option<Frame> {
    if frame.Acknowledges() then None
    else if frame.kind == SETTINGS then Some(Outgoing(SETTINGS, ACK, 0, []))
    else if frame.kind == PING then Some(Outgoing(PING, ACK, 0, [0, 0, 0, 0, 0, 0, 0, 0]))
    else None
  }

  /** The events of handling one frame, when its acknowledgement could be written or not. */
  function Handled(frame: Frame, answered: bool): History {
    if !answered then [Unanswered(frame)]
    else if Answer(frame).Some? then [Received(frame), Sent(Answer(frame).value)]
    else [Received(frame)]
  }

  /** Each counter is the window of the history, as long as it has not overflowed. */
  ghost predicate Tracks(h: History, connection: Int32, stream: Int32) {
    && (ConnectionBounded(h) ==> connection == ConnectionWindow(h))
    && (StreamBounded(h) ==> stream == StreamWindow(h))
  }

  /** After an increment too short to hold its field, nothing is known of the counter it moves. */
  ghost predicate ShortUpdateUnbounds(h: History, frame: Frame) {
    frame.kind == WINDOW_UPDATE && |frame.payload| < 4 ==>
      if frame.stream == 0 then !ConnectionBounded(h) else !StreamBounded(h)
  }

  function ConnectionAfter(frame: Frame, window: Int32): Int32 {
    if frame.kind == WINDOW_UPDATE && |frame.payload| >= 4 && frame.stream == 0
    then Increase(window, Increment(frame.payload))
    else window
  }

  function StreamAfter(frame: Frame, window: Int32): Int32 {
    if frame.kind == WINDOW_UPDATE && |frame.payload| >= 4 && frame.stream != 0
    then Increase(window, Increment(frame.payload))
    else if frame.kind == SETTINGS && !frame.Acknowledges() && InitialWindow(frame.payload).Some?
    then Signed32(InitialWindow(frame.payload).value)
    else window
  }

  lemma IncreaseIsExact(window: Int32, n: Word32)
    requires n < TWO_TO_THE_31 && window + n < TWO_TO_THE_31
    ensures Increase(window, n) == window + n
  {
  }

  lemma DecreaseIsExact(window: Int32, n: nat)
    requires n <= window
    ensures Decrease(window, n) == window - n
  {
  }

  /** The windows stay exact when the frame's effect is applied to them. */
  lemma ArrivalTracks(h: History, e: Event, connection: Int32, stream: Int32)
    requires Tracks(h, connection, stream)
    requires e.Received? || e.Unanswered?
    ensures Tracks(h + [e], ConnectionAfter(e.frame, connection), StreamAfter(e.frame, stream))
    ensures ShortUpdateUnbounds(h + [e], e.frame)
  {
    hide ConnectionBounded, StreamBounded, ConnectionWindow, StreamWindow, Increase, Increment, InitialWindow;
    WindowsAfterArrival(h, e);
    if e.Credits() && e.frame.stream == 0 && ConnectionBounded(h + [e]) {
      IncreaseIsExact(connection, Increment(e.frame.payload));
    }
    if e.Credits() && e.frame.stream != 0 && StreamBounded(h + [e]) {
      IncreaseIsExact(stream, Increment(e.frame.payload));
    }
  }

  /**
   Where two conforming increments overflow the shared counter it turns negative, and a
   write waits although both streams have been credited.
   */
  lemma OverflowStalls()
    ensures var first := Credit(1, 0x7fff_0000).frame;
            var second := Credit(3, 0x1_0000).frame;
            StreamAfter(second, StreamAfter(first, DEFAULT_WINDOW)) == 65535 - TWO_TO_THE_31
  {
    CreditIs(1, 0x7fff_0000);
    CreditIs(3, 0x1_0000);
    hide Credit, Increment;
  }

  lemma HandlingSpendsNothing(frame: Frame, answered: bool)
    requires !answered ==> Answer(frame).Some?
    ensures forall e :: e in Handled(frame, answered) ==> !e.Spends()
  {
  }

  lemma HandlingKeeps(h: History, frame: Frame, answered: bool, connection: Int32, stream: Int32)
    requires Tracks(h, connection, stream)
    requires !answered ==> Answer(frame).Some?
    ensures var g := h + Handled(frame, answered);
            && Tracks(g, ConnectionAfter(frame, connection), StreamAfter(frame, stream))
            && ShortUpdateUnbounds(g, frame)
            && Messages(g) == Messages(h) + Delivered(Received(frame))
            && (Measured(h) && |frame.payload| < LENGTH_LIMIT ==> Measured(g))
            && (SettingsArrived(g) <==> SettingsArrived(h) || (frame.kind == SETTINGS && !frame.Acknowledges()))
            && (EndArrived(g) <==> EndArrived(h) || frame.kind == GOAWAY || frame.kind == RST_STREAM)
            && (Disciplined(g) <==> Disciplined(h))
            && Written(g) == Written(h) +
                 (if answered && Answer(frame).Some? then FrameBytes(Answer(frame).value) else [])
            && Consumed(g) == Consumed(h) + (if answered then FrameBytes(frame) else [])
            && (forall s: Word32 :: DataOn(g, s) == DataOn(h, s))
  {
    hide ConnectionBounded, StreamBounded, ConnectionWindow, StreamWindow, ConnectionAfter, StreamAfter, Written,
         Messages, Measured, Disciplined, Consumed, DataOn, FrameBytes;
    var e := if answered then Received(frame) else Unanswered(frame);
    ArrivalTracks(h, e, connection, stream);
    AfterArrival(h, e);
    if answered && Answer(frame).Some? {
      AfterSending(h + [e], Answer(frame).value);
      assert h + Handled(frame, true) == h + [e] + [Sent(Answer(frame).value)];
    }
  }

  /** 32-bit subtraction. */
  function Decrease(window: Int32, n: nat): Int32 {
    Signed32((Unsigned32(window) - n) % TWO_TO_THE_32)
  }

  /** 32-bit addition of an unsigned word. */
  function Increase(window: Int32, n: Word32): Int32 {
    Signed32((Unsigned32(window) + n) % TWO_TO_THE_32)
  }
}
