/**
 The bytes of HTTP/2 frames (sections 3.4, 4.1 and 6 of RFC 9113), written out: where the
 fields of a frame stand, what the client opens with, what it answers and what each kind
 of frame does.
 */
module Http2Wire {
  import opened Words
  import opened NetworkOrder
  import opened Http2Frames
  import opened Http2History
  import opened Http2Windows
  import opened Http2Connection

  /** A frame: the length of its payload, its type, its flags, its stream and the payload. */
  lemma FrameLayout(frame: Frame)
    ensures FrameBytes(frame) ==
            Three(|frame.payload|) + [frame.kind, frame.flags] + Four(frame.stream) + frame.payload
  {
    hide BigEndian, Three, Four;
    ThreeIs(|frame.payload|);
    FourIs(frame.stream);
  }

  /** The first frame of any bytes is there if and only if its header and its payload are. */
  lemma FrameExactly(s: Bytes, frame: Frame)
    ensures FirstFrame(s) == Some(frame) <==>
            && |s| >= 9 + |frame.payload| && |frame.payload| == Number24(s, 0)
            && frame.kind == s[3] && frame.flags == s[4] && frame.stream == Number32(s, 5)
            && frame.payload == s[9..9 + |frame.payload|]
  {
    hide FromBigEndian, Number24, Number32;
    if |s| >= 9 {
      FromThree(s[..3]);
      FromFour(s[5..9]);
      Shifted(s);
    }
  }

  lemma Shifted(s: Bytes)
    requires |s| >= 9
    ensures Number24(s[..3], 0) == Number24(s, 0) && Number32(s[5..9], 0) == Number32(s, 5)
  {
  }

  /** The connection preface, a SETTINGS frame of two entries and a WINDOW_UPDATE of the connection. */
  lemma GreetingBytes()
    ensures Written(Greeting()) ==
            [0x50, 0x52, 0x49, 0x20, 0x2a, 0x20, 0x48, 0x54, 0x54, 0x50, 0x2f, 0x32,
             0x2e, 0x30, 0x0d, 0x0a, 0x0d, 0x0a, 0x53, 0x4d, 0x0d, 0x0a, 0x0d, 0x0a] +
            ([0x00, 0x00, 0x0c, 0x04, 0x00, 0x00, 0x00, 0x00, 0x00,
              0x00, 0x03, 0x00, 0x00, 0x00, 0x64, 0x00, 0x04, 0x01, 0x00, 0x00, 0x00] +
             [0x00, 0x00, 0x04, 0x08, 0x00, 0x00, 0x00, 0x00, 0x00, 0x00, 0xff, 0x00, 0x01])
  {
    hide FrameBytes, BigEndian;
    var settings, update := Greeting()[1].frame, Greeting()[2].frame;
    GreetingIs();
    AfterPreface(PREFACE);
    AfterSending([Greeted(PREFACE)], settings);
    AfterSending(Greeting()[..2], update);
    SettingsBytes();
    UpdateBytes();
  }

  lemma SettingsBytes()
    ensures FrameBytes(Greeting()[1].frame) ==
            [0x00, 0x00, 0x0c, 0x04, 0x00, 0x00, 0x00, 0x00, 0x00,
             0x00, 0x03, 0x00, 0x00, 0x00, 0x64, 0x00, 0x04, 0x01, 0x00, 0x00, 0x00]
  {
    hide BigEndian, FrameBytes;
    TwoIs(3);
    TwoIs(4);
    FourIs(100);
    FourIs(0x100_0000);
    FrameLayout(Greeting()[1].frame);
  }

  lemma UpdateBytes()
    ensures FrameBytes(Greeting()[2].frame) ==
            [0x00, 0x00, 0x04, 0x08, 0x00, 0x00, 0x00, 0x00, 0x00, 0x00, 0xff, 0x00, 0x01]
  {
    hide BigEndian, FrameBytes;
    FourIs(0xff_0001);
    FrameLayout(Greeting()[2].frame);
  }

  /** SETTINGS (4) and PING (6) frames whose lowest flag is clear are acknowledged, and nothing else is. */
  lemma AnswerBytes(frame: Frame)
    ensures match Answer(frame)
            case Some(ack) =>
              && frame.flags % 2 == 0
              && (|| (frame.kind == 4 && FrameBytes(ack) == [0, 0, 0, 4, 1, 0, 0, 0, 0])
                  || (frame.kind == 6 && FrameBytes(ack) == [0, 0, 8, 6, 1, 0, 0, 0, 0, 0, 0, 0, 0, 0, 0, 0, 0]))
            case None => frame.flags % 2 == 1 || (frame.kind != 4 && frame.kind != 6)
  {
    hide FrameBytes;
    if Answer(frame).Some? {
      FrameLayout(Answer(frame).value);
    }
  }

  /** What `open`, `write` and `close` put on the wire, and that the reserved bit of the stream is clear. */
  lemma ControlBytes(stream: Word32, payload: Bytes)
    requires |payload| < 0x100_0000
    ensures var id := Four(stream % 0x8000_0000);
            && FrameBytes(Outgoing(HEADERS, END_HEADERS, stream, [])) == [0, 0, 0, 1, 4] + id
            && FrameBytes(Outgoing(DATA, NO_FLAGS, stream, payload)) == Three(|payload|) + [0, 0] + id + payload
            && FrameBytes(Outgoing(GOAWAY, NO_FLAGS, 0, [])) == [0, 0, 0, 7, 0, 0, 0, 0, 0]
  {
    hide FrameBytes;
    FrameLayout(Outgoing(HEADERS, END_HEADERS, stream, []));
    FrameLayout(Outgoing(DATA, NO_FLAGS, stream, payload));
    FrameLayout(Outgoing(GOAWAY, NO_FLAGS, 0, []));
  }

  /**
   What an arriving frame does: DATA (0) that is not empty is a message, WINDOW_UPDATE (8)
   credits its stream, SETTINGS (4) opens the connection, GOAWAY (7) and RST_STREAM (3) end it.
   */
  lemma Effects(h: History, frame: Frame)
    ensures var e := Received(frame);
            && Delivered(e) ==
                 (if frame.kind == 0 && frame.payload != [] then [Message(frame.stream, frame.payload)] else [])
            && (e.Credits() <==> frame.kind == 8 && |frame.payload| >= 4)
            && (e.Credits() ==> e.Amount() == Number32(frame.payload, 0))
            && (SettingsArrived(h + [e]) <==> SettingsArrived(h) || (frame.kind == 4 && frame.flags % 2 == 0))
            && (EndArrived(h + [e]) <==> EndArrived(h) || frame.kind == 7 || frame.kind == 3)
            && (e.Resets() <==> frame.kind == 4 && frame.flags % 2 == 0 && InitialWindow(frame.payload).Some?)
            && (Sent(frame).Spends() <==> frame.kind == 0)
  {
    hide FromBigEndian, InitialWindow;
    assert Front(h + [Received(frame)]) == h;
    if |frame.payload| >= 4 {
      FromFour(frame.payload[..4]);
    }
  }

  /** The entry `k` of a SETTINGS frame is an INITIAL_WINDOW_SIZE (4) of `value`. */
  predicate SetsWindow(settings: Bytes, k: nat, value: Word32) {
    && 6 * k + 6 <= |settings| && settings[6 * k] == 0 && settings[6 * k + 1] == 4
    && Number32(settings, 6 * k + 2) == value
  }

  lemma {:induction false} InitialWindowIs(settings: Bytes)
    ensures InitialWindow(settings).None? ==> forall k: nat, v: Word32 :: !SetsWindow(settings, k, v)
    ensures InitialWindow(settings).Some? ==>
              exists k: nat :: SetsWindow(settings, k, InitialWindow(settings).value) &&
                forall j: nat, v: Word32 :: SetsWindow(settings, j, v) ==> j <= k
  {
    if |settings| >= 6 {
      var rest := settings[6..];
      InitialWindowIs(rest);
      FromTwo(settings[..2]);
      FromFour(settings[2..6]);
      forall k: nat, v: Word32 | k > 0
        ensures SetsWindow(settings, k, v) <==> SetsWindow(rest, k - 1, v)
      {
        LaterEntry(settings, k, v);
      }
      if InitialWindow(rest).Some? {
        var k: nat :| SetsWindow(rest, k, InitialWindow(rest).value) &&
                      forall j: nat, v: Word32 :: SetsWindow(rest, j, v) ==> j <= k;
        assert SetsWindow(settings, k + 1, InitialWindow(rest).value);
        forall j: nat, v: Word32 | SetsWindow(settings, j, v)
          ensures j <= k + 1
        {
          if j > 0 {
            assert SetsWindow(rest, j - 1, v);
          }
        }
      } else if InitialWindow(settings).Some? {
        assert SetsWindow(settings, 0, InitialWindow(settings).value);
      }
    }
  }

  lemma LaterEntry(settings: Bytes, k: nat, value: Word32)
    requires k > 0 && |settings| >= 6
    ensures SetsWindow(settings, k, value) <==> SetsWindow(settings[6..], k - 1, value)
  {
    var rest := settings[6..];
    if 6 * k + 6 <= |settings| {
      var at := 6 * k;
      assert rest[at - 6] == settings[at] && rest[at - 5] == settings[at + 1] && rest[at - 4] == settings[at + 2] &&
             rest[at - 3] == settings[at + 3] && rest[at - 2] == settings[at + 4] && rest[at - 1] == settings[at + 5];
    }
  }

  /** A DATA frame is of at most 16384 bytes, and the windows start at 65535. */
  lemma LargestFrame(h: History, frame: Frame)
    ensures Allowed(h, frame) ==> 1 <= |frame.payload| <= 16384
    ensures ConnectionWindow(h) >= 16384 && StreamWindow(h) >= 16384 ==> Budget(h) == 16384
    ensures ConnectionWindow([]) == StreamWindow([]) == 65535
  {
  }
}
