/**
 HTTP/2 frames: nine header bytes (a 24-bit length, the type, the flags and the stream)
 and the payload.
 */
module Http2Frames {
  import opened Words

  const DATA: Byte := 0x0
  const HEADERS: Byte := 0x1
  const RST_STREAM: Byte := 0x3
  const SETTINGS: Byte := 0x4
  const PING: Byte := 0x6
  const GOAWAY: Byte := 0x7
  const WINDOW_UPDATE: Byte := 0x8

  const NO_FLAGS: Byte := 0x0
  const ACK: Byte := 0x1
  const END_HEADERS: Byte := 0x4

  const MAX_CONCURRENT_STREAMS: Word16 := 0x3
  const INITIAL_WINDOW_SIZE: Word16 := 0x4

  const SETTING_SIZE: nat := 6
  const FRAME_HEADER_SIZE: nat := 9
  const MAX_FRAME_SIZE: nat := 16384
  const LENGTH_LIMIT: nat := 0x100_0000

  datatype Frame = Frame(kind: Byte, flags: Byte, stream: Word32, payload: Bytes) {
    /** The `ACK` flag, the lowest bit. */
    predicate Acknowledges() {
      flags % 2 == 1
    }
  }

  /** The header of a frame: the stream field as it stands on the wire, reserved bit included. */
  function FrameHeader(length: nat, kind: Byte, flags: Byte, stream: Word32): (s: Bytes)
    ensures |s| == FRAME_HEADER_SIZE
  {
    BigEndian(length, 3) + [kind, flags] + BigEndian(stream, 4)
  }

  function FrameBytes(frame: Frame): Bytes {
    FrameHeader(|frame.payload|, frame.kind, frame.flags, frame.stream) + frame.payload
  }

  /** The frame at the start of `s`, if it is there in full. */
  function FirstFrame(s: Bytes): (r: Option<Frame>)
    ensures r.Some? ==> FRAME_HEADER_SIZE + |r.value.payload| <= |s|
  {
    if |s| < FRAME_HEADER_SIZE then None else
    var length := FromBigEndian(s[..3]);
    if |s| < FRAME_HEADER_SIZE + length then None else
    Words256(s[5..9]);
    Some(Frame(s[3], s[4], FromBigEndian(s[5..9]), s[9..9 + length]))
  }

  lemma Words256(s: Bytes)
    requires |s| == 4
    ensures FromBigEndian(s) < TWO_TO_THE_32
  {
    FromBigEndianBound(s);
    Pow256Values();
  }

  /** Frames are self-delimiting: what follows a frame does not change how it is read. */
  lemma FrameBack(frame: Frame, rest: Bytes)
    requires |frame.payload| < LENGTH_LIMIT
    ensures FirstFrame(FrameBytes(frame) + rest) == Some(frame)
  {
    hide FromBigEndian, BigEndian;
    var s := FrameBytes(frame) + rest;
    LengthFits(|frame.payload|);
    BigEndianRoundTrip(|frame.payload|, 3);
    Pow256Values();
    BigEndianRoundTrip(frame.stream, 4);
    assert s[..3] == BigEndian(|frame.payload|, 3);
    assert s[5..9] == BigEndian(frame.stream, 4);
    assert s[9..9 + |frame.payload|] == frame.payload;
  }

  lemma LengthFits(length: nat)
    requires length < LENGTH_LIMIT
    ensures length < Pow256(3)
  {
    Pow256Values();
    assert Pow256(3) == 256 * Pow256(2);
  }

  /** Reading a frame loses nothing: its bytes are the bytes it was read from. */
  lemma FrameForth(s: Bytes)
    requires FirstFrame(s).Some?
    ensures var frame := FirstFrame(s).value;
            && s == FrameBytes(frame) + s[FRAME_HEADER_SIZE + |frame.payload|..]
            && |frame.payload| < LENGTH_LIMIT
  {
    hide FromBigEndian, BigEndian;
    var frame := FirstFrame(s).value;
    BigEndianOf(s[..3]);
    BigEndianOf(s[5..9]);
    FromBigEndianBound(s[..3]);
    Pow256Values();
    assert Pow256(3) == 256 * Pow256(2);
    assert s[..9] == s[..3] + [s[3], s[4]] + s[5..9];
    assert s == s[..9] + s[9..9 + |frame.payload|] + s[9 + |frame.payload|..];
  }

  /** The value the last INITIAL_WINDOW_SIZE entry sets; a trailing partial entry is ignored. */
  function InitialWindow(settings: Bytes): (r: Option<Word32>)
    ensures |settings| < SETTING_SIZE ==> r == None
  {
    if |settings| < SETTING_SIZE then None else
    var later := InitialWindow(settings[SETTING_SIZE..]);
    Words256(settings[2..6]);
    if later.Some? then later else
    if FromBigEndian(settings[..2]) == INITIAL_WINDOW_SIZE then Some(FromBigEndian(settings[2..6])) else None
  }

  /** The increment of a WINDOW_UPDATE frame, read from its first four bytes. */
  function Increment(payload: Bytes): Word32
    requires |payload| >= 4
  {
    Words256(payload[..4]);
    FromBigEndian(payload[..4])
  }
}
