/**
 The flow-control windows that the history of an HTTP/2 connection implies.

 The peer grants windows with SETTINGS and WINDOW_UPDATE frames and each DATA frame
 spends them (section 6.9 of RFC 7540). The connection under study keeps one counter for
 all of its streams; `StreamWindow` is that counter and `OwnWindow` is the window the
 standard gives to one stream.
 */
module Http2Windows {
  import opened Words
  import opened Http2Frames
  import opened Http2History

  const DEFAULT_WINDOW: int := 65535

  /** The connection window: 65535, plus the increments on stream 0, minus all DATA sent. */
  function ConnectionWindow(h: History): int {
    if h == [] then DEFAULT_WINDOW else
    var w := ConnectionWindow(Front(h));
    if Last(h).Spends() || (Last(h).Credits() && Last(h).frame.stream == 0) then w + Last(h).Amount() else w
  }

  /** The one counter that serves every stream. */
  function StreamWindow(h: History): int {
    if h == [] then DEFAULT_WINDOW else
    var w := StreamWindow(Front(h));
    if Last(h).Resets() then Last(h).Initial()
    else if Last(h).Spends() || (Last(h).Credits() && Last(h).frame.stream != 0) then w + Last(h).Amount()
    else w
  }

  /** The initial window in force for streams the peer has not yet credited. */
  function InitialSize(h: History): int {
    if h == [] then DEFAULT_WINDOW else
    if Last(h).Resets() then Last(h).Initial() else InitialSize(Front(h))
  }

  /**
   The window of one stream by sections 6.9.1 and 6.9.2 of RFC 7540: a new initial size
   moves it by the difference, its own increments add to it and its own DATA spends it.
   */
  function OwnWindow(h: History, stream: Word32): int {
    if h == [] then DEFAULT_WINDOW else
    var w := OwnWindow(Front(h), stream);
    if Last(h).Resets() then w + Last(h).Initial() - InitialSize(Front(h))
    else if (Last(h).Spends() || Last(h).Credits()) && Last(h).frame.stream == stream then w + Last(h).Amount()
    else w
  }

  /**
   A frame that the flow-control rules of RFC 7540 let the peer send: an increment is a
   31-bit field and a SETTINGS value fits 31 bits.
   */
  predicate WellFormedFrame(e: Event) {
    && (e.Arrives(WINDOW_UPDATE) ==> |e.frame.payload| >= 4 && Increment(e.frame.payload) < TWO_TO_THE_31)
    && (e.Resets() ==> e.Initial() < TWO_TO_THE_31)
  }

  predicate UpdatesConnection(e: Event) {
    e.Arrives(WINDOW_UPDATE) && e.frame.stream == 0
  }

  /**
   The peer kept section 6.9.1: its frames are well-formed and neither the connection
   window nor the window of any stream ever passed 2^31 - 1.
   */
  ghost predicate Conforming(h: History) {
    h == [] ||
    (&& Conforming(Front(h))
     && WellFormedFrame(Last(h))
     && ConnectionWindow(h) < TWO_TO_THE_31
     && forall s: Word32 :: s != 0 ==> OwnWindow(h, s) < TWO_TO_THE_31)
  }

  /** The connection window never left the 32-bit counter that holds it. */
  predicate ConnectionBounded(h: History) {
    h == [] ||
    (&& ConnectionBounded(Front(h))
     && (UpdatesConnection(Last(h)) ==> WellFormedFrame(Last(h)))
     && ConnectionWindow(h) < TWO_TO_THE_31)
  }

  /** The counter shared by the streams never left its 32 bits. */
  predicate StreamBounded(h: History) {
    h == [] ||
    (&& StreamBounded(Front(h))
     && (UpdatesConnection(Last(h)) || WellFormedFrame(Last(h)))
     && StreamWindow(h) < TWO_TO_THE_31)
  }

  /** A DATA frame that each counter allowed, unless it had overflowed, after the history `h`. */
  predicate Allowed(h: History, frame: Frame) {
    && 1 <= |frame.payload| <= MAX_FRAME_SIZE
    && (ConnectionBounded(h) ==> |frame.payload| <= ConnectionWindow(h))
    && (StreamBounded(h) ==> |frame.payload| <= StreamWindow(h))
  }

  /** The largest DATA frame that the counters allow. */
  function Budget(h: History): int {
    Min(Min(ConnectionWindow(h), StreamWindow(h)), MAX_FRAME_SIZE)
  }

  /**
   Every DATA frame after the first `first` events was as large as the counters allowed, or
   carried all that was left of `size` bytes for `stream`, of which it had `start` before.
   */
  ghost predicate Greedy(h: History, first: nat, stream: Word32, start: nat, size: nat) {
    forall i :: first <= i < |h| && h[i].Spends() ==> AsLarge(h[..i], h[i].frame, stream, start, size)
  }

  predicate AsLarge(h: History, frame: Frame, stream: Word32, start: nat, size: nat) {
    ConnectionBounded(h) && StreamBounded(h) ==>
      |frame.payload| == Min(Budget(h), size - (|DataOn(h, stream)| - start))
  }

  lemma NothingSent(h: History, stream: Word32, start: nat, size: nat)
    ensures Greedy(h, |h|, stream, start, size)
  {
  }

  lemma GreedyGrows(h: History, g: History, first: nat, stream: Word32, start: nat, size: nat)
    requires Greedy(h, first, stream, start, size)
    requires h <= g && forall i :: |h| <= i < |g| ==> !g[i].Spends()
    ensures Greedy(g, first, stream, start, size)
  {
    hide AsLarge;
    forall i | first <= i < |g| && g[i].Spends()
      ensures AsLarge(g[..i], g[i].frame, stream, start, size)
    {
      assert g[..i] == h[..i];
    }
  }

  lemma GreedySends(h: History, frame: Frame, first: nat, stream: Word32, start: nat, size: nat)
    requires Greedy(h, first, stream, start, size) && AsLarge(h, frame, stream, start, size)
    ensures Greedy(h + [Sent(frame)], first, stream, start, size)
  {
    hide AsLarge;
    var g := h + [Sent(frame)];
    forall i | first <= i < |g| && g[i].Spends()
      ensures AsLarge(g[..i], g[i].frame, stream, start, size)
    {
      assert g[..i] == h[..i];
      assert i == |h| ==> h[..i] == h;
    }
  }

  /** Every DATA frame of the history was allowed when it was sent. */
  predicate Disciplined(h: History) {
    h == [] || (Disciplined(Front(h)) && (Last(h).Spends() ==> Allowed(Front(h), Last(h).frame)))
  }

  /** All increments received for the connection. */
  function ConnectionCredit(h: History): nat {
    if h == [] then 0 else
    ConnectionCredit(Front(h)) +
    if Last(h).Credits() && Last(h).frame.stream == 0 then Increment(Last(h).frame.payload) else 0
  }

  /** All DATA bytes sent, on any stream. */
  function DataSent(h: History): nat {
    if h == [] then 0 else DataSent(Front(h)) + if Last(h).Spends() then |Last(h).frame.payload| else 0
  }

  /** The connection window is conserved: 65535, plus all it was credited, minus all DATA sent. */
  lemma {:induction false} ConnectionWindowIsConserved(h: History)
    ensures ConnectionWindow(h) == DEFAULT_WINDOW + ConnectionCredit(h) - DataSent(h)
  {
    hide Increment;
    if h != [] {
      ConnectionWindowIsConserved(Front(h));
    }
  }

  /** A disciplined connection never sends more than it was granted. */
  lemma {:induction false} NeverOverspends(h: History)
    requires Disciplined(h) && ConnectionBounded(h)
    ensures DataSent(h) <= DEFAULT_WINDOW + ConnectionCredit(h)
  {
    hide Increment;
    ConnectionWindowIsConserved(h);
    if h != [] {
      NeverOverspends(Front(h));
      ConnectionWindowIsConserved(Front(h));
    }
  }

  lemma DisciplinedAt(h: History, i: nat)
    requires Disciplined(h) && i < |h| && h[i].Spends()
    ensures Allowed(h[..i], h[i].frame)
  {
    if i < |h| - 1 {
      DisciplinedAt(Front(h), i);
      assert Front(h)[..i] == h[..i];
    }
  }

  /** What a frame other than DATA adds to the history when it is sent. */
  lemma AfterSending(h: History, frame: Frame)
    requires frame.kind != DATA
    ensures var g := h + [Sent(frame)];
            && Written(g) == Written(h) + FrameBytes(frame)
            && Consumed(g) == Consumed(h) && Messages(g) == Messages(h) && (Measured(g) <==> Measured(h))
            && (SettingsArrived(g) <==> SettingsArrived(h)) && (EndArrived(g) <==> EndArrived(h))
            && (Disciplined(g) <==> Disciplined(h))
            && (ConnectionBounded(g) ==> ConnectionBounded(h)) && (StreamBounded(g) ==> StreamBounded(h))
            && ConnectionWindow(g) == ConnectionWindow(h) && StreamWindow(g) == StreamWindow(h)
            && forall s: Word32 :: DataOn(g, s) == DataOn(h, s)
  {
    hide FrameBytes;
    assert Front(h + [Sent(frame)]) == h;
  }

  /** What a DATA frame adds to the history when it is sent. */
  lemma AfterData(h: History, frame: Frame)
    requires frame.kind == DATA && Allowed(h, frame)
    ensures var g := h + [Sent(frame)];
            && Written(g) == Written(h) + FrameBytes(frame)
            && Consumed(g) == Consumed(h) && Messages(g) == Messages(h) && (Measured(g) <==> Measured(h))
            && (SettingsArrived(g) <==> SettingsArrived(h)) && (EndArrived(g) <==> EndArrived(h))
            && (Disciplined(g) <==> Disciplined(h))
            && (ConnectionBounded(g) ==> ConnectionBounded(h)) && (StreamBounded(g) ==> StreamBounded(h))
            && ConnectionWindow(g) == ConnectionWindow(h) - |frame.payload|
            && StreamWindow(g) == StreamWindow(h) - |frame.payload|
            && forall s: Word32 ::
                 DataOn(g, s) == if s == frame.stream then DataOn(h, s) + frame.payload else DataOn(h, s)
  {
    hide FrameBytes, Allowed;
    assert Front(h + [Sent(frame)]) == h;
  }

  /** What an arriving frame adds to the history, apart from its effect on the windows. */
  lemma AfterArrival(h: History, e: Event)
    requires e.Received? || e.Unanswered?
    ensures var g := h + [e];
            && Written(g) == Written(h)
            && Consumed(g) == Consumed(h) + (if e.Received? then FrameBytes(e.frame) else [])
            && Messages(g) == Messages(h) + Delivered(e)
            && (Measured(h) && |e.frame.payload| < LENGTH_LIMIT ==> Measured(g))
            && (SettingsArrived(g) <==>
                  SettingsArrived(h) || (e.frame.kind == SETTINGS && !e.frame.Acknowledges()))
            && (EndArrived(g) <==> EndArrived(h) || e.frame.kind == GOAWAY || e.frame.kind == RST_STREAM)
            && (Disciplined(g) <==> Disciplined(h))
            && forall s: Word32 :: DataOn(g, s) == DataOn(h, s)
  {
    hide FrameBytes, Delivered;
    assert Front(h + [e]) == h;
  }

  /** How an arriving frame moves the windows. */
  lemma WindowsAfterArrival(h: History, e: Event)
    requires e.Received? || e.Unanswered?
    ensures ConnectionWindow(h + [e]) ==
            ConnectionWindow(h) + (if e.Credits() && e.frame.stream == 0 then Increment(e.frame.payload) else 0)
    ensures StreamWindow(h + [e]) ==
            (if e.Resets() then e.Initial()
             else StreamWindow(h) + (if e.Credits() && e.frame.stream != 0 then Increment(e.frame.payload) else 0))
    ensures ConnectionBounded(h + [e]) <==>
            && ConnectionBounded(h)
            && (UpdatesConnection(e) ==> WellFormedFrame(e))
            && ConnectionWindow(h + [e]) < TWO_TO_THE_31
    ensures StreamBounded(h + [e]) <==>
            && StreamBounded(h)
            && (UpdatesConnection(e) || WellFormedFrame(e))
            && StreamWindow(h + [e]) < TWO_TO_THE_31
  {
    hide FrameBytes, Delivered, Increment, InitialWindow, WellFormedFrame;
    assert Front(h + [e]) == h;
  }

  // ---------------------------------------------------------------------------
  // One counter for all streams against the window of each
  // ---------------------------------------------------------------------------

  /** An event that moves the window of a stream by its amount. */
  predicate Moves(e: Event) {
    e.Spends() || (e.Credits() && e.frame.stream != 0)
  }

  /** The DATA sent minus the increments received on the streams outside `streams`. */
  function Debt(h: History, streams: set<Word32>): int {
    if h == [] then 0 else
    Debt(Front(h), streams) - if Moves(Last(h)) && Last(h).frame.stream !in streams then Last(h).Amount() else 0
  }

  /** The debt that the streams outside `streams` ran up since the last initial size arrived. */
  function DebtSince(h: History, streams: set<Word32>): int {
    if h == [] || Last(h).Resets() then 0 else
    DebtSince(Front(h), streams) - if Moves(Last(h)) && Last(h).frame.stream !in streams then Last(h).Amount() else 0
  }

  /** The DATA sent minus the increments received on one stream. */
  function DebtOn(h: History, stream: Word32): int {
    if h == [] then 0 else
    DebtOn(Front(h), stream) - if Moves(Last(h)) && Last(h).frame.stream == stream then Last(h).Amount() else 0
  }

  /** What `stream` owed when the last initial size arrived. */
  function OwnAtReset(h: History, stream: Word32): int {
    if h == [] then 0 else
    if Last(h).Resets() then DebtOn(Front(h), stream) else OwnAtReset(Front(h), stream)
  }

  /** A stream's own window is the initial size in force less all that the stream owes. */
  lemma {:induction false} OwnWindowIsInitialLessDebt(h: History, stream: Word32)
    requires stream != 0
    ensures OwnWindow(h, stream) == InitialSize(h) - DebtOn(h, stream)
  {
    hide Increment, InitialWindow;
    if h != [] {
      OwnWindowIsInitialLessDebt(Front(h), stream);
    }
  }

  /** The counter is the initial size in force less what all streams owe since it arrived. */
  lemma {:induction false} CounterIsInitialLessDebt(h: History)
    ensures StreamWindow(h) == InitialSize(h) - DebtSince(h, {})
  {
    hide Increment, InitialWindow;
    if h != [] {
      CounterIsInitialLessDebt(Front(h));
    }
  }

  /**
   The gap between a stream's own window and the counter, on any history: what the other
   streams owe since the last initial size, less what the stream itself owed then.
   */
  lemma {:induction false} GapExactly(h: History, stream: Word32)
    requires stream != 0
    ensures OwnWindow(h, stream) == StreamWindow(h) + DebtSince(h, {stream}) - OwnAtReset(h, stream)
  {
    hide Increment, InitialWindow;
    if h != [] {
      GapExactly(Front(h), stream);
      OwnWindowIsInitialLessDebt(Front(h), stream);
      OwnWindowIsInitialLessDebt(h, stream);
    }
  }

  /**
   The exact condition, on any history: the counter stays within the window of `stream` if
   and only if the other streams owe at least what `stream` owed at the last initial size.
   */
  lemma SafeExactly(h: History, stream: Word32)
    requires stream != 0
    ensures StreamWindow(h) <= OwnWindow(h, stream) <==> OwnAtReset(h, stream) <= DebtSince(h, {stream})
  {
    GapExactly(h, stream);
  }

  /** Every DATA frame on `stream` that the counters allow fits the window of `stream`. */
  ghost predicate FramesFit(h: History, stream: Word32) {
    forall p: Bytes :: Allowed(h, Frame(DATA, NO_FLAGS, stream, p)) ==> |p| <= OwnWindow(h, stream)
  }

  /**
   The exact condition for the frames themselves: an allowed frame can overrun the window
   of its stream if and only if the budget is positive and exceeds that window.
   */
  lemma FramesFitExactly(h: History, stream: Word32)
    requires stream != 0 && ConnectionBounded(h) && StreamBounded(h)
    ensures FramesFit(h, stream) <==>
            Budget(h) <= Max(0, StreamWindow(h) + DebtSince(h, {stream}) - OwnAtReset(h, stream))
  {
    hide ConnectionBounded, StreamBounded, ConnectionWindow, StreamWindow, OwnWindow, DebtSince, OwnAtReset;
    GapExactly(h, stream);
    if Budget(h) > 0 {
      var largest: Bytes := seq(Budget(h), _ => 0);
      assert Allowed(h, Frame(DATA, NO_FLAGS, stream, largest));
      assert FramesFit(h, stream) ==> |largest| <= OwnWindow(h, stream);
    }
  }

  // ---------------------------------------------------------------------------
  // The runs on which the counter is conservative
  // ---------------------------------------------------------------------------

  /** No DATA has been sent and no stream has been credited. */
  predicate Untouched(h: History) {
    h == [] || (Untouched(Front(h)) && !Moves(Last(h)))
  }

  /** No initial window size arrives after the first DATA frame or stream increment. */
  predicate SettledFirst(h: History) {
    h == [] || (SettledFirst(Front(h)) && (Last(h).Resets() ==> Untouched(Front(h))))
  }

  /** At no time has a stream been credited with more than it had sent. */
  ghost predicate NeverOvercredited(h: History) {
    h == [] || (NeverOvercredited(Front(h)) && forall s: Word32 :: DebtOn(h, s) >= 0)
  }

  lemma {:induction false} UntouchedOwes(h: History, streams: set<Word32>, stream: Word32)
    requires Untouched(h)
    ensures Debt(h, streams) == 0 && DebtOn(h, stream) == 0
  {
    if h != [] {
      UntouchedOwes(Front(h), streams, stream);
    }
  }

  /** Where the initial size is settled first, nothing was owed when it arrived. */
  lemma {:induction false} SettledOwes(h: History, streams: set<Word32>, stream: Word32)
    requires SettledFirst(h)
    ensures DebtSince(h, streams) == Debt(h, streams) && OwnAtReset(h, stream) == 0
  {
    hide Increment, InitialWindow;
    if h != [] {
      SettledOwes(Front(h), streams, stream);
      if Last(h).Resets() {
        UntouchedOwes(Front(h), streams, stream);
      }
    }
  }

  /** The gap between a stream's own window and the counter is what the other streams owe. */
  lemma GapIsOtherDebt(h: History, stream: Word32)
    requires SettledFirst(h) && stream != 0
    ensures OwnWindow(h, stream) == StreamWindow(h) + Debt(h, {stream})
  {
    GapExactly(h, stream);
    SettledOwes(h, {stream}, stream);
  }

  lemma {:induction false} SplitDebt(h: History, streams: set<Word32>, stream: Word32)
    requires stream !in streams
    ensures Debt(h, streams) == DebtOn(h, stream) + Debt(h, streams + {stream})
  {
    if h != [] {
      SplitDebt(Front(h), streams, stream);
    }
  }

  function StreamsOf(h: History): set<Word32> {
    set e | e in h && !e.Greeted? :: e.frame.stream
  }

  lemma {:induction false} NobodyOwes(h: History, streams: set<Word32>)
    requires StreamsOf(h) <= streams
    ensures Debt(h, streams) == 0
  {
    if h != [] {
      assert StreamsOf(Front(h)) <= StreamsOf(h);
      assert !Last(h).Greeted? ==> Last(h) in h && Last(h).frame.stream in StreamsOf(h);
      NobodyOwes(Front(h), streams);
    }
  }

  /** Where no stream is credited with more than it sent, no set of streams is. */
  lemma {:induction false} DebtIsNotNegative(h: History, streams: set<Word32>)
    requires forall s: Word32 :: DebtOn(h, s) >= 0
    ensures Debt(h, streams) >= 0
    decreases StreamsOf(h) - streams
  {
    if StreamsOf(h) <= streams {
      NobodyOwes(h, streams);
    } else {
      var s :| s in StreamsOf(h) && s !in streams;
      SplitDebt(h, streams, s);
      assert s in StreamsOf(h) - streams && s !in StreamsOf(h) - (streams + {s});
      DebtIsNotNegative(h, streams + {s});
    }
  }

  lemma {:induction false} ConformingFits(h: History)
    requires Conforming(h)
    ensures ConnectionBounded(h) && InitialSize(h) < TWO_TO_THE_31
  {
    hide ConnectionWindow, OwnWindow, Increment, InitialWindow;
    if h != [] {
      ConformingFits(Front(h));
    }
  }

  /** On these runs a conforming peer cannot overflow the shared counter either. */
  lemma {:induction false} ConformingStaysBounded(h: History)
    requires Conforming(h) && SettledFirst(h) && NeverOvercredited(h)
    ensures StreamBounded(h)
  {
    hide ConnectionWindow, OwnWindow, StreamWindow, Debt, DebtOn, DebtSince, Increment, InitialWindow, InitialSize;
    if h != [] {
      ConformingStaysBounded(Front(h));
      ConformingFits(h);
      CounterIsInitialLessDebt(h);
      SettledOwes(h, {}, 1);
      DebtIsNotNegative(h, {});
    }
  }

  lemma PrefixKeeps(h: History, n: nat)
    requires n <= |h|
    ensures Conforming(h) ==> Conforming(h[..n])
    ensures SettledFirst(h) ==> SettledFirst(h[..n])
  {
    hide ConnectionWindow, OwnWindow, Increment, InitialWindow, Untouched;
    if n < |h| {
      PrefixKeeps(Front(h), n);
      assert Front(h)[..n] == h[..n];
    } else {
      assert h[..n] == h;
    }
  }

  /**
   The shared counter is conservative: on every run with a conforming peer where the
   initial window size is settled before the first DATA frame and stream increment, every
   DATA frame sent fits the window of its stream and of the connection, provided no stream
   had been credited with more than it had sent.
   */
  lemma SharedWindowIsConservative(h: History, i: nat)
    requires Disciplined(h) && Conforming(h) && SettledFirst(h)
    requires i < |h| && h[i].Spends() && h[i].frame.stream != 0
    requires NeverOvercredited(h[..i])
    ensures |h[i].frame.payload| <= OwnWindow(h[..i], h[i].frame.stream)
    ensures |h[i].frame.payload| <= ConnectionWindow(h[..i])
  {
    var stream := h[i].frame.stream;
    PrefixKeeps(h, i);
    DisciplinedAt(h, i);
    ConformingFits(h[..i]);
    ConformingStaysBounded(h[..i]);
    GapIsOtherDebt(h[..i], stream);
    DebtIsNotNegative(h[..i], {stream});
  }

  // ---------------------------------------------------------------------------
  // The runs on which it is not
  // ---------------------------------------------------------------------------

  /**
   When the shared counter overflows although the peer conforms: as soon as the increments
   on all streams together, since the last initial size, exceed what was sent by the rest
   of the 31 bits.
   */
  lemma {:induction false} OverflowsExactly(h: History)
    requires Conforming(h)
    ensures StreamBounded(h) <==>
            forall n :: 0 <= n <= |h| ==> InitialSize(h[..n]) - DebtSince(h[..n], {}) < TWO_TO_THE_31
  {
    hide ConnectionWindow, OwnWindow, StreamWindow, DebtSince, Increment, InitialWindow, InitialSize, WellFormedFrame;
    assert h[..|h|] == h;
    CounterIsInitialLessDebt(h);
    if h != [] {
      OverflowsExactly(Front(h));
      forall n | 0 <= n < |h|
        ensures h[..n] == Front(h)[..n]
      {
      }
    } else {
      StartsAtDefault();
    }
  }

  lemma StartsAtDefault()
    ensures StreamWindow([]) == ConnectionWindow([]) == InitialSize([]) == DEFAULT_WINDOW
    ensures forall s: Word32 :: OwnWindow([], s) == DEFAULT_WINDOW && DebtOn([], s) == 0
  {
  }

  /** An increment of the window of `stream`. */
  function Credit(stream: Word32, n: Word32): Event {
    Received(Frame(WINDOW_UPDATE, NO_FLAGS, stream, BigEndian(n, 4)))
  }

  /** A SETTINGS frame whose one entry is the initial window size. */
  function Settled(size: Word32): Event {
    Received(Frame(SETTINGS, NO_FLAGS, 0, [0, 4] + BigEndian(size, 4)))
  }

  /** One byte of DATA on stream 1. */
  function OneByte(): Event {
    Sent(Frame(DATA, NO_FLAGS, 1, [7]))
  }

  lemma CreditIs(stream: Word32, n: Word32)
    ensures var e := Credit(stream, n);
            e.Credits() && e.Amount() == n && (WellFormedFrame(e) <==> n < TWO_TO_THE_31)
  {
    Pow256Values();
    BigEndianRoundTrip(n, 4);
    var p := BigEndian(n, 4);
    assert p[..4] == p;
  }

  lemma SettledIs(size: Word32)
    ensures var e := Settled(size);
            e.Resets() && e.Initial() == size && (WellFormedFrame(e) <==> size < TWO_TO_THE_31)
  {
    Pow256Values();
    BigEndianRoundTrip(size, 4);
    BigEndianRoundTrip(4, 2);
    var p := [0, 4] + BigEndian(size, 4);
    assert p[..2] == [0, 4] == BigEndian(4, 2);
    assert p[2..6] == BigEndian(size, 4);
    assert InitialWindow(p[6..]) == None;
  }

  /** What one more event adds to the windows and to what is said of a history. */
  lemma Grows(h: History, e: Event)
    ensures var g := h + [e];
            && (forall s: Word32 :: OwnWindow(g, s) == OwnWindow(h, s) +
                  if e.Resets() then e.Initial() - InitialSize(h)
                  else if (e.Spends() || e.Credits()) && e.frame.stream == s then e.Amount() else 0)
            && (forall s: Word32 :: DebtOn(g, s) ==
                  DebtOn(h, s) - if Moves(e) && e.frame.stream == s then e.Amount() else 0)
            && InitialSize(g) == (if e.Resets() then e.Initial() else InitialSize(h))
            && StreamWindow(g) ==
                 (if e.Resets() then e.Initial() else StreamWindow(h) + if Moves(e) then e.Amount() else 0)
            && ConnectionWindow(g) ==
                 ConnectionWindow(h) +
                 (if e.Spends() || (e.Credits() && e.frame.stream == 0) then e.Amount() else 0)
  {
    assert Front(h + [e]) == h;
  }

  /** An increment on stream 3, which sent nothing, lets a DATA frame overrun the window of stream 1. */
  lemma CreditElsewhereOverruns()
    ensures var h := [Settled(0), Credit(3, 1), OneByte()];
            && Conforming(h) && Disciplined(h) && SettledFirst(h) && StreamBounded(h)
            && OwnWindow(h[..2], 1) == 0 < |h[2].frame.payload|
  {
    hide ConnectionBounded, ConnectionWindow, StreamWindow, OwnWindow, InitialSize, DebtOn, Increment, InitialWindow,
         BigEndian;
    StartsAtDefault();
    var a, b, c := Settled(0), Credit(3, 1), OneByte();
    SettledIs(0);
    CreditIs(3, 1);
    Grows([], a);
    assert [] + [a] == [a];
    Grows([a], b);
    Grows([a, b], c);
    assert [a] + [b] == [a, b] == [a, b, c][..2] && [a, b] + [c] == [a, b, c];
  }

  /** An initial size that arrives after DATA hands back what was already spent. */
  lemma LateSettingOverruns()
    ensures var h := [OneByte(), Settled(1), OneByte()];
            && Conforming(h) && Disciplined(h) && NeverOvercredited(h) && StreamBounded(h)
            && OwnWindow(h[..2], 1) == 0 < |h[2].frame.payload|
  {
    hide ConnectionBounded, ConnectionWindow, StreamWindow, OwnWindow, InitialSize, DebtOn, Increment, InitialWindow,
         BigEndian;
    StartsAtDefault();
    var a, b := OneByte(), Settled(1);
    SettledIs(1);
    Grows([], a);
    assert [] + [a] == [a];
    Grows([a], b);
    Grows([a, b], a);
    assert [a] + [b] == [a, b] == [a, b, a][..2] && [a, b] + [a] == [a, b, a];
  }

  /** A conforming peer overflows the shared counter by crediting two streams. */
  lemma TwoCreditsOverflow()
    ensures var h := [Credit(1, 0x7fff_0000), Credit(3, 0x1_0000)];
            Conforming(h) && !StreamBounded(h) && StreamWindow(h) == TWO_TO_THE_31 + 65535
  {
    hide ConnectionBounded, ConnectionWindow, StreamWindow, OwnWindow, InitialSize, DebtOn, Increment, InitialWindow,
         BigEndian;
    StartsAtDefault();
    var a, b := Credit(1, 0x7fff_0000), Credit(3, 0x1_0000);
    CreditIs(1, 0x7fff_0000);
    CreditIs(3, 0x1_0000);
    Grows([], a);
    assert [] + [a] == [a];
    Grows([a], b);
    assert [a] + [b] == [a, b];
  }
}
