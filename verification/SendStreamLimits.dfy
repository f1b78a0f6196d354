// Runs in which a sending stream falls short of what one would expect of it.
module SendStreamLimits {
  import opened Protocol
  import opened Wire
  import opened Delivery
  import FlowControl
  import opened Sending
  import opened SendStreamRuns

  // Everything that is buffered fits into the next frame.
  lemma WholeFrame(s: SendStream, maxBytes: nat)
    requires s.Valid() && s.resetErr.None? && !s.shutdown && s.retransmissionQueue == [] && s.nextFrameReserved
    requires |s.Buffered()| + 32 <= maxBytes
    ensures s.Offers() && s.Share(maxBytes, 0) == |s.Buffered()| > 0
  {
    hide SendStream.DeliveryOk, SendStream.CounterOk, SendStream.CreditOk, FlowControl.Stream.Valid;
  }

  // Sends all that is buffered.
  method SendWhole(s: SendStream, maxBytes: nat) returns (f: StreamFrame)
    requires s.Valid() && s.flow.Valid() && s.resetErr.None? && !s.shutdown && s.retransmissionQueue == []
    requires s.nextFrameReserved && |s.Buffered()| + 32 <= maxBytes <= MAX_FRAME_SIZE
    modifies s`nextFrame, s`nextFrameReserved, s`dataForWriting, s`writeOffset, s`finSent, s`numOutstandingFrames,
      s`sent, s`inFlight, s`writeLimited, s`retransmissionQueue, s.flow`bytesSent, s.flow`lastBlockedAt,
      s.flow.connection`bytesSent, s.flow.connection`books
    ensures s.Valid() && s.Content() == old(s.Content()) && s.retransmissionQueue == []
    ensures s.inFlight == old(s.inFlight) + [f] && s.sent == old(s.sent) + f.data
    ensures |f.data| == |old(s.Buffered())| && f.offset == old(s.writeOffset)
    ensures f.fin <==> s.finishedWriting && s.nextFrame.None? && s.dataForWriting == []
  {
    hide SendStream.Valid, FlowControl.Stream.Valid, FlowControl.Connection.Valid, SendStream.Content,
      SendStream.Overfull, SendStream.Idle, StreamFrame.Length, CarriesSlice, SendStream.Offers, SendStream.Share,
      SendStream.Announces, SendStream.Drained, SendStream.Silent, Resent;
    WholeFrame(s, maxBytes);
    var r := s.Pop(maxBytes, 0);
    f := r.frame.value;
  }

  method OneByteInFlight() returns (s: SendStream)
    ensures fresh(s) && s.Valid() && s.supportsResetStreamAt && s.reliableSize == 0 && s.resetErr.None? && !s.shutdown
    ensures |s.inFlight| == 1 && s.sent != []
  {
    hide SendStream.Valid, FlowControl.Stream.Valid, Tracks, Look;
    var n;
    s, n := Filled([1], true, 1);
    LookFields(s);
    Supports(s);
    var f := SendWhole(s, 100);
    assert s.inFlight == [f];
  }

  lemma Supports(s: SendStream)
    requires Look(s).mode == Start(1, true).state.mode
    ensures s.supportsResetStreamAt && s.reliableSize == 0
  {
  }

  method Opened(window: nat, supports: bool) returns (s: SendStream, n: Flight)
    ensures fresh(s) && fresh(s.flow) && fresh(s.flow.connection) && Sound(s) && Tracks(s, n)
    ensures Look(s) == Start(window, supports).state && n == Start(window, supports).net
    ensures s.sent == [] && s.inFlight == [] && s.reliableSize == 0 && s.streamID == 0 && s.writeOffset == 0
  {
    hide SendStream.Valid, FlowControl.Stream.Valid;
    s := NewStream(window, supports);
    Fresh(s);
    n := Start(window, supports).net;
  }

  // Moving the reliable boundary of a stream that was cancelled before: one frame is in flight
  // and tracked again, but the count of outstanding frames is zero. The next acknowledgement
  // makes it negative.
  method BoundaryAfterCancel() returns (s: SendStream)
    ensures s.resetErr.Some? && s.ReliableOffset() > 0 && |s.inFlight| == 1 && s.numOutstandingFrames == 0
      && !s.CounterOk()
  {
    s := OneByteInFlight();
    hide SendStream.Valid, SendStream.CounterOk;
    var newly := s.CancelWrite(7);
    s.SetReliableBoundary();
  }

  // A Write of 600 bytes that waits, because another one filled the buffer.
  method WriteWaiting() returns (s: SendStream, n: Flight)
    ensures fresh(s) && fresh(s.flow) && fresh(s.flow.connection) && Sound(s) && Tracks(s, n)
    ensures s.writeActive && !s.supportsResetStreamAt && s.resetErr.None? && !s.shutdown && !s.completed
    ensures |s.dataForWriting| == 600 && !s.hasLimiter && !s.writeLimited
  {
    hide SendStream.Valid, FlowControl.Stream.Valid, Tracks;
    s, n := Opened(0, false);
    var newly;
    newly, n := WriteCall(s, WriteOp(seq(1000, _ => 0), false, false), n);
    newly, n := WriteCall(s, WriteOp(seq(600, _ => 0), false, false), n);
  }

  // Cancelling a stream while a Write is waiting: the Write is woken, buffers its data and
  // reports success. Whatever happens to the stream after that, except for the end of the
  // connection, it does not complete.
  method CancelDuringWrite(ops: seq<Op>) returns (s: SendStream)
    requires ShutdownOp !in ops
    ensures s.Valid() && s.Stuck() && !s.completed
  {
    hide SendStream.Valid, FlowControl.Stream.Valid, Tracks, SendStream.Delivered;
    var n;
    s, n := WriteWaiting();
    n := CancelAndWake(s, n);
    n := StayStuck(s, n, ops);
  }

  // The cancellation drops what is buffered, so the data of the waiting Write fits the buffer.
  method CancelAndWake(s: SendStream, n: Flight) returns (n': Flight)
    requires Sound(s) && Tracks(s, n)
    requires s.writeActive && !s.supportsResetStreamAt && s.resetErr.None? && !s.shutdown && !s.completed
    requires 0 < |s.dataForWriting| <= MAX_PACKET_BUFFER_SIZE && !s.hasLimiter && !s.writeLimited
    modifies s, s.flow, s.flow.connection
    ensures Sound(s) && Tracks(s, n') && s.Stuck() && s.ReliableOffset() == 0 && !s.completed
  {
    hide SendStream.Valid, FlowControl.Stream.Valid, SendStream.Delivered, Beyond, Tracks, WakeEffect;
    var newly := CancelCall(s, CancelOp(7), n);
    NothingBuffered(s);
    s.BuffersIffFits();
    newly, n' := WakeCall(s, WakeOp(false), n);
    StuckHoldsData(s);
  }

  lemma NothingBuffered(s: SendStream)
    requires s.Valid()
    ensures |s.Buffered()| == 0 ==> s.nextFrame.None?
  {
  }

  // A stream that was closed and whose last frame crosses the reliable boundary: when it is
  // cancelled after that frame was lost, the frame is cut at the boundary and keeps its FIN. It
  // will announce another end of the stream than the RESET_STREAM_AT frame does.
  method CutFin(p: seq<Byte>, q: seq<Byte>) returns (s: SendStream, f: StreamFrame)
    requires p != [] && q != [] && |p| + |q| <= 1000
    ensures s.Valid() && f in s.retransmissionQueue && f.fin
    ensures s.queuedReset.Some?
      && f.End() == s.queuedReset.value.reliableSize == |p| < s.queuedReset.value.finalSize == |p| + |q|
  {
    hide SendStream.Valid, FinLast, FinEither, SendStream.Overfull;
    s := LastFrameLost(p, q);
    assert Crosses(s.retransmissionQueue[0], |p|);
    var newly := s.CancelWrite(7);
    OnlyReset(s);
    var i := FindCut(s.retransmissionQueue, s.finSent, s.queuedReset.value.finalSize, |p|);
    f := s.retransmissionQueue[i];
  }

  lemma OnlyReset(s: SendStream)
    requires s.Valid() && s.resetErr.Some?
    ensures s.resetsBuilt != []
    ensures FinEither(s.retransmissionQueue, s.resetsBuilt[0].finalSize, CutAt(s.resetsBuilt[0]))
  {
    hide SendStream.CounterOk;
  }

  // The frame with the wrong FIN.
  method FindCut(fs: Frames, ghost fin: bool, end: nat, ghost cut: nat) returns (i: nat)
    requires fin && !FinLast(fs, fin, end) && FinEither(fs, end, cut)
    ensures i < |fs| && fs[i].fin && fs[i].End() == cut
  {
    i := 0;
    while !(fs[i].fin && fs[i].End() != end)
      invariant i < |fs| && forall k :: 0 <= k < i ==> !(fs[k].fin && fs[k].End() != end)
      decreases |fs| - i
    {
      i := i + 1;
    }
  }

  method LastFrameLost(p: seq<Byte>, q: seq<Byte>) returns (s: SendStream)
    requires p != [] && q != [] && |p| + |q| <= 1000
    ensures fresh(s) && s.Valid() && !s.shutdown && s.resetErr.None? && s.finSent && s.writeOffset == |p| + |q|
      && s.resetsBuilt == []
    ensures s.ReliableOffset() == |p| && |s.retransmissionQueue| == 1
    ensures s.retransmissionQueue[0].fin && s.retransmissionQueue[0].offset == 0
      && s.retransmissionQueue[0].End() == |p| + |q|
  {
    hide SendStream.Valid, FlowControl.Stream.Valid, FinLast, FinEither, Crosses;
    s := Closed(p, q);
    var f := SendWhole(s, 1200);
    AllOut(s);
    LastFin(s.inFlight, s.finSent, |s.sent|);
    assert s.inFlight == [f];
    var newly := s.OnLost(f, 0);
  }

  lemma AllOut(s: SendStream)
    requires s.Valid() && s.resetErr.None? && !s.shutdown
    ensures |s.sent| == s.writeOffset && FinLast(s.inFlight, s.finSent, |s.sent|) && s.resetsBuilt == []
    ensures |s.sent| == |s.Content()| ==> s.nextFrame.None? && s.dataForWriting == []
  {
  }

  method Closed(p: seq<Byte>, q: seq<Byte>) returns (s: SendStream)
    requires p != [] && q != []
    ensures fresh(s) && fresh(s.flow) && fresh(s.flow.connection) && s.Valid() && s.flow.Valid()
    ensures !s.shutdown && s.resetErr.None? && s.finishedWriting && s.ReliableOffset() == |p| && s.writeOffset == 0
    ensures s.nextFrameReserved && |s.Buffered()| == |p| + |q| && s.retransmissionQueue == [] && s.inFlight == []
      && s.sent == []
    ensures s.dataForWriting == [] && s.streamID == 0
  {
    hide SendStream.Valid, FlowControl.Stream.Valid, Tracks, Look;
    var n;
    s, n := ReliablePart(p, true, |p| + |q|);
    var newly;
    newly, n := TryCall(s, q, n);
    newly := CloseCall(s, n);
    LookFields(s);
    NoData(s);
  }

  // A stream with p written to it, with or without taking credit for it, and a boundary after p.
  method ReliablePart(p: seq<Byte>, reserve: bool, window: nat) returns (s: SendStream, n: Flight)
    requires p != [] && if reserve then |p| <= window else |p| <= MAX_PACKET_BUFFER_SIZE
    ensures fresh(s) && fresh(s.flow) && fresh(s.flow.connection) && Sound(s) && Tracks(s, n) && n.app == p
    ensures !Look(s).completed && !Look(s).waiting && Look(s).mode == Start(window, true).state.mode.(reliable := |p|)
    ensures Look(s).output.buffered == |p| && Look(s).output.reserved == reserve && Look(s).output.lost == 0
    ensures s.sent == [] && s.inFlight == [] && s.writeOffset == 0 && s.streamID == 0
  {
    hide SendStream.Valid, FlowControl.Stream.Valid, Tracks, Look;
    s, n := Filled(p, reserve, window);
    var newly;
    newly, n := OtherStep(s, BoundaryOp, n);
  }

  method Filled(p: seq<Byte>, reserve: bool, window: nat) returns (s: SendStream, n: Flight)
    requires p != [] && if reserve then |p| <= window else |p| <= MAX_PACKET_BUFFER_SIZE
    ensures fresh(s) && fresh(s.flow) && fresh(s.flow.connection) && Sound(s) && Tracks(s, n) && n.app == p
    ensures !Look(s).completed && !Look(s).waiting && Look(s).mode == Start(window, true).state.mode
    ensures Look(s).output.buffered == |p| && Look(s).output.reserved == reserve && Look(s).output.lost == 0
    ensures s.sent == [] && s.inFlight == [] && s.writeOffset == 0 && s.streamID == 0
  {
    hide SendStream.Valid, FlowControl.Stream.Valid, Tracks, Look;
    s, n := Opened(window, true);
    var newly;
    if reserve {
      newly, n := TryCall(s, p, n);
    } else {
      newly, n := WriteCall(s, WriteOp(p, false, false), n);
    }
  }

  lemma NoData(s: SendStream)
    requires s.Valid() && !s.writeActive && s.resetErr.None? && !s.shutdown
    ensures s.dataForWriting == []
  {
  }

  // STOP_SENDING after a RESET_STREAM_AT frame: the second RESET frame announces another final size.
  method TwoFinalSizes(p: seq<Byte>) returns (s: SendStream)
    requires 0 < |p| <= MAX_PACKET_BUFFER_SIZE
    ensures s.Valid() && |s.resetsBuilt| == 2 && s.resetsBuilt[0].finalSize != s.resetsBuilt[1].finalSize
  {
    hide SendStream.Valid, FlowControl.Stream.Valid, Tracks, Look;
    var n;
    s, n := ReliablePart(p, false, 0);
    LookFields(s);
    BeforeReset(s);
    var newly := s.CancelWrite(7);
    WithinReset(s);
    Stop(s);
  }

  lemma BeforeReset(s: SendStream)
    requires s.Valid() && s.resetErr.None?
    ensures s.resetsBuilt == []
  {
  }

  method Stop(s: SendStream)
    requires s.Valid() && s.resetErr.Some? && !s.shutdown && s.ReliableOffset() > 0 && s.writeOffset == 0
      && !s.nextFrameReserved
    requires |s.resetsBuilt| == 1 && s.resetsBuilt[0].finalSize > 0
    modifies s
    ensures s.Valid() && |s.resetsBuilt| == 2 && s.resetsBuilt[0].finalSize != s.resetsBuilt[1].finalSize
  {
    hide SendStream.Valid;
    s.HandleStopSending(8);
  }

  lemma WithinReset(s: SendStream)
    requires s.Valid() && s.resetErr.Some?
    ensures s.resetsBuilt != [] && s.ReliableOffset() <= s.resetsBuilt[0].finalSize
  {
  }
}
