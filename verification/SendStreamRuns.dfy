// Whole runs of a sending stream, and what they mean for a receiver.
module SendStreamRuns {
  import opened Protocol
  import opened Wire
  import opened Delivery
  import opened Sending
  import FlowControl
  import R = Reassembly
  import F = FrameSorter

  // What can happen to a stream. Frames in flight are named by their position in the list of
  // those sent and neither acknowledged nor lost.
  datatype Op =
    | WriteOp(p: seq<Byte>, limiter: bool, expired: bool)
    | WakeOp(expired: bool)
    | TryWriteOp(p: seq<Byte>)
    | CloseOp
    | PopOp(maxBytes: nat, answer: int)
    | AckOp(i: nat)
    | LoseOp(i: nat)
    | WindowOp(stream: nat, connection: nat)
    | CancelOp(errorCode: nat)
    | StopSendingOp(errorCode: nat)
    | ControlOp
    | ResetAckOp(i: nat)
    | ResetLoseOp(i: nat)
    | BoundaryOp
    | EnableOp
    | ShutdownOp

  // What the network and the application know.
  datatype Flight = Flight(
    frames: Frames,             // the STREAM frames in flight
    resets: seq<ResetFrame>,    // the RESET frames in flight
    log: Frames,                // all STREAM frames so far
    resetLog: seq<ResetFrame>,  // all RESET frames so far
    acked: Frames,              // the STREAM frames acknowledged
    app: seq<Byte>,             // what write calls that returned have accepted
    pending: seq<Byte>,         // what the last call that had to wait was given
    bounded: bool)              // a reliable boundary was set

  // What the stream shows.
  datatype State = State(
    completed: bool,
    waiting: bool,              // a Write is waiting
    mode: Mode,
    output: Output)
  {
    predicate Whole() {
      !mode.reset && !mode.shutdown
    }

    // Something was lost, or is buffered with credit for it.
    predicate Sendable() {
      || output.lost > 0
      || (output.buffered > 0 && (output.reserved || output.credit < Min(mode.streamWindow, mode.connWindow)))
    }
  }

  datatype Mode = Mode(
    finished: bool,             // the application closed the stream
    reset: bool,
    shutdown: bool,
    queued: Option<ResetFrame>, // the RESET frame to be sent
    supports: bool,             // the peer supports partial delivery
    reliable: nat,              // the reliable size
    streamWindow: nat,          // the credit granted to the stream
    connWindow: nat)            // and to the connection

  datatype Output = Output(
    finSent: bool,
    buffered: nat,              // the bytes buffered,
    reserved: bool,             // with credit taken for them
    lost: nat,                  // the frames to be sent again
    credit: nat)                // the flow control credit taken

  datatype Moment = Moment(net: Flight, state: State)
  {
    // What the application has written, and is about to write.
    function Written(): seq<Byte> {
      net.app + if state.waiting then net.pending else []
    }
  }

  function Look(s: SendStream): State
    reads s, s.flow, s.flow.connection
  {
    State(s.completed, s.writeActive, ModeOf(s), OutputOf(s))
  }

  function ModeOf(s: SendStream): Mode
    reads s`finishedWriting, s`resetErr, s`shutdown, s`queuedReset, s`supportsResetStreamAt, s`reliableSize,
      s.flow`sendWindow, s.flow.connection`sendWindow
  {
    Mode(s.finishedWriting, s.resetErr.Some?, s.shutdown, s.queuedReset, s.supportsResetStreamAt, s.ReliableOffset(),
         s.flow.sendWindow, s.flow.connection.sendWindow)
  }

  function OutputOf(s: SendStream): Output
    reads s`finSent, s`nextFrame, s`nextFrameReserved, s`retransmissionQueue, s.flow`bytesSent
  {
    Output(s.finSent, |s.Buffered()|, s.nextFrameReserved, |s.retransmissionQueue|, s.flow.bytesSent)
  }

  lemma LookFields(s: SendStream)
    ensures var a := Look(s);
      && a.completed == s.completed && a.waiting == s.writeActive && a.mode.finished == s.finishedWriting
      && a.mode.reset == s.resetErr.Some?
      && a.mode.shutdown == s.shutdown && a.mode.queued == s.queuedReset && a.mode.reliable == s.ReliableOffset()
      && a.mode.streamWindow == s.flow.sendWindow && a.mode.connWindow == s.flow.connection.sendWindow
      && a.output.buffered == |s.Buffered()| && a.output.reserved == s.nextFrameReserved
      && a.output.lost == |s.retransmissionQueue|
  {
  }

  lemma LookParts(s: SendStream)
    ensures Look(s) == State(s.completed, s.writeActive, ModeOf(s), OutputOf(s))
  {
  }

  // ------------------------------------------------------------------ effects

  // From a to b, at most p is accepted, from its start.
  ghost predicate Accepts(a: seq<Byte>, b: seq<Byte>, p: seq<Byte>) {
    a <= b && b[|a|..] <= p
  }

  // Nothing changes but what write calls change.
  ghost predicate OnlyWrites(n: Flight, n': Flight, a: State, b: State) {
    && n' == n.(app := n'.app, pending := n'.pending)
    && (!a.mode.reset ==> b.completed == a.completed)
    && b.mode == a.mode && b.output == a.output.(buffered := b.output.buffered)
  }

  // If nothing else limits it, a Write is taken in full, or has to wait if it does not fit the buffer.
  ghost predicate WriteEffect(op: Op, n: Flight, n': Flight, a: State, b: State)
    requires op.WriteOp?
  {
    && OnlyWrites(n, n', a, b)
    && (a.waiting ==> n' == n && b == a)
    && (!a.waiting ==> Accepts(n.app, n'.app, op.p) && (b.waiting ==> n'.app == n.app && n'.pending == op.p))
    && (!a.waiting && a.Whole() && !a.mode.finished && !a.output.reserved && !op.limiter && !op.expired ==>
          if op.p == [] || a.output.buffered + |op.p| <= MAX_PACKET_BUFFER_SIZE
          then !b.waiting && n'.app == n.app + op.p && b.output.buffered == a.output.buffered + |op.p|
          else b.waiting)
  }

  ghost predicate WakeEffect(op: Op, n: Flight, n': Flight, a: State, b: State)
    requires op.WakeOp?
  {
    && OnlyWrites(n, n', a, b) && n'.pending == n.pending
    && (!a.waiting ==> n' == n && b == a)
    && (b.waiting ==> n' == n)
    && (a.waiting && !b.waiting ==> Accepts(n.app, n'.app, n.pending))
    && (a.waiting && (op.expired || !a.Whole()) ==> !b.waiting)
  }

  // All or nothing, by what both windows allow.
  ghost predicate TryEffect(p: seq<Byte>, n: Flight, n': Flight, a: State, b: State) {
    var ok := !a.waiting && a.Whole() && !a.mode.finished
      && (p == [] || |n.app| + |p| <= Min(a.mode.streamWindow, a.mode.connWindow));
    && n' == n.(app := n.app + if ok then p else [])
    && b == a.(completed := b.completed, output := b.output) && (!a.mode.reset ==> b.completed == a.completed)
    && b.output == a.output.(buffered := a.output.buffered + (if ok then |p| else 0),
                             reserved := a.output.reserved || (ok && p != []),
                             credit := b.output.credit)
  }

  // At most one frame. What has credit is sent, and the FIN once all else is.
  ghost predicate PopEffect(op: Op, n: Flight, n': Flight, a: State, b: State)
    requires op.PopOp?
  {
    && n' == n.(frames := n'.frames, log := n'.log)
    && b == a.(output := b.output)
    && n.log <= n'.log && |n'.log| <= |n.log| + 1 && n'.frames == n.frames + n'.log[|n.log|..]
    && (a.output.finSent ==> b.output.finSent)
    && (a.Whole() ==> (b.output.finSent <==> a.output.finSent || (n' != n && n'.log[|n.log|].fin)))
    && (a.Whole() && 32 <= op.maxBytes <= MAX_FRAME_SIZE && a.Sendable() ==>
          n' != n && (a.output.lost == 0 ==> n'.log[|n.log|].data != []))
    && (a.Whole() && a.output.lost == 0 && a.output.buffered == 0 && !a.waiting && op.maxBytes <= MAX_FRAME_SIZE ==>
          (n' != n <==> a.mode.finished && !a.output.finSent))
  }

  // A frame in flight is acknowledged or lost. The acknowledgement of the last one completes the stream.
  ghost predicate FateEffect(op: Op, n: Flight, n': Flight, a: State, b: State)
    requires op.AckOp? || op.LoseOp?
  {
    if op.i >= |n.frames| then n' == n && b == a
    else if op.AckOp? then
      && n' == n.(frames := Remove(n.frames, op.i), acked := n.acked + [n.frames[op.i]])
      && b == a.(completed := b.completed)
      && (!a.mode.reset ==>
          (b.completed <==> a.completed || (n'.frames == [] && a.output.lost == 0 && a.output.finSent)))
    else
      && n' == n.(frames := Remove(n.frames, op.i))
      && b == a.(completed := b.completed, output := a.output.(lost := b.output.lost))
      && (!a.mode.reset ==> b.output.lost == a.output.lost + 1)
  }

  ghost predicate ResetEffect(op: Op, n: Flight, n': Flight, a: State, b: State)
    requires op.ControlOp? || op.ResetAckOp? || op.ResetLoseOp?
  {
    if op.ControlOp? then
      var r := if a.mode.queued.Some? then [a.mode.queued.value] else [];
      n' == n.(resets := n.resets + r, resetLog := n.resetLog + r) && b == a.(mode := a.mode.(queued := None))
    else if op.i >= |n.resets| then n' == n && b == a
    else
      && n' == n.(resets := Remove(n.resets, op.i))
      && if op.ResetAckOp? then b == a.(completed := b.completed)
         else
           var again := n.resets[op.i].reliableSize == a.mode.reliable;
           b == a.(mode := a.mode.(queued := if again then Some(n.resets[op.i]) else a.mode.queued))
  }

  // The first cancellation queues a RESET frame; STOP_SENDING ends partial delivery.
  ghost predicate CancelEffect(op: Op, n: Flight, n': Flight, a: State, b: State)
    requires op.CancelOp? || op.StopSendingOp?
  {
    && n' == n && (a.mode.shutdown ==> b == a)
    && b.waiting == a.waiting
    && b.mode == a.mode.(reset := b.mode.reset, queued := b.mode.queued, reliable := b.mode.reliable)
    && b.output == a.output.(buffered := b.output.buffered, reserved := b.output.reserved, lost := b.output.lost)
    && (!a.mode.shutdown ==> b.mode.reset && b.mode.reliable == if op.CancelOp? then a.mode.reliable else 0)
    && (!a.mode.shutdown && !a.mode.reset ==>
          b.mode.queued.Some? && b.mode.queued.value.errorCode == op.errorCode
            && b.mode.queued.value.reliableSize == b.mode.reliable)
    && b.output.buffered <= a.output.buffered && (b.output.reserved ==> a.output.reserved)
    && (!a.mode.shutdown && !a.mode.reset && b.mode.reliable == 0 ==> b.output.buffered == 0)
    && (!a.mode.reset ==> b.completed == a.completed)
    && (op.CancelOp? && a.mode.reset ==> b == a.(completed := b.completed))
  }

  ghost predicate OtherEffect(op: Op, n: Flight, n': Flight, a: State, b: State) {
    match op
    case CloseOp =>
      n' == n && b == a.(completed := b.completed, mode := a.mode.(finished := a.mode.finished || !a.mode.shutdown))
    case WindowOp(x, y) =>
      && n' == n
      && b == a.(mode := a.mode.(streamWindow := Max(a.mode.streamWindow, x), connWindow := Max(a.mode.connWindow, y)))
    case BoundaryOp =>
      && n' == n.(bounded := true) && b == a.(mode := a.mode.(reliable := b.mode.reliable))
      && (a.Whole() && a.mode.supports && !a.waiting ==> b.mode.reliable == |n.app|)
    case EnableOp =>
      && n' == n && b == a.(mode := a.mode.(supports := b.mode.supports, reliable := b.mode.reliable))
      && (!a.mode.reset ==> b.mode.supports)
    case ShutdownOp =>
      && n' == n && b == a.(mode := a.mode.(shutdown := a.mode.shutdown || !a.mode.finished), output := b.output)
      && b.output == a.output.(buffered := b.output.buffered, reserved := b.output.reserved, lost := b.output.lost)
    case _ => true
  }

  // What the step does.
  ghost predicate Follows(op: Op, n: Flight, n': Flight, a: State, b: State) {
    if op.WriteOp? then WriteEffect(op, n, n', a, b)
    else if op.WakeOp? then WakeEffect(op, n, n', a, b)
    else if op.TryWriteOp? then TryEffect(op.p, n, n', a, b)
    else if op.PopOp? then PopEffect(op, n, n', a, b)
    else if op.AckOp? || op.LoseOp? then FateEffect(op, n, n', a, b)
    else if op.ControlOp? || op.ResetAckOp? || op.ResetLoseOp? then ResetEffect(op, n, n', a, b)
    else if op.CancelOp? || op.StopSendingOp? then CancelEffect(op, n, n', a, b)
    else OtherEffect(op, n, n', a, b)
  }

  // ---------------------------------------------------------------- invariant

  // The stream is the only one of its connection, and its invariants hold.
  ghost predicate Sound(s: SendStream)
    reads s, s.flow, s.flow.connection, s.flow.connection.books.Keys
  {
    s.Valid() && s.flow.Valid() && s.flow.connection.books.Keys == {s.flow}
  }

  ghost predicate Tracks(s: SendStream, n: Flight)
    reads s
  {
    && n.frames == s.inFlight && n.resets == s.resetsInFlight && n.acked == s.acked
    && Carry(n.log, s.sent) && Agrees(s, n.app, n.pending) && FinsAgree(s, n.log)
    && ResetsKnown(s, n.resets, n.resetLog)
    && Tight(s) && Bounded(s, n.bounded)
  }

  // What the stream has sent and will send of the data accepted so far.
  ghost function Kept(s: SendStream): seq<Byte>
    reads s`shutdown, s`sent, s`resetErr, s`nextFrame, s`supportsResetStreamAt, s`reliableSize
  {
    if s.shutdown then s.sent
    else if s.resetErr.None? then s.Accepted()
    else KeptOf(s.sent, s.Buffered(), s.ReliableOffset())
  }

  ghost function KeptOf(sent: seq<Byte>, buffered: seq<Byte>, reliable: nat): seq<Byte> {
    sent + buffered[..Max(0, Min(|buffered|, reliable - |sent|))]
  }

  // What the application has handed over.
  ghost function Given(s: SendStream, app: seq<Byte>): seq<Byte>
    reads s`writeActive, s`dataForWriting, s`writing
  {
    app
    + if s.writeActive && |s.dataForWriting| <= |s.writing| then s.writing[..|s.writing| - |s.dataForWriting|] else []
  }

  // The stream carries what the application wrote, in full unless it was cut short.
  ghost predicate Agrees(s: SendStream, app: seq<Byte>, pending: seq<Byte>)
    reads s`shutdown, s`sent, s`resetErr, s`nextFrame, s`supportsResetStreamAt, s`reliableSize, s`writeActive,
      s`dataForWriting, s`writing, s`goal
  {
    && (s.writeActive ==> s.writing == pending)
    && (s.resetErr.None? && !s.shutdown ==> if s.writeActive then s.goal == app + s.writing else s.Accepted() == app)
    && Kept(s) <= Given(s, app)
  }

  // Every FIN is at the end of the stream; once the stream is reset, at its final size or at the
  // reliable size announced first.
  ghost predicate FinsAgree(s: SendStream, log: Frames)
    reads s`resetErr, s`finSent, s`sent, s`resetsBuilt
  {
    if s.resetErr.None? then FinLast(log, s.finSent, |s.sent|)
    else s.resetsBuilt != [] && FinEither(log, s.resetsBuilt[0].finalSize, CutAt(s.resetsBuilt[0]))
  }

  // Every RESET frame sent, in flight or queued was built by a cancellation.
  ghost predicate ResetsKnown(s: SendStream, resets: seq<ResetFrame>, resetLog: seq<ResetFrame>)
    reads s`queuedReset, s`resetsBuilt
  {
    && (s.queuedReset.Some? ==> s.queuedReset.value in s.resetsBuilt)
    && (forall r :: r in resets || r in resetLog ==> r in s.resetsBuilt)
  }

  // While a Write waits, nothing is buffered that will not be sent.
  ghost predicate Tight(s: SendStream)
    reads s`writeActive, s`resetErr, s`shutdown, s`nextFrame, s`writeOffset, s`supportsResetStreamAt, s`reliableSize
  {
    s.writeActive && s.resetErr.Some? && !s.shutdown ==> !s.Overfull()
  }

  ghost predicate Bounded(s: SendStream, bounded: bool)
    reads s`reliableSize, s`resetsBuilt
  {
    !bounded ==> s.reliableSize == 0 && (s.resetsBuilt != [] ==> s.resetsBuilt[0].reliableSize == 0)
  }

  // What every step does: completion is reported once, and only when everything is delivered.
  twostate predicate Moved(s: SendStream, newly: bool)
    reads s
  {
    && s.completed == (old(s.completed) || newly) && (newly ==> !old(s.completed) && s.nextFrame.None?)
    && (newly && !s.shutdown ==> s.Delivered())
    && old(s.sent) <= s.sent
    && (old(s.resetErr.Some?) ==> s.resetErr.Some? && s.ReliableOffset() <= old(s.ReliableOffset()))
  }

  // A step that can free a stuck stream: the end of the connection, or giving up on partial delivery.
  ghost predicate Frees(s: SendStream, op: Op)
    reads s
  {
    op.ShutdownOp? || (op.StopSendingOp? && s.ReliableOffset() > 0)
  }

  // -------------------------------------------------------------------- steps

  // One step of the application, the network or the peer, if it is possible in this state. The
  // reliable boundary is not moved after a reset. A stream that is stuck stays so; one that was
  // cancelled while a Write waits gets stuck if and only if the Write, when woken, can buffer
  // its data.
  method Step(s: SendStream, op: Op, n: Flight) returns (newly: bool, n': Flight)
    requires Sound(s) && Tracks(s, n)
    modifies s, s.flow, s.flow.connection
    ensures Sound(s) && Tracks(s, n') && Moved(s, newly) && Follows(op, n, n', old(Look(s)), Look(s))
    ensures old(s.Stuck() && !Frees(s, op)) ==> s.Stuck() && !newly
    ensures op.WakeOp? && old(s.writeActive && s.resetErr.Some? && !s.shutdown) ==> (s.Stuck() <==> old(s.Buffers()))
  {
    hide Sound, SendStream.Delivered, Tracks, SendStream.Stuck, SendStream.Buffers, Look, WriteEffect, WakeEffect,
      TryEffect, PopEffect, FateEffect, ResetEffect, CancelEffect, OtherEffect;
    newly, n' := false, n;
    if op.WriteOp? {
      newly, n' := WriteCall(s, op, n);
    } else if op.WakeOp? {
      newly, n' := WakeCall(s, op, n);
    } else if op.TryWriteOp? {
      newly, n' := TryCall(s, op.p, n);
    } else if op.PopOp? {
      n' := PopCall(s, op, n);
    } else if op.AckOp? || op.LoseOp? {
      newly, n' := FateCall(s, op, n);
    } else if op.ControlOp? || op.ResetAckOp? || op.ResetLoseOp? {
      newly, n' := ResetFrameCall(s, op, n);
    } else if op.CancelOp? || op.StopSendingOp? {
      newly := CancelCall(s, op, n);
    } else {
      newly, n' := OtherStep(s, op, n);
    }
    StuckHoldsData(s);
  }

  lemma StuckHoldsData(s: SendStream)
    ensures s.Stuck() ==> s.nextFrame.Some?
  {
  }

  method FateCall(s: SendStream, op: Op, n: Flight) returns (newly: bool, n': Flight)
    requires Sound(s) && Tracks(s, n) && (op.AckOp? || op.LoseOp?)
    modifies s`numOutstandingFrames, s`completed, s`inFlight, s`retransmissionQueue, s`acked
    ensures Sound(s) && Tracks(s, n') && Moved(s, newly) && FateEffect(op, n, n', old(Look(s)), Look(s))
  {
    hide SendStream.Valid, FlowControl.Stream.Valid, SendStream.Delivered, Carry, Tight, FinsAgree, ResetsKnown, Agrees,
      Bounded, FateEffect, Look;
    newly, n' := FateShown(s, op, n);
  }

  method FateShown(s: SendStream, op: Op, n: Flight) returns (newly: bool, n': Flight)
    requires s.Valid() && (op.AckOp? || op.LoseOp?) && n.frames == s.inFlight && n.acked == s.acked
    modifies s`numOutstandingFrames, s`completed, s`inFlight, s`retransmissionQueue, s`acked
    ensures s.Valid() && Moved(s, newly) && FateEffect(op, n, n', old(Look(s)), Look(s))
    ensures n' == n.(frames := s.inFlight, acked := s.acked)
  {
    hide SendStream.Valid, SendStream.Delivered;
    newly, n' := false, n;
    if op.i < |n.frames| {
      n' := n.(frames := Remove(n.frames, op.i));
      if op.AckOp? {
        newly := s.OnAcked(op.i);
        n' := n'.(acked := n.acked + [n.frames[op.i]]);
      } else {
        newly := s.OnLost(n.frames[op.i], op.i);
      }
    }
  }

  method WakeCall(s: SendStream, op: Op, n: Flight) returns (newly: bool, n': Flight)
    requires Sound(s) && Tracks(s, n) && op.WakeOp?
    modifies s`hasLimiter, s`writeLimited, s`cancellationFlagged, s`completed, s`dataForWriting, s`writeActive,
      s`nextFrame
    ensures Sound(s) && Tracks(s, n') && Moved(s, newly) && WakeEffect(op, n, n', old(Look(s)), Look(s))
    ensures old(s.Stuck()) ==> s.Stuck()
    ensures old(s.writeActive && s.resetErr.Some? && !s.shutdown) ==> (s.Stuck() <==> old(s.Buffers()))
  {
    hide SendStream.Valid, FlowControl.Stream.Valid, SendStream.Delivered, Carry, FinsAgree, ResetsKnown, Agrees,
      Bounded, Beyond, SendStream.CanBuffer;
    newly, n' := false, n;
    if s.writeActive {
      var status;
      status, newly := WakeAgreed(s, op.expired, n.app, n.pending);
      if status.Return? {
        n' := n.(app := n.app + n.pending[..status.n]);
      }
    }
  }

  // A Write that is woken, and what it has handed over when it returns.
  method WakeAgreed(s: SendStream, expired: bool, ghost app: seq<Byte>, pending: seq<Byte>)
    returns (status: WriteStatus, newly: bool)
    requires s.Valid() && s.writeActive && Agrees(s, app, pending) && Tight(s)
    modifies s`hasLimiter, s`writeLimited, s`cancellationFlagged, s`completed, s`dataForWriting, s`writeActive,
      s`nextFrame
    ensures s.Valid() && Moved(s, newly) && (status.Wait? <==> s.writeActive)
      && (status.Return? ==> status.n <= |pending|)
    ensures newly ==> s.resetErr.Some?
    ensures Agrees(s, if status.Return? then app + pending[..status.n] else app, pending)
    ensures status.Wait? ==> s.nextFrame == old(s.nextFrame) && old(s.resetErr.None? && !s.shutdown) && !expired
    ensures s.resetErr.Some? && !s.shutdown ==> (s.Stuck() <==> old(s.Buffers() || s.Overfull()))
  {
    hide SendStream.Valid, SendStream.Delivered, Beyond, SendStream.CanBuffer, SendStream.Buffers, SendStream.Content,
      Agrees, Kept, Given;
    ghost var whole, left, kept := s.resetErr.None? && !s.shutdown, |s.dataForWriting|, Kept(s);
    ghost var sent0, buffered0, data0 := s.sent, s.Buffered(), s.dataForWriting;
    BeforeWake(s, app, pending);
    status, newly := s.WriteStep(expired);
    if status.Wait? {
      StillAgrees(s, app, pending, kept);
    } else if whole {
      ReturnedWhole(s, app, pending, status.n);
    } else {
      ReturnedCut(s, app, pending, left, status.n, kept, buffered0, data0);
    }
  }

  lemma BeforeWake(s: SendStream, app: seq<Byte>, pending: seq<Byte>)
    requires s.Valid() && s.writeActive && Agrees(s, app, pending)
    ensures s.writing == pending && |s.dataForWriting| <= |pending| <= |s.goal| && |s.sent| == s.writeOffset
    ensures s.resetErr.None? && !s.shutdown ==> s.goal == app + pending
    ensures Kept(s) == (if s.shutdown then s.sent else if s.resetErr.None? then s.Accepted()
                        else KeptOf(s.sent, s.Buffered(), s.ReliableOffset()))
    ensures Kept(s) <= app + pending[..|pending| - |s.dataForWriting|]
    ensures s.resetErr.Some? && !s.shutdown && |s.sent| < s.ReliableOffset() ==>
      |s.sent| + |s.Buffered()| >= s.ReliableOffset()
  {
    hide SendStream.DeliveryOk, SendStream.CounterOk, SendStream.CreditOk;
  }

  lemma StillAgrees(s: SendStream, app: seq<Byte>, pending: seq<Byte>, kept: seq<Byte>)
    requires s.writeActive && s.writing == pending && |s.dataForWriting| <= |pending| && s.resetErr.None? && !s.shutdown
    requires s.goal == app + pending && kept == s.Accepted() && kept <= app + pending[..|pending| - |s.dataForWriting|]
    ensures Agrees(s, app, pending)
  {
  }

  lemma ReturnedWhole(s: SendStream, app: seq<Byte>, pending: seq<Byte>, n: nat)
    requires !s.writeActive && s.resetErr.None? && !s.shutdown && n <= |pending| <= |s.goal|
    requires s.goal == app + pending && s.Accepted() == s.goal[..|s.goal| - |pending| + n]
    ensures Agrees(s, app + pending[..n], pending)
  {
    assert s.goal[..|s.goal| - |pending| + n] == app + pending[..n];
  }

  lemma ReturnedCut(s: SendStream, app: seq<Byte>, pending: seq<Byte>, left: nat, n: nat, kept: seq<Byte>,
                    buffered0: seq<Byte>, data0: seq<Byte>)
    requires !s.writeActive && (s.resetErr.Some? || s.shutdown) && left <= |pending|
      && |pending| - left <= n <= |pending|
    requires kept == if s.shutdown then s.sent else KeptOf(s.sent, buffered0, s.ReliableOffset())
    requires kept <= app + pending[..|pending| - left]
    requires s.Buffered() == buffered0 || s.Buffered() == buffered0 + data0
    requires !s.shutdown && |s.sent| < s.ReliableOffset() ==> |s.sent| + |buffered0| >= s.ReliableOffset()
    ensures Agrees(s, app + pending[..n], pending)
  {
    assert app + pending[..|pending| - left] <= app + pending[..n];
    assert KeptOf(s.sent, s.Buffered(), s.ReliableOffset()) == KeptOf(s.sent, buffered0, s.ReliableOffset())
      || s.shutdown;
  }

  method WriteCall(s: SendStream, op: Op, n: Flight) returns (newly: bool, n': Flight)
    requires Sound(s) && Tracks(s, n) && op.WriteOp?
    modifies s`hasLimiter, s`writeLimited, s`cancellationFlagged, s`completed, s`dataForWriting, s`writeActive,
      s`writing, s`goal, s`nextFrame
    ensures Sound(s) && Tracks(s, n') && Moved(s, newly) && WriteEffect(op, n, n', old(Look(s)), Look(s))
    ensures old(s.Stuck()) ==> s.Stuck()
    ensures !old(s.writeActive) && s.writeActive && !op.limiter ==>
      s.dataForWriting == op.p && !s.hasLimiter && !s.writeLimited
  {
    hide SendStream.Valid, FlowControl.Stream.Valid, SendStream.Delivered, Carry, FinsAgree, ResetsKnown, Agrees,
      Bounded, Beyond, WriteEffect, Look;
    newly, n' := false, n;
    if s.writeActive {
      NoWrite(s, op, n);
    } else {
      newly, n' := WriteAgreed(s, op, n);
    }
  }

  lemma NoWrite(s: SendStream, op: Op, n: Flight)
    requires op.WriteOp? && s.writeActive
    ensures WriteEffect(op, n, n, Look(s), Look(s))
  {
  }

  method WriteAgreed(s: SendStream, op: Op, n: Flight) returns (newly: bool, n': Flight)
    requires s.Valid() && !s.writeActive && Agrees(s, n.app, n.pending) && op.WriteOp?
    modifies s`hasLimiter, s`writeLimited, s`cancellationFlagged, s`completed, s`dataForWriting, s`writeActive,
      s`writing, s`goal, s`nextFrame
    ensures s.Valid() && Moved(s, newly) && Agrees(s, n'.app, n'.pending)
      && WriteEffect(op, n, n', old(Look(s)), Look(s))
    ensures s.writeActive ==>
      s.resetErr.None? && s.dataForWriting == op.p && s.hasLimiter == op.limiter && !s.writeLimited
    ensures s.resetErr.Some? ==> s.nextFrame == old(s.nextFrame)
    ensures n' == n.(app := n'.app, pending := n'.pending)
  {
    hide SendStream.Valid, SendStream.Delivered, SendStream.Content, WriteEffect, Look, Agrees;
    ghost var whole := s.resetErr.None? && !s.shutdown;
    BeforeWrite(s, n.app, n.pending);
    newly, n' := WriteShown(s, op, n);
    if s.writeActive {
      Waiting(s, n.app, op.p);
    } else if whole {
      ReturnedNow(s, n'.app, n'.pending);
    } else {
      NotWritten(s, n.app, n.pending);
    }
  }

  lemma BeforeWrite(s: SendStream, app: seq<Byte>, pending: seq<Byte>)
    requires Agrees(s, app, pending) && !s.writeActive
    ensures s.resetErr.None? && !s.shutdown ==> s.Accepted() == app
    ensures Kept(s) <= app
  {
  }

  lemma Waiting(s: SendStream, app: seq<Byte>, p: seq<Byte>)
    requires s.Valid() && s.writeActive && s.resetErr.None? && !s.shutdown && s.dataForWriting == s.writing == p
      && s.goal == app + p
    ensures Agrees(s, app, p)
  {
    ActiveGoal(s);
    hide SendStream.Valid;
    assert s.goal[..|s.goal| - |p|] == app;
  }

  lemma ReturnedNow(s: SendStream, app: seq<Byte>, pending: seq<Byte>)
    requires !s.writeActive && s.resetErr.None? && !s.shutdown && s.Accepted() == app
    ensures Agrees(s, app, pending)
  {
  }

  lemma NotWritten(s: SendStream, app: seq<Byte>, pending: seq<Byte>)
    requires !s.writeActive && (s.resetErr.Some? || s.shutdown) && Kept(s) <= app
    ensures Agrees(s, app, pending)
  {
  }

  method WriteShown(s: SendStream, op: Op, n: Flight) returns (newly: bool, n': Flight)
    requires s.Valid() && !s.writeActive && op.WriteOp?
    modifies s`hasLimiter, s`writeLimited, s`cancellationFlagged, s`completed, s`dataForWriting, s`writeActive,
      s`writing, s`goal, s`nextFrame
    ensures s.Valid() && Moved(s, newly) && WriteEffect(op, n, n', old(Look(s)), Look(s))
    ensures s.writeActive ==>
      && s.resetErr.None? && !s.shutdown && s.dataForWriting == op.p && s.hasLimiter == op.limiter && !s.writeLimited
      && n' == n.(pending := op.p) && s.goal == old(s.Accepted()) + op.p && s.writing == op.p
    ensures !s.writeActive ==> n' == n.(app := n'.app)
    ensures s.resetErr.Some? || s.shutdown ==> s.nextFrame == old(s.nextFrame) && n' == n
    ensures !s.writeActive && s.resetErr.None? && !s.shutdown ==>
      s.Accepted() == old(s.Accepted()) + n'.app[|n.app|..] && n.app <= n'.app
  {
    hide SendStream.Valid, SendStream.Delivered, SendStream.CanBuffer, SendStream.Content;
    var status;
    status, newly := s.WriteBegin(op.p, op.limiter, op.expired);
    n' := if status.Return? then n.(app := n.app + op.p[..status.n]) else n.(pending := op.p);
  }

  lemma ActiveGoal(s: SendStream)
    requires s.Valid() && s.writeActive && s.resetErr.None? && !s.shutdown
    ensures |s.dataForWriting| <= |s.writing| <= |s.goal| && s.Accepted() == s.goal[..|s.goal| - |s.dataForWriting|]
  {
    hide SendStream.DeliveryOk, SendStream.CounterOk, SendStream.CreditOk;
    assert s.Content() == s.Accepted() + s.dataForWriting;
  }

  // With a single stream, both levels have sent the same.
  lemma SameSent(f: FlowControl.Stream)
    requires f.Valid() && f.connection.books.Keys == {f}
    ensures f.connection.bytesSent == f.bytesSent
  {
    var books := f.connection.books;
    FlowControl.SumRemove(books, f);
    assert (books - {f}).Keys == {};
    assert |books - {f}| == |(books - {f}).Keys|;
  }

  // What a whole stream has credit for.
  lemma CreditLeft(s: SendStream, n: Flight, k: nat)
    requires Sound(s) && Agrees(s, n.app, n.pending) && !s.writeActive && s.resetErr.None? && !s.shutdown
    ensures s.HasCredit(k) <==> |n.app| + k <= Min(s.flow.sendWindow, s.flow.connection.sendWindow)
  {
    hide SendStream.DeliveryOk, SendStream.CounterOk, FlowControl.Stream.Valid;
    SameSent(s.flow);
  }

  method TryCall(s: SendStream, p: seq<Byte>, n: Flight) returns (newly: bool, n': Flight)
    requires Sound(s) && Tracks(s, n)
    modifies s`cancellationFlagged, s`completed, s`nextFrame, s`nextFrameReserved, s.flow`bytesSent,
      s.flow.connection`bytesSent, s.flow.connection`books
    ensures Sound(s) && Tracks(s, n') && Moved(s, newly) && TryEffect(p, n, n', old(Look(s)), Look(s))
    ensures old(s.Stuck()) ==> s.Stuck()
  {
    hide SendStream.Valid, FlowControl.Stream.Valid, SendStream.Delivered, Carry, FinsAgree, ResetsKnown, Bounded,
      Agrees, Beyond, TryEffect, Look;
    newly, n' := TryAgreed(s, p, n);
  }

  method TryAgreed(s: SendStream, p: seq<Byte>, n: Flight) returns (newly: bool, n': Flight)
    requires Sound(s) && Agrees(s, n.app, n.pending)
    modifies s`cancellationFlagged, s`completed, s`nextFrame, s`nextFrameReserved, s.flow`bytesSent,
      s.flow.connection`bytesSent, s.flow.connection`books
    ensures Sound(s) && Agrees(s, n'.app, n'.pending) && Moved(s, newly) && TryEffect(p, n, n', old(Look(s)), Look(s))
    ensures n' == n.(app := n'.app) && (s.resetErr.Some? ==> s.nextFrame == old(s.nextFrame))
  {
    hide SendStream.Valid, FlowControl.Stream.Valid, SendStream.Delivered, SendStream.HasCredit, TryEffect, Look,
      Agrees;
    if !s.writeActive { BeforeWrite(s, n.app, n.pending); }
    newly, n' := TryShown(s, p, n);
    if !s.writeActive && s.resetErr.None? && !s.shutdown { ReturnedNow(s, n'.app, n'.pending); }
  }

  method TryShown(s: SendStream, p: seq<Byte>, n: Flight) returns (newly: bool, n': Flight)
    requires Sound(s) && Agrees(s, n.app, n.pending)
    modifies s`cancellationFlagged, s`completed, s`nextFrame, s`nextFrameReserved, s.flow`bytesSent,
      s.flow.connection`bytesSent, s.flow.connection`books
    ensures Sound(s) && Moved(s, newly) && TryEffect(p, n, n', old(Look(s)), Look(s))
    ensures n' == n || (s.Accepted() == old(s.Accepted()) + p && n' == n.(app := n.app + p))
    ensures n' == n ==> s.nextFrame == old(s.nextFrame)
    ensures s.writeActive || s.resetErr.Some? || s.shutdown ==> n' == n
  {
    hide SendStream.Valid, FlowControl.Stream.Valid, SendStream.Delivered, SendStream.HasCredit, Agrees, ModeOf;
    LookFields(s);
    if !s.writeActive && s.resetErr.None? && !s.shutdown { CreditLeft(s, n, |p|); }
    var err, hasData;
    err, newly, hasData := s.TryWriteAll(p);
    n' := if err.NoError? then n.(app := n.app + p) else n;
  }

  method PopCall(s: SendStream, op: Op, n: Flight) returns (n': Flight)
    requires Sound(s) && Tracks(s, n) && op.PopOp?
    modifies s`nextFrame, s`nextFrameReserved, s`dataForWriting, s`writeOffset, s`finSent, s`numOutstandingFrames,
      s`sent, s`inFlight, s`writeLimited, s`retransmissionQueue, s.flow`bytesSent, s.flow`lastBlockedAt,
      s.flow.connection`bytesSent, s.flow.connection`books
    ensures Sound(s) && Tracks(s, n') && Moved(s, false) && PopEffect(op, n, n', old(Look(s)), Look(s))
    ensures old(s.Stuck()) ==> s.Stuck()
  {
    hide Sound, Tracks, PopEffect, Look, ModeOf, OutputOf, PopShape, SendStream.Overfull;
    if op.maxBytes > MAX_FRAME_SIZE {
      NoPop(op, n, Look(s));
      return n;
    }
    var frame;
    LookParts(s);
    frame, n' := PopTracked(s, op.maxBytes, op.answer, n);
    LookParts(s);
    Popped(op, n, n', frame, old(Look(s)), Look(s));
  }

  method PopTracked(s: SendStream, maxBytes: nat, answer: int, n: Flight)
    returns (frame: Option<StreamFrame>, n': Flight)
    requires Sound(s) && Tracks(s, n) && maxBytes <= MAX_FRAME_SIZE
    modifies s`nextFrame, s`nextFrameReserved, s`dataForWriting, s`writeOffset, s`finSent, s`numOutstandingFrames,
      s`sent, s`inFlight, s`writeLimited, s`retransmissionQueue, s.flow`bytesSent, s.flow`lastBlockedAt,
      s.flow.connection`bytesSent, s.flow.connection`books
    ensures Sound(s) && Tracks(s, n') && old(s.sent) <= s.sent
      && (s.resetErr.Some? ==> s.Overfull() == old(s.Overfull()))
    ensures n' == if frame.Some? then n.(frames := n.frames + [frame.value], log := n.log + [frame.value]) else n
    ensures PopShape(maxBytes, frame, old(Look(s)), Look(s))
  {
    hide Sound, Carry, CarriesSlice, FinLast, FinEither, SendStream.Overfull, Agrees, Bounded, ResetsKnown, PopShape,
      Look, FinsAgree;
    ghost var sent0, fin0 := s.sent, s.finSent;
    FinsBefore(s, n.log);
    frame := PopAgreed(s, maxBytes, answer, n.app, n.pending);
    n' := if frame.Some? then n.(frames := n.frames + [frame.value], log := n.log + [frame.value]) else n;
    LogPopped(n.log, frame, sent0, s.sent);
    FinsAfter(s, n.log, n'.log, fin0, |sent0|);
  }

  lemma NoPop(op: Op, n: Flight, a: State)
    requires op.PopOp? && op.maxBytes > MAX_FRAME_SIZE
    ensures PopEffect(op, n, n, a, a)
  {
  }

  lemma LastFin(fs: Frames, fin: bool, end: nat)
    requires fs != [] && FinLast(fs, fin, end)
    ensures fs[|fs| - 1].fin ==> fin
  {
  }

  // What a pop that gave frame does to the stream, and when there is one.
  ghost predicate PopShape(maxBytes: nat, frame: Option<StreamFrame>, a: State, b: State) {
    && (a.output.finSent ==> b.output.finSent)
    && (b.output.finSent ==> a.output.finSent || (frame.Some? && frame.value.fin))
    && (a.Whole() && frame.Some? && frame.value.fin ==> b.output.finSent)
    && (a.Whole() && 32 <= maxBytes && a.Sendable() ==>
          frame.Some? && (a.output.lost == 0 ==> frame.value.data != []))
    && (a.Whole() && a.output.lost == 0 && a.output.buffered == 0 && !a.waiting ==>
        (frame.Some? <==> a.mode.finished && !a.output.finSent))
  }

  lemma Popped(op: Op, n: Flight, n': Flight, frame: Option<StreamFrame>, a: State, b: State)
    requires op.PopOp? && PopShape(op.maxBytes, frame, a, b) && b == a.(output := b.output)
    requires n' == if frame.Some? then n.(frames := n.frames + [frame.value], log := n.log + [frame.value]) else n
    ensures PopEffect(op, n, n', a, b)
  {
    assert n'.log[|n.log|..] == if frame.Some? then [frame.value] else [];
  }

  // The next frame, and when there is one.
  method PopAgreed(s: SendStream, maxBytes: nat, answer: int, ghost app: seq<Byte>, ghost pending: seq<Byte>)
    returns (frame: Option<StreamFrame>)
    requires Sound(s) && Agrees(s, app, pending) && maxBytes <= MAX_FRAME_SIZE
    modifies s`nextFrame, s`nextFrameReserved, s`dataForWriting, s`writeOffset, s`finSent, s`numOutstandingFrames,
      s`sent, s`inFlight, s`writeLimited, s`retransmissionQueue, s.flow`bytesSent, s.flow`lastBlockedAt,
      s.flow.connection`bytesSent, s.flow.connection`books
    ensures Sound(s) && Agrees(s, app, pending) && old(s.sent) <= s.sent
    ensures s.resetErr.Some? ==> s.Overfull() == old(s.Overfull())
    ensures old(s.finSent) ==> s.finSent && s.sent == old(s.sent)
    ensures s.shutdown || (s.resetErr.Some? && s.ReliableOffset() == 0) ==>
      frame.None? && s.sent == old(s.sent) && s.finSent == old(s.finSent)
    ensures s.inFlight == old(s.inFlight) + if frame.Some? then [frame.value] else []
    ensures frame.Some? ==> CarriesSlice(frame.value, s.sent)
    ensures PopShape(maxBytes, frame, old(Look(s)), Look(s))
  {
    hide SendStream.Valid, FlowControl.Stream.Valid, CarriesSlice, SendStream.Overfull, SendStream.Content, PopShape,
      Look, Agrees, Kept, Given, SendStream.Buffered;
    ghost var fin0, kept0 := s.finSent, Kept(s);
    ghost var sent0, buffered0, data0 := s.sent, s.Buffered(), s.dataForWriting;
    BeforePop(s, app, pending);
    frame := PopShown(s, maxBytes, answer);
    if fin0 { FinContent(s); }
    AfterPop(s, app, pending, kept0, sent0, buffered0, data0);
  }

  method PopShown(s: SendStream, maxBytes: nat, answer: int) returns (frame: Option<StreamFrame>)
    requires Sound(s) && maxBytes <= MAX_FRAME_SIZE
    modifies s`nextFrame, s`nextFrameReserved, s`dataForWriting, s`writeOffset, s`finSent, s`numOutstandingFrames,
      s`sent, s`inFlight, s`writeLimited, s`retransmissionQueue, s.flow`bytesSent, s.flow`lastBlockedAt,
      s.flow.connection`bytesSent, s.flow.connection`books
    ensures Sound(s) && s.Content() == old(s.Content()) && old(s.sent) <= s.sent
    ensures s.resetErr.Some? ==> s.Overfull() == old(s.Overfull())
    ensures old(s.finSent) ==> s.finSent
    ensures s.resetErr.Some? || s.shutdown ==> s.dataForWriting == old(s.dataForWriting)
    ensures s.resetErr.Some? && !s.shutdown ==> s.sent == old(s.sent) || s.writeOffset <= s.ReliableOffset()
    ensures s.shutdown || (s.resetErr.Some? && s.ReliableOffset() == 0) ==>
      frame.None? && s.sent == old(s.sent) && s.finSent == old(s.finSent)
    ensures s.inFlight == old(s.inFlight) + if frame.Some? then [frame.value] else []
    ensures frame.Some? ==> CarriesSlice(frame.value, s.sent)
    ensures PopShape(maxBytes, frame, old(Look(s)), Look(s))
  {
    hide SendStream.Valid, FlowControl.Stream.Valid, CarriesSlice, SendStream.Overfull, SendStream.Idle,
      SendStream.Content, StreamFrame.Length, FinLast, FinEither, SendStream.Drained, ModeOf, SendStream.Share,
      SendStream.Announces, SendStream.Offers, SendStream.Silent, SendStream.Blank, StreamFrame.MaxDataLen,
      FlowControl.Connection.Valid, Resent, State.Sendable;
    Quiet(s);
    if Look(s).Whole() && 32 <= maxBytes { Progress(s, maxBytes, answer); }
    var r := s.Pop(maxBytes, answer);
    frame := r.frame;
    FlightFins(s);
    if frame.Some? && s.resetErr.None? && !s.shutdown { LastFin(s.inFlight, s.finSent, |s.sent|); }
  }

  // With enough space there is a frame for what is to be sent.
  lemma Progress(s: SendStream, maxBytes: nat, answer: int)
    requires Sound(s) && Look(s).Whole() && 32 <= maxBytes
    ensures s.retransmissionQueue != [] ==>
      !s.Silent() && forall q, frame :: Resent(s.retransmissionQueue, q, maxBytes, frame) ==> frame.Some?
    ensures s.retransmissionQueue == [] && Look(s).Sendable() ==>
      s.Offers() && s.Share(maxBytes, answer) > 0
  {
    hide SendStream.DeliveryOk, SendStream.CounterOk, FlowControl.Stream.Valid;
    SameSent(s.flow);
    if s.retransmissionQueue == [] && Look(s).Sendable() {
      assert s.Blank().MaxDataLen(maxBytes) > 0;
    }
  }

  lemma Quiet(s: SendStream)
    requires s.Valid()
    ensures s.resetErr.None? && !s.shutdown && s.retransmissionQueue == [] && s.Buffered() == [] && !s.writeActive ==>
      s.Drained()
    ensures s.nextFrameReserved ==> !s.writeLimited
    ensures Look(s).Whole() <==> s.resetErr.None? && !s.shutdown
    ensures ModeOf(s).finished == s.finishedWriting
  {
    hide SendStream.DeliveryOk, SendStream.CounterOk, SendStream.CreditOk;
  }

  lemma BeforePop(s: SendStream, app: seq<Byte>, pending: seq<Byte>)
    requires s.Valid() && Agrees(s, app, pending)
    ensures s.resetErr.None? && !s.shutdown ==> s.Content() == app + if s.writeActive then s.writing else []
    ensures s.finSent ==> s.Content() == s.sent
    ensures s.Content() == s.sent + s.Buffered() + s.dataForWriting
    ensures (s.writeActive ==> s.writing == pending) && Kept(s) <= Given(s, app)
    ensures s.resetErr.Some? || s.shutdown ==> Kept(s) == KeptWhenCut(s, s.sent, s.Buffered())
  {
    hide SendStream.DeliveryOk, SendStream.CounterOk, SendStream.CreditOk;
  }

  ghost function KeptWhenCut(s: SendStream, sent: seq<Byte>, buffered: seq<Byte>): seq<Byte>
    reads s`shutdown, s`supportsResetStreamAt, s`reliableSize
  {
    if s.shutdown then sent else KeptOf(sent, buffered, s.ReliableOffset())
  }

  lemma AfterPop(s: SendStream, app: seq<Byte>, pending: seq<Byte>, kept0: seq<Byte>, sent0: seq<Byte>,
                 buffered0: seq<Byte>, data0: seq<Byte>)
    requires s.Valid() && s.Content() == sent0 + buffered0 + data0 && sent0 <= s.sent
    requires s.writeActive ==> s.writing == pending
    requires if s.resetErr.None? && !s.shutdown then s.Content() == app + if s.writeActive then s.writing else []
             else
               && s.dataForWriting == data0 && kept0 == KeptWhenCut(s, sent0, buffered0) <= Given(s, app)
               && (s.sent == sent0 || (!s.shutdown && s.writeOffset <= s.ReliableOffset()))
    ensures Agrees(s, app, pending)
  {
    hide SendStream.Valid, SendStream.Content, Given;
    if s.resetErr.None? && !s.shutdown {
      ContentAgrees(s, app, pending);
    } else {
      CutMoved(s, sent0, buffered0, data0);
    }
  }

  lemma ContentAgrees(s: SendStream, app: seq<Byte>, pending: seq<Byte>)
    requires s.Valid() && s.resetErr.None? && !s.shutdown && (s.writeActive ==> s.writing == pending)
    requires s.Content() == app + if s.writeActive then s.writing else []
    ensures Agrees(s, app, pending)
  {
    hide SendStream.DeliveryOk, SendStream.CounterOk, SendStream.CreditOk;
    assert s.Content() == s.Accepted() + s.dataForWriting;
    if s.writeActive {
      assert s.goal[..|s.goal| - |s.dataForWriting|] == app + s.writing[..|s.writing| - |s.dataForWriting|];
    } else {
      assert s.Accepted() == s.Content() == app;
    }
  }

  // On a stream that was cut short, what is kept does not change.
  lemma KeptMoved(sent0: seq<Byte>, buffered0: seq<Byte>, sent: seq<Byte>, buffered: seq<Byte>, reliable: nat)
    requires sent0 + buffered0 == sent + buffered && sent0 <= sent && (sent == sent0 || |sent| <= reliable)
    ensures KeptOf(sent, buffered, reliable) == KeptOf(sent0, buffered0, reliable)
  {
    var c := sent + buffered;
    assert KeptOf(sent, buffered, reliable) == c[..Max(|sent|, Min(|c|, reliable))];
    assert KeptOf(sent0, buffered0, reliable) == c[..Max(|sent0|, Min(|c|, reliable))];
  }

  lemma CutMoved(s: SendStream, sent0: seq<Byte>, buffered0: seq<Byte>, data0: seq<Byte>)
    requires s.Valid() && s.Content() == sent0 + buffered0 + data0 && s.dataForWriting == data0 && sent0 <= s.sent
    requires s.sent == sent0 || s.writeOffset <= s.ReliableOffset()
    ensures KeptOf(s.sent, s.Buffered(), s.ReliableOffset()) == KeptOf(sent0, buffered0, s.ReliableOffset())
  {
    hide SendStream.DeliveryOk, SendStream.CounterOk, SendStream.CreditOk;
    assert s.sent + s.Buffered() == s.Content()[..|s.Content()| - |data0|] == sent0 + buffered0;
    KeptMoved(sent0, buffered0, s.sent, s.Buffered(), s.ReliableOffset());
  }

  lemma LogPopped(log: Frames, f: Option<StreamFrame>, sent0: seq<Byte>, sent: seq<Byte>)
    requires Carry(log, sent0) && sent0 <= sent && (f.Some? ==> CarriesSlice(f.value, sent))
    ensures Carry(if f.Some? then log + [f.value] else log, sent)
  {
    hide CarriesSlice;
    CarryMore(log, sent0, sent[|sent0|..]);
    assert sent0 + sent[|sent0|..] == sent;
  }

  // Once the FIN was sent, nothing is left to send.
  lemma FinContent(s: SendStream)
    requires s.Valid() && s.finSent
    ensures s.Content() == s.sent
  {
  }

  lemma FlightFins(s: SendStream)
    requires s.Valid()
    ensures s.resetErr.None? && !s.shutdown ==> FinLast(s.inFlight, s.finSent, |s.sent|)
    ensures s.resetErr.Some? ==>
      s.resetsBuilt != [] && FinEither(s.inFlight, s.resetsBuilt[0].finalSize, CutAt(s.resetsBuilt[0]))
    ensures |s.sent| == s.writeOffset
  {
  }

  lemma FinsBefore(s: SendStream, log: Frames)
    requires FinsAgree(s, log)
    ensures s.resetErr.None? ==> FinLast(log, s.finSent, |s.sent|)
    ensures s.resetErr.Some? ==>
      s.resetsBuilt != [] && FinEither(log, s.resetsBuilt[0].finalSize, CutAt(s.resetsBuilt[0]))
  {
  }

  lemma FinsAfter(s: SendStream, log: Frames, more: Frames, fin0: bool, end0: nat)
    requires Sound(s) && (fin0 ==> s.finSent && |s.sent| == end0)
    requires s.resetErr.None? ==> FinLast(log, fin0, end0)
    requires s.resetErr.Some? ==>
      s.resetsBuilt != [] && FinEither(log, s.resetsBuilt[0].finalSize, CutAt(s.resetsBuilt[0]))
    requires more == log || (!s.shutdown && s.inFlight != [] && more == log + [s.inFlight[|s.inFlight| - 1]])
    ensures FinsAgree(s, more)
  {
    FlightFins(s);
    hide SendStream.Valid, FinLast, FinEither;
    if s.resetErr.None? {
      FinsMore(log, more, fin0, end0, s.inFlight, s.finSent, |s.sent|);
    } else {
      EitherMore(log, more, s.inFlight, s.resetsBuilt[0].finalSize, CutAt(s.resetsBuilt[0]));
    }
  }

  lemma FinsMore(log: Frames, more: Frames, fin0: bool, end0: nat, flight: Frames, fin: bool, end: nat)
    requires FinLast(log, fin0, end0) && (fin0 ==> fin && end == end0)
    requires more == log || (flight != [] && more == log + [flight[|flight| - 1]] && FinLast(flight, fin, end))
    ensures FinLast(more, fin, end)
  {
  }

  lemma EitherMore(log: Frames, more: Frames, flight: Frames, a: nat, b: nat)
    requires FinEither(log, a, b) && FinEither(flight, a, b)
    requires more == log || (flight != [] && more == log + [flight[|flight| - 1]])
    ensures FinEither(more, a, b)
  {
  }

  // The RESET frame is handed out, acknowledged or lost.
  method ResetFrameCall(s: SendStream, op: Op, n: Flight) returns (newly: bool, n': Flight)
    requires Sound(s) && Tracks(s, n) && (op.ControlOp? || op.ResetAckOp? || op.ResetLoseOp?)
    modifies s`numOutstandingFrames, s`completed, s`queuedReset, s`resetsInFlight
    ensures Sound(s) && Tracks(s, n') && Moved(s, newly) && ResetEffect(op, n, n', old(Look(s)), Look(s))
  {
    hide SendStream.Valid, FlowControl.Stream.Valid, SendStream.Delivered, Carry, FinsAgree, Tight, Agrees, Bounded,
      ResetEffect, Look;
    newly, n' := ResetShown(s, op, n);
  }

  method ResetShown(s: SendStream, op: Op, n: Flight) returns (newly: bool, n': Flight)
    requires s.Valid() && n.resets == s.resetsInFlight && ResetsKnown(s, n.resets, n.resetLog)
    requires op.ControlOp? || op.ResetAckOp? || op.ResetLoseOp?
    modifies s`numOutstandingFrames, s`completed, s`queuedReset, s`resetsInFlight
    ensures s.Valid() && Moved(s, newly) && ResetEffect(op, n, n', old(Look(s)), Look(s))
    ensures n' == n.(resets := s.resetsInFlight, resetLog := n'.resetLog) && ResetsKnown(s, n'.resets, n'.resetLog)
  {
    hide SendStream.Valid, SendStream.Delivered;
    newly, n' := false, n;
    if op.ControlOp? {
      var r := s.GetControlFrame();
      var more := if r.Some? then [r.value] else [];
      n' := n.(resets := n.resets + more, resetLog := n.resetLog + more);
    } else if op.i < |n.resets| {
      n' := n.(resets := Remove(n.resets, op.i));
      if op.ResetAckOp? {
        newly := s.OnResetAcked(n.resets[op.i], op.i);
      } else {
        s.OnResetLost(n.resets[op.i], op.i);
      }
    }
  }

  method CancelCall(s: SendStream, op: Op, n: Flight) returns (newly: bool)
    requires Sound(s) && Tracks(s, n) && (op.CancelOp? || op.StopSendingOp?)
    modifies s`cancellationFlagged, s`completed, s`resetErr, s`numOutstandingFrames, s`retransmissionQueue, s`nextFrame,
      s`nextFrameReserved, s`queuedReset, s`resetsBuilt, s`reliableSize
    ensures Sound(s) && Tracks(s, n) && Moved(s, newly) && CancelEffect(op, n, n, old(Look(s)), Look(s))
    ensures old(s.Stuck() && !Frees(s, op)) ==> s.Stuck()
  {
    hide SendStream.Valid, FlowControl.Stream.Valid, SendStream.Delivered, Carry, FinLast, FinEither, Agrees,
      CancelEffect, Look;
    BeforeCancel(s, n);
    newly := false;
    if op.CancelOp? {
      newly := CancelAgreed(s, op.errorCode, n);
    } else {
      StopAgreed(s, op.errorCode, n);
    }
    if s.resetErr.Some? && old(s.resetErr.None?) { FinsCut(n.log, s.finSent, |s.sent|, s.resetsBuilt[0]); }
  }

  // What matters of a cancellation for the whole.
  twostate predicate Cancelled(s: SendStream, errorCode: nat)
    reads s
  {
    && old(s.resetsBuilt) <= s.resetsBuilt
    && (s.resetsBuilt == old(s.resetsBuilt) ==> s.queuedReset == old(s.queuedReset))
    && (s.resetsBuilt != old(s.resetsBuilt) ==>
          s.queuedReset.Some? && s.resetsBuilt == old(s.resetsBuilt) + [s.queuedReset.value])
    && (s.shutdown || old(s.resetErr.Some?) ==> s.resetErr == old(s.resetErr))
    && (!s.shutdown ==> s.resetErr.Some?)
    && (!s.shutdown && old(s.resetErr.None?) ==>
          && s.queuedReset.Some? && s.resetsBuilt == old(s.resetsBuilt) + [s.queuedReset.value]
          && s.queuedReset.value.errorCode == errorCode && s.queuedReset.value.reliableSize == s.ReliableOffset()
          && (s.finSent ==> s.queuedReset.value.finalSize == s.writeOffset))
  }

  method CancelAgreed(s: SendStream, errorCode: nat, ghost n: Flight) returns (newly: bool)
    requires s.Valid() && Agrees(s, n.app, n.pending)
    modifies s`cancellationFlagged, s`completed, s`resetErr, s`numOutstandingFrames, s`retransmissionQueue, s`nextFrame,
      s`nextFrameReserved, s`queuedReset, s`resetsBuilt, s`reliableSize
    ensures s.Valid() && Agrees(s, n.app, n.pending) && Moved(s, newly) && Cancelled(s, errorCode)
    ensures CancelEffect(CancelOp(errorCode), n, n, old(Look(s)), Look(s))
    ensures s.reliableSize == old(s.reliableSize) && (s.shutdown ==> unchanged(s))
    ensures old(s.resetErr.None?) && !s.shutdown ==> !s.Overfull()
    ensures old(s.resetErr.Some?) ==> s.nextFrame == old(s.nextFrame)
  {
    hide SendStream.Valid, SendStream.Delivered, SendStream.Overfull, CancelEffect, Look, Cancelled;
    newly := CancelShown(s, errorCode, n);
    if s.resetErr.Some? && old(s.resetErr.None?) {
      KeptCut(old(s.sent), old(s.Buffered()), s.Buffered(), s.ReliableOffset());
    }
  }

  method CancelShown(s: SendStream, errorCode: nat, ghost n: Flight) returns (newly: bool)
    requires s.Valid()
    modifies s`cancellationFlagged, s`completed, s`resetErr, s`numOutstandingFrames, s`retransmissionQueue, s`nextFrame,
      s`nextFrameReserved, s`queuedReset, s`resetsBuilt, s`reliableSize
    ensures s.Valid() && Moved(s, newly) && Cancelled(s, errorCode)
    ensures CancelEffect(CancelOp(errorCode), n, n, old(Look(s)), Look(s))
    ensures s.reliableSize == old(s.reliableSize) && (s.shutdown ==> unchanged(s))
    ensures old(s.resetErr.None?) && !s.shutdown ==>
      s.resetErr.Some? && !s.Overfull() && s.Buffered() <= old(s.Buffered())
    ensures old(s.resetErr.Some?) ==> s.nextFrame == old(s.nextFrame) && s.resetErr.Some?
  {
    hide SendStream.Valid, SendStream.Delivered, FinLast, Crossing, SendStream.Overfull;
    newly := s.CancelWrite(errorCode);
  }

  method StopAgreed(s: SendStream, errorCode: nat, ghost n: Flight)
    requires s.Valid() && Agrees(s, n.app, n.pending)
    modifies s`reliableSize, s`resetErr, s`numOutstandingFrames, s`retransmissionQueue, s`nextFrame,
      s`nextFrameReserved, s`queuedReset, s`resetsBuilt
    ensures s.Valid() && Agrees(s, n.app, n.pending) && Cancelled(s, errorCode)
    ensures CancelEffect(StopSendingOp(errorCode), n, n, old(Look(s)), Look(s))
    ensures s.reliableSize <= old(s.reliableSize) && (!s.shutdown ==> s.ReliableOffset() == 0)
    ensures s.shutdown || (old(s.resetErr.Some?) && old(s.ReliableOffset()) == 0) ==> unchanged(s)
    ensures !s.shutdown && !(old(s.resetErr.Some?) && old(s.ReliableOffset()) == 0) ==>
      s.nextFrame.None? && s.queuedReset.Some? && s.queuedReset.value.reliableSize == 0
  {
    hide SendStream.Valid, SendStream.Reaches;
    s.HandleStopSending(errorCode);
  }

  lemma KeptCut(sent: seq<Byte>, buffered: seq<Byte>, cut: seq<Byte>, reliable: nat)
    requires cut <= buffered
    ensures KeptOf(sent, cut, reliable) <= sent + buffered
  {
  }

  // Nothing is announced yet when a stream is cancelled for the first time.
  lemma BeforeCancel(s: SendStream, n: Flight)
    requires s.Valid() && Tracks(s, n)
    ensures s.resetErr.None? ==> s.resetsBuilt == [] && |s.sent| == s.writeOffset
  {
    hide SendStream.DeliveryOk, SendStream.CounterOk;
  }

  lemma FinsCut(log: Frames, fin: bool, end: nat, r: ResetFrame)
    requires FinLast(log, fin, end) && (fin ==> r.finalSize == end)
    ensures FinEither(log, r.finalSize, CutAt(r))
  {
  }

  method OtherStep(s: SendStream, op: Op, n: Flight) returns (newly: bool, n': Flight)
    requires Sound(s) && Tracks(s, n)
    requires op.CloseOp? || op.WindowOp? || op.BoundaryOp? || op.EnableOp? || op.ShutdownOp?
    modifies s`finishedWriting, s`cancellationFlagged, s`completed, s`reliableSize, s`supportsResetStreamAt, s`shutdown,
      s`retransmissionQueue, s`nextFrame, s`nextFrameReserved, s.flow`sendWindow, s.flow.connection`sendWindow
    ensures Sound(s) && Tracks(s, n') && Moved(s, newly) && OtherEffect(op, n, n', old(Look(s)), Look(s))
    ensures old(s.Stuck() && !Frees(s, op)) ==> s.Stuck()
  {
    hide SendStream.Valid, FlowControl.Stream.Valid, SendStream.Delivered, Carry, FinsAgree, ResetsKnown, Agrees,
      OtherEffect, Look;
    newly, n' := false, n;
    if op.CloseOp? {
      newly := CloseCall(s, n);
    } else if op.WindowOp? {
      RaiseWindows(s, op.stream, op.connection, n);
    } else if op.BoundaryOp? {
      n' := BoundaryCall(s, n);
    } else if op.EnableOp? {
      EnableCall(s, n);
    } else {
      ShutdownCall(s, n);
    }
  }

  method CloseCall(s: SendStream, ghost n: Flight) returns (newly: bool)
    requires s.Valid()
    modifies s`finishedWriting, s`cancellationFlagged, s`completed
    ensures s.Valid() && Moved(s, newly) && OtherEffect(CloseOp, n, n, old(Look(s)), Look(s))
  {
    hide SendStream.Valid, SendStream.Delivered;
    var cancelled;
    cancelled, newly := s.Close();
  }

  // More credit from the peer.
  method RaiseWindows(s: SendStream, stream: nat, connection: nat, ghost n: Flight)
    requires s.Valid() && s.flow.Valid()
    modifies s.flow`sendWindow, s.flow.connection`sendWindow
    ensures s.Valid() && s.flow.Valid() && OtherEffect(WindowOp(stream, connection), n, n, old(Look(s)), Look(s))
  {
    hide SendStream.ShapeOk, SendStream.DeliveryOk, SendStream.CounterOk;
    var a := s.flow.UpdateSendWindow(stream);
    var b := s.flow.connection.UpdateSendWindow(connection);
  }

  method BoundaryCall(s: SendStream, n: Flight) returns (n': Flight)
    requires s.Valid() && Agrees(s, n.app, n.pending)
    modifies s`reliableSize
    ensures s.Valid() && Agrees(s, n.app, n.pending) && n' == n.(bounded := true)
    ensures s.resetErr.Some? ==> s.ReliableOffset() == old(s.ReliableOffset())
    ensures OtherEffect(BoundaryOp, n, n', old(Look(s)), Look(s))
  {
    hide SendStream.Valid, SendStream.CounterOk, SendStream.CountSurvives;
    n' := n.(bounded := true);
    BoundaryShape(s);
    if s.resetErr.None? || !s.supportsResetStreamAt {
      s.SetReliableBoundary();
    }
  }

  method EnableCall(s: SendStream, n: Flight)
    requires s.Valid() && Agrees(s, n.app, n.pending)
    modifies s`supportsResetStreamAt
    ensures s.Valid() && Agrees(s, n.app, n.pending)
    ensures s.resetErr.Some? ==> s.ReliableOffset() == old(s.ReliableOffset())
    ensures OtherEffect(EnableOp, n, n, old(Look(s)), Look(s))
  {
    hide SendStream.Valid, SendStream.CounterOk, SendStream.CountSurvives;
    if s.resetErr.None? || s.reliableSize == 0 {
      s.EnableResetStreamAt();
    }
  }

  method ShutdownCall(s: SendStream, n: Flight)
    requires s.Valid() && Agrees(s, n.app, n.pending)
    modifies s`shutdown, s`retransmissionQueue, s`nextFrame, s`nextFrameReserved
    ensures s.Valid() && Agrees(s, n.app, n.pending) && (old(s.shutdown) ==> s.shutdown)
    ensures !s.shutdown ==> s.nextFrame == old(s.nextFrame)
    ensures OtherEffect(ShutdownOp, n, n, old(Look(s)), Look(s))
  {
    hide SendStream.Valid;
    s.CloseForShutdown();
  }

  lemma BoundaryShape(s: SendStream)
    requires s.Valid()
    ensures s.resetErr.None? && !s.shutdown ==> s.reliableSize <= |s.Accepted()|
  {
    hide SendStream.DeliveryOk, SendStream.CounterOk, SendStream.CreditOk;
  }

  // A stream that is stuck stays so, and does not report completion, whatever happens, except
  // for the end of the connection and STOP_SENDING during partial delivery.
  method StayStuck(s: SendStream, n: Flight, ops: seq<Op>) returns (n': Flight)
    requires Sound(s) && Tracks(s, n) && s.Stuck()
    requires forall i :: 0 <= i < |ops| ==> !ops[i].ShutdownOp? && (ops[i].StopSendingOp? ==> s.ReliableOffset() == 0)
    modifies s, s.flow, s.flow.connection
    ensures Sound(s) && Tracks(s, n') && s.Stuck() && s.completed == old(s.completed)
  {
    hide Sound, Tracks, SendStream.Delivered, Follows;
    n' := n;
    var i := 0;
    while i < |ops|
      invariant 0 <= i <= |ops| && Sound(s) && Tracks(s, n') && s.Stuck()
      invariant s.completed == old(s.completed) && s.ReliableOffset() <= old(s.ReliableOffset())
      decreases |ops| - i
    {
      var newly;
      newly, n' := Step(s, ops[i], n');
      i := i + 1;
    }
  }

  // --------------------------------------------------------------------- runs

  // Every byte below limit is in exactly one of the frames.
  ghost predicate AckedOnce(acked: Frames, limit: nat) {
    forall p: nat :: p < limit ==> Total(acked, CoverAt(p)) == 1
  }

  // Every byte, and the FIN, is in exactly one of the frames, which carry nothing else.
  ghost predicate Complete(acked: Frames, sent: seq<Byte>) {
    && Carry(acked, sent)
    && (forall p: nat :: p < |sent| ==> Total(acked, CoverAt(p)) == 1)
    && Total(acked, Fin()) == 1
  }

  predicate Completes(a: Moment, b: Moment) {
    !a.state.completed && b.state.completed
  }

  // What a stream that completed has delivered: all that the application wrote, or, if it was reset,
  // the part of it below the reliable size.
  ghost predicate Delivers(m: Moment) {
    && (m.state.Whole() ==> Complete(m.net.acked, m.Written()))
    && (m.state.mode.reset && !m.state.mode.shutdown ==>
          && m.state.mode.reliable <= |m.Written()|
          && Carry(m.net.acked, m.Written()) && AckedOnce(m.net.acked, m.state.mode.reliable))
  }

  // No frame ends beyond a final size announced. A FIN is at the final size that a RESET_STREAM_AT
  // announces, or at its reliable size.
  ghost predicate WithinSizes(log: Frames, resetLog: seq<ResetFrame>) {
    forall r, i :: r in resetLog && 0 <= i < |log| ==>
      && log[i].End() <= r.finalSize
      && (log[i].fin && r.reliableSize > 0 ==> log[i].End() == r.finalSize || log[i].End() == r.reliableSize)
  }

  // One RESET frame, though it may be sent more than once. Its final size is the credit taken, and
  // a FIN agrees with it.
  ghost predicate OneReset(resets: seq<ResetFrame>, log: Frames, credit: nat) {
    forall r :: r in resets ==>
      && r == resets[0] && r.reliableSize == 0 && r.finalSize == credit
      && (forall i :: 0 <= i < |log| && log[i].fin ==> log[i].End() == credit)
  }

  // The frames carry bytes that the application wrote, at their place, and end within every final
  // size announced. Without a reliable boundary there is only one RESET frame.
  ghost predicate Proper(m: Moment) {
    && Carry(m.net.log, m.Written()) && WithinSizes(m.net.log, m.net.resetLog)
    && (!m.net.bounded ==> OneReset(m.net.resetLog, m.net.log, m.state.output.credit))
  }

  function Start(window: nat, supports: bool): Moment {
    Moment(Flight([], [], [], [], [], [], [], false),
           State(false, false, Mode(false, false, false, None, supports, 0, window, window),
                 Output(false, 0, false, 0, 0)))
  }

  // The step does what it should; on completion everything was delivered.
  ghost predicate Stepped(op: Op, m: Moment, m': Moment) {
    Follows(op, m.net, m'.net, m.state, m'.state) && (Completes(m, m') ==> Delivers(m'))
  }

  lemma StepDone(op: Op, m: Moment, m': Moment, newly: bool)
    requires Follows(op, m.net, m'.net, m.state, m'.state)
    requires m'.state.completed == (m.state.completed || newly) && (newly ==> Delivers(m'))
    ensures Stepped(op, m, m')
  {
    hide Follows, Delivers;
  }

  // Any run of a stream, step by step: every moment follows from the one before, and is proper. A
  // stream that completes has delivered what it had to.
  method Run(window: nat, supports: bool, ops: seq<Op>) returns (trace: seq<Moment>)
    ensures |trace| == |ops| + 1 && trace[0] == Start(window, supports)
    ensures forall i :: 0 <= i < |ops| ==> Stepped(ops[i], trace[i], trace[i + 1])
    ensures forall i :: 0 <= i <= |ops| ==> Proper(trace[i])
  {
    hide Sound, Tracks, Follows, Completes, Delivers, Proper, Look, Stepped;
    var s := NewStream(window, supports);
    LookFields(s);
    var n := Start(window, supports).net;
    Fresh(s);
    trace := [Moment(n, Look(s))];
    Shown(s, n);
    var i := 0;
    while i < |ops|
      invariant 0 <= i <= |ops| && fresh(s) && fresh(s.flow) && fresh(s.flow.connection)
      invariant Sound(s) && Tracks(s, n) && |trace| == i + 1 && trace[i] == Moment(n, Look(s))
      invariant trace[0] == Start(window, supports)
      invariant forall k :: 0 <= k < i ==> Stepped(ops[k], trace[k], trace[k + 1])
      invariant forall k :: 0 <= k <= i ==> Proper(trace[k])
      decreases |ops| - i
    {
      LookFields(s);
      var newly;
      newly, n := Step(s, ops[i], n);
      LookFields(s);
      Shown(s, n);
      if newly { Reported(s, n); }
      StepDone(ops[i], trace[i], Moment(n, Look(s)), newly);
      trace := trace + [Moment(n, Look(s))];
      i := i + 1;
    }
  }

  // What is shown at any moment.
  lemma Shown(s: SendStream, n: Flight)
    requires Sound(s) && Tracks(s, n)
    ensures Proper(Moment(n, Look(s)))
  {
    hide SendStream.DeliveryOk, SendStream.CounterOk, FlowControl.Stream.Valid, FinLast;
    SentIsWritten(s, n);
    CarryPrefix(n.log, s.sent, Moment(n, Look(s)).Written());
    forall r | r in n.resetLog
      ensures s.resetErr.Some? && |s.sent| <= r.finalSize
        && (r.reliableSize > 0 || !n.bounded ==> r == s.resetsBuilt[0])
    {
      assert r in s.resetsBuilt;
      var k :| 0 <= k < |s.resetsBuilt| && s.resetsBuilt[k] == r;
    }
    forall i | 0 <= i < |n.log|
      ensures n.log[i].End() <= |s.sent|
    {
      assert CarriesSlice(n.log[i], s.sent);
    }
  }

  lemma CarryPrefix(fs: Frames, a: seq<Byte>, b: seq<Byte>)
    requires Carry(fs, a) && a <= b
    ensures Carry(fs, b)
  {
    CarryMore(fs, a, b[|a|..]);
    assert a + b[|a|..] == b;
  }

  // What was sent is what was written.
  lemma SentIsWritten(s: SendStream, n: Flight)
    requires Agrees(s, n.app, n.pending)
    ensures s.sent <= Moment(n, Look(s)).Written()
  {
    assert s.sent <= Kept(s) <= Given(s, n.app) <= Moment(n, Look(s)).Written();
  }

  lemma Reported(s: SendStream, n: Flight)
    requires Sound(s) && Tracks(s, n) && s.nextFrame.None? && (!s.shutdown ==> s.Delivered())
    ensures Delivers(Moment(n, Look(s)))
  {
    hide SendStream.CounterOk, SendStream.CreditOk, FlowControl.Stream.Valid, CoverAt, Total;
    SentIsWritten(s, n);
    CarryPrefix(s.acked, s.sent, Moment(n, Look(s)).Written());
    if s.resetErr.None? && !s.shutdown { AllDelivered(s, n); }
  }

  lemma AllDelivered(s: SendStream, n: Flight)
    requires s.Valid() && s.Delivered() && s.resetErr.None? && !s.shutdown && Agrees(s, n.app, n.pending)
    ensures Complete(s.acked, s.sent) && s.sent == n.app + if s.writeActive then s.writing else []
  {
    hide SendStream.CounterOk, SendStream.CreditOk;
  }

  lemma Fresh(s: SendStream)
    requires s.sent == [] && s.inFlight == [] && s.resetsInFlight == [] && s.acked == [] && s.Accepted() == []
    requires !s.writeActive && s.resetErr.None? && !s.shutdown && s.queuedReset.None? && s.reliableSize == 0
      && s.resetsBuilt == []
    ensures Tracks(s, Flight([], [], [], [], [], [], [], false))
  {
  }

  method NewStream(sendWindow: nat, supportsResetStreamAt: bool) returns (s: SendStream)
    ensures fresh(s) && fresh(s.flow) && fresh(s.flow.connection) && Sound(s)
    ensures s.inFlight == [] && s.resetsInFlight == [] && s.acked == [] && s.sent == [] && s.resetsBuilt == []
    ensures s.Accepted() == [] && s.streamID == 0 && s.writeOffset == 0
    ensures Look(s) == Start(sendWindow, supportsResetStreamAt).state
    ensures s.retransmissionQueue == [] && !s.writeLimited && s.reliableSize == 0 && s.nextFrame.None?
      && s.resetErr.None?
  {
    var flow := NewFlow(sendWindow);
    hide FlowControl.Stream.Valid;
    s := new SendStream(0, flow, supportsResetStreamAt);
    hide SendStream.Valid;
  }

  method NewFlow(sendWindow: nat) returns (flow: FlowControl.Stream)
    ensures fresh(flow) && fresh(flow.connection) && flow.Valid() && flow.connection.books.Keys == {flow}
    ensures flow.bytesSent == 0 && flow.sendWindow == flow.connection.sendWindow == sendWindow
  {
    hide FlowControl.Sum;
    var connection := new FlowControl.Connection(0, 0);
    var updated := connection.UpdateSendWindow(sendWindow);
    flow := new FlowControl.Stream(connection, 0, 0, sendWindow);
  }

  // -------------------------------------------------------------- delivery

  function Pieces(fs: Frames): (ps: seq<Piece>)
    ensures |ps| == |fs| && forall i :: 0 <= i < |fs| ==> ps[i] == Piece(fs[i].offset, fs[i].data)
  {
    seq(|fs|, i requires 0 <= i < |fs| => Piece(fs[i].offset, fs[i].data))
  }

  lemma {:induction false} Covered(fs: Frames, p: nat) returns (k: nat)
    requires Total(fs, CoverAt(p)) > 0
    ensures k < |fs| && Covers(fs[k], p)
  {
    if Covers(fs[0], p) {
      k := 0;
    } else {
      k := Covered(fs[1..], p);
      k := k + 1;
    }
  }

  lemma LogPieces(log: Frames, sent: seq<Byte>)
    requires Carry(log, sent)
    ensures R.SlicesOf(Pieces(log), sent)
  {
    forall i | 0 <= i < |log|
      ensures Pieces(log)[i].SliceIn(sent)
    {
      assert CarriesSlice(log[i], sent);
    }
  }

  lemma AckedPieces(acked: Frames, sent: seq<Byte>)
    requires Complete(acked, sent)
    ensures R.CoverAll(Pieces(acked), |sent|)
  {
    forall p: nat | p < |sent|
      ensures R.Present(Pieces(acked), p)
    {
      var k := Covered(acked, p);
      assert Pieces(acked)[k].Covers(p);
    }
  }

  // A receiver of the frames of a stream, in any order and any number of times, with reads in
  // between, reads a prefix of what was sent, unless too many gaps stop it. One that got every
  // frame it acknowledged has all of the stream when the sender is done.
  method Deliver(ghost log: Frames, ghost acked: Frames, ops: seq<R.Op>, ghost sent: seq<Byte>)
    returns (failed: bool, out: seq<Byte>)
    requires Carry(log, sent) && |sent| <= MAX_BYTE_COUNT && R.OnlySent(ops, Pieces(log))
    ensures !failed ==> out <= sent
    ensures !failed && Complete(acked, sent) && R.AllArrive(ops, Pieces(acked)) ==> out == sent
    ensures failed ==> |sent| >= F.MAX_STREAM_FRAME_SORTER_GAPS
  {
    LogPieces(log, sent);
    if Complete(acked, sent) { AckedPieces(acked, sent); }
    failed, out := R.Deliver(Pieces(log), Pieces(acked), ops, sent);
  }
}
