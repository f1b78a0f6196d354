// Whole runs of a receiving stream.
module ReceivingRuns {
  import opened Protocol
  import FlowControl
  import F = FrameSorter
  import R = Reassembly
  import opened Receiving

  datatype Op =
    | FrameOp(data: seq<Byte>, offset: nat, fin: bool)
    | ResetOp(finalSize: nat, reliable: nat)
    | ReadOp(n: nat, deadline: int)
    | CancelOp
    | ShutdownOp

  ghost predicate Legal(op: Op) {
    && (op.FrameOp? ==> op.offset + |op.data| < MAX_BYTE_COUNT)
    && (op.ResetOp? ==> op.reliable <= op.finalSize < MAX_BYTE_COUNT)
  }

  ghost predicate HonestOp(op: Op, S: nat -> Byte) {
    op.FrameOp? ==> F.SliceOf(op.data, op.offset, S)
  }

  datatype Answer = Handles(handled: Handled) | Reads(status: ReadStatus) | Done
  {
    predicate Failed() {
      Handles? && !handled.Ok?
    }

    function Data(): seq<Byte> {
      if Reads? && status.Return? then status.data else []
    }
  }

  // What a stream shows: what was read, the final size if known, the highest offset received, the credit
  // returned, and how it was cancelled or ended.
  datatype Moment = Moment(read: seq<Byte>, final: Option<nat>, highest: nat, credit: nat, reliable: nat, mode: Mode)
  {
    // Reset by the peer, and all data promised has been read.
    predicate Over() {
      mode.remote && |read| >= reliable
    }
  }

  datatype Mode = Mode(local: bool, remote: bool, errorRead: bool, completed: bool, shutdown: bool)

  function Show(s: ReceiveStream, read: seq<Byte>): Moment
    reads s, s.flow`recv
  {
    Moment(read, if s.FinalKnown() then Some(s.finalOffset) else None, s.flow.recv.highestReceived,
           s.flow.recv.bytesRead, s.reliableSize, ModeOf(s))
  }

  ghost function Look(s: ReceiveStream): Moment
    reads s, s.flow`recv
  {
    Show(s, s.read)
  }

  function ModeOf(s: ReceiveStream): Mode
    reads s`cancelledLocally, s`cancelledRemotely, s`errorRead, s`completed, s`shutdown
  {
    Mode(s.cancelledLocally, s.cancelledRemotely, s.errorRead, s.completed, s.shutdown)
  }

  // ------------------------------------------------------------------ effects

  // Data up to end, the end of the stream if fin, is what the peer may send.
  predicate Acceptable(window: nat, m: Moment, end: nat, fin: bool) {
    && (m.final.Some? ==> end <= m.highest) && (fin ==> m.highest <= end)
    && (m.highest < end ==> end <= window)
  }

  predicate Completes(m: Moment, m': Moment) {
    !m.mode.completed && m'.mode.completed
  }

  // A frame that is accepted.
  ghost predicate FrameEffect(op: Op, m: Moment, m': Moment)
    requires op.FrameOp?
  {
    var end := op.offset + |op.data|;
    if m.mode.shutdown then m' == m
    else
      && m' == m.(final := if op.fin then Some(end) else m.final, highest := Max(m.highest, end),
                  credit := if Completes(m, m') then m'.highest else m.credit, mode := m'.mode)
      && m'.mode == m.mode.(completed := m'.mode.completed)
  }

  // A reset that is accepted: the first one sets the reliable size, later ones can lower it.
  ghost predicate ResetEffect(op: Op, m: Moment, m': Moment)
    requires op.ResetOp?
  {
    if m.mode.shutdown then m' == m
    else
      var lower := (!m.mode.remote && m.reliable == 0) || op.reliable < m.reliable;
      && m' == m.(final := Some(op.finalSize), highest := Max(m.highest, op.finalSize),
                  reliable := if lower then op.reliable else m.reliable,
                  credit := if |m.read| >= m'.reliable then m'.highest else m.credit, mode := m'.mode)
      && m'.mode == m.mode.(remote := m.mode.remote || !m.mode.local, completed := m'.mode.completed)
  }

  // Data is read in order. Errors have their reasons, and completion returns all credit.
  ghost predicate ReadEffect(op: Op, m: Moment, m': Moment, r: ReadStatus)
    requires op.ReadOp?
  {
    && m' == m.(read := m'.read, credit := m'.credit, mode := m'.mode)
    && m'.read == m.read + (if r.Return? then r.data else [])
    && m'.mode == m.mode.(errorRead := m.mode.errorRead || (r.Return? && (r.err.Eof? || r.err.Canceled?)),
                          completed := m'.mode.completed)
    && (m.mode.local || m.mode.shutdown ==> m'.read == m.read && m'.credit == m.credit)
    && (Completes(m, m') ==> m'.credit == m'.highest)
    && (r.Return? ==>
          && |r.data| <= op.n
          && (r.err.Eof? ==> m'.final == Some(|m'.read|)) && (r.err.Canceled? ==> m.mode.local || m'.Over())
          && (r.err.ShutdownError? ==> m.mode.shutdown) && (r.err.DeadlineError? ==> 0 <= op.deadline))
  }

  ghost predicate CancelEffect(m: Moment, m': Moment) {
    && m' == m.(credit := if Completes(m, m') then m.highest else m.credit, mode := m'.mode)
    && m'.mode == m.mode.(local := m.mode.local || !m.mode.shutdown, completed := m'.mode.completed)
  }

  // What an operation that succeeds does.
  ghost predicate Effect(op: Op, m: Moment, m': Moment, a: Answer) {
    match op
    case FrameOp(_, _, _) => a == Handles(Handled.Ok) && FrameEffect(op, m, m')
    case ResetOp(_, _) => a == Handles(Handled.Ok) && ResetEffect(op, m, m')
    case ReadOp(_, _) => a.Reads? && ReadEffect(op, m, m', a.status)
    case CancelOp => a.Done? && CancelEffect(m, m')
    case ShutdownOp => a.Done? && m' == m.(mode := m.mode.(shutdown := true))
  }

  // The frame or reset is not acceptable.
  ghost predicate Refused(window: nat, op: Op, m: Moment) {
    && !m.mode.shutdown
    && ((op.FrameOp? && !Acceptable(window, m, op.offset + |op.data|, op.fin))
        || (op.ResetOp? && !Acceptable(window, m, op.finalSize, true)))
  }

  // How reading, cancellation, credit and completion go together. Completion has been reported if and only if
  // the final size is known and the stream was cancelled or its error read. Then all credit was returned, unless
  // the stream was cancelled before a reset that promised more than was read.
  ghost predicate Proper(m: Moment) {
    && |m.read| <= m.highest && m.credit <= m.highest
    && (m.final.Some? ==> m.final.value == m.highest)
    && (m.mode.remote || m.reliable > 0 ==> m.final.Some?)
    && (m.final.None? || (!m.mode.local && !m.Over()) ==> m.credit == |m.read|)
    && (m.Over() ==> m.credit == m.highest)
    && (m.mode.errorRead ==> m.mode.local || (m.final.Some? && m.credit == m.highest))
    && (m.mode.completed <==> m.final.Some? && (m.mode.local || m.mode.errorRead))
    && (m.mode.completed ==> m.credit == m.highest || (m.mode.local && !m.mode.remote && |m.read| < m.reliable))
  }

  // Credit is left behind at completion if and only if a reset that promises more than was read completes a stream
  // that the application had cancelled before.
  lemma LeaksWhen(op: Op, m: Moment, m': Moment, a: Answer)
    requires Legal(op) && Effect(op, m, m', a) && Proper(m) && Proper(m') && Completes(m, m')
    ensures m'.credit < m'.highest <==> op.ResetOp? && op.reliable > |m.read|
    ensures m'.credit < m'.highest ==> m.mode.local
  {
  }

  // ----------------------------------------------------------------- received

  ghost predicate Carries(op: Op, p: nat) {
    op.FrameOp? && op.offset <= p < op.offset + |op.data|
  }

  // Byte p was in one of the frames.
  ghost predicate Received(ops: seq<Op>, p: nat) {
    exists i :: 0 <= i < |ops| && Carries(ops[i], p)
  }

  lemma ReceivedMore(ops: seq<Op>, i: nat, p: nat)
    requires i < |ops|
    ensures Received(ops[..i + 1], p) <==> Received(ops[..i], p) || Carries(ops[i], p)
  {
    var a, b := ops[..i], ops[..i + 1];
    if Received(a, p) {
      var j :| 0 <= j < |a| && Carries(a[j], p);
      assert b[j] == a[j];
    }
    if Carries(ops[i], p) { assert b[i] == ops[i]; }
  }

  // The missing bytes are those that no frame carried.
  ghost predicate Tracks(gs: set<F.Interval>, ops: seq<Op>) {
    forall p: nat :: p < MAX_BYTE_COUNT ==> (F.InGap(gs, p) <==> !Received(ops, p))
  }

  lemma TracksMore(gs0: set<F.Interval>, gs: set<F.Interval>, ops: seq<Op>, i: nat)
    requires i < |ops| && Tracks(gs0, ops[..i])
    requires if ops[i].FrameOp? then F.Shrunk(gs0, gs, ops[i].offset, ops[i].offset + |ops[i].data|) else gs == gs0
    ensures Tracks(gs, ops[..i + 1])
  {
    forall p: nat | p < MAX_BYTE_COUNT
      ensures F.InGap(gs, p) <==> !Received(ops[..i + 1], p)
    {
      ReceivedMore(ops, i, p);
    }
  }

  // Only bytes received are read; and reading waits, or returns less than asked for, only if the next byte was
  // not received.
  ghost predicate AllReceived(ops: seq<Op>, m: Moment) {
    forall p: nat :: p < |m.read| ==> Received(ops, p)
  }

  ghost predicate Exhausted(ops: seq<Op>, op: Op, a: Answer, m: Moment) {
    op.ReadOp? && a.Reads? && !m.mode.local && !m.mode.shutdown ==>
      (a.status.Wait? || (a.status.err.NoError? && |a.status.data| < op.n) ==> !Received(ops, |m.read|))
  }

  // -------------------------------------------------------------------- steps

  // The stream is the only one of its connection.
  ghost predicate Sound(s: ReceiveStream, window: nat)
    reads s, s.frameQueue, s.flow, s.flow.connection, s.flow.connection.books.Keys
  {
    && s.Valid() && s.flow.recv.window == s.flow.connection.recv.window == window
    && s.flow.connection.recv.highestReceived == s.flow.recv.highestReceived
  }

  lemma AlwaysProper(s: ReceiveStream)
    requires s.Valid()
    ensures Proper(Look(s))
  {
    hide F.Sorter.Valid, Queued, F.SliceOf;
  }

  // The gaps are tracked as long as frames are stored.
  ghost predicate Follows(s: ReceiveStream, ops: seq<Op>)
    reads s, s.frameQueue
  {
    !s.cancelledLocally && !s.shutdown ==> Tracks(s.frameQueue.gapTree, ops)
  }

  // When an operation fails.
  ghost predicate Judged(window: nat, ops: seq<Op>, i: nat, m: Moment, a: Answer)
    requires i < |ops|
  {
    && (a.Failed() <==> Refused(window, ops[i], m) || a == Handles(TooManyGaps))
    && (a == Handles(TooManyGaps) ==> FarByte(ops[..i + 1]))
  }

  // What one that succeeds does.
  ghost predicate Advances(ops: seq<Op>, i: nat, m: Moment, m': Moment, a: Answer)
    requires i < |ops|
  {
    Effect(ops[i], m, m', a) && Exhausted(ops[..i + 1], ops[i], a, m')
  }

  // One operation. A Read call that waited is continued by the next one.
  method Step(s: ReceiveStream, ops: seq<Op>, i: nat, waiting: bool, ghost window: nat)
    returns (a: Answer, waiting': bool)
    requires i < |ops| && Legal(ops[i]) && Sound(s, window) && Follows(s, ops[..i])
    modifies s, s.frameQueue, s.flow, s.flow.connection
    ensures Judged(window, ops, i, old(Look(s)), a)
    ensures !a.Failed() ==> Sound(s, window) && Follows(s, ops[..i + 1]) && Advances(ops, i, old(Look(s)), Look(s), a)
    ensures !a.Failed() ==> s.read == old(s.read) + a.Data()
    ensures !a.Failed() && old(s.honest) && HonestOp(ops[i], s.S) ==> s.honest
  {
    hide FrameEffect, ResetEffect, ReadEffect, CancelEffect, Sound, Tracks, Received, Look, FarByte, Acceptable;
    waiting' := waiting;
    match ops[i] {
      case FrameOp(_, _, _) => a := Frame(s, ops, i, window);
      case ResetOp(_, _) => a := Reset(s, ops, i, window);
      case ReadOp(_, _) =>
        a := Read(s, ops, i, waiting, window);
        waiting' := a.status.Wait?;
      case CancelOp => a := Cancel(s, ops, i, window);
      case ShutdownOp => a := Shutdown(s, ops, i, window);
    }
  }

  // A byte far into the stream was received.
  ghost predicate FarByte(ops: seq<Op>) {
    exists p: nat :: F.MAX_STREAM_FRAME_SORTER_GAPS - 1 <= p && Received(ops, p)
  }

  lemma ManyGaps(gs: set<F.Interval>, ops: seq<Op>)
    requires F.GapsOk(gs) && Tracks(gs, ops) && |gs| > F.MAX_STREAM_FRAME_SORTER_GAPS
    ensures FarByte(ops)
  {
    if forall p: nat :: F.MAX_STREAM_FRAME_SORTER_GAPS - 1 <= p < MAX_BYTE_COUNT ==> F.InGap(gs, p) {
      R.FewGaps(gs, F.MAX_STREAM_FRAME_SORTER_GAPS - 1);
    } else {
      var p: nat :| F.MAX_STREAM_FRAME_SORTER_GAPS - 1 <= p < MAX_BYTE_COUNT && !F.InGap(gs, p);
      assert Received(ops, p);
    }
  }

  // What flow control accepts.
  lemma Accepted(s: ReceiveStream, window: nat, end: nat, fin: bool)
    requires Sound(s, window)
    ensures s.flow.FinalSizeOk(end, fin) && s.flow.CreditOk(end) <==> Acceptable(window, Look(s), end, fin)
  {
    hide F.Sorter.Valid, Queued, F.SliceOf, FlowControl.Stream.Valid;
  }

  method Frame(s: ReceiveStream, ops: seq<Op>, i: nat, ghost window: nat) returns (a: Answer)
    requires i < |ops| && ops[i].FrameOp? && Legal(ops[i]) && Sound(s, window) && Follows(s, ops[..i])
    modifies s`finalOffset, s`honest, s`completed, s.frameQueue`queue, s.frameQueue`gapTree, s.frameQueue`called,
      s.flow`recv, s.flow`receivedFinalOffset, s.flow.connection`recv, s.flow.connection`books
    ensures a.Handles? && (a.handled.FlowControlFailure? <==> Refused(window, ops[i], old(Look(s))))
    ensures a.handled.TooManyGaps? ==> FarByte(ops[..i + 1])
    ensures !a.Failed() ==> Sound(s, window) && Follows(s, ops[..i + 1]) && FrameEffect(ops[i], old(Look(s)), Look(s))
    ensures !a.Failed() && old(s.honest) && HonestOp(ops[i], s.S) ==> s.honest
  {
    hide ReceiveStream.Valid, ReceiveStream.Mid, F.Shrunk, Tracks, F.SliceOf, FarByte;
    var op := ops[i];
    ghost var gs0 := s.frameQueue.gapTree;
    Accepted(s, window, op.offset + |op.data|, op.fin);
    var r, newly := s.HandleStreamFrame(op.data, op.offset, op.fin, None);
    a := Handles(r);
    if !s.shutdown && !s.cancelledLocally && !r.FlowControlFailure? {
      TracksMore(gs0, s.frameQueue.gapTree, ops, i);
      if r.TooManyGaps? {
        ShrunkGaps(gs0, s.frameQueue.gapTree, op.offset, op.offset + |op.data|);
        ManyGaps(s.frameQueue.gapTree, ops[..i + 1]);
      }
    }
  }

  lemma ShrunkGaps(gs0: set<F.Interval>, gs: set<F.Interval>, lo: nat, hi: nat)
    requires F.Shrunk(gs0, gs, lo, hi)
    ensures F.GapsOk(gs)
  {
  }

  method Reset(s: ReceiveStream, ops: seq<Op>, i: nat, ghost window: nat) returns (a: Answer)
    requires i < |ops| && ops[i].ResetOp? && Legal(ops[i]) && Sound(s, window) && Follows(s, ops[..i])
    modifies s`finalOffset, s`completed, s`reliableSize, s`cancelledRemotely, s.flow`recv, s.flow`receivedFinalOffset,
      s.flow.connection`recv, s.flow.connection`books
    ensures a.Handles? && !a.handled.TooManyGaps? && (a.Failed() <==> Refused(window, ops[i], old(Look(s))))
    ensures !a.Failed() ==> Sound(s, window) && Follows(s, ops[..i + 1]) && ResetEffect(ops[i], old(Look(s)), Look(s))
  {
    hide ReceiveStream.Valid, ReceiveStream.Mid, Tracks;
    var op := ops[i];
    Accepted(s, window, op.finalSize, true);
    ReadLength(s);
    if !s.cancelledLocally && !s.shutdown { TracksMore(s.frameQueue.gapTree, s.frameQueue.gapTree, ops, i); }
    var r, newly := s.HandleResetStreamFrame(op.finalSize, op.reliable);
    a := Handles(r);
  }

  lemma ReadLength(s: ReceiveStream)
    requires s.Valid()
    ensures |s.read| == s.readPos && s.readPos <= s.frameQueue.readPos <= s.flow.recv.highestReceived < MAX_BYTE_COUNT
    ensures forall p: nat :: F.InGap(s.frameQueue.gapTree, p) ==> s.readPos <= p
  {
    hide FlowControl.Stream.Valid, Queued, F.SliceOf;
  }

  method Read(s: ReceiveStream, ops: seq<Op>, i: nat, waiting: bool, ghost window: nat) returns (a: Answer)
    requires i < |ops| && ops[i].ReadOp? && Sound(s, window) && Follows(s, ops[..i])
    modifies s`readPosInFrame, s`readPos, s`read, s`currentFrame, s`currentFrameIsLast, s`errorRead, s`completed,
      s.frameQueue`queue, s.frameQueue`readPos, s.flow`recv, s.flow.connection`recv, s.flow.connection`books
    ensures a.Reads? && Sound(s, window) && Follows(s, ops[..i + 1])
      && ReadEffect(ops[i], old(Look(s)), Look(s), a.status)
    ensures Exhausted(ops[..i + 1], ops[i], a, Look(s)) && s.read == old(s.read) + a.Data()
  {
    hide Sound, Tracks, ReceiveStream.Starved, ReadEffect, Received;
    if !s.cancelledLocally && !s.shutdown { TracksMore(s.frameQueue.gapTree, s.frameQueue.gapTree, ops, i); }
    a := ReadShown(s, ops[i], waiting, window);
    if !s.cancelledLocally && !s.shutdown && s.Starved() { NotReceived(s, window, ops[..i + 1]); }
  }

  method ReadShown(s: ReceiveStream, op: Op, waiting: bool, ghost window: nat) returns (a: Answer)
    requires op.ReadOp? && Sound(s, window)
    modifies s`readPosInFrame, s`readPos, s`read, s`currentFrame, s`currentFrameIsLast, s`errorRead, s`completed,
      s.frameQueue`queue, s.frameQueue`readPos, s.flow`recv, s.flow.connection`recv, s.flow.connection`books
    ensures a.Reads? && Sound(s, window) && ReadEffect(op, old(Look(s)), Look(s), a.status)
    ensures s.read == old(s.read) + a.Data()
    ensures a.status.Wait? || (a.status.err.NoError? && |a.status.data| < op.n) ==> s.Starved()
  {
    hide ReceiveStream.Valid, ReceiveStream.Mid, ReceiveStream.Starved;
    var r, newly;
    if waiting {
      r, newly := s.ResumeRead(op.n, op.deadline);
    } else {
      r, newly := s.Read(op.n, op.deadline);
    }
    a := Reads(r);
    ReadLength(s);
  }

  lemma NotReceived(s: ReceiveStream, window: nat, ops: seq<Op>)
    requires Sound(s, window) && s.Starved() && Tracks(s.frameQueue.gapTree, ops)
    ensures !Received(ops, |s.read|)
  {
    hide ReceiveStream.Valid;
    ReadLength(s);
  }

  method Cancel(s: ReceiveStream, ops: seq<Op>, i: nat, ghost window: nat) returns (a: Answer)
    requires i < |ops| && ops[i].CancelOp? && Sound(s, window) && Follows(s, ops[..i])
    modifies s`cancelledLocally, s`queuedStopSending, s`completed, s.flow`recv, s.flow.connection`recv,
      s.flow.connection`books
    ensures a.Done? && Sound(s, window) && Follows(s, ops[..i + 1]) && CancelEffect(old(Look(s)), Look(s))
  {
    hide ReceiveStream.Valid, ReceiveStream.Mid, Tracks;
    var stop, newly := s.CancelRead();
    a := Done;
  }

  method Shutdown(s: ReceiveStream, ops: seq<Op>, i: nat, ghost window: nat) returns (a: Answer)
    requires i < |ops| && ops[i].ShutdownOp? && Sound(s, window)
    modifies s`shutdown
    ensures a.Done? && Sound(s, window) && Follows(s, ops[..i + 1])
    ensures Look(s) == old(Look(s)).(mode := old(Look(s)).mode.(shutdown := true))
  {
    hide ReceiveStream.Valid, ReceiveStream.Mid, Tracks;
    s.CloseForShutdown();
    a := Done;
  }

  // --------------------------------------------------------------------- runs

  // A moment of a run, and what the operations so far have to do with it.
  ghost predicate Fine(ops: seq<Op>, m: Moment, S: nat -> Byte) {
    && Proper(m) && AllReceived(ops, m)
    && (AllHonest(ops, S) ==> F.SliceOf(m.read, 0, S))
  }

  // Any run of a stream, step by step, up to the first frame that is an error. Every moment follows from the one
  // before; reading is in order, only of what was received, and does not stop short of it; what is read is a prefix of
  // what an honest peer sent. A run fails exactly for a violation of flow control or of the final size, or for
  // too many gaps, which needs a byte far into the stream.
  method Run(window: nat, ops: seq<Op>, ghost S: nat -> Byte) returns (trace: seq<Moment>, answers: seq<Answer>)
    requires forall i :: 0 <= i < |ops| ==> Legal(ops[i])
    ensures trace != [] && trace[0] == Moment([], None, 0, 0, 0, Mode(false, false, false, false, false))
    ensures if |answers| == |trace| then |answers| <= |ops| && answers[|answers| - 1].Failed()
            else |answers| == |ops| == |trace| - 1
    ensures Traced(window, ops, trace, answers, S)
  {
    hide Here, Traced, Advances, Judged, Fine, Look, Show, Legal, Sound;
    var s := NewStream(window, S);
    var out: seq<Byte> := [];
    Shows(s);
    StartsFine(s, window);
    assert ops[..0] == [];
    trace, answers := [Show(s, out)], [];
    TraceStarts(window, ops, trace[0], S);
    var waiting, i, failed := false, 0, false;
    while i < |ops| && !failed
      invariant 0 <= i <= |ops| && fresh(s) && fresh(s.flow) && fresh(s.flow.connection) && fresh(s.frameQueue)
      invariant |trace| == i + 1 && trace[0] == Moment([], None, 0, 0, 0, Mode(false, false, false, false, false))
      invariant !failed ==> Here(s, window, ops[..i], S, out) && |answers| == i && trace[i] == Look(s)
      invariant failed ==> |answers| == i + 1 <= |ops| && answers[i].Failed()
      invariant Traced(window, ops, trace, answers, S)
      decreases !failed, |ops| - i
    {
      TraceMeans(window, ops, trace, answers, S);
      var a;
      a, waiting, out := Next(s, ops, i, waiting, window, S, out, trace[i]);
      TraceAnswer(window, ops, trace, answers, S, a);
      answers := answers + [a];
      failed := a.Failed();
      if !failed {
        Shows(s);
        TraceMoment(window, ops, trace, answers, S, Look(s));
        trace := trace + [Show(s, out)];
        i := i + 1;
      }
    }
  }

  // Every moment follows from the one before and is fine, and every failure has its reason.
  ghost predicate Traced(window: nat, ops: seq<Op>, trace: seq<Moment>, answers: seq<Answer>, S: nat -> Byte) {
    && |answers| <= |trace| <= |answers| + 1 && |answers| <= |ops|
    && (forall i :: 0 <= i < |answers| ==> Judged(window, ops, i, trace[i], answers[i]))
    && (forall i :: 0 <= i < |trace| - 1 ==> Advances(ops, i, trace[i], trace[i + 1], answers[i]))
    && (forall i :: 0 <= i < |trace| ==> Fine(ops[..i], trace[i], S))
  }

  lemma TraceStarts(window: nat, ops: seq<Op>, m: Moment, S: nat -> Byte)
    requires Fine([], m, S)
    ensures Traced(window, ops, [m], [], S)
  {
    hide Fine;
    assert ops[..0] == [];
  }

  lemma TraceMeans(window: nat, ops: seq<Op>, trace: seq<Moment>, answers: seq<Answer>, S: nat -> Byte)
    requires Traced(window, ops, trace, answers, S) && trace != [] && |trace| - 1 <= |ops|
    ensures Fine(ops[..|trace| - 1], trace[|trace| - 1], S)
  {
    hide Fine, Judged, Advances;
  }

  lemma TraceAnswer(window: nat, ops: seq<Op>, trace: seq<Moment>, answers: seq<Answer>, S: nat -> Byte, a: Answer)
    requires Traced(window, ops, trace, answers, S) && |trace| == |answers| + 1 <= |ops|
    requires Judged(window, ops, |answers|, trace[|answers|], a)
    ensures Traced(window, ops, trace, answers + [a], S)
  {
    hide Fine, Judged, Advances;
  }

  lemma TraceMoment(window: nat, ops: seq<Op>, trace: seq<Moment>, answers: seq<Answer>, S: nat -> Byte, m: Moment)
    requires Traced(window, ops, trace, answers, S) && 0 < |trace| == |answers| <= |ops|
    requires Advances(ops, |trace| - 1, trace[|trace| - 1], m, answers[|trace| - 1]) && Fine(ops[..|trace|], m, S)
    ensures Traced(window, ops, trace + [m], answers, S)
  {
    hide Fine, Judged, Advances;
  }

  // The stream is where these operations have led to.
  ghost predicate Here(s: ReceiveStream, window: nat, ops: seq<Op>, S: nat -> Byte, out: seq<Byte>)
    reads s, s.frameQueue, s.flow, s.flow.connection, s.flow.connection.books.Keys
  {
    Sound(s, window) && s.S == S && Follows(s, ops) && (AllHonest(ops, S) ==> s.honest) && out == s.read
  }

  method Next(s: ReceiveStream, ops: seq<Op>, i: nat, waiting: bool, ghost window: nat, ghost S: nat -> Byte,
              out: seq<Byte>, ghost m: Moment)
    returns (a: Answer, waiting': bool, out': seq<Byte>)
    requires i < |ops| && Legal(ops[i]) && Here(s, window, ops[..i], S, out) && m == Look(s) && Fine(ops[..i], m, S)
    modifies s, s.frameQueue, s.flow, s.flow.connection
    ensures Judged(window, ops, i, m, a)
    ensures !a.Failed() ==>
      Here(s, window, ops[..i + 1], S, out') && out' == s.read && Advances(ops, i, m, Look(s), a)
        && Fine(ops[..i + 1], Look(s), S)
  {
    hide Sound, Follows, Advances, Judged, Fine, Look, Legal, AllHonest;
    HonestMore(ops, i, S);
    a, waiting' := Step(s, ops, i, waiting, window);
    out' := out + a.Data();
    if !a.Failed() {
      StaysFine(s, window, ops, i, m, a);
    }
  }

  lemma Shows(s: ReceiveStream)
    ensures Show(s, s.read) == Look(s)
  {
  }

  ghost predicate AllHonest(ops: seq<Op>, S: nat -> Byte) {
    forall k :: 0 <= k < |ops| ==> HonestOp(ops[k], S)
  }

  lemma HonestMore(ops: seq<Op>, i: nat, S: nat -> Byte)
    requires i < |ops|
    ensures AllHonest(ops[..i + 1], S) ==> AllHonest(ops[..i], S) && HonestOp(ops[i], S)
  {
    if AllHonest(ops[..i + 1], S) {
      assert forall k :: 0 <= k < i ==> ops[..i][k] == ops[..i + 1][k];
      assert ops[..i + 1][i] == ops[i];
    }
  }

  lemma StaysFine(s: ReceiveStream, window: nat, ops: seq<Op>, i: nat, m: Moment, a: Answer)
    requires i < |ops| && Sound(s, window) && Follows(s, ops[..i + 1]) && (AllHonest(ops[..i + 1], s.S) ==> s.honest)
    requires Advances(ops, i, m, Look(s), a) && Fine(ops[..i], m, s.S)
    ensures Fine(ops[..i + 1], Look(s), s.S)
  {
    AlwaysProper(s);
    Prefix(s);
    hide ReceiveStream.Valid, Proper, F.SliceOf, AllReceived, AllHonest, Tracks;
    if s.cancelledLocally || s.shutdown {
      SameRead(ops[i], m, Look(s), a);
      StillReceived(ops, i, m, Look(s));
    } else {
      ReadWasReceived(s, ops[..i + 1]);
    }
  }

  // Nothing is read from a stream that was cancelled or shut down.
  lemma SameRead(op: Op, m: Moment, m': Moment, a: Answer)
    requires Effect(op, m, m', a) && (m'.mode.local || m'.mode.shutdown)
    ensures m'.read == m.read
  {
  }

  lemma StillReceived(ops: seq<Op>, i: nat, m: Moment, m': Moment)
    requires i < |ops| && AllReceived(ops[..i], m) && m'.read == m.read
    ensures AllReceived(ops[..i + 1], m')
  {
    var a, b := ops[..i], ops[..i + 1];
    forall p: nat | p < |m.read|
      ensures Received(b, p)
    {
      assert Received(a, p);
      ReceivedMore(ops, i, p);
    }
  }

  lemma ReadWasReceived(s: ReceiveStream, ops: seq<Op>)
    requires s.Valid() && Tracks(s.frameQueue.gapTree, ops)
    ensures AllReceived(ops, Look(s))
  {
    ReadLength(s);
    hide ReceiveStream.Valid, F.InGap, Received;
  }

  lemma Prefix(s: ReceiveStream)
    requires s.Valid()
    ensures s.honest ==> F.SliceOf(s.read, 0, s.S)
  {
    hide FlowControl.Stream.Valid, F.Sorter.Valid, Queued, F.SliceOf;
  }

  lemma StartsFine(s: ReceiveStream, window: nat)
    requires Sound(s, window) && Look(s) == Moment([], None, 0, 0, 0, Mode(false, false, false, false, false))
      && s.readPos == 0
    requires forall p: nat :: p < MAX_BYTE_COUNT ==> F.InGap(s.frameQueue.gapTree, p)
    ensures Fine([], Look(s), s.S) && Follows(s, []) && (s.honest && s.read == [] ==> Here(s, window, [], s.S, []))
  {
    AlwaysProper(s);
    hide ReceiveStream.Valid, Proper;
  }

  method NewStream(window: nat, ghost S: nat -> Byte) returns (s: ReceiveStream)
    ensures fresh(s) && fresh(s.flow) && fresh(s.flow.connection) && fresh(s.frameQueue)
    ensures s.Valid() && s.S == S && s.read == [] && s.honest && !s.completed && s.reliableSize == 0
    ensures !s.shutdown && !s.cancelledLocally && !s.cancelledRemotely && !s.FinalKnown() && s.readPos == 0
    ensures s.flow.recv == FlowControl.NewReceive(window, window) == s.flow.connection.recv
      && !s.flow.receivedFinalOffset
    ensures Sound(s, window) && Look(s) == Moment([], None, 0, 0, 0, Mode(false, false, false, false, false))
    ensures forall p: nat :: p < MAX_BYTE_COUNT ==> F.InGap(s.frameQueue.gapTree, p)
  {
    hide FlowControl.Sum;
    var conn := new FlowControl.Connection(window, window);
    var flow := new FlowControl.Stream(conn, window, window, 0);
    hide FlowControl.Stream.Valid;
    s := new ReceiveStream(flow, S);
  }

  lemma ReadIsReceived(flow: FlowControl.Stream)
    requires flow.Valid()
    ensures flow.recv.bytesRead <= flow.recv.highestReceived
  {
  }

  // The application cancels reading, then the peer resets the stream but promises the first
  // bytes: the stream is complete although its credit was not returned.
  method LeakedCredit(S: nat -> Byte, finalSize: nat, reliable: nat) returns (reported: bool, unread: int)
    requires 0 < reliable <= finalSize < MAX_BYTE_COUNT
    ensures reported && unread > 0
  {
    hide FlowControl.Stream.Valid, F.Sorter.Valid, Queued, F.SliceOf;
    var s := NewStream(finalSize, S);
    var stop, newly := s.CancelRead();
    var r;
    r, reported := s.HandleResetStreamFrame(finalSize, reliable);
    ReadIsReceived(s.flow);
    unread := s.flow.recv.highestReceived - s.flow.recv.bytesRead;
  }
}
