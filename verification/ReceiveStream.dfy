// The receiving half of a stream: reassembly, reading, cancellation by either side, and the
// return of flow control credit when it is done.
module Receiving {
  import opened Protocol
  import FlowControl
  import F = FrameSorter

  datatype ReadError = NoError | Eof | Canceled | ShutdownError | DeadlineError

  // A Read call returns data and an error, or waits for the next frame.
  datatype ReadStatus = Return(data: seq<Byte>, err: ReadError) | Wait

  // Whether a Read call may go on.
  datatype Gate = Go | Stop(err: ReadError) | Block

  // One turn of a Read call: some data, and whether that is all; or wait.
  datatype Turn = More(data: seq<Byte>) | Last(data: seq<Byte>, err: ReadError) | Blocked

  datatype Handled = Ok | FlowControlFailure | TooManyGaps

  // The bytes queued are below the limit and, if the peer is honest, those of S.
  ghost predicate Queued(q: F.Queue, limit: nat, S: nat -> Byte, honest: bool) {
    forall p: nat, b: Byte :: F.HasByte(q, p, b) ==> p < limit && (honest ==> b == S(p))
  }

  lemma QueuedPush(q0: F.Queue, q: F.Queue, data: seq<Byte>, offset: nat, limit: nat, S: nat -> Byte, honest: bool)
    requires Queued(q0, limit, S, honest) && F.Provenance(q0, q, data, offset) && offset + |data| <= limit
    ensures Queued(q, limit, S, honest && F.SliceOf(data, offset, S))
  {
    hide F.HasByte;
  }

  lemma QueuedMore(q: F.Queue, limit: nat, limit': nat, S: nat -> Byte, honest: bool, honest': bool)
    requires Queued(q, limit, S, honest) && limit <= limit' && (honest' ==> honest)
    ensures Queued(q, limit', S, honest')
  {
    hide F.HasByte;
  }

  lemma QueuedPop(q0: F.Queue, q: F.Queue, offset: nat, data: seq<Byte>, limit: nat, S: nat -> Byte, honest: bool)
    requires Queued(q0, limit, S, honest)
    requires forall i :: 0 <= i < |data| ==> F.HasByte(q0, offset + i, data[i])
    requires forall p: nat, b: Byte :: F.HasByte(q, p, b) ==> F.HasByte(q0, p, b)
    ensures Queued(q, limit, S, honest) && (honest ==> F.SliceOf(data, offset, S))
    ensures data != [] ==> offset + |data| <= limit
  {
    hide F.HasByte;
    if data != [] { assert F.HasByte(q0, offset + (|data| - 1), data[|data| - 1]); }
  }

  lemma SliceSplit(read: seq<Byte>, rest: seq<Byte>, m: nat, S: nat -> Byte)
    requires F.SliceOf(read, 0, S) && F.SliceOf(rest, |read|, S) && m <= |rest|
    ensures F.SliceOf(read + rest[..m], 0, S) && F.SliceOf(rest[m..], |read| + m, S)
  {
    forall i | 0 <= i < |rest| - m
      ensures rest[m..][i] == S(|read| + m + i)
    {
      assert rest[m + i] == S(|read| + (m + i));
    }
  }

  lemma NextQueuedOrMissing(s: F.Sorter)
    requires s.Valid() && s.readPos < MAX_BYTE_COUNT
    ensures F.InQueue(s.queue, s.readPos) || F.InGap(s.gapTree, s.readPos)
  {
  }

  // Completion is reported when it happens, and only then.
  ghost predicate Reported(was: bool, now: bool, newly: bool) {
    now == (was || newly) && !(was && newly)
  }

  class ReceiveStream {
    const flow: FlowControl.Stream
    const frameQueue: F.Sorter
    ghost const S: nat -> Byte   // what an honest peer sends

    var finalOffset: nat         // MAX_BYTE_COUNT while it is not known
    var currentFrame: Option<seq<Byte>>
    var readPosInFrame: nat
    var currentFrameIsLast: bool
    var errorRead: bool
    var completed: bool
    var cancelledRemotely: bool
    var cancelledLocally: bool
    var shutdown: bool
    var readPos: nat
    var reliableSize: nat
    var queuedStopSending: bool

    ghost var read: seq<Byte>    // everything read so far
    ghost var honest: bool       // all frames so far were slices of S

    predicate FinalKnown()
      reads `finalOffset
    {
      finalOffset != MAX_BYTE_COUNT
    }

    // The stream was reset, and all data that the reset promised has been read.
    predicate RemoteCancellationEffective()
      reads `cancelledRemotely, `readPos, `reliableSize
    {
      cancelledRemotely && readPos >= reliableSize
    }

    function Rest(): seq<Byte>
      reads `currentFrame, `readPosInFrame
    {
      if currentFrame.Some? && readPosInFrame <= |currentFrame.value| then currentFrame.value[readPosInFrame..] else []
    }

    // What was read is a prefix of what was received, followed by the rest of the current frame.
    ghost predicate CursorOk()
      reads `read, `honest, `readPos, `currentFrame, `readPosInFrame, `currentFrameIsLast, `finalOffset,
        frameQueue`readPos
    {
      && |read| == readPos && frameQueue.readPos == readPos + |Rest()|
      && (currentFrame.Some? ==> readPosInFrame <= |currentFrame.value| && currentFrame.value != [])
      && (honest ==> F.SliceOf(read, 0, S) && F.SliceOf(Rest(), readPos, S))
      && (currentFrameIsLast ==> FinalKnown() && frameQueue.readPos == finalOffset)
    }

    ghost predicate QueueOk()
      reads `honest, frameQueue, flow`recv
    {
      && frameQueue.Valid() && frameQueue.readPos <= flow.recv.highestReceived < MAX_BYTE_COUNT
      && Queued(frameQueue.queue, flow.recv.highestReceived, S, honest)
    }

    // All that was received in order has been read; the next byte is missing.
    ghost predicate Starved()
      reads `readPos, frameQueue`gapTree
    {
      F.InGap(frameQueue.gapTree, readPos)
    }

    // No window moves, and both levels receive the same.
    twostate predicate SameWindows()
      reads flow`recv, flow.connection`recv
    {
      && flow.recv.window == old(flow.recv.window) && flow.connection.recv.window == old(flow.connection.recv.window)
      && flow.connection.recv.highestReceived - old(flow.connection.recv.highestReceived)
         == flow.recv.highestReceived - old(flow.recv.highestReceived)
    }

    // All credit of the stream was returned.
    ghost predicate Settled()
      reads `finalOffset, flow`recv
    {
      FinalKnown() && flow.recv.bytesRead == flow.recv.highestReceived == finalOffset
    }

    // Cancelled by the application, then reset by the peer with a promise of more data than was read.
    ghost predicate Leaky()
      reads `cancelledLocally, `cancelledRemotely, `readPos, `reliableSize
    {
      cancelledLocally && !cancelledRemotely && readPos < reliableSize
    }

    // How reading, cancellation and credit go together.
    ghost predicate CreditCore()
      reads `finalOffset, `errorRead, `cancelledRemotely, `cancelledLocally, `readPos, `reliableSize, flow`recv,
        flow`receivedFinalOffset
    {
      && (FinalKnown() <==> flow.receivedFinalOffset)
      && (FinalKnown() ==> finalOffset == flow.recv.highestReceived)
      && (cancelledRemotely || reliableSize > 0 ==> FinalKnown() && reliableSize <= finalOffset)
      && (!FinalKnown() || (!cancelledLocally && !RemoteCancellationEffective()) ==> flow.recv.bytesRead == readPos)
      && (RemoteCancellationEffective() ==> Settled())
      && (errorRead ==> cancelledLocally || Settled())
    }

    // ... and that all credit is returned in the end, but for one case.
    ghost predicate CreditOk()
      reads `finalOffset, `errorRead, `completed, `cancelledRemotely, `cancelledLocally, `readPos, `reliableSize,
        flow`recv, flow`receivedFinalOffset
    {
      && CreditCore()
      && (completed ==> FinalKnown() && (Settled() || Leaky()))
      && (cancelledLocally && FinalKnown() ==> Settled() || Leaky())
    }

    // Completion has been reported if it is due.
    ghost predicate CompletionOk()
      reads `completed, `finalOffset, `cancelledLocally, `errorRead
    {
      completed <==> FinalKnown() && (cancelledLocally || errorRead)
    }

    ghost predicate Mid()
      reads this, frameQueue, flow, flow.connection, flow.connection.books.Keys
    {
      flow.Valid() && CursorOk() && QueueOk() && CreditOk()
    }

    ghost predicate Valid()
      reads this, frameQueue, flow, flow.connection, flow.connection.books.Keys
    {
      Mid() && CompletionOk()
    }

    constructor (flow: FlowControl.Stream, ghost S: nat -> Byte)
      requires flow.Valid() && flow.recv.highestReceived == 0 && flow.recv.bytesRead == 0 && !flow.receivedFinalOffset
      ensures Valid() && this.flow == flow && this.S == S && fresh(frameQueue)
      ensures reliableSize == 0 && readPos == 0 && forall p: nat :: p < MAX_BYTE_COUNT ==>
        F.InGap(frameQueue.gapTree, p)
      ensures read == [] && honest && !completed && !cancelledLocally && !cancelledRemotely && !shutdown
        && !FinalKnown()
    {
      this.flow, this.S := flow, S;
      frameQueue := new F.Sorter();
      finalOffset, currentFrame, readPosInFrame, currentFrameIsLast := MAX_BYTE_COUNT, None, 0, false;
      errorRead, completed, cancelledRemotely, cancelledLocally, shutdown := false, false, false, false, false;
      readPos, reliableSize, queuedStopSending := 0, 0, false;
      read, honest := [], true;
    }

    // Reports completion, once.
    method IsNewlyCompleted() returns (newly: bool)
      modifies `completed
      ensures newly <==> !old(completed) && FinalKnown() && (cancelledLocally || errorRead)
      ensures completed == (old(completed) || newly)
    {
      if completed {
        return false;
      }
      if finalOffset == MAX_BYTE_COUNT {
        return false;
      }
      if cancelledLocally {
        completed := true;
        return true;
      }
      if errorRead {
        completed := true;
        return true;
      }
      return false;
    }

    // The next frame in order, if it is there.
    method DequeueNextFrame()
      requires Mid() && Rest() == []
      modifies `currentFrame, `readPosInFrame, `currentFrameIsLast, frameQueue`queue, frameQueue`readPos
      ensures Mid() && (currentFrame.Some? ==> Rest() != []) && (currentFrame.None? ==> Starved())
    {
      hide FlowControl.Stream.Valid, F.Sorter.Valid, Queued, F.SliceOf, ReceiveStream.CreditOk, F.InGap;
      FinalIsHighest();
      var offset, data := PopNext();
      currentFrame := if data == [] then None else Some(data);
      currentFrameIsLast := offset + |data| >= finalOffset && !cancelledRemotely;
      readPosInFrame := 0;
      assert Rest() == data;
    }

    method PopNext() returns (offset: nat, data: seq<Byte>)
      requires QueueOk()
      modifies frameQueue`queue, frameQueue`readPos
      ensures QueueOk() && offset == old(frameQueue.readPos) && frameQueue.readPos == offset + |data|
      ensures honest ==> F.SliceOf(data, offset, S)
      ensures data == [] ==> F.InGap(frameQueue.gapTree, offset)
    {
      hide F.Sorter.Valid, Queued, F.SliceOf, F.HasByte, F.InQueue, F.InGap;
      ghost var q0 := frameQueue.queue;
      NextQueuedOrMissing(frameQueue);
      var done;
      offset, data, done := frameQueue.Pop();
      QueuedPop(q0, frameQueue.queue, offset, data, flow.recv.highestReceived, S, honest);
    }

    lemma FinalIsHighest()
      requires CreditOk()
      ensures FinalKnown() ==> finalOffset == flow.recv.highestReceived
    {
    }

    // What stops a Read call before it takes the current frame.
    method Pass(expired: bool) returns (g: Gate)
      requires Mid()
      modifies `errorRead
      ensures Mid()
      ensures g.Go? ==>
        !shutdown && !cancelledLocally && !RemoteCancellationEffective() && (currentFrame.Some? || currentFrameIsLast)
      ensures g.Block? ==> !shutdown && !cancelledLocally && currentFrame.None? && !currentFrameIsLast
      ensures g.Stop? && g.err.Canceled? ==> errorRead && (cancelledLocally || RemoteCancellationEffective())
      ensures g.Stop? ==> g.err.Canceled? || (g.err.ShutdownError? && shutdown) || (g.err.DeadlineError? && expired)
      ensures !(g.Stop? && g.err.Canceled?) ==> errorRead == old(errorRead)
    {
      hide FlowControl.Stream.Valid, F.Sorter.Valid, Queued, F.SliceOf;
      if shutdown {
        return Stop(ShutdownError);
      }
      if cancelledLocally || RemoteCancellationEffective() {
        errorRead := true;
        return Stop(Canceled);
      }
      if expired {
        return Stop(DeadlineError);
      }
      return if currentFrame.Some? || currentFrameIsLast then Go else Block;
    }

    // Accounts for m bytes read. Returns all remaining credit if the stream was reset and that
    // was the last promised byte.
    method Account(m: nat)
      requires flow.Valid() && flow.recv.bytesRead == readPos && readPos + m <= flow.recv.highestReceived
      modifies `readPos, flow`recv, flow.connection`recv, flow.connection`books
      ensures SameWindows()
      ensures flow.Valid() && readPos == old(readPos) + m
      ensures flow.recv.highestReceived == old(flow.recv.highestReceived)
      ensures flow.recv.bytesRead == if RemoteCancellationEffective() then flow.recv.highestReceived else readPos
    {
      hide FlowControl.Stream.Valid;
      var hasStream, hasConn := flow.AddBytesRead(m);
      readPos := readPos + m;
      if RemoteCancellationEffective() {
        flow.Abandon();
      }
    }

    // Takes at most room bytes from the current frame.
    method Chunk(room: nat) returns (data: seq<Byte>, eof: bool)
      requires Mid() && !cancelledLocally && !RemoteCancellationEffective()
      requires (currentFrame.Some? && Rest() != []) || (currentFrame.None? && currentFrameIsLast)
      modifies `readPosInFrame, `readPos, `read, `currentFrame, `errorRead, flow`recv, flow.connection`recv,
        flow.connection`books
      ensures SameWindows()
      ensures Mid() && read == old(read) + data && |data| <= room
      ensures eof ==> readPos == finalOffset && Settled() && errorRead
      ensures !eof ==> errorRead == old(errorRead) && (0 < room ==> data != [])
      ensures flow.recv.highestReceived == old(flow.recv.highestReceived)
    {
      hide FlowControl.Stream.Valid, F.Sorter.Valid, Queued, F.SliceOf, ReceiveStream.Mid;
      data := Take(room);
      eof := Rest() == [] && currentFrameIsLast;
      if eof {
        Finish();
      }
    }

    method Take(room: nat) returns (data: seq<Byte>)
      requires Mid() && !cancelledLocally && !RemoteCancellationEffective()
      modifies `readPosInFrame, `readPos, `read, flow`recv, flow.connection`recv, flow.connection`books
      ensures SameWindows()
      ensures Mid() && read == old(read) + data && |data| == Min(room, |old(Rest())|)
      ensures flow.recv.highestReceived == old(flow.recv.highestReceived)
    {
      hide FlowControl.Stream.Valid, F.Sorter.Valid, Queued, F.SliceOf;
      var m := Min(room, |Rest()|);
      data := Rest()[..m];
      if honest { SliceSplit(read, Rest(), m, S); }
      Account(m);
      Advance(m);
    }

    // The last frame was read to its end.
    method Finish()
      requires Mid() && Rest() == [] && currentFrameIsLast && !cancelledLocally
      modifies `currentFrame, `errorRead
      ensures Mid() && currentFrame.None? && errorRead && Settled() && readPos == finalOffset
    {
      hide FlowControl.Stream.Valid, F.Sorter.Valid, Queued, F.SliceOf;
      currentFrame := None;
      errorRead := true;
    }

    // Moves past m bytes of the current frame.
    method Advance(m: nat)
      requires m <= |Rest()| && readPos >= m && |read| == readPos - m
      modifies `readPosInFrame, `read
      ensures read == old(read) + old(Rest())[..m] && Rest() == old(Rest())[m..]
      ensures currentFrame.Some? && old(readPosInFrame) <= |currentFrame.value| ==>
        readPosInFrame <= |currentFrame.value|
    {
      read := read + Rest()[..m];
      if currentFrame.Some? {
        readPosInFrame := readPosInFrame + m;
      }
    }

    // What a Read call returns says about the stream.
    ghost predicate Explained(r: ReadStatus)
      reads this
    {
      r.Return? ==>
        && (r.err.Eof? ==> FinalKnown() && readPos == finalOffset && errorRead)
        && (r.err.Canceled? ==> errorRead && (cancelledLocally || RemoteCancellationEffective()))
    }

    // Why reading stops short.
    ghost predicate Stops(err: ReadError, expired: bool)
      reads `shutdown
    {
      (err.ShutdownError? ==> shutdown) && (err.DeadlineError? ==> expired)
    }

    // Takes what the current frame, or the next one, has to offer. Only the first turn of a call waits.
    method ReadTurn(room: nat, first: bool, expired: bool) returns (r: Turn)
      requires Mid() && 0 < room
      modifies `readPosInFrame, `readPos, `read, `currentFrame, `currentFrameIsLast, `errorRead, frameQueue`queue,
        frameQueue`readPos, flow`recv, flow.connection`recv, flow.connection`books
      ensures SameWindows()
      ensures Mid() && (old(errorRead) ==> errorRead)
      ensures read == old(read) + if r.Blocked? then [] else r.data
      ensures r.More? ==> 0 < |r.data| <= room && errorRead == old(errorRead)
      ensures r.Last? ==> Explained(Return(r.data, r.err)) && |r.data| <= room
      ensures r.Last? && r.err.NoError? ==> errorRead == old(errorRead) && !first
      ensures r.Last? ==> Stops(r.err, expired) && (errorRead == (old(errorRead) || r.err.Eof? || r.err.Canceled?))
      ensures r.Blocked? ==> first && errorRead == old(errorRead) && !cancelledLocally && !shutdown
      ensures r.Blocked? || (r.Last? && r.err.NoError?) ==> Starved()
      ensures cancelledLocally || shutdown ==> read == old(read) && flow.recv == old(flow.recv)
      ensures flow.recv.highestReceived == old(flow.recv.highestReceived)
    {
      hide FlowControl.Stream.Valid, F.Sorter.Valid, Queued, F.SliceOf, ReceiveStream.Mid, ReceiveStream.Starved;
      MidRest();
      if Rest() == [] {
        DequeueNextFrame();
      }
      if currentFrame.None? && !first {
        return Last([], if shutdown then ShutdownError else NoError);
      }
      var g := Pass(expired);
      if g.Stop? {
        return Last([], g.err);
      }
      if g.Block? {
        return Blocked;
      }
      var data, eof := Chunk(room);
      return if eof then Last(data, Eof) else More(data);
    }

    // Reading waits, or returns less than asked for without an error, only if the next byte is
    // missing. Other errors have their reasons.
    ghost predicate ReadResult(r: ReadStatus, n: nat, deadline: int)
      reads `readPos, `shutdown, frameQueue`gapTree
    {
      && (r.Wait? || (r.err.NoError? && |r.data| < n) ==> Starved())
      && (r.Return? ==> |r.data| <= n && Stops(r.err, 0 <= deadline))
    }

    // Reads up to n bytes: until there are n, the next frame is missing, or something stops it.
    // The deadline passes after that many turns.
    method ReadLoop(n: nat, deadline: int) returns (r: ReadStatus)
      requires Mid()
      modifies `readPosInFrame, `readPos, `read, `currentFrame, `currentFrameIsLast, `errorRead, frameQueue`queue,
        frameQueue`readPos, flow`recv, flow.connection`recv, flow.connection`books
      ensures SameWindows()
      ensures Mid() && Explained(r) && (old(errorRead) ==> errorRead)
      ensures r.Wait? ==> read == old(read) && errorRead == old(errorRead) && !cancelledLocally && !shutdown
      ensures r.Return? ==> read == old(read) + r.data && |r.data| <= n
      ensures r.Return? && r.err.NoError? ==> errorRead == old(errorRead) && (0 < n ==> r.data != [])
      ensures ReadResult(r, n, deadline)
        && (r.Return? ==> errorRead == (old(errorRead) || r.err.Eof? || r.err.Canceled?))
      ensures cancelledLocally || shutdown ==> read == old(read) && flow.recv == old(flow.recv)
      ensures flow.recv.highestReceived == old(flow.recv.highestReceived)
    {
      hide ReceiveStream.Mid, ReceiveStream.Starved;
      var out: seq<Byte>, turns := [], 0;
      while |out| < n
        invariant Mid() && read == old(read) + out && |out| <= n && errorRead == old(errorRead) && 0 <= turns
          && SameWindows()
        invariant cancelledLocally || shutdown ==> out == [] && flow.recv == old(flow.recv)
        invariant flow.recv.highestReceived == old(flow.recv.highestReceived)
        decreases n - |out|
      {
        var t := ReadTurn(n - |out|, out == [], turns == deadline);
        if t.Blocked? {
          return Wait;
        }
        out := out + t.data;
        if t.Last? {
          return Return(out, t.err);
        }
        turns := turns + 1;
      }
      if RemoteCancellationEffective() {
        ReportCancellation();
        return Return(out, Canceled);
      }
      return Return(out, NoError);
    }

    lemma MidRest()
      requires Mid()
      ensures Rest() == [] || currentFrame.Some?
    {
    }

    method ReportCancellation()
      requires Mid() && (cancelledLocally || RemoteCancellationEffective())
      modifies `errorRead
      ensures Mid() && errorRead
    {
      hide FlowControl.Stream.Valid, F.Sorter.Valid, Queued, F.SliceOf;
      errorRead := true;
    }

    // A Read call up to the point where it returns or waits. A call that waited is continued by
    // calling ResumeRead.
    method Read(n: nat, deadline: int) returns (r: ReadStatus, newly: bool)
      requires Valid()
      modifies `readPosInFrame, `readPos, `read, `currentFrame, `currentFrameIsLast, `errorRead, `completed,
        frameQueue`queue, frameQueue`readPos, flow`recv, flow.connection`recv, flow.connection`books
      ensures SameWindows()
      ensures Valid() && Explained(r)
      ensures read == old(read) + if r.Return? then r.data else []
      ensures Reported(old(completed), completed, newly)
      ensures newly ==> Settled()
      ensures ReadResult(r, n, deadline)
      ensures errorRead == (old(errorRead) || (r.Return? && (r.err.Eof? || r.err.Canceled?)))
      ensures cancelledLocally || shutdown ==> read == old(read) && flow.recv == old(flow.recv)
      ensures flow.recv.highestReceived == old(flow.recv.highestReceived)
    {
      hide FlowControl.Stream.Valid, F.Sorter.Valid, Queued, F.SliceOf, ReceiveStream.Starved;
      r := ReadStart(n, deadline);
      newly := false;
      if r.Return? {
        newly := IsNewlyCompleted();
      }
    }

    method ReadStart(n: nat, deadline: int) returns (r: ReadStatus)
      requires Mid()
      modifies `readPosInFrame, `readPos, `read, `currentFrame, `currentFrameIsLast, `errorRead, frameQueue`queue,
        frameQueue`readPos, flow`recv, flow.connection`recv, flow.connection`books
      ensures SameWindows()
      ensures Mid() && Explained(r) && (old(errorRead) ==> errorRead)
      ensures r.Wait? ==> read == old(read) && errorRead == old(errorRead)
      ensures r.Return? ==> read == old(read) + r.data && |r.data| <= n
      ensures ReadResult(r, n, deadline)
        && (r.Return? ==> errorRead == (old(errorRead) || r.err.Eof? || r.err.Canceled?))
      ensures cancelledLocally || shutdown ==> read == old(read) && flow.recv == old(flow.recv)
      ensures flow.recv.highestReceived == old(flow.recv.highestReceived)
    {
      hide FlowControl.Stream.Valid, F.Sorter.Valid, Queued, F.SliceOf, ReceiveStream.Starved;
      if currentFrameIsLast && currentFrame.None? {
        errorRead := true;
        return Return([], Eof);
      }
      if cancelledLocally || RemoteCancellationEffective() {
        errorRead := true;
        return Return([], Canceled);
      }
      if shutdown {
        return Return([], ShutdownError);
      }
      r := ReadLoop(n, deadline);
    }

    // Continues a Read call after it was woken.
    method ResumeRead(n: nat, deadline: int) returns (r: ReadStatus, newly: bool)
      requires Valid()
      modifies `readPosInFrame, `readPos, `read, `currentFrame, `currentFrameIsLast, `errorRead, `completed,
        frameQueue`queue, frameQueue`readPos, flow`recv, flow.connection`recv, flow.connection`books
      ensures SameWindows()
      ensures Valid() && Explained(r)
      ensures read == old(read) + if r.Return? then r.data else []
      ensures Reported(old(completed), completed, newly)
      ensures newly ==> Settled()
      ensures ReadResult(r, n, deadline)
      ensures errorRead == (old(errorRead) || (r.Return? && (r.err.Eof? || r.err.Canceled?)))
      ensures cancelledLocally || shutdown ==> read == old(read) && flow.recv == old(flow.recv)
      ensures flow.recv.highestReceived == old(flow.recv.highestReceived)
    {
      hide FlowControl.Stream.Valid, F.Sorter.Valid, Queued, F.SliceOf, ReceiveStream.Starved;
      r := ReadLoop(n, deadline);
      newly := false;
      if r.Return? {
        newly := IsNewlyCompleted();
      }
    }

    // Data up to end was received, and the stream ends there if fin.
    method Admit(end: nat, fin: bool) returns (ok: bool)
      requires Valid() && end < MAX_BYTE_COUNT
      modifies `finalOffset, flow`recv, flow`receivedFinalOffset, flow.connection`recv, flow.connection`books
      ensures ok ==> SameWindows()
      ensures ok <==> old(flow.FinalSizeOk(end, fin)) && old(flow.CreditOk(end))
      ensures ok ==> flow.Valid() && CursorOk() && QueueOk() && CreditCore() && end <= flow.recv.highestReceived
      ensures ok ==> flow.recv.bytesRead == old(flow.recv.bytesRead)
      ensures ok ==> flow.recv.highestReceived == Max(old(flow.recv.highestReceived), end)
      ensures ok ==> finalOffset == if fin then end else old(finalOffset)
      ensures ok && old(FinalKnown()) ==>
        flow.recv.highestReceived == old(flow.recv.highestReceived) && finalOffset == old(finalOffset)
    {
      hide FlowControl.Stream.Valid, F.Sorter.Valid, Queued, F.SliceOf;
      ghost var h0 := flow.recv.highestReceived;
      var v := flow.UpdateHighestReceived(end, fin);
      ok := v.Ok?;
      if !ok {
        return;
      }
      if fin {
        finalOffset := end;
      }
      QueuedMore(frameQueue.queue, h0, flow.recv.highestReceived, S, honest, honest);
    }

    // Returns all credit once completion is due.
    method Release() returns (newly: bool)
      requires flow.Valid() && CursorOk() && QueueOk() && CreditCore()
      requires completed ==> FinalKnown() && (cancelledLocally || errorRead) && (Settled() || Leaky())
      modifies `completed, flow`recv, flow.connection`recv, flow.connection`books
      ensures SameWindows()
      ensures Valid()
      ensures newly <==> !old(completed) && FinalKnown() && (cancelledLocally || errorRead)
      ensures newly ==> Settled()
      ensures completed == (old(completed) || newly)
      ensures flow.recv.highestReceived == old(flow.recv.highestReceived)
      ensures !newly ==> flow.recv == old(flow.recv) && flow.connection.recv == old(flow.connection.recv)
    {
      hide FlowControl.Stream.Valid, F.Sorter.Valid, Queued, F.SliceOf, ReceiveStream.CursorOk;
      newly := IsNewlyCompleted();
      if newly {
        flow.Abandon();
      }
    }

    method HandleStreamFrame(data: seq<Byte>, offset: nat, fin: bool, done: Option<F.Callback>)
      returns (r: Handled, newly: bool)
      requires Valid() && offset + |data| < MAX_BYTE_COUNT
      modifies `finalOffset, `honest, `completed, frameQueue`queue, frameQueue`gapTree, frameQueue`called, flow`recv,
        flow`receivedFinalOffset, flow.connection`recv, flow.connection`books
      ensures r.Ok? ==> SameWindows()
      ensures r.FlowControlFailure? <==>
        !shutdown && !(old(flow.FinalSizeOk(offset + |data|, fin)) && old(flow.CreditOk(offset + |data|)))
      ensures r.Ok? ==> Valid() && Reported(old(completed), completed, newly)
      ensures r.Ok? && newly ==> Settled()
      ensures r.Ok? ==> finalOffset == if fin && !shutdown then offset + |data| else old(finalOffset)
      ensures r.Ok? ==>
        && flow.recv.highestReceived == (if shutdown then old(flow.recv.highestReceived)
                                         else Max(old(flow.recv.highestReceived), offset + |data|))
        && flow.recv.bytesRead == (if newly then flow.recv.highestReceived else old(flow.recv.bytesRead))
      ensures if shutdown || cancelledLocally then frameQueue.gapTree == old(frameQueue.gapTree)
              else
                r.FlowControlFailure?
                || F.Shrunk(old(frameQueue.gapTree), frameQueue.gapTree, offset, offset + |data|)
      ensures shutdown ==> r.Ok? && !newly
      ensures r.TooManyGaps? ==> !shutdown && !cancelledLocally && |frameQueue.gapTree| > F.MAX_STREAM_FRAME_SORTER_GAPS
      ensures honest <==>
        old(honest) && (!shutdown && !cancelledLocally && !r.FlowControlFailure? ==> F.SliceOf(data, offset, S))
    {
      hide FlowControl.Stream.Valid, F.Sorter.Valid, Queued, F.SliceOf, F.Shrunk;
      if shutdown {
        return Ok, false;
      }
      var ok := Admit(offset + |data|, fin);
      if !ok {
        return FlowControlFailure, false;
      }
      if !cancelledLocally {
        ok := Store(data, offset, done);
        if !ok {
          return TooManyGaps, false;
        }
      }
      newly := Release();
      r := Ok;
    }

    method Store(data: seq<Byte>, offset: nat, done: Option<F.Callback>) returns (ok: bool)
      requires QueueOk() && CursorOk() && offset + |data| <= flow.recv.highestReceived
      modifies `honest, frameQueue`queue, frameQueue`gapTree, frameQueue`called
      ensures ok ==> QueueOk() && CursorOk()
      ensures honest <==> old(honest) && F.SliceOf(data, offset, S)
      ensures F.Shrunk(old(frameQueue.gapTree), frameQueue.gapTree, offset, offset + |data|)
      ensures !ok ==> |frameQueue.gapTree| > F.MAX_STREAM_FRAME_SORTER_GAPS
    {
      hide F.Sorter.Valid, F.Sorter.Ledger, F.CbOf, Queued, F.SliceOf, F.HasByte, F.Shrunk, F.Provenance;
      ghost var q0 := frameQueue.queue;
      ok := frameQueue.Push(data, offset, done);
      if ok {
        QueuedPush(q0, frameQueue.queue, data, offset, flow.recv.highestReceived, S, honest);
      }
      honest := honest && F.SliceOf(data, offset, S);
    }

    // The stream was reset; data up to reliable is still to be delivered. If the application
    // had cancelled reading, completion is due now. Then all credit is returned if and only if
    // everything promised had been read by then.
    method HandleResetStreamFrame(finalSize: nat, reliable: nat) returns (r: Handled, newly: bool)
      requires Valid() && reliable <= finalSize < MAX_BYTE_COUNT
      modifies `finalOffset, `completed, `reliableSize, `cancelledRemotely, flow`recv, flow`receivedFinalOffset,
        flow.connection`recv, flow.connection`books
      ensures r.Ok? ==> SameWindows()
      ensures r.FlowControlFailure? <==>
        !shutdown && !(old(flow.FinalSizeOk(finalSize, true)) && old(flow.CreditOk(finalSize)))
      ensures r.Ok? ==> Valid() && Reported(old(completed), completed, newly)
      ensures r.Ok? && newly ==> cancelledLocally && (Settled() <==> reliable <= readPos)
      ensures r.Ok? && shutdown ==> unchanged(this) && flow.recv == old(flow.recv)
      ensures r.Ok? && !shutdown ==>
        && finalOffset == finalSize && flow.recv.highestReceived == Max(old(flow.recv.highestReceived), finalSize)
        && reliableSize == old(LowerReliable(reliable))
        && cancelledRemotely == (old(cancelledRemotely) || !cancelledLocally)
        && flow.recv.bytesRead == (if readPos >= reliableSize then flow.recv.highestReceived
                                   else old(flow.recv.bytesRead))
      ensures !r.TooManyGaps?
    {
      hide FlowControl.Stream.Valid, F.Sorter.Valid, Queued, F.SliceOf;
      if shutdown {
        return Ok, false;
      }
      var ok := Admit(finalSize, true);
      if !ok {
        return FlowControlFailure, false;
      }
      Cancel(reliable);
      newly := IsNewlyCompleted();
      r := Ok;
    }

    // The first reset sets the reliable size, later ones can only lower it.
    function LowerReliable(reliable: nat): nat
      reads `cancelledRemotely, `reliableSize
    {
      if (!cancelledRemotely && reliableSize == 0) || reliable < reliableSize then reliable else reliableSize
    }

    // Lowers the reliable size, and returns all credit if that much was read.
    method Cancel(reliable: nat)
      requires flow.Valid() && CursorOk() && QueueOk() && CreditCore() && FinalKnown() && reliable <= finalOffset
      modifies `reliableSize, `cancelledRemotely, flow`recv, flow.connection`recv, flow.connection`books
      ensures SameWindows()
      ensures flow.Valid() && CursorOk() && QueueOk() && CreditCore()
      ensures reliableSize == old(LowerReliable(reliable))
      ensures readPos >= reliableSize ==> Settled()
      ensures readPos < reliableSize ==> flow.recv.bytesRead == old(flow.recv.bytesRead)
      ensures flow.recv.highestReceived == old(flow.recv.highestReceived)
      ensures cancelledRemotely == (old(cancelledRemotely) || !cancelledLocally)
    {
      hide FlowControl.Stream.Valid, F.Sorter.Valid, Queued, F.SliceOf, ReceiveStream.CursorOk;
      if (!cancelledRemotely && reliableSize == 0) || reliable < reliableSize {
        reliableSize := reliable;
      }
      if readPos >= reliableSize {
        flow.Abandon();
      }
      if cancelledRemotely || cancelledLocally {
        return;
      }
      cancelledRemotely := true;
    }

    // The application gives up on the stream.
    method CancelRead() returns (stopSending: bool, newly: bool)
      requires Valid()
      modifies `cancelledLocally, `queuedStopSending, `completed, flow`recv, flow.connection`recv, flow.connection`books
      ensures SameWindows()
      ensures Valid() && Reported(old(completed), completed, newly)
      ensures newly ==> Settled()
      ensures cancelledLocally == (old(cancelledLocally) || !shutdown)
      ensures !newly ==> flow.recv == old(flow.recv) && flow.connection.recv == old(flow.connection.recv)
      ensures flow.recv.highestReceived == old(flow.recv.highestReceived)
      ensures stopSending <==> !old(cancelledLocally) && !shutdown && !errorRead && !cancelledRemotely
    {
      hide FlowControl.Stream.Valid, F.Sorter.Valid, Queued, F.SliceOf;
      stopSending := false;
      if !cancelledLocally && !shutdown {
        cancelledLocally := true;
        if !errorRead && !cancelledRemotely {
          queuedStopSending := true;
          stopSending := true;
        }
      }
      newly := Release();
    }

    method CloseForShutdown()
      requires Valid()
      modifies `shutdown
      ensures Valid() && shutdown
    {
      hide FlowControl.Stream.Valid, F.Sorter.Valid, Queued, F.SliceOf;
      shutdown := true;
    }
  }
}
