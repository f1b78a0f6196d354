// The sending half of a stream: a state machine over writes, packet assembly,
// acknowledgements, losses and cancellation.
module Sending {
  import opened Protocol
  import opened Wire
  import opened Delivery
  import FlowControl

  const MAX_PACKET_BUFFER_SIZE := 1452

  datatype WriteError = NoError | ResetError | ShutdownError | ClosedError | DeadlineError | LimitReached | WouldBlock

  // What a Write call does next: return n and an error, or wait to be woken.
  datatype WriteStatus = Return(n: nat, err: WriteError) | Wait

  // One turn of a Write call: go on waiting, leave with n bytes accepted, or leave late.
  datatype Turn = Stay | Leave(n: nat) | Limited(n: nat) | Late(n: nat)

  // What packet assembly gets: a frame, maybe a notice that the stream is now blocked, and
  // whether to ask again.
  datatype PopResult = PopResult(frame: Option<StreamFrame>, blockedAt: Option<nat>, hasMore: bool)

  // How many of the RESET frames carry the given reliable size.
  ghost function Matching(rs: seq<ResetFrame>, reliable: nat): nat {
    if rs == [] then 0 else (if rs[0].reliableSize == reliable then 1 else 0) + Matching(rs[1..], reliable)
  }

  lemma {:induction false} MatchingConcat(a: seq<ResetFrame>, b: seq<ResetFrame>, reliable: nat)
    ensures Matching(a + b, reliable) == Matching(a, reliable) + Matching(b, reliable)
  {
    if a == [] {
      assert a + b == b;
    } else {
      MatchingConcat(a[1..], b, reliable);
      assert (a + b)[1..] == a[1..] + b;
    }
  }

  lemma MatchingRemove(rs: seq<ResetFrame>, i: nat, reliable: nat)
    requires i < |rs|
    ensures Matching(rs, reliable) ==
      Matching(Remove(rs, i), reliable) + if rs[i].reliableSize == reliable then 1 else 0
  {
    assert rs == rs[..i] + ([rs[i]] + rs[i + 1..]);
    MatchingConcat(rs[..i], [rs[i]] + rs[i + 1..], reliable);
    MatchingConcat([rs[i]], rs[i + 1..], reliable);
    MatchingConcat(rs[..i], rs[i + 1..], reliable);
  }

  lemma {:induction false} MatchingNone(rs: seq<ResetFrame>, reliable: nat)
    requires forall i :: 0 <= i < |rs| ==> rs[i].reliableSize != reliable
    ensures Matching(rs, reliable) == 0
  {
    if rs != [] { MatchingNone(rs[1..], reliable); }
  }

  // The buffered frame, which starts at offset, reaches beyond the reliable size.
  ghost predicate Beyond(frame: Option<StreamFrame>, offset: nat, reliable: nat) {
    frame.Some? && offset + |frame.value.data| > reliable
  }

  // Where FINs can be once a stream is reset by r: at the final size, or at the reliable size.
  function CutAt(r: ResetFrame): nat {
    if r.reliableSize > 0 then r.reliableSize else r.finalSize
  }

  // The first frame of queue q is sent again, or as much of it as fits; q' is the rest.
  ghost predicate Resent(q: Frames, q': Frames, maxBytes: nat, frame: Option<StreamFrame>)
    requires q != []
  {
    if q[0].Length() <= maxBytes then frame == Some(q[0]) && q' == q[1..]
    else if q[0].MaxDataLen(maxBytes) == 0 then frame.None? && q' == q
    else
      && frame.Some? && |frame.value.data| == q[0].MaxDataLen(maxBytes) <= |q[0].data|
      && frame.value == q[0].(data := q[0].data[..|frame.value.data|], fin := false)
      && q' == q[0 := q[0].(data := q[0].data[|frame.value.data|..], offset := frame.value.End())]
  }

  lemma SplitIsResent(q: Frames, maxBytes: nat)
    requires q != [] && SizeExact(q[0], maxBytes) && (q[0].data == [] ==> q[0].fin)
    ensures match MaybeSplitOff(q[0], maxBytes)
      case TooSmall => Resent(q, q, maxBytes, None)
      case Fits => Resent(q, q[1..], maxBytes, Some(q[0]))
      case SplitOff(first, rest) => Resent(q, q[0 := rest], maxBytes, Some(first))
  {
    var s := MaybeSplitOff(q[0], maxBytes);
    if s.SplitOff? {
      assert s.first.data == q[0].data[..|s.first.data|] && s.rest.data == q[0].data[|s.first.data|..];
      assert s.rest == q[0].(data := q[0].data[|s.first.data|..], offset := s.first.End());
    }
  }

  class SendStream {
    const streamID: nat
    const flow: FlowControl.Stream

    var numOutstandingFrames: int
    var retransmissionQueue: Frames
    var reliableSize: nat
    var writeOffset: nat
    var shutdown: bool
    var resetErr: Option<nat>
    var queuedReset: Option<ResetFrame>
    var dataForWriting: seq<Byte>
    var hasLimiter: bool
    var writeLimited: bool
    var nextFrame: Option<StreamFrame>
    var nextFrameReserved: bool
    var supportsResetStreamAt: bool
    var finishedWriting: bool
    var finSent: bool
    var cancellationFlagged: bool
    var completed: bool
    var writeActive: bool // a Write call is under way; there is at most one
    var writing: seq<Byte> // what that call was given

    // What happened so far: the bytes sent, the frames handed out and not yet acknowledged or
    // lost, those acknowledged, and every RESET frame built.
    ghost var sent: seq<Byte>
    ghost var inFlight: Frames
    ghost var acked: Frames
    ghost var resetsInFlight: seq<ResetFrame>
    ghost var resetsBuilt: seq<ResetFrame>
    ghost var goal: seq<Byte> // what the stream carries once the current Write is through

    function ReliableOffset(): nat
      reads `supportsResetStreamAt, `reliableSize
    {
      if supportsResetStreamAt then reliableSize else 0
    }

    function Buffered(): seq<Byte>
      reads `nextFrame
    {
      if nextFrame.Some? then nextFrame.value.data else []
    }

    // The content of the stream: sent, buffered, and still to be taken from the current Write.
    ghost function Content(): seq<Byte>
      reads `sent, `nextFrame, `dataForWriting
    {
      sent + Buffered() + dataForWriting
    }

    // The bytes below this offset are delivered reliably.
    ghost function Limit(): nat
      reads `shutdown, `resetErr, `writeOffset, `supportsResetStreamAt, `reliableSize
    {
      if shutdown then 0 else if resetErr.Some? then Min(writeOffset, ReliableOffset()) else writeOffset
    }

    ghost predicate Basics()
      reads `sent, `writeOffset, `nextFrame, `nextFrameReserved, `finSent, `finishedWriting, `dataForWriting,
        `writeLimited, `hasLimiter, `writeActive, `writing, `goal
    {
      && |sent| == writeOffset
      && (nextFrame.Some? ==>
            && nextFrame.value == StreamFrame(streamID, writeOffset, nextFrame.value.data, false, true)
            && nextFrame.value.data != [])
      && (nextFrameReserved ==> nextFrame.Some?)
      && (finSent ==> finishedWriting && nextFrame.None? && dataForWriting == [])
      && (writeLimited ==> hasLimiter && nextFrame.None?)
      && (hasLimiter ==> writeActive)
      && (writeActive ==> |dataForWriting| <= |writing| <= |goal|)
    }

    ghost predicate ShapeOk()
      reads `sent, `writeOffset, `nextFrame, `nextFrameReserved, `finSent, `finishedWriting, `dataForWriting,
        `writeLimited, `hasLimiter, `writeActive, `writing, `resetErr, `shutdown, `goal, `reliableSize,
        `supportsResetStreamAt
    {
      && Basics()
      && (resetErr.None? && !shutdown ==>
            && reliableSize <= writeOffset + |Buffered()|
            && (if writeActive then Content() == goal else dataForWriting == []))
      && (resetErr.Some? && !shutdown && writeOffset < ReliableOffset() ==>
          writeOffset + |Buffered()| >= ReliableOffset())
    }

    ghost predicate DeliveryOk()
      reads `sent, `inFlight, `acked, `retransmissionQueue, `finSent, `shutdown, `resetErr, `resetsBuilt, `writeOffset,
        `supportsResetStreamAt, `reliableSize
    {
      && Tracked(acked, inFlight, retransmissionQueue, sent, Limit(), resetErr.None? && !shutdown, finSent)
      && FinOk()
    }

    // Once the stream is reset, FINs are at the final size announced first, or at the reliable size.
    ghost predicate FinOk()
      reads `resetErr, `resetsBuilt, `inFlight, `retransmissionQueue
    {
      resetErr.Some? && resetsBuilt != [] ==> FinsFit(resetsBuilt[0])
    }

    ghost predicate FinsFit(r: ResetFrame)
      reads `inFlight, `retransmissionQueue
    {
      FinEither(inFlight, r.finalSize, CutAt(r)) && FinEither(retransmissionQueue, r.finalSize, CutAt(r))
    }

    // The outstanding frames are the STREAM frames still tracked and the RESET frames that
    // announce the current reliable size.
    ghost predicate CounterOk()
      reads `numOutstandingFrames, `inFlight, `resetsInFlight, `resetErr, `queuedReset, `supportsResetStreamAt,
        `reliableSize
    {
      && numOutstandingFrames == (if resetErr.Some? && ReliableOffset() == 0 then 0 else |inFlight|)
                                 + Matching(resetsInFlight, ReliableOffset())
      && (resetErr.None? ==> queuedReset.None? && resetsInFlight == [])
      && (ReliableOffset() > 0 ==> forall i :: 0 <= i < |resetsInFlight| ==> resetsInFlight[i].reliableSize > 0)
      && (queuedReset.Some? ==> queuedReset.value.reliableSize == ReliableOffset())
    }

    // Nothing that is sent, or still to be sent, lies beyond any final size announced. The reliable
    // size is that announced first, until it is given up.
    ghost predicate WithinFinalSize()
      reads `writeOffset, `resetsBuilt, `supportsResetStreamAt, `reliableSize
    {
      && |resetsBuilt| >= 1 && (ReliableOffset() == 0 || ReliableOffset() == resetsBuilt[0].reliableSize)
      && forall i :: 0 <= i < |resetsBuilt| ==>
           && writeOffset <= resetsBuilt[i].finalSize && ReliableOffset() <= resetsBuilt[i].finalSize
           && (i > 0 ==> resetsBuilt[i].reliableSize == 0)
    }

    // Credit is taken for what was sent and what is reserved. If nothing is to be delivered
    // reliably, a RESET announces exactly that as the final size, and there is only one.
    ghost predicate CreditOk()
      reads `resetErr, `shutdown, `writeOffset, `nextFrame, `nextFrameReserved, `supportsResetStreamAt, `resetsBuilt,
        `finSent, `reliableSize, flow`bytesSent
    {
      && (resetErr.None? ==> resetsBuilt == [])
      && (resetErr.None? && !shutdown ==>
            flow.bytesSent == writeOffset + if nextFrameReserved then |Buffered()| else 0)
      && (resetErr.Some? ==> WithinFinalSize())
      && (resetErr.Some? && resetsBuilt[0].reliableSize == 0 ==>
            && |resetsBuilt| == 1
            && resetsBuilt[0].finalSize == flow.bytesSent
            && (finSent ==> resetsBuilt[0].finalSize == writeOffset))
    }

    ghost predicate Valid()
      reads this, flow`bytesSent
    {
      ShapeOk() && DeliveryOk() && CounterOk() && CreditOk()
    }

    // Everything this side promised to deliver has been acknowledged.
    ghost predicate Delivered()
      reads `finSent, `writeOffset, `acked, `resetErr, `resetsInFlight, `queuedReset, `supportsResetStreamAt,
        `reliableSize
    {
      && (resetErr.None? ==>
            && finSent
            && (forall p: nat :: p < writeOffset ==> Total(acked, CoverAt(p)) == 1)
            && Total(acked, Fin()) == 1)
      && (resetErr.Some? ==>
            && (forall p: nat :: p < ReliableOffset() ==> Total(acked, CoverAt(p)) == 1)
            && queuedReset.None? && Matching(resetsInFlight, ReliableOffset()) == 0)
    }

    constructor (streamID: nat, flow: FlowControl.Stream, supportsResetStreamAt: bool)
      requires flow.bytesSent == 0
      ensures Valid() && this.flow == flow && this.streamID == streamID
      ensures writeOffset == 0 && reliableSize == 0 && sent == [] && nextFrame.None? && dataForWriting == []
        && !writeActive
      ensures retransmissionQueue == [] && !writeLimited && !nextFrameReserved && numOutstandingFrames == 0
      ensures resetErr.None? && !shutdown && !finishedWriting && !completed && inFlight == []
      ensures this.supportsResetStreamAt == supportsResetStreamAt
    {
      this.streamID, this.flow, this.supportsResetStreamAt := streamID, flow, supportsResetStreamAt;
      numOutstandingFrames, retransmissionQueue, reliableSize, writeOffset := 0, [], 0, 0;
      shutdown, resetErr, queuedReset := false, None, None;
      dataForWriting, hasLimiter, writeLimited, nextFrame, nextFrameReserved := [], false, false, None, false;
      finishedWriting, finSent, cancellationFlagged, completed, writeActive, writing :=
        false, false, false, false, false, [];
      sent, inFlight, acked, resetsInFlight, resetsBuilt, goal := [], [], [], [], [], [];
    }

    // With nothing buffered, outstanding or queued, everything was delivered.
    lemma Through()
      requires Valid()
      ensures nextFrame.Some? ==> |nextFrame.value.data| > 0
      ensures !shutdown && nextFrame.None? && numOutstandingFrames <= 0 && retransmissionQueue == [] ==>
        queuedReset.None? && (finSent || resetErr.Some?) ==> Delivered()
    {
      hide FinOk, CreditOk;
    }

    method IsNewlyCompleted() returns (newly: bool)
      requires Valid()
      modifies `completed
      ensures Valid() && completed == (old(completed) || newly)
      ensures newly ==> !old(completed)
      ensures newly && !shutdown ==> Delivered()
      ensures newly ==> nextFrame.None?
      ensures newly <==>
        && !old(completed) && nextFrame.None? && numOutstandingFrames <= 0 && retransmissionQueue == []
        && queuedReset.None?
        && (finSent || (resetErr.Some? && (cancellationFlagged || finishedWriting)))
    {
      hide ShapeOk, DeliveryOk, CounterOk, CreditOk, Delivered;
      Through();
      if completed {
        return false;
      }
      if nextFrame.Some? && |nextFrame.value.data| > 0 {
        return false;
      }
      if numOutstandingFrames > 0 || |retransmissionQueue| > 0 || queuedReset.Some? {
        return false;
      }
      if finSent {
        completed := true;
        return true;
      }
      if resetErr.Some? && (cancellationFlagged || finishedWriting) {
        completed := true;
        return true;
      }
      return false;
    }

    // All that was written has been sent and is not lost, apart from the FIN.
    ghost predicate Drained()
      reads this
    {
      !shutdown && retransmissionQueue == [] && !writeLimited && nextFrame.None? && dataForWriting == []
    }

    // Nothing can be sent until something changes.
    ghost predicate Idle()
      reads this
    {
      || shutdown
      || (resetErr.Some? && (ReliableOffset() == 0 || writeOffset >= ReliableOffset())
          && (ReliableOffset() > 0 ==> retransmissionQueue == []))
      || (retransmissionQueue == [] && writeLimited)
      || (retransmissionQueue == [] && nextFrame.None? && dataForWriting == [] && (finishedWriting ==> finSent))
    }

    // Takes the next n bytes from the buffered frame or the current Write.
    method CutNew(n: nat) returns (f: StreamFrame, hasMore: bool)
      requires ShapeOk() && 0 < n <= if nextFrame.Some? then |Buffered()| else |dataForWriting|
      modifies `nextFrame, `nextFrameReserved, `dataForWriting
      ensures f == StreamFrame(streamID, writeOffset, f.data, false, true) && |f.data| == n
      ensures nextFrame.Some? ==>
        nextFrame.value == StreamFrame(streamID, writeOffset + n, nextFrame.value.data, false, true)
          && nextFrame.value.data != []
      ensures if old(nextFrame.Some?) then
          f.data + Buffered() == old(Buffered()) && dataForWriting == old(dataForWriting)
        else
          nextFrame.None? && f.data + dataForWriting == old(dataForWriting)
      ensures nextFrameReserved == (old(nextFrameReserved) && nextFrame.Some?)
      ensures hasMore <==> nextFrame.Some? || dataForWriting != [] || (old(nextFrame.None?) && finishedWriting)
      ensures old(nextFrame.Some?) && writeOffset + n <= ReliableOffset() ==>
        Beyond(nextFrame, writeOffset + n, ReliableOffset()) == old(Overfull())
    {
      if nextFrame.Some? {
        var data := nextFrame.value.data;
        f := nextFrame.value.(data := data[..n]);
        if |data| > n {
          nextFrame := Some(StreamFrame(streamID, writeOffset + n, data[n..], false, true));
        } else {
          nextFrame := None;
          nextFrameReserved := false;
        }
        hasMore := nextFrame.Some? || dataForWriting != [];
      } else {
        f := StreamFrame(streamID, writeOffset, dataForWriting[..n], false, true);
        dataForWriting := dataForWriting[n..];
        hasMore := dataForWriting != [] || finishedWriting;
      }
    }

    // What must hold for the frame f, with n bytes cut off the pending data, to go out.
    ghost predicate Launchable(f: StreamFrame, n: nat)
      reads this, flow`bytesSent
    {
      && !shutdown && !finSent
      && |sent| == writeOffset == f.offset && |f.data| == n && (n == 0 ==> f.fin)
      && (nextFrame.Some? ==>
            nextFrame.value == StreamFrame(streamID, writeOffset + n, nextFrame.value.data, false, true)
              && nextFrame.value.data != [])
      && (nextFrameReserved ==> nextFrame.Some?)
      && (f.fin <==> finishedWriting && dataForWriting == [] && nextFrame.None?)
      && (writeLimited ==> hasLimiter && nextFrame.None?)
      && (hasLimiter ==> writeActive)
      && (writeActive ==> |dataForWriting| <= |writing| <= |goal|)
      && (resetErr.None? ==>
            && resetsBuilt == []
            && flow.bytesSent == writeOffset + n + (if nextFrameReserved then |Buffered()| else 0)
            && reliableSize <= writeOffset + n + |Buffered()|
            && (if writeActive then sent + f.data + Buffered() + dataForWriting == goal else dataForWriting == []))
      && (resetErr.Some? ==>
            && supportsResetStreamAt && 0 < ReliableOffset()
            && writeOffset + n <= ReliableOffset() <= writeOffset + n + |Buffered()|
            && WithinFinalSize())
    }

    // Sends the next n bytes, for which credit has been taken.
    method TakeNew(n: nat) returns (f: StreamFrame, hasMore: bool)
      requires ShapeOk() && DeliveryOk() && CounterOk()
      requires !shutdown && 0 < n <= if nextFrame.Some? then |Buffered()| else |dataForWriting|
      requires resetErr.None? ==> resetsBuilt == []
      requires resetErr.None? ==> flow.bytesSent == writeOffset + if nextFrameReserved then |Buffered()| else n
      requires resetErr.Some? ==>
        supportsResetStreamAt && nextFrame.Some? && writeOffset + n <= ReliableOffset() && WithinFinalSize()
      modifies `nextFrame, `nextFrameReserved, `dataForWriting, `writeOffset, `finSent, `numOutstandingFrames, `sent,
        `inFlight
      ensures Valid() && Content() == old(Content())
      ensures f.offset == old(writeOffset) && |f.data| == n && f.id == streamID && f.dataLenPresent
      ensures sent == old(sent) + f.data && inFlight == old(inFlight) + [f]
      ensures !hasMore ==> nextFrame.None? && dataForWriting == [] && (finishedWriting ==> finSent)
      ensures finSent == (old(finSent) || f.fin)
      ensures resetErr.Some? && f.fin ==> f.End() == ReliableOffset()
      ensures f.fin <==> finishedWriting && nextFrame.None? && dataForWriting == []
      ensures resetErr.Some? ==> dataForWriting == old(dataForWriting) && writeOffset <= ReliableOffset()
      ensures resetErr.Some? ==> Overfull() == old(Overfull())
    {
      hide DeliveryOk, CounterOk, CreditOk, Beyond, ShapeOk, Launchable, Content;
      f, hasMore := PrepareNew(n);
      Launch(f, n);
    }

    method PrepareNew(n: nat) returns (f: StreamFrame, hasMore: bool)
      requires ShapeOk() && !shutdown && 0 < n <= if nextFrame.Some? then |Buffered()| else |dataForWriting|
      requires resetErr.None? ==> resetsBuilt == []
      requires resetErr.None? ==> flow.bytesSent == writeOffset + if nextFrameReserved then |Buffered()| else n
      requires resetErr.Some? ==>
        supportsResetStreamAt && nextFrame.Some? && writeOffset + n <= ReliableOffset() && WithinFinalSize()
      modifies `nextFrame, `nextFrameReserved, `dataForWriting
      ensures Launchable(f, n) && f.id == streamID && f.dataLenPresent
      ensures sent + f.data + Buffered() + dataForWriting == old(Content())
      ensures !hasMore ==> nextFrame.None? && dataForWriting == [] && (finishedWriting ==> f.fin)
      ensures resetErr.Some? ==> Beyond(nextFrame, writeOffset + n, ReliableOffset()) == old(Overfull())
      ensures resetErr.Some? && f.fin ==> writeOffset + n == ReliableOffset()
      ensures f.fin <==> finishedWriting && nextFrame.None? && dataForWriting == []
      ensures resetErr.Some? ==> dataForWriting == old(dataForWriting)
    {
      hide Beyond;
      ghost var b0, d0 := Buffered(), dataForWriting;
      f, hasMore := CutNew(n);
      f := f.(fin := finishedWriting && dataForWriting == [] && nextFrame.None? && !finSent);
      Reassociate(sent, f.data, Buffered(), dataForWriting, b0, d0);
    }

    // Books the frame f, which was cut off the pending data.
    method Launch(f: StreamFrame, ghost n: nat)
      requires DeliveryOk() && CounterOk() && Launchable(f, n)
      modifies `writeOffset, `finSent, `numOutstandingFrames, `sent, `inFlight
      ensures Valid() && Content() == old(sent) + f.data + Buffered() + dataForWriting
      ensures writeOffset == old(writeOffset) + n && finSent == f.fin && f.offset == old(writeOffset) && |f.data| == n
      ensures old(!finSent) && sent == old(sent) + f.data && inFlight == old(inFlight) + [f]
    {
      hide DeliveryOk, CounterOk;
      Enter(f);
      assert Content() == old(sent) + f.data + Buffered() + dataForWriting;
      hide Content;
    }

    // A frame with new data goes in flight.
    method Enter(f: StreamFrame)
      requires DeliveryOk() && CounterOk() && !shutdown && !finSent
      requires |sent| == writeOffset == f.offset && (f.data == [] ==> f.fin)
      requires resetErr.Some? ==> 0 < ReliableOffset() && f.End() <= ReliableOffset() && WithinFinalSize()
      requires resetErr.Some? && f.fin ==> f.End() == ReliableOffset()
      modifies `writeOffset, `finSent, `numOutstandingFrames, `sent, `inFlight
      ensures DeliveryOk() && CounterOk()
      ensures writeOffset == old(writeOffset) + |f.data| == |sent| && finSent == f.fin
      ensures sent == old(sent) + f.data && inFlight == old(inFlight) + [f]
    {
      hide Tracked, Matching, FinEither;
      SendTracked(acked, inFlight, retransmissionQueue, sent, resetErr.None?, f);
      if resetErr.Some? { EitherMoves(inFlight, resetsBuilt[0].finalSize, CutAt(resetsBuilt[0])); }
      writeOffset := writeOffset + |f.data|;
      finSent := f.fin;
      numOutstandingFrames := numOutstandingFrames + 1;
      inFlight := inFlight + [f];
      sent := sent + f.data;
    }

    // The credit left, on the tighter level.
    function Room(): int
      reads flow`bytesSent, flow`sendWindow, flow.connection`bytesSent, flow.connection`sendWindow
    {
      Min(flow.sendWindow - flow.bytesSent, flow.connection.sendWindow - flow.connection.bytesSent)
    }

    // There is new data, and it may be sent.
    predicate Offers()
      reads `shutdown, `retransmissionQueue, `writeLimited, `nextFrame, `dataForWriting, `resetErr, `writeOffset,
        `supportsResetStreamAt, `reliableSize
    {
      && !shutdown && retransmissionQueue == [] && !writeLimited && (nextFrame.Some? || dataForWriting != [])
      && (resetErr.Some? ==> writeOffset < ReliableOffset())
    }

    // As much of it as credit, reliable size and the size of the frame allow.
    function Want(maxBytes: nat): int
      reads `nextFrame, `nextFrameReserved, `dataForWriting, `writeOffset, `resetErr, `supportsResetStreamAt,
        `reliableSize, flow`bytesSent, flow`sendWindow, flow.connection`bytesSent, flow.connection`sendWindow
    {
      var data := if nextFrame.Some? then |Buffered()| else |dataForWriting|;
      var credit := if nextFrameReserved then |Buffered()| else Room();
      var reliable := if resetErr.Some? && ReliableOffset() > 0 then ReliableOffset() - writeOffset else data;
      Min(Min(credit, reliable), Min(Blank().MaxDataLen(maxBytes), data))
    }

    // ... and as the limiter allows, unless the data was accepted already.
    function Granted(want: int, answer: int): int
      reads `hasLimiter, `nextFrame
    {
      if hasLimiter && nextFrame.None? then Min(want, Max(answer, 0)) else want
    }

    function Share(maxBytes: nat, answer: int): int
      reads `hasLimiter, `nextFrame, `nextFrameReserved, `dataForWriting, `writeOffset, `resetErr,
        `supportsResetStreamAt, `reliableSize, flow`bytesSent, flow`sendWindow, flow.connection`bytesSent,
        flow.connection`sendWindow
    {
      Granted(Want(maxBytes), answer)
    }

    // The peer learns that the stream is blocked if and only if new data has used up the stream's credit,
    // once per limit.
    ghost predicate Announces(blockedAt: Option<nat>, sentMore: bool, lastBlockedAt: nat)
      reads flow`bytesSent, flow`sendWindow, flow`lastBlockedAt
    {
      && (blockedAt.Some? <==> sentMore && flow.bytesSent == flow.sendWindow != lastBlockedAt)
      && (blockedAt.Some? ==> blockedAt.value == flow.sendWindow == flow.lastBlockedAt)
      && (blockedAt.None? ==> flow.lastBlockedAt == lastBlockedAt)
    }

    // Takes credit for up to want new bytes. With a limiter, answer is what it allows.
    method TakeCredit(want: nat, answer: int) returns (n: nat, hasMore: bool)
      requires Valid() && flow.Valid() && !shutdown && 0 < want
      requires resetErr.Some? ==> supportsResetStreamAt
      requires nextFrame.Some? ==> want <= |Buffered()|
      requires !nextFrameReserved ==> want <= Room()
      modifies `writeLimited, flow`bytesSent, flow.connection`bytesSent, flow.connection`books
      ensures flow.Valid() && flow.connection.books.Keys == old(flow.connection.books.Keys)
      ensures ShapeOk() && DeliveryOk() && CounterOk() && n == Granted(want, answer) <= want
      ensures flow.bytesSent == old(flow.bytesSent) + if nextFrameReserved then 0 else n
      ensures n == 0 ==> Valid() && (!hasMore ==> writeLimited) && !nextFrameReserved
      ensures writeLimited ==> old(writeLimited) || (hasLimiter && nextFrame.None? && n < want)
    {
      hide Tracked, Matching, Content, FlowControl.Sum, FlowControl.Stream.Valid, FlowControl.Connection.Valid,
        DeliveryOk;
      if hasLimiter && nextFrame.None? {
        var limited;
        n, limited := flow.AddBytesSentWithLimiter(want, answer);
        if limited {
          writeLimited := true;
        }
        hasMore := !limited;
      } else if nextFrameReserved {
        n, hasMore := want, true;
      } else {
        // This never fails: there is enough.
        var ok := flow.TryAddBytesSent(want);
        assert ok;
        n, hasMore := want, true;
      }
    }

    // The next frame with new data, without its data.
    function Blank(): StreamFrame
      reads `writeOffset
    {
      StreamFrame(streamID, writeOffset, [], false, true)
    }

    // The most new bytes a frame of maxBytes may take, by flow control, the reliable size and its header.
    method NewDataLen(maxBytes: nat) returns (n: nat)
      requires Valid() && flow.Valid() && !shutdown
      requires nextFrame.Some? || dataForWriting != []
      requires resetErr.Some? ==> writeOffset < ReliableOffset()
      ensures n <= if nextFrame.Some? then |Buffered()| else |dataForWriting|
      ensures nextFrameReserved && 32 <= maxBytes ==> 0 < n
      ensures resetErr.Some? ==> writeOffset + n <= ReliableOffset()
      ensures n <= Blank().MaxDataLen(maxBytes) && n == Want(maxBytes) && (!nextFrameReserved ==> n <= Room())
      ensures resetErr.Some? ==> supportsResetStreamAt && nextFrame.Some? && WithinFinalSize()
      ensures resetErr.None? ==>
        resetsBuilt == [] && flow.bytesSent == writeOffset + if nextFrameReserved then |Buffered()| else 0
    {
      n := if nextFrameReserved then |nextFrame.value.data| else 0;
      if !nextFrameReserved {
        n := flow.SendWindowSize();
      }
      if resetErr.Some? && ReliableOffset() > 0 {
        n := Min(n, ReliableOffset() - writeOffset);
      }
      n := Min(n, Min(Blank().MaxDataLen(maxBytes),
                      if nextFrame.Some? then |nextFrame.value.data| else |dataForWriting|));
    }

    // A frame of new data, or the FIN.
    method PopNew(maxBytes: nat, answer: int) returns (r: PopResult)
      requires Valid() && flow.Valid() && maxBytes <= MAX_FRAME_SIZE
      requires !shutdown && retransmissionQueue == [] && !writeLimited
      requires resetErr.Some? ==> writeOffset < ReliableOffset()
      modifies `nextFrame, `nextFrameReserved, `dataForWriting, `writeOffset, `finSent, `numOutstandingFrames, `sent,
        `inFlight, `writeLimited, flow`bytesSent, flow`lastBlockedAt, flow.connection`bytesSent, flow.connection`books
      ensures Valid() && flow.Valid() && flow.connection.books.Keys == old(flow.connection.books.Keys)
      ensures Announces(r.blockedAt, sent != old(sent), old(flow.lastBlockedAt))
      ensures Content() == old(Content()) && (!r.hasMore ==> Idle())
      ensures resetErr.Some? ==> Overfull() == old(Overfull())
      ensures old(finSent) ==> finSent
      ensures finSent ==> old(finSent) || (r.frame.Some? && r.frame.value.fin)
      ensures resetErr.Some? ==> dataForWriting == old(dataForWriting)
      ensures resetErr.Some? ==> sent == old(sent) || writeOffset <= ReliableOffset()
      ensures old(Drained()) && resetErr.None? ==> (r.frame.Some? <==> finishedWriting && !old(finSent))
      ensures old(Offers()) ==> (r.frame.Some? <==> old(Share(maxBytes, answer)) > 0)
      ensures old(Offers()) && r.frame.Some? ==> |r.frame.value.data| == old(Share(maxBytes, answer))
      ensures r.frame.None? ==> inFlight == old(inFlight) && sent == old(sent)
      ensures r.frame.Some? ==>
        && inFlight == old(inFlight) + [r.frame.value] && sent == old(sent) + r.frame.value.data
        && r.frame.value.offset == old(writeOffset)
        && (resetErr.Some? && r.frame.value.fin ==> r.frame.value.End() == ReliableOffset())
        && (r.frame.value.fin <==> finishedWriting && nextFrame.None? && dataForWriting == [])
        && (r.frame.value.data != [] ==> r.frame.value.Length() <= maxBytes)
        && (old(nextFrame.Some?) ==> r.frame.value.data != [])
    {
      if dataForWriting == [] && nextFrame.None? {
        if finishedWriting && !finSent {
          var fin := StreamFrame(streamID, writeOffset, [], true, true);
          SendFin(fin);
          return PopResult(Some(fin), None, false);
        }
        return PopResult(None, None, false);
      }
      r := PopData(maxBytes, answer);
    }

    method PopData(maxBytes: nat, answer: int) returns (r: PopResult)
      requires Valid() && flow.Valid() && maxBytes <= MAX_FRAME_SIZE
      requires !shutdown && retransmissionQueue == [] && !writeLimited && (nextFrame.Some? || dataForWriting != [])
      requires resetErr.Some? ==> writeOffset < ReliableOffset()
      modifies `nextFrame, `nextFrameReserved, `dataForWriting, `writeOffset, `finSent, `numOutstandingFrames, `sent,
        `inFlight, `writeLimited, flow`bytesSent, flow`lastBlockedAt, flow.connection`bytesSent, flow.connection`books
      ensures Valid() && flow.Valid() && flow.connection.books.Keys == old(flow.connection.books.Keys)
      ensures Announces(r.blockedAt, sent != old(sent), old(flow.lastBlockedAt))
      ensures Content() == old(Content()) && (!r.hasMore ==> Idle())
      ensures resetErr.Some? ==> Overfull() == old(Overfull())
      ensures old(finSent) ==> finSent
      ensures finSent ==> old(finSent) || (r.frame.Some? && r.frame.value.fin)
      ensures resetErr.Some? ==> dataForWriting == old(dataForWriting)
      ensures resetErr.Some? ==> sent == old(sent) || writeOffset <= ReliableOffset()
      ensures r.frame.None? ==> inFlight == old(inFlight) && sent == old(sent)
      ensures r.frame.Some? <==> old(Share(maxBytes, answer)) > 0
      ensures r.frame.Some? ==> |r.frame.value.data| == old(Share(maxBytes, answer))
      ensures r.frame.Some? ==>
        && inFlight == old(inFlight) + [r.frame.value] && sent == old(sent) + r.frame.value.data
        && r.frame.value.offset == old(writeOffset) && r.frame.value.Length() <= maxBytes && r.frame.value.data != []
        && (resetErr.Some? && r.frame.value.fin ==> r.frame.value.End() == ReliableOffset())
        && (r.frame.value.fin <==> finishedWriting && nextFrame.None? && dataForWriting == [])
    {
      hide ShapeOk, DeliveryOk, CounterOk, CreditOk, Content, StreamFrame.Length, StreamFrame.MaxDataLen, Beyond,
        FlowControl.Stream.Valid, FlowControl.Connection.Valid, Want;
      var n := NewDataLen(maxBytes);
      if n == 0 {
        return PopResult(None, None, true);
      }
      var hasMore;
      n, hasMore := TakeCredit(n, answer);
      if n == 0 {
        return PopResult(None, None, hasMore);
      }
      r := SendNew(n, maxBytes);
    }

    // A frame with the next n bytes, for which credit has been taken.
    method SendNew(n: nat, ghost maxBytes: nat) returns (r: PopResult)
      requires ShapeOk() && DeliveryOk() && CounterOk() && flow.Valid() && !shutdown && retransmissionQueue == []
      requires 0 < n <= (if nextFrame.Some? then |Buffered()| else |dataForWriting|) && maxBytes <= MAX_FRAME_SIZE
      requires n <= Blank().MaxDataLen(maxBytes)
      requires resetErr.None? ==> resetsBuilt == []
      requires resetErr.None? ==> flow.bytesSent == writeOffset + if nextFrameReserved then |Buffered()| else n
      requires resetErr.Some? ==>
        supportsResetStreamAt && nextFrame.Some? && writeOffset + n <= ReliableOffset() && WithinFinalSize()
      modifies `nextFrame, `nextFrameReserved, `dataForWriting, `writeOffset, `finSent, `numOutstandingFrames, `sent,
        `inFlight, flow`lastBlockedAt
      ensures Valid() && flow.Valid() && Content() == old(Content()) && (!r.hasMore ==> Idle())
      ensures Announces(r.blockedAt, sent != old(sent), old(flow.lastBlockedAt))
      ensures resetErr.Some? ==> Overfull() == old(Overfull())
      ensures r.frame.Some? && finSent == (old(finSent) || r.frame.value.fin)
      ensures resetErr.Some? ==> dataForWriting == old(dataForWriting) && writeOffset <= ReliableOffset()
      ensures resetErr.Some? && r.frame.value.fin ==> r.frame.value.End() == ReliableOffset()
      ensures r.frame.value.fin <==> finishedWriting && nextFrame.None? && dataForWriting == []
      ensures inFlight == old(inFlight) + [r.frame.value] && sent == old(sent) + r.frame.value.data
      ensures r.frame.value.offset == old(writeOffset) && r.frame.value.Length() <= maxBytes
        && |r.frame.value.data| == n
    {
      hide ShapeOk, DeliveryOk, CounterOk, CreditOk, Content, StreamFrame.Length, StreamFrame.MaxDataLen, Beyond,
        FlowControl.Stream.Valid, FlowControl.Connection.Valid;
      ghost var offset := writeOffset;
      var f, hasMore := TakeNew(n);
      SizedFrameFits(f, streamID, offset, maxBytes);
      if (resetErr.Some? && writeOffset >= ReliableOffset()) || writeLimited {
        hasMore := false;
      }
      var isBlocked, at := flow.IsNewlyBlocked();
      r := PopResult(Some(f), if isBlocked then Some(at) else None, hasMore);
    }

    // All data is out already: an empty frame with the FIN.
    method SendFin(f: StreamFrame)
      requires Valid() && !shutdown && resetErr.None?
      requires dataForWriting == [] && nextFrame.None? && finishedWriting && !finSent
      requires f == StreamFrame(streamID, writeOffset, [], true, true)
      modifies `writeOffset, `finSent, `numOutstandingFrames, `sent, `inFlight
      ensures Valid() && Content() == old(Content())
      ensures finSent && sent == old(sent) && inFlight == old(inFlight) + [f]
    {
      assert sent + f.data == sent;
      assert sent + f.data + Buffered() + dataForWriting == Content();
      hide Tracked, Matching, DeliveryOk;
      Launch(f, 0);
    }

    // The frame at the head of the retransmission queue, or the part of it that fits.
    method PopRetransmission(maxBytes: nat) returns (frame: Option<StreamFrame>)
      requires Valid() && retransmissionQueue != [] && maxBytes <= MAX_FRAME_SIZE
      requires resetErr.Some? ==> ReliableOffset() > 0
      modifies `retransmissionQueue, `numOutstandingFrames, `inFlight
      ensures Valid()
      ensures frame.None? ==> inFlight == old(inFlight)
      ensures frame.Some? ==> inFlight == old(inFlight) + [frame.value] && frame.value.Length() <= maxBytes
      ensures Resent(old(retransmissionQueue), retransmissionQueue, maxBytes, frame)
    {
      var f := retransmissionQueue[0];
      assert CarriesSlice(f, sent);
      hide Tracked, ShapeOk, CreditOk, CounterOk, StreamFrame.Length, StreamFrame.MaxDataLen;
      FlightEither();
      hide FinEither, FinOk, Resent;
      SplitIsResent(retransmissionQueue, maxBytes);
      var split := MaybeSplitOff(f, maxBytes);
      match split {
        case TooSmall => return None;
        case Fits =>
          RetransmitTracked(acked, inFlight, retransmissionQueue, sent, Limit(), resetErr.None? && !shutdown, finSent);
          Resend(f, retransmissionQueue[1..]);
          frame := Some(f);
        case SplitOff(first, rest) =>
          RetransmitPartTracked(acked, inFlight, retransmissionQueue, sent, Limit(),
                                resetErr.None? && !shutdown, finSent, first, rest);
          Resend(first, retransmissionQueue[0 := rest]);
          frame := Some(first);
      }
    }

    // What remains of the FINs when frames move.
    lemma FlightEither()
      requires FinOk()
      ensures resetErr.Some? && resetsBuilt != [] ==>
        && (forall f: StreamFrame :: FitsReset(f) ==>
            FinEither(inFlight + [f], resetsBuilt[0].finalSize, CutAt(resetsBuilt[0])))
        && (forall f: StreamFrame :: FitsReset(f) ==>
              FinEither(retransmissionQueue + [f], resetsBuilt[0].finalSize, CutAt(resetsBuilt[0])))
        && (forall f: StreamFrame :: retransmissionQueue != [] && FitsReset(f) ==>
              FinEither(retransmissionQueue[0 := f], resetsBuilt[0].finalSize, CutAt(resetsBuilt[0])))
        && (retransmissionQueue != [] ==>
              && FitsReset(retransmissionQueue[0])
              && FinEither(retransmissionQueue[1..], resetsBuilt[0].finalSize, CutAt(resetsBuilt[0])))
        && (forall i :: 0 <= i < |inFlight| ==>
              FitsReset(inFlight[i]) && FinEither(Remove(inFlight, i), resetsBuilt[0].finalSize, CutAt(resetsBuilt[0])))
    {
      if resetErr.Some? && resetsBuilt != [] {
        EitherMoves(inFlight, resetsBuilt[0].finalSize, CutAt(resetsBuilt[0]));
        EitherMoves(retransmissionQueue, resetsBuilt[0].finalSize, CutAt(resetsBuilt[0]));
      }
    }

    ghost predicate FitsReset(f: StreamFrame)
      requires resetsBuilt != []
      reads `resetsBuilt
    {
      f.fin ==> f.End() == resetsBuilt[0].finalSize || f.End() == CutAt(resetsBuilt[0])
    }

    method Resend(f: StreamFrame, queue: Frames)
      requires resetErr.Some? && resetsBuilt != [] ==>
        && FinEither(inFlight + [f], resetsBuilt[0].finalSize, CutAt(resetsBuilt[0]))
        && FinEither(queue, resetsBuilt[0].finalSize, CutAt(resetsBuilt[0]))
      requires CounterOk() && (resetErr.Some? ==> ReliableOffset() > 0)
      requires Tracked(acked, inFlight + [f], queue, sent, Limit(), resetErr.None? && !shutdown, finSent)
      modifies `retransmissionQueue, `numOutstandingFrames, `inFlight
      ensures DeliveryOk() && CounterOk() && inFlight == old(inFlight) + [f] && retransmissionQueue == queue
    {
      hide Tracked, Matching, FinEither;
      retransmissionQueue := queue;
      numOutstandingFrames := numOutstandingFrames + 1;
      inFlight := inFlight + [f];
    }

    // The next STREAM frame of at most maxBytes. It carries what was written, at its offset.
    // If there is nothing to ask for again, then nothing could be sent.
    method Pop(maxBytes: nat, answer: int) returns (r: PopResult)
      requires Valid() && flow.Valid() && maxBytes <= MAX_FRAME_SIZE
      modifies `nextFrame, `nextFrameReserved, `dataForWriting, `writeOffset, `finSent, `numOutstandingFrames, `sent,
        `inFlight, `writeLimited, `retransmissionQueue, flow`bytesSent, flow`lastBlockedAt, flow.connection`bytesSent,
        flow.connection`books
      ensures Valid() && flow.Valid() && flow.connection.books.Keys == old(flow.connection.books.Keys)
      ensures Announces(r.blockedAt, sent != old(sent), old(flow.lastBlockedAt))
      ensures Content() == old(Content()) && (!r.hasMore ==> Idle())
      ensures resetErr.Some? ==> Overfull() == old(Overfull())
      ensures old(finSent) ==> finSent
      ensures finSent ==> old(finSent) || (r.frame.Some? && r.frame.value.fin)
      ensures resetErr.Some? ==> dataForWriting == old(dataForWriting)
      ensures resetErr.Some? ==> sent == old(sent) || writeOffset <= ReliableOffset()
      ensures old(Drained()) && resetErr.None? ==> (r.frame.Some? <==> finishedWriting && !old(finSent))
      ensures old(Offers()) ==> (r.frame.Some? <==> old(Share(maxBytes, answer)) > 0)
      ensures old(Offers()) && r.frame.Some? ==> |r.frame.value.data| == old(Share(maxBytes, answer))
      ensures old(Offers()) && r.frame.Some? ==>
        && sent == old(sent) + r.frame.value.data && r.frame.value.offset == old(writeOffset)
        && (r.frame.value.fin <==> finishedWriting && nextFrame.None? && dataForWriting == [])
      ensures old(retransmissionQueue == [] || Silent()) ==> retransmissionQueue == old(retransmissionQueue)
      ensures old(retransmissionQueue != [] && !Silent()) ==>
        Resent(old(retransmissionQueue), retransmissionQueue, maxBytes, r.frame) && sent == old(sent)
      ensures shutdown || (resetErr.Some? && ReliableOffset() == 0) ==>
        r.frame.None? && sent == old(sent) && finSent == old(finSent) && dataForWriting == old(dataForWriting)
      ensures old(sent) <= sent
      ensures r.frame.None? ==> inFlight == old(inFlight)
      ensures r.frame.Some? ==>
        && inFlight == old(inFlight) + [r.frame.value] && CarriesSlice(r.frame.value, sent)
        && (r.frame.value.data != [] ==> r.frame.value.Length() <= maxBytes)
    {
      hide SendStream.Valid, Content, StreamFrame.Length, CarriesSlice, Beyond, Idle, FlowControl.Stream.Valid,
        FlowControl.Connection.Valid, Share, Resent;
      if Silent() {
        SilentIsIdle();
        return PopResult(None, None, false);
      }
      r := PopPending(maxBytes, answer);
    }

    // The stream has nothing to say any more.
    predicate Silent()
      reads `shutdown, `resetErr, `writeOffset, `retransmissionQueue, `supportsResetStreamAt, `reliableSize
    {
      shutdown || (resetErr.Some?
                   && (ReliableOffset() == 0 || (writeOffset >= ReliableOffset() && |retransmissionQueue| == 0)))
    }

    lemma SilentIsIdle()
      requires Silent()
      ensures Idle()
    {
    }

    // A retransmission, if one is due, or new data.
    method PopPending(maxBytes: nat, answer: int) returns (r: PopResult)
      requires Valid() && flow.Valid() && maxBytes <= MAX_FRAME_SIZE && !Silent()
      modifies `nextFrame, `nextFrameReserved, `dataForWriting, `writeOffset, `finSent, `numOutstandingFrames, `sent,
        `inFlight, `writeLimited, `retransmissionQueue, flow`bytesSent, flow`lastBlockedAt, flow.connection`bytesSent,
        flow.connection`books
      ensures Valid() && flow.Valid() && flow.connection.books.Keys == old(flow.connection.books.Keys)
      ensures Announces(r.blockedAt, sent != old(sent), old(flow.lastBlockedAt))
      ensures Content() == old(Content()) && (!r.hasMore ==> Idle())
      ensures resetErr.Some? ==> Overfull() == old(Overfull())
      ensures old(finSent) ==> finSent
      ensures finSent ==> old(finSent) || (r.frame.Some? && r.frame.value.fin)
      ensures resetErr.Some? ==> dataForWriting == old(dataForWriting)
      ensures resetErr.Some? ==> sent == old(sent) || writeOffset <= ReliableOffset()
      ensures old(Drained()) && resetErr.None? ==> (r.frame.Some? <==> finishedWriting && !old(finSent))
      ensures old(Offers()) ==> (r.frame.Some? <==> old(Share(maxBytes, answer)) > 0)
      ensures old(Offers()) && r.frame.Some? ==> |r.frame.value.data| == old(Share(maxBytes, answer))
      ensures old(Offers()) && r.frame.Some? ==>
        && sent == old(sent) + r.frame.value.data && r.frame.value.offset == old(writeOffset)
        && (r.frame.value.fin <==> finishedWriting && nextFrame.None? && dataForWriting == [])
      ensures old(retransmissionQueue) == [] ==> retransmissionQueue == []
      ensures old(retransmissionQueue) != [] ==>
        Resent(old(retransmissionQueue), retransmissionQueue, maxBytes, r.frame) && sent == old(sent)
      ensures old(sent) <= sent
      ensures r.frame.None? ==> inFlight == old(inFlight)
      ensures r.frame.Some? ==>
        && inFlight == old(inFlight) + [r.frame.value] && CarriesSlice(r.frame.value, sent)
        && (r.frame.value.data != [] ==> r.frame.value.Length() <= maxBytes)
    {
      hide ShapeOk, CounterOk, CreditOk, Content, Tracked, StreamFrame.Length, CarriesSlice, Beyond,
        FlowControl.Stream.Valid, FlowControl.Connection.Valid, Share, Resent;
      if retransmissionQueue != [] {
        var f := PopRetransmission(maxBytes);
        r := PopResult(f, None, true);
      } else if writeLimited {
        r := PopResult(None, None, false);
      } else {
        r := PopNew(maxBytes, answer);
      }
      LastCarries(acked, inFlight, retransmissionQueue, sent, Limit(), resetErr.None? && !shutdown, finSent);
    }

    // ----------------------------------------------------------------- writing

    function CanBuffer(): bool
      reads `hasLimiter, `nextFrameReserved, `nextFrame, `dataForWriting
    {
      !hasLimiter && !nextFrameReserved && |Buffered()| + |dataForWriting| <= MAX_PACKET_BUFFER_SIZE
    }

    // Whether the current Write hands over its data now.
    ghost predicate Buffers()
      reads `hasLimiter, `nextFrameReserved, `nextFrame, `dataForWriting, `writeLimited
    {
      CanBuffer() && dataForWriting != [] && !writeLimited
    }

    // More is buffered than is to be delivered. It will not be sent.
    ghost predicate Overfull()
      reads `nextFrame, `writeOffset, `supportsResetStreamAt, `reliableSize
    {
      Beyond(nextFrame, writeOffset, ReliableOffset())
    }

    // A stream that was cancelled and holds data that it will never send.
    ghost predicate Stuck()
      reads `resetErr, `shutdown, `writeActive, `nextFrame, `writeOffset, `supportsResetStreamAt, `reliableSize
    {
      resetErr.Some? && !shutdown && !writeActive && Overfull()
    }

    // With nothing buffered, it does so if there is no limiter and the data fits a packet.
    lemma BuffersIffFits()
      requires Valid() && nextFrame.None?
      ensures Buffers() <==> !hasLimiter && !writeLimited && 0 < |dataForWriting| <= MAX_PACKET_BUFFER_SIZE
    {
    }

    // What the stream will carry of the data accepted so far.
    ghost function Accepted(): seq<Byte>
      reads `sent, `nextFrame
    {
      sent + Buffered()
    }

    // Starts a Write of p. expired says whether the deadline has passed.
    method WriteBegin(p: seq<Byte>, limiter: bool, expired: bool) returns (status: WriteStatus, newly: bool)
      requires Valid() && !writeActive
      modifies `hasLimiter, `writeLimited, `cancellationFlagged, `completed, `dataForWriting, `writeActive, `writing,
        `goal, `nextFrame
      ensures Valid() && completed == (old(completed) || newly) && (newly ==> !old(completed))
      ensures newly && !shutdown ==> Delivered()
      ensures newly ==> nextFrame.None?
      ensures newly ==> resetErr.Some?
      ensures sent == old(sent) && (status.Wait? <==> writeActive)
      ensures resetErr.Some? || shutdown || p == [] ==> nextFrame == old(nextFrame) && status.Return? && status.n == 0
      ensures status.Wait? ==> dataForWriting == p && hasLimiter == limiter && !writeLimited
      ensures status.Return? ==> status.n <= |p|
      ensures writeActive ==> goal == old(Accepted()) + p && writing == p
      ensures status.Return? && resetErr.None? && !shutdown ==>
        status.n <= |p| && Accepted() == old(Accepted()) + p[..status.n]
      ensures status.Return? && status.err.NoError? ==> status.n == |p|
      ensures
        !limiter && !expired && p != [] && old(resetErr.None? && !shutdown && !finishedWriting && !nextFrameReserved)
        ==>
        if |old(Buffered())| + |p| <= MAX_PACKET_BUFFER_SIZE
        then status == Return(|p|, NoError) && Buffered() == old(Buffered()) + p
        else status.Wait? && nextFrame == old(nextFrame) && dataForWriting == p && !hasLimiter && !writeLimited
    {
      hide ShapeOk, DeliveryOk, CounterOk, CreditOk, Delivered;
      newly := false;
      if resetErr.Some? {
        cancellationFlagged := true;
        newly := IsNewlyCompleted();
        return Return(0, ResetError), newly;
      }
      if shutdown {
        return Return(0, ShutdownError), false;
      }
      if finishedWriting || expired || p == [] {
        assert Accepted() + p[..0] == Accepted();
        var err := if finishedWriting then ClosedError else if expired then DeadlineError else NoError;
        return Return(0, err), false;
      }
      StartWrite(p, limiter);
      status, newly := WriteStep(false);
      assert status.Return? ==> goal[..|goal| - |p| + status.n] == old(Accepted()) + p[..status.n];
    }

    // What holds of the data between two Writes.
    ghost predicate Resting()
      reads `sent, `writeOffset, `nextFrame, `nextFrameReserved, `finSent, `reliableSize
    {
      && |sent| == writeOffset && reliableSize <= writeOffset + |Buffered()| && !finSent
      && (nextFrameReserved ==> nextFrame.Some?)
      && (nextFrame.Some? ==>
            && nextFrame.value == StreamFrame(streamID, writeOffset, nextFrame.value.data, false, true)
            && nextFrame.value.data != [])
    }

    lemma Rests()
      requires ShapeOk() && !writeActive && resetErr.None? && !shutdown && !finishedWriting
      ensures Resting()
    {
    }

    lemma ShapeOfWrite()
      requires Resting() && !writeLimited && writeActive && resetErr.None? && !shutdown
      requires dataForWriting == writing && goal == Accepted() + writing
      ensures ShapeOk()
    {
      assert Content() == goal;
    }

    method StartWrite(p: seq<Byte>, limiter: bool)
      requires Valid() && !writeActive && resetErr.None? && !shutdown && !finishedWriting && p != []
      modifies `hasLimiter, `writeLimited, `dataForWriting, `writeActive, `writing, `goal
      ensures Valid() && writeActive && writing == dataForWriting == p && goal == Accepted() + p
      ensures hasLimiter == limiter && !writeLimited
    {
      hide ShapeOk, DeliveryOk, CounterOk, CreditOk, Accepted, Resting;
      Rests();
      hasLimiter, writeLimited, writeActive, writing, dataForWriting := limiter, false, true, p, p;
      goal := Accepted() + p;
      ShapeOfWrite();
    }

    // Copies the rest of the current Write into the buffered frame.
    method Buffer()
      requires Valid() && writeActive && dataForWriting != [] && CanBuffer() && !writeLimited
      modifies `nextFrame, `dataForWriting
      ensures Valid() && dataForWriting == [] && Buffered() == old(Buffered() + dataForWriting)
      ensures Content() == old(Content())
    {
      hide DeliveryOk, CounterOk;
      if nextFrame.None? {
        nextFrame := Some(StreamFrame(streamID, writeOffset, dataForWriting, false, true));
      } else {
        nextFrame := Some(nextFrame.value.(data := nextFrame.value.data + dataForWriting));
      }
      dataForWriting := [];
      assert Content() == old(Content());
      hide Content;
    }

    // One turn of the loop of a Write call: at its start, and whenever it is woken. Data that
    // fits a packet is buffered, even if the stream was cancelled in the meantime.
    method WriteStep(expired: bool) returns (status: WriteStatus, newly: bool)
      requires Valid() && writeActive
      modifies `hasLimiter, `writeLimited, `cancellationFlagged, `completed, `dataForWriting, `writeActive, `nextFrame
      ensures Valid() && completed == (old(completed) || newly) && (newly ==> !old(completed))
      ensures newly && !shutdown ==> Delivered()
      ensures newly ==> nextFrame.None?
      ensures newly ==> resetErr.Some?
      ensures status.Wait? <==> writeActive
      ensures status.Return? ==> status.n <= |writing|
      ensures status.Return? && resetErr.None? && !shutdown ==> Accepted() == goal[..|goal| - |writing| + status.n]
      ensures status.Return? && status.err.NoError? ==> status.n == |writing|
      ensures status.Wait? <==>
        old(!Buffers() && !writeLimited && dataForWriting != [] && !shutdown && resetErr.None?) && !expired
      ensures status.Wait? ==> nextFrame == old(nextFrame) && dataForWriting == old(dataForWriting)
      ensures status.Wait? ==> hasLimiter == old(hasLimiter) && writeLimited == old(writeLimited)
      ensures old(Buffers()) ==> status == Return(|writing|, NoError) && Buffered() == old(Buffered() + dataForWriting)
      ensures !old(Buffers()) ==> nextFrame == old(nextFrame)
      ensures !old(Buffers()) && status.Return? ==> status.n == |writing| - |old(dataForWriting)|
      ensures resetErr.Some? && !shutdown ==> (Stuck() <==> old(Buffers() || Overfull()))
      ensures resetErr.Some? && !shutdown && old(!Buffers() && dataForWriting != []) ==>
        !(status.Return? && status.err.NoError?)
    {
      hide ShapeOk, DeliveryOk, CounterOk, CreditOk, Delivered, Beyond, CanBuffer;
      var turn := WriteTurn(expired);
      if turn.Stay? {
        return Wait, false;
      }
      status, newly := FinishWrite(turn);
    }

    method WriteTurn(expired: bool) returns (turn: Turn)
      requires Valid() && writeActive
      modifies `dataForWriting, `nextFrame
      ensures Valid() && writeActive
      ensures !turn.Stay? ==> turn.n <= |writing|
      ensures !turn.Stay? && !old(Buffers()) ==> turn.n == |writing| - |dataForWriting|
      ensures !turn.Stay? && resetErr.None? && !shutdown ==> Accepted() == goal[..|goal| - |writing| + turn.n]
      ensures turn.Leave? ==> shutdown || resetErr.Some? || (turn.n == |writing| && dataForWriting == [])
      ensures turn.Stay? <==>
        old(!Buffers() && !writeLimited && dataForWriting != [] && !shutdown && resetErr.None?) && !expired
      ensures if old(Buffers())
              then turn == Leave(|writing|) && Buffered() == old(Buffered() + dataForWriting) && dataForWriting == []
              else nextFrame == old(nextFrame) && dataForWriting == old(dataForWriting)
      ensures resetErr.Some? && !shutdown ==> Overfull() == old(Buffers() || Overfull())
    {
      hide DeliveryOk, CounterOk, CreditOk;
      var n := |writing| - |dataForWriting|;
      Accept(sent, Buffered(), dataForWriting);
      if writeLimited {
        return Limited(n);
      }
      if CanBuffer() && |dataForWriting| > 0 {
        Buffer();
        Accept(sent, Buffered(), dataForWriting);
        return Leave(|writing|);
      }
      if expired {
        return Late(n);
      }
      if dataForWriting != [] && !shutdown && resetErr.None? {
        return Stay;
      }
      return Leave(n);
    }

    method EndWrite(drop: bool)
      requires ShapeOk() && (drop || shutdown || resetErr.Some? || dataForWriting == [])
      modifies `hasLimiter, `writeLimited, `writeActive, `dataForWriting
      ensures ShapeOk() && !writeActive && dataForWriting == if drop then [] else old(dataForWriting)
    {
      if drop {
        dataForWriting := [];
      }
      hasLimiter, writeLimited, writeActive := false, false, false;
    }

    // The call returns; what it could not hand over is dropped, unless the stream was cut short.
    method FinishWrite(turn: Turn) returns (status: WriteStatus, newly: bool)
      requires Valid() && !turn.Stay? && turn.n <= |writing|
      requires turn.Leave? ==> shutdown || resetErr.Some? || (turn.n == |writing| && dataForWriting == [])
      modifies `hasLimiter, `writeLimited, `cancellationFlagged, `completed, `writeActive, `dataForWriting
      ensures Valid() && completed == (old(completed) || newly) && (newly ==> !old(completed)) && !writeActive
      ensures newly && !shutdown ==> Delivered()
      ensures newly ==> nextFrame.None?
      ensures newly ==> resetErr.Some?
      ensures status.Return? && status.n == turn.n && (status.err.NoError? ==> turn.n == |writing|)
      ensures status.err.DeadlineError? <==> turn.Late?
      ensures turn == Leave(|writing|) ==> status.err.NoError?
    {
      hide ShapeOk, DeliveryOk, CounterOk, CreditOk, Delivered;
      EndWrite(turn.Limited? || turn.Late?);
      newly := false;
      if turn.Late? {
        return Return(turn.n, DeadlineError), false;
      }
      if turn.n == |writing| {
        return Return(turn.n, NoError), false;
      }
      if shutdown {
        return Return(turn.n, ShutdownError), false;
      }
      if resetErr.Some? {
        cancellationFlagged := true;
        newly := IsNewlyCompleted();
        return Return(turn.n, ResetError), newly;
      }
      return Return(turn.n, LimitReached), false;
    }

    // There is flow control credit for n more bytes, and for what is buffered without.
    ghost predicate HasCredit(n: nat)
      reads `nextFrame, `nextFrameReserved, flow, flow.connection
    {
      var need := n + if nextFrameReserved then 0 else |Buffered()|;
      flow.bytesSent + need <= flow.sendWindow && flow.connection.bytesSent + need <= flow.connection.sendWindow
    }

    // Queues all of p at once, with its flow control credit, or nothing.
    method TryWriteAll(p: seq<Byte>) returns (err: WriteError, newly: bool, hasData: bool)
      requires Valid() && flow.Valid()
      modifies `cancellationFlagged, `completed, `nextFrame, `nextFrameReserved, flow`bytesSent,
        flow.connection`bytesSent, flow.connection`books
      ensures Valid() && flow.Valid() && flow.connection.books.Keys == old(flow.connection.books.Keys)
      ensures completed == (old(completed) || newly) && (newly ==> !old(completed))
      ensures newly && !shutdown ==> Delivered()
      ensures newly ==> nextFrame.None?
      ensures err.NoError? ==> Accepted() == old(Accepted()) + p && resetErr.None? && !shutdown && !finishedWriting
      ensures !err.NoError? || p == [] ==> nextFrame == old(nextFrame) && nextFrameReserved == old(nextFrameReserved)
      ensures (newly ==> resetErr.Some?) && (hasData <==> err.NoError? && p != [])
      ensures err.NoError? <==>
        old(!writeActive && resetErr.None? && !shutdown && !finishedWriting) && (p == [] || old(HasCredit(|p|)))
      ensures err.NoError? && p != [] ==> nextFrameReserved
    {
      hide ShapeOk, DeliveryOk, CounterOk, CreditOk, Delivered, FlowControl.Stream.Valid, FlowControl.Connection.Valid;
      newly, hasData := false, false;
      if writeActive {
        return WouldBlock, false, false;
      }
      if resetErr.Some? {
        cancellationFlagged := true;
        newly := IsNewlyCompleted();
        return ResetError, newly, false;
      }
      if shutdown {
        return ShutdownError, false, false;
      }
      if finishedWriting {
        return ClosedError, false, false;
      }
      if p == [] {
        assert Accepted() + p == Accepted();
        return NoError, false, false;
      }
      var ok := Reserve(p);
      if !ok {
        return WouldBlock, false, false;
      }
      return NoError, false, true;
    }

    // Takes credit for p, and for what is buffered without, and appends p to the buffer.
    method Reserve(p: seq<Byte>) returns (ok: bool)
      requires Valid() && flow.Valid() && !writeActive && resetErr.None? && !shutdown && !finishedWriting && p != []
      modifies `nextFrame, `nextFrameReserved, flow`bytesSent, flow.connection`bytesSent, flow.connection`books
      ensures Valid() && flow.Valid() && flow.connection.books.Keys == old(flow.connection.books.Keys)
      ensures ok <==> old(HasCredit(|p|))
      ensures if ok then Accepted() == old(Accepted()) + p && nextFrameReserved
              else nextFrame == old(nextFrame) && nextFrameReserved == old(nextFrameReserved)
    {
      hide DeliveryOk, CounterOk, FlowControl.Stream.Valid, FlowControl.Connection.Valid;
      var toReserve := |p| + if nextFrame.Some? && !nextFrameReserved then |nextFrame.value.data| else 0;
      ok := flow.TryAddBytesSent(toReserve);
      if !ok {
        return;
      }
      if nextFrame.None? {
        nextFrame := Some(StreamFrame(streamID, writeOffset, p, false, true));
      } else {
        nextFrame := Some(nextFrame.value.(data := nextFrame.value.data + p));
      }
      nextFrameReserved := true;
    }

    // No more writes; the FIN follows the data.
    method Close() returns (cancelled: bool, newly: bool)
      requires Valid()
      modifies `finishedWriting, `cancellationFlagged, `completed
      ensures Valid() && completed == (old(completed) || newly) && (newly ==> !old(completed))
      ensures newly && !shutdown ==> Delivered()
      ensures newly ==> nextFrame.None?
      ensures finishedWriting == (old(finishedWriting) || !shutdown)
    {
      hide DeliveryOk, CounterOk, CreditOk, Delivered;
      if shutdown || finishedWriting {
        return false, false;
      }
      finishedWriting := true;
      hide ShapeOk;
      cancelled := resetErr.Some?;
      if cancelled {
        cancellationFlagged := true;
      }
      newly := IsNewlyCompleted();
    }

    // The count of outstanding frames survives a move of the reliable offset from was to where it
    // is now: no RESET is queued, as many RESETs count as before, and if STREAM frames were not
    // counted, there are none.
    ghost predicate CountSurvives(was: nat)
      reads `inFlight, `resetsInFlight, `queuedReset, `supportsResetStreamAt, `reliableSize
    {
      && queuedReset.None?
      && Matching(resetsInFlight, was) == Matching(resetsInFlight, ReliableOffset())
      && (was == 0 ==> inFlight == [] && forall i :: 0 <= i < |resetsInFlight| ==> resetsInFlight[i].reliableSize > 0)
    }

    // What was written so far is to be delivered even if the stream is cancelled. On a stream
    // that was cancelled already, moving the boundary keeps the count of outstanding frames
    // right only by chance.
    method SetReliableBoundary()
      requires Valid()
      modifies `reliableSize
      ensures reliableSize == Max(old(reliableSize), |Accepted()|)
      ensures resetErr.None? || ReliableOffset() == old(ReliableOffset()) ==> Valid()
      ensures resetErr.Some? && ReliableOffset() != old(ReliableOffset()) ==>
        (CounterOk() <==> CountSurvives(old(ReliableOffset())))
    {
      hide Tracked;
      reliableSize := Max(reliableSize, writeOffset + if nextFrame.Some? then |nextFrame.value.data| else 0);
      BoundaryMoved(old(ReliableOffset()));
    }

    // The peer turned out to support partial delivery.
    method EnableResetStreamAt()
      requires Valid()
      modifies `supportsResetStreamAt
      ensures supportsResetStreamAt
      ensures resetErr.None? || ReliableOffset() == old(ReliableOffset()) ==> Valid()
      ensures resetErr.Some? && ReliableOffset() != old(ReliableOffset()) ==>
        (CounterOk() <==> CountSurvives(old(ReliableOffset())))
    {
      hide Tracked;
      supportsResetStreamAt := true;
      BoundaryMoved(old(ReliableOffset()));
    }

    lemma BoundaryMoved(was: nat)
      requires resetErr.Some? && was != ReliableOffset() && was <= ReliableOffset() ==>
        && numOutstandingFrames == (if was == 0 then 0 else |inFlight|) + Matching(resetsInFlight, was)
        && (was > 0 ==> forall i :: 0 <= i < |resetsInFlight| ==> resetsInFlight[i].reliableSize > 0)
        && (queuedReset.Some? ==> queuedReset.value.reliableSize == was)
      ensures resetErr.Some? && was < ReliableOffset() ==> (CounterOk() <==> CountSurvives(was))
    {
      if forall i :: 0 <= i < |resetsInFlight| ==> resetsInFlight[i].reliableSize > 0 {
        MatchingNone(resetsInFlight, 0);
      }
    }

    // The connection goes away. Nothing more is sent, unless the stream was closed before.
    method CloseForShutdown()
      requires Valid()
      modifies `shutdown, `retransmissionQueue, `nextFrame, `nextFrameReserved
      ensures Valid() && shutdown == (old(shutdown) || !finishedWriting)
      ensures !shutdown ==> nextFrame == old(nextFrame) && retransmissionQueue == old(retransmissionQueue)
    {
      if !shutdown && !finishedWriting {
        GoAway();
      }
    }

    method GoAway()
      requires Valid() && !shutdown
      modifies `shutdown, `retransmissionQueue, `nextFrame, `nextFrameReserved
      ensures Valid() && shutdown
    {
      hide ShapeOk, DeliveryOk, CounterOk, CreditOk, Tracked, Content, FinEither;
      BeforeShutdown();
      shutdown := true;
      retransmissionQueue := [];
      nextFrame, nextFrameReserved := None, false;
      AfterShutdown();
    }

    lemma BeforeShutdown()
      requires Valid() && !shutdown
      ensures Tracked(acked, inFlight, [], sent, 0, false, finSent) && Basics()
      ensures resetErr.Some? ==> resetsBuilt != [] && FinsFit(resetsBuilt[0]) && WithinFinalSize()
      ensures resetErr.None? ==> resetsBuilt == []
      ensures resetErr.Some? && resetsBuilt[0].reliableSize == 0 ==>
        |resetsBuilt| == 1 && resetsBuilt[0].finalSize == flow.bytesSent
          && (finSent ==> resetsBuilt[0].finalSize == writeOffset)
    {
      hide Matching, Content, FinEither;
      DropTracked(acked, inFlight, retransmissionQueue, sent, Limit(), resetErr.None? && !shutdown, finSent);
    }

    lemma AfterShutdown()
      requires shutdown && retransmissionQueue == [] && nextFrame.None? && !nextFrameReserved
      requires |sent| == writeOffset && (finSent ==> finishedWriting && dataForWriting == [])
        && (writeLimited ==> hasLimiter)
      requires (hasLimiter ==> writeActive) && (writeActive ==> |dataForWriting| <= |writing| <= |goal|)
      requires Tracked(acked, inFlight, [], sent, 0, false, finSent)
      requires resetErr.Some? ==>
        resetsBuilt != [] && WithinFinalSize() && FinEither(inFlight, resetsBuilt[0].finalSize, CutAt(resetsBuilt[0]))
      requires resetErr.None? ==> resetsBuilt == []
      requires resetErr.Some? && resetsBuilt[0].reliableSize == 0 ==>
        |resetsBuilt| == 1 && resetsBuilt[0].finalSize == flow.bytesSent
          && (finSent ==> resetsBuilt[0].finalSize == writeOffset)
      ensures ShapeOk() && DeliveryOk() && CreditOk()
    {
      hide Tracked;
    }

    // ------------------------------------------------------------ cancellation

    // The application gives up on the stream. Data up to the reliable offset is still delivered.
    method CancelWrite(errorCode: nat) returns (newly: bool)
      requires Valid()
      modifies `cancellationFlagged, `completed, `resetErr, `numOutstandingFrames, `retransmissionQueue, `nextFrame,
        `nextFrameReserved, `queuedReset, `resetsBuilt, `reliableSize
      ensures Valid() && completed == (old(completed) || newly) && (newly ==> !old(completed))
      ensures newly && !shutdown ==> Delivered()
      ensures newly ==> nextFrame.None?
      ensures !shutdown ==> resetErr.Some? && cancellationFlagged
      ensures old(resetErr.None?) ==> !newly
      ensures shutdown ==> unchanged(this)
      ensures old(resetErr.Some?) ==> resetsBuilt == old(resetsBuilt) && resetErr == old(resetErr)
      ensures !shutdown && old(resetErr.None?) ==>
        && queuedReset.Some? && resetsBuilt == old(resetsBuilt) + [queuedReset.value]
        && queuedReset.value.errorCode == errorCode && queuedReset.value.reliableSize == ReliableOffset()
        && (old(ReliableOffset()) == 0 ==>
              nextFrame.None? && !nextFrameReserved && numOutstandingFrames == 0
                && queuedReset.value.finalSize == flow.bytesSent)
        && !Overfull() && Buffered() <= old(Buffered()) && (nextFrameReserved ==> old(nextFrameReserved))
        && (finSent ==> queuedReset.value.finalSize == writeOffset)
      ensures old(resetErr.Some?) ==> nextFrame == old(nextFrame) && queuedReset == old(queuedReset)
      ensures old(resetErr.Some?) ==>
        nextFrameReserved == old(nextFrameReserved) && retransmissionQueue == old(retransmissionQueue)
      ensures reliableSize == old(reliableSize)
      ensures !shutdown && old(resetErr.None?) && ReliableOffset() > 0 ==>
        (FinLast(retransmissionQueue, finSent, queuedReset.value.finalSize)
         <==> !Crossing(old(retransmissionQueue), ReliableOffset()))
    {
      hide DeliveryOk, CounterOk, CreditOk, Delivered, Content, FinLast, Crossing;
      newly := false;
      if shutdown {
        return;
      }
      cancellationFlagged := true;
      if resetErr.Some? {
        newly := IsNewlyCompleted();
        return;
      }
      Cancel(errorCode);
    }

    // The first cancellation.
    method Cancel(errorCode: nat)
      requires Valid() && !shutdown && resetErr.None?
      modifies `resetErr, `numOutstandingFrames, `retransmissionQueue, `nextFrame, `nextFrameReserved, `queuedReset,
        `resetsBuilt, `reliableSize
      ensures Valid() && resetErr == Some(errorCode)
      ensures queuedReset.Some? && resetsBuilt == old(resetsBuilt) + [queuedReset.value]
      ensures queuedReset.value.errorCode == errorCode && queuedReset.value.reliableSize == ReliableOffset()
      ensures old(ReliableOffset()) == 0 ==>
        nextFrame.None? && !nextFrameReserved && numOutstandingFrames == 0
          && queuedReset.value.finalSize == flow.bytesSent
      ensures !Overfull() && Buffered() <= old(Buffered()) && (nextFrameReserved ==> old(nextFrameReserved))
      ensures finSent ==> queuedReset.value.finalSize == writeOffset
      ensures reliableSize == old(reliableSize)
      ensures ReliableOffset() > 0 ==>
        (FinLast(retransmissionQueue, finSent, queuedReset.value.finalSize)
         <==> !Crossing(old(retransmissionQueue), ReliableOffset()))
    {
      hide DeliveryOk, CounterOk, CreditOk, Content, FinLast, Crossing;
      var finalSize := Max(writeOffset, ReliableOffset());
      if nextFrameReserved && nextFrame.Some? {
        finalSize := Max(finalSize, nextFrame.value.End());
      }
      var reset := ResetFrame(streamID, errorCode, finalSize, ReliableOffset());
      if ReliableOffset() == 0 {
        DropAll(errorCode, reset, reliableSize);
      } else {
        KeepReliable(errorCode, reset);
      }
    }

    // Nothing needs to be delivered any more.
    method DropAll(errorCode: nat, reset: ResetFrame, reliable: nat)
      requires Valid() && !shutdown && (resetErr.None? || ReliableOffset() > 0)
      requires reset.reliableSize == 0 && (supportsResetStreamAt ==> reliable == 0) && writeOffset <= reset.finalSize
      requires resetErr.None? ==> reset.finalSize == writeOffset + if nextFrameReserved then |Buffered()| else 0
      modifies `reliableSize, `resetErr, `numOutstandingFrames, `retransmissionQueue, `nextFrame, `nextFrameReserved,
        `queuedReset, `resetsBuilt
      ensures Valid() && ReliableOffset() == 0 && reliableSize == reliable
      ensures nextFrame.None? && !nextFrameReserved && numOutstandingFrames == 0
      ensures resetErr == Some(if old(resetErr).Some? then old(resetErr).value else errorCode)
      ensures queuedReset == Some(reset) && resetsBuilt == old(resetsBuilt) + [reset]
      ensures old(resetErr).None? ==> reset.finalSize == flow.bytesSent && (finSent ==> reset.finalSize == writeOffset)
    {
      hide ShapeOk, DeliveryOk, CounterOk, CreditOk, Tracked, Matching, Basics, FinLast, FinEither;
      BeforeDrop();
      Wipe(reliable);
      if resetErr.None? { FinsAtEnd(reset); }
      Announce(errorCode, reset);
    }

    lemma BeforeDrop()
      requires Valid() && !shutdown && (resetErr.None? || ReliableOffset() > 0)
      ensures resetErr.None? ==>
        && resetsBuilt == [] && flow.bytesSent == writeOffset + (if nextFrameReserved then |Buffered()| else 0)
        && (finSent ==> !nextFrameReserved)
      ensures resetErr.Some? ==> resetsBuilt != [] && resetsBuilt[0].reliableSize > 0
    {
      hide DeliveryOk, CounterOk;
    }

    lemma FinsAtEnd(reset: ResetFrame)
      requires FinLast(inFlight, finSent, writeOffset) && retransmissionQueue == [] && reset.reliableSize == 0
      requires finSent ==> reset.finalSize == writeOffset
      ensures FinsFit(reset)
    {
    }

    // Forgets all data and all frames.
    method Wipe(reliable: nat)
      requires Valid() && !shutdown && (resetErr.None? || ReliableOffset() > 0)
      requires supportsResetStreamAt ==> reliable == 0
      modifies `reliableSize, `numOutstandingFrames, `retransmissionQueue, `nextFrame, `nextFrameReserved
      ensures Basics() && reliableSize == reliable && ReliableOffset() == 0
      ensures Tracked(acked, inFlight, retransmissionQueue, sent, 0, false, finSent)
      ensures numOutstandingFrames == Matching(resetsInFlight, 0) == 0
      ensures nextFrame.None? && !nextFrameReserved
      ensures retransmissionQueue == []
      ensures if resetErr.Some? then WithinFinalSize() && FinOk() else FinLast(inFlight, finSent, writeOffset)
    {
      hide ShapeOk, DeliveryOk, CounterOk, CreditOk, Tracked, Matching, Content, FinLast, FinEither;
      BeforeWipe();
      reliableSize := reliable;
      numOutstandingFrames := 0;
      retransmissionQueue := [];
      nextFrame, nextFrameReserved := None, false;
    }

    lemma BeforeWipe()
      requires Valid() && !shutdown && (resetErr.None? || ReliableOffset() > 0)
      ensures Tracked(acked, inFlight, [], sent, 0, false, finSent) && Matching(resetsInFlight, 0) == 0
      ensures Basics()
        && (if resetErr.Some? then WithinFinalSize() && FinOk() else FinLast(inFlight, finSent, writeOffset))
      ensures forall a: nat, b: nat :: FinEither([], a, b)
    {
      hide Matching, Content;
      MatchingNone(resetsInFlight, 0);
      DropTracked(acked, inFlight, retransmissionQueue, sent, Limit(), resetErr.None? && !shutdown, finSent);
    }

    // Records the cancellation and queues the RESET frame that announces it.
    method Announce(errorCode: nat, reset: ResetFrame)
      requires !shutdown && Basics() && reset.reliableSize == ReliableOffset()
      requires writeOffset < ReliableOffset() ==> writeOffset + |Buffered()| >= ReliableOffset()
      requires Tracked(acked, inFlight, retransmissionQueue, sent, Min(writeOffset, ReliableOffset()), false, finSent)
      requires numOutstandingFrames ==
        (if ReliableOffset() == 0 then 0 else |inFlight|) + Matching(resetsInFlight, ReliableOffset())
      requires ReliableOffset() > 0 ==> forall i :: 0 <= i < |resetsInFlight| ==> resetsInFlight[i].reliableSize > 0
      requires writeOffset <= reset.finalSize && ReliableOffset() <= reset.finalSize
      requires if resetErr.Some?
        then WithinFinalSize() && FinOk() && ReliableOffset() == 0 && resetsBuilt[0].reliableSize > 0
        else resetsBuilt == [] && FinsFit(reset)
      requires resetErr.None? && reset.reliableSize == 0 ==>
        reset.finalSize == flow.bytesSent && (finSent ==> reset.finalSize == writeOffset)
      modifies `resetErr, `queuedReset, `resetsBuilt
      ensures Valid() && resetErr == Some(if old(resetErr).Some? then old(resetErr).value else errorCode)
      ensures queuedReset == Some(reset) && resetsBuilt == old(resetsBuilt) + [reset]
    {
      hide Tracked, Matching, Content, Basics, FinEither;
      if resetErr.None? {
        resetErr := Some(errorCode);
      }
      queuedReset := Some(reset);
      resetsBuilt := resetsBuilt + [reset];
    }

    // What lies beyond the reliable offset is cut off.
    method KeepReliable(errorCode: nat, reset: ResetFrame)
      requires Valid() && !shutdown && resetErr.None? && ReliableOffset() > 0 && reset.reliableSize == ReliableOffset()
      requires writeOffset <= reset.finalSize && ReliableOffset() <= reset.finalSize
        && (finSent ==> reset.finalSize == writeOffset)
      modifies `resetErr, `retransmissionQueue, `nextFrame, `nextFrameReserved, `queuedReset, `resetsBuilt
      ensures Valid() && resetErr == Some(errorCode)
      ensures queuedReset == Some(reset) && resetsBuilt == old(resetsBuilt) + [reset]
      ensures !Overfull() && Buffered() <= old(Buffered()) && (nextFrameReserved ==> old(nextFrameReserved))
      ensures FinLast(retransmissionQueue, finSent, reset.finalSize) <==>
        !Crossing(old(retransmissionQueue), ReliableOffset())
    {
      hide ShapeOk, DeliveryOk, CounterOk, CreditOk, Tracked, Truncated, FinEither, FinLast, Crossing, Matching,
        Content, Basics;
      BeforeCut();
      CutFins(reset);
      retransmissionQueue := CutQueue(retransmissionQueue, ReliableOffset());
      CutNextFrame();
      Announce(errorCode, reset);
    }

    // What the first cancellation finds.
    lemma BeforeCut()
      requires Valid() && !shutdown && resetErr.None? && ReliableOffset() > 0
      ensures resetsBuilt == [] && resetsInFlight == [] && numOutstandingFrames == |inFlight| && |sent| == writeOffset
      ensures Matching(resetsInFlight, ReliableOffset()) == 0 && supportsResetStreamAt
      ensures Tracked(acked, inFlight, Truncated(retransmissionQueue, ReliableOffset()), sent,
                      Min(writeOffset, ReliableOffset()), false, finSent)
    {
      hide Tracked, Truncated;
      TruncateTracked(acked, inFlight, retransmissionQueue, sent, writeOffset, finSent, ReliableOffset());
    }

    // What becomes of the FINs when the queue is cut.
    lemma CutFins(reset: ResetFrame)
      requires DeliveryOk() && !shutdown && resetErr.None? && |sent| == writeOffset
        && reset.reliableSize == ReliableOffset() > 0
      requires finSent ==> reset.finalSize == writeOffset
      ensures FinEither(inFlight, reset.finalSize, CutAt(reset))
      ensures FinEither(Truncated(retransmissionQueue, ReliableOffset()), reset.finalSize, CutAt(reset))
      ensures FinLast(Truncated(retransmissionQueue, ReliableOffset()), finSent, reset.finalSize)
        <==> !Crossing(retransmissionQueue, ReliableOffset())
    {
      hide Truncated, Crossing;
      assert FinLast(inFlight, finSent, reset.finalSize) && FinLast(retransmissionQueue, finSent, reset.finalSize);
      TruncatedFins(retransmissionQueue, ReliableOffset(), finSent, reset.finalSize);
    }

    // Cuts the buffered frame at the reliable offset.
    method CutNextFrame()
      requires ShapeOk() && !shutdown && resetErr.None? && ReliableOffset() > 0
      modifies `nextFrame, `nextFrameReserved
      ensures Basics() && !Overfull()
      ensures writeOffset < ReliableOffset() ==> writeOffset + |Buffered()| >= ReliableOffset()
      ensures nextFrame.Some? ==>
        nextFrame.value == StreamFrame(streamID, writeOffset, nextFrame.value.data, false, true)
          && nextFrame.value.data != []
      ensures Buffered() == old(Buffered())[..Max(0, Min(|old(Buffered())|, ReliableOffset() - writeOffset))]
      ensures nextFrameReserved ==> nextFrame.Some? && old(nextFrameReserved)
    {
      var reliable := ReliableOffset();
      if nextFrame.Some? {
        if nextFrame.value.offset >= reliable {
          nextFrame, nextFrameReserved := None, false;
        } else if nextFrame.value.End() > reliable {
          nextFrame := Some(nextFrame.value.(data := nextFrame.value.data[..reliable - nextFrame.value.offset]));
        }
      }
    }

    // Everything below n was sent, or has credit reserved for it.
    ghost predicate Reaches(n: nat)
      reads `writeOffset, `nextFrame, `nextFrameReserved
    {
      n == writeOffset + if nextFrameReserved then |Buffered()| else 0
    }

    // The peer asks us to stop: no data needs to be delivered, not even what was reliable. A
    // second RESET announces the same final size as the first one if and only if all of it was
    // sent or reserved.
    method HandleStopSending(errorCode: nat)
      requires Valid()
      modifies `reliableSize, `resetErr, `numOutstandingFrames, `retransmissionQueue, `nextFrame, `nextFrameReserved,
        `queuedReset, `resetsBuilt
      ensures Valid()
      ensures !shutdown ==> resetErr.Some? && ReliableOffset() == 0
      ensures reliableSize <= old(reliableSize) && (old(resetErr.Some?) ==> resetErr == old(resetErr))
      ensures shutdown || (old(resetErr.Some?) && old(ReliableOffset()) == 0) ==> unchanged(this)
      ensures !shutdown && !(old(resetErr.Some?) && old(ReliableOffset()) == 0) ==>
        && nextFrame.None? && queuedReset.Some? && resetsBuilt == old(resetsBuilt) + [queuedReset.value]
        && queuedReset.value.reliableSize == 0 && !nextFrameReserved
        && (old(resetErr.None?) ==>
              && queuedReset.value.finalSize == flow.bytesSent && queuedReset.value.errorCode == errorCode
              && (finSent ==> queuedReset.value.finalSize == writeOffset))
        && (old(resetErr.Some?) ==>
              (queuedReset.value.finalSize == resetsBuilt[0].finalSize <==> old(Reaches(resetsBuilt[0].finalSize))))
    {
      if shutdown {
        return;
      }
      if resetErr.Some? && ReliableOffset() == 0 {
        return;
      }
      var finalSize := writeOffset;
      if nextFrameReserved && nextFrame.Some? {
        finalSize := Max(finalSize, nextFrame.value.End());
      }
      var code := if resetErr.Some? then resetErr.value else errorCode;
      DropAll(errorCode, ResetFrame(streamID, code, finalSize, 0), 0);
    }

    // The RESET frame, for packet assembly.
    method GetControlFrame() returns (r: Option<ResetFrame>)
      requires Valid()
      modifies `numOutstandingFrames, `queuedReset, `resetsInFlight
      ensures Valid() && r == old(queuedReset) && queuedReset.None?
      ensures resetsInFlight == old(resetsInFlight) + if r.Some? then [r.value] else []
      ensures numOutstandingFrames == old(numOutstandingFrames) + if r.Some? then 1 else 0
    {
      r := queuedReset;
      if queuedReset.None? {
        assert resetsInFlight + [] == resetsInFlight;
        return;
      }
      hide ShapeOk, DeliveryOk, CreditOk;
      MatchingConcat(resetsInFlight, [queuedReset.value], ReliableOffset());
      numOutstandingFrames := numOutstandingFrames + 1;
      queuedReset := None;
      resetsInFlight := resetsInFlight + [r.value];
    }

    // ------------------------------------------------- acknowledgement and loss

    // The i-th STREAM frame in flight was acknowledged. The counter never drops below zero.
    method OnAcked(ghost i: nat) returns (newly: bool)
      requires Valid() && i < |inFlight|
      modifies `numOutstandingFrames, `completed, `inFlight, `acked
      ensures Valid() && completed == (old(completed) || newly) && (newly ==> !old(completed))
      ensures newly && !shutdown ==> Delivered()
      ensures newly ==> nextFrame.None?
      ensures acked == old(acked) + [old(inFlight)[i]] && inFlight == Remove(old(inFlight), i)
      ensures 0 <= numOutstandingFrames
      ensures resetErr.None? ==> (newly <==> !old(completed) && inFlight == [] && retransmissionQueue == [] && finSent)
    {
      hide ShapeOk, DeliveryOk, CounterOk, CreditOk, Delivered;
      Settle(i);
      if resetErr.Some? && ReliableOffset() == 0 {
        return false;
      }
      newly := IsNewlyCompleted();
      if resetErr.None? { WholeCount(); }
    }

    lemma OneFewer(i: nat)
      requires FinOk() && i < |inFlight|
      ensures resetErr.Some? && resetsBuilt != [] ==>
        FinEither(Remove(inFlight, i), resetsBuilt[0].finalSize, CutAt(resetsBuilt[0]))
    {
      FlightEither();
    }

    // The frame leaves flight, and counts no more.
    method Settle(ghost i: nat)
      requires Valid() && i < |inFlight|
      modifies `numOutstandingFrames, `inFlight, `acked
      ensures Valid() && 0 <= numOutstandingFrames
      ensures acked == old(acked) + [old(inFlight)[i]] && inFlight == Remove(old(inFlight), i)
    {
      hide ShapeOk, CreditOk, Tracked, Matching, FinEither;
      OneFewer(i);
      AcknowledgeTracked(acked, inFlight, retransmissionQueue, sent, Limit(), resetErr.None? && !shutdown, finSent, i);
      acked, inFlight := acked + [inFlight[i]], Remove(inFlight, i);
      if resetErr.None? || ReliableOffset() != 0 {
        numOutstandingFrames := numOutstandingFrames - 1;
      }
    }

    lemma WholeCount()
      requires Valid() && resetErr.None?
      ensures numOutstandingFrames == |inFlight| && queuedReset.None? && (finSent ==> nextFrame.None?)
    {
    }

    // The i-th STREAM frame in flight was lost: it is queued again, up to the reliable offset if
    // the stream was cancelled.
    method OnLost(lost: StreamFrame, ghost i: nat) returns (newly: bool)
      requires Valid() && i < |inFlight| && inFlight[i] == lost
      modifies `numOutstandingFrames, `completed, `inFlight, `retransmissionQueue
      ensures Valid() && completed == (old(completed) || newly) && (newly ==> !old(completed))
      ensures newly && !shutdown ==> Delivered()
      ensures newly ==> nextFrame.None?
      ensures inFlight == Remove(old(inFlight), i) && 0 <= numOutstandingFrames
      ensures resetErr.None? ==>
        retransmissionQueue == old(retransmissionQueue) + [lost.(dataLenPresent := true)] && !newly
      ensures resetErr.Some? && lost.offset >= ReliableOffset() ==> retransmissionQueue == old(retransmissionQueue)
      ensures resetErr.Some? && lost.offset < ReliableOffset() ==>
        && |retransmissionQueue| == |old(retransmissionQueue)| + 1
        && retransmissionQueue[..|old(retransmissionQueue)|] == old(retransmissionQueue)
        && (var f := retransmissionQueue[|old(retransmissionQueue)|];
            && f.offset == lost.offset && f.End() == Min(lost.End(), ReliableOffset())
            && ((f.fin ==> f.End() == lost.End()) <==> !Crosses(lost, ReliableOffset())))
    {
      hide ShapeOk, CreditOk, CounterOk, DeliveryOk, Delivered;
      newly := false;
      if resetErr.Some? && ReliableOffset() == 0 {
        ForgetLost(0, i);
        return;
      }
      if resetErr.Some? && lost.offset >= ReliableOffset() {
        ForgetLost(1, i);
        newly := IsNewlyCompleted();
        return;
      }
      var f := lost.(dataLenPresent := true);
      if resetErr.Some? && lost.End() > ReliableOffset() {
        f := f.(data := f.data[..ReliableOffset() - f.offset]);
      }
      QueueLost(f, i);
    }

    // A lost frame that need not be sent again; n is what it counts for.
    method ForgetLost(n: nat, ghost i: nat)
      requires Valid() && i < |inFlight| && resetErr.Some? && ReliableOffset() <= inFlight[i].offset
      requires n == if ReliableOffset() == 0 then 0 else 1
      modifies `numOutstandingFrames, `inFlight
      ensures Valid() && inFlight == Remove(old(inFlight), i) && 0 <= numOutstandingFrames
    {
      FlightEither();
      hide ShapeOk, CreditOk, Tracked, Matching, FinEither;
      ForgetTracked(acked, inFlight, retransmissionQueue, sent, Limit(), finSent, i);
      numOutstandingFrames := numOutstandingFrames - n;
      inFlight := Remove(inFlight, i);
    }

    // Queues what is still needed of a lost frame.
    method QueueLost(f: StreamFrame, ghost i: nat)
      requires Valid() && i < |inFlight| && f.offset == inFlight[i].offset && f.fin == inFlight[i].fin
      requires resetErr.None? ==> f.data == inFlight[i].data
      requires resetErr.Some? ==>
        && f.offset < ReliableOffset()
        && f.data == inFlight[i].data[..Min(|inFlight[i].data|, ReliableOffset() - f.offset)]
      modifies `numOutstandingFrames, `inFlight, `retransmissionQueue
      ensures Valid() && inFlight == Remove(old(inFlight), i) && 0 <= numOutstandingFrames
      ensures retransmissionQueue == old(retransmissionQueue) + [f]
    {
      hide ShapeOk, DeliveryOk, CreditOk, Matching;
      BeforeRequeue(f, i);
      numOutstandingFrames := numOutstandingFrames - 1;
      inFlight := Remove(inFlight, i);
      retransmissionQueue := retransmissionQueue + [f];
      hide CounterOk;
      AfterMove();
    }

    // Both sides of a move of frames.
    lemma BeforeRequeue(f: StreamFrame, i: nat)
      requires Valid() && i < |inFlight| && f.offset == inFlight[i].offset && f.fin == inFlight[i].fin
      requires resetErr.None? ==> f.data == inFlight[i].data
      requires resetErr.Some? ==>
        && f.offset < ReliableOffset()
        && f.data == inFlight[i].data[..Min(|inFlight[i].data|, ReliableOffset() - f.offset)]
      ensures TrackedWith(Remove(inFlight, i), retransmissionQueue + [f])
    {
      FlightEither();
      hide ShapeOk, CounterOk, Tracked, FinEither;
      RequeueTracked(acked, inFlight, retransmissionQueue, sent, Limit(), resetErr.None? && !shutdown, finSent, i, f);
    }

    // The frames are tracked, with these in flight and these queued.
    ghost predicate TrackedWith(flight: Frames, queue: Frames)
      reads `sent, `acked, `finSent, `shutdown, `resetErr, `resetsBuilt, `writeOffset, `supportsResetStreamAt,
        `reliableSize
    {
      && Tracked(acked, flight, queue, sent, Limit(), resetErr.None? && !shutdown, finSent)
      && (resetErr.Some? && resetsBuilt != [] ==>
            && FinEither(flight, resetsBuilt[0].finalSize, CutAt(resetsBuilt[0]))
            && FinEither(queue, resetsBuilt[0].finalSize, CutAt(resetsBuilt[0])))
    }

    lemma AfterMove()
      requires TrackedWith(inFlight, retransmissionQueue)
      ensures DeliveryOk()
    {
    }

    // The i-th RESET frame in flight was acknowledged.
    method OnResetAcked(reset: ResetFrame, ghost i: nat) returns (newly: bool)
      requires Valid() && i < |resetsInFlight| && resetsInFlight[i] == reset
      modifies `numOutstandingFrames, `completed, `resetsInFlight
      ensures Valid() && completed == (old(completed) || newly) && (newly ==> !old(completed))
      ensures newly && !shutdown ==> Delivered()
      ensures newly ==> nextFrame.None?
      ensures resetsInFlight == Remove(old(resetsInFlight), i) && 0 <= numOutstandingFrames
      ensures numOutstandingFrames ==
        old(numOutstandingFrames) - if reset.reliableSize == ReliableOffset() then 1 else 0
    {
      hide ShapeOk, DeliveryOk, CreditOk, Delivered, Matching;
      MatchingRemove(resetsInFlight, i, ReliableOffset());
      resetsInFlight := Remove(resetsInFlight, i);
      if reset.reliableSize != ReliableOffset() {
        return false;
      }
      numOutstandingFrames := numOutstandingFrames - 1;
      newly := IsNewlyCompleted();
    }

    // The i-th RESET frame in flight was lost.
    method OnResetLost(reset: ResetFrame, ghost i: nat)
      requires Valid() && i < |resetsInFlight| && resetsInFlight[i] == reset
      modifies `numOutstandingFrames, `queuedReset, `resetsInFlight
      ensures Valid() && resetsInFlight == Remove(old(resetsInFlight), i) && 0 <= numOutstandingFrames
      ensures queuedReset == if reset.reliableSize == ReliableOffset() then Some(reset) else old(queuedReset)
    {
      hide ShapeOk, DeliveryOk, CreditOk, Matching;
      MatchingRemove(resetsInFlight, i, ReliableOffset());
      resetsInFlight := Remove(resetsInFlight, i);
      if reset.reliableSize != ReliableOffset() {
        return;
      }
      queuedReset := Some(reset);
      numOutstandingFrames := numOutstandingFrames - 1;
    }
  }

  // The queued frames that start below the reliable offset, cut off at it.
  method CutQueue(frames: Frames, reliable: nat) returns (queue: Frames)
    ensures queue == Truncated(frames, reliable)
  {
    queue := [];
    var i := 0;
    while i < |frames|
      invariant 0 <= i <= |frames|
      invariant queue == Truncated(frames[..i], reliable)
      decreases |frames| - i
    {
      var f := frames[i];
      TruncatedAppend(frames[..i], f, reliable);
      assert frames[..i] + [f] == frames[..i + 1];
      if f.offset < reliable {
        if f.End() > reliable {
          f := f.(data := f.data[..reliable - f.offset]);
        }
        queue := queue + [f];
      }
      i := i + 1;
    }
    assert frames[..|frames|] == frames;
  }

  lemma Accept(sent: seq<Byte>, buffered: seq<Byte>, rest: seq<Byte>)
    ensures sent + buffered == (sent + buffered + rest)[..|sent + buffered + rest| - |rest|]
  {
  }

  lemma LastCarries(acked: Frames, inFlight: Frames, queue: Frames, sent: seq<Byte>, limit: nat, whole: bool,
                    finSent: bool)
    requires Tracked(acked, inFlight, queue, sent, limit, whole, finSent)
    ensures inFlight != [] ==> CarriesSlice(inFlight[|inFlight| - 1], sent)
  {
  }

  lemma SizedFrameFits(f: StreamFrame, id: nat, offset: nat, maxSize: nat)
    requires f.id == id && f.offset == offset && f.dataLenPresent && f.data != [] && maxSize <= MAX_FRAME_SIZE
    requires |f.data| <= StreamFrame(id, offset, [], false, true).MaxDataLen(maxSize)
    ensures f.Length() <= maxSize
  {
    MaxDataLenExact(f, maxSize);
  }

  lemma Reassociate(s: seq<Byte>, x: seq<Byte>, b: seq<Byte>, d: seq<Byte>, b0: seq<Byte>, d0: seq<Byte>)
    requires (x + b == b0 && d == d0) || (b == b0 == [] && x + d == d0)
    ensures s + x + b + d == s + b0 + d0
  {
  }
}
