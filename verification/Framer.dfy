// Filling a packet with control frames and STREAM frames: an exact byte count, with the
// length field of the last STREAM frame borrowed, and a round-robin over the active streams.
module Framing {
  import opened Protocol
  import opened Wire

  const MAX_PATH_RESPONSES: nat := 256
  const MAX_CONTROL_FRAMES: nat := 16384
  const MAX_STREAM_CONTROL_FRAME_SIZE: nat := 25
  const MIN_STREAM_FRAME_SIZE: nat := 128

  // Space for which one or two length bytes are enough, as in every UDP datagram this
  // implementation sends. With the borrowed bytes it is below MAX_FRAME_SIZE.
  const MAX_FRAME_SPACE: nat := 16383

  // A control frame, by identity and encoded length.
  datatype ControlFrame = ControlFrame(id: nat, length: nat)

  // What a stream answers when asked for a STREAM frame: one, maybe; whether it just became
  // blocked; and whether to ask again.
  datatype Popped = Popped(frame: Option<StreamFrame>, blocked: Option<ControlFrame>, hasMore: bool)

  // What a stream answers when asked for a control frame.
  datatype Control = Control(frame: Option<ControlFrame>, hasMore: bool)

  // The answers of all streams: to the k-th question, asked of stream id with maxLen bytes.
  type Answers = (nat, nat, nat) -> Popped

  type Controls = (nat, nat) -> Control

  // A stream keeps to the size it is given, unless it only says that it ends, and always adds
  // the length field.
  ghost predicate FrameFits(r: Popped, id: nat, maxLen: nat) {
    r.frame.Some? ==>
      && r.frame.value.id == id && r.frame.value.dataLenPresent
      && (r.frame.value.data != [] ==> r.frame.value.Length() <= maxLen)
  }

  ghost predicate Sizes(ask: Answers) {
    forall k, id, maxLen :: FrameFits(ask(k, id, maxLen), id, maxLen)
  }

  // A stream control frame takes between one and limit bytes.
  ghost predicate ControlFits(r: Control, limit: nat) {
    r.frame.Some? ==> 0 < r.frame.value.length <= limit
  }

  ghost predicate ControlSizes(ask: Controls, limit: nat) {
    forall k, id :: ControlFits(ask(k, id), limit)
  }

  // By how much a packet can get too long if stream control frames take up to limit bytes.
  function Excess(limit: nat): nat {
    if limit <= MAX_STREAM_CONTROL_FRAME_SIZE + 1 then 0 else limit - MAX_STREAM_CONTROL_FRAME_SIZE - 1
  }

  // A stream is asked for a control frame as long as this holds of the space left.
  predicate Asks(space: int) {
    space > MAX_STREAM_CONTROL_FRAME_SIZE
  }

  // That is enough for all control frames of up to limit bytes if and only if limit is at most 26.
  lemma ControlLimit(limit: nat)
    ensures (forall space: nat :: Asks(space) ==> limit <= space) <==> Excess(limit) == 0
  {
    assert Asks(MAX_STREAM_CONTROL_FRAME_SIZE + 1);
  }

  // RESET_STREAM frames are within that limit. A RESET_STREAM_AT frame is beyond it if and only if
  // three of its fields take eight bytes and the other one more than a byte.
  lemma ResetLimit(f: ResetFrame)
    ensures Excess(f.Length()) == 0 <==> f.reliableSize == 0 || Small(f, 64) >= 1 || Small(f, 1073741824) >= 2
  {
  }

  // The number of fields of a RESET_STREAM_AT frame that are below n.
  function Small(f: ResetFrame, n: nat): nat {
    (if f.id < n then 1 else 0) + (if f.errorCode < n then 1 else 0)
    + (if f.finalSize < n then 1 else 0) + (if f.reliableSize < n then 1 else 0)
  }

  function ControlLen(fs: seq<ControlFrame>): nat {
    if fs == [] then 0 else ControlLen(fs[..|fs| - 1]) + fs[|fs| - 1].length
  }

  function StreamLen(fs: seq<StreamFrame>): nat {
    if fs == [] then 0 else StreamLen(fs[..|fs| - 1]) + fs[|fs| - 1].Length()
  }

  lemma ControlAppend(fs: seq<ControlFrame>, f: ControlFrame)
    ensures ControlLen(fs + [f]) == ControlLen(fs) + f.length
  {
    assert (fs + [f])[..|fs|] == fs;
  }

  lemma StreamAppend(fs: seq<StreamFrame>, f: StreamFrame)
    ensures StreamLen(fs + [f]) == StreamLen(fs) + f.Length()
  {
    assert (fs + [f])[..|fs|] == fs;
  }

  // A frame that was given as many extra bytes as the length field of the remaining space takes
  // fits into that space once its own length field is dropped.
  lemma BorrowedBytes(f: StreamFrame, space: nat)
    requires MIN_STREAM_FRAME_SIZE <= space <= MAX_FRAME_SPACE && f.dataLenPresent
    requires f.data != [] ==> f.Length() <= space + VarIntLen(space)
    ensures f.Length() == f.(dataLenPresent := false).Length() + VarIntLen(|f.data|)
    ensures f.(dataLenPresent := false).Length() <= space
  {
  }

  // Sized with the borrowed bytes.
  ghost predicate Borrows(f: StreamFrame, space: nat) {
    f.dataLenPresent && f.Length() <= space + VarIntLen(space)
  }

  // In larger packets that is so except for a few sizes just above those that two bytes can
  // express: there the frame can be longer than the space even without its length field.
  lemma BorrowedBytesExact(space: nat)
    requires MIN_STREAM_FRAME_SIZE <= space <= 1073741823
    ensures (forall f :: Borrows(f, space) ==> f.(dataLenPresent := false).Length() <= space)
      <==> space <= 16383 || 16400 <= space
  {
    if 16383 < space < 16400 {
      var data := seq(space - 16, _ => 0 as Byte);
      var f := StreamFrame(1073741824, 1073741824, data, false, true);
      assert |data| == space - 16;
      assert f.Length() == 17 + 2 + |data|;
      assert Borrows(f, space) && f.(dataLenPresent := false).Length() == space + 1;
    }
  }

  // The frames as they are sent: the last one without its length field.
  function Trimmed(fs: seq<StreamFrame>): seq<StreamFrame> {
    if fs == [] then [] else fs[..|fs| - 1] + [fs[|fs| - 1].(dataLenPresent := false)]
  }

  // The space left when the last frame loses its length field.
  function Slack(fs: seq<StreamFrame>): nat {
    if fs == [] || !fs[|fs| - 1].dataLenPresent then 0 else VarIntLen(|fs[|fs| - 1].data|)
  }

  lemma TrimmedLen(fs: seq<StreamFrame>)
    requires fs != [] && fs[|fs| - 1].dataLenPresent
    ensures StreamLen(Trimmed(fs)) == StreamLen(fs) - Slack(fs)
  {
    StreamAppend(fs[..|fs| - 1], fs[|fs| - 1].(dataLenPresent := false));
  }

  // The stream is the only one of these.
  ghost predicate Only(ids: set<nat>, id: nat) {
    ids == {id}
  }

  ghost predicate OneFrame(c: Control) {
    c.frame.Some? && !c.hasMore
  }

  // A packet being filled: what is in it, the space left, and what is left to be sent.
  datatype Fill = Fill(frames: seq<ControlFrame>, streamFrames: seq<StreamFrame>, space: int,
                       controlFrames: seq<ControlFrame>, queue: seq<nat>, active: set<nat>)

  // One turn of the round-robin. The first stream in the queue, if it is active, is asked for a frame and goes
  // to the end of the queue if it has more. If it is blocked then, the peer is told, in the next packet if need be.
  ghost predicate Turned(st: Fill, st': Fill, ask: Answers, k: nat) {
    && st.queue != [] && MIN_STREAM_FRAME_SIZE <= st.space
    && if st.queue[0] !in st.active then st' == st.(queue := st.queue[1..])
       else
         var id := st.queue[0];
         var r := ask(k, id, st.space + VarIntLen(st.space));
         Answered(st.(queue := st.queue[1..]), st', id, r)
  }

  ghost predicate Answered(st: Fill, st': Fill, id: nat, r: Popped) {
    var space := st.space - if r.frame.Some? then r.frame.value.Length() else 0;
    && st'.queue == st.queue + (if r.hasMore then [id] else [])
    && st'.active == st.active - (if r.hasMore then {} else {id})
    && st'.streamFrames == st.streamFrames + (if r.frame.Some? then [r.frame.value] else [])
    && if r.blocked.None? then st'.frames == st.frames && st'.controlFrames == st.controlFrames && st'.space == space
       else if space < r.blocked.value.length then
         && st'.frames == st.frames && st'.controlFrames == st.controlFrames + [r.blocked.value] && st'.space == space
       else
         && st'.frames == st.frames + [r.blocked.value] && st'.controlFrames == st.controlFrames
         && st'.space == space - r.blocked.value.length
  }

  // All turns for a packet: one for each stream in the queue, unless less than 128 bytes are left, or it was
  // not possible to tell the peer that a stream is blocked.
  ghost predicate Turns(trace: seq<Fill>, ask: Answers) {
    && 0 < |trace| <= |trace[0].queue| + 1
    && (forall k :: 0 <= k < |trace| - 1 ==> Turned(trace[k], trace[k + 1], ask, k))
    && (forall k :: 0 <= k < |trace| - 2 ==> trace[k + 1].controlFrames == trace[k].controlFrames)
  }

  ghost predicate Over(trace: seq<Fill>)
    requires trace != []
  {
    var n := |trace| - 1;
    || n == |trace[0].queue| || trace[n].space < MIN_STREAM_FRAME_SIZE
    || (n > 0 && trace[n].controlFrames != trace[n - 1].controlFrames)
  }

  class Framer {
    var activeStreams: set<nat>
    var streamQueue: seq<nat>
    var streamsWithControlFrames: set<nat>
    var controlFrames: seq<ControlFrame>
    var pathResponses: seq<ControlFrame>
    var queuedTooManyControlFrames: bool

    // Every active stream has a place in the queue.
    ghost predicate Valid()
      reads `activeStreams, `streamQueue, `pathResponses
    {
      && (forall id :: id in activeStreams ==> id in streamQueue)
      && |pathResponses| <= MAX_PATH_RESPONSES
    }

    constructor ()
      ensures Valid() && activeStreams == {} && streamQueue == [] && controlFrames == [] && pathResponses == []
      ensures streamsWithControlFrames == {}
    {
      activeStreams, streamQueue, streamsWithControlFrames := {}, [], {};
      controlFrames, pathResponses, queuedTooManyControlFrames := [], [], false;
    }

    method QueueControlFrame(f: ControlFrame, isPathResponse: bool)
      requires Valid()
      modifies `controlFrames, `pathResponses, `queuedTooManyControlFrames
      ensures Valid()
      ensures pathResponses ==
        old(pathResponses) + if isPathResponse && |old(pathResponses)| < MAX_PATH_RESPONSES then [f] else []
      ensures controlFrames ==
        old(controlFrames) + if !isPathResponse && |old(controlFrames)| < MAX_CONTROL_FRAMES then [f] else []
      ensures queuedTooManyControlFrames ==
        (old(queuedTooManyControlFrames) || (!isPathResponse && |old(controlFrames)| >= MAX_CONTROL_FRAMES))
    {
      if isPathResponse {
        if |pathResponses| < MAX_PATH_RESPONSES {
          pathResponses := pathResponses + [f];
        }
        return;
      }
      if |controlFrames| >= MAX_CONTROL_FRAMES {
        queuedTooManyControlFrames := true;
        return;
      }
      controlFrames := controlFrames + [f];
    }

    method AddActiveStream(id: nat)
      requires Valid()
      modifies `activeStreams, `streamQueue
      ensures Valid() && activeStreams == old(activeStreams) + {id}
      ensures streamQueue == old(streamQueue) + if id in old(activeStreams) then [] else [id]
    {
      if id !in activeStreams {
        streamQueue := streamQueue + [id];
        activeStreams := activeStreams + {id};
      }
    }

    // Its places in the queue are left to be skipped.
    method RemoveActiveStream(id: nat)
      requires Valid()
      modifies `activeStreams
      ensures Valid() && activeStreams == old(activeStreams) - {id}
    {
      activeStreams := activeStreams - {id};
    }

    method AddStreamWithControlFrames(id: nat)
      requires Valid()
      modifies `streamsWithControlFrames
      ensures Valid() && streamsWithControlFrames == old(streamsWithControlFrames) + {id}
    {
      streamsWithControlFrames := streamsWithControlFrames + {id};
    }

    // A single PATH_RESPONSE.
    method AppendPathResponse(maxLen: nat) returns (frames: seq<ControlFrame>)
      modifies `pathResponses
      ensures ControlLen(frames) <= maxLen && |frames| <= 1 && frames + pathResponses == old(pathResponses)
      ensures frames == [] ==> pathResponses == [] || pathResponses[0].length > maxLen
    {
      frames := [];
      if |pathResponses| > 0 {
        var frame := pathResponses[0];
        if frame.length <= maxLen {
          ControlAppend([], frame);
          frames := [frame];
          pathResponses := pathResponses[1..];
        }
      }
    }

    // Control frames of streams, as long as a RESET_STREAM frame would fit. The last one may be
    // longer than that.
    method AppendStreamControlFrames(frames: seq<ControlFrame>, maxLen: nat, ask: Controls, ghost limit: nat)
      returns (r: seq<ControlFrame>)
      requires ControlLen(frames) <= maxLen && ControlSizes(ask, limit)
      modifies `streamsWithControlFrames
      ensures frames <= r && ControlLen(r) <= maxLen + Excess(limit)
      ensures streamsWithControlFrames <= old(streamsWithControlFrames)
      ensures !Asks(maxLen - ControlLen(r))
        || forall id :: id in streamsWithControlFrames ==> exists k :: ask(k, id).hasMore
      ensures Asks(maxLen - ControlLen(frames)) ==>
        forall id :: Only(old(streamsWithControlFrames), id) && OneFrame(ask(0, id)) ==>
          r == frames + [ask(0, id).frame.value]
    {
      r := frames;
      var left, k := streamsWithControlFrames, 0;
      var id, again := 0, false;
      while left != {} && Asks(maxLen - ControlLen(r))
        invariant frames <= r && ControlLen(r) <= maxLen + Excess(limit)
        invariant left <= streamsWithControlFrames <= old(streamsWithControlFrames) && (again ==> id in left)
        invariant k == 0 ==> r == frames && left == old(streamsWithControlFrames) && !again
        invariant forall id :: k > 0 && Only(old(streamsWithControlFrames), id) && OneFrame(ask(0, id)) ==>
          k == 1 && left == {} && r == frames + [ask(0, id).frame.value]
        invariant forall id :: id in streamsWithControlFrames && id !in left ==> exists k :: ask(k, id).hasMore
        decreases maxLen + Excess(limit) - ControlLen(r), |left|
      {
        if !again {
          id :| id in left;
        }
        var c := ask(k, id);
        assert ControlFits(ask(k, id), limit);
        k := k + 1;
        if !c.hasMore {
          streamsWithControlFrames := streamsWithControlFrames - {id};
        }
        again := c.hasMore && c.frame.Some?;
        if !again {
          left := left - {id};
        }
        if c.frame.Some? {
          ControlAppend(r, c.frame.value);
          r := r + [c.frame.value];
        }
      }
    }

    // Queued control frames, the latest first.
    method AppendQueuedFrames(frames: seq<ControlFrame>, maxLen: nat) returns (r: seq<ControlFrame>)
      modifies `controlFrames
      ensures frames <= r && (r == frames || ControlLen(r) <= maxLen)
      ensures multiset(r) + multiset(controlFrames) == multiset(frames) + multiset(old(controlFrames))
      ensures controlFrames <= old(controlFrames)
      ensures controlFrames != [] ==> ControlLen(r) + controlFrames[|controlFrames| - 1].length > maxLen
    {
      r := frames;
      while |controlFrames| > 0
        invariant frames <= r && (r == frames || ControlLen(r) <= maxLen) && controlFrames <= old(controlFrames)
        invariant multiset(r) + multiset(controlFrames) == multiset(frames) + multiset(old(controlFrames))
        decreases |controlFrames|
      {
        var frame := controlFrames[|controlFrames| - 1];
        if ControlLen(r) + frame.length > maxLen {
          break;
        }
        ControlAppend(r, frame);
        assert controlFrames == controlFrames[..|controlFrames| - 1] + [frame];
        r := r + [frame];
        controlFrames := controlFrames[..|controlFrames| - 1];
      }
    }

    // Asks the next stream in the queue; one that has more goes to the end. There are more bytes
    // to give than there is space, by the length field that the last frame will lose.
    method GetNextStreamFrame(space: nat, ask: Answers, k: nat)
      returns (frame: Option<StreamFrame>, blocked: Option<ControlFrame>)
      requires Valid() && streamQueue != [] && Sizes(ask)
      modifies `activeStreams, `streamQueue
      ensures Valid() && activeStreams <= old(activeStreams)
      ensures streamQueue == old(streamQueue)[1..] || streamQueue == old(streamQueue)[1..] + [old(streamQueue)[0]]
      ensures var id := old(streamQueue)[0];
        if id !in old(activeStreams)
        then frame.None? && blocked.None? && streamQueue == old(streamQueue)[1..] && activeStreams == old(activeStreams)
        else
          var r := ask(k, id, space + VarIntLen(space));
          && frame == r.frame && blocked == r.blocked
          && streamQueue == old(streamQueue)[1..] + (if r.hasMore then [id] else [])
          && activeStreams == old(activeStreams) - (if r.hasMore then {} else {id})
      ensures frame.Some? ==>
        && frame.value.id == old(streamQueue)[0] && frame.value.dataLenPresent && frame.value.id in old(activeStreams)
        && (frame.value.data != [] ==> frame.value.Length() <= space + VarIntLen(space))
    {
      var id := streamQueue[0];
      assert streamQueue == [id] + streamQueue[1..];
      streamQueue := streamQueue[1..];
      if id !in activeStreams {
        return None, None;
      }
      var r := ask(k, id, space + VarIntLen(space));
      assert FrameFits(ask(k, id, space + VarIntLen(space)), id, space + VarIntLen(space));
      if r.hasMore {
        streamQueue := streamQueue + [id];
      } else {
        activeStreams := activeStreams - {id};
      }
      return r.frame, r.blocked;
    }

    // One turn of the round-robin, with space bytes left.
    method AppendStreamFrame(frames: seq<ControlFrame>, streamFrames: seq<StreamFrame>, space: nat, ask: Answers,
                             k: nat)
      returns (frames': seq<ControlFrame>, streamFrames': seq<StreamFrame>, space': int, stop: bool)
      requires Valid() && streamQueue != [] && Sizes(ask) && MIN_STREAM_FRAME_SIZE <= space <= MAX_FRAME_SPACE
      modifies `activeStreams, `streamQueue, `controlFrames
      ensures Valid() && activeStreams <= old(activeStreams)
      ensures streamQueue == old(streamQueue)[1..] || streamQueue == old(streamQueue)[1..] + [old(streamQueue)[0]]
      ensures Spent(frames, streamFrames, space, frames', streamFrames', space') && space' <= space
      ensures Turned(Fill(frames, streamFrames, space, old(controlFrames), old(streamQueue), old(activeStreams)),
                     Fill(frames', streamFrames', space', controlFrames, streamQueue, activeStreams), ask, k)
      ensures stop <==> controlFrames != old(controlFrames)
      ensures multiset(frames') + multiset(controlFrames) >= multiset(frames) + multiset(old(controlFrames))
    {
      hide Framer.Valid, Sizes, StreamFrame.Length, VarIntLen, ControlLen, StreamLen;
      frames', streamFrames', space', stop := frames, streamFrames, space, false;
      var sf, blocked := GetNextStreamFrame(space, ask, k);
      if sf.Some? {
        BorrowedBytes(sf.value, space);
        StreamAppend(streamFrames, sf.value);
        streamFrames' := streamFrames + [sf.value];
        space' := space - sf.value.Length();
      }
      if blocked.Some? {
        if space' < blocked.value.length {
          controlFrames := controlFrames + [blocked.value];
          stop := true;
        } else {
          ControlAppend(frames, blocked.value);
          frames' := frames + [blocked.value];
          space' := space' - blocked.value.length;
        }
      }
    }

    // STREAM frames of the streams in the queue, each asked at most once, until less than 128
    // bytes are left.
    method AppendStreamFrames(frames: seq<ControlFrame>, space: int, ask: Answers)
      returns (frames': seq<ControlFrame>, streamFrames: seq<StreamFrame>, space': int, ghost trace: seq<Fill>)
      requires Valid() && Sizes(ask) && space <= MAX_FRAME_SPACE
      modifies `activeStreams, `streamQueue, `controlFrames
      ensures Valid() && activeStreams <= old(activeStreams)
      ensures Spent(frames, [], space, frames', streamFrames, space')
      ensures Turns(trace, ask) && Over(trace)
      ensures trace[0] == Fill(frames, [], space, old(controlFrames), old(streamQueue), old(activeStreams))
      ensures trace[|trace| - 1] == Fill(frames', streamFrames, space', controlFrames, streamQueue, activeStreams)
      ensures Rotated(old(streamQueue), streamQueue, |trace| - 1)
      ensures multiset(frames') + multiset(controlFrames) >= multiset(frames) + multiset(old(controlFrames))
    {
      hide Sizes, Turned, Spent, Rotated;
      frames', streamFrames, space' := frames, [], space;
      SpentNothing(frames, space);
      NoTurns(streamQueue);
      var numActiveStreams, i, stop := |streamQueue|, 0, false;
      trace := [Fill(frames, [], space, controlFrames, streamQueue, activeStreams)];
      while i < numActiveStreams && !stop && MIN_STREAM_FRAME_SIZE <= space'
        invariant 0 <= i <= numActiveStreams == |old(streamQueue)|
        invariant Valid() && activeStreams <= old(activeStreams) && Rotated(old(streamQueue), streamQueue, i)
        invariant Spent(frames, [], space, frames', streamFrames, space') && space' <= space
        invariant multiset(frames') + multiset(controlFrames) >= multiset(frames) + multiset(old(controlFrames))
        invariant |trace| == i + 1 && Turns(trace, ask)
        invariant trace[0] == Fill(frames, [], space, old(controlFrames), old(streamQueue), old(activeStreams))
        invariant trace[i] == Fill(frames', streamFrames, space', controlFrames, streamQueue, activeStreams)
        invariant stop <==> i > 0 && trace[i].controlFrames != trace[i - 1].controlFrames
        decreases numActiveStreams - i
      {
        ghost var q, f0, s0, l0 := streamQueue, frames', streamFrames, space';
        QueueLeft(old(streamQueue), q, i);
        frames', streamFrames, space', stop := AppendStreamFrame(frames', streamFrames, space', ask, i);
        RotatedStep(old(streamQueue), q, streamQueue, i);
        SpentTrans(frames, space, f0, s0, l0, frames', streamFrames, space');
        i := i + 1;
        trace := trace + [Fill(frames', streamFrames, space', controlFrames, streamQueue, activeStreams)];
      }
    }

    // Fills a packet of maxLen bytes. The length returned is exactly that of the frames added. It
    // is at most maxLen if stream control frames are no longer than 26 bytes, and may exceed it
    // by what they are longer. Only the last STREAM frame has no length field. Streams are asked
    // in the order of the queue, and those not asked keep their order at its front. No control
    // frame queued is lost.
    method Append(maxLen: nat, controls: Controls, ghost limit: nat, ask: Answers, connBlocked: Option<ControlFrame>)
      returns (frames: seq<ControlFrame>, streamFrames: seq<StreamFrame>, length: int, ghost trace: seq<Fill>)
      requires Valid() && ControlSizes(controls, limit) && Sizes(ask) && maxLen <= MAX_FRAME_SPACE
      modifies this
      ensures Turns(trace, ask) && Over(trace) && Rotated(old(streamQueue), streamQueue, |trace| - 1)
      ensures Begins(trace[0], maxLen, old(streamQueue), old(activeStreams))
      ensures Ends(trace[|trace| - 1], frames, streamFrames, streamQueue, activeStreams)
      ensures Valid() && activeStreams <= old(activeStreams)
      ensures length == ControlLen(frames) + StreamLen(streamFrames) && 0 <= length <= maxLen + Excess(limit)
      ensures length > maxLen ==> streamFrames == []
      ensures forall i :: 0 <= i < |streamFrames| ==> (streamFrames[i].dataLenPresent <==> i < |streamFrames| - 1)
      ensures forall f :: f in old(controlFrames) || f in old(pathResponses) || (connBlocked == Some(f)) ==>
        f in frames || f in controlFrames || f in pathResponses
      ensures forall id :: Alone(old(pathResponses), old(streamsWithControlFrames), id, maxLen, controls) ==>
        controls(0, id).frame.value in frames
    {
      var space;
      frames, streamFrames, space, trace := Collect(maxLen, controls, limit, ask);
      ghost var collected := frames;
      if connBlocked.Some? {
        if space >= connBlocked.value.length {
          ControlAppend(frames, connBlocked.value);
          frames := frames + [connBlocked.value];
          space := space - connBlocked.value.length;
        } else {
          controlFrames := controlFrames + [connBlocked.value];
        }
      }
      assert collected <= frames;
      length := maxLen - space;
      if streamFrames != [] {
        TrimmedLen(streamFrames);
        length := length - Slack(streamFrames);
        streamFrames := Trimmed(streamFrames);
      }
    }

    method Collect(maxLen: nat, controls: Controls, ghost limit: nat, ask: Answers)
      returns (frames: seq<ControlFrame>, streamFrames: seq<StreamFrame>, space: int, ghost trace: seq<Fill>)
      requires Valid() && ControlSizes(controls, limit) && Sizes(ask) && maxLen <= MAX_FRAME_SPACE
      modifies `pathResponses, `streamsWithControlFrames, `controlFrames, `activeStreams, `streamQueue
      ensures Valid() && activeStreams <= old(activeStreams)
      ensures space >= 0 || streamFrames != [] ==> Spent([], [], maxLen, frames, streamFrames, space)
      ensures space < 0 && streamFrames == [] ==> maxLen - space == ControlLen(frames) <= maxLen + Excess(limit)
      ensures Turns(trace, ask) && Over(trace) && Rotated(old(streamQueue), streamQueue, |trace| - 1)
      ensures Begins(trace[0], maxLen, old(streamQueue), old(activeStreams))
      ensures trace[|trace| - 1] == Fill(frames, streamFrames, space, controlFrames, streamQueue, activeStreams)
      ensures forall f :: f in old(controlFrames) || f in old(pathResponses) ==>
        f in frames || f in controlFrames || f in pathResponses
      ensures forall id :: Alone(old(pathResponses), old(streamsWithControlFrames), id, maxLen, controls) ==>
        controls(0, id).frame.value in frames
    {
      hide Sizes, ControlSizes, Rotated, Turns, Over;
      var f1 := AppendPathResponse(maxLen);
      var f2 := AppendStreamControlFrames(f1, maxLen, controls, limit);
      var f3 := AppendQueuedFrames(f2, maxLen);
      ghost var left := controlFrames;
      frames, streamFrames, space, trace := AppendStreamFrames(f3, maxLen - ControlLen(f3), ask);
      forall f | f in old(controlFrames)
        ensures f in frames || f in controlFrames
      {
        StillThere(old(controlFrames), f2, f3, left, frames, controlFrames, f);
      }
      forall f | f in old(pathResponses)
        ensures f in frames || f in pathResponses
      {
        assert f in f1 || f in pathResponses;
      }
    }
  }

  // STREAM frames get the space that control frames leave.
  ghost predicate Begins(st: Fill, maxLen: nat, queue: seq<nat>, active: set<nat>) {
    st.streamFrames == [] && st.space == maxLen - ControlLen(st.frames) && st.queue == queue && st.active == active
  }

  // The frames are those of all turns, the last one without its length field.
  ghost predicate Ends(st: Fill, frames: seq<ControlFrame>, streamFrames: seq<StreamFrame>, queue: seq<nat>,
                       active: set<nat>)
  {
    && st.frames <= frames && st.queue == queue && st.active == active
    && streamFrames == if st.streamFrames == [] then [] else Trimmed(st.streamFrames)
  }

  lemma SpentNothing(frames: seq<ControlFrame>, space: int)
    ensures Spent(frames, [], space, frames, [], space)
  {
  }

  lemma NoTurns(q: seq<nat>)
    ensures Rotated(q, q, 0)
  {
  }

  lemma QueueLeft(q0: seq<nat>, q: seq<nat>, n: nat)
    requires Rotated(q0, q, n) && n < |q0|
    ensures q != []
  {
  }

  // The stream is the only one with a control frame, a single one, and is asked for it.
  ghost predicate Alone(pathResponses: seq<ControlFrame>, ids: set<nat>, id: nat, maxLen: nat, ask: Controls) {
    pathResponses == [] && Only(ids, id) && Asks(maxLen) && OneFrame(ask(0, id))
  }

  // A RESET_STREAM_AT frame that is too long: the packet is longer than the space there is for it.
  method LongReset(f: ResetFrame, maxLen: nat, ask: Answers) returns (frames: seq<ControlFrame>, length: int)
    requires Asks(maxLen) && maxLen < f.Length() && Sizes(ask)
    ensures maxLen < length && ControlFrame(f.id, f.Length()) in frames
  {
    var framer := new Framer();
    framer.AddStreamWithControlFrames(f.id);
    var controls: Controls := (k: nat, id: nat) => Control(Some(ControlFrame(id, f.Length())), false);
    assert Alone(framer.pathResponses, framer.streamsWithControlFrames, f.id, maxLen, controls);
    var streamFrames;
    ghost var trace;
    frames, streamFrames, length, trace := framer.Append(maxLen, controls, f.Length(), ask, None);
    Contained(frames, ControlFrame(f.id, f.Length()));
  }

  lemma {:induction false} Contained(fs: seq<ControlFrame>, f: ControlFrame)
    requires f in fs
    ensures f.length <= ControlLen(fs)
  {
    var n := |fs| - 1;
    if fs[n] != f {
      Contained(fs[..n], f);
    }
  }

  lemma StillThere(q0: seq<ControlFrame>, before: seq<ControlFrame>, frames: seq<ControlFrame>, q: seq<ControlFrame>,
                   frames': seq<ControlFrame>, q': seq<ControlFrame>, f: ControlFrame)
    requires multiset(frames) + multiset(q) == multiset(before) + multiset(q0)
    requires multiset(frames') + multiset(q') >= multiset(frames) + multiset(q)
    requires f in q0
    ensures f in frames' || f in q'
  {
    assert f in multiset(before) + multiset(q0);
    assert f in multiset(frames') + multiset(q');
  }

  // After n turns: the streams not asked are first, in their order, then some of those asked.
  ghost predicate Rotated(q0: seq<nat>, q: seq<nat>, n: nat) {
    && n <= |q0| <= |q| + n
    && q[..|q0| - n] == q0[n..]
    && (forall i :: |q0| - n <= i < |q| ==> q[i] in q0[..n])
  }

  lemma RotatedStep(q0: seq<nat>, q: seq<nat>, q': seq<nat>, n: nat)
    requires Rotated(q0, q, n) && n < |q0|
    requires q' == q[1..] || q' == q[1..] + [q[0]]
    ensures Rotated(q0, q', n + 1)
  {
    assert q[0] == q[..|q0| - n][0] == q0[n];
    assert q0[..n + 1] == q0[..n] + [q0[n]];
    assert q'[..|q0| - n - 1] == q[..|q0| - n][1..];
    forall i | |q0| - n - 1 <= i < |q'|
      ensures q'[i] in q0[..n + 1]
    {
      if i + 1 < |q| { assert q'[i] == q[i + 1]; }
    }
  }

  // It is the turn of stream id, at place j of the queue.
  ghost predicate Reached(queue: seq<nat>, turns: nat, j: int, id: nat) {
    0 <= j < turns <= |queue| && queue[j] == id
  }

  // No stream waits forever: one at place p of the queue is asked, or found inactive, in one of the next p + 1
  // packets that have space for STREAM frames. queues are the queues before, and rests those after each packet;
  // in between, streams that become active are added at the end.
  lemma {:induction false} NoStarvation(queues: seq<seq<nat>>, rests: seq<seq<nat>>, turns: seq<nat>, p: nat)
    requires |queues| == |rests| == |turns| > p && p < |queues[0]|
    requires forall i :: 0 <= i < |turns| ==> Rotated(queues[i], rests[i], turns[i])
    requires forall i :: 0 <= i < |turns| ==> queues[i] == [] || turns[i] > 0
    requires forall i :: 0 <= i < |turns| - 1 ==> rests[i] <= queues[i + 1]
    ensures exists i, j :: 0 <= i <= p && Reached(queues[i], turns[i], j, queues[0][p])
    decreases p
  {
    if p < turns[0] {
      assert Reached(queues[0], turns[0], p, queues[0][p]);
    } else {
      var p' := p - turns[0];
      assert rests[0][..|queues[0]| - turns[0]][p'] == queues[0][turns[0]..][p'];
      assert queues[1][p'] == rests[0][p'] == queues[0][p];
      NoStarvation(queues[1..], rests[1..], turns[1..], p');
      var i, j :| 0 <= i <= p' && Reached(queues[1..][i], turns[1..][i], j, queues[1..][0][p']);
      assert Reached(queues[i + 1], turns[i + 1], j, queues[0][p]);
    }
  }

  // A packet with space for STREAM frames has at least one turn.
  lemma SomeTurn(trace: seq<Fill>, ask: Answers)
    requires Turns(trace, ask) && Over(trace) && trace[0].queue != [] && MIN_STREAM_FRAME_SIZE <= trace[0].space
    ensures |trace| > 1
  {
  }

  lemma SpentTrans(frames: seq<ControlFrame>, space: int, f1: seq<ControlFrame>, s1: seq<StreamFrame>, l1: int,
                   f2: seq<ControlFrame>, s2: seq<StreamFrame>, l2: int)
    requires Spent(frames, [], space, f1, s1, l1) && Spent(f1, s1, l1, f2, s2, l2)
    ensures Spent(frames, [], space, f2, s2, l2)
  {
    assert forall i :: 0 <= i < |s1| ==> s2[i] == s1[i];
  }

  // From space bytes to space' bytes left, by adding frames. The space may be exceeded by the
  // length field of the last STREAM frame.
  ghost predicate Spent(frames: seq<ControlFrame>, streamFrames: seq<StreamFrame>, space: int,
                        frames': seq<ControlFrame>, streamFrames': seq<StreamFrame>, space': int)
  {
    && frames <= frames' && streamFrames <= streamFrames'
    && ControlLen(frames') + StreamLen(streamFrames') + space' == ControlLen(frames) + StreamLen(streamFrames) + space
    && (forall i :: |streamFrames| <= i < |streamFrames'| ==> streamFrames'[i].dataLenPresent)
    && space' <= space
    && (space' >= 0 || (space < 0 && frames' == frames && streamFrames' == streamFrames)
        || (|streamFrames| < |streamFrames'| && space' + Slack(streamFrames') >= 0))
  }
}
