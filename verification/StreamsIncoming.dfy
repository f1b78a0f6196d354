// Streams opened by the peer: the limit granted to it, the streams held, and the order in
// which the application accepts them.
module StreamsIncoming {
  import opened Protocol

  const INVALID_STREAM: int := -1
  const MAX_STREAM_ID: int := 0x3fff_ffff_ffff_ffff
  const MAX_STREAM_COUNT: nat := 0x1000_0000_0000_0000

  // A stream that completed before it was accepted stays in the map until then.
  datatype Entry = Entry(id: int, shouldDelete: bool)

  datatype Lookup = LimitError | Gone | Found(id: int)

  datatype Accepted = Closed | Wait | Stream(id: int)

  datatype Deletion = Deleted | Unknown | Twice

  type Streams = map<int, Entry>

  // Streams are those of one type, opened by the peer; those not accepted yet are all held.
  ghost predicate Held(streams: Streams, first: nat, accept: int, open: int) {
    && (forall id :: id in streams ==> streams[id].id == id && first <= id < open && id % 4 == first)
    && (forall id :: accept <= id < open && id % 4 == first ==> id in streams)
    && (forall id :: id in streams && streams[id].shouldDelete ==> accept <= id)
  }

  // How many more streams the peer may open.
  function Openable(open: int, max: int): int {
    if max < open then 0 else (max - open) / 4 + 1
  }

  // The streams a MAX_STREAMS frame allows.
  function StreamNum(id: int): int {
    id / 4 + 1
  }

  lemma {:induction false} SizeRemove(streams: Streams, id: int)
    requires id in streams
    ensures |streams - {id}| == |streams| - 1
  {
    assert (streams - {id}).Keys == streams.Keys - {id};
    assert |streams.Keys| == |streams| && |(streams - {id}).Keys| == |streams - {id}|;
  }

  lemma SizeInsert(streams: Streams, id: int, e: Entry)
    requires id !in streams
    ensures |streams[id := e]| == |streams| + 1
  {
    assert streams[id := e].Keys == streams.Keys + {id};
  }

  lemma SizeReplace(streams: Streams, id: int, e: Entry)
    requires id in streams
    ensures |streams[id := e]| == |streams|
  {
    assert streams[id := e].Keys == streams.Keys;
  }

  lemma HeldOpen(streams: Streams, first: nat, accept: int, open: int)
    requires Held(streams, first, accept, open) && first <= accept <= open && open % 4 == first
    ensures open !in streams && Held(streams[open := Entry(open, false)], first, accept, open + 4)
  {
  }

  lemma HeldRemove(streams: Streams, id: int, first: nat, accept: int, open: int)
    requires Held(streams[id := Entry(id, false)], first, accept, open) && id < accept
    ensures Held(streams - {id}, first, accept, open)
  {
    var kept := streams[id := Entry(id, false)];
    assert forall k :: k in streams - {id} ==> k in kept && kept[k] == streams[k];
    assert forall k :: k in kept && k != id ==> k in streams - {id};
  }

  // The streams from open up to id are there as well, and nothing else has changed.
  ghost predicate OpenedTo(streams: Streams, streams': Streams, first: nat, open: int, id: int) {
    && (forall k :: k in streams ==> k in streams' && streams'[k] == streams[k])
    && (forall k :: k in streams' && k !in streams ==>
        open <= k <= id && k % 4 == first && streams'[k] == Entry(k, false))
    && (forall k :: open <= k <= id && k % 4 == first ==> k in streams')
  }

  // The next stream ID of a type.
  lemma Next(a: int, b: int, first: nat)
    requires a <= b && a % 4 == b % 4 == first
    ensures (a + 4) % 4 == first && (a + 4 <= b || a == b)
  {
  }

  lemma OpenedNone(streams: Streams, first: nat, open: int)
    requires open % 4 == first
    ensures OpenedTo(streams, streams, first, open, open - 4)
  {
  }

  lemma OpenedNext(streams: Streams, streams': Streams, first: nat, open: int, id: int)
    requires OpenedTo(streams, streams', first, open, id - 4) && open <= id && id % 4 == first && id !in streams'
    ensures OpenedTo(streams, streams'[id := Entry(id, false)], first, open, id)
  {
    forall k | open <= k <= id && k % 4 == first
      ensures k in streams'[id := Entry(id, false)]
    {
      assert k == id || k <= id - 4;
    }
  }

  // The limit that allows for as many streams as configured.
  function FullLimit(open: int, maxNum: nat, held: nat): int {
    open + 4 * (maxNum - held - 1)
  }

  class IncomingStreams {
    const first: nat
    const maxNumStreams: nat
    var streams: Streams
    var nextStreamToAccept: int
    var nextStreamToOpen: int
    var maxStream: int
    var closed: bool
    var frames: seq<int>    // the limits sent in MAX_STREAMS frames
    var accepted: seq<int>  // the streams accepted, in order

    ghost predicate CursorsOk()
      reads this
    {
      && first < 4 && nextStreamToAccept == first + 4 * |accepted|
      && nextStreamToAccept <= nextStreamToOpen && nextStreamToOpen % 4 == first
      && (forall i :: 0 <= i < |accepted| ==> accepted[i] == first + 4 * i)
    }

    // The streams held and those the peer may still open are never more than allowed.
    ghost predicate LimitOk()
      reads this
    {
      && maxNumStreams <= MAX_STREAM_COUNT
      && (maxStream == INVALID_STREAM
          || (0 <= maxStream <= MAX_STREAM_ID && maxStream % 4 == first && nextStreamToOpen <= maxStream + 4))
      && (maxStream == INVALID_STREAM ==> nextStreamToOpen == first && maxNumStreams == 0)
      && |streams| <= maxNumStreams
      && (nextStreamToOpen <= maxStream ==> 4 * |streams| + maxStream + 4 - nextStreamToOpen <= 4 * maxNumStreams)
    }

    ghost predicate FramesOk()
      reads this
    {
      && Increasing(frames)
      && forall i :: 0 <= i < |frames| ==> frames[i] <= StreamNum(maxStream) && frames[i] <= MAX_STREAM_COUNT
    }

    ghost predicate Valid()
      reads this
    {
      CursorsOk() && Held(streams, first, nextStreamToAccept, nextStreamToOpen) && LimitOk() && FramesOk()
    }

    lemma NeverTooMany()
      requires Valid()
      ensures |streams| + Openable(nextStreamToOpen, maxStream) <= maxNumStreams
    {
    }

    constructor (first: nat, maxStreams: nat)
      requires first < 4 && maxStreams <= MAX_STREAM_COUNT
      ensures Valid() && this.first == first && maxNumStreams == maxStreams && !closed
      ensures accepted == [] && frames == [] && nextStreamToOpen == first && streams == map[]
      ensures maxStream == if maxStreams == 0 then INVALID_STREAM else first + 4 * (maxStreams - 1)
      ensures Openable(nextStreamToOpen, maxStream) == maxStreams
    {
      this.first, maxNumStreams := first, maxStreams;
      streams, nextStreamToAccept, nextStreamToOpen := map[], first, first;
      maxStream := if maxStreams == 0 then INVALID_STREAM else first + 4 * (maxStreams - 1);
      closed, frames, accepted := false, [], [];
    }

    // A frame for stream id. Opening a stream opens all lower ones.
    method GetOrOpenStream(id: int) returns (r: Lookup)
      requires Valid() && 0 <= id && id % 4 == first
      modifies `streams, `nextStreamToOpen
      ensures Valid()
      ensures r.LimitError? <==> id > maxStream
      ensures r.Found? ==> r.id == id && id in streams && !streams[id].shouldDelete
      ensures r.Gone? ==> id < old(nextStreamToOpen) && (id in streams ==> streams[id].shouldDelete)
      ensures nextStreamToOpen == if r.LimitError? then old(nextStreamToOpen) else Max(old(nextStreamToOpen), id + 4)
      ensures if r.LimitError? then streams == old(streams)
        else OpenedTo(old(streams), streams, first, old(nextStreamToOpen), id)
      ensures !r.LimitError? ==> (r.Found? <==> id in streams && !streams[id].shouldDelete)
    {
      if id > maxStream {
        return LimitError;
      }
      if id < nextStreamToOpen {
        return if id in streams && !streams[id].shouldDelete then Found(streams[id].id) else Gone;
      }
      OpenUpTo(id);
      return Found(streams[id].id);
    }

    method OpenUpTo(id: int)
      requires Valid() && nextStreamToOpen <= id <= maxStream && id % 4 == first
      modifies `streams, `nextStreamToOpen
      ensures Valid() && nextStreamToOpen == id + 4
      ensures id in streams && !streams[id].shouldDelete
        && OpenedTo(old(streams), streams, first, old(nextStreamToOpen), id)
    {
      hide Held, OpenedTo;
      ghost var n := OpenAll(id);
      nextStreamToOpen := id + 4;
    }

    method OpenAll(id: int) returns (ghost n: nat)
      requires Held(streams, first, nextStreamToAccept, nextStreamToOpen)
        && first <= nextStreamToAccept <= nextStreamToOpen <= id
      requires nextStreamToOpen % 4 == id % 4 == first
      modifies `streams
      ensures Held(streams, first, nextStreamToAccept, id + 4) && |streams| == |old(streams)| + n
        && id + 4 == nextStreamToOpen + 4 * n
      ensures id in streams && !streams[id].shouldDelete && OpenedTo(old(streams), streams, first, nextStreamToOpen, id)
    {
      hide Held, OpenedTo;
      OpenedNone(streams, first, nextStreamToOpen);
      n := 0;
      var newNum := nextStreamToOpen;
      while newNum <= id
        invariant newNum == nextStreamToOpen + 4 * n && newNum % 4 == first && newNum <= id + 4
        invariant Held(streams, first, nextStreamToAccept, newNum) && |streams| == |old(streams)| + n
        invariant OpenedTo(old(streams), streams, first, nextStreamToOpen, newNum - 4)
        invariant newNum > id ==> id in streams && !streams[id].shouldDelete
        decreases id - newNum
      {
        ghost var before := streams;
        OpenNext(newNum);
        OpenedNext(old(streams), before, first, nextStreamToOpen, newNum);
        Next(newNum, id, first);
        newNum := newNum + 4;
        n := n + 1;
      }
    }

    method OpenNext(id: int)
      requires Held(streams, first, nextStreamToAccept, id) && first <= nextStreamToAccept <= id && id % 4 == first
      modifies `streams
      ensures Held(streams, first, nextStreamToAccept, id + 4) && |streams| == |old(streams)| + 1
      ensures id !in old(streams) && streams == old(streams)[id := Entry(id, false)]
    {
      hide Held;
      HeldOpen(streams, first, nextStreamToAccept, id);
      SizeInsert(streams, id, Entry(id, false));
      streams := streams[id := Entry(id, false)];
    }

    // The next stream, unless the caller has to wait for it.
    method AcceptStream() returns (r: Accepted)
      requires Valid()
      modifies `streams, `nextStreamToAccept, `maxStream, `frames, `accepted
      ensures Valid()
      ensures r.Closed? <==> closed
      ensures r.Wait? <==> !closed && old(nextStreamToAccept) == nextStreamToOpen
      ensures r.Stream? ==> r.id == first + 4 * |old(accepted)| && accepted == old(accepted) + [r.id]
      ensures !r.Stream? ==>
        accepted == old(accepted) && streams == old(streams) && maxStream == old(maxStream) && frames == old(frames)
      ensures r.Stream? ==> r.id in old(streams)
      ensures r.Stream? ==>
        if old(streams)[r.id].shouldDelete then Removed(old(streams), old(maxStream), old(frames), r.id)
        else streams == old(streams) && maxStream == old(maxStream) && frames == old(frames)
      ensures old(maxStream) <= maxStream
    {
      var id := nextStreamToAccept;
      if closed {
        return Closed;
      }
      if id !in streams {
        return Wait;
      }
      var entry := streams[id];
      PassBy(id);
      if entry.shouldDelete {
        Remove(id);
      }
      return Stream(entry.id);
    }

    // The cursor passes a stream. One that is complete must be removed now.
    method PassBy(id: int)
      requires Valid() && id == nextStreamToAccept && id in streams
      modifies `nextStreamToAccept, `accepted
      ensures CursorsOk() && LimitOk() && FramesOk() && accepted == old(accepted) + [id] && nextStreamToAccept == id + 4
      ensures Held(streams[id := Entry(id, false)], first, nextStreamToAccept, nextStreamToOpen)
      ensures !streams[id].shouldDelete ==> Valid()
    {
      nextStreamToAccept := nextStreamToAccept + 4;
      accepted := accepted + [id];
    }

    // The peer is told that it may open as many streams as there is room for, unless that is more
    // than a stream ID can express.
    ghost predicate Granted(max0: int, frames0: seq<int>)
      reads this
    {
      var limit := FullLimit(nextStreamToOpen, maxNumStreams, |streams|);
      if limit <= MAX_STREAM_ID then maxStream == limit && max0 < limit && frames == frames0 + [StreamNum(limit)]
      else maxStream == max0 && frames == frames0
    }

    // One stream less is held than before.
    ghost predicate Removed(streams0: Streams, max0: int, frames0: seq<int>, id: int)
      reads this
    {
      streams == streams0 - {id} && Granted(max0, frames0)
    }

    // Removes a stream and gives the peer the option to open another one.
    method Remove(id: int)
      requires CursorsOk() && LimitOk() && FramesOk() && id in streams && id < nextStreamToAccept
      requires Held(streams[id := Entry(id, false)], first, nextStreamToAccept, nextStreamToOpen)
      modifies `streams, `maxStream, `frames
      ensures Valid() && Removed(old(streams), old(maxStream), old(frames), id)
      ensures maxStream > old(maxStream) ==> |streams| + Openable(nextStreamToOpen, maxStream) == maxNumStreams
    {
      hide Held;
      SizeRemove(streams, id);
      HeldRemove(streams, id, first, nextStreamToAccept, nextStreamToOpen);
      streams := streams - {id};
      Grant();
    }

    // There is room for at least one more stream.
    method Grant()
      requires CursorsOk() && LimitOk() && FramesOk() && |streams| < maxNumStreams
      requires nextStreamToOpen <= maxStream ==> 4 * |streams| + maxStream + 8 - nextStreamToOpen <= 4 * maxNumStreams
      modifies `maxStream, `frames
      ensures CursorsOk() && LimitOk() && FramesOk() && Granted(old(maxStream), old(frames))
      ensures maxStream > old(maxStream) ==> |streams| + Openable(nextStreamToOpen, maxStream) == maxNumStreams
    {
      if maxNumStreams > |streams| {
        var limit := nextStreamToOpen + 4 * (maxNumStreams - |streams| - 1);
        if limit <= MAX_STREAM_ID {
          maxStream := limit;
          frames := frames + [StreamNum(maxStream)];
        }
      }
    }

    // A stream is complete. It is removed now if it was accepted, and when it is accepted otherwise.
    method DeleteStream(id: int) returns (r: Deletion)
      requires Valid()
      modifies `streams, `maxStream, `frames
      ensures Valid() && old(maxStream) <= maxStream
      ensures r.Unknown? <==> id !in old(streams)
      ensures r.Twice? <==> id in old(streams) && old(streams)[id].shouldDelete
      ensures r.Deleted? && id < nextStreamToAccept ==> Removed(old(streams), old(maxStream), old(frames), id)
      ensures r.Deleted? && id >= nextStreamToAccept ==> streams == old(streams)[id := Entry(id, true)]
      ensures !r.Deleted? ==> streams == old(streams)
      ensures !r.Deleted? || id >= nextStreamToAccept ==> maxStream == old(maxStream) && frames == old(frames)
    {
      if id !in streams {
        return Unknown;
      }
      if id >= nextStreamToAccept {
        if streams[id].shouldDelete {
          return Twice;
        }
        SizeReplace(streams, id, Entry(id, true));
        streams := streams[id := Entry(id, true)];
        return Deleted;
      }
      assert streams[id := Entry(id, false)] == streams;
      Remove(id);
      return Deleted;
    }

    method CloseWithError()
      requires Valid()
      modifies `closed
      ensures Valid() && closed
    {
      closed := true;
    }
  }

  datatype Op = FrameOp(id: nat) | AcceptOp | DeleteOp(id: nat) | CloseOp

  datatype Answer = Looked(lookup: Lookup) | Accepts(accepted: Accepted) | Deletes(deletion: Deletion) | Done

  // What a run is about.
  datatype View = View(streams: Streams, accepted: seq<int>, open: int, maxStream: int, frames: seq<int>, closed: bool)

  function ViewOf(m: IncomingStreams): View
    reads m
  {
    View(m.streams, m.accepted, m.nextStreamToOpen, m.maxStream, m.frames, m.closed)
  }

  // Stream id is held no more, and the peer may open another one.
  ghost predicate Frees(maxNum: nat, v: View, v': View, id: int) {
    && v'.streams == v.streams - {id}
    && var limit := FullLimit(v.open, maxNum, |v'.streams|);
       if limit <= MAX_STREAM_ID then v'.maxStream == limit && v'.frames == v.frames + [StreamNum(limit)]
       else v'.maxStream == v.maxStream && v'.frames == v.frames
  }

  ghost predicate Keeps(v: View, v': View) {
    v'.streams == v.streams && v'.maxStream == v.maxStream && v'.frames == v.frames
  }

  // A frame opens its stream and all before it, within the limit.
  ghost predicate FrameEffect(first: nat, v: View, v': View, id: nat, r: Lookup) {
    && v' == v.(streams := v'.streams, open := v'.open)
    && if id > v.maxStream then v' == v && r.LimitError?
       else
         && OpenedTo(v.streams, v'.streams, first, v.open, id) && v'.open == Max(v.open, id + 4)
         && r == if id in v'.streams && !v'.streams[id].shouldDelete then Found(id) else Gone
  }

  // The next stream, if it is open. One that was complete before goes away now.
  ghost predicate AcceptEffect(first: nat, maxNum: nat, v: View, v': View, r: Accepted) {
    var id := first + 4 * |v.accepted|;
    && v'.open == v.open && v'.closed == v.closed
    && if v.closed then v' == v && r.Closed?
       else if id >= v.open then v' == v && r.Wait?
       else
         && r == Stream(id) && v'.accepted == v.accepted + [id] && id in v.streams
         && if v.streams[id].shouldDelete then Frees(maxNum, v, v', id) else Keeps(v, v')
  }

  // A complete stream goes away, or is marked if it was not accepted yet.
  ghost predicate DeleteEffect(first: nat, maxNum: nat, v: View, v': View, id: nat, r: Deletion) {
    && v'.open == v.open && v'.closed == v.closed && v'.accepted == v.accepted
    && if id !in v.streams then v' == v && r.Unknown?
       else if id < first + 4 * |v.accepted| then r.Deleted? && Frees(maxNum, v, v', id)
       else if v.streams[id].shouldDelete then v' == v && r.Twice?
       else r.Deleted? && v' == v.(streams := v.streams[id := Entry(id, true)])
  }

  ghost predicate Stepped(first: nat, maxNum: nat, v: View, v': View, op: Op, r: Answer) {
    match op
    case FrameOp(id) => r.Looked? && FrameEffect(first, v, v', id, r.lookup)
    case AcceptOp => r.Accepts? && AcceptEffect(first, maxNum, v, v', r.accepted)
    case DeleteOp(id) => r.Deletes? && DeleteEffect(first, maxNum, v, v', id, r.deletion)
    case CloseOp => r.Done? && v' == v.(closed := true)
  }

  // The streams accepted are the first ones, each once and in order; the limits sent grow; and the
  // streams held with those the peer may still open never exceed what was configured.
  ghost predicate Proper(first: nat, maxNum: nat, v: View) {
    && (forall i :: 0 <= i < |v.accepted| ==> v.accepted[i] == first + 4 * i)
    && Increasing(v.frames) && |v.streams| + Openable(v.open, v.maxStream) <= maxNum
  }

  // Any run, step by step.
  method Run(first: nat, maxStreams: nat, ops: seq<Op>) returns (trace: seq<View>, answers: seq<Answer>)
    requires first < 4 && maxStreams <= MAX_STREAM_COUNT
    requires forall i :: 0 <= i < |ops| && ops[i].FrameOp? ==> ops[i].id % 4 == first
    ensures |trace| == |ops| + 1 && |answers| == |ops|
    ensures trace[0] == View(map[], [], first,
                             if maxStreams == 0 then INVALID_STREAM else first + 4 * (maxStreams - 1), [], false)
    ensures forall i :: 0 <= i < |ops| ==> Stepped(first, maxStreams, trace[i], trace[i + 1], ops[i], answers[i])
    ensures forall i :: 0 <= i < |trace| ==> Proper(first, maxStreams, trace[i])
  {
    hide IncomingStreams.Valid, Stepped, Proper, ViewOf;
    var m := new IncomingStreams(first, maxStreams);
    trace, answers := [ViewOf(m)], [];
    AlwaysProper(m);
    StartView(m);
    var i := 0;
    while i < |ops|
      invariant 0 <= i <= |ops| && fresh(m) && m.Valid() && m.first == first && m.maxNumStreams == maxStreams
      invariant |trace| == i + 1 && |answers| == i && trace[i] == ViewOf(m)
      invariant trace[0] == View(map[], [], first,
                                 if maxStreams == 0 then INVALID_STREAM else first + 4 * (maxStreams - 1), [], false)
      invariant forall k :: 0 <= k < i ==> Stepped(first, maxStreams, trace[k], trace[k + 1], ops[k], answers[k])
      invariant forall k :: 0 <= k < |trace| ==> Proper(first, maxStreams, trace[k])
      decreases |ops| - i
    {
      var r := Step(m, ops[i]);
      AlwaysProper(m);
      trace, answers := trace + [ViewOf(m)], answers + [r];
      i := i + 1;
    }
  }

  lemma StartView(m: IncomingStreams)
    requires m.streams == map[] && m.accepted == m.frames == [] && !m.closed
    ensures ViewOf(m) == View(map[], [], m.nextStreamToOpen, m.maxStream, [], false)
  {
  }

  lemma AlwaysProper(m: IncomingStreams)
    requires m.Valid()
    ensures Proper(m.first, m.maxNumStreams, ViewOf(m))
  {
    m.NeverTooMany();
    hide Held;
  }

  method Step(m: IncomingStreams, op: Op) returns (r: Answer)
    requires m.Valid() && (op.FrameOp? ==> op.id % 4 == m.first)
    modifies m
    ensures m.Valid() && Stepped(m.first, m.maxNumStreams, old(ViewOf(m)), ViewOf(m), op, r)
  {
    hide IncomingStreams.Valid, FrameEffect, AcceptEffect, DeleteEffect;
    match op {
      case FrameOp(id) =>
        var x := HandleFrame(m, id);
        r := Looked(x);
      case AcceptOp =>
        var x := Accept(m);
        r := Accepts(x);
      case DeleteOp(id) =>
        var x := Delete(m, id);
        r := Deletes(x);
      case CloseOp =>
        m.CloseWithError();
        r := Done;
    }
  }

  method HandleFrame(m: IncomingStreams, id: nat) returns (r: Lookup)
    requires m.Valid() && id % 4 == m.first
    modifies m`streams, m`nextStreamToOpen
    ensures m.Valid() && FrameEffect(m.first, old(ViewOf(m)), ViewOf(m), id, r)
  {
    hide IncomingStreams.Valid, OpenedTo;
    r := m.GetOrOpenStream(id);
  }

  method Accept(m: IncomingStreams) returns (r: Accepted)
    requires m.Valid()
    modifies m`streams, m`nextStreamToAccept, m`maxStream, m`frames, m`accepted
    ensures m.Valid() && AcceptEffect(m.first, m.maxNumStreams, old(ViewOf(m)), ViewOf(m), r)
  {
    hide IncomingStreams.Valid;
    Cursor(m);
    r := m.AcceptStream();
  }

  method Delete(m: IncomingStreams, id: nat) returns (r: Deletion)
    requires m.Valid()
    modifies m`streams, m`maxStream, m`frames
    ensures m.Valid() && DeleteEffect(m.first, m.maxNumStreams, old(ViewOf(m)), ViewOf(m), id, r)
  {
    hide IncomingStreams.Valid;
    Cursor(m);
    r := m.DeleteStream(id);
  }

  lemma Cursor(m: IncomingStreams)
    requires m.Valid()
    ensures m.nextStreamToAccept == m.first + 4 * |m.accepted| && m.nextStreamToAccept <= m.nextStreamToOpen
    ensures forall id :: id in m.streams && m.streams[id].shouldDelete ==> m.nextStreamToAccept <= id
  {
  }
}
