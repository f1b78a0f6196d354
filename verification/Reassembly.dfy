// Whole runs of the reassembly buffer: any sequence of pushes and pops.
module Reassembly {
  import opened Protocol
  import opened FrameSorter

  datatype Op = PushOp(data: seq<Byte>, offset: nat, doneCb: Option<Callback>) | PopOp

  // The caller never passes a frame that ends beyond the largest offset.
  ghost predicate Legal(op: Op) {
    op.PushOp? ==> op.offset + |op.data| <= MAX_BYTE_COUNT
  }

  ghost predicate Carries(op: Op, p: nat) {
    op.PushOp? && op.offset <= p < op.offset + |op.data|
  }

  // Byte p was in one of the frames pushed.
  ghost predicate Received(ops: seq<Op>, p: nat) {
    exists i :: 0 <= i < |ops| && Carries(ops[i], p)
  }

  // The frames pushed are slices of one stream.
  ghost predicate OneStream(ops: seq<Op>, S: nat -> Byte) {
    forall i :: 0 <= i < |ops| && ops[i].PushOp? ==> SliceOf(ops[i].data, ops[i].offset, S)
  }

  // The stream that starts with data.
  ghost function StreamOf(data: seq<Byte>): nat -> Byte {
    (p: nat) => if p < |data| then data[p] else 0
  }

  // The callbacks given to pushes.
  function Given(ops: seq<Op>): multiset<Callback> {
    if ops == [] then multiset{}
    else Given(ops[..|ops| - 1]) + if ops[|ops| - 1].PushOp? then CbOf(ops[|ops| - 1].doneCb) else multiset{}
  }

  lemma AgreesKept(q0: Queue, q: Queue, data: seq<Byte>, offset: nat, S: nat -> Byte)
    requires Provenance(q0, q, data, offset) && Agrees(q0, S) && SliceOf(data, offset, S)
    ensures Agrees(q, S)
  {
  }

  lemma ReceivedMore(ops: seq<Op>, i: nat, p: nat)
    requires i < |ops|
    ensures Received(ops[..i + 1], p) <==> Received(ops[..i], p) || Carries(ops[i], p)
  {
    var a, b := ops[..i], ops[..i + 1];
    if Received(a, p) {
      var j :| 0 <= j < |a| && Carries(a[j], p);
      assert b[j] == a[j];
    }
    if Carries(ops[i], p) { assert b[i] == ops[i]; }
  }

  // The missing bytes are the bytes no frame carried.
  ghost predicate Tracks(gs: set<Interval>, ops: seq<Op>) {
    forall p: nat :: p < MAX_BYTE_COUNT ==> (InGap(gs, p) <==> !Received(ops, p))
  }

  lemma TracksPush(gs0: set<Interval>, gs: set<Interval>, ops: seq<Op>, i: nat)
    requires i < |ops| && ops[i].PushOp? && Tracks(gs0, ops[..i])
    requires Shrunk(gs0, gs, ops[i].offset, ops[i].offset + |ops[i].data|)
    ensures Tracks(gs, ops[..i + 1])
  {
    forall p: nat | p < MAX_BYTE_COUNT
      ensures InGap(gs, p) <==> !Received(ops[..i + 1], p)
    {
      ReceivedMore(ops, i, p);
    }
  }

  lemma TracksPop(gs: set<Interval>, ops: seq<Op>, i: nat)
    requires i < |ops| && ops[i].PopOp? && Tracks(gs, ops[..i])
    ensures Tracks(gs, ops[..i + 1])
  {
    forall p: nat | p < MAX_BYTE_COUNT
      ensures InGap(gs, p) <==> !Received(ops[..i + 1], p)
    {
      ReceivedMore(ops, i, p);
    }
  }

  // ------------------------------------------------------------- gap count

  ghost function Starts(gs: set<Interval>): set<nat> {
    set g | g in gs :: g.start
  }

  lemma {:induction false} OneGapPerStart(gs: set<Interval>)
    requires GapsOk(gs)
    ensures |Starts(gs)| == |gs|
    decreases |gs|
  {
    if gs != {} {
      var g :| g in gs;
      OneGapPerStart(gs - {g});
      assert Starts(gs) == Starts(gs - {g}) + {g.start};
    }
  }

  ghost function Below(n: nat): (s: set<nat>)
    ensures |s| == n && forall i: nat :: i in s <==> i < n
  {
    if n == 0 then {} else Below(n - 1) + {n - 1}
  }

  lemma {:induction false} SubsetSize(a: set<nat>, b: set<nat>)
    requires a <= b
    ensures |a| <= |b|
  {
    if a != {} {
      var x :| x in a;
      SubsetSize(a - {x}, b - {x});
    }
  }

  // When nothing at or beyond n was received, there are at most n + 1 gaps.
  lemma FewGaps(gs: set<Interval>, n: nat)
    requires GapsOk(gs)
    requires forall p: nat :: n <= p < MAX_BYTE_COUNT ==> InGap(gs, p)
    ensures |gs| <= n + 1
  {
    OneGapPerStart(gs);
    forall g | g in gs
      ensures g.start <= n
    {
      if g.start > 0 { assert !InGap(gs, g.start - 1); }
    }
    SubsetSize(Starts(gs), Below(n + 1));
  }

  // ------------------------------------------------------------------ runs

  datatype Outcome = Outcome(
    out: seq<Byte>,         // the bytes popped, in order
    handed: seq<Callback>)  // the callbacks handed out with them

  // What holds of a sorter and the bytes popped from it after the operations ops.
  ghost predicate Reached(s: Sorter, r: Outcome, ops: seq<Op>, S: nat -> Byte)
    reads s
  {
    && s.Valid()
    && |r.out| == s.readPos
    && Tracks(s.gapTree, ops)
    && (OneStream(ops, S) ==> Agrees(s.queue, S) && SliceOf(r.out, 0, S))
    && s.Ledger() + multiset(r.handed) == Given(ops)
  }

  method PopOnce(s: Sorter, r: Outcome, ghost ops: seq<Op>, ghost S: nat -> Byte) returns (r': Outcome, more: bool)
    requires Reached(s, r, ops, S)
    modifies s
    ensures Reached(s, r', ops, S) && s.gapTree == old(s.gapTree) && s.called == old(s.called)
    ensures more ==> |r.out| < |r'.out|
    ensures !more ==> |r'.out| == MAX_BYTE_COUNT || !Received(ops, |r'.out|)
  {
    hide HasByte, InQueue, Tracks, Agrees, SliceOf, WellFormed, Given, Held;
    ghost var q0, ledger := s.queue, s.Ledger();
    var offset, data, cb := s.Pop();
    r' := Outcome(r.out + data, r.handed + if cb.Some? then [cb.value] else []);
    more := data != [];
    if OneStream(ops, S) { PoppedAgrees(q0, s.queue, r.out, data, S); }
    Recount(s.Ledger(), multiset(r.handed), multiset(r'.handed), CbOf(cb), ledger);
    if !more { NextIsMissing(s.queue, s.readPos, s.gapTree, q0, ops); }
  }

  // Nothing comes back only when the next byte was never received.
  lemma NextIsMissing(q: Queue, readPos: nat, gs: set<Interval>, q0: Queue, ops: seq<Op>)
    requires WellFormed(q, readPos, gs) && Tracks(gs, ops) && !InQueue(q0, readPos)
    requires forall p: nat, b: Byte :: HasByte(q, p, b) ==> HasByte(q0, p, b)
    ensures readPos == MAX_BYTE_COUNT || !Received(ops, readPos)
  {
    assert !InQueue(q, readPos) by {
      if InQueue(q, readPos) {
        var k :| Holds(q, k, readPos);
        assert HasByte(q, readPos, q[k].data[readPos - k]);
      }
    }
    assert readPos < MAX_BYTE_COUNT ==> InGap(gs, readPos);
  }

  lemma PoppedAgrees(q0: Queue, q: Queue, out: seq<Byte>, data: seq<Byte>, S: nat -> Byte)
    requires Agrees(q0, S) && SliceOf(out, 0, S)
    requires forall i :: 0 <= i < |data| ==> HasByte(q0, |out| + i, data[i])
    requires forall p: nat, b: Byte :: HasByte(q, p, b) ==> HasByte(q0, p, b)
    ensures Agrees(q, S) && SliceOf(out + data, 0, S)
  {
  }

  lemma Recount(ledger: multiset<Callback>, handed: multiset<Callback>, handed': multiset<Callback>,
                cb: multiset<Callback>, before: multiset<Callback>)
    requires ledger + cb == before && handed' == handed + cb
    ensures ledger + handed' == before + handed
  {
  }

  method Step(s: Sorter, ops: seq<Op>, i: nat, r: Outcome, ghost S: nat -> Byte) returns (r': Outcome, ok: bool)
    requires i < |ops| && Legal(ops[i]) && Reached(s, r, ops[..i], S)
    modifies s
    ensures ok ==> Reached(s, r', ops[..i + 1], S)
    ensures !ok ==> GapsOk(s.gapTree) && Tracks(s.gapTree, ops[..i + 1]) && |s.gapTree| > MAX_STREAM_FRAME_SORTER_GAPS
  {
    ghost var a, b := ops[..i], ops[..i + 1];
    assert b[..|b| - 1] == a && b[|b| - 1] == ops[i];
    assert OneStream(b, S) ==> OneStream(a, S) by {
      assert forall j :: 0 <= j < |a| ==> a[j] == b[j];
    }
    if ops[i].PopOp? {
      var more;
      r', more := PopOnce(s, r, a, S);
      ok := true;
      TracksPop(s.gapTree, ops, i);
      return;
    }
    ghost var q0, gs0 := s.queue, s.gapTree;
    ok := s.Push(ops[i].data, ops[i].offset, ops[i].doneCb);
    r' := r;
    TracksPush(gs0, s.gapTree, ops, i);
    if ok && OneStream(b, S) {
      AgreesKept(q0, s.queue, ops[i].data, ops[i].offset, S);
    }
  }

  lemma FailureNeedsFarByte(gs: set<Interval>, ops: seq<Op>, i: nat)
    requires i < |ops| && GapsOk(gs) && Tracks(gs, ops[..i + 1]) && |gs| > MAX_STREAM_FRAME_SORTER_GAPS
    ensures exists p: nat :: MAX_STREAM_FRAME_SORTER_GAPS - 1 <= p && Received(ops, p)
  {
    if forall p: nat :: MAX_STREAM_FRAME_SORTER_GAPS - 1 <= p < MAX_BYTE_COUNT ==> InGap(gs, p) {
      FewGaps(gs, MAX_STREAM_FRAME_SORTER_GAPS - 1);
    } else {
      var p: nat :| MAX_STREAM_FRAME_SORTER_GAPS - 1 <= p < MAX_BYTE_COUNT && !InGap(gs, p);
      var j :| 0 <= j < |ops[..i + 1]| && Carries(ops[..i + 1][j], p);
      assert Carries(ops[j], p);
      assert Received(ops, p);
    }
  }

  // Once every byte received was popped, no entry is left to hold a callback.
  lemma NothingHeld(q: Queue, readPos: nat, gs: set<Interval>, ops: seq<Op>)
    requires WellFormed(q, readPos, gs) && Tracks(gs, ops)
    requires forall p: nat :: Received(ops, p) ==> p < readPos
    ensures Held(q) == multiset{}
  {
    if |q| > 0 {
      var k := AnyKey(q);
      EntryNotMissing(q, readPos, gs, k);
      UnreadIsMissing(gs, readPos, ops, k);
    }
  }

  lemma UnreadIsMissing(gs: set<Interval>, readPos: nat, ops: seq<Op>, p: nat)
    requires Tracks(gs, ops) && readPos <= p < MAX_BYTE_COUNT
    requires forall p: nat :: Received(ops, p) ==> p < readPos
    ensures InGap(gs, p)
  {
  }

  // Runs any sequence of pushes and pops, and then pops until nothing comes back.
  // What was popped is the longest prefix received in full: every byte below |out| was in
  // some frame and the one at |out| was in none. If the frames are slices of one stream, it
  // is a prefix of that stream. No callback is invoked or handed out more often than it was
  // given, and none is forgotten once every byte received has been popped.
  // A run can only fail, for too many gaps, if some frame reached far into the stream.
  method Run(ops: seq<Op>, ghost S: nat -> Byte)
    returns (failed: bool, out: seq<Byte>, handed: seq<Callback>, called: seq<Callback>)
    requires forall i :: 0 <= i < |ops| ==> Legal(ops[i])
    ensures !failed ==> forall p: nat :: p < |out| ==> Received(ops, p)
    ensures !failed ==> |out| == MAX_BYTE_COUNT || !Received(ops, |out|)
    ensures !failed && OneStream(ops, S) ==> SliceOf(out, 0, S)
    ensures !failed ==> multiset(called) + multiset(handed) <= Given(ops)
    ensures !failed && (forall p: nat :: Received(ops, p) ==> p < |out|) ==>
      multiset(called) + multiset(handed) == Given(ops)
    ensures failed ==> exists p: nat :: MAX_STREAM_FRAME_SORTER_GAPS - 1 <= p && Received(ops, p)
  {
    hide QueueOk, GapsOk, Partition, Tracks, Agrees, SliceOf, Held;
    var s := new Sorter();
    NothingYet(s.gapTree, S);
    var r := Outcome([], []);
    failed := false;
    var i := 0;
    assert ops[..0] == [];
    while i < |ops|
      invariant 0 <= i <= |ops| && fresh(s)
      invariant Reached(s, r, ops[..i], S)
      decreases |ops| - i
    {
      var next, ok := Step(s, ops, i, r, S);
      if !ok {
        FailureNeedsFarByte(s.gapTree, ops, i);
        return true, r.out, r.handed, s.called;
      }
      r := next;
      i := i + 1;
    }
    assert ops[..|ops|] == ops;
    var more := true;
    while more
      invariant fresh(s) && Reached(s, r, ops, S)
      invariant !more ==> |r.out| == MAX_BYTE_COUNT || !Received(ops, |r.out|)
      decreases more, MAX_BYTE_COUNT - |r.out|
    {
      r, more := PopOnce(s, r, ops, S);
    }
    out, handed, called := r.out, r.handed, s.called;
    PoppedWasReceived(s.queue, s.readPos, s.gapTree, ops);
    if forall p: nat :: Received(ops, p) ==> p < |out| {
      NothingHeld(s.queue, s.readPos, s.gapTree, ops);
    }
  }

  lemma NothingYet(gs: set<Interval>, S: nat -> Byte)
    requires forall p: nat :: p < MAX_BYTE_COUNT ==> InGap(gs, p)
    ensures Tracks(gs, []) && Agrees(map[], S) && SliceOf([], 0, S) && Held(map[]) == multiset{}
  {
  }

  lemma PoppedWasReceived(q: Queue, readPos: nat, gs: set<Interval>, ops: seq<Op>)
    requires WellFormed(q, readPos, gs) && Tracks(gs, ops)
    ensures forall p: nat :: p < readPos ==> Received(ops, p)
  {
  }

  // ------------------------------------------------------------- delivery

  ghost predicate Pushes(op: Op, p: Piece) {
    op == PushOp(p.data, p.offset, None)
  }

  // Every piece that arrives is one of those sent.
  ghost predicate OnlySent(ops: seq<Op>, sent: seq<Piece>) {
    forall i :: 0 <= i < |ops| && ops[i].PushOp? ==> exists k :: 0 <= k < |sent| && Pushes(ops[i], sent[k])
  }

  // Every one of the pieces arrives at least once.
  ghost predicate AllArrive(ops: seq<Op>, pieces: seq<Piece>) {
    forall k :: 0 <= k < |pieces| ==> exists i :: 0 <= i < |ops| && Pushes(ops[i], pieces[k])
  }

  ghost predicate SlicesOf(pieces: seq<Piece>, data: seq<Byte>) {
    forall i :: 0 <= i < |pieces| ==> pieces[i].SliceIn(data)
  }

  ghost predicate Present(pieces: seq<Piece>, p: nat) {
    exists k :: 0 <= k < |pieces| && pieces[k].Covers(p)
  }

  // Every byte below n is in one of the pieces.
  ghost predicate CoverAll(pieces: seq<Piece>, n: nat) {
    forall p: nat :: p < n ==> Present(pieces, p)
  }

  lemma SentIsOneStream(ops: seq<Op>, sent: seq<Piece>, data: seq<Byte>)
    requires OnlySent(ops, sent) && SlicesOf(sent, data) && |data| <= MAX_BYTE_COUNT
    ensures OneStream(ops, StreamOf(data))
    ensures forall i :: 0 <= i < |ops| ==> Legal(ops[i])
    ensures forall p: nat :: Received(ops, p) ==> p < |data|
  {
    forall i | 0 <= i < |ops| && ops[i].PushOp?
      ensures SliceOf(ops[i].data, ops[i].offset, StreamOf(data)) && ops[i].offset + |ops[i].data| <= |data|
    {
      var k :| 0 <= k < |sent| && Pushes(ops[i], sent[k]);
      assert sent[k].SliceIn(data);
    }
  }

  lemma NeededIsReceived(ops: seq<Op>, needed: seq<Piece>, n: nat, p: nat)
    requires AllArrive(ops, needed) && CoverAll(needed, n) && p < n
    ensures Received(ops, p)
  {
    assert Present(needed, p);
    var k :| 0 <= k < |needed| && needed[k].Covers(p);
    var i :| 0 <= i < |ops| && Pushes(ops[i], needed[k]);
    assert Carries(ops[i], p);
  }

  // Pieces of data, arriving in any order and any number of times, with reads in between: what is
  // read is a prefix of the data, and all of it once pieces that cover it have arrived. Only data
  // of 20000 bytes or more can fail, for too many gaps.
  method Deliver(ghost sent: seq<Piece>, ghost needed: seq<Piece>, ops: seq<Op>, ghost data: seq<Byte>)
    returns (failed: bool, out: seq<Byte>)
    requires SlicesOf(sent, data) && OnlySent(ops, sent) && |data| <= MAX_BYTE_COUNT
    ensures !failed ==> out <= data
    ensures !failed && CoverAll(needed, |data|) && AllArrive(ops, needed) ==> out == data
    ensures failed ==> |data| >= MAX_STREAM_FRAME_SORTER_GAPS
  {
    SentIsOneStream(ops, sent, data);
    var handed, called;
    failed, out, handed, called := Run(ops, StreamOf(data));
    if CoverAll(needed, |data|) && AllArrive(ops, needed) && |out| < |data| {
      NeededIsReceived(ops, needed, |data|, |out|);
    }
    assert !Received(ops, |data|);
  }
}
