// The handshake data end to end: whatever way it is cut up for sending, a receiver that
// gets the frames, in any order and any number of times, reads the data that was written.
module Handshake {
  import opened Protocol
  import opened Wire
  import opened CryptoSending
  import opened Chaos
  import R = Reassembly
  import F = FrameSorter

  const MAX_CRYPTO_STREAM_OFFSET: nat := 16384

  // --------------------------------------------------------------- sending

  // A frame is asked for, from the front or the end of what is queued, or more data is written.
  datatype Request = Front(maxLen: nat) | Tail(dataLen: int) | More(p: seq<Byte>)

  // What is written after the ClientHello.
  function Queued(requests: seq<Request>): seq<Byte> {
    if requests == [] then []
    else
      var n := |requests| - 1;
      Queued(requests[..n]) + if requests[n].More? then requests[n].p else []
  }

  // Nothing is taken from the end while there are cuts to be made, and nothing is written after
  // bytes were taken from the end.
  predicate Legal(scramble: bool, requests: seq<Request>) {
    && (forall i :: 0 <= i < |requests| && requests[i].Tail? ==> !scramble)
    && (forall i :: 0 <= i < |requests| && requests[i].More? && scramble ==> requests[i].p != [])
    && (forall i, j :: 0 <= i < j < |requests| && requests[i].Tail? ==> !requests[j].More?)
  }

  // The cuts are such that there is something to send at all.
  predicate Starts(scramble: bool, parse: Parse, end: nat) {
    scramble && parse.Parsed? && Found(parse) ==> CutsFor(parse, end)[0].start != INVALID
  }

  // Every byte of the ClientHello will be sent exactly once, and sending it comes to an end.
  predicate Sendable(scramble: bool, parse: Parse, end: nat) {
    && Starts(scramble, parse, end)
    && (scramble && parse.Parsed? && Found(parse) ==> UsableCuts(CutsFor(parse, end)))
  }

  // What holds of the stream once the ClientHello is written.
  ghost predicate Written(s: CryptoStream, scramble: bool, parse: Parse, hello: seq<Byte>)
    reads s
  {
    && s.Valid() && |s.cuts| == 2 && s.written == s.writeBuf == hello && (!scramble ==> !s.scramble)
    && (|hello| > 0 ==> (s.Ready() <==> Starts(scramble, parse, |hello|)))
    && (|hello| > 0 && !s.Ready() ==> !s.HasData())
    && (|hello| > 0 ==> (s.Ready() && s.Flows() && s.OnceEach() <==> Sendable(scramble, parse, |hello|)))
    && (scramble && parse.Parsed? && Found(parse) ==> (s.Flows() <==> NoEmptyCut(CutsFor(parse, |hello|))))
  }

  // Writes the ClientHello piece by piece; it can only be parsed once it is complete.
  method WritePieces(s: CryptoStream, pieces: seq<seq<Byte>>, parse: Parse)
    requires s.Valid() && |s.cuts| == 2 && s.written == [] && s.popped == [] && !s.tailTaken && s.due == []
    requires s.writeOffset == 0 && s.cuts[0].start == INVALID
    requires s.scramble ==> pieces != [] && parse.Parsed? && InHello(parse, |Flatten(pieces)|)
    modifies s
    ensures Written(s, old(s.scramble), parse, Flatten(pieces)) && s.popped == [] && !s.tailTaken
  {
    hide UsableCuts, CutsFor, InHello, Planned;
    var i := 0;
    while i + 1 < |pieces|
      invariant 0 <= i <= |pieces| && (i == |pieces| ==> i == 0)
      invariant s.Valid() && |s.cuts| == 2 && s.written == Flatten(pieces[..i]) && s.popped == [] && !s.tailTaken
      invariant s.scramble == old(s.scramble) && s.writeOffset == 0 && s.cuts[0].start == INVALID && s.OnceEach()
        && s.writeBuf == s.written
      decreases |pieces| - i
    {
      assert pieces[..i + 1][..i] == pieces[..i];
      var ok := s.Write(pieces[i], Incomplete);
      i := i + 1;
    }
    if i < |pieces| {
      assert pieces[..i + 1] == pieces && pieces[..i + 1][..i] == pieces[..i];
      WriteLast(s, pieces[i], parse);
    }
    assert |pieces| == 0 ==> pieces[..i] == pieces;
  }

  method WriteLast(s: CryptoStream, p: seq<Byte>, parse: Parse)
    requires s.Valid() && |s.cuts| == 2 && !s.tailTaken && s.popped == []
    requires s.writeOffset == 0 && s.cuts[0].start == INVALID && s.OnceEach() && s.writeBuf == s.written
    requires s.scramble ==> parse.Parsed? && InHello(parse, |s.written| + |p|)
    modifies s
    ensures Written(s, old(s.scramble), parse, old(s.written) + p) && s.popped == [] && !s.tailTaken
  {
    hide CutsFor, InHello, Planned, Carry;
    var ok := s.Write(p, if s.scramble then parse else Incomplete);
  }

  // One frame, from the front or the end of what is queued, if there is anything to send.
  method PopOne(s: CryptoStream, q: Request) returns (frames: Frames)
    requires s.Valid() && |s.cuts| == 2 && !q.More? && (q.Tail? ==> !s.scramble)
    modifies s`writeOffset, s`writeBuf, s`scramble, s`end, s`cuts, s`popped, s`tailTaken
    ensures s.Valid() && |s.cuts| == 2 && s.popped == old(s.popped) + frames && s.Flows() == old(s.Flows())
    ensures old(s.Ready()) ==> s.Ready()
    ensures !old(s.HasData()) ==> frames == [] && unchanged(s)
    ensures !old(s.scramble) ==> !s.scramble
    ensures NoneEmpty(frames) && (q.Front? ==> s.tailTaken == old(s.tailTaken))
  {
    hide Planned, Carry;
    if !s.HasData() {
      return [];
    }
    var r;
    if q.Tail? {
      r := s.PopTail(q.dataLen);
    } else {
      r := s.Pop(q.maxLen);
    }
    frames := if r.Some? then [r.value] else [];
  }

  // More data. The queue no longer parses as a ClientHello once there is something after it.
  method WriteMore(s: CryptoStream, p: seq<Byte>)
    requires s.Valid() && |s.cuts| == 2 && !s.tailTaken
    modifies s`writeBuf, s`written, s`scramble, s`end, s`cuts, s`due
    ensures s.Valid() && |s.cuts| == 2 && s.written == old(s.written) + p && s.writeBuf == old(s.writeBuf) + p
    ensures s.scramble == old(s.scramble) && s.cuts == old(s.cuts) && s.end == old(s.end)
    ensures s.OnceEach() <==> old(s.OnceEach())
  {
    hide Planned, Carry, Count, CryptoStream.Valid, UsableCuts;
    var ok := s.Write(p, Incomplete);
    MoreOnce(old(s.due), |p|);
  }

  lemma MoreOnce(due: seq<nat>, n: nat)
    ensures (forall p: nat :: p < |due| ==> due[p] == 1) <==>
      (forall p: nat :: p < |due + Ones(n)| ==> (due + Ones(n))[p] == 1)
  {
    if forall p: nat :: p < |due + Ones(n)| ==> (due + Ones(n))[p] == 1 {
      assert forall p: nat :: p < |due| ==> due[p] == (due + Ones(n))[p];
    }
  }

  // Sends frames of at most maxLen until there seems to be nothing left, or nothing comes any
  // more. The stream is stuck if bytes are left then.
  method Drain(s: CryptoStream, maxLen: nat) returns (frames: Frames, stuck: bool)
    requires s.Valid() && |s.cuts| == 2 && 11 <= maxLen
    modifies s`writeOffset, s`writeBuf, s`scramble, s`end, s`cuts, s`popped
    ensures s.popped == old(s.popped) + frames && NoneEmpty(frames)
    ensures !old(s.HasData()) ==> frames == [] && (stuck <==> |old(s.writeBuf)| > 0)
    ensures old(s.Ready()) ==> (stuck <==> !old(s.Flows()))
    ensures old(s.Ready()) && !stuck ==>
      (ExactCover(s.popped, s.written) <==> s.OnceEach()) && AllSent(s.popped, s.written)
  {
    hide Planned, Carry;
    frames := [];
    var more := true;
    while s.HasData() && more
      invariant s.Valid() && |s.cuts| == 2 && s.popped == old(s.popped) + frames && s.Flows() == old(s.Flows())
      invariant (old(s.Ready()) ==> s.Ready()) && NoneEmpty(frames)
      invariant !old(s.HasData()) ==> frames == [] && s.writeBuf == old(s.writeBuf) && !s.HasData()
      invariant !more ==> !s.Flows() && s.HasData()
      decreases more, s.Remaining()
    {
      var r := s.Pop(maxLen);
      if r.None? {
        more := false;
      } else {
        frames := frames + [r.value];
      }
    }
    stuck := |s.writeBuf| > 0;
    if s.Ready() && more {
      Finished(s);
      s.NothingPending();
    }
  }

  // Every byte is in some frame, at its offset.
  ghost predicate AllSent(fs: Frames, data: seq<Byte>) {
    Carry(fs, data) && forall p: nat :: p < |data| ==> Count(fs, p) >= 1
  }

  // Nothing left means that the ClientHello is through.
  lemma Finished(s: CryptoStream)
    requires s.Valid() && s.Ready() && |s.cuts| == 2 && !s.HasData()
    ensures s.Flows() && s.writeBuf == []
  {
  }

  // A ClientHello written in any pieces and sent in frames of any sizes, with or without cuts,
  // from the front or from both ends, while more is written: every byte is sent exactly once, at
  // its offset, and there is an end to it, if and only if there are no cuts, or there is a first
  // one and they are usable. Without a first one nothing is ever sent; otherwise no byte is left
  // out, unless a cut is empty.
  method Transmit(scramble: bool, pieces: seq<seq<Byte>>, parse: Parse, requests: seq<Request>, maxLen: nat)
    returns (frames: Frames, stuck: bool)
    requires scramble ==> pieces != [] && parse.Parsed? && InHello(parse, |Flatten(pieces)|)
    requires Legal(scramble, requests) && 11 <= maxLen && Flatten(pieces) != []
    ensures !stuck && ExactCover(frames, Flatten(pieces) + Queued(requests)) <==>
      Sendable(scramble, parse, |Flatten(pieces)|)
    ensures NoneEmpty(frames) && (!stuck ==> AllSent(frames, Flatten(pieces) + Queued(requests)))
    ensures !Starts(scramble, parse, |Flatten(pieces)|) ==> stuck && frames == []
    ensures Starts(scramble, parse, |Flatten(pieces)|) && scramble && Found(parse) ==>
      (stuck <==> !NoEmptyCut(CutsFor(parse, |Flatten(pieces)|)))
  {
    hide Sendable, Starts, Planned, Carry, CryptoStream.Valid, UsableCuts, AllSent, NoneEmpty, Legal;
    NothingEmpty();
    var s := new CryptoStream(scramble);
    WritePieces(s, pieces, parse);
    frames := [];
    ghost var ready, flows, hello := s.Ready(), s.Flows(), Flatten(pieces);
    var i := 0;
    while i < |requests|
      invariant 0 <= i <= |requests| && fresh(s)
      invariant s.Valid() && |s.cuts| == 2 && s.written == hello + Queued(requests[..i]) && (ready ==> s.Ready())
      invariant !ready ==> frames == [] && !s.HasData() && s.writeBuf == s.written
      invariant s.Flows() == flows && (ready && flows && s.OnceEach() <==> Sendable(scramble, parse, |hello|))
      invariant frames == s.popped && NoneEmpty(frames) && (!scramble ==> !s.scramble)
      invariant s.tailTaken ==> exists k :: 0 <= k < i && requests[k].Tail?
      decreases |requests| - i
    {
      LegalAt(scramble, requests, i);
      assert requests[..i + 1][..i] == requests[..i];
      if requests[i].More? {
        WriteMore(s, requests[i].p);
      } else {
        var more := PopOne(s, requests[i]);
        PartsNoneEmpty(frames, more);
        frames := frames + more;
      }
      i := i + 1;
    }
    assert requests[..i] == requests;
    var rest;
    rest, stuck := Drain(s, maxLen);
    PartsNoneEmpty(frames, rest);
    frames := frames + rest;
  }

  lemma LegalAt(scramble: bool, requests: seq<Request>, i: nat)
    requires Legal(scramble, requests) && i < |requests|
    ensures requests[i].Tail? ==> !scramble
    ensures requests[i].More? ==> forall k :: 0 <= k < i ==> !requests[k].Tail?
  {
  }

  // ------------------------------------------------------- head and tail

  // The head and the tail of the ClientHello, for the first packet. The head has exactly the
  // length chosen for it.
  method SplitFirst(s: CryptoStream, available: nat, random: nat) returns (head: CryptoFrame, tail: CryptoFrame)
    requires s.Valid() && |s.cuts| == 2 && !s.scramble && s.writeOffset == 0 && !s.tailTaken && s.popped == []
    requires random < FIRST_FRAME_LEN_RANDOM && ChromeCryptoSplit(|s.written|, 0, available, random).0 > 0
    modifies s`writeBuf, s`writeOffset, s`popped, s`tailTaken
    ensures s.Valid() && s.popped == [tail, head]
    ensures (|head.data|, |tail.data|) == ChromeCryptoSplit(|s.written|, 0, available, random)
    ensures head.offset == 0 && tail.End() == |s.written|
    ensures head.Length() + tail.Length() <= available
    ensures s.writeOffset == |head.data| && |s.writeBuf| == |s.written| - |head.data| - |tail.data|
  {
    var (first, last) := ChromeCryptoSplit(|s.writeBuf|, s.writeOffset, available, random);
    SplitFits(|s.writeBuf|, 0, available, random, first, last);
    FirstLen(|s.writeBuf|, available, random);
    hide ChromeCryptoSplit;
    var t := s.PopTail(last);
    tail := t.value;
    var h := s.PopInOrder(first + CryptoHeaderLen(s.writeOffset, first));
    head := h.value;
  }

  // The leading frame, if any, is short enough for a length field of one or two bytes.
  lemma FirstLen(pending: nat, available: nat, random: nat)
    requires random < FIRST_FRAME_LEN_RANDOM && ChromeCryptoSplit(pending, 0, available, random).0 > 0
    ensures ChromeCryptoSplit(pending, 0, available, random).0 == MIN_FIRST_FRAME_LEN + random
  {
  }

  lemma OneLotLess(left: nat, lots: int, room: nat, taken: nat)
    requires 0 < left <= lots * room && Min(left, room) <= taken <= left
    ensures 1 <= lots && left - taken <= (lots - 1) * room
  {
    assert lots <= 0 ==> lots * room <= 0;
    assert (lots - 1) * room == lots * room - room;
    assert 1 <= lots ==> 0 <= (lots - 1) * room;
  }

  // A later packet: one frame, with as much data as fits.
  method NextPacket(s: CryptoStream, available: nat) returns (f: CryptoFrame)
    requires s.Valid() && !s.scramble && s.writeBuf != []
    requires HeaderRoom(|s.written|, 0) < available <= MAX_FRAME_SIZE
    modifies s`writeBuf, s`writeOffset, s`popped
    ensures s.Valid() && s.popped == old(s.popped) + [f]
    ensures Min(old(|s.writeBuf|), available - HeaderRoom(|s.written|, 0)) <= |f.data| <= old(|s.writeBuf|)
    ensures |s.writeBuf| == old(|s.writeBuf|) - |f.data| && 0 < |f.data| && f.Length() <= available
  {
    LaterFrameRoom(|s.written|, 0, available, s.writeOffset);
    var r := s.PopInOrder(available);
    f := r.value;
  }

  // Sends what is left, one frame per packet, in at most as many packets as there is room for it.
  method LaterPackets(s: CryptoStream, available: nat, ghost lots: nat) returns (later: Frames)
    requires s.Valid() && |s.cuts| == 2 && !s.scramble && 0 < |s.written|
    requires HeaderRoom(|s.written|, 0) < available <= MAX_FRAME_SIZE
    requires |s.writeBuf| <= lots * (available - HeaderRoom(|s.written|, 0))
    modifies s`writeBuf, s`writeOffset, s`popped
    ensures s.Valid() && !s.HasData() && s.popped == old(s.popped) + later && |later| <= lots
    ensures forall i :: 0 <= i < |later| ==> later[i].Length() <= available
    ensures NoneEmpty(later)
  {
    later := [];
    ghost var room := available - HeaderRoom(|s.written|, 0);
    hide HeaderRoom, CryptoStream.Valid;
    while s.HasData()
      invariant s.Valid() && s.popped == old(s.popped) + later
      invariant forall i :: 0 <= i < |later| ==> later[i].Length() <= available
      invariant NoneEmpty(later)
      invariant |s.writeBuf| <= (lots - |later|) * room && |later| <= lots
      decreases |s.writeBuf|
    {
      var f := NextPacket(s, available);
      OneLotLess(|s.writeBuf| + |f.data|, lots - |later|, room, |f.data|);
      later := later + [f];
    }
  }

  // The flight of Initial packets for a ClientHello that is split: the first packet with its
  // head and tail, then packets with one frame each. All of it is sent exactly once, every
  // packet fits, and no more packets are needed than the split counted on.
  method Flight(hello: seq<Byte>, available: nat, random: nat)
    returns (head: CryptoFrame, tail: CryptoFrame, later: Frames)
    requires available <= MAX_FRAME_SIZE && random < FIRST_FRAME_LEN_RANDOM
    requires ChromeCryptoSplit(|hello|, 0, available, random).0 > 0
    ensures ExactCover([head, tail] + later, hello) && NoneEmpty([head, tail] + later)
    ensures head.Length() + tail.Length() <= available
    ensures forall i :: 0 <= i < |later| ==> later[i].Length() <= available
    ensures 0 < |hello| && 2 * HeaderRoom(|hello|, 0) <= available && |later| <= NumPackets(|hello|, 0, available) - 1
  {
    ghost var (first, last) := ChromeCryptoSplit(|hello|, 0, available, random);
    SplitFits(|hello|, 0, available, random, first, last);
    var s := Queue(hello);
    hide CryptoStream.Valid, ChromeCryptoSplit;
    head, tail := SplitFirst(s, available, random);
    later := LaterPackets(s, available, NumPackets(|hello|, 0, available) - 1);
    s.NothingPending();
    Swapped(tail, head, later, hello);
  }

  // The order of the frames does not matter.
  lemma {:induction false} Swapped(f: CryptoFrame, g: CryptoFrame, fs: Frames, data: seq<Byte>)
    requires ExactCover([f, g] + fs, data)
    ensures ExactCover([g, f] + fs, data)
  {
    forall p: nat
      ensures Count([f, g] + fs, p) == Count([g, f] + fs, p)
    {
      SwappedCount(f, g, fs, p);
    }
    forall i | 0 <= i < |[g, f] + fs|
      ensures CarriesSlice(([g, f] + fs)[i], data)
    {
      assert CarriesSlice(([f, g] + fs)[if i < 2 then 1 - i else i], data);
    }
  }

  lemma {:induction false} SwappedCount(f: CryptoFrame, g: CryptoFrame, fs: Frames, p: nat)
    ensures Count([f, g] + fs, p) == Count([g, f] + fs, p)
  {
    if fs == [] {
      assert [f, g] + fs == [f] + [g] && [g, f] + fs == [g] + [f];
      CountAppend([f], g, p);
      CountAppend([g], f, p);
    } else {
      var n := |fs| - 1;
      SwappedCount(f, g, fs[..n], p);
      assert [f, g] + fs == [f, g] + fs[..n] + [fs[n]] && [g, f] + fs == [g, f] + fs[..n] + [fs[n]];
      CountAppend([f, g] + fs[..n], fs[n], p);
      CountAppend([g, f] + fs[..n], fs[n], p);
    }
  }

  method Queue(hello: seq<Byte>) returns (s: CryptoStream)
    ensures fresh(s) && s.Valid() && |s.cuts| == 2 && !s.scramble && s.writeOffset == 0 && !s.tailTaken
      && s.popped == []
    ensures s.written == s.writeBuf == hello && s.OnceEach()
  {
    hide Planned, Carry;
    s := new CryptoStream(false);
    var ok := s.Write(hello, Malformed);
  }

  // ------------------------------------------------------------- receiving

  function Pieces(fs: Frames): (ps: seq<Piece>)
    ensures |ps| == |fs| && forall i :: 0 <= i < |fs| ==> ps[i] == Piece(fs[i].offset, fs[i].data)
  {
    seq(|fs|, i requires 0 <= i < |fs| => Piece(fs[i].offset, fs[i].data))
  }

  lemma {:induction false} Covered(fs: Frames, p: nat) returns (k: nat)
    requires Count(fs, p) > 0
    ensures k < |fs| && Covers(fs[k], p)
  {
    var n := |fs| - 1;
    if Covers(fs[n], p) {
      k := n;
    } else {
      k := Covered(fs[..n], p);
    }
  }

  lemma CoverPieces(fs: Frames, data: seq<Byte>)
    requires AllSent(fs, data)
    ensures R.SlicesOf(Pieces(fs), data) && R.CoverAll(Pieces(fs), |data|)
  {
    forall i | 0 <= i < |fs|
      ensures Pieces(fs)[i].SliceIn(data)
    {
      assert CarriesSlice(fs[i], data);
    }
    forall p: nat | p < |data|
      ensures R.Present(Pieces(fs), p)
    {
      var k := Covered(fs, p);
      assert Pieces(fs)[k].Covers(p);
    }
  }

  // Frames that cover the data, arriving in any order and any number of times, with reads in
  // between: what is read is a prefix of the data, and all of it once every frame has arrived.
  method Deliver(ghost sent: Frames, ops: seq<R.Op>, ghost data: seq<Byte>) returns (out: seq<Byte>)
    requires |data| <= MAX_CRYPTO_STREAM_OFFSET && AllSent(sent, data) && R.OnlySent(ops, Pieces(sent))
    ensures out <= data
    ensures R.AllArrive(ops, Pieces(sent)) ==> out == data
  {
    CoverPieces(sent, data);
    var failed;
    failed, out := R.Deliver(Pieces(sent), Pieces(sent), ops, data);
  }

  // ------------------------------------------------------------ end to end

  lemma NothingEmpty()
    ensures NoneEmpty([])
  {
  }

  // Packets with the CRYPTO frames of the data, protected or not, padded to room, and sent over a
  // network: each of them has the length it would have without protection, every byte is sent
  // exactly once if it was to be, and the receiver reads the data.
  method SendPackets(protect: bool, ackLens: seq<nat>, packets: seq<seq<Item>>, room: nat,
                     network: Frames -> seq<R.Op>, ghost data: seq<Byte>)
    returns (payloads: seq<seq<Item>>, sizes: seq<nat>, out: seq<Byte>)
    requires |ackLens| == |packets| && |data| <= MAX_CRYPTO_STREAM_OFFSET
    requires AllSent(CryptoOf(Flatten(packets)), data) && NoneEmpty(CryptoOf(Flatten(packets)))
    requires forall fs: Frames :: R.OnlySent(network(fs), Pieces(fs))
    ensures |payloads| == |sizes| == |packets|
    ensures forall i :: 0 <= i < |sizes| ==> PaddedTo(room, ackLens[i], packets[i], payloads[i], sizes[i])
    ensures ExactCover(CryptoOf(Flatten(payloads)), data) <==> ExactCover(CryptoOf(Flatten(packets)), data)
    ensures out <= data
    ensures var sent := CryptoOf(Flatten(payloads)); R.AllArrive(network(sent), Pieces(sent)) ==> out == data
  {
    payloads, sizes := AppendInitialPayloads(protect, ackLens, packets, room);
    ProtectedCover(Flatten(packets), Flatten(payloads), data);
    hide Faithful, ExactCover, CryptoOf;
    var sent := CryptoOf(Flatten(payloads));
    out := Deliver(sent, network(sent), data);
  }

  // The packets of a flight: head and tail in the first, then a frame each.
  method FlightPackets(head: CryptoFrame, tail: CryptoFrame, later: Frames) returns (packets: seq<seq<Item>>)
    ensures CryptoOf(Flatten(packets)) == [head, tail] + later
    ensures |packets| == 1 + |later| && Sum(packets[0], OnItem(Encoded)) == head.Length() + tail.Length()
    ensures forall i :: 0 <= i < |later| ==> Sum(packets[1 + i], OnItem(Encoded)) == later[i].Length()
  {
    packets := [[Crypto(head), Crypto(tail)]];
    assert Flatten(packets) == [Crypto(head)] + [Crypto(tail)] by { assert packets[..0] == []; }
    CryptoOfAppend([Crypto(head)], Crypto(tail));
    CryptoOfAppend([], Crypto(head));
    SumAppend([Crypto(head)], Crypto(tail), OnItem(Encoded));
    var i := 0;
    while i < |later|
      invariant 0 <= i <= |later| && CryptoOf(Flatten(packets)) == [head, tail] + later[..i]
      invariant |packets| == 1 + i && Sum(packets[0], OnItem(Encoded)) == head.Length() + tail.Length()
      invariant forall k :: 0 <= k < i ==> Sum(packets[1 + k], OnItem(Encoded)) == later[k].Length()
      decreases |later| - i
    {
      assert (packets + [[Crypto(later[i])]])[..1 + i] == packets;
      CryptoOfAppend(Flatten(packets), Crypto(later[i]));
      packets := packets + [[Crypto(later[i])]];
      i := i + 1;
    }
    assert later[..i] == later;
  }

  // A ClientHello that is split over several Initial packets: the payload of every packet is
  // exactly as long as there is room, protected or not, there are no more packets than counted
  // on, together they carry every byte exactly once, and the server reads the ClientHello.
  method SendSplitHello(protect: bool, hello: seq<Byte>, available: nat, random: nat, network: Frames -> seq<R.Op>)
    returns (payloads: seq<seq<Item>>, sizes: seq<nat>, out: seq<Byte>)
    requires |hello| <= MAX_CRYPTO_STREAM_OFFSET
    requires available <= MAX_FRAME_SIZE && random < FIRST_FRAME_LEN_RANDOM
    requires ChromeCryptoSplit(|hello|, 0, available, random).0 > 0
    requires forall fs: Frames :: R.OnlySent(network(fs), Pieces(fs))
    ensures 0 < |hello| && 2 * HeaderRoom(|hello|, 0) <= available
    ensures |payloads| == |sizes| <= NumPackets(|hello|, 0, available)
    ensures forall i :: 0 <= i < |sizes| ==> sizes[i] == Sum(payloads[i], OnItem(Encoded)) == available
    ensures ExactCover(CryptoOf(Flatten(payloads)), hello)
    ensures out <= hello
    ensures var sent := CryptoOf(Flatten(payloads)); R.AllArrive(network(sent), Pieces(sent)) ==> out == hello
  {
    hide ChromeCryptoSplit, Sum, CryptoOf, Carry, NoneEmpty, HeaderRoom, NumPackets;
    var head, tail, later := Flight(hello, available, random);
    var packets := FlightPackets(head, tail, later);
    var ackLens := seq(|packets|, _ => 0);
    payloads, sizes, out := SendPackets(protect, ackLens, packets, available, network, hello);
    forall i | 0 <= i < |sizes|
      ensures sizes[i] == Sum(payloads[i], OnItem(Encoded)) == available
    {
      assert PaddedTo(available, 0, packets[i], payloads[i], sizes[i]);
      assert i > 0 ==> Sum(packets[1 + (i - 1)], OnItem(Encoded)) == later[i - 1].Length();
    }
  }

  // A ClientHello that is sent around its cuts, or in order, and put into packets in any way, with
  // any other frames: the server reads it unless sending gets stuck, and every byte of it is
  // sent exactly once if and only if the cuts allow it.
  method SendHello(scramble: bool, pieces: seq<seq<Byte>>, parse: Parse, requests: seq<Request>, maxLen: nat,
                   protect: bool, pack: Frames -> seq<seq<Item>>, ackLen: nat, room: nat, network: Frames -> seq<R.Op>)
    returns (payloads: seq<seq<Item>>, stuck: bool, out: seq<Byte>)
    requires scramble ==> pieces != [] && parse.Parsed? && InHello(parse, |Flatten(pieces)|)
    requires Legal(scramble, requests) && 11 <= maxLen && Flatten(pieces) != []
    requires |Flatten(pieces) + Queued(requests)| <= MAX_CRYPTO_STREAM_OFFSET
    requires forall fs: Frames :: CryptoOf(Flatten(pack(fs))) == fs
    requires forall fs: Frames :: R.OnlySent(network(fs), Pieces(fs))
    ensures !stuck && ExactCover(CryptoOf(Flatten(payloads)), Flatten(pieces) + Queued(requests)) <==>
      Sendable(scramble, parse, |Flatten(pieces)|)
    ensures out <= Flatten(pieces) + Queued(requests)
    ensures var sent := CryptoOf(Flatten(payloads));
      !stuck && R.AllArrive(network(sent), Pieces(sent)) ==> out == Flatten(pieces) + Queued(requests)
  {
    hide Sendable, Starts, CutsFor, UsableCuts, InHello, Sum, CryptoOf, Carry, NoneEmpty, AllSent, ExactCover, Legal;
    payloads, out := [], [];
    var frames;
    frames, stuck := Transmit(scramble, pieces, parse, requests, maxLen);
    if !stuck {
      var packets := pack(frames);
      var sizes;
      payloads, sizes, out :=
        SendPackets(protect, seq(|packets|, _ => ackLen), packets, room, network, Flatten(pieces) + Queued(requests));
    }
  }
}
