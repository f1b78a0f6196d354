// The sending side of the crypto stream: CRYPTO frames cut from the handshake
// data, in order, around two cuts in the ClientHello, or from both ends.
module CryptoSending {
  import opened Protocol
  import opened Wire

  const INVALID := -1

  // A part of the ClientHello that is sent last.
  datatype Cut = Cut(start: int, end: int)

  const NO_CUT := Cut(INVALID, INVALID)

  // What parsing the data queued so far says: more is needed, it is not a ClientHello, or where
  // the server name and the ECH extension are (INVALID if absent).
  datatype Parse = Incomplete | Malformed | Parsed(sniPos: int, sniLen: nat, echPos: int)

  // ------------------------------------------------------------- coverage

  type Frames = seq<CryptoFrame>

  ghost predicate Covers(f: CryptoFrame, p: nat) {
    f.offset <= p < f.End()
  }

  ghost function Count(fs: Frames, p: nat): nat {
    if fs == [] then 0 else Count(fs[..|fs| - 1], p) + if Covers(fs[|fs| - 1], p) then 1 else 0
  }

  lemma CountAppend(fs: Frames, f: CryptoFrame, p: nat)
    ensures Count(fs + [f], p) == Count(fs, p) + if Covers(f, p) then 1 else 0
  {
    assert (fs + [f])[..|fs|] == fs;
  }

  // The frames carry bytes of data at their offsets.
  ghost predicate Carry(fs: Frames, data: seq<Byte>) {
    forall i :: 0 <= i < |fs| ==> CarriesSlice(fs[i], data)
  }

  ghost predicate CarriesSlice(f: CryptoFrame, data: seq<Byte>) {
    f.End() <= |data| && f.data == data[f.offset..f.End()]
  }

  // A frame with data that takes at most maxLen bytes.
  ghost predicate FitsIn(f: CryptoFrame, maxLen: nat) {
    f.data != [] && (maxLen <= MAX_FRAME_SIZE ==> f.Length() <= maxLen)
  }

  lemma CutToFit(f: CryptoFrame, maxLen: nat)
    requires 0 < |f.data| <= CryptoMaxDataLen(f.offset, maxLen)
    ensures FitsIn(f, maxLen)
  {
    if maxLen <= MAX_FRAME_SIZE { CryptoMaxDataLenExact(f, maxLen); }
  }

  // Each byte of data is in exactly one frame.
  ghost predicate ExactCover(fs: Frames, data: seq<Byte>) {
    Carry(fs, data) && forall p: nat :: p < |data| ==> Count(fs, p) == 1
  }

  lemma CarryMore(fs: Frames, data: seq<Byte>, more: seq<Byte>)
    requires Carry(fs, data)
    ensures Carry(fs, data + more)
  {
    forall i | 0 <= i < |fs|
      ensures CarriesSlice(fs[i], data + more)
    {
      assert CarriesSlice(fs[i], data);
      assert (data + more)[fs[i].offset..fs[i].End()] == data[fs[i].offset..fs[i].End()];
    }
  }

  lemma {:induction false} CountZero(fs: Frames, data: seq<Byte>, p: nat)
    requires Carry(fs, data) && |data| <= p
    ensures Count(fs, p) == 0
  {
    if fs != [] {
      var last := fs[|fs| - 1];
      assert CarriesSlice(last, data);
      assert Carry(fs[..|fs| - 1], data);
      CountZero(fs[..|fs| - 1], data, p);
    }
  }

  ghost predicate InCut(c: Cut, p: nat) {
    c.start != INVALID && c.start <= p < c.end
  }

  // A cut inside the ClientHello.
  predicate CutInside(c: Cut, end: int) {
    c.start == INVALID || 0 <= c.start <= c.end <= end
  }

  predicate CutsInside(cuts: seq<Cut>, end: int) {
    |cuts| == 2 && CutInside(cuts[0], end) && CutInside(cuts[1], end)
  }

  // A usable cut holds at least one byte and does not start with the first one.
  predicate Usable(c: Cut) {
    c.start == INVALID || 0 < c.start < c.end
  }

  // Usable cuts that do not touch, in order.
  predicate UsableCuts(cuts: seq<Cut>) {
    && |cuts| == 2 && Usable(cuts[0]) && Usable(cuts[1])
    && (cuts[0].start != INVALID && cuts[1].start != INVALID ==> cuts[0].end < cuts[1].start)
  }

  // What parsing finds lies inside the ClientHello. A server name extension without a host name
  // leaves a length without a position.
  predicate InHello(parse: Parse, end: nat)
    requires parse.Parsed?
  {
    && INVALID <= parse.sniPos && parse.sniPos + parse.sniLen <= end
    && (parse.echPos == INVALID || 0 < parse.echPos <= end - 4)
  }

  // There is something to cut.
  predicate Found(parse: Parse)
    requires parse.Parsed?
  {
    parse.sniPos != INVALID || parse.echPos != INVALID
  }

  // The cuts that a parsed ClientHello of length end gets. The ECH cut comes first if it starts
  // no later than the one in the server name; a server name that is missing counts as -1 there,
  // and stays first.
  function CutsFor(parse: Parse, end: nat): seq<Cut>
    requires parse.Parsed?
  {
    var sni := Cut(parse.sniPos + parse.sniLen / 2, parse.sniPos + parse.sniLen);
    var ech := if parse.echPos > 0 then Cut(parse.echPos + 1, Min(parse.echPos + 1 + 16, end)) else NO_CUT;
    if ech.start != INVALID && ech.start <= sni.start then [ech, sni] else [sni, ech]
  }

  lemma CutsForInside(parse: Parse, end: nat)
    requires parse.Parsed? && InHello(parse, end) && Found(parse)
    ensures CutsInside(CutsFor(parse, end), end) && Ordered(CutsFor(parse, end))
    ensures CutsFor(parse, end)[0].start != INVALID || CutsFor(parse, end)[1].start != INVALID
    ensures CutsFor(parse, end)[0].start == INVALID <==> parse.sniPos == INVALID && parse.sniLen <= 1
  {
  }

  ghost predicate Ordered(cuts: seq<Cut>)
    requires |cuts| == 2
  {
    cuts[0].start != INVALID && cuts[1].start != INVALID ==> cuts[0].start <= cuts[1].start
  }

  // --------------------------------------------------------------- the plan

  // Sending in order from offset at, the first cut will be left out.
  ghost predicate SkipsFirst(cuts: seq<Cut>, at: int)
    requires |cuts| == 2
  {
    cuts[0].start != INVALID && at < cuts[0].start
  }

  // ... and the second one.
  ghost predicate SkipsSecond(cuts: seq<Cut>, at: int)
    requires |cuts| == 2
  {
    cuts[1].start != INVALID && (if SkipsFirst(cuts, at) then cuts[0].end else at) < cuts[1].start
  }

  // Byte p of a ClientHello of length end will be sent in order.
  ghost predicate InOrder(cuts: seq<Cut>, at: int, end: int, p: nat)
    requires |cuts| == 2
  {
    at <= p < end && !(SkipsFirst(cuts, at) && InCut(cuts[0], p)) && !(SkipsSecond(cuts, at) && InCut(cuts[1], p))
  }

  // How often byte p will be sent.
  ghost function Planned(cuts: seq<Cut>, at: int, end: int, p: nat): nat
    requires |cuts| == 2
  {
    (if InOrder(cuts, at, end, p) || end <= p then 1 else 0)
    + (if InCut(cuts[0], p) then 1 else 0) + (if InCut(cuts[1], p) then 1 else 0)
  }

  lemma NoCutBeyond(cuts: seq<Cut>, at: int, end: int)
    requires |cuts| == 2 && CutsInside(cuts, end)
    ensures forall q: nat :: end <= q ==> Planned(cuts, at, end, q) == 1
  {
  }

  // How often each byte goes out in all: sent so far, and planned.
  ghost function Tally(fs: Frames, cuts: seq<Cut>, at: int, end: int, n: nat): (r: seq<nat>)
    requires |cuts| == 2
    ensures |r| == n && forall p :: 0 <= p < n ==> r[p] == Count(fs, p) + Planned(cuts, at, end, p)
  {
    seq(n, p requires 0 <= p < n && |cuts| == 2 => Count(fs, p) + Planned(cuts, at, end, p))
  }

  // Whatever the cuts, no byte is left out.
  lemma PlannedAtLeastOnce(cuts: seq<Cut>, end: int)
    requires |cuts| == 2
    ensures forall q: nat :: Planned(cuts, 0, end, q) >= 1
  {
  }

  // Cuts make every byte go out exactly once if and only if those that hold any bytes are usable.
  lemma PlannedOnce(cuts: seq<Cut>, end: nat)
    requires CutsInside(cuts, end) && Ordered(cuts) && NoEmptyCut(cuts)
    ensures (forall p: nat :: p < end ==> Planned(cuts, 0, end, p) == 1) <==> UsableCuts(cuts)
  {
    if forall p: nat :: p < end ==> Planned(cuts, 0, end, p) == 1 {
      if cuts[0].start != INVALID { assert Planned(cuts, 0, end, cuts[0].start) == 1; }
      if cuts[1].start != INVALID { assert Planned(cuts, 0, end, cuts[1].start) == 1; }
    }
  }

  lemma OnceOrNot(cuts: seq<Cut>, end: nat, due: seq<nat>)
    requires |cuts| == 2 && |due| == end && forall p :: 0 <= p < end ==> due[p] == Planned(cuts, 0, end, p)
    ensures (forall p: nat :: p < |due| ==> due[p] == 1) <==>
      (forall p: nat :: p < end ==> Planned(cuts, 0, end, p) == 1)
  {
    hide Planned;
    if forall p: nat :: p < |due| ==> due[p] == 1 {
      assert forall p: nat :: p < end ==> due[p] == Planned(cuts, 0, end, p);
    }
  }

  // No cut is empty. An empty one is never done with.
  predicate NoEmptyCut(cuts: seq<Cut>) {
    |cuts| == 2 && (cuts[0].start != INVALID ==> cuts[0].start < cuts[0].end)
      && (cuts[1].start != INVALID ==> cuts[1].start < cuts[1].end)
  }

  // -------------------------------------------------------------- stream

  class CryptoStream {
    var writeOffset: nat
    var writeBuf: seq<Byte>
    var scramble: bool
    var end: int
    var cuts: seq<Cut>

    ghost var written: seq<Byte>
    ghost var popped: Frames
    ghost var tailTaken: bool // bytes were taken from the end of the queue
    ghost var due: seq<nat>   // how often each byte written is to be sent

    // How often byte p will still be sent.
    ghost function Pending(p: nat): nat
      reads `scramble, `cuts, `writeOffset, `end, `writeBuf
    {
      if scramble && |cuts| == 2 then Planned(cuts, writeOffset, end, p)
      else if writeOffset <= p < writeOffset + |writeBuf| then 1 else 0
    }

    ghost predicate Shape()
      reads this
    {
      && |due| == |written| && (forall p :: 0 <= p < |due| ==> due[p] >= 1)
      && if scramble then
        && written == writeBuf && !tailTaken
        && writeOffset <= end <= |writeBuf|
        && |cuts| == 2 && CutsInside(cuts, end)
        && (writeOffset == 0 ==> popped == [])
        && (cuts[0].start == INVALID && cuts[1].start == INVALID ==> end == 0)
      else
        && writeOffset + |writeBuf| <= |written|
        && writeBuf == written[writeOffset..writeOffset + |writeBuf|]
        && (tailTaken <==> writeOffset + |writeBuf| < |written|)
    }

    // What was sent and what is pending make up what is due.
    ghost predicate Valid()
      reads this
    {
      && Shape()
      && Carry(popped, written)
      && (forall p: nat :: p < |written| ==> Count(popped, p) + Pending(p) == due[p])
    }

    // Every byte is due once.
    ghost predicate OnceEach()
      reads `due
    {
      forall p: nat :: p < |due| ==> due[p] == 1
    }

    constructor (scramble: bool)
      ensures Valid() && written == [] && popped == [] && !tailTaken && this.scramble == scramble && due == []
      ensures writeOffset == 0 && cuts == [NO_CUT, NO_CUT]
    {
      writeOffset, writeBuf, this.scramble, end, cuts := 0, [], scramble, 0, [NO_CUT, NO_CUT];
      written, popped, tailTaken, due := [], [], false, [];
    }

    predicate HasData()
      reads this
      requires |cuts| > 0
    {
      if scramble && writeOffset == 0 && cuts[0].start == INVALID then false else |writeBuf| > 0
    }

    // Queues p. The outcome of parsing what is then queued decides about the cuts. The books stay
    // right, except that data written after bytes were taken from the end gets wrong offsets.
    // Cuts keep every byte due once if and only if they are usable, and are acted on only if there
    // is a first one.
    method Write(p: seq<Byte>, parse: Parse) returns (ok: bool)
      requires Valid() && |cuts| == 2
      requires parse.Parsed? ==> InHello(parse, |written| + |p|)
      modifies `writeBuf, `written, `scramble, `end, `cuts, `due
      ensures |cuts| == 2 && written == old(written) + p && writeBuf == old(writeBuf) + p
      ensures !old(scramble) ==> (Valid() <==> !tailTaken || p == []) && !scramble && due == old(due) + Ones(|p|)
      ensures old(scramble) && (old(cuts[0].start) == INVALID && parse.Parsed? ==> writeOffset == 0) ==> Valid()
      ensures !old(scramble) || old(cuts[0].start) != INVALID || !parse.Parsed? ==>
        scramble == old(scramble) && cuts == old(cuts) && end == old(end) && due == old(due) + Ones(|p|)
      ensures old(scramble && cuts[0].start == INVALID && writeOffset == 0) && parse.Parsed? ==>
        && (|written| > 0 ==> (Ready() <==> Found(parse) ==> cuts[0].start != INVALID))
        && (Found(parse) ==> scramble && cuts == CutsFor(parse, |written|) && end == |written|)
        && (!Found(parse) ==> !scramble && OnceEach())
        && (Found(parse) && NoEmptyCut(cuts) ==> (OnceEach() <==> UsableCuts(cuts)))
      ensures ok <==> !(old(scramble) && old(cuts[0].start) == INVALID && parse.Malformed?)
    {
      hide Planned, UsableCuts, CutsInside;
      Append(p);
      if !scramble || cuts[0].start != INVALID {
        return true;
      }
      if parse.Incomplete? {
        return true;
      }
      if parse.Malformed? {
        return false;
      }
      Decide(parse);
      return true;
    }

    method Append(p: seq<Byte>)
      requires Valid()
      modifies `writeBuf, `written, `due
      ensures written == old(written) + p && writeBuf == old(writeBuf) + p && due == old(due) + Ones(|p|)
      ensures Valid() <==> !tailTaken || p == []
    {
      hide Carry, CutsInside, Planned, Count;
      CarryMore(popped, written, p);
      ghost var w, next := written, writeOffset + |writeBuf|;
      assert tailTaken ==> next < |w| && Pending(next) == 0 && Count(popped, next) == due[next];
      writeBuf := writeBuf + p;
      written := written + p;
      due := due + Ones(|p|);
      if scramble { NoCutBeyond(cuts, writeOffset, end); }
      if tailTaken && p != [] {
        assert Pending(next) == 1 && due[next] == old(due)[next];
      } else {
        forall q: nat | q < |written|
          ensures Count(popped, q) + Pending(q) == due[q]
        {
          if |w| <= q {
            CountZero(popped, w, q);
          } else {
            assert Pending(q) == old(Pending(q));
          }
        }
        hide CryptoStream.Pending;
        assert Valid();
      }
    }

    // The cuts for a ClientHello; without any, no scrambling.
    method Decide(parse: Parse)
      requires Valid() && scramble && parse.Parsed? && InHello(parse, |written|)
      modifies `scramble, `end, `cuts, `due
      ensures |cuts| == 2 && |due| == |written|
      ensures writeOffset == 0 ==> Valid()
      ensures writeOffset == 0 && |written| > 0 ==> (Ready() <==> Found(parse) ==> cuts[0].start != INVALID)
      ensures Found(parse) ==> scramble && cuts == CutsFor(parse, |written|) && end == |written|
      ensures !Found(parse) ==> !scramble
      ensures writeOffset == 0 && !Found(parse) ==> OnceEach()
      ensures writeOffset == 0 && Found(parse) && NoEmptyCut(cuts) ==> (OnceEach() <==> UsableCuts(cuts))
    {
      hide Carry, Planned, UsableCuts;
      if !Found(parse) {
        scramble := false;
        due := Ones(|written|);
        return;
      }
      CutsForInside(parse, |writeBuf|);
      end := |writeBuf|;
      cuts := CutsFor(parse, |writeBuf|);
      due := Tally(popped, cuts, writeOffset, end, |written|);
      PlannedAtLeastOnce(cuts, end);
      if writeOffset == 0 && NoEmptyCut(cuts) {
        PlannedOnce(cuts, end);
        OnceOrNot(cuts, end, due);
      }
    }

    // What one more frame f does to the books.
    twostate lemma Booked(new f: CryptoFrame)
      requires old(Valid()) && written == old(written) && due == old(due) && popped == old(popped) + [f]
      requires CarriesSlice(f, written) && Shape()
      requires forall p: nat :: p < |written| ==> Pending(p) + (if Covers(f, p) then 1 else 0) == old(Pending(p))
      ensures Valid()
    {
      forall p: nat | p < |written|
        ensures Count(popped, p) + Pending(p) == due[p]
      {
        CountAppend(old(popped), f, p);
      }
    }

    // The next bytes in order, in a frame of at most maxLen.
    method PopInOrder(maxLen: nat) returns (r: Option<CryptoFrame>)
      requires Valid() && !scramble
      modifies `writeBuf, `writeOffset, `popped
      ensures Valid()
      ensures r.None? <==> old(|writeBuf|) == 0 || CryptoMaxDataLen(old(writeOffset), maxLen) == 0
      ensures popped == old(popped) + if r.Some? then [r.value] else []
      ensures r.Some? ==>
        && r.value.offset == old(writeOffset)
        && |r.value.data| == Min(old(|writeBuf|), CryptoMaxDataLen(old(writeOffset), maxLen))
        && |writeBuf| == old(|writeBuf|) - |r.value.data| && writeOffset == old(writeOffset) + |r.value.data|
        && FitsIn(r.value, maxLen)
    {
      hide Carry, Count, Planned;
      ghost var buf := writeBuf;
      r := TakeFront(maxLen);
      if r.Some? {
        PartsOf(written, old(writeOffset), buf, |r.value.data|);
        Booked(r.value);
        CutToFit(r.value, maxLen);
      }
    }

    // As many bytes as fit, from the front of the queue, for the current offset.
    method TakeFront(maxLen: nat) returns (r: Option<CryptoFrame>)
      modifies `writeBuf, `writeOffset, `popped
      ensures r.None? <==> old(|writeBuf|) == 0 || CryptoMaxDataLen(old(writeOffset), maxLen) == 0
      ensures r.None? ==> unchanged(this)
      ensures r.Some? ==>
        && |r.value.data| == Min(old(|writeBuf|), CryptoMaxDataLen(old(writeOffset), maxLen))
        && r.value == CryptoFrame(old(writeOffset), old(writeBuf)[..|r.value.data|])
        && writeBuf == old(writeBuf)[|r.value.data|..] && writeOffset == old(writeOffset) + |r.value.data|
        && popped == old(popped) + [r.value]
    {
      var n := Min(CryptoMaxDataLen(writeOffset, maxLen), |writeBuf|);
      if n <= 0 {
        return None;
      }
      var f := CryptoFrame(writeOffset, writeBuf[..n]);
      writeBuf := writeBuf[n..];
      writeOffset := writeOffset + n;
      popped := popped + [f];
      return Some(f);
    }

    // The last dataLen bytes of what is queued.
    method PopTail(dataLen: int) returns (r: Option<CryptoFrame>)
      requires Valid() && !scramble
      modifies `writeBuf, `popped, `tailTaken
      ensures Valid()
      ensures r.Some? <==> 0 < dataLen <= old(|writeBuf|)
      ensures popped == old(popped) + if r.Some? then [r.value] else []
      ensures r.Some? ==>
        && r.value.End() == writeOffset + old(|writeBuf|) && |r.value.data| == dataLen
        && r.value.data == old(writeBuf)[old(|writeBuf|) - dataLen..]
        && writeBuf == old(writeBuf)[..old(|writeBuf|) - dataLen] && tailTaken
      ensures r.None? ==> writeBuf == old(writeBuf) && tailTaken == old(tailTaken)
    {
      hide Carry, Count, Planned;
      if dataLen <= 0 || dataLen > |writeBuf| {
        return None;
      }
      var n := |writeBuf| - dataLen;
      var f := CryptoFrame(writeOffset + n, writeBuf[n..]);
      PartsOf(written, writeOffset, writeBuf, n);
      writeBuf := writeBuf[..n];
      tailTaken := true;
      popped := popped + [f];
      Booked(f);
      return Some(f);
    }

    // The ClientHello goes out in order, or is complete and has a first cut. Without one, there
    // seems to be nothing to send.
    ghost predicate Ready()
      reads `scramble, `end, `writeOffset, `cuts
    {
      scramble ==> end > 0 && (writeOffset == 0 ==> |cuts| == 2 && cuts[0].start != INVALID)
    }

    // No cut stops the stream.
    ghost predicate Flows()
      reads `scramble, `cuts
    {
      scramble ==> NoEmptyCut(cuts)
    }

    // When there is nothing more to send, everything written was sent as often as it was due.
    lemma NothingPending()
      requires Valid() && Ready() && |cuts| == 2 && !HasData()
      ensures Carry(popped, written) && forall p: nat :: p < |written| ==> Count(popped, p) == due[p] >= 1
      ensures ExactCover(popped, written) <==> OnceEach()
    {
      assert forall p: nat :: p < |written| ==> Pending(p) == 0;
    }

    // What is left to send, as a bound on the number of frames to come.
    ghost function Remaining(): int
      reads this
    {
      if scramble && |cuts| == 2 then
        1 + |writeBuf| - writeOffset + CutLen(cuts[0]) + CutLen(cuts[1])
      else |writeBuf|
    }

    // The next frame of at most maxLen. An empty cut stops the stream for good.
    method Pop(maxLen: nat) returns (r: Option<CryptoFrame>)
      requires Valid() && |cuts| == 2
      modifies `writeOffset, `writeBuf, `scramble, `end, `cuts, `popped
      ensures Valid() && |cuts| == 2
      ensures !old(scramble) ==> !scramble
      ensures popped == old(popped) + if r.Some? then [r.value] else []
      ensures old(Ready()) ==> Ready()
      ensures r.Some? ==> FitsIn(r.value, maxLen)
      ensures Flows() == old(Flows())
      ensures old(HasData()) && 11 <= maxLen && old(Flows()) ==> r.Some?
      ensures r.Some? ==> 0 <= Remaining() < old(Remaining())
      ensures old(HasData()) && 11 <= maxLen && r.None? ==> HasData() && scramble && !NoEmptyCut(cuts)
    {
      hide FitsIn, Planned, Carry, Count;
      if !scramble {
        r := PopInOrder(maxLen);
      } else if writeOffset == end {
        r := PopCut(maxLen);
      } else {
        r := PopAroundCuts(maxLen);
      }
    }

    // The first cut ahead of the write offset.
    function NextCut(): Cut
      reads this
      requires |cuts| == 2
    {
      if cuts[0].start != INVALID && cuts[0].start > writeOffset then cuts[0]
      else if cuts[1].start != INVALID && cuts[1].start > writeOffset then cuts[1]
      else NO_CUT
    }

    // The ClientHello in order, leaving out the cuts.
    method PopAroundCuts(maxLen: nat) returns (r: Option<CryptoFrame>)
      requires Valid() && scramble && writeOffset < end
      modifies `writeOffset, `popped
      ensures Valid()
      ensures popped == old(popped) + if r.Some? then [r.value] else []
      ensures r.Some? ==> FitsIn(r.value, maxLen) && old(writeOffset) < writeOffset
      ensures r.None? ==> writeOffset == old(writeOffset)
      ensures 11 <= maxLen ==> r.Some?
    {
      hide Carry, Count, Planned, CutsInside;
      var nextCut := NextCut();
      var maxOffset := if nextCut.start == INVALID then end else nextCut.start;
      NextCutInside();
      var n := Min(CryptoMaxDataLen(writeOffset, maxLen), maxOffset - writeOffset);
      if n <= 0 {
        return None;
      }
      var f := CryptoFrame(writeOffset, writeBuf[writeOffset..writeOffset + n]);
      SkipAhead(n);
      CutToFit(f, maxLen);
      hide CryptoStream.Shape, FitsIn;
      popped := popped + [f];
      Booked(f);
      return Some(f);
    }

    lemma NextCutInside()
      requires |cuts| == 2 && CutsInside(cuts, end)
      ensures NextCut().start != INVALID ==> writeOffset < NextCut().start <= NextCut().end <= end
    {
    }

    // Moves the write offset by n, and past the next cut on reaching it.
    method SkipAhead(n: nat)
      requires Shape() && scramble && 0 < n
      requires writeOffset + n <= if NextCut().start == INVALID then end else NextCut().start
      modifies `writeOffset
      ensures Shape() && old(writeOffset) < writeOffset
      ensures forall p: nat :: p < |written| ==>
        Pending(p) + (if old(writeOffset) <= p < old(writeOffset) + n then 1 else 0) == old(Pending(p))
    {
      hide Planned, CutsInside;
      NextCutInside();
      var nextCut := NextCut();
      PlannedAhead(cuts, writeOffset, n, end);
      writeOffset := writeOffset + n;
      if writeOffset == nextCut.start {
        writeOffset := nextCut.end;
      }
    }

    // The bytes of a cut, once everything else of the ClientHello is sent.
    method PopCut(maxLen: nat) returns (r: Option<CryptoFrame>)
      requires Valid() && scramble && writeOffset == end
      modifies `cuts, `writeBuf, `end, `scramble, `popped
      ensures Valid() && |cuts| == 2
      ensures popped == old(popped) + if r.Some? then [r.value] else []
      ensures old(Ready()) ==> Ready()
      ensures r.Some? ==> FitsIn(r.value, maxLen) && 0 <= Remaining() < old(Remaining())
      ensures Flows() == old(Flows())
      ensures old(HasData()) && 11 <= maxLen && old(Flows()) ==> r.Some?
      ensures old(HasData()) && 11 <= maxLen && r.None? ==> HasData() && scramble && !NoEmptyCut(cuts)
    {
      hide Carry, Count, Planned;
      if cuts[0].start == INVALID && cuts[1].start == INVALID {
        NothingCut();
        return None;
      }
      var i := if cuts[0].start != INVALID then 0 else 1;
      var c := cuts[i];
      var n := Min(CryptoMaxDataLen(c.start, maxLen), c.end - c.start);
      if n <= 0 {
        return None;
      }
      var f := TakeCut(i, n);
      CutToFit(f, maxLen);
      return Some(f);
    }

    // There never was anything to cut.
    method NothingCut()
      requires Valid() && scramble && writeOffset == end && cuts[0].start == INVALID && cuts[1].start == INVALID
      modifies `writeBuf, `end, `scramble
      ensures Valid() && !scramble
    {
      hide Carry, Count;
      FinishCuts();
    }

    // The next n bytes of cut i.
    method TakeCut(i: nat, n: nat) returns (f: CryptoFrame)
      requires Valid() && scramble && writeOffset == end && i < 2
      requires cuts[i].start != INVALID && 0 < n <= cuts[i].end - cuts[i].start
      modifies `cuts, `writeBuf, `end, `scramble, `popped
      ensures Valid() && |cuts| == 2
      ensures popped == old(popped) + [f] && f.offset == old(cuts[i].start) && |f.data| == n
      ensures old(Ready()) ==> Ready()
      ensures Flows() == old(Flows())
      ensures 0 <= Remaining() < old(Remaining())
    {
      hide Carry, Count, Planned;
      var c := cuts[i];
      f := CryptoFrame(c.start, writeBuf[c.start..c.start + n]);
      Advance(i, n);
      assert Shape();
      hide CryptoStream.Shape;
      popped := popped + [f];
      Booked(f);
    }

    // Takes n bytes off cut i, and is done with the cuts when nothing is left of them.
    method Advance(i: nat, n: nat)
      requires Shape() && scramble && writeOffset == end && i < 2
      requires cuts[i].start != INVALID && 0 < n <= cuts[i].end - cuts[i].start
      modifies `cuts, `writeBuf, `end, `scramble
      ensures Shape() && |cuts| == 2
      ensures forall p: nat :: p < |written| ==>
        Pending(p) + (if old(cuts[i].start) <= p < old(cuts[i].start) + n then 1 else 0) == old(Pending(p))
      ensures old(Ready()) ==> Ready()
      ensures Flows() == old(Flows())
      ensures 0 <= Remaining() < old(Remaining())
    {
      var c := cuts[i];
      cuts := cuts[i := if c.start + n == c.end then NO_CUT else Cut(c.start + n, c.end)];
      if cuts[0].start == INVALID && cuts[1].start == INVALID {
        FinishCuts();
      }
    }

    // The ClientHello has been sent; what was queued after it follows in order.
    method FinishCuts()
      requires scramble && writeOffset == end <= |writeBuf| && written == writeBuf
      modifies `writeBuf, `end, `scramble
      ensures !scramble && writeBuf == written[writeOffset..]
    {
      writeBuf := writeBuf[end..];
      end := INVALID;
      scramble := false;
    }
  }

  lemma PartsOf(whole: seq<Byte>, at: nat, part: seq<Byte>, n: nat)
    requires at + |part| <= |whole| && part == whole[at..at + |part|] && n <= |part|
    ensures part[..n] == whole[at..at + n] && part[n..] == whole[at + n..at + |part|]
  {
  }

  // Where sending in order goes on after n bytes.
  ghost function After(cuts: seq<Cut>, at: int, n: nat): int
    requires |cuts| == 2
  {
    if cuts[0].start != INVALID && at < cuts[0].start then
      if at + n == cuts[0].start then cuts[0].end else at + n
    else if cuts[1].start != INVALID && at < cuts[1].start then
      if at + n == cuts[1].start then cuts[1].end else at + n
    else at + n
  }

  // Sending n bytes in order, up to the next cut or the end, is what was planned.
  lemma PlannedAhead(cuts: seq<Cut>, at: nat, n: nat, end: int)
    requires CutsInside(cuts, end) && at + n <= end
    requires cuts[0].start != INVALID && at < cuts[0].start ==> at + n <= cuts[0].start
    requires !(cuts[0].start != INVALID && at < cuts[0].start) && cuts[1].start != INVALID && at < cuts[1].start ==>
      at + n <= cuts[1].start
    ensures forall p: nat ::
      Planned(cuts, After(cuts, at, n), end, p) + (if at <= p < at + n then 1 else 0) == Planned(cuts, at, end, p)
  {
  }

  ghost function CutLen(c: Cut): int {
    if c.start == INVALID then 0 else c.end - c.start
  }

  ghost function Ones(n: nat): seq<nat> {
    seq(n, _ => 1)
  }
}
