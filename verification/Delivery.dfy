// Which frames are responsible for which bytes of a stream: every byte sent is
// acknowledged, in flight, or queued for retransmission.
module Delivery {
  import opened Protocol
  import opened Wire

  type Frames = seq<StreamFrame>

  ghost predicate Covers(f: StreamFrame, p: nat) {
    f.offset <= p < f.End()
  }

  ghost function CoverAt(p: nat): StreamFrame -> nat {
    (f: StreamFrame) => if Covers(f, p) then 1 else 0
  }

  ghost function Fin(): StreamFrame -> nat {
    (f: StreamFrame) => if f.fin then 1 else 0
  }

  ghost function Total(fs: Frames, w: StreamFrame -> nat): nat {
    if fs == [] then 0 else w(fs[0]) + Total(fs[1..], w)
  }

  function Remove<T>(fs: seq<T>, i: nat): seq<T>
    requires i < |fs|
  {
    fs[..i] + fs[i + 1..]
  }

  lemma {:induction false} TotalConcat(a: Frames, b: Frames, w: StreamFrame -> nat)
    ensures Total(a + b, w) == Total(a, w) + Total(b, w)
  {
    if a == [] {
      assert a + b == b;
    } else {
      TotalConcat(a[1..], b, w);
      assert (a + b)[1..] == a[1..] + b;
    }
  }

  lemma TotalRemove(fs: Frames, i: nat, w: StreamFrame -> nat)
    requires i < |fs|
    ensures Total(fs, w) == w(fs[i]) + Total(Remove(fs, i), w)
  {
    assert fs == fs[..i] + ([fs[i]] + fs[i + 1..]);
    TotalConcat(fs[..i], [fs[i]] + fs[i + 1..], w);
    TotalConcat([fs[i]], fs[i + 1..], w);
    TotalConcat(fs[..i], fs[i + 1..], w);
  }

  lemma TotalAppend(fs: Frames, f: StreamFrame, w: StreamFrame -> nat)
    ensures Total(fs + [f], w) == Total(fs, w) + w(f)
  {
    TotalConcat(fs, [f], w);
  }

  // No frame in fs counts for w.
  lemma {:induction false} TotalZero(fs: Frames, w: StreamFrame -> nat)
    requires forall i :: 0 <= i < |fs| ==> w(fs[i]) == 0
    ensures Total(fs, w) == 0
  {
    if fs != [] { TotalZero(fs[1..], w); }
  }

  // Two lists of the same length whose frames count the same for w.
  lemma {:induction false} TotalSame(a: Frames, b: Frames, w: StreamFrame -> nat)
    requires |a| == |b| && forall i :: 0 <= i < |a| ==> w(a[i]) == w(b[i])
    ensures Total(a, w) == Total(b, w)
  {
    if a != [] { TotalSame(a[1..], b[1..], w); }
  }

  // The frames carry bytes of sent at their offsets.
  ghost predicate Carry(fs: Frames, sent: seq<Byte>) {
    forall i :: 0 <= i < |fs| ==> CarriesSlice(fs[i], sent)
  }

  ghost predicate CarriesSlice(f: StreamFrame, sent: seq<Byte>) {
    f.End() <= |sent| && f.data == sent[f.offset..f.End()] && (f.data == [] ==> f.fin)
  }

  // Of the bytes below limit each is in exactly one frame.
  ghost predicate OnceEach(acked: Frames, inFlight: Frames, queue: Frames, limit: nat) {
    forall p: nat :: p < limit ==>
      Total(acked, CoverAt(p)) + Total(inFlight, CoverAt(p)) + Total(queue, CoverAt(p)) == 1
  }

  ghost function Fins(acked: Frames, inFlight: Frames, queue: Frames): nat {
    Total(acked, Fin()) + Total(inFlight, Fin()) + Total(queue, Fin())
  }

  // The frames carry what was sent, and each byte below limit is in exactly one of them.
  ghost predicate Books(acked: Frames, inFlight: Frames, queue: Frames, sent: seq<Byte>, limit: nat) {
    && Carry(acked, sent) && Carry(inFlight, sent) && Carry(queue, sent)
    && OnceEach(acked, inFlight, queue, limit)
  }

  // A FIN marks the last byte sent.
  ghost predicate FinLast(fs: Frames, finSent: bool, end: nat) {
    forall i :: 0 <= i < |fs| && fs[i].fin ==> finSent && fs[i].End() == end
  }

  // A FIN marks one of two ends.
  ghost predicate FinEither(fs: Frames, a: nat, b: nat) {
    forall i :: 0 <= i < |fs| && fs[i].fin ==> fs[i].End() == a || fs[i].End() == b
  }

  // ... which is kept by all moves of frames.
  lemma EitherMoves(fs: Frames, a: nat, b: nat)
    requires FinEither(fs, a, b)
    ensures forall i :: 0 <= i < |fs| ==> FinEither(Remove(fs, i), a, b)
    ensures forall f: StreamFrame :: (f.fin ==> f.End() == a || f.End() == b) ==> FinEither(fs + [f], a, b)
    ensures forall f: StreamFrame :: fs != [] && (f.fin ==> f.End() == a || f.End() == b) ==>
      FinEither(fs[0 := f], a, b)
    ensures fs != [] ==> FinEither(fs[1..], a, b)
  {
  }

  // A frame with a FIN begins below limit and ends beyond it.
  ghost predicate Crossing(fs: Frames, limit: nat) {
    exists i :: 0 <= i < |fs| && Crosses(fs[i], limit)
  }

  predicate Crosses(f: StreamFrame, limit: nat) {
    f.fin && f.offset < limit < f.End()
  }

  // Once the FIN was sent it is in exactly one frame, which ends where the stream ends.
  ghost predicate FinBooks(acked: Frames, inFlight: Frames, queue: Frames, finSent: bool, end: nat) {
    && Fins(acked, inFlight, queue) == (if finSent then 1 else 0)
    && FinLast(acked, finSent, end) && FinLast(inFlight, finSent, end) && FinLast(queue, finSent, end)
  }

  // Both; the FIN is tracked as long as the stream is not cut short.
  ghost predicate Tracked(acked: Frames, inFlight: Frames, queue: Frames, sent: seq<Byte>, limit: nat, whole: bool,
                          finSent: bool)
  {
    && Books(acked, inFlight, queue, sent, limit)
    && (whole ==> FinBooks(acked, inFlight, queue, finSent, |sent|))
  }

  // ------------------------------------------------------------------ moves

  // A frame with new data goes out.
  lemma SendNew(acked: Frames, inFlight: Frames, queue: Frames, sent: seq<Byte>, f: StreamFrame)
    requires Books(acked, inFlight, queue, sent, |sent|)
    requires f.offset == |sent| && (f.data == [] ==> f.fin)
    ensures Books(acked, inFlight + [f], queue, sent + f.data, |sent + f.data|)
  {
    forall p: nat | p < |sent + f.data|
      ensures Total(acked, CoverAt(p)) + Total(inFlight + [f], CoverAt(p)) + Total(queue, CoverAt(p)) == 1
    {
      TotalAppend(inFlight, f, CoverAt(p));
      if |sent| <= p {
        TotalZero(acked, CoverAt(p));
        TotalZero(inFlight, CoverAt(p));
        TotalZero(queue, CoverAt(p));
      }
    }
    CarryMore(acked, sent, f.data);
    CarryMore(inFlight, sent, f.data);
    CarryMore(queue, sent, f.data);
  }

  // ... possibly the one with the FIN.
  lemma SendNewFin(acked: Frames, inFlight: Frames, queue: Frames, end: nat, f: StreamFrame)
    requires FinBooks(acked, inFlight, queue, false, end)
    ensures FinBooks(acked, inFlight + [f], queue, f.fin, f.End())
  {
    TotalAppend(inFlight, f, Fin());
  }

  lemma CarryMore(fs: Frames, sent: seq<Byte>, more: seq<Byte>)
    requires Carry(fs, sent)
    ensures Carry(fs, sent + more)
  {
    forall i | 0 <= i < |fs|
      ensures CarriesSlice(fs[i], sent + more)
    {
      assert CarriesSlice(fs[i], sent);
      assert (sent + more)[fs[i].offset..fs[i].End()] == sent[fs[i].offset..fs[i].End()];
    }
  }

  // A frame in flight is acknowledged.
  lemma Acknowledge(acked: Frames, inFlight: Frames, queue: Frames, sent: seq<Byte>, limit: nat, i: nat)
    requires i < |inFlight| && Books(acked, inFlight, queue, sent, limit)
    ensures Books(acked + [inFlight[i]], Remove(inFlight, i), queue, sent, limit)
  {
    forall p: nat | p < limit
      ensures Total(acked + [inFlight[i]], CoverAt(p)) + Total(Remove(inFlight, i), CoverAt(p))
              + Total(queue, CoverAt(p)) == 1
    {
      TotalAppend(acked, inFlight[i], CoverAt(p));
      TotalRemove(inFlight, i, CoverAt(p));
    }
  }

  lemma AcknowledgeFin(acked: Frames, inFlight: Frames, queue: Frames, finSent: bool, end: nat, i: nat)
    requires i < |inFlight| && FinBooks(acked, inFlight, queue, finSent, end)
    ensures FinBooks(acked + [inFlight[i]], Remove(inFlight, i), queue, finSent, end)
  {
    TotalAppend(acked, inFlight[i], Fin());
    TotalRemove(inFlight, i, Fin());
  }

  // A lost frame is queued again; what matters of it is its part below limit.
  lemma Requeue(acked: Frames, inFlight: Frames, queue: Frames, sent: seq<Byte>, limit: nat, i: nat, g: StreamFrame)
    requires i < |inFlight| && Books(acked, inFlight, queue, sent, limit) && CarriesSlice(g, sent)
    requires forall p: nat :: p < limit ==> (Covers(g, p) <==> Covers(inFlight[i], p))
    ensures Books(acked, Remove(inFlight, i), queue + [g], sent, limit)
  {
    forall p: nat | p < limit
      ensures Total(acked, CoverAt(p)) + Total(Remove(inFlight, i), CoverAt(p)) + Total(queue + [g], CoverAt(p)) == 1
    {
      TotalAppend(queue, g, CoverAt(p));
      TotalRemove(inFlight, i, CoverAt(p));
    }
  }

  lemma RequeueFin(acked: Frames, inFlight: Frames, queue: Frames, finSent: bool, end: nat, i: nat, g: StreamFrame)
    requires i < |inFlight| && FinBooks(acked, inFlight, queue, finSent, end)
    requires g.fin == inFlight[i].fin && g.End() == inFlight[i].End()
    ensures FinBooks(acked, Remove(inFlight, i), queue + [g], finSent, end)
  {
    TotalAppend(queue, g, Fin());
    TotalRemove(inFlight, i, Fin());
  }

  // A lost frame without bytes below limit is forgotten.
  lemma Forget(acked: Frames, inFlight: Frames, queue: Frames, sent: seq<Byte>, limit: nat, i: nat)
    requires i < |inFlight| && Books(acked, inFlight, queue, sent, limit) && limit <= inFlight[i].offset
    ensures Books(acked, Remove(inFlight, i), queue, sent, limit)
  {
    forall p: nat | p < limit
      ensures Total(acked, CoverAt(p)) + Total(Remove(inFlight, i), CoverAt(p)) + Total(queue, CoverAt(p)) == 1
    {
      TotalRemove(inFlight, i, CoverAt(p));
    }
  }

  // The frame at the head of the queue goes out again.
  lemma Retransmit(acked: Frames, inFlight: Frames, queue: Frames, sent: seq<Byte>, limit: nat)
    requires queue != [] && Books(acked, inFlight, queue, sent, limit)
    ensures Books(acked, inFlight + [queue[0]], queue[1..], sent, limit)
  {
    forall p: nat | p < limit
      ensures Total(acked, CoverAt(p)) + Total(inFlight + [queue[0]], CoverAt(p)) + Total(queue[1..], CoverAt(p)) == 1
    {
      TotalAppend(inFlight, queue[0], CoverAt(p));
    }
  }

  lemma RetransmitFin(acked: Frames, inFlight: Frames, queue: Frames, finSent: bool, end: nat)
    requires queue != [] && FinBooks(acked, inFlight, queue, finSent, end)
    ensures FinBooks(acked, inFlight + [queue[0]], queue[1..], finSent, end)
  {
    TotalAppend(inFlight, queue[0], Fin());
  }

  // ... or only its first part does, and the rest stays.
  lemma RetransmitPart(acked: Frames, inFlight: Frames, queue: Frames, sent: seq<Byte>, limit: nat, first: StreamFrame,
                       rest: StreamFrame)
    requires queue != [] && Books(acked, inFlight, queue, sent, limit)
    requires first.data + rest.data == queue[0].data && first.data != [] && rest.data != []
    requires first.offset == queue[0].offset && rest.offset == first.End()
    ensures Books(acked, inFlight + [first], queue[0 := rest], sent, limit)
  {
    assert queue[0 := rest][1..] == queue[1..];
    assert |queue[0].data| == |first.data| + |rest.data|;
    assert CarriesSlice(queue[0], sent);
    assert CarriesSlice(first, sent) by { assert first.data == queue[0].data[..|first.data|]; }
    assert CarriesSlice(rest, sent) by { assert rest.data == queue[0].data[|first.data|..]; }
    forall p: nat | p < limit
      ensures Total(acked, CoverAt(p)) + Total(inFlight + [first], CoverAt(p))
              + Total(queue[0 := rest], CoverAt(p)) == 1
    {
      TotalAppend(inFlight, first, CoverAt(p));
    }
  }

  lemma RetransmitPartFin(acked: Frames, inFlight: Frames, queue: Frames, finSent: bool, end: nat, first: StreamFrame,
                          rest: StreamFrame)
    requires queue != [] && FinBooks(acked, inFlight, queue, finSent, end)
    requires !first.fin && rest.fin == queue[0].fin && rest.End() == queue[0].End()
    ensures FinBooks(acked, inFlight + [first], queue[0 := rest], finSent, end)
  {
    assert queue[0 := rest][1..] == queue[1..];
    TotalAppend(inFlight, first, Fin());
  }

  // ------------------------------------------------------ partial delivery

  // The frames of the retransmission queue that start below limit, cut off at limit.
  function Truncated(fs: Frames, limit: nat): Frames {
    if fs == [] then []
    else
      var f, rest := fs[0], Truncated(fs[1..], limit);
      if f.offset >= limit then rest
      else if f.End() <= limit then [f] + rest
      else [f.(data := f.data[..limit - f.offset])] + rest
  }

  lemma {:induction false} TruncatedAppend(fs: Frames, f: StreamFrame, limit: nat)
    ensures Truncated(fs + [f], limit) == Truncated(fs, limit) + Truncated([f], limit)
  {
    if fs == [] {
      assert fs + [f] == [f];
    } else {
      TruncatedAppend(fs[1..], f, limit);
      assert (fs + [f])[1..] == fs[1..] + [f];
    }
  }

  lemma {:induction false} TruncatedCovers(fs: Frames, limit: nat, p: nat)
    requires p < limit
    ensures Total(Truncated(fs, limit), CoverAt(p)) == Total(fs, CoverAt(p))
  {
    if fs != [] {
      var f, rest := fs[0], Truncated(fs[1..], limit);
      TruncatedCovers(fs[1..], limit, p);
      if f.offset < limit {
        var g := Truncated(fs, limit)[0];
        assert Truncated(fs, limit) == [g] + rest;
        TotalConcat([g], rest, CoverAt(p));
      }
    }
  }

  lemma {:induction false} TruncatedCarry(fs: Frames, limit: nat, sent: seq<Byte>)
    requires Carry(fs, sent)
    ensures Carry(Truncated(fs, limit), sent)
  {
    if fs != [] {
      var f, rest := fs[0], Truncated(fs[1..], limit);
      TruncatedCarry(fs[1..], limit, sent);
      assert CarriesSlice(f, sent);
      if f.offset < limit {
        var g := Truncated(fs, limit)[0];
        assert CarriesSlice(g, sent);
        assert Truncated(fs, limit) == [g] + rest;
      }
    }
  }

  // Cutting keeps FINs at the end of the stream if and only if none crosses the limit. Otherwise
  // they mark the limit.
  lemma {:induction false} TruncatedFins(fs: Frames, limit: nat, finSent: bool, end: nat)
    requires FinLast(fs, finSent, end)
    ensures FinEither(Truncated(fs, limit), end, limit)
    ensures FinLast(Truncated(fs, limit), finSent, end) <==> !Crossing(fs, limit)
  {
    if fs != [] {
      var f, rest, cut := fs[0], fs[1..], Truncated(fs[1..], limit);
      TruncatedFins(rest, limit, finSent, end);
      assert Crossing(fs, limit) <==> Crosses(f, limit) || Crossing(rest, limit) by {
        if Crossing(rest, limit) {
          var i :| 0 <= i < |rest| && Crosses(rest[i], limit);
          assert Crosses(fs[i + 1], limit);
        }
        if Crossing(fs, limit) && !Crosses(f, limit) {
          var i :| 0 <= i < |fs| && Crosses(fs[i], limit);
          assert Crosses(rest[i - 1], limit);
        }
      }
      if f.offset < limit {
        var g := Truncated(fs, limit)[0];
        assert Truncated(fs, limit) == [g] + cut;
        assert FinLast([g] + cut, finSent, end) <==> FinLast(cut, finSent, end) && (g.fin ==> g.End() == end) by {
          assert FinLast([g] + cut, finSent, end) ==> forall i :: 0 <= i < |cut| ==> cut[i] == ([g] + cut)[i + 1];
        }
      }
    }
  }

  // Cutting the queue at limit keeps the books below it.
  lemma TruncateBooks(acked: Frames, inFlight: Frames, queue: Frames, sent: seq<Byte>, limit: nat, reliable: nat)
    requires Books(acked, inFlight, queue, sent, limit)
    ensures Books(acked, inFlight, Truncated(queue, reliable), sent, Min(limit, reliable))
  {
    TruncatedCarry(queue, reliable, sent);
    forall p: nat | p < Min(limit, reliable)
      ensures 1 ==
        Total(acked, CoverAt(p)) + Total(inFlight, CoverAt(p)) + Total(Truncated(queue, reliable), CoverAt(p))
    {
      TruncatedCovers(queue, reliable, p);
    }
  }

  // -------------------------------------------------------- moves, together

  lemma SendTracked(acked: Frames, inFlight: Frames, queue: Frames, sent: seq<Byte>, whole: bool, f: StreamFrame)
    requires Tracked(acked, inFlight, queue, sent, |sent|, whole, false)
    requires f.offset == |sent| && (f.data == [] ==> f.fin)
    ensures Tracked(acked, inFlight + [f], queue, sent + f.data, |sent| + |f.data|, whole, f.fin)
  {
    SendNew(acked, inFlight, queue, sent, f);
    if whole { SendNewFin(acked, inFlight, queue, |sent|, f); }
  }

  lemma AcknowledgeTracked(acked: Frames, inFlight: Frames, queue: Frames, sent: seq<Byte>, limit: nat, whole: bool,
                           finSent: bool, i: nat)
    requires i < |inFlight| && Tracked(acked, inFlight, queue, sent, limit, whole, finSent)
    ensures Tracked(acked + [inFlight[i]], Remove(inFlight, i), queue, sent, limit, whole, finSent)
  {
    Acknowledge(acked, inFlight, queue, sent, limit, i);
    if whole { AcknowledgeFin(acked, inFlight, queue, finSent, |sent|, i); }
  }

  // A frame lost by a stream that is not cut short is queued as it is.
  lemma RequeueTracked(acked: Frames, inFlight: Frames, queue: Frames, sent: seq<Byte>, limit: nat, whole: bool,
                       finSent: bool, i: nat, g: StreamFrame)
    requires i < |inFlight| && Tracked(acked, inFlight, queue, sent, limit, whole, finSent)
    requires g.offset == inFlight[i].offset && g.fin == inFlight[i].fin
    requires g.data == inFlight[i].data ||
      (!whole && g.data != [] && limit <= g.End() < inFlight[i].End() && g.data == inFlight[i].data[..|g.data|])
    ensures Tracked(acked, Remove(inFlight, i), queue + [g], sent, limit, whole, finSent)
  {
    assert CarriesSlice(inFlight[i], sent);
    assert CarriesSlice(g, sent) by {
      assert inFlight[i].data[..|g.data|] == sent[g.offset..g.End()];
    }
    Requeue(acked, inFlight, queue, sent, limit, i, g);
    if whole { RequeueFin(acked, inFlight, queue, finSent, |sent|, i, g); }
  }

  lemma RetransmitTracked(acked: Frames, inFlight: Frames, queue: Frames, sent: seq<Byte>, limit: nat, whole: bool,
                          finSent: bool)
    requires queue != [] && Tracked(acked, inFlight, queue, sent, limit, whole, finSent)
    ensures Tracked(acked, inFlight + [queue[0]], queue[1..], sent, limit, whole, finSent)
  {
    Retransmit(acked, inFlight, queue, sent, limit);
    if whole { RetransmitFin(acked, inFlight, queue, finSent, |sent|); }
  }

  lemma RetransmitPartTracked(acked: Frames, inFlight: Frames, queue: Frames, sent: seq<Byte>, limit: nat, whole: bool,
                              finSent: bool, first: StreamFrame, rest: StreamFrame)
    requires queue != [] && Tracked(acked, inFlight, queue, sent, limit, whole, finSent)
    requires first.data + rest.data == queue[0].data && first.data != [] && rest.data != []
    requires first.offset == queue[0].offset && rest.offset == first.End()
    requires !first.fin && rest.fin == queue[0].fin
    ensures Tracked(acked, inFlight + [first], queue[0 := rest], sent, limit, whole, finSent)
  {
    RetransmitPart(acked, inFlight, queue, sent, limit, first, rest);
    if whole {
      assert |queue[0].data| == |first.data| + |rest.data|;
      RetransmitPartFin(acked, inFlight, queue, finSent, |sent|, first, rest);
    }
  }

  // A stream cut short at reliable keeps what lies below.
  lemma TruncateTracked(acked: Frames, inFlight: Frames, queue: Frames, sent: seq<Byte>, limit: nat, finSent: bool,
                        reliable: nat)
    requires Tracked(acked, inFlight, queue, sent, limit, true, finSent)
    ensures Tracked(acked, inFlight, Truncated(queue, reliable), sent, Min(limit, reliable), false, finSent)
  {
    TruncateBooks(acked, inFlight, queue, sent, limit, reliable);
  }

  // Giving up on delivery: with limit 0 the books always balance.
  lemma DropTracked(acked: Frames, inFlight: Frames, queue: Frames, sent: seq<Byte>, limit: nat, whole: bool,
                    finSent: bool)
    requires Tracked(acked, inFlight, queue, sent, limit, whole, finSent)
    ensures Tracked(acked, inFlight, [], sent, 0, false, finSent)
  {
  }

  // A lost frame that is not needed any more.
  lemma ForgetTracked(acked: Frames, inFlight: Frames, queue: Frames, sent: seq<Byte>, limit: nat, finSent: bool,
                      i: nat)
    requires i < |inFlight| && Tracked(acked, inFlight, queue, sent, limit, false, finSent)
    requires limit <= inFlight[i].offset
    ensures Tracked(acked, Remove(inFlight, i), queue, sent, limit, false, finSent)
  {
    Forget(acked, inFlight, queue, sent, limit, i);
  }
}
