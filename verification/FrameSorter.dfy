// The receive-side reassembly buffer of a stream: a set of gaps and an
// offset-keyed map of frames, kept as an exact partition of the stream.
module FrameSorter {
  import opened Protocol

  // A done-callback is an identity; invoking it appends it to a log.
  type Callback = nat

  datatype Interval = Interval(start: nat, end: nat)

  datatype Entry = Entry(data: seq<Byte>, doneCb: Option<Callback>)

  datatype PushResult = Inserted | Duplicate | TooManyGaps

  type Queue = map<nat, Entry>

  const MIN_STREAM_FRAME_BUFFER_SIZE := 128
  const MAX_STREAM_FRAME_SORTER_GAPS := 20000

  // ---------------------------------------------------------------- meaning

  ghost predicate Holds(q: Queue, k: nat, p: nat) {
    k in q && k <= p < k + |q[k].data|
  }

  // Byte position p is queued.
  ghost predicate InQueue(q: Queue, p: nat) {
    exists k :: Holds(q, k, p)
  }

  // Byte position p is queued with value b.
  ghost predicate HasByte(q: Queue, p: nat, b: Byte) {
    exists k :: Holds(q, k, p) && q[k].data[p - k] == b
  }

  ghost predicate Within(g: Interval, p: nat) {
    g.start <= p < g.end
  }

  // Byte position p is still missing.
  ghost predicate InGap(gs: set<Interval>, p: nat) {
    exists g :: g in gs && Within(g, p)
  }

  ghost predicate QueueOk(q: Queue) {
    && (forall k :: k in q ==> 0 < |q[k].data| && k + |q[k].data| <= MAX_BYTE_COUNT)
    && (forall j, k :: j in q && k in q && j < k ==> j + |q[j].data| <= k)
  }

  // Gaps are non-empty and no two of them overlap or touch.
  ghost predicate GapsOk(gs: set<Interval>) {
    && (forall g :: g in gs ==> g.start < g.end <= MAX_BYTE_COUNT)
    && (forall g, h :: g in gs && h in gs && g != h ==> g.end < h.start || h.end < g.start)
  }

  // Every stream position is read, queued or missing, and only one of these.
  ghost predicate Partition(q: Queue, readPos: nat, gs: set<Interval>) {
    && (forall p: nat :: p < MAX_BYTE_COUNT ==> (InQueue(q, p) <==> readPos <= p && !InGap(gs, p)))
    && (forall p: nat :: InGap(gs, p) ==> readPos <= p)
  }

  ghost predicate WellFormed(q: Queue, readPos: nat, gs: set<Interval>) {
    && readPos <= MAX_BYTE_COUNT
    && QueueOk(q)
    && GapsOk(gs)
    && Partition(q, readPos, gs)
  }

  // All bytes queued are bytes of the stream S at their own offset.
  ghost predicate Agrees(q: Queue, S: nat -> Byte) {
    forall p: nat, b: Byte :: HasByte(q, p, b) ==> b == S(p)
  }

  // data is what the stream S carries from offset on.
  ghost predicate SliceOf(data: seq<Byte>, offset: nat, S: nat -> Byte) {
    forall i :: 0 <= i < |data| ==> data[i] == S(offset + i)
  }

  // gs is gs0 without the bytes of [lo, hi).
  ghost predicate Shrunk(gs0: set<Interval>, gs: set<Interval>, lo: nat, hi: nat) {
    && GapsOk(gs)
    && (forall p: nat :: InGap(gs, p) <==> InGap(gs0, p) && !(lo <= p < hi))
  }

  // Every byte of q was in q0 or comes from the frame, at its own offset.
  ghost predicate Provenance(q0: Queue, q: Queue, frame: seq<Byte>, offset: nat) {
    forall p: nat, b: Byte :: HasByte(q, p, b) ==>
      HasByte(q0, p, b) || (offset <= p < offset + |frame| && frame[p - offset] == b)
  }

  // ------------------------------------------------------------- callbacks

  function CbOf(cb: Option<Callback>): multiset<Callback> {
    if cb.Some? then multiset{cb.value} else multiset{}
  }

  ghost function AnyKey(q: Queue): (k: nat)
    requires |q| > 0
    ensures k in q
  {
    assert q != map[];
    var k :| k in q; k
  }

  // The callbacks held by queued entries.
  ghost function Held(q: Queue): multiset<Callback>
    decreases |q|
  {
    if |q| == 0 then multiset{} else
      CbOf(q[AnyKey(q)].doneCb) + Held(q - {AnyKey(q)})
  }

  // ... whatever the order in which they are counted.
  lemma {:induction false} HeldRemove(q: Queue, k: nat)
    requires k in q
    ensures Held(q) == CbOf(q[k].doneCb) + Held(q - {k})
    decreases |q|
  {
    var c := AnyKey(q);
    if c != k {
      var rest := q - {c, k};
      assert q - {c} - {k} == rest && q - {k} - {c} == rest;
      HeldRemove(q - {c}, k);
      HeldRemove(q - {k}, c);
    }
  }

  lemma Regroup(called: multiset<Callback>, cb: multiset<Callback>, held: multiset<Callback>,
                before: multiset<Callback>, given: multiset<Callback>)
    requires called + cb == before + given
    ensures called + (cb + held) == before + held + given
  {
    calc {
      called + (cb + held);
      called + cb + held;
      before + given + held;
      before + held + given;
    }
  }

  lemma HeldInsert(q: Queue, k: nat, e: Entry)
    requires k !in q
    ensures Held(q[k := e]) == CbOf(e.doneCb) + Held(q)
  {
    HeldRemove(q[k := e], k);
    assert q[k := e] - {k} == q;
  }

  // ------------------------------------------------- removing a byte range

  // q is q0 without the entries that start in [lo, hi).
  ghost predicate Removed(q0: Queue, q: Queue, lo: nat, hi: nat) {
    && (forall k :: k in q <==> k in q0 && !(lo <= k < hi))
    && (forall k :: k in q ==> q[k] == q0[k])
  }

  // No entry crosses a boundary of [lo, hi).
  ghost predicate Clean(q: Queue, lo: nat, hi: nat) {
    forall k :: k in q ==> k + |q[k].data| <= lo || (lo <= k && k + |q[k].data| <= hi) || hi <= k
  }

  // The entries of q starting in [lo, hi) tile it exactly.
  ghost predicate Tiles(q: Queue, lo: nat, hi: nat) {
    && lo <= hi
    && Clean(q, lo, hi)
    && (forall p: nat :: lo <= p < hi ==> InQueue(q, p))
  }

  // A push in progress that has emptied [lo, hi) and touched nothing else.
  ghost predicate Cleared(q0: Queue, gs0: set<Interval>, q: Queue, gs: set<Interval>, lo: nat, hi: nat) {
    && lo <= hi
    && Removed(q0, q, lo, hi)
    && Clean(q0, lo, hi)
    && GapsOk(gs)
    && (forall p: nat :: InGap(gs, p) <==> InGap(gs0, p) && !(lo <= p < hi))
  }

  lemma RemovedNothing(q: Queue, w: Queue, lo: nat)
    requires Removed(q, w, lo, lo)
    ensures w == q
  {
  }

  lemma RemovedInQueue(q: Queue, w: Queue, lo: nat, hi: nat)
    requires Clean(q, lo, hi) && QueueOk(q) && Removed(q, w, lo, hi)
    ensures forall p: nat :: InQueue(w, p) <==> InQueue(q, p) && !(lo <= p < hi)
  {
    forall p: nat
      ensures InQueue(w, p) <==> InQueue(q, p) && !(lo <= p < hi)
    {
      if InQueue(w, p) {
        var k :| Holds(w, k, p);
        assert Holds(q, k, p);
      }
      if InQueue(q, p) && !(lo <= p < hi) {
        var k :| Holds(q, k, p);
        assert Holds(w, k, p);
      }
    }
  }

  // ---------------------------------------------------------- gap algebra

  lemma GapOf(gs: set<Interval>, g: Interval, p: nat)
    requires g in gs && Within(g, p)
    ensures InGap(gs, p)
  {
  }

  // Deleting a gap removes exactly its bytes.
  lemma DropGap(gs: set<Interval>, g: Interval)
    requires GapsOk(gs) && g in gs
    ensures GapsOk(gs - {g})
    ensures forall p: nat :: InGap(gs - {g}, p) <==> InGap(gs, p) && !Within(g, p)
  {
    forall p: nat
      ensures InGap(gs - {g}, p) <==> InGap(gs, p) && !Within(g, p)
    {
      if InGap(gs, p) && !Within(g, p) {
        var h :| h in gs && Within(h, p);
        assert h in gs - {g};
      }
    }
  }

  // Replacing a gap by a non-empty part of it keeps exactly that part.
  lemma ShrinkGap(gs: set<Interval>, g: Interval, h: Interval)
    requires GapsOk(gs) && g in gs
    requires g.start <= h.start < h.end <= g.end
    ensures GapsOk(gs - {g} + {h})
    ensures forall p: nat :: InGap(gs - {g} + {h}, p) <==> InGap(gs, p) && (Within(g, p) ==> Within(h, p))
  {
    var n := gs - {g} + {h};
    forall p: nat
      ensures InGap(n, p) <==> InGap(gs, p) && (Within(g, p) ==> Within(h, p))
    {
      if InGap(n, p) {
        var i :| i in n && Within(i, p);
        if i == h { GapOf(gs, g, p); } else { GapOf(gs, i, p); }
      }
      if InGap(gs, p) && (Within(g, p) ==> Within(h, p)) {
        var i :| i in gs && Within(i, p);
        if i == g { GapOf(n, h, p); } else { GapOf(n, i, p); }
      }
    }
  }

  // Adding a gap that keeps clear of the others adds exactly its bytes.
  lemma AddGap(gs: set<Interval>, h: Interval)
    requires GapsOk(gs) && h.start < h.end <= MAX_BYTE_COUNT
    requires forall g :: g in gs ==> g.end < h.start || h.end < g.start
    ensures GapsOk(gs + {h})
    ensures forall p: nat :: InGap(gs + {h}, p) <==> InGap(gs, p) || Within(h, p)
  {
    forall p: nat
      ensures InGap(gs + {h}, p) <==> InGap(gs, p) || Within(h, p)
    {
      if InGap(gs, p) {
        var g :| g in gs && Within(g, p);
        GapOf(gs + {h}, g, p);
      }
      if Within(h, p) { GapOf(gs + {h}, h, p); }
    }
  }

  // ------------------------------------- how a push in progress moves on

  // [hi, e) was tiled by entries, which are now gone.
  lemma ClearTile(q0: Queue, gs0: set<Interval>, q: Queue, q1: Queue, gs: set<Interval>, lo: nat, hi: nat, e: nat)
    requires Cleared(q0, gs0, q, gs, lo, hi) && Tiles(q0, hi, e) && Removed(q, q1, hi, e)
    requires forall p: nat :: hi <= p < e ==> !InGap(gs0, p)
    ensures Cleared(q0, gs0, q1, gs, lo, e)
  {
  }

  // [hi, e) was missing, and the gap set gs1 no longer contains it.
  lemma ClearGap(q0: Queue, readPos: nat, gs0: set<Interval>, q: Queue, gs: set<Interval>, gs1: set<Interval>, lo: nat,
                 hi: nat, e: nat)
    requires WellFormed(q0, readPos, gs0)
    requires Cleared(q0, gs0, q, gs, lo, hi) && hi <= e
    requires forall p: nat :: hi <= p < e ==> InGap(gs0, p)
    requires GapsOk(gs1) && forall p: nat :: InGap(gs1, p) <==> InGap(gs, p) && !(hi <= p < e)
    ensures Cleared(q0, gs0, q, gs1, lo, e)
  {
    forall k | k in q0
      ensures !(hi <= k < e)
    {
      assert Holds(q0, k, k);
      assert InQueue(q0, k);
    }
  }

  // Filling the cleared range restores the partition.
  lemma Fill(q0: Queue, readPos: nat, gs0: set<Interval>, q: Queue, n: Queue, gs: set<Interval>, lo: nat, hi: nat,
             e: Entry)
    requires WellFormed(q0, readPos, gs0) && Cleared(q0, gs0, q, gs, lo, hi)
    requires readPos <= lo < hi == lo + |e.data| <= MAX_BYTE_COUNT
    requires n == q[lo := e]
    ensures lo !in q
    ensures WellFormed(n, readPos, gs) && Provenance(q0, n, e.data, lo)
  {
    RemovedInQueue(q0, q, lo, hi);
    forall p: nat
      ensures InQueue(n, p) <==> InQueue(q, p) || lo <= p < hi
    {
      if InQueue(q, p) {
        var k :| Holds(q, k, p);
        assert Holds(n, k, p);
      }
      if lo <= p < hi { assert Holds(n, lo, p); }
      if InQueue(n, p) {
        var k :| Holds(n, k, p);
        if k != lo { assert Holds(q, k, p); }
      }
    }
    FillProvenance(q0, q, n, lo, hi, e);
  }

  lemma FillProvenance(q0: Queue, q: Queue, n: Queue, lo: nat, hi: nat, e: Entry)
    requires Removed(q0, q, lo, hi) && n == q[lo := e]
    ensures Provenance(q0, n, e.data, lo)
  {
    forall p: nat, b: Byte | HasByte(n, p, b)
      ensures HasByte(q0, p, b) || (lo <= p < lo + |e.data| && e.data[p - lo] == b)
    {
      var k :| Holds(n, k, p) && n[k].data[p - k] == b;
      if k != lo { assert Holds(q0, k, p); }
    }
  }

  // Where a run of entries stops, the next byte is missing.
  lemma Frontier(q: Queue, readPos: nat, gs: set<Interval>, lo: nat, hi: nat)
    requires WellFormed(q, readPos, gs) && Clean(q, lo, hi) && lo < hi && readPos <= hi < MAX_BYTE_COUNT
    requires hi !in q
    ensures InGap(gs, hi)
  {
    if InQueue(q, hi) {
      var k :| Holds(q, k, hi);
    }
  }

  // ... so a run that starts after the previous gap stops at the next one.
  lemma RunEndsAtGap(q: Queue, readPos: nat, gs: set<Interval>, lo: nat, from: nat, hi: nat, target: nat)
    requires WellFormed(q, readPos, gs) && Clean(q, lo, hi) && lo < hi && readPos <= lo <= from <= hi
    requires hi !in q
    requires InGap(gs, target) && target < MAX_BYTE_COUNT
    requires from <= target && forall p: nat :: from <= p < target ==> !InGap(gs, p)
    requires forall p: nat :: from <= p < hi ==> !InGap(gs, p)
    ensures hi == target
  {
    if hi < target { Frontier(q, readPos, gs, lo, hi); }
  }

  // Between consecutive matched gaps nothing is missing, nor before the first or after the last.
  lemma NothingBetween(gs: set<Interval>, ms: seq<Interval>, start: nat, end: nat, i: nat)
    requires GapsOk(gs) && Matches(gs, ms, start, end) && i <= |ms|
    ensures forall p: nat ::
      start <= p < end && (i > 0 ==> ms[i - 1].end <= p) && (i < |ms| ==> p < ms[i].start) ==> !InGap(gs, p)
  {
    forall p: nat | start <= p < end && (i > 0 ==> ms[i - 1].end <= p) && (i < |ms| ==> p < ms[i].start)
      ensures !InGap(gs, p)
    {
      forall h | h in gs
        ensures !Within(h, p)
      {
        if Touches(h, start, end) { assert h in ms; }
      }
    }
  }

  lemma CleanAtGapEnd(q: Queue, readPos: nat, gs: set<Interval>, g: Interval)
    requires WellFormed(q, readPos, gs) && g in gs
    ensures Clean(q, g.end, g.end)
  {
    GapOf(gs, g, g.end - 1);
    forall k | k in q && k < g.end
      ensures k + |q[k].data| <= g.end
    {
      assert !Holds(q, k, g.end - 1);
    }
  }

  // The entries deleted after g, once g itself is cleared, reach the next matched gap.
  lemma ClearToNextGap(q0: Queue, readPos: nat, gs0: set<Interval>, q: Queue, q1: Queue, gs: set<Interval>,
                       ms: seq<Interval>, i: nat, start: nat, end: nat, lo: nat, e: nat)
    requires WellFormed(q0, readPos, gs0) && Matches(gs0, ms, start, end) && i + 1 < |ms|
    requires readPos <= lo && start <= lo < ms[i].end
    requires Cleared(q0, gs0, q, gs, lo, ms[i].end)
    requires Tiles(q, ms[i].end, e) && Removed(q, q1, ms[i].end, e) && e !in q1
    ensures Cleared(q0, gs0, q1, gs, lo, ms[i + 1].start)
  {
    var hi := ms[i].end;
    RemovedInQueue(q0, q, lo, hi);
    assert Tiles(q0, hi, e);
    ClearTile(q0, gs0, q, q1, gs, lo, hi, e);
    assert ms[i + 1] in gs0 && Touches(ms[i + 1], start, end);
    GapOf(gs0, ms[i + 1], ms[i + 1].start);
    NothingBetween(gs0, ms, start, end, i + 1);
    RunEndsAtGap(q0, readPos, gs0, lo, hi, e, ms[i + 1].start);
  }

  lemma CleanAtGapByte(q: Queue, readPos: nat, gs: set<Interval>, p: nat)
    requires WellFormed(q, readPos, gs) && InGap(gs, p)
    ensures Clean(q, p, p) && p !in q
  {
    var g :| g in gs && Within(g, p);
    forall k | k in q && k <= p
      ensures k + |q[k].data| <= p
    {
      assert !Holds(q, k, p);
    }
  }

  // Bytes queued under one entry are not missing.
  lemma EntryNotMissing(q: Queue, readPos: nat, gs: set<Interval>, k: nat)
    requires WellFormed(q, readPos, gs) && k in q
    ensures readPos <= k
    ensures forall p: nat :: k <= p < k + |q[k].data| ==> !InGap(gs, p)
  {
    assert Holds(q, k, k);
    assert InQueue(q, k);
    forall p: nat | k <= p < k + |q[k].data|
      ensures !InGap(gs, p)
    {
      assert Holds(q, k, p);
      assert InQueue(q, p);
    }
  }

  // An entry starts where a gap ends.
  lemma EntryAfterGap(q: Queue, readPos: nat, gs: set<Interval>, g: Interval)
    requires WellFormed(q, readPos, gs) && g in gs && g.end < MAX_BYTE_COUNT
    ensures g.end in q
  {
    CleanAtGapEnd(q, readPos, gs, g);
    GapOf(gs, g, g.start);
    assert !InGap(gs, g.end);
    assert InQueue(q, g.end);
    var k :| Holds(q, k, g.end);
  }

  // ------------------------------------------------------------ the sorter

  ghost predicate Touches(g: Interval, start: nat, end: nat) {
    g.start <= end && g.end >= start
  }

  // The gaps found for a frame: all that meet or touch it, in ascending order.
  ghost predicate Matches(gs0: set<Interval>, ms: seq<Interval>, start: nat, end: nat) {
    && (forall g :: g in ms <==> g in gs0 && Touches(g, start, end))
    && Ascending(ms)
  }

  // The gaps of ms from index i on are still in the tree.
  ghost predicate Pending(gs: set<Interval>, ms: seq<Interval>, i: nat) {
    forall j :: i <= j < |ms| ==> ms[j] in gs
  }

  // Behind the first of several gaps entries can be deleted, unless that was done already.
  lemma AtSecondGap(q0: Queue, readPos: nat, gs0: set<Interval>, q: Queue, gs: set<Interval>, ms: seq<Interval>,
                    start: nat, offset: nat, end: nat, hi: nat)
    requires WellFormed(q0, readPos, gs0) && Matches(gs0, ms, offset, end) && |ms| > 1 && start < hi
    requires Cleared(q0, gs0, q, gs, start, hi)
    requires hi == ms[0].end || start == ms[0].end
    ensures ms[0] in gs0 && ms[1] in gs0 && ms[0].end < ms[1].start < ms[1].end
    ensures QueueOk(q) && Clean(q, ms[0].end, ms[0].end) && !InQueue(q, start)
  {
    assert ms[0] in gs0 && ms[1] in gs0;
    CleanAtGapEnd(q0, readPos, gs0, ms[0]);
    RemovedInQueue(q0, q, start, hi);
  }

  // How the part [start, end) of a frame that is inserted, cleared up to hi, meets the first gap:
  // it begins at or before the gap, inside it, or at its end, over entries it replaced.
  ghost predicate FrontCase(ms: seq<Interval>, start: nat, end: nat, hi: nat, replaced: bool)
    requires |ms| > 0
  {
    || (start <= ms[0].start == hi < end)
    || (ms[0].start < start == hi < ms[0].end && !replaced)
    || (start == ms[0].end < hi && replaced && hi == if |ms| == 1 then end else ms[1].start)
  }

  // No gap comes near [lo, hi] from the right of lo.
  ghost predicate ClearOf(gs: set<Interval>, lo: nat, hi: nat) {
    forall g :: g in gs ==> g.end <= lo || hi < g.start
  }

  method Leftmost(gs: set<Interval>) returns (least: Interval)
    requires gs != {}
    ensures least in gs
    ensures forall g :: g in gs ==> least.start <= g.start
  {
    least :| least in gs;
    var todo := gs - {least};
    while todo != {}
      invariant least in gs && todo <= gs
      invariant forall g :: g in gs && g !in todo ==> least.start <= g.start
      decreases |todo|
    {
      var g :| g in todo;
      if g.start < least.start {
        least := g;
      }
      todo := todo - {g};
    }
  }

  ghost predicate Ascending(ms: seq<Interval>) {
    forall i, j :: 0 <= i < j < |ms| ==> ms[i].end < ms[j].start
  }

  // The in-order walk of the gap tree.
  method InOrder(gs: set<Interval>) returns (ms: seq<Interval>)
    requires GapsOk(gs)
    ensures (forall g :: g in ms <==> g in gs) && Ascending(ms)
    decreases |gs|
  {
    if gs == {} {
      return [];
    }
    var least := Leftmost(gs);
    var rest := InOrder(gs - {least});
    ConsAscending(gs, least, rest);
    ms := [least] + rest;
  }

  lemma ConsAscending(gs: set<Interval>, least: Interval, rest: seq<Interval>)
    requires GapsOk(gs) && least in gs && Ascending(rest)
    requires forall g :: g in gs ==> least.start <= g.start
    requires forall g :: g in rest ==> g in gs - {least}
    ensures Ascending([least] + rest)
  {
    var ms := [least] + rest;
    forall i, j | 0 <= i < j < |ms|
      ensures ms[i].end < ms[j].start
    {
      assert rest[j - 1] in rest;
      if i > 0 {
        assert ms[i] == rest[i - 1] && ms[j] == rest[j - 1];
      }
    }
  }

  class Sorter {
    var queue: Queue
    var readPos: nat
    var gapTree: set<Interval>
    var called: seq<Callback> // the callbacks invoked so far, in order

    ghost predicate Valid()
      reads this
    {
      WellFormed(queue, readPos, gapTree)
    }

    // Where every callback handed to the sorter is: queued or invoked.
    ghost function Ledger(): multiset<Callback>
      reads this
    {
      multiset(called) + Held(queue)
    }

    constructor ()
      ensures Valid()
      ensures queue == map[] && readPos == 0 && called == []
      ensures forall p: nat :: p < MAX_BYTE_COUNT ==> InGap(gapTree, p)
    {
      queue := map[];
      readPos := 0;
      gapTree := {Interval(0, MAX_BYTE_COUNT)};
      called := [];
      new;
      forall p: nat | p < MAX_BYTE_COUNT
        ensures InGap(gapTree, p)
      {
        GapOf(gapTree, Interval(0, MAX_BYTE_COUNT), p);
      }
    }

    // The gaps that meet or touch [start, end), as the gap tree lists them.
    method Match(start: nat, end: nat) returns (ms: seq<Interval>)
      requires Valid()
      ensures Matches(gapTree, ms, start, end)
    {
      ms := InOrder(set g | g in gapTree && g.start <= end && g.end >= start);
    }

    method Invoke(cb: Option<Callback>)
      modifies `called
      ensures called == old(called) + (if cb.Some? then [cb.value] else [])
      ensures multiset(called) == old(multiset(called)) + CbOf(cb)
    {
      if cb.Some? {
        called := called + [cb.value];
      }
    }

    // Removes the entry at pos and releases its buffer.
    method Discard(pos: nat)
      requires pos in queue
      modifies `queue, `called
      ensures queue == old(queue) - {pos}
      ensures Ledger() == old(Ledger())
    {
      HeldRemove(queue, pos);
      var cb := queue[pos].doneCb;
      queue := queue - {pos};
      Invoke(cb);
    }

    // Replaces entries that the new frame [start, end) covers, from its start on.
    // pos is where that stopped; dup says the frame adds nothing, cut that it must end at pos.
    method ReplaceCovered(start: nat, end: nat) returns (pos: nat, dup: bool, cut: bool)
      requires QueueOk(queue) && start < end
      modifies `queue, `called
      ensures Ledger() == old(Ledger())
      ensures start <= pos <= end
      ensures Removed(old(queue), queue, start, pos)
      ensures start < pos ==> Tiles(old(queue), start, pos)
      ensures dup ==> pos == start && start in queue && end <= start + |queue[start].data|
      ensures cut ==> start < pos && pos in queue && end < pos + |queue[pos].data|
      ensures !dup && !cut ==> pos !in queue
      ensures pos == start ==> unchanged(this) && (dup || start !in queue)
    {
      pos, dup, cut := start, false, false;
      while pos in queue
        invariant start <= pos <= end
        invariant Removed(old(queue), queue, start, pos)
        invariant start < pos ==> Tiles(old(queue), start, pos)
        invariant pos == start ==> unchanged(this)
        invariant Ledger() == old(Ledger())
        decreases |queue|
      {
        var oldLen := |queue[pos].data|;
        if end - pos > oldLen || (pos > start && end - pos == oldLen) {
          ghost var before := queue;
          Discard(pos);
          TileMore(old(queue), before, queue, start, pos);
          pos := pos + oldLen;
        } else {
          dup, cut := pos == start, pos > start;
          return;
        }
      }
    }

    // Deletes consecutive entries from pos on.
    method DeleteConsecutive(pos: nat) returns (ghost e: nat)
      requires QueueOk(queue) && Clean(queue, pos, pos)
      modifies `queue, `called
      ensures Ledger() == old(Ledger())
      ensures Tiles(old(queue), pos, e) && Removed(old(queue), queue, pos, e)
      ensures e !in queue
    {
      var at: nat := pos;
      while at in queue
        invariant Tiles(old(queue), pos, at)
        invariant Removed(old(queue), queue, pos, at)
        invariant Ledger() == old(Ledger())
        decreases |queue|
      {
        var oldLen := |queue[at].data|;
        ghost var before := queue;
        Discard(at);
        TileMore(old(queue), before, queue, pos, at);
        at := at + oldLen;
      }
      e := at;
    }

    // Takes the frame [start, end) out of the first gap. hi is how far [start, hi) is
    // cleared already; upTo is how far it is cleared afterwards.
    method TrimStartGap(ms: seq<Interval>, start: nat, end: nat, replaced: bool, ghost q0: Queue, ghost hi: nat)
      returns (adjusted: bool, ghost upTo: nat)
      requires |ms| > 0 && forall j :: 1 <= j < |ms| ==> ms[j] != ms[0]
      requires WellFormed(q0, readPos, gapTree) && Cleared(q0, gapTree, queue, gapTree, start, hi)
      requires ms[0] in gapTree && start < end
      requires
        || (start <= ms[0].start == hi < end)
        || (ms[0].start < start == hi < ms[0].end && !replaced)
        || (start == ms[0].end < hi && replaced)
      modifies `gapTree
      ensures Cleared(q0, old(gapTree), queue, gapTree, start, upTo)
      ensures adjusted == (ms[0].start < start && !replaced)
      ensures upTo == if start <= ms[0].start then Min(end, ms[0].end)
                      else if !replaced then ms[0].end else hi
      ensures old(Pending(gapTree, ms, 1)) ==> Pending(gapTree, ms, 1)
      ensures adjusted ==> ClearOf(gapTree, start, ms[0].end)
    {
      var startGap := ms[0];
      adjusted, upTo := false, hi;
      ghost var gs0 := gapTree;
      if start <= startGap.start {
        forall p: nat | Within(startGap, p) ensures InGap(gs0, p) { GapOf(gs0, startGap, p); }
        if end >= startGap.end {
          gapTree := gapTree - {startGap};
          DropGap(gs0, startGap);
          upTo := startGap.end;
        } else {
          gapTree := gapTree - {startGap} + {Interval(end, startGap.end)};
          ShrinkGap(gs0, startGap, Interval(end, startGap.end));
          upTo := end;
        }
        ClearGap(q0, readPos, gs0, queue, gs0, gapTree, start, hi, upTo);
      } else if !replaced {
        forall p: nat | Within(startGap, p) ensures InGap(gs0, p) { GapOf(gs0, startGap, p); }
        gapTree := gapTree - {startGap} + {Interval(startGap.start, start)};
        ShrinkGap(gs0, startGap, Interval(startGap.start, start));
        adjusted, upTo := true, startGap.end;
        ClearGap(q0, readPos, gs0, queue, gs0, gapTree, start, hi, upTo);
      }
    }

    // Deletes the gap ms[i] and the entries that follow it.
    method DeleteGapAndRun(ms: seq<Interval>, i: nat, ghost start: nat, ghost offset: nat, ghost end: nat,
                           ghost q0: Queue, ghost gs0: set<Interval>)
      requires WellFormed(q0, readPos, gs0) && Matches(gs0, ms, offset, end) && i + 1 < |ms|
      requires readPos <= start && offset <= start < ms[i].end
      requires Cleared(q0, gs0, queue, gapTree, start, ms[i].start)
      requires Pending(gapTree, ms, i)
      modifies `queue, `gapTree, `called
      ensures Cleared(q0, gs0, queue, gapTree, start, ms[i + 1].start)
      ensures Pending(gapTree, ms, i + 1) && start < ms[i + 1].end
      ensures Ledger() == old(Ledger())
    {
      var g := ms[i];
      assert g in gs0;
      ghost var q, gs := queue, gapTree;
      forall p: nat | Within(g, p) ensures InGap(gs0, p) { GapOf(gs0, g, p); }
      CleanAtGapEnd(q0, readPos, gs0, g);
      ghost var e := DeleteConsecutive(g.end);
      gapTree := gapTree - {g};
      DropGap(gs, g);
      ClearGap(q0, readPos, gs0, q, gs, gapTree, start, g.start, g.end);
      ClearToNextGap(q0, readPos, gs0, q, queue, gapTree, ms, i, offset, end, start, e);
    }

    // Deletes everything between the first and the last of several gaps.
    method DeleteBetween(ms: seq<Interval>, ghost start: nat, ghost offset: nat, ghost end: nat, ghost q0: Queue,
                         ghost gs0: set<Interval>, ghost hi: nat)
      requires WellFormed(q0, readPos, gs0) && Matches(gs0, ms, offset, end) && |ms| > 1
      requires readPos <= start && offset <= start < hi
      requires Cleared(q0, gs0, queue, gapTree, start, hi)
      requires hi == ms[0].end > start || (start == ms[0].end && hi == ms[1].start)
      requires Pending(gapTree, ms, 1)
      modifies `queue, `gapTree, `called
      ensures Cleared(q0, gs0, queue, gapTree, start, ms[|ms| - 1].start)
      ensures Pending(gapTree, ms, |ms| - 1)
      ensures Ledger() == old(Ledger())
    {
      DeleteAfterFirst(ms, start, offset, end, q0, gs0, hi);
      var i: nat := 1;
      while i < |ms| && ms[i].end < ms[|ms| - 1].start
        invariant 1 <= i < |ms| && start < ms[i].end
        invariant Cleared(q0, gs0, queue, gapTree, start, ms[i].start)
        invariant Pending(gapTree, ms, i)
        invariant Ledger() == old(Ledger())
        decreases |ms| - i
      {
        assert ms[|ms| - 1] in gs0;
        DeleteGapAndRun(ms, i, start, offset, end, q0, gs0);
        i := i + 1;
      }
    }

    // Deletes the entries between the first gap and the second.
    method DeleteAfterFirst(ms: seq<Interval>, ghost start: nat, ghost offset: nat, ghost end: nat, ghost q0: Queue,
                            ghost gs0: set<Interval>, ghost hi: nat)
      requires WellFormed(q0, readPos, gs0) && Matches(gs0, ms, offset, end) && |ms| > 1
      requires readPos <= start && offset <= start < hi
      requires Cleared(q0, gs0, queue, gapTree, start, hi)
      requires hi == ms[0].end > start || (start == ms[0].end && hi == ms[1].start)
      modifies `queue, `called
      ensures Cleared(q0, gs0, queue, gapTree, start, ms[1].start) && start < ms[1].end
      ensures Ledger() == old(Ledger())
    {
      hide WellFormed, Cleared, Matches, QueueOk, Clean;
      AtSecondGap(q0, readPos, gs0, queue, gapTree, ms, start, offset, end, hi);
      ghost var q := queue;
      ghost var e := DeleteConsecutive(ms[0].end);
      if hi == ms[0].end {
        ClearToNextGap(q0, readPos, gs0, q, queue, gapTree, ms, 0, offset, end, start, e);
      } else {
        RemovedNothing(q, queue, start);
      }
    }

    // Takes the frame out of the last gap, when that is not the first one.
    method TrimEndGap(endGap: Interval, start: nat, end: nat, ghost q0: Queue, ghost gs0: set<Interval>)
      requires WellFormed(q0, readPos, gs0) && endGap in gs0 && endGap in gapTree
      requires start < endGap.start <= end <= endGap.end
      requires Cleared(q0, gs0, queue, gapTree, start, endGap.start)
      modifies `gapTree
      ensures Cleared(q0, gs0, queue, gapTree, start, end)
    {
      ghost var gs := gapTree;
      forall p: nat | Within(endGap, p) ensures InGap(gs0, p) { GapOf(gs0, endGap, p); }
      if end == endGap.end {
        gapTree := gapTree - {endGap};
        DropGap(gs, endGap);
      } else {
        gapTree := gapTree - {endGap} + {Interval(end, endGap.end)};
        ShrinkGap(gs, endGap, Interval(end, endGap.end));
      }
      ClearGap(q0, readPos, gs0, queue, gs, gapTree, start, endGap.start, end);
    }

    // Lets the frame [offset, limit) replace or give way to entries at its front.
    // Unless dup, [start, end) is the part of it to insert, of which [start, hi) is cleared.
    method FitFront(ms: seq<Interval>, offset: nat, limit: nat)
      returns (dup: bool, start: nat, end: nat, wasCut: bool, replaced: bool, ghost hi: nat)
      requires Valid() && offset < limit <= MAX_BYTE_COUNT
      requires Matches(gapTree, ms, offset, limit) && |ms| > 0
      requires |ms| == 1 ==> ms[0].start < limit
      modifies `queue, `called
      ensures Ledger() == old(Ledger())
      ensures dup ==> unchanged(this) && forall p: nat :: offset <= p < limit ==> !InGap(gapTree, p)
      ensures !dup ==>
        && offset <= start < end <= limit && readPos <= start
        && Cleared(old(queue), gapTree, queue, gapTree, start, hi)
        && (end < limit ==> |ms| == 1 && start == ms[0].end)
        && (offset < start ==> start == ms[0].start)
        && FrontCase(ms, start, end, hi, replaced)
    {
      ghost var q0 := queue;
      var startGap := ms[0];
      start, end, wasCut := offset, limit, false;
      var startsInGap := start >= startGap.start && start <= startGap.end;
      var pos, cut;
      pos, dup, cut := ReplaceCovered(start, end);
      replaced := pos > start;
      hi := pos;
      assert startGap in gapTree;
      if |ms| > 1 { assert ms[1] in gapTree && Touches(ms[1], offset, limit); }
      if dup {
        EntryNotMissing(q0, readPos, gapTree, start);
        return;
      }
      if offset < startGap.start {
        FrontBeforeGap(q0, readPos, gapTree, ms, offset, limit, pos, cut);
      } else if offset < startGap.end {
        FrontInGap(q0, readPos, gapTree, startGap, offset, limit, pos, cut);
      } else {
        FrontAfterGap(q0, readPos, gapTree, ms, offset, limit, pos, cut);
      }
      ReplacedNotMissing(q0, readPos, gapTree, offset, limit, pos, cut);
      if cut {
        end := pos;
        wasCut := true;
      }
      if !startsInGap && !replaced {
        start := startGap.start;
        wasCut := true;
        hi := start;
      }
    }

    // Makes room for [start, limit0) in the gaps, and cuts it at the end of the last gap.
    method Occupy(ms: seq<Interval>, start: nat, limit: nat, replaced: bool, ghost offset: nat, ghost limit0: nat,
                  ghost q0: Queue, ghost hi: nat)
      returns (end: nat, wasCut: bool)
      requires WellFormed(q0, readPos, gapTree) && Matches(gapTree, ms, offset, limit0) && |ms| > 0
      requires readPos <= start && offset <= start < limit <= limit0 <= MAX_BYTE_COUNT
      requires limit < limit0 ==> |ms| == 1 && start == ms[0].end
      requires Cleared(q0, gapTree, queue, gapTree, start, hi)
      requires FrontCase(ms, start, limit, hi, replaced)
      modifies `queue, `gapTree, `called
      ensures Ledger() == old(Ledger())
      ensures start < end <= limit && (wasCut <==> end < limit)
      ensures Cleared(q0, old(gapTree), queue, gapTree, start, end)
      ensures forall p: nat :: end <= p < limit0 ==> !InGap(old(gapTree), p)
    {
      ghost var gs0 := gapTree;
      var startGap, endGap := ms[0], ms[|ms| - 1];
      assert startGap in gs0 && endGap in gs0 && Touches(endGap, offset, limit0);
      assert Pending(gs0, ms, 1);
      assert |ms| > 1 ==> startGap.end < ms[1].start <= endGap.start;
      assert GapsOk(gs0) && startGap.start < startGap.end && endGap.start < endGap.end;
      NothingBetween(gs0, ms, offset, limit0, |ms|);
      hide Cleared, WellFormed, Matches, GapsOk, InGap, Pending, ClearOf;
      var endsInGap := limit >= endGap.start && limit < endGap.end;
      end, wasCut := limit, false;
      var adjusted;
      ghost var upTo;
      adjusted, upTo := TrimStartGap(ms, start, end, replaced, q0, hi);
      if !endsInGap && start != endGap.end && end > endGap.end {
        end := endGap.end;
        wasCut := true;
      }
      if |ms| > 1 {
        ReachEndGap(ms, start, end, offset, limit0, q0, gs0, upTo);
      } else if end != endGap.end && adjusted {
        SplitGap(startGap, start, end, q0, gs0);
      }
    }

    // Deletes what lies between several gaps and takes the frame out of the last one.
    method ReachEndGap(ms: seq<Interval>, start: nat, end: nat, ghost offset: nat, ghost limit0: nat, ghost q0: Queue,
                       ghost gs0: set<Interval>, ghost hi: nat)
      requires WellFormed(q0, readPos, gs0) && Matches(gs0, ms, offset, limit0) && |ms| > 1
      requires readPos <= start && offset <= start < hi
      requires Cleared(q0, gs0, queue, gapTree, start, hi)
      requires hi == ms[0].end > start || (start == ms[0].end && hi == ms[1].start)
      requires Pending(gapTree, ms, 1)
      requires ms[|ms| - 1].start <= end <= ms[|ms| - 1].end
      modifies `queue, `gapTree, `called
      ensures Ledger() == old(Ledger())
      ensures Cleared(q0, gs0, queue, gapTree, start, end)
    {
      var endGap := ms[|ms| - 1];
      assert endGap in gs0 && start < endGap.start;
      hide Cleared, WellFormed, Matches;
      DeleteBetween(ms, start, offset, limit0, q0, gs0, hi);
      TrimEndGap(endGap, start, end, q0, gs0);
    }

    // The frame split its only gap into two: puts back the part after the frame.
    method SplitGap(startGap: Interval, start: nat, end: nat, ghost q0: Queue, ghost gs0: set<Interval>)
      requires WellFormed(q0, readPos, gs0) && startGap in gs0
      requires startGap.start < start < end < startGap.end
      requires Cleared(q0, gs0, queue, gapTree, start, startGap.end)
      requires ClearOf(gapTree, start, startGap.end)
      modifies `gapTree
      ensures Cleared(q0, gs0, queue, gapTree, start, end)
    {
      ghost var gs := gapTree;
      forall p: nat | Within(startGap, p) ensures InGap(gs0, p) { GapOf(gs0, startGap, p); }
      gapTree := gapTree + {Interval(end, startGap.end)};
      AddGap(gs, Interval(end, startGap.end));
      forall k | k in q0
        ensures !(start <= k < startGap.end)
      {
        EntryNotMissing(q0, readPos, gs0, k);
        assert Within(startGap, k) ==> InGap(gs0, k);
      }
    }

    // Inserts the frame [offset, offset + |frame|). On success its missing bytes, and no
    // others, stop being missing. After TooManyGaps the connection is closed.
    method PushFrame(frame: seq<Byte>, offset: nat, frameCb: Option<Callback>) returns (r: PushResult)
      requires Valid() && offset + |frame| <= MAX_BYTE_COUNT
      modifies `queue, `gapTree, `called
      ensures r.Duplicate? ==>
        unchanged(this) && forall p: nat :: offset <= p < offset + |frame| ==> !InGap(gapTree, p)
      ensures !r.Duplicate? ==> Shrunk(old(gapTree), gapTree, offset, offset + |frame|)
      ensures r.Inserted? ==>
        Valid() && Provenance(old(queue), queue, frame, offset) && Ledger() == old(Ledger()) + CbOf(frameCb)
      ensures r.Inserted? ==> |gapTree| <= MAX_STREAM_FRAME_SORTER_GAPS
      ensures r.TooManyGaps? ==> |gapTree| > MAX_STREAM_FRAME_SORTER_GAPS
    {
      if |frame| == 0 {
        return Duplicate;
      }
      var limit := offset + |frame|;
      var ms := Match(offset, limit);
      if |ms| == 0 {
        NothingBetween(gapTree, ms, offset, limit, 0);
        return Duplicate;
      }
      if |ms| == 1 && limit <= ms[0].start {
        NothingBetween(gapTree, ms, offset, limit, 0);
        return Duplicate;
      }
      r := Insert(ms, frame, offset, frameCb);
    }

    // PushFrame once the gaps the frame meets are known.
    method Insert(ms: seq<Interval>, frame: seq<Byte>, offset: nat, frameCb: Option<Callback>) returns (r: PushResult)
      requires Valid() && 0 < |frame| && offset + |frame| <= MAX_BYTE_COUNT
      requires Matches(gapTree, ms, offset, offset + |frame|) && |ms| > 0
      requires |ms| == 1 ==> ms[0].start < offset + |frame|
      modifies `queue, `gapTree, `called
      ensures r.Duplicate? ==>
        unchanged(this) && forall p: nat :: offset <= p < offset + |frame| ==> !InGap(gapTree, p)
      ensures !r.Duplicate? ==> Shrunk(old(gapTree), gapTree, offset, offset + |frame|)
      ensures r.Inserted? ==>
        Valid() && Provenance(old(queue), queue, frame, offset) && Ledger() == old(Ledger()) + CbOf(frameCb)
      ensures r.Inserted? ==> |gapTree| <= MAX_STREAM_FRAME_SORTER_GAPS
      ensures r.TooManyGaps? ==> |gapTree| > MAX_STREAM_FRAME_SORTER_GAPS
    {
      assert GapsOk(gapTree);
      hide WellFormed, Cleared, Provenance, Shrunk, GapsOk, Matches, FrontCase;
      var limit := offset + |frame|;
      ghost var q0, gs0 := queue, gapTree;
      var dup, start, end, wasCut, replaced;
      ghost var hi;
      dup, start, end, wasCut, replaced, hi := FitFront(ms, offset, limit);
      if dup {
        return Duplicate;
      }
      var cutBack;
      end, cutBack := Occupy(ms, start, end, replaced, offset, limit, q0, hi);
      FrameCleared(q0, gs0, queue, gapTree, ms, frame, offset, start, end);
      r := Place(frame, offset, start, end, wasCut || cutBack, frameCb, q0, gs0);
    }

    // Stores the part [start, end) of the frame.
    method Place(frame: seq<Byte>, offset: nat, start: nat, end: nat, wasCut: bool, frameCb: Option<Callback>,
                 ghost q0: Queue, ghost gs0: set<Interval>)
      returns (r: PushResult)
      requires WellFormed(q0, readPos, gs0) && Cleared(q0, gs0, queue, gapTree, start, end)
      requires readPos <= start && offset <= start < end <= offset + |frame| && end <= MAX_BYTE_COUNT
      modifies `queue, `called
      ensures !r.Duplicate?
      ensures r.Inserted? ==>
        Valid() && Provenance(q0, queue, frame, offset) && Ledger() == old(Ledger()) + CbOf(frameCb)
      ensures r.Inserted? <==> |gapTree| <= MAX_STREAM_FRAME_SORTER_GAPS
    {
      hide WellFormed, Cleared, Provenance;
      var data := frame[start - offset..end - offset];
      assert start + |data| == end;
      r := Store(data, start, wasCut, frameCb, q0, gs0);
      SliceProvenance(q0, queue, frame, offset, start, end);
    }

    // Short data that was cut off a frame is copied, so that the frame's buffer can be released.
    method ReleaseIfCopied(wasCut: bool, dataLen: nat, frameCb: Option<Callback>) returns (doneCb: Option<Callback>)
      modifies `called
      ensures multiset(called) + CbOf(doneCb) == old(multiset(called)) + CbOf(frameCb)
      ensures doneCb == if wasCut && dataLen < MIN_STREAM_FRAME_BUFFER_SIZE then None else frameCb
    {
      doneCb := frameCb;
      if wasCut && dataLen < MIN_STREAM_FRAME_BUFFER_SIZE {
        Invoke(doneCb);
        doneCb := None;
      }
    }

    // Puts the data of a frame into its cleared range.
    method Store(data: seq<Byte>, start: nat, wasCut: bool, frameCb: Option<Callback>, ghost q0: Queue,
                 ghost gs0: set<Interval>)
      returns (r: PushResult)
      requires WellFormed(q0, readPos, gs0) && Cleared(q0, gs0, queue, gapTree, start, start + |data|)
      requires readPos <= start && 0 < |data| && start + |data| <= MAX_BYTE_COUNT
      modifies `queue, `called
      ensures !r.Duplicate?
      ensures r.Inserted? ==>
        Valid() && Provenance(q0, queue, data, start) && Ledger() == old(Ledger()) + CbOf(frameCb)
      ensures r.Inserted? <==> |gapTree| <= MAX_STREAM_FRAME_SORTER_GAPS
    {
      hide WellFormed, Cleared, Provenance;
      ghost var invoked := multiset(called);
      var doneCb := ReleaseIfCopied(wasCut, |data|, frameCb);
      if |gapTree| > MAX_STREAM_FRAME_SORTER_GAPS {
        return TooManyGaps;
      }
      var filled := queue[start := Entry(data, doneCb)];
      Fill(q0, readPos, gs0, queue, filled, gapTree, start, start + |data|, Entry(data, doneCb));
      HeldInsert(queue, start, Entry(data, doneCb));
      Regroup(multiset(called), CbOf(doneCb), Held(queue), invoked, CbOf(frameCb));
      queue := filled;
      return Inserted;
    }

    // What a caller sees: a duplicate is no error, its buffer is released at once.
    method Push(frame: seq<Byte>, offset: nat, doneCb: Option<Callback>) returns (ok: bool)
      requires Valid() && offset + |frame| <= MAX_BYTE_COUNT
      modifies `queue, `gapTree, `called
      ensures Shrunk(old(gapTree), gapTree, offset, offset + |frame|)
      ensures ok ==> Valid() && Provenance(old(queue), queue, frame, offset)
      ensures ok ==> Ledger() == old(Ledger()) + CbOf(doneCb)
      ensures !ok ==> |gapTree| > MAX_STREAM_FRAME_SORTER_GAPS
    {
      var r := PushFrame(frame, offset, doneCb);
      if r.Duplicate? {
        Invoke(doneCb);
        return true;
      }
      return r.Inserted?;
    }

    // Takes the next bytes in stream order. Something comes back exactly when the next byte is queued.
    method Pop() returns (offset: nat, data: seq<Byte>, doneCb: Option<Callback>)
      requires Valid()
      modifies `queue, `readPos
      ensures Valid()
      ensures offset == old(readPos) && readPos == offset + |data|
      ensures data != [] <==> old(InQueue(queue, readPos))
      ensures forall i :: 0 <= i < |data| ==> old(HasByte(queue, offset + i, data[i]))
      ensures forall p: nat, b: Byte :: HasByte(queue, p, b) <==> old(HasByte(queue, p, b)) && readPos <= p
      ensures Ledger() + CbOf(doneCb) == old(Ledger())
    {
      hide WellFormed, InQueue, HasByte;
      offset := readPos;
      if readPos !in queue {
        PopNothing(queue, readPos, gapTree);
        return readPos, [], None;
      }
      var entry := queue[readPos];
      HeldRemove(queue, readPos);
      ghost var q0 := queue;
      queue := queue - {readPos};
      readPos := readPos + |entry.data|;
      PopEntry(q0, queue, offset, readPos, gapTree);
      return offset, entry.data, entry.doneCb;
    }

    method HasMoreData() returns (more: bool)
      requires Valid()
      ensures more <==> exists p: nat :: InQueue(queue, p)
    {
      more := |queue| > 0;
      if more {
        ghost var k := AnyKey(queue);
        assert Holds(queue, k, k);
        assert InQueue(queue, k);
      }
    }

    // Reads n bytes from offset without taking them. Possible exactly when an entry starts there
    // and all n bytes are queued.
    method Peek(offset: nat, n: nat) returns (ok: bool, out: seq<Byte>)
      requires Valid()
      ensures ok <==> n == 0 || (offset in queue && forall p: nat :: offset <= p < offset + n ==> InQueue(queue, p))
      ensures ok ==> |out| == n && forall i :: 0 <= i < n ==> HasByte(queue, offset + i, out[i])
    {
      if n == 0 {
        return true, [];
      }
      var pos: nat, remaining: nat := offset, n;
      while remaining > 0
        invariant pos + remaining == offset + n
        invariant offset < pos ==> Tiles(queue, offset, pos) && offset in queue && 0 < remaining
        decreases remaining
      {
        if pos !in queue {
          assert offset < pos ==> !InQueue(queue, pos);
          return false, [];
        }
        TileExtend(queue, offset, pos);
        if remaining <= |queue[pos].data| {
          break;
        }
        remaining := remaining - |queue[pos].data|;
        pos := pos + |queue[pos].data|;
      }
      out := Copy(offset, n, pos);
      ok := true;
    }

    // Copies n bytes from offset on; last is the entry that holds the last of them.
    method Copy(offset: nat, n: nat, ghost last: nat) returns (out: seq<Byte>)
      requires QueueOk(queue) && 0 < n
      requires last in queue && offset <= last < offset + n <= last + |queue[last].data|
      requires offset in queue && (offset < last ==> Tiles(queue, offset, last))
      ensures |out| == n && forall i :: 0 <= i < n ==> HasByte(queue, offset + i, out[i])
    {
      out := [];
      var pos: nat := offset;
      while |out| < n
        invariant offset <= pos && |out| == Min(n, pos - offset)
        invariant pos <= last ==> pos in queue
        invariant pos <= last || offset + n <= pos
        invariant forall i :: 0 <= i < |out| ==> HasByte(queue, offset + i, out[i])
        decreases n - |out|
      {
        var data := queue[pos].data;
        var m := Min(n - |out|, |data|);
        forall i | 0 <= i < m
          ensures HasByte(queue, pos + i, data[i])
        {
          assert Holds(queue, pos, pos + i);
        }
        if pos < last { NextEntry(queue, offset, pos, last); }
        out := out + data[..m];
        pos := pos + |data|;
      }
    }
  }

  // Entries that tile a range follow one another.
  lemma NextEntry(q: Queue, lo: nat, k: nat, hi: nat)
    requires QueueOk(q) && Tiles(q, lo, hi) && k in q && lo <= k < hi && hi in q
    ensures k + |q[k].data| <= hi && k + |q[k].data| in q
  {
    var next := k + |q[k].data|;
    if next < hi {
      assert InQueue(q, next);
      var j :| Holds(q, j, next);
    }
  }

  lemma PopNothing(q: Queue, readPos: nat, gs: set<Interval>)
    requires WellFormed(q, readPos, gs) && readPos !in q
    ensures !InQueue(q, readPos)
    ensures forall p: nat, b: Byte :: HasByte(q, p, b) ==> readPos <= p
  {
    QueuedAfterRead(q, readPos, gs);
    if InQueue(q, readPos) {
      var k :| Holds(q, k, readPos);
      EntryNotMissing(q, readPos, gs, k);
    }
  }

  lemma QueuedAfterRead(q: Queue, readPos: nat, gs: set<Interval>)
    requires WellFormed(q, readPos, gs)
    ensures forall p: nat, b: Byte :: HasByte(q, p, b) ==> readPos <= p
  {
    forall p: nat, b: Byte | HasByte(q, p, b)
      ensures readPos <= p
    {
      var k :| Holds(q, k, p) && q[k].data[p - k] == b;
      assert InQueue(q, p);
    }
  }

  lemma PopEntry(q0: Queue, q: Queue, offset: nat, readPos: nat, gs: set<Interval>)
    requires WellFormed(q0, offset, gs) && offset in q0 && q == q0 - {offset}
    requires readPos == offset + |q0[offset].data|
    ensures WellFormed(q, readPos, gs) && InQueue(q0, offset) && 0 < |q0[offset].data|
    ensures forall i :: 0 <= i < |q0[offset].data| ==> HasByte(q0, offset + i, q0[offset].data[i])
    ensures forall p: nat, b: Byte :: HasByte(q, p, b) <==> HasByte(q0, p, b) && readPos <= p
  {
    assert Holds(q0, offset, offset);
    forall i | 0 <= i < |q0[offset].data|
      ensures HasByte(q0, offset + i, q0[offset].data[i])
    {
      assert Holds(q0, offset, offset + i);
    }
    EntryNotMissing(q0, offset, gs, offset);
    forall k | k in q0
      ensures offset <= k
    {
      EntryNotMissing(q0, offset, gs, k);
    }
    forall p: nat
      ensures InQueue(q, p) <==> InQueue(q0, p) && readPos <= p
    {
      if InQueue(q, p) {
        var k :| Holds(q, k, p);
        assert Holds(q0, k, p);
      }
      if InQueue(q0, p) && readPos <= p {
        var k :| Holds(q0, k, p);
        assert Holds(q, k, p);
      }
    }
    forall p: nat, b: Byte
      ensures HasByte(q, p, b) <==> HasByte(q0, p, b) && readPos <= p
    {
      if HasByte(q, p, b) {
        var k :| Holds(q, k, p) && q[k].data[p - k] == b;
        assert Holds(q0, k, p);
      }
      if HasByte(q0, p, b) && readPos <= p {
        var k :| Holds(q0, k, p) && q0[k].data[p - k] == b;
        assert Holds(q, k, p);
      }
    }
  }

  // Clearing the part of a frame that is inserted takes all its bytes out of the gaps.
  lemma FrameCleared(q0: Queue, gs0: set<Interval>, q: Queue, gs: set<Interval>, ms: seq<Interval>, frame: seq<Byte>,
                     offset: nat, start: nat, end: nat)
    requires GapsOk(gs0) && Cleared(q0, gs0, q, gs, start, end) && offset <= start < end <= offset + |frame|
    requires Matches(gs0, ms, offset, offset + |frame|) && |ms| > 0
    requires offset < start ==> start == ms[0].start
    requires forall p: nat :: end <= p < offset + |frame| ==> !InGap(gs0, p)
    ensures Shrunk(gs0, gs, offset, offset + |frame|)
  {
    NothingBetween(gs0, ms, offset, offset + |frame|, 0);
  }

  lemma SliceProvenance(q0: Queue, q: Queue, frame: seq<Byte>, offset: nat, start: nat, end: nat)
    requires offset <= start <= end <= offset + |frame|
    ensures Provenance(q0, q, frame[start - offset..end - offset], start) ==> Provenance(q0, q, frame, offset)
  {
  }

  // Replacing the entries at the front of [offset, limit), up to pos.
  ghost predicate Replaced(q: Queue, offset: nat, limit: nat, pos: nat, cut: bool) {
    && offset <= pos <= limit
    && (offset < pos ==> Tiles(q, offset, pos))
    && (cut ==> offset < pos && pos in q && limit < pos + |q[pos].data|)
    && (!cut ==> pos !in q)
  }

  lemma ReplacedNotMissing(q: Queue, readPos: nat, gs: set<Interval>, offset: nat, limit: nat, pos: nat, cut: bool)
    requires WellFormed(q, readPos, gs) && Replaced(q, offset, limit, pos, cut)
    ensures forall p: nat :: offset <= p < pos ==> !InGap(gs, p)
    ensures offset < pos ==> readPos <= offset
    ensures cut ==> forall p: nat :: pos <= p <= limit ==> !InGap(gs, p)
  {
    if offset < pos { assert InQueue(q, offset); }
    if cut { EntryNotMissing(q, readPos, gs, pos); }
  }

  // A frame that starts before its first gap replaces entries up to that gap, or none.
  lemma FrontBeforeGap(q: Queue, readPos: nat, gs: set<Interval>, ms: seq<Interval>, offset: nat, limit: nat, pos: nat,
                       cut: bool)
    requires WellFormed(q, readPos, gs) && Replaced(q, offset, limit, pos, cut)
    requires Matches(gs, ms, offset, limit) && |ms| > 0 && offset < ms[0].start < limit <= MAX_BYTE_COUNT
    ensures !cut && (offset < pos ==> pos == ms[0].start)
    ensures readPos <= ms[0].start && Clean(q, ms[0].start, ms[0].start)
  {
    assert ms[0] in gs;
    GapOf(gs, ms[0], ms[0].start);
    CleanAtGapByte(q, readPos, gs, ms[0].start);
    ReplacedNotMissing(q, readPos, gs, offset, limit, pos, cut);
    if offset < pos && !cut {
      NothingBetween(gs, ms, offset, limit, 0);
      RunEndsAtGap(q, readPos, gs, offset, offset, pos, ms[0].start);
    }
  }

  // A frame that starts inside a gap replaces nothing.
  lemma FrontInGap(q: Queue, readPos: nat, gs: set<Interval>, g: Interval, offset: nat, limit: nat, pos: nat, cut: bool)
    requires WellFormed(q, readPos, gs) && Replaced(q, offset, limit, pos, cut) && g in gs && Within(g, offset)
    ensures pos == offset && !cut && Clean(q, offset, offset) && readPos <= offset
  {
    GapOf(gs, g, offset);
    CleanAtGapByte(q, readPos, gs, offset);
    ReplacedNotMissing(q, readPos, gs, offset, limit, pos, cut);
  }

  // A frame that starts at the end of its first gap replaces entries up to the next gap, or its own end.
  lemma FrontAfterGap(q: Queue, readPos: nat, gs: set<Interval>, ms: seq<Interval>, offset: nat, limit: nat, pos: nat,
                      cut: bool)
    requires WellFormed(q, readPos, gs) && Replaced(q, offset, limit, pos, cut)
    requires Matches(gs, ms, offset, limit) && |ms| > 0 && offset == ms[0].end < limit <= MAX_BYTE_COUNT
    ensures offset < pos
    ensures |ms| == 1 ==> cut || pos == limit
    ensures |ms| > 1 ==> !cut && pos == ms[1].start
  {
    assert ms[0] in gs;
    EntryAfterGap(q, readPos, gs, ms[0]);
    NothingBetween(gs, ms, offset, limit, 1);
    ReplacedNotMissing(q, readPos, gs, offset, limit, pos, cut);
    if |ms| == 1 {
      if !cut && pos < limit { Frontier(q, readPos, gs, offset, pos); }
    } else {
      assert ms[1] in gs && Touches(ms[1], offset, limit);
      GapOf(gs, ms[1], ms[1].start);
      if !cut { RunEndsAtGap(q, readPos, gs, offset, offset, pos, ms[1].start); }
    }
  }

  // A tiling extends over the next entry.
  lemma TileExtend(q: Queue, lo: nat, at: nat)
    requires QueueOk(q) && at in q && lo <= at
    requires lo < at ==> Tiles(q, lo, at)
    ensures Tiles(q, lo, at + |q[at].data|)
  {
    forall p: nat | at <= p < at + |q[at].data|
      ensures InQueue(q, p)
    {
      assert Holds(q, at, p);
    }
  }

  lemma TileMore(q: Queue, w: Queue, w1: Queue, lo: nat, at: nat)
    requires QueueOk(q) && at in q && lo <= at
    requires lo < at ==> Tiles(q, lo, at)
    requires Removed(q, w, lo, at) && w1 == w - {at}
    ensures Tiles(q, lo, at + |q[at].data|)
    ensures Removed(q, w1, lo, at + |q[at].data|)
  {
    TileExtend(q, lo, at);
  }
}
