// Path MTU discovery: a search that tolerates the loss of probe packets.
module Mtu {
  import opened Protocol

  const MAX_MTU_DIFF := 20
  const INVALID := -1

  // ------------------------------------------------- the list of lost sizes

  // Up to three sizes in ascending order, none below min, then INVALID. The last is the ceiling.
  ghost predicate Sorted(l: seq<int>, min: nat) {
    && |l| == 3
    && min <= l[0]
    && (l[1] == INVALID || l[0] <= l[1])
    && (l[2] == INVALID || (l[1] != INVALID && l[1] <= l[2]))
  }

  function Ceiling(l: seq<int>): int
    requires |l| == 3
  {
    if l[1] == INVALID then l[0] else if l[2] == INVALID then l[1] else l[2]
  }

  // The list without the sizes up to size.
  function Dropped(l: seq<int>, size: int): seq<int>
    requires |l| == 3
  {
    if size < l[0] then l
    else if size < l[1] then [l[1], l[2], INVALID]
    else if size < l[2] then [l[2], INVALID, INVALID]
    else l
  }

  // The list with size added before the first larger one; a full list loses its last.
  function Inserted(l: seq<int>, size: int): seq<int>
    requires |l| == 3
  {
    if size < l[0] then [size, l[0], l[1]]
    else if size < l[1] then [l[0], size, l[1]]
    else if size < l[2] then [l[0], l[1], size]
    else l
  }

  // -------------------------------------------------------- termination rank

  ghost function CeilingCopies(l: seq<int>): nat
    requires |l| == 3
  {
    (if l[0] == Ceiling(l) then 1 else 0)
    + (if l[1] == Ceiling(l) then 1 else 0) + (if l[2] == Ceiling(l) then 1 else 0)
  }

  ghost function Above(l: seq<int>, min: nat): nat
    requires |l| == 3
  {
    (if l[0] > min then 1 else 0) + (if l[1] > min then 1 else 0) + (if l[2] > min then 1 else 0)
  }

  ghost function Empty(l: seq<int>): nat
    requires |l| == 3
  {
    (if l[1] == INVALID then 1 else 0) + (if l[2] == INVALID then 1 else 0)
  }

  // An acknowledged probe moves min up, or follows a loss when there was no room to move.
  lemma AckedRank(l: seq<int>, min: nat, wasLost: bool, size: nat)
    requires Sorted(l, min) && min <= size < Ceiling(l) && (size == min ==> wasLost)
    ensures Sorted(Dropped(l, size), size) && Ceiling(Dropped(l, size)) == Ceiling(l)
    ensures size == min ==>
      CeilingCopies(Dropped(l, size)) == CeilingCopies(l) && Above(Dropped(l, size), size) == Above(l, min)
  {
  }

  // A lost probe lowers the ceiling, or takes up a place in the list.
  lemma LostRank(l: seq<int>, min: nat, wasLost: bool, size: nat)
    requires Sorted(l, min) && min <= size < Ceiling(l) && (size == min ==> wasLost)
    ensures Sorted(Inserted(l, size), min) && size <= Ceiling(Inserted(l, size)) <= Ceiling(l)
    ensures
      || Ceiling(Inserted(l, size)) < Ceiling(l)
      || CeilingCopies(Inserted(l, size)) < CeilingCopies(l)
      || (CeilingCopies(Inserted(l, size)) == CeilingCopies(l) &&
            (if size > min then Above(Inserted(l, size), min) > Above(l, min)
             else Above(Inserted(l, size), min) == Above(l, min) && Empty(Inserted(l, size)) < Empty(l)))
  {
  }

  // ----------------------------------------------------------------- history

  // Three different lost probes were no larger than c.
  ghost predicate Thrice(lost: seq<nat>, c: int) {
    exists i, j, k ::
      0 <= i < |lost| && 0 <= j < |lost| && 0 <= k < |lost| && i != j && j != k && i != k
      && lost[i] <= c && lost[j] <= c && lost[k] <= c
  }

  // Each size in the list is that of a lost probe of its own, ids says which, or the initial ceiling top.
  ghost predicate Traced(l: seq<int>, ids: seq<int>, lost: seq<nat>, top: nat) {
    && |l| == |ids| == 3
    && (forall i :: 0 <= i < 3 && l[i] != INVALID ==>
          (ids[i] == -1 && l[i] == top) || (0 <= ids[i] < |lost| && lost[ids[i]] == l[i]))
    && (forall i, j :: 0 <= i < j < 3 && l[i] != INVALID && l[j] != INVALID ==> ids[i] != ids[j])
  }

  ghost function DroppedIds(l: seq<int>, ids: seq<int>, size: int): seq<int>
    requires |l| == |ids| == 3
  {
    if size < l[0] then ids
    else if size < l[1] then [ids[1], ids[2], -1]
    else if size < l[2] then [ids[2], -1, -1]
    else ids
  }

  ghost function InsertedIds(l: seq<int>, ids: seq<int>, size: int, id: int): seq<int>
    requires |l| == |ids| == 3
  {
    if size < l[0] then [id, ids[0], ids[1]]
    else if size < l[1] then [ids[0], id, ids[1]]
    else if size < l[2] then [ids[0], ids[1], id]
    else ids
  }

  // The ceiling has left its initial value only after three losses at or below it.
  ghost predicate Justified(l: seq<int>, lost: seq<nat>, top: nat)
    requires |l| == 3
  {
    Ceiling(l) == top || Thrice(lost, Ceiling(l))
  }

  lemma DropKeepsHistory(l: seq<int>, ids: seq<int>, lost: seq<nat>, top: nat, min: nat, size: nat)
    requires Sorted(l, min) && min <= size < Ceiling(l) && Traced(l, ids, lost, top) && Justified(l, lost, top)
    ensures Traced(Dropped(l, size), DroppedIds(l, ids, size), lost, top) && Justified(Dropped(l, size), lost, top)
  {
  }

  lemma InsertKeepsHistory(l: seq<int>, ids: seq<int>, lost: seq<nat>, top: nat, min: nat, size: nat)
    requires Sorted(l, min) && min <= size < Ceiling(l) <= top && Traced(l, ids, lost, top) && Justified(l, lost, top)
    ensures Traced(Inserted(l, size), InsertedIds(l, ids, size, |lost|), lost + [size], top)
    ensures Justified(Inserted(l, size), lost + [size], top)
  {
    InsertIsTraced(l, ids, lost, top, min, size);
    if l[2] == INVALID {
      KeepsCeiling(l, min, size);
      hide Traced, Sorted, Inserted, InsertedIds, Ceiling;
      MoreIsJustified(l, Inserted(l, size), lost, size, top);
    } else {
      var m, more, at := Inserted(l, size), lost + [size], InsertedIds(l, ids, size, |lost|);
      hide InsertedIds;
      assert Ceiling(m) != top ==> more[at[0]] == m[0] && more[at[1]] == m[1] && more[at[2]] == m[2];
    }
  }

  lemma InsertIsTraced(l: seq<int>, ids: seq<int>, lost: seq<nat>, top: nat, min: nat, size: nat)
    requires Sorted(l, min) && min <= size < Ceiling(l) <= top && Traced(l, ids, lost, top)
    ensures Traced(Inserted(l, size), InsertedIds(l, ids, size, |lost|), lost + [size], top)
  {
    assert forall i :: 0 <= i < |lost| ==> (lost + [size])[i] == lost[i];
  }

  // As long as there is room, no loss is forgotten.
  lemma KeepsCeiling(l: seq<int>, min: nat, size: nat)
    requires Sorted(l, min) && min <= size < Ceiling(l) && l[2] == INVALID
    ensures Ceiling(Inserted(l, size)) == Ceiling(l)
  {
  }

  lemma MoreIsJustified(l: seq<int>, m: seq<int>, lost: seq<nat>, size: nat, top: nat)
    requires |l| == 3 && |m| == 3 && Ceiling(m) == Ceiling(l) && Justified(l, lost, top)
    ensures Justified(m, lost + [size], top)
  {
    hide Ceiling;
    var more := lost + [size];
    if Ceiling(m) != top {
      var i, j, k :| 0 <= i < |lost| && 0 <= j < |lost| && 0 <= k < |lost| && i != j && j != k && i != k
        && lost[i] <= Ceiling(l) && lost[j] <= Ceiling(l) && lost[k] <= Ceiling(l);
      assert more[i] <= Ceiling(m) && more[j] <= Ceiling(m) && more[k] <= Ceiling(m);
    }
  }

  // ------------------------------------------------------------------ finder

  // The state of a search that began with sizes from start to top.
  ghost predicate SearchOk(l: seq<int>, inFlight: int, min: nat, lastProbeWasLost: bool, start: nat, top: nat,
                           ids: seq<int>, acked: seq<nat>, lost: seq<nat>)
  {
    && |l| == 3
    && start <= min
    && (min == start || min in acked)
    && (forall i :: 0 <= i < |acked| ==> acked[i] <= min)
    && (if start > top then l == [top, INVALID, INVALID] && min == start && inFlight == INVALID
        else
          && Sorted(l, min) && Ceiling(l) <= top
          && Traced(l, ids, lost, top) && Justified(l, lost, top)
          && (inFlight != INVALID ==> min <= inFlight < Ceiling(l) && (inFlight == min ==> lastProbeWasLost)))
  }

  lemma InFlightIsSize(l: seq<int>, inFlight: int, min: nat, lastProbeWasLost: bool, start: nat, top: nat,
                       ids: seq<int>, acked: seq<nat>, lost: seq<nat>)
    requires SearchOk(l, inFlight, min, lastProbeWasLost, start, top, ids, acked, lost)
    ensures inFlight != INVALID ==> 0 <= inFlight
  {
  }

  lemma AckedOk(l: seq<int>, size: nat, min: nat, lastProbeWasLost: bool, start: nat, top: nat, ids: seq<int>,
                acked: seq<nat>, lost: seq<nat>)
    requires SearchOk(l, size, min, lastProbeWasLost, start, top, ids, acked, lost)
    ensures |ids| == 3 && min <= size < Ceiling(l)
    ensures SearchOk(Dropped(l, size), INVALID, size, false, start, top, DroppedIds(l, ids, size), acked + [size], lost)
  {
    hide Justified, Sorted, Ceiling, Dropped, DroppedIds;
    DropKeepsHistory(l, ids, lost, top, min, size);
    AckedRank(l, min, lastProbeWasLost, size);
  }

  lemma LostOk(l: seq<int>, size: nat, min: nat, lastProbeWasLost: bool, start: nat, top: nat, ids: seq<int>,
               acked: seq<nat>, lost: seq<nat>)
    requires SearchOk(l, size, min, lastProbeWasLost, start, top, ids, acked, lost)
    ensures |ids| == 3 && min <= size < Ceiling(l)
    ensures SearchOk(Inserted(l, size), INVALID, min, true, start, top, InsertedIds(l, ids, size, |lost|), acked,
                     lost + [size])
  {
    hide Justified, Sorted, Ceiling, Inserted, InsertedIds;
    InsertKeepsHistory(l, ids, lost, top, min, size);
    LostRank(l, min, lastProbeWasLost, size);
  }

  class Finder {
    var inFlight: int // the size of the probe in flight, or INVALID
    var min: nat
    const lost: array<int>
    var lastProbeWasLost: bool
    var generation: nat

    // Where the search of this generation began, and how its probes fared.
    ghost var start: nat
    ghost var top: nat
    ghost var ids: seq<int>
    ghost var ackedProbes: seq<nat>
    ghost var lostProbes: seq<nat>

    ghost predicate Valid()
      reads this, lost
    {
      && lost.Length == 3
      && SearchOk(lost[..], inFlight, min, lastProbeWasLost, start, top, ids, ackedProbes, lostProbes)
    }

    constructor (start: nat, max: nat)
      ensures Valid() && min == this.start == start && top == max && generation == 0 && inFlight == INVALID
      ensures ackedProbes == [] && lostProbes == [] && fresh(lost)
    {
      inFlight, min, lastProbeWasLost, generation := INVALID, start, false, 0;
      lost := new int[3];
      this.start, top, ids, ackedProbes, lostProbes := start, max, [-1, -1, -1], [], [];
      new;
      Init(max);
    }

    method Init(max: nat)
      requires lost.Length == 3
      modifies lost
      ensures lost[..] == [max, INVALID, INVALID]
    {
      for i := 0 to lost.Length
        invariant i > 0 ==> lost[0] == max
        invariant forall k :: 1 <= k < i ==> lost[k] == INVALID
      {
        lost[i] := if i == 0 then max else INVALID;
      }
    }

    method Max() returns (m: int)
      requires Valid()
      ensures m == Ceiling(lost[..])
    {
      for i := 0 to lost.Length
        invariant i > 0 ==> lost[i - 1] != INVALID
        invariant i > 1 ==> lost[i - 2] != INVALID
      {
        if lost[i] == INVALID {
          return lost[i - 1];
        }
      }
      return lost[lost.Length - 1];
    }

    // The search is over: what may still be gained is too little.
    method Done() returns (done: bool)
      requires Valid()
      ensures done <==> Ceiling(lost[..]) - min <= MAX_MTU_DIFF + 1
    {
      var m := Max();
      done := m - min <= MAX_MTU_DIFF + 1;
    }

    // The size of the next probe. Only asked for while the search goes on and no probe is in flight.
    method GetPing() returns (size: nat)
      requires Valid() && inFlight == INVALID && Ceiling(lost[..]) - min > MAX_MTU_DIFF + 1
      modifies `inFlight
      ensures Valid() && inFlight == size && min <= size < Ceiling(lost[..])
      ensures size == if lastProbeWasLost then (min + lost[0]) / 2 else (min + Ceiling(lost[..])) / 2
    {
      if lastProbeWasLost {
        size := (min + lost[0]) / 2;
      } else {
        var m := Max();
        size := (min + m) / 2;
      }
      inFlight := size;
    }

    // A connection migrated to a new path: the search starts over.
    method Reset(start: nat, max: nat)
      requires Valid()
      modifies this, lost
      ensures Valid() && min == this.start == start && top == max && inFlight == INVALID && !lastProbeWasLost
      ensures generation == (old(generation) + 1) % 256 && ackedProbes == [] && lostProbes == []
    {
      generation := (generation + 1) % 256;
      lastProbeWasLost, inFlight, min := false, INVALID, start;
      this.start, top, ids, ackedProbes, lostProbes := start, max, [-1, -1, -1], [], [];
      Init(max);
    }

    // The probe sent in generation probeGeneration was acknowledged. Those of an earlier search are ignored.
    method OnAcked(probeGeneration: nat)
      requires Valid() && (probeGeneration == generation ==> inFlight != INVALID)
      modifies `inFlight, `min, `lastProbeWasLost, `ids, `ackedProbes, lost
      ensures Valid()
      ensures if probeGeneration != generation
        then min == old(min) && lost[..] == old(lost[..]) && ackedProbes == old(ackedProbes)
             && inFlight == old(inFlight) && lastProbeWasLost == old(lastProbeWasLost)
        else min == old(inFlight) && lost[..] == Dropped(old(lost[..]), min) && ackedProbes == old(ackedProbes) + [min]
             && inFlight == INVALID && !lastProbeWasLost
    {
      hide SearchOk, Dropped, DroppedIds, Ceiling;
      if probeGeneration != generation {
        return;
      }
      InFlightIsSize(lost[..], inFlight, min, lastProbeWasLost, start, top, ids, ackedProbes, lostProbes);
      var size := inFlight;
      ghost var l := lost[..];
      AckedOk(l, size, min, lastProbeWasLost, start, top, ids, ackedProbes, lostProbes);
      inFlight := INVALID;
      min := size;
      lastProbeWasLost := false;
      DropUpTo(size);
      ids := DroppedIds(l, ids, size);
      ackedProbes := ackedProbes + [size];
    }

    // Removes the sizes up to size from the list.
    method DropUpTo(size: int)
      requires lost.Length == 3 && size < Ceiling(lost[..]) && INVALID < size
      modifies lost
      ensures lost[..] == Dropped(old(lost[..]), size)
    {
      var j := 0;
      for i := 0 to lost.Length
        invariant j == 0 && forall k :: 0 <= k < i ==> lost[k] <= size
      {
        if size < lost[i] {
          j := i;
          break;
        }
      }
      if j > 0 {
        ghost var l := lost[..];
        for i := 0 to lost.Length
          invariant forall k :: 0 <= k < i ==> lost[k] == if k + j < 3 then l[k + j] else INVALID
          invariant forall k :: i <= k < 3 ==> lost[k] == l[k]
        {
          lost[i] := if i + j < lost.Length then lost[i + j] else INVALID;
        }
      }
    }

    // The probe sent in generation probeGeneration was lost.
    method OnLost(probeGeneration: nat)
      requires Valid() && (probeGeneration == generation ==> inFlight != INVALID)
      modifies `inFlight, `lastProbeWasLost, `ids, `lostProbes, lost
      ensures Valid()
      ensures if probeGeneration != generation
        then lost[..] == old(lost[..]) && lostProbes == old(lostProbes)
             && inFlight == old(inFlight) && lastProbeWasLost == old(lastProbeWasLost)
        else lost[..] == Inserted(old(lost[..]), old(inFlight)) && lostProbes == old(lostProbes) + [old(inFlight)]
             && inFlight == INVALID && lastProbeWasLost
    {
      hide SearchOk, Inserted, InsertedIds, Ceiling;
      if probeGeneration != generation {
        return;
      }
      InFlightIsSize(lost[..], inFlight, min, lastProbeWasLost, start, top, ids, ackedProbes, lostProbes);
      var size := inFlight;
      ghost var l := lost[..];
      LostOk(l, size, min, lastProbeWasLost, start, top, ids, ackedProbes, lostProbes);
      lastProbeWasLost := true;
      inFlight := INVALID;
      InsertSize(size);
      ids := InsertedIds(l, ids, size, |lostProbes|);
      lostProbes := lostProbes + [size];
    }

    // Inserts a size before the first larger one.
    method InsertSize(size: int)
      requires lost.Length == 3
      modifies lost
      ensures lost[..] == Inserted(old(lost[..]), size)
    {
      for i := 0 to lost.Length
        invariant lost[..] == old(lost[..]) && forall k :: 0 <= k < i ==> lost[k] <= size
      {
        if size < lost[i] {
          ghost var l := lost[..];
          var k := lost.Length - 1;
          while k > i
            invariant i <= k < 3
            invariant forall m :: 0 <= m <= k ==> lost[m] == l[m]
            invariant forall m :: k < m < 3 ==> lost[m] == l[m - 1]
            decreases k
          {
            lost[k] := lost[k - 1];
            k := k - 1;
          }
          lost[i] := size;
          return;
        }
      }
    }
  }

  // Unless three probes of at most p were lost, the ceiling is at least p.
  lemma Resilient(l: seq<int>, lost: seq<nat>, top: nat)
    requires |l| == 3
    ensures forall p: nat :: Justified(l, lost, top) && p <= top && !Thrice(lost, p) ==> p <= Ceiling(l)
  {
    forall p: nat | Justified(l, lost, top) && p <= top && !Thrice(lost, p)
      ensures p <= Ceiling(l)
    {
      if Ceiling(l) != top {
        var i, j, k :| 0 <= i < |lost| && 0 <= j < |lost| && 0 <= k < |lost| && i != j && j != k && i != k
          && lost[i] <= Ceiling(l) && lost[j] <= Ceiling(l) && lost[k] <= Ceiling(l);
      }
    }
  }

  // ------------------------------------------------------------------ search

  // How far a search is from its end; compared from left to right.
  datatype Rank = Rank(room: int, ceiling: int, copies: nat, free: int, afterLoss: nat, empty: nat)

  ghost function RankOf(f: Finder): Rank
    requires f.lost.Length == 3
    reads f, f.lost
  {
    var l := f.lost[..];
    Rank(f.top - f.min, Ceiling(l), CeilingCopies(l), 3 - Above(l, f.min),
         if f.lastProbeWasLost then 1 else 0, Empty(l))
  }

  ghost predicate Less(a: Rank, b: Rank) {
    || a.room < b.room
    || (a.room == b.room && a.ceiling < b.ceiling)
    || (a.room == b.room && a.ceiling == b.ceiling && a.copies < b.copies)
    || (a.room == b.room && a.ceiling == b.ceiling && a.copies == b.copies && a.free < b.free)
    || (a.room == b.room && a.ceiling == b.ceiling && a.copies == b.copies && a.free == b.free
        && a.afterLoss < b.afterLoss)
    || (a.room == b.room && a.ceiling == b.ceiling && a.copies == b.copies && a.free == b.free
        && a.afterLoss == b.afterLoss
        && a.empty < b.empty)
  }

  // Sends one probe and learns its fate. Either way the search comes closer to its end.
  method Probe(f: Finder, arrives: bool) returns (size: nat)
    requires f.Valid() && f.inFlight == INVALID && Ceiling(f.lost[..]) - f.min > MAX_MTU_DIFF + 1
    modifies f, f.lost
    ensures f.Valid() && f.inFlight == INVALID && f.start == old(f.start) && f.top == old(f.top)
    ensures f.ackedProbes == old(f.ackedProbes) + if arrives then [size] else []
    ensures f.lostProbes == old(f.lostProbes) + if arrives then [] else [size]
    ensures f.start <= old(f.min) <= size < f.top && f.min == if arrives then size else old(f.min)
    ensures Less(RankOf(f), old(RankOf(f)))
  {
    hide Traced, Justified, Dropped, Inserted;
    size := f.GetPing();
    if arrives {
      AckedRank(f.lost[..], f.min, f.lastProbeWasLost, size);
      f.OnAcked(f.generation);
    } else {
      LostRank(f.lost[..], f.min, f.lastProbeWasLost, size);
      f.OnLost(f.generation);
    }
  }

  // The probes with this fate, in order.
  function Those(probes: seq<nat>, fate: nat -> bool, arrived: bool): seq<nat> {
    if probes == [] then []
    else
      var n := |probes| - 1;
      Those(probes[..n], fate, arrived) + if fate(n) == arrived then [probes[n]] else []
  }

  // Every probe is of a size in question: not below the start or a size known to work, and below the limit.
  ghost predicate Sensible(probes: seq<nat>, fate: nat -> bool, start: nat, max: nat) {
    && (forall i :: 0 <= i < |probes| ==> start <= probes[i] < max)
    && (forall i, j :: 0 <= i < j < |probes| && fate(i) ==> probes[i] <= probes[j])
  }

  // A whole search, whatever the network does: fate(k) says whether the k-th probe arrives.
  // It ends. The size found is the initial one or that of the largest acknowledged probe. For any
  // size p up to max, unless three probes of at most p are lost, the result falls short of p by
  // at most MAX_MTU_DIFF + 1.
  method Search(start: nat, max: nat, fate: nat -> bool) returns (mtu: nat, probes: seq<nat>)
    ensures start <= mtu && (mtu == start || mtu in Those(probes, fate, true)) && (start <= max ==> mtu <= max)
    ensures forall s :: s in Those(probes, fate, true) ==> s <= mtu
    ensures forall p: nat :: p <= max && !Thrice(Those(probes, fate, false), p) ==> p <= mtu + MAX_MTU_DIFF + 1
    ensures Sensible(probes, fate, start, max)
  {
    hide Finder.Valid, Those, Sensible, Known;
    var f := new Finder(start, max);
    probes := [];
    NothingKnown(fate, start, max);
    var done := f.Done();
    while !done
      invariant fresh(f) && fresh(f.lost) && f.Valid() && f.start == start && f.top == max && f.inFlight == INVALID
      invariant done <==> Ceiling(f.lost[..]) - f.min <= MAX_MTU_DIFF + 1
      invariant f.ackedProbes == Those(probes, fate, true) && f.lostProbes == Those(probes, fate, false)
      invariant Sensible(probes, fate, start, max) && Known(probes, fate, f.min)
      decreases RankOf(f).room, RankOf(f).ceiling, RankOf(f).copies, RankOf(f).free, RankOf(f).afterLoss,
        RankOf(f).empty
    {
      ghost var min := f.min;
      var size := Probe(f, fate(|probes|));
      OneMoreProbe(probes, fate, start, max, min, size);
      probes := probes + [size];
      done := f.Done();
    }
    mtu := f.min;
    Settled(f);
    Resilient(f.lost[..], f.lostProbes, max);
  }

  // No probe that arrived is above min.
  ghost predicate Known(probes: seq<nat>, fate: nat -> bool, min: nat) {
    forall i :: 0 <= i < |probes| && fate(i) ==> probes[i] <= min
  }

  lemma NothingKnown(fate: nat -> bool, start: nat, max: nat)
    ensures Sensible([], fate, start, max) && Known([], fate, start)
    ensures Those([], fate, true) == [] == Those([], fate, false)
  {
  }

  lemma OneMoreProbe(probes: seq<nat>, fate: nat -> bool, start: nat, max: nat, min: nat, size: nat)
    requires Sensible(probes, fate, start, max) && Known(probes, fate, min) && start <= min <= size < max
    ensures Sensible(probes + [size], fate, start, max)
    ensures Known(probes + [size], fate, if fate(|probes|) then size else min)
    ensures forall arrived: bool ::
      Those(probes + [size], fate, arrived) ==
      Those(probes, fate, arrived) + if fate(|probes|) == arrived then [size] else []
  {
    assert (probes + [size])[..|probes|] == probes;
  }

  lemma Settled(f: Finder)
    requires f.Valid()
    ensures f.lost.Length == 3 && f.start <= f.min && (f.min == f.start || f.min in f.ackedProbes)
    ensures forall s :: s in f.ackedProbes ==> s <= f.min
    ensures f.start <= f.top ==> f.min <= f.top
    ensures Justified(f.lost[..], f.lostProbes, f.top)
  {
  }
}
