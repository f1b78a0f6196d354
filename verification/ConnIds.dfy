// The connection IDs issued by the peer: which one is in use, which are spare, which probe
// a path, which were retired, and the stateless reset tokens registered for them.
module ConnIds {
  import opened Protocol

  const MAX_ACTIVE_CONNECTION_IDS: nat := 4
  const PACKETS_PER_CONNECTION_ID: nat := 10000

  type Id = seq<Byte>
  type Token = nat
  type PathId = nat

  datatype ConnId = ConnId(num: nat, id: Id, token: Token)

  datatype NewConnectionIdFrame = NewConnectionIdFrame(num: nat, retirePriorTo: nat, id: Id, token: Token)

  datatype Outcome = Ok | ZeroLengthInUse | Conflict | LimitExceeded

  // ------------------------------------------------------------------ books

  ghost function Nums(q: seq<ConnId>): (r: seq<nat>)
    ensures |r| == |q| && forall i :: 0 <= i < |q| ==> r[i] == q[i].num
  {
    seq(|q|, i requires 0 <= i < |q| => q[i].num)
  }

  lemma NumsAppend(a: seq<ConnId>, b: seq<ConnId>)
    ensures Nums(a + b) == Nums(a) + Nums(b)
  {
  }

  ghost predicate Listed(q: seq<ConnId>, n: nat) {
    exists i :: 0 <= i < |q| && q[i].num == n
  }

  lemma NumsListed(q: seq<ConnId>, n: nat)
    ensures Listed(q, n) <==> n in multiset(Nums(q))
  {
    assert n in multiset(Nums(q)) <==> n in Nums(q);
  }

  // q' holds c and what q holds from number n on, except for the number in use.
  ghost predicate Takes(q: seq<ConnId>, q': seq<ConnId>, n: nat, c: ConnId, active: nat) {
    forall x: ConnId :: x in q' <==> ((x in q && n <= x.num) || x == c) && x.num != active
  }

  ghost predicate Ordered(q: seq<ConnId>) {
    forall i, j :: 0 <= i < j < |q| ==> q[i].num < q[j].num
  }

  // All of q from n on.
  ghost predicate From(q: seq<ConnId>, n: nat) {
    forall i :: 0 <= i < |q| ==> n <= q[i].num
  }

  type Probing = map<PathId, ConnId>

  ghost function AnyPath(m: Probing): (id: PathId)
    requires |m| > 0
    ensures id in m
  {
    assert |m.Keys| > 0;
    var id :| id in m.Keys; id
  }

  // What f says of every ID in m.
  ghost function Project(m: Probing, f: ConnId -> nat): multiset<nat>
    decreases |m|
  {
    if |m| == 0 then multiset{} else multiset{f(m[AnyPath(m)])} + Project(m - {AnyPath(m)}, f)
  }

  // ... in whatever order.
  lemma {:induction false} ProjectRemove(m: Probing, id: PathId, f: ConnId -> nat)
    requires id in m
    ensures Project(m, f) == multiset{f(m[id])} + Project(m - {id}, f)
    decreases |m|
  {
    var a := AnyPath(m);
    if a != id {
      assert m - {a} - {id} == m - {id} - {a};
      ProjectRemove(m - {a}, id, f);
      ProjectRemove(m - {id}, a, f);
    }
  }

  lemma ProjectInsert(m: Probing, id: PathId, c: ConnId, f: ConnId -> nat)
    requires id !in m
    ensures Project(m[id := c], f) == multiset{f(c)} + Project(m, f)
  {
    ProjectRemove(m[id := c], id, f);
    assert m[id := c] - {id} == m;
  }

  lemma {:induction false} ProjectListed(m: Probing, n: nat, f: ConnId -> nat)
    ensures n in Project(m, f) <==> exists id :: id in m && f(m[id]) == n
    decreases |m|
  {
    if |m| > 0 {
      var a := AnyPath(m);
      ProjectListed(m - {a}, n, f);
      if id :| id in m && f(m[id]) == n {
        assert id != a ==> id in m - {a};
      }
    }
  }

  // What is left of p when the IDs older than n are retired.
  ghost predicate Trimmed(p: Probing, p': Probing, n: nat) {
    && (forall id :: id in p' ==> id in p && p'[id] == p[id] && n <= p[id].num)
    && (forall id :: id in p && n <= p[id].num ==> id in p')
  }

  ghost function NumOf(): ConnId -> nat {
    (c: ConnId) => c.num
  }

  ghost function TokenOf(): ConnId -> nat {
    (c: ConnId) => c.token
  }

  ghost function Bag(t: Option<Token>): multiset<Token> {
    if t.Some? then multiset{t.value} else multiset{}
  }

  // The sequence numbers of the spare IDs.
  ghost function Spare(q: seq<ConnId>): multiset<nat> {
    multiset(Nums(q))
  }

  // The sequence numbers retired by frames.
  ghost function Sent(frames: seq<nat>): multiset<nat> {
    multiset(frames)
  }

  ghost function Join(a: multiset<nat>, b: multiset<nat>): multiset<nat> {
    a + b
  }

  // The sequence numbers in use, spare, probing a path and retired by a frame.
  ghost function Whole(active: nat, queue: seq<ConnId>, probing: Probing, frames: seq<nat>): multiset<nat> {
    Join(Join(multiset{active}, Spare(queue)), Join(Project(probing, NumOf()), Sent(frames)))
  }

  lemma InsertNums(q: seq<ConnId>, at: nat, c: ConnId)
    requires at <= |q|
    ensures Spare(q[..at] + [c] + q[at..]) == Spare(q) + multiset{c.num}
  {
    NumsAppend(q[..at] + [c], q[at..]);
    NumsAppend(q[..at], [c]);
    NumsAppend(q[..at], q[at..]);
    assert q[..at] + q[at..] == q;
    assert Nums([c]) == [c.num];
  }

  lemma InsertWhole(active: nat, q: seq<ConnId>, at: nat, c: ConnId, probing: Probing, frames: seq<nat>)
    requires at <= |q|
    ensures Whole(active, q[..at] + [c] + q[at..], probing, frames) ==
      Whole(active, q, probing, frames) + multiset{c.num}
  {
    hide Project, Spare, Sent;
    InsertNums(q, at, c);
  }

  lemma RetireWhole(active: nat, q: seq<ConnId>, probing: Probing, frames: seq<nat>, n: nat)
    ensures Whole(active, q, probing, frames + [n]) == Whole(active, q, probing, frames) + multiset{n}
  {
    hide Project, Spare, Sent;
    SentMore(frames, n);
  }

  lemma SentMore(frames: seq<nat>, n: nat)
    ensures Sent(frames + [n]) == Sent(frames) + multiset{n}
  {
  }

  lemma SpareFront(q: seq<ConnId>)
    requires q != []
    ensures Spare(q) == Spare(q[1..]) + multiset{q[0].num}
  {
    NumsAppend([q[0]], q[1..]);
    assert [q[0]] + q[1..] == q;
    assert Nums([q[0]]) == [q[0].num];
  }

  // The next spare ID takes the place of the active one.
  lemma RotateWhole(active: nat, q: seq<ConnId>, probing: Probing, frames: seq<nat>)
    requires q != []
    ensures Whole(q[0].num, q[1..], probing, frames + [active]) == Whole(active, q, probing, frames)
  {
    hide Project, Spare, Sent;
    SpareFront(q);
    SentMore(frames, active);
  }

  // The next spare ID is taken for a path.
  lemma ProbeWhole(active: nat, q: seq<ConnId>, probing: Probing, frames: seq<nat>, id: PathId)
    requires q != [] && id !in probing
    ensures Whole(active, q[1..], probing[id := q[0]], frames) == Whole(active, q, probing, frames)
  {
    SpareFront(q);
    ProjectInsert(probing, id, q[0], NumOf());
    hide Project, Spare, Sent;
  }

  // What is retired is counted as retired instead.
  lemma MoveOut(a: multiset<nat>, x: nat, a': multiset<nat>, b: multiset<nat>)
    requires a == a' + multiset{x}
    ensures Join(a', b + multiset{x}) == Join(a, b)
  {
  }

  lemma TakeOut(a: multiset<nat>, x: nat, a': multiset<nat>, b: multiset<nat>)
    requires a == a' + multiset{x}
    ensures x in Join(a, b) && Join(a', b) == Join(a, b) - multiset{x}
  {
  }

  lemma SparesWhole(active: nat, q: seq<ConnId>, p: Probing, frames: seq<nat>, q': seq<ConnId>, frames': seq<nat>)
    requires Join(Spare(q'), Sent(frames')) == Join(Spare(q), Sent(frames))
    ensures Whole(active, q', p, frames') == Whole(active, q, p, frames)
  {
    hide Project, Spare, Sent;
    Regroup(multiset{active}, Spare(q), Project(p, NumOf()), Sent(frames));
    Regroup(multiset{active}, Spare(q'), Project(p, NumOf()), Sent(frames'));
    hide Join;
  }

  lemma Regroup(a: multiset<nat>, b: multiset<nat>, c: multiset<nat>, d: multiset<nat>)
    ensures Join(Join(a, b), Join(c, d)) == Join(Join(a, c), Join(b, d))
  {
  }

  // One more number received: counted once if and only if it is new.
  lemma OneMore(whole: multiset<nat>, received: set<nat>, n: nat)
    requires whole == multiset(received)
    ensures whole + multiset{n} == multiset(received + {n}) <==> n !in received
  {
    assert (whole + multiset{n})[n] == whole[n] + 1;
  }

  // ---------------------------------------------------------------- manager

  // What a manager shows: the ID in use, the spare ones, those that probe paths, the RETIRE_CONNECTION_ID
  // frames, the bounds below which a number is stale, and when the ID is changed.
  datatype View = View(active: nat, id: Id, queue: seq<ConnId>, probing: Probing, frames: seq<nat>, probed: nat,
                       retired: nat, clock: Clock)
  {
    predicate Stale(n: nat) {
      n < Max(active, probed) || n < retired
    }

    // After a change to the first spare ID.
    function Next(draw: nat): View
      requires queue != []
    {
      View(queue[0].num, queue[0].id, queue[1..], probing, frames + [active], probed, Max(retired, active),
           Clock(clock.handshake, 0, PACKETS_PER_CONNECTION_ID / 2 + draw))
    }

    predicate Due() {
      && clock.handshake
      && ((|queue| > 0 && active == 0) || (2 * |queue| >= MAX_ACTIVE_CONNECTION_IDS && clock.sent >= clock.perId))
    }
  }

  datatype Clock = Clock(handshake: bool, sent: nat, perId: nat)

  function Start(initial: Id): View {
    View(0, initial, [], map[], [], 0, 0, Clock(false, 0, 0))
  }

  // What a frame does: a stale number is retired at once. Otherwise what is older than the frame wants is
  // retired, the new ID is spare, or in use if the one in use was to be retired and it is the oldest.
  ghost predicate AddEffect(f: NewConnectionIdFrame, v: View, v': View) {
    if v.Stale(f.num) then v' == v.(frames := v.frames + [f.num])
    else
      && v.frames <= v'.frames && Trimmed(v.probing, v'.probing, f.retirePriorTo)
      && From(v'.queue, f.retirePriorTo) && f.retirePriorTo <= v'.active
      && (if f.retirePriorTo <= v.active then v'.active == v.active && v'.id == v.id else v.active < v'.active)
      && (f.num != v.active ==> Takes(v.queue, v'.queue, f.retirePriorTo, ConnId(f.num, f.id, f.token), v'.active))
  }

  // A path that has an ID keeps it; another one takes the first spare ID, if there is one.
  ghost predicate PathEffect(path: PathId, v: View, v': View, r: Option<Id>) {
    if v.id == [] then v' == v && r == Some([])
    else if path in v.probing then v' == v && r == Some(v.probing[path].id)
    else if v.queue == [] then v' == v && r == None
    else
      && r == Some(v.queue[0].id)
      && v' == v.(queue := v.queue[1..], probing := v.probing[path := v.queue[0]], probed := v.queue[0].num)
  }

  class Manager {
    function Look(): View
      reads `activeSequenceNumber, `activeConnectionId, `queue, `pathProbing, `frames, `highestProbingId,
        `highestRetired, `handshakeComplete, `packetsSinceLastChange, `packetsPerConnectionId
    {
      View(activeSequenceNumber, activeConnectionId, queue, pathProbing, frames, highestProbingId, highestRetired,
           Clock(handshakeComplete, packetsSinceLastChange, packetsPerConnectionId))
    }

    var queue: seq<ConnId>
    var highestProbingId: nat
    var pathProbing: Probing
    var handshakeComplete: bool
    var activeSequenceNumber: nat
    var highestRetired: nat
    var activeConnectionId: Id
    var activeToken: Option<Token>
    var packetsSinceLastChange: nat
    var packetsPerConnectionId: nat
    var closed: bool

    var frames: seq<nat>             // the RETIRE_CONNECTION_ID frames queued
    var registered: multiset<Token>  // the stateless reset tokens registered

    ghost var received: set<nat>

    ghost function Held(): multiset<nat>
      reads this
    {
      Whole(activeSequenceNumber, queue, pathProbing, frames)
    }

    // Every sequence number received is in use, spare, probing a path or retired, in one of
    // these places only, and retired by one frame only.
    ghost predicate BooksOk()
      reads this
    {
      Held() == multiset(received)
    }

    ghost predicate TokensOk()
      reads this
    {
      registered == if closed then multiset{} else Join(Project(pathProbing, TokenOf()), Bag(activeToken))
    }

    // The spare IDs are in order, and newer than those in use or probing a path.
    ghost predicate SpareOk()
      reads this
    {
      && Ordered(queue)
      && From(queue, Max(activeSequenceNumber, highestProbingId) + 1)
      && From(queue, highestRetired)
    }

    ghost predicate OrderOk()
      reads this
    {
      SpareOk() && highestRetired <= activeSequenceNumber && highestProbingId in received
    }

    ghost predicate Valid()
      reads this
    {
      BooksOk() && TokensOk() && OrderOk()
    }

    constructor (initialDestConnId: Id)
      ensures Valid() && !closed && received == {0} && activeConnectionId == initialDestConnId
      ensures activeToken.None? && Look() == Start(initialDestConnId)
    {
      queue, highestProbingId, pathProbing := [], 0, map[];
      handshakeComplete, activeSequenceNumber, highestRetired := false, 0, 0;
      activeConnectionId, activeToken := initialDestConnId, None;
      packetsSinceLastChange, packetsPerConnectionId, closed := 0, 0, false;
      frames, registered, received := [], multiset{}, {0};
    }

    method QueueRetire(n: nat)
      modifies `frames
      ensures frames == old(frames) + [n]
    {
      frames := frames + [n];
    }

    // Only called for tokens that are registered.
    method Unregister(t: Token)
      requires t in registered
      modifies `registered
      ensures registered == old(registered) - multiset{t}
    {
      registered := registered - multiset{t};
    }

    // Retires the IDs that probe paths and are older than n.
    method RetireOldProbes(n: nat)
      requires !closed && TokensOk()
      modifies `pathProbing, `frames, `registered
      ensures Held() == old(Held()) && TokensOk() && Trimmed(old(pathProbing), pathProbing, n) && old(frames) <= frames
    {
      hide Whole, Join, Project;
      var left := pathProbing.Keys;
      while left != {}
        invariant left <= pathProbing.Keys
        invariant forall id :: id in pathProbing && id !in left ==> n <= pathProbing[id].num
        invariant forall id :: id in pathProbing ==> id in old(pathProbing) && pathProbing[id] == old(pathProbing)[id]
        invariant forall id :: id in old(pathProbing) && n <= old(pathProbing)[id].num ==> id in pathProbing
        invariant Held() == old(Held()) && TokensOk() && old(frames) <= frames
        decreases |left|
      {
        var id :| id in left;
        left := left - {id};
        if pathProbing[id].num < n {
          RetireProbe(id);
        }
      }
    }

    method RetireProbe(id: PathId)
      requires !closed && id in pathProbing && TokensOk()
      modifies `pathProbing, `frames, `registered
      ensures pathProbing == old(pathProbing) - {id} && frames == old(frames) + [old(pathProbing)[id].num]
      ensures Held() == old(Held()) && TokensOk()
    {
      hide Whole, Join, Project, Bag;
      var entry := pathProbing[id];
      RetireProbeBooks(activeSequenceNumber, queue, pathProbing, frames, id);
      RetireProbeToken(pathProbing, Bag(activeToken), id);
      QueueRetire(entry.num);
      Unregister(entry.token);
      pathProbing := pathProbing - {id};
    }

    // Retires the spare IDs older than n.
    method RetireQueue(n: nat) returns (ghost k: nat)
      requires Ordered(queue)
      modifies `queue, `frames
      ensures k <= |old(queue)| && queue == old(queue)[k..] && From(queue, n)
      ensures forall i :: 0 <= i < k ==> old(queue)[i].num < n
      ensures Join(Spare(queue), Sent(frames)) == old(Join(Spare(queue), Sent(frames))) && old(frames) <= frames
    {
      hide Join, Spare, Sent;
      var newQueue: seq<ConnId> := [];
      var i := 0;
      k := 0;
      assert queue[0..] == queue;
      while i < |queue|
        invariant queue == old(queue) && 0 <= k <= i <= |queue| && newQueue == queue[k..i] && From(newQueue, n)
        invariant forall j :: 0 <= j < k ==> queue[j].num < n
        invariant k < i ==> n <= queue[k].num
        invariant Join(Spare(queue[k..]), Sent(frames)) == old(Join(Spare(queue), Sent(frames)))
          && old(frames) <= frames
        decreases |queue| - i
      {
        if n <= queue[i].num {
          newQueue := newQueue + [queue[i]];
        } else {
          assert k == i;
          FrontOut(queue[k..], frames);
          assert queue[k..][1..] == queue[k + 1..];
          QueueRetire(queue[i].num);
          k := k + 1;
        }
        i := i + 1;
      }
      queue := newQueue;
    }

    method RetireOldSpares(n: nat)
      requires SpareOk()
      modifies `queue, `frames, `highestRetired
      ensures Held() == old(Held()) && SpareOk() && highestRetired == n && From(queue, n) && old(frames) <= frames
      ensures forall m: nat :: n <= m ==> (Listed(queue, m) <==> old(Listed(queue, m)))
      ensures forall c: ConnId :: n <= c.num ==> (c in queue <==> c in old(queue))
    {
      hide Whole, Join, Spare, Sent;
      ghost var q0, f0 := queue, frames;
      ghost var k := RetireQueue(n);
      SparesWhole(activeSequenceNumber, q0, pathProbing, f0, queue, frames);
      highestRetired := n;
      SuffixListed(q0, k, n);
    }

    // Adds a spare ID in its place. One that is there already must be the same.
    method AddConnectionId(c: ConnId) returns (ok: bool, ghost at: nat)
      requires Ordered(queue)
      modifies `queue
      ensures old(Listed(queue, c.num)) ==> queue == old(queue) && (ok <==> c in queue)
      ensures !old(Listed(queue, c.num)) ==>
        && ok && at <= |old(queue)| && queue == old(queue)[..at] + [c] + old(queue)[at..] && Ordered(queue)
    {
      if |queue| == 0 || queue[|queue| - 1].num < c.num {
        at := |queue|;
        queue := queue + [c];
        return true, at;
      }
      ok, at := true, 0;
      var i := 0;
      while i < |queue|
        invariant 0 <= i <= |queue| && queue == old(queue) && ok
        invariant forall j :: 0 <= j < i ==> queue[j].num < c.num
        decreases |queue| - i
      {
        if queue[i].num == c.num {
          assert c in queue <==> queue[i] == c;
          return queue[i] == c, 0;
        }
        if queue[i].num > c.num {
          at := i;
          queue := queue[..i] + [c] + queue[i..];
          return true, at;
        }
        i := i + 1;
      }
    }

    // Registers the token of the new active ID in place of that of the old one.
    method RotateToken(t: Token)
      requires !closed && TokensOk()
      modifies `activeToken, `registered
      ensures activeToken == Some(t) && TokensOk()
    {
      hide Project, Join, Bag;
      if activeToken.Some? {
        BagOut(Project(pathProbing, TokenOf()), activeToken.value);
        Unregister(activeToken.value);
        activeToken := None;
      }
      BagIn(Project(pathProbing, TokenOf()), t);
      activeToken := Some(t);
      registered := registered + multiset{t};
    }

    // Retires the active ID and takes the first spare one instead.
    method UpdateConnectionId(draw: nat)
      requires !closed && queue != [] && draw < PACKETS_PER_CONNECTION_ID && TokensOk()
      modifies `queue, `activeSequenceNumber, `activeConnectionId, `activeToken, `highestRetired, `frames, `registered,
        `packetsSinceLastChange, `packetsPerConnectionId
      ensures Held() == old(Held()) && TokensOk()
      ensures activeSequenceNumber == old(queue)[0].num && activeConnectionId == old(queue)[0].id
      ensures activeToken == Some(old(queue)[0].token) && queue == old(queue)[1..]
      ensures frames == old(frames) + [old(activeSequenceNumber)]
      ensures highestRetired == Max(old(highestRetired), old(activeSequenceNumber))
      ensures packetsSinceLastChange == 0 && packetsPerConnectionId == PACKETS_PER_CONNECTION_ID / 2 + draw
    {
      hide Whole, Join, Project, Bag;
      var front := queue[0];
      TakeFront();
      RotateToken(front.token);
      packetsSinceLastChange := 0;
      packetsPerConnectionId := PACKETS_PER_CONNECTION_ID / 2 + draw;
    }

    method TakeFront()
      requires queue != []
      modifies `queue, `activeSequenceNumber, `activeConnectionId, `highestRetired, `frames
      ensures Held() == old(Held())
      ensures activeSequenceNumber == old(queue)[0].num && activeConnectionId == old(queue)[0].id
        && queue == old(queue)[1..]
      ensures frames == old(frames) + [old(activeSequenceNumber)]
      ensures highestRetired == Max(old(highestRetired), old(activeSequenceNumber))
    {
      hide Whole;
      RotateWhole(activeSequenceNumber, queue, pathProbing, frames);
      QueueRetire(activeSequenceNumber);
      highestRetired := Max(highestRetired, activeSequenceNumber);
      var front := queue[0];
      queue := queue[1..];
      activeSequenceNumber := front.num;
      activeConnectionId := front.id;
    }

    ghost predicate Stale(n: nat)
      reads this
    {
      n < Max(activeSequenceNumber, highestProbingId) || n < highestRetired
    }

    // A number that arrives for the first time, or again while it is spare or in use (and not stale).
    ghost predicate Welcome(n: nat)
      reads this
    {
      n !in received || Listed(queue, n) || (n == activeSequenceNumber && !Stale(n))
    }

    // Nothing older than n is in use, spare or probing a path.
    ghost predicate NothingBelow(n: nat)
      reads this
    {
      && n <= activeSequenceNumber && From(queue, n)
      && forall id :: id in pathProbing ==> n <= pathProbing[id].num
    }

    // Retires what the peer wants retired, except for the active ID.
    method RetireOlder(n: nat)
      requires !closed && Valid()
      modifies `queue, `pathProbing, `frames, `registered, `highestRetired
      ensures Held() == old(Held()) && TokensOk() && SpareOk() && old(frames) <= frames
      ensures From(queue, n) && Trimmed(old(pathProbing), pathProbing, n)
      ensures highestRetired == Max(old(highestRetired), n)
      ensures forall m: nat :: n <= m ==> (Listed(queue, m) <==> old(Listed(queue, m)))
      ensures forall c: ConnId :: n <= c.num ==> (c in queue <==> c in old(queue))
    {
      hide Whole, Join, Project;
      if n != 0 {
        RetireOldProbes(n);
      }
      if n > highestRetired {
        RetireOldSpares(n);
      }
    }

    // Stores the ID of a frame, and stops using the active one if the peer wants that.
    method Place(f: NewConnectionIdFrame, draw: nat) returns (ok: bool)
      requires !closed && TokensOk() && SpareOk() && BooksOk() && highestProbingId in received
      requires f.num != activeSequenceNumber && !Stale(f.num) && f.retirePriorTo <= f.num
      requires From(queue, f.retirePriorTo) && draw < PACKETS_PER_CONNECTION_ID
      requires highestRetired <= Max(activeSequenceNumber, f.retirePriorTo)
      modifies `queue, `received, `activeSequenceNumber, `activeConnectionId, `activeToken, `highestRetired, `frames,
        `registered, `packetsSinceLastChange, `packetsPerConnectionId
      ensures received == old(received) + {f.num} && TokensOk()
      ensures BooksOk() <==> f.num !in old(received) || old(Listed(queue, f.num))
      ensures ok <==> old(Listed(queue, f.num) ==> ConnId(f.num, f.id, f.token) in queue)
      ensures ok && (f.num !in old(received) || old(Listed(queue, f.num))) ==> OrderOk()
      ensures ok ==> f.retirePriorTo <= activeSequenceNumber && From(queue, f.retirePriorTo)
      ensures ok ==> Listed(queue, f.num) || f.num == activeSequenceNumber
      ensures ok ==>
        && Takes(old(queue), queue, f.retirePriorTo, ConnId(f.num, f.id, f.token), activeSequenceNumber)
        && old(frames) <= frames
      ensures activeConnectionId == old(activeConnectionId) || old(activeSequenceNumber) < activeSequenceNumber
      ensures old(activeSequenceNumber) <= activeSequenceNumber
      ensures f.retirePriorTo <= old(activeSequenceNumber) ==> activeSequenceNumber == old(activeSequenceNumber)
    {
      hide Whole, Join, Project, Bag;
      var c := ConnId(f.num, f.id, f.token);
      ghost var q0 := queue;
      ok := Store(c);
      if !ok {
        return;
      }
      ghost var q1 := queue;
      if activeSequenceNumber < f.retirePriorTo {
        UpdateConnectionId(draw);
        TakesFront(q0, q1, f.retirePriorTo, c);
      } else {
        TakesAll(q0, q1, f.retirePriorTo, c, activeSequenceNumber);
      }
    }

    method Store(c: ConnId) returns (ok: bool)
      requires Ordered(queue) && BooksOk()
      modifies `queue, `received
      ensures received == old(received) + {c.num}
      ensures BooksOk() <==> c.num !in old(received) || old(Listed(queue, c.num))
      ensures ok <==> old(Listed(queue, c.num) ==> c in queue)
      ensures Ordered(queue) && (ok ==> Listed(queue, c.num))
      ensures ok ==> forall x: ConnId :: x in queue <==> x in old(queue) || x == c
      ensures old(queue) == [] ==> queue == [c]
      ensures forall n: nat :: old(From(queue, n)) && n <= c.num ==> From(queue, n)
    {
      hide Whole, Spare;
      ghost var q0, listed := queue, Listed(queue, c.num);
      ghost var at;
      ok, at := AddConnectionId(c);
      if listed {
        ListedReceived(activeSequenceNumber, q0, pathProbing, frames, received, c.num);
        assert received + {c.num} == received;
      } else {
        InsertWhole(activeSequenceNumber, q0, at, c, pathProbing, frames);
        OneMore(Whole(activeSequenceNumber, q0, pathProbing, frames), received, c.num);
        assert queue[at] == c;
      }
      received := received + {c.num};
    }

    // A NEW_CONNECTION_ID frame. The books stay right if and only if its number is new, or
    // that of an ID that is spare or in use; a frame repeated after its ID was taken for a
    // path or retired makes the number count twice.
    method Add(f: NewConnectionIdFrame, draw: nat) returns (r: Outcome)
      requires Valid() && !closed && f.retirePriorTo <= f.num && draw < PACKETS_PER_CONNECTION_ID
      modifies this
      ensures r == ZeroLengthInUse <==> old(activeConnectionId) == []
      ensures r == ZeroLengthInUse ==> Valid() && unchanged(this)
      ensures r != ZeroLengthInUse ==> received == old(received) + {f.num} && TokensOk()
      ensures r != ZeroLengthInUse ==> (BooksOk() <==> old(Welcome(f.num)))
      ensures r.Conflict? <==>
        old(activeConnectionId) != [] && old(Listed(queue, f.num)) && ConnId(f.num, f.id, f.token) !in old(queue)
      ensures (r.Ok? || r.LimitExceeded?) && old(Welcome(f.num)) ==> Valid()
      ensures (r.Ok? || r.LimitExceeded?) && !old(Stale(f.num)) ==> NothingBelow(f.retirePriorTo)
      ensures r.Ok? || r.LimitExceeded? ==> (r.LimitExceeded? <==> |queue| >= MAX_ACTIVE_CONNECTION_IDS)
      ensures r.Ok? || r.LimitExceeded? ==> AddEffect(f, old(Look()), Look())
      ensures old(activeSequenceNumber) <= activeSequenceNumber && closed == old(closed)
    {
      hide Whole, Join, Project, Bag;
      if activeConnectionId == [] {
        return ZeroLengthInUse;
      }
      var ok := AddFrame(f, draw);
      if !ok {
        return Conflict;
      }
      return if |queue| >= MAX_ACTIVE_CONNECTION_IDS then LimitExceeded else Ok;
    }

    method AddFrame(f: NewConnectionIdFrame, draw: nat) returns (ok: bool)
      requires Valid() && !closed && f.retirePriorTo <= f.num && draw < PACKETS_PER_CONNECTION_ID
      modifies this
      ensures received == old(received) + {f.num} && TokensOk()
      ensures BooksOk() <==> old(Welcome(f.num))
      ensures !ok <==> old(Listed(queue, f.num)) && ConnId(f.num, f.id, f.token) !in old(queue)
      ensures ok && old(Welcome(f.num)) ==> OrderOk()
      ensures old(Stale(f.num)) ==>
        frames == old(frames) + [f.num] && queue == old(queue) && pathProbing == old(pathProbing)
      ensures !old(Stale(f.num)) ==> Trimmed(old(pathProbing), pathProbing, f.retirePriorTo)
      ensures ok && !old(Stale(f.num)) ==>
        NothingBelow(f.retirePriorTo) && (Listed(queue, f.num) || f.num == activeSequenceNumber)
      ensures old(activeSequenceNumber) <= activeSequenceNumber && closed == old(closed)
      ensures f.retirePriorTo <= old(activeSequenceNumber) ==> activeSequenceNumber == old(activeSequenceNumber)
      ensures activeConnectionId == old(activeConnectionId) || old(activeSequenceNumber) < activeSequenceNumber
      ensures old(Stale(f.num)) ==> Look() == old(Look()).(frames := old(frames) + [f.num])
      ensures ok && !old(Stale(f.num)) && f.num != old(activeSequenceNumber) ==>
        Takes(old(queue), queue, f.retirePriorTo, ConnId(f.num, f.id, f.token), activeSequenceNumber)
      ensures ok ==> old(frames) <= frames
    {
      hide Whole, Join, Project, Bag;
      if f.num < Max(activeSequenceNumber, highestProbingId) || f.num < highestRetired {
        RetireStale(f.num);
        return true;
      }
      RetireOlder(f.retirePriorTo);
      if f.num == activeSequenceNumber {
        ActiveReceived(activeSequenceNumber, queue, pathProbing, frames, received);
        assert received + {f.num} == received;
        return true;
      }
      ghost var q1 := queue;
      ok := Place(f, draw);
      if ok { TakesOlder(old(queue), q1, queue, f.retirePriorTo, ConnId(f.num, f.id, f.token), activeSequenceNumber); }
    }

    // A frame for an ID that is not needed any more.
    method RetireStale(n: nat)
      requires Valid() && !closed && Stale(n)
      modifies `frames, `received
      ensures received == old(received) + {n} && TokensOk() && OrderOk()
      ensures BooksOk() <==> n !in old(received)
      ensures !Listed(queue, n) && frames == old(frames) + [n]
    {
      hide Whole, Join, Project, Bag;
      RetireWhole(activeSequenceNumber, queue, pathProbing, frames, n);
      OneMore(Held(), received, n);
      QueueRetire(n);
      received := received + {n};
    }

    lemma Placement()
      requires Valid()
      ensures Placed(activeSequenceNumber, queue, pathProbing, frames)
      ensures forall n: nat :: n in received <==>
        n == activeSequenceNumber || Listed(queue, n) || Probed(pathProbing, n) || n in frames
    {
      hide Whole, Placed;
      AllPlaced(activeSequenceNumber, queue, pathProbing, frames, received);
    }

    // Before the peer issues an ID, the first one is in use.
    lemma FirstInUse()
      requires Valid() && received == {0}
      ensures activeSequenceNumber == 0 && !Stale(1) && queue == []
    {
      hide Whole, Project;
      ActiveReceived(activeSequenceNumber, queue, pathProbing, frames, received);
      if queue != [] {
        FrontReceived(activeSequenceNumber, queue, pathProbing, frames, received);
      }
    }

    // The ID that comes with the peer's preferred address has number 1.
    method AddFromPreferredAddress(id: Id, token: Token) returns (ok: bool)
      requires Valid() && !closed
      modifies `queue, `received
      ensures received == old(received) + {1} && TokensOk()
      ensures BooksOk() <==> 1 !in old(received) || old(Listed(queue, 1))
      ensures ok <==> old(Listed(queue, 1) ==> ConnId(1, id, token) in queue)
      ensures old(1 !in received && !Stale(1)) ==> Valid()
      ensures old(queue) == [] ==> queue == [ConnId(1, id, token)]
    {
      hide Whole, Join, Project, Bag;
      ActiveReceived(activeSequenceNumber, queue, pathProbing, frames, received);
      ok := Store(ConnId(1, id, token));
    }

    predicate ShouldUpdate()
      reads this
    {
      && handshakeComplete
      && ((|queue| > 0 && activeSequenceNumber == 0)
          || (2 * |queue| >= MAX_ACTIVE_CONNECTION_IDS && packetsSinceLastChange >= packetsPerConnectionId))
    }

    // The ID to use for the next packet, possibly a new one.
    method Get(draw: nat) returns (id: Id)
      requires Valid() && !closed && draw < PACKETS_PER_CONNECTION_ID
      modifies `queue, `activeSequenceNumber, `activeConnectionId, `activeToken, `highestRetired, `frames, `registered,
        `packetsSinceLastChange, `packetsPerConnectionId
      ensures Valid() && id == activeConnectionId
      ensures if old(Look()).Due() then old(queue) != [] && Look() == old(Look()).Next(draw) else unchanged(this)
      ensures old(activeSequenceNumber) <= activeSequenceNumber
    {
      hide Whole, Join, Project, Bag;
      if ShouldUpdate() {
        UpdateConnectionId(draw);
      }
      id := activeConnectionId;
    }

    // An ID for probing a path: always the same one for the same path, as long as it is not retired.
    method GetForPath(path: PathId) returns (r: Option<Id>)
      requires Valid() && !closed
      modifies `queue, `pathProbing, `highestProbingId, `registered
      ensures Valid() && PathEffect(path, old(Look()), Look(), r)
    {
      hide Whole, Join, Project, Bag;
      if activeConnectionId == [] {
        return Some([]);
      }
      if path in pathProbing {
        return Some(pathProbing[path].id);
      }
      if |queue| == 0 {
        return None;
      }
      TakeForPath(path);
      return Some(pathProbing[path].id);
    }

    method TakeForPath(path: PathId)
      requires Valid() && !closed && path !in pathProbing && queue != []
      modifies `queue, `pathProbing, `highestProbingId, `registered
      ensures Valid() && pathProbing == old(pathProbing)[path := old(queue)[0]] && queue == old(queue)[1..]
      ensures highestProbingId == old(queue)[0].num
    {
      hide Whole, Join, Project, Bag, Ordered, From;
      var front := queue[0];
      FrontOff(queue, Max(activeSequenceNumber, highestProbingId), highestRetired);
      ProbeWhole(activeSequenceNumber, queue, pathProbing, frames, path);
      ProbeToken(pathProbing, Bag(activeToken), path, front);
      FrontReceived(activeSequenceNumber, queue, pathProbing, frames, received);
      queue := queue[1..];
      pathProbing := pathProbing[path := front];
      highestProbingId := front.num;
      registered := registered + multiset{front.token};
    }

    method RetireForPath(path: PathId)
      requires Valid() && !closed
      modifies `pathProbing, `frames, `registered
      ensures Valid()
      ensures activeConnectionId != [] && path in old(pathProbing) ==>
        pathProbing == old(pathProbing) - {path} && frames == old(frames) + [old(pathProbing)[path].num]
      ensures activeConnectionId == [] || path !in old(pathProbing) ==>
        pathProbing == old(pathProbing) && frames == old(frames)
    {
      hide Whole, Join, Project, Bag;
      if activeConnectionId == [] {
        return;
      }
      if path !in pathProbing {
        return;
      }
      RetireProbe(path);
    }

    // The token from the peer's transport parameters. Registering a second one would leave
    // the first one registered for good.
    method SetStatelessResetToken(t: Token)
      requires Valid() && !closed && activeSequenceNumber == 0
      modifies `activeToken, `registered
      ensures activeToken == Some(t) && BooksOk() && OrderOk()
      ensures TokensOk() <==> old(activeToken).None?
    {
      hide Whole, Join, Project, Bag;
      SecondToken(Project(pathProbing, TokenOf()), activeToken, t);
      activeToken := Some(t);
      registered := registered + multiset{t};
    }

    method ChangeInitialConnId(id: Id)
      requires Valid() && activeSequenceNumber == 0
      modifies `activeConnectionId
      ensures Valid() && activeConnectionId == id
    {
      hide Whole, Join, Project, Bag;
      activeConnectionId := id;
    }

    method SentPacket()
      requires Valid()
      modifies `packetsSinceLastChange
      ensures Valid() && packetsSinceLastChange == old(packetsSinceLastChange) + 1
    {
      hide Whole, Join, Project, Bag;
      packetsSinceLastChange := packetsSinceLastChange + 1;
    }

    method SetHandshakeComplete()
      requires Valid()
      modifies `handshakeComplete
      ensures Valid() && handshakeComplete
    {
      hide Whole, Join, Project, Bag;
      handshakeComplete := true;
    }

    // No token stays registered.
    method Close()
      requires Valid() && !closed
      modifies `closed, `registered
      ensures Valid() && closed && registered == multiset{}
    {
      hide Whole, Join, Project, Bag;
      closed := true;
      if activeToken.Some? {
        BagOut(Project(pathProbing, TokenOf()), activeToken.value);
        Unregister(activeToken.value);
      }
      UnregisterProbes();
    }

    method UnregisterProbes()
      requires registered == Join(Project(pathProbing, TokenOf()), Bag(None))
      modifies `registered
      ensures registered == multiset{}
    {
      hide Join, Project, Bag;
      ghost var rest := pathProbing;
      var left := pathProbing.Keys;
      while left != {}
        invariant left == rest.Keys && rest.Keys <= pathProbing.Keys
        invariant forall id :: id in rest ==> rest[id] == pathProbing[id]
        invariant registered == Join(Project(rest, TokenOf()), Bag(None))
        decreases |left|
      {
        var id :| id in left;
        RetireProbeToken(rest, Bag(None), id);
        Unregister(pathProbing[id].token);
        left := left - {id};
        rest := rest - {id};
      }
      NoneLeft(rest);
    }

    // Whether a packet with this token resets the connection: exactly for the tokens registered.
    method IsActiveStatelessResetToken(t: Token) returns (yes: bool)
      requires Valid() && !closed
      ensures yes <==> t in registered
    {
      hide Whole, Join, Project, Bag;
      TokenKnown(pathProbing, activeToken, t);
      if activeToken == Some(t) {
        return true;
      }
      var left := pathProbing.Keys;
      while left != {}
        invariant left <= pathProbing.Keys
        invariant forall id :: id in pathProbing && id !in left ==> pathProbing[id].token != t
        decreases |left|
      {
        var id :| id in left;
        if pathProbing[id].token == t {
          return true;
        }
        left := left - {id};
      }
      return false;
    }
  }

  // The first spare ID is taken.
  lemma FrontOff(q: seq<ConnId>, newest: nat, retired: nat)
    requires q != [] && Ordered(q) && From(q, newest + 1) && From(q, retired)
    ensures newest < q[0].num && Ordered(q[1..]) && From(q[1..], q[0].num + 1) && From(q[1..], retired)
  {
  }

  lemma ProbeToken(p: Probing, others: multiset<Token>, id: PathId, c: ConnId)
    requires id !in p
    ensures Join(Project(p[id := c], TokenOf()), others) == Join(Project(p, TokenOf()), others) + multiset{c.token}
  {
    ProjectInsert(p, id, c, TokenOf());
    hide Project;
  }

  lemma SecondToken(others: multiset<Token>, was: Option<Token>, t: Token)
    ensures Join(others, Bag(was)) + multiset{t} == Join(others, Bag(Some(t))) <==> was.None?
  {
    if was.Some? {
      var x := was.value;
      assert (Join(others, Bag(was)) + multiset{t})[x] > Join(others, Bag(Some(t)))[x];
    }
  }

  lemma NoneLeft(p: Probing)
    requires p.Keys == {}
    ensures Join(Project(p, TokenOf()), Bag(None)) == multiset{}
  {
    assert |p| == |p.Keys|;
  }

  lemma TokenKnown(p: Probing, active: Option<Token>, t: Token)
    ensures t in Join(Project(p, TokenOf()), Bag(active)) <==>
      active == Some(t) || exists id :: id in p && p[id].token == t
  {
    ProjectListed(p, t, TokenOf());
    hide Project;
  }

  lemma FrontReceived(active: nat, q: seq<ConnId>, p: Probing, frames: seq<nat>, received: set<nat>)
    requires Whole(active, q, p, frames) == multiset(received) && q != []
    ensures q[0].num in received
  {
    ListedReceived(active, q, p, frames, received, q[0].num);
  }

  lemma ActiveReceived(active: nat, q: seq<ConnId>, p: Probing, frames: seq<nat>, received: set<nat>)
    requires Whole(active, q, p, frames) == multiset(received)
    ensures active in received
  {
    hide Project, Spare, Sent;
    assert active in multiset(received);
  }

  lemma ListedReceived(active: nat, q: seq<ConnId>, p: Probing, frames: seq<nat>, received: set<nat>, n: nat)
    requires Whole(active, q, p, frames) == multiset(received) && Listed(q, n)
    ensures n in received
  {
    hide Project, Sent;
    NumsListed(q, n);
    assert n in Spare(q);
    assert n in multiset(received);
  }

  lemma SuffixListed(q: seq<ConnId>, k: nat, n: nat)
    requires k <= |q| && forall i :: 0 <= i < k ==> q[i].num < n
    ensures forall m: nat :: n <= m ==> (Listed(q[k..], m) <==> Listed(q, m))
    ensures forall c: ConnId :: n <= c.num ==> (c in q[k..] <==> c in q)
  {
    forall m: nat | n <= m && Listed(q, m)
      ensures Listed(q[k..], m)
    {
      var i :| 0 <= i < |q| && q[i].num == m;
      assert q[k..][i - k] == q[i];
    }
    forall c: ConnId | n <= c.num && c in q
      ensures c in q[k..]
    {
      var i :| 0 <= i < |q| && q[i] == c;
      assert q[k..][i - k] == c;
    }
  }

  lemma TakesOlder(q: seq<ConnId>, q1: seq<ConnId>, q': seq<ConnId>, n: nat, c: ConnId, active: nat)
    requires Takes(q1, q', n, c, active) && forall x: ConnId :: n <= x.num ==> (x in q1 <==> x in q)
    ensures Takes(q, q', n, c, active)
  {
  }

  lemma TakesAll(q: seq<ConnId>, q': seq<ConnId>, n: nat, c: ConnId, active: nat)
    requires From(q, n) && c.num != active && From(q, active + 1)
    requires forall x: ConnId :: x in q' <==> x in q || x == c
    ensures Takes(q, q', n, c, active)
  {
  }

  lemma TakesFront(q: seq<ConnId>, q': seq<ConnId>, n: nat, c: ConnId)
    requires From(q, n) && Ordered(q') && q' != []
    requires forall x: ConnId :: x in q' <==> x in q || x == c
    ensures Takes(q, q'[1..], n, c, q'[0].num)
  {
    forall x: ConnId
      ensures x in q'[1..] <==> x in q' && x.num != q'[0].num
    {
      if x in q' && x.num != q'[0].num {
        var i :| 0 <= i < |q'| && q'[i] == x;
        assert q'[1..][i - 1] == x;
      }
      if x in q'[1..] {
        var i :| 0 <= i < |q'| - 1 && q'[1..][i] == x;
        assert q'[i + 1] == x;
      }
    }
  }

  lemma BagOut(others: multiset<Token>, t: Token)
    ensures t in Join(others, Bag(Some(t)))
    ensures Join(others, Bag(Some(t))) - multiset{t} == Join(others, Bag(None))
  {
  }

  lemma BagIn(others: multiset<Token>, t: Token)
    ensures Join(others, Bag(None)) + multiset{t} == Join(others, Bag(Some(t)))
  {
  }

  lemma FrontOut(q: seq<ConnId>, frames: seq<nat>)
    requires q != []
    ensures Join(Spare(q[1..]), Sent(frames + [q[0].num])) == Join(Spare(q), Sent(frames))
  {
    hide Spare, Sent;
    SpareFront(q);
    SentMore(frames, q[0].num);
    MoveOut(Spare(q), q[0].num, Spare(q[1..]), Sent(frames));
  }

  lemma RetireProbeBooks(active: nat, q: seq<ConnId>, p: Probing, frames: seq<nat>, id: PathId)
    requires id in p
    ensures Whole(active, q, p - {id}, frames + [p[id].num]) == Whole(active, q, p, frames)
  {
    ProjectRemove(p, id, NumOf());
    hide Spare, Sent, Project;
    SentMore(frames, p[id].num);
    MoveOut(Project(p, NumOf()), p[id].num, Project(p - {id}, NumOf()), Sent(frames));
  }

  lemma RetireProbeToken(p: Probing, others: multiset<Token>, id: PathId)
    requires id in p
    ensures p[id].token in Join(Project(p, TokenOf()), others)
    ensures Join(Project(p - {id}, TokenOf()), others) == Join(Project(p, TokenOf()), others) - multiset{p[id].token}
  {
    ProjectRemove(p, id, TokenOf());
    hide Project;
    TakeOut(Project(p, TokenOf()), p[id].token, Project(p - {id}, TokenOf()), others);
  }

  // ------------------------------------------------------------------- runs

  ghost predicate Probed(p: Probing, n: nat) {
    exists id :: id in p && p[id].num == n
  }

  // What the books say: a number received is in exactly one place; nothing else is anywhere.
  lemma OnePlace(active: nat, q: seq<ConnId>, p: Probing, frames: seq<nat>, received: set<nat>, n: nat)
    requires Whole(active, q, p, frames) == multiset(received)
    ensures n in received <==> n == active || Listed(q, n) || Probed(p, n) || n in frames
    ensures n == active ==> !Listed(q, n) && !Probed(p, n) && n !in frames
    ensures Listed(q, n) ==> !Probed(p, n) && n !in frames
    ensures Probed(p, n) ==> n !in frames
  {
    NumsListed(q, n);
    ProjectListed(p, n, NumOf());
    hide Project, Spare, Sent, Nums;
    SentListed(frames, n);
    InSpare(q, n);
    var a, b, c := Spare(q), Project(p, NumOf()), Sent(frames);
    assert multiset(received)[n] == multiset{active}[n] + a[n] + b[n] + c[n];
    assert multiset(received)[n] <= 1;
  }

  lemma SentListed(frames: seq<nat>, n: nat)
    ensures n in Sent(frames) <==> n in frames
  {
  }

  lemma InSpare(q: seq<ConnId>, n: nat)
    ensures n in Spare(q) <==> n in multiset(Nums(q))
  {
  }

  lemma RetiredOnce(active: nat, q: seq<ConnId>, p: Probing, frames: seq<nat>, received: set<nat>)
    requires Whole(active, q, p, frames) == multiset(received)
    ensures forall i, j :: 0 <= i < j < |frames| ==> frames[i] != frames[j]
  {
    hide Project, Spare;
    forall i, j | 0 <= i < j < |frames|
      ensures frames[i] != frames[j]
    {
      assert multiset(received)[frames[i]] <= 1;
      if frames[i] == frames[j] {
        CountedTwice(frames, i, j);
      }
    }
  }

  lemma CountedTwice(frames: seq<nat>, i: nat, j: nat)
    requires i < j < |frames| && frames[i] == frames[j]
    ensures multiset(frames)[frames[i]] >= 2
  {
    assert frames == frames[..i] + [frames[i]] + frames[i + 1..j] + [frames[j]] + frames[j + 1..];
  }

  datatype Op =
    | AddOp(f: NewConnectionIdFrame)
    | PreferredOp(id: Id, token: Token)
    | ChangeOp(id: Id)
    | GetOp
    | PathOp(path: PathId)
    | RetirePathOp(path: PathId)
    | SentOp
    | HandshakeOp

  // The number of the ID that comes with it, 0 if none does.
  ghost function Issued(op: Op): nat {
    match op
    case AddOp(f) => f.num
    case PreferredOp(_, _) => 1
    case _ => 0
  }

  // The first ID is changed, and the preferred address is known, before other IDs are issued.
  ghost predicate Legal(ops: seq<Op>) {
    && (forall i :: 0 <= i < |ops| && ops[i].AddOp? ==> ops[i].f.retirePriorTo <= ops[i].f.num)
    && (forall i, j :: 0 <= i < j < |ops| && (ops[j].PreferredOp? || ops[j].ChangeOp?) ==> Issued(ops[i]) == 0)
  }

  // Each number arrives at most once; number 0 belongs to the handshake.
  ghost predicate FirstTime(ops: seq<Op>) {
    && (forall i :: 0 <= i < |ops| && ops[i].AddOp? ==> ops[i].f.num != 0)
    && (forall i, j :: 0 <= i < j < |ops| && Issued(ops[i]) != 0 ==> Issued(ops[i]) != Issued(ops[j]))
  }

  ghost predicate Arrived(ops: seq<Op>, n: nat) {
    n == 0 || exists i :: 0 <= i < |ops| && Issued(ops[i]) == n
  }

  datatype Reply = Reply(outcome: Outcome, id: Option<Id>)

  // What an operation does to what the manager shows, and what its caller gets.
  ghost predicate Effect(op: Op, draw: nat, v: View, v': View, r: Reply) {
    match op
    case AddOp(f) =>
      if v.id == [] then r.outcome.ZeroLengthInUse? && v' == v
      else
        && AddEffect(f, v, v')
        && r.outcome == if |v'.queue| >= MAX_ACTIVE_CONNECTION_IDS then LimitExceeded else Ok
    case _ => r.outcome.Ok? && QuietEffect(op, draw, v, v', r.id)
  }

  ghost predicate QuietEffect(op: Op, draw: nat, v: View, v': View, id: Option<Id>)
    requires !op.AddOp?
  {
    match op
    case PreferredOp(i, token) => v' == v.(queue := [ConnId(1, i, token)])
    case ChangeOp(i) => v' == v.(id := i)
    case GetOp =>
      && id == Some(v'.id)
      && (if v.Due() then v.queue != [] && v' == v.Next(draw) else v' == v)
    case PathOp(path) => PathEffect(path, v, v', id)
    case RetirePathOp(path) =>
      v' == if v.id == [] || path !in v.probing then v
            else v.(probing := v.probing - {path}, frames := v.frames + [v.probing[path].num])
    case SentOp => v' == v.(clock := v.clock.(sent := v.clock.sent + 1))
    case HandshakeOp => v' == v.(clock := v.clock.(handshake := true))
  }

  // The preferred address, before any other ID.
  method Prefer(m: Manager, id: Id, token: Token)
    requires m.Valid() && !m.closed && m.received == {0}
    modifies m`queue, m`received
    ensures m.Valid() && m.received == {0, 1} && m.queue == [ConnId(1, id, token)]
  {
    m.FirstInUse();
    hide Manager.Valid, Manager.TokensOk, Manager.BooksOk;
    var ok := m.AddFromPreferredAddress(id, token);
    assert ok;
  }

  method Change(m: Manager, id: Id)
    requires m.Valid() && !m.closed && m.received == {0}
    modifies m`activeConnectionId
    ensures m.Valid() && m.activeConnectionId == id
  {
    m.FirstInUse();
    hide Manager.Valid;
    m.ChangeInitialConnId(id);
  }

  // A number that is received for the first time.
  method AddNew(m: Manager, f: NewConnectionIdFrame, draw: nat) returns (r: Outcome)
    requires m.Valid() && !m.closed && draw < PACKETS_PER_CONNECTION_ID
    requires f.retirePriorTo <= f.num && f.num !in m.received
    modifies m
    ensures m.Valid() && !m.closed && Effect(AddOp(f), draw, old(m.Look()), m.Look(), Reply(r, None))
    ensures m.received == old(m.received) + if r.ZeroLengthInUse? then {} else {f.num}
  {
    hide Manager.Valid, AddEffect;
    m.Placement();
    r := m.Add(f, draw);
  }

  method Quiet(m: Manager, op: Op, draw: nat) returns (id: Option<Id>)
    requires m.Valid() && !m.closed && draw < PACKETS_PER_CONNECTION_ID && !op.AddOp?
    requires op.PreferredOp? || op.ChangeOp? ==> m.received == {0}
    modifies m
    ensures m.Valid() && !m.closed && QuietEffect(op, draw, old(m.Look()), m.Look(), id)
    ensures m.received == old(m.received) + if op.PreferredOp? then {1} else {}
  {
    hide Manager.Valid, PathEffect;
    id := None;
    match op {
      case PreferredOp(i, token) =>
        Prefer(m, i, token);
      case ChangeOp(i) =>
        Change(m, i);
      case GetOp =>
        var i := m.Get(draw);
        id := Some(i);
      case PathOp(path) =>
        id := m.GetForPath(path);
      case RetirePathOp(path) =>
        m.RetireForPath(path);
      case SentOp =>
        m.SentPacket();
      case HandshakeOp =>
        m.SetHandshakeComplete();
    }
  }

  method Step(m: Manager, op: Op, draw: nat) returns (r: Reply)
    requires m.Valid() && !m.closed && draw < PACKETS_PER_CONNECTION_ID
    requires op.AddOp? ==> op.f.retirePriorTo <= op.f.num && op.f.num !in m.received
    requires op.PreferredOp? || op.ChangeOp? ==> m.received == {0}
    modifies m
    ensures m.Valid() && !m.closed && Effect(op, draw, old(m.Look()), m.Look(), r)
    ensures m.received ==
      old(m.received) + if (op.AddOp? || op.PreferredOp?) && !r.outcome.ZeroLengthInUse? then {Issued(op)} else {}
  {
    hide Manager.Valid, Manager.Look, QuietEffect, AddEffect;
    if op.AddOp? {
      var outcome := AddNew(m, op.f, draw);
      r := Reply(outcome, None);
    } else {
      var id := Quiet(m, op, draw);
      r := Reply(Ok, id);
    }
  }

  // Each number that arrived is in one of the four places, and in no two.
  ghost predicate Fine(ops: seq<Op>, v: View) {
    && Placed(v.active, v.queue, v.probing, v.frames)
    && (forall n: nat :: Arrived(ops, n) <==>
          n == v.active || Listed(v.queue, n) || Probed(v.probing, n) || n in v.frames)
  }

  // A run up to the first error. After a frame for a zero-length ID, the connection is over.
  ghost predicate Traced(ops: seq<Op>, draws: seq<nat>, trace: seq<View>, replies: seq<Reply>) {
    && |replies| + 1 == |trace| <= |ops| + 1 && |draws| == |ops|
    && (forall i :: 0 <= i < |replies| ==> Effect(ops[i], draws[i], trace[i], trace[i + 1], replies[i]))
    && (forall i :: 0 <= i < |replies| - 1 ==> replies[i].outcome.Ok?)
    && (forall i :: 0 <= i < |trace| ==> FineAt(ops, trace, replies, i))
  }

  ghost predicate FineAt(ops: seq<Op>, trace: seq<View>, replies: seq<Reply>, i: nat)
    requires i < |trace| <= |replies| + 1 && i <= |ops|
  {
    Fine(ops[..i], trace[i]) || (i > 0 && replies[i - 1].outcome.ZeroLengthInUse?)
  }

  lemma TraceMore(ops: seq<Op>, draws: seq<nat>, trace: seq<View>, replies: seq<Reply>, v: View, r: Reply)
    requires Traced(ops, draws, trace, replies) && |replies| < |ops|
    requires replies == [] || replies[|replies| - 1].outcome.Ok?
    requires Effect(ops[|replies|], draws[|replies|], trace[|replies|], v, r)
    requires r.outcome.ZeroLengthInUse? || Fine(ops[..|replies| + 1], v)
    ensures Traced(ops, draws, trace + [v], replies + [r])
  {
    hide Effect, Fine;
    var t, s := trace + [v], replies + [r];
    forall i | 0 <= i < |t|
      ensures FineAt(ops, t, s, i)
    {
      if i < |trace| {
        assert FineAt(ops, trace, replies, i);
      }
    }
    hide FineAt;
  }

  // Any run in which each number arrives at most once, up to the first error. Each step does what it
  // should; every number that arrived is in exactly one place and is retired at most once; frames never
  // conflict, and the limit is exceeded if and only if too many IDs are spare. Closing leaves no token
  // registered.
  method Run(initial: Id, token: Option<Token>, ops: seq<Op>, draws: seq<nat>)
    returns (trace: seq<View>, replies: seq<Reply>, registered: multiset<Token>)
    requires Legal(ops) && FirstTime(ops) && |draws| == |ops|
    requires forall i :: 0 <= i < |draws| ==> draws[i] < PACKETS_PER_CONNECTION_ID
    ensures Traced(ops, draws, trace, replies)
    ensures trace[0] == Start(initial)
    ensures |replies| == |ops| || (replies != [] && !replies[|replies| - 1].outcome.Ok?)
    ensures registered == multiset{}
  {
    hide Manager.Valid, Manager.Look, Fine, Traced, Effect, FirstTime, Legal;
    var m := StartManager(initial, token);
    var done, r := 0, Ok;
    trace, replies := [m.Look()], [];
    Shown(m, []);
    TraceStarts(ops, draws, trace[0]);
    while done < |ops| && r.Ok?
      invariant 0 <= done <= |ops| && fresh(m) && m.Valid() && !m.closed
      invariant |replies| == done && |trace| == done + 1 && trace[done] == m.Look() && trace[0] == Start(initial)
      invariant if done == 0 then r.Ok? else r == replies[done - 1].outcome
      invariant !r.ZeroLengthInUse? ==> forall n: nat :: n in m.received <==> Arrived(ops[..done], n)
      invariant Traced(ops, draws, trace, replies)
      decreases |ops| - done
    {
      FreshNumber(ops, done);
      var reply := Step(m, ops[done], draws[done]);
      r := reply.outcome;
      if !r.ZeroLengthInUse? {
        Shown(m, ops[..done + 1]);
      }
      TraceMore(ops, draws, trace, replies, m.Look(), reply);
      trace, replies := trace + [m.Look()], replies + [reply];
      done := done + 1;
    }
    m.Close();
    registered := m.registered;
  }

  lemma TraceStarts(ops: seq<Op>, draws: seq<nat>, v: View)
    requires Fine([], v) && |draws| == |ops|
    ensures Traced(ops, draws, [v], [])
  {
    hide Effect, Fine;
    assert ops[..0] == [];
  }

  lemma Shown(m: Manager, ops: seq<Op>)
    requires m.Valid() && forall n: nat :: n in m.received <==> Arrived(ops, n)
    ensures Fine(ops, m.Look())
  {
    hide Manager.Valid, Placed;
    m.Placement();
  }

  method StartManager(initial: Id, token: Option<Token>) returns (m: Manager)
    ensures fresh(m) && m.Valid() && !m.closed && m.received == {0} && m.Look() == Start(initial)
  {
    hide Whole, Join, Project, Bag;
    m := new Manager(initial);
    if token.Some? {
      m.SetStatelessResetToken(token.value);
    }
  }

  // Each number received has one place, and is retired once.
  ghost predicate Placed(active: nat, queue: seq<ConnId>, probing: Probing, frames: seq<nat>) {
    && (forall n: nat :: Listed(queue, n) ==> n != active && !Probed(probing, n) && n !in frames)
    && (forall n: nat :: Probed(probing, n) ==> n != active && n !in frames)
    && active !in frames
    && (forall i, j :: 0 <= i < j < |frames| ==> frames[i] != frames[j])
  }

  lemma AllPlaced(active: nat, queue: seq<ConnId>, probing: Probing, frames: seq<nat>, received: set<nat>)
    requires Whole(active, queue, probing, frames) == multiset(received)
    ensures Placed(active, queue, probing, frames)
    ensures forall n: nat :: n in received <==> n == active || Listed(queue, n) || Probed(probing, n) || n in frames
  {
    hide Whole, Project;
    forall n: nat {
      OnePlace(active, queue, probing, frames, received, n);
    }
    OnePlace(active, queue, probing, frames, received, active);
    RetiredOnce(active, queue, probing, frames, received);
  }

  lemma FreshNumber(ops: seq<Op>, k: nat)
    requires k < |ops| && FirstTime(ops) && Legal(ops)
    ensures forall n: nat :: Arrived(ops[..k + 1], n) <==> Arrived(ops[..k], n) || Issued(ops[k]) == n
    ensures ops[k].AddOp? ==> ops[k].f.retirePriorTo <= ops[k].f.num && !Arrived(ops[..k], ops[k].f.num)
    ensures ops[k].PreferredOp? || ops[k].ChangeOp? ==> forall n: nat :: Arrived(ops[..k], n) <==> n == 0
  {
    forall n: nat
      ensures Arrived(ops[..k + 1], n) <==> Arrived(ops[..k], n) || Issued(ops[k]) == n
    {
      if Arrived(ops[..k], n) && n != 0 {
        var i :| 0 <= i < k && Issued(ops[..k][i]) == n;
        assert ops[..k + 1][i] == ops[i];
      }
      if Issued(ops[k]) == n { assert ops[..k + 1][k] == ops[k]; }
    }
  }

  // A frame that is received again after its ID was taken for a path: the ID becomes a spare
  // one as well, and will be used on another path or for the connection.
  method RepeatedFrame(initial: Id, f: NewConnectionIdFrame, path: PathId)
    returns (probing: Probing, queue: seq<ConnId>)
    requires initial != [] && f.num > 0 && f.retirePriorTo == 0
    ensures Probed(probing, f.num) && Listed(queue, f.num)
  {
    hide Whole, Join, Project, Bag;
    var m := ProbingManager(initial, f, path);
    OnePlace(m.activeSequenceNumber, m.queue, m.pathProbing, m.frames, m.received, f.num);
    var ok := m.AddFrame(f, 0);
    return m.pathProbing, m.queue;
  }

  method ProbingManager(initial: Id, f: NewConnectionIdFrame, path: PathId) returns (m: Manager)
    requires initial != [] && f.num > 0 && f.retirePriorTo == 0
    ensures fresh(m) && m.Valid() && !m.closed && m.activeSequenceNumber == 0 && m.highestProbingId == f.num
    ensures path in m.pathProbing && m.pathProbing[path].num == f.num
  {
    hide Whole, Join, Project, Bag;
    m := new Manager(initial);
    var ok := m.AddFrame(f, 0);
    OnePlace(m.activeSequenceNumber, m.queue, m.pathProbing, m.frames, m.received, m.queue[0].num);
    var id := m.GetForPath(path);
  }
}
