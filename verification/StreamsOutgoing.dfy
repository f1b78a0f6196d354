// Opening streams: the limit set by the peer, and the callers that wait for it to be raised.
// Every region under the lock is one step; a caller that waits goes through several.
module StreamsOutgoing {
  import opened Protocol

  const INVALID_STREAM: int := -1

  datatype Result = Closed | Cancelled | LimitReached | Opened(id: int) | Waits(ticket: nat)

  // How many streams a limit allows.
  function StreamNum(id: int): nat
    requires id >= INVALID_STREAM
  {
    if id == INVALID_STREAM then 0 else id / 4 + 1
  }

  ghost predicate Below(s: seq<nat>, n: nat) {
    forall i :: 0 <= i < |s| ==> s[i] < n
  }

  // All of a before all of b.
  ghost predicate Before(a: seq<nat>, b: seq<nat>) {
    forall i, j :: 0 <= i < |a| && 0 <= j < |b| ==> a[i] < b[j]
  }

  // Where x is in s, or |s|.
  function IndexOf(s: seq<nat>, x: nat): (i: nat)
    ensures i <= |s| && (i < |s| ==> s[i] == x) && (i == |s| ==> x !in s)
  {
    if s == [] then 0 else if s[0] == x then 0 else 1 + IndexOf(s[1..], x)
  }

  // s without x.
  function Without(s: seq<nat>, x: nat): seq<nat> {
    var i := IndexOf(s, x);
    if i == |s| then s else s[..i] + s[i + 1..]
  }

  // ------------------------------------------------------------------- order

  // Streams are opened in the order in which they were asked for: the calls that got one came
  // before those that wait, which are in the order in which they came.
  ghost predicate Fifo(served: seq<nat>, queue: seq<nat>, tickets: nat) {
    && Increasing(queue) && Increasing(served) && Before(served, queue)
    && Below(queue, tickets) && Below(served, tickets)
  }

  lemma FifoTicket(served: seq<nat>, queue: seq<nat>, tickets: nat)
    requires Fifo(served, queue, tickets)
    ensures Fifo(served, queue, tickets + 1) && Fifo(served, queue + [tickets], tickets + 1)
    ensures queue == [] ==> Fifo(served + [tickets], queue, tickets + 1)
  {
  }

  lemma QueueIncreasing(served: seq<nat>, queue: seq<nat>, tickets: nat)
    requires Fifo(served, queue, tickets)
    ensures Increasing(queue)
  {
  }

  lemma FifoServe(served: seq<nat>, queue: seq<nat>, tickets: nat)
    requires Fifo(served, queue, tickets) && queue != []
    ensures Fifo(served + [queue[0]], queue[1..], tickets)
  {
  }

  lemma FifoRemove(served: seq<nat>, queue: seq<nat>, tickets: nat, i: nat)
    requires Fifo(served, queue, tickets) && i < |queue|
    ensures Fifo(served, queue[..i] + queue[i + 1..], tickets)
  {
    var q := queue[..i] + queue[i + 1..];
    assert forall k :: 0 <= k < |q| ==> q[k] == queue[if k < i then k else k + 1];
  }

  lemma FifoLeave(served: seq<nat>, queue: seq<nat>, tickets: nat, t: nat)
    requires Fifo(served, queue, tickets)
    ensures Fifo(served, Without(queue, t), tickets)
  {
    hide Fifo;
    var i := IndexOf(queue, t);
    if i < |queue| { FifoRemove(served, queue, tickets, i); }
  }

  // ----------------------------------------------------------------- wakeups

  // Only the first caller in the queue is signalled, and only when there is a stream for it.
  ghost predicate NoStray(queue: seq<nat>, waiting: set<nat>, pending: set<nat>, woken: set<nat>, available: bool) {
    && pending <= waiting && woken <= waiting
    && (forall t :: t in waiting <==> t in queue)
    && (forall t :: t in pending || t in woken ==> queue != [] && t == queue[0] && available)
  }

  // ... and when there is one, it has been signalled.
  ghost predicate Wakeup(queue: seq<nat>, waiting: set<nat>, pending: set<nat>, woken: set<nat>, available: bool) {
    && NoStray(queue, waiting, pending, woken, available)
    && (queue != [] && available ==> queue[0] in pending || queue[0] in woken)
  }

  lemma WakeupIsNoStray(queue: seq<nat>, waiting: set<nat>, pending: set<nat>, woken: set<nat>, available: bool)
    requires Wakeup(queue, waiting, pending, woken, available)
    ensures NoStray(queue, waiting, pending, woken, available)
  {
  }

  lemma WakeupSignal(queue: seq<nat>, waiting: set<nat>, pending: set<nat>, woken: set<nat>, available: bool)
    requires NoStray(queue, waiting, pending, woken, available)
    ensures Wakeup(queue, waiting, pending + if queue != [] && available then {queue[0]} else {}, woken, available)
  {
  }

  lemma WakeupRaise(queue: seq<nat>, waiting: set<nat>, pending: set<nat>, woken: set<nat>, was: bool, available: bool)
    requires Wakeup(queue, waiting, pending, woken, was) && (was ==> available)
    ensures Wakeup(queue, waiting, pending + if queue != [] && available then {queue[0]} else {}, woken, available)
  {
  }

  lemma WakeupEmpty(waiting: set<nat>, pending: set<nat>, woken: set<nat>, was: bool, available: bool)
    requires Wakeup([], waiting, pending, woken, was)
    ensures Wakeup([], waiting, pending, woken, available)
  {
  }

  lemma WakeupTake(queue: seq<nat>, waiting: set<nat>, pending: set<nat>, woken: set<nat>, available: bool, t: nat)
    requires Wakeup(queue, waiting, pending, woken, available) && t in pending
    ensures Wakeup(queue, waiting, pending - {t}, woken + {t}, available)
  {
  }

  lemma WakeupEnter(queue: seq<nat>, waiting: set<nat>, pending: set<nat>, woken: set<nat>, available: bool, t: nat)
    requires Wakeup(queue, waiting, pending, woken, available) && (queue != [] || !available)
    ensures Wakeup(queue + [t], waiting + {t}, pending, woken, available)
  {
    assert forall x :: x in queue + [t] <==> x in queue || x == t;
  }

  lemma InWithout(queue: seq<nat>, t: nat, x: nat)
    requires Increasing(queue)
    ensures x in Without(queue, t) <==> x in queue && x != t
  {
    var i := IndexOf(queue, t);
    if i < |queue| {
      assert queue == queue[..i] + [t] + queue[i + 1..];
      assert t !in queue[..i] && t !in queue[i + 1..];
    }
  }

  lemma WakeupLeave(queue: seq<nat>, waiting: set<nat>, pending: set<nat>, woken: set<nat>, available: bool, t: nat)
    requires Increasing(queue) && NoStray(queue, waiting, pending, woken, available)
    ensures NoStray(Without(queue, t), waiting - {t}, pending - {t}, woken - {t}, available)
  {
    forall x
      ensures x in Without(queue, t) <==> x in waiting - {t}
    {
      if x >= 0 { InWithout(queue, t, x); }
    }
    forall x | x in pending - {t} || x in woken - {t}
      ensures Without(queue, t) != [] && x == Without(queue, t)[0]
    {
      assert IndexOf(queue, t) > 0;
    }
  }

  lemma WakeupServe(queue: seq<nat>, waiting: set<nat>, pending: set<nat>, woken: set<nat>, t: nat, available: bool)
    requires Increasing(queue) && NoStray(queue, waiting, pending, woken, true) && t in woken
    ensures queue != [] && queue[0] == t
    ensures NoStray(queue[1..], waiting - {t}, pending - {t}, woken - {t}, available)
  {
    assert queue == [t] + queue[1..];
    assert t !in queue[1..];
    assert pending - {t} == {} && woken - {t} == {};
  }

  class OutgoingStreams {
    const first: nat
    var streams: set<int>
    var openQueue: seq<nat>    // the callers that wait, by ticket
    var nextStream: int
    var maxStream: int
    var blockedSent: bool
    var closed: bool

    var pending: set<nat>      // callers whose channel has a signal, or is closed
    var woken: set<nat>        // callers that took a signal and have not looked at the limit yet
    var waiting: set<nat>      // callers that have not returned
    var blocked: seq<nat>      // the limits for which STREAMS_BLOCKED was sent
    var tickets: nat           // every call that may open a stream gets the next ticket
    var served: seq<nat>       // the tickets of the calls that got a stream, by stream ID

    // Stream IDs and limits are those of one type of stream, and no ID is beyond the limit.
    ghost predicate LimitsOk()
      reads this
    {
      && first < 4 && nextStream == first + 4 * |served| && (served != [] ==> nextStream <= maxStream + 4)
      && (maxStream == INVALID_STREAM || (maxStream >= 0 && maxStream % 4 == first))
      && (forall id :: id in streams ==> id < nextStream)
    }

    ghost predicate FifoOk()
      reads this
    {
      Fifo(served, openQueue, tickets)
    }

    // Once closed, every caller can go on.
    ghost predicate WakeupOk()
      reads this
    {
      if closed then openQueue == [] && pending <= waiting && woken <= waiting && waiting <= pending + woken
      else Wakeup(openQueue, waiting, pending, woken, nextStream <= maxStream)
    }

    // At most one STREAMS_BLOCKED per limit.
    ghost predicate BlockedOnce()
      reads this
    {
      && maxStream >= INVALID_STREAM
      && Increasing(blocked) && Below(blocked, StreamNum(maxStream) + if blockedSent then 1 else 0)
      && (blockedSent ==> blocked != [] && blocked[|blocked| - 1] == StreamNum(maxStream))
    }

    // ... and one whenever callers wait that the limit does not allow for.
    ghost predicate BlockedOk()
      reads this
    {
      && BlockedOnce()
      && (openQueue != [] && nextStream + 4 * (|openQueue| - 1) > maxStream ==> blockedSent)
    }

    ghost predicate Valid()
      reads this
    {
      LimitsOk() && FifoOk() && WakeupOk() && BlockedOk()
    }

    constructor (first: nat)
      requires first < 4
      ensures Valid() && !closed && served == [] && waiting == {} && this.first == first && maxStream == INVALID_STREAM
      ensures tickets == 0 && openQueue == [] && pending == woken == {}
    {
      this.first := first;
      streams, openQueue, nextStream, maxStream, blockedSent, closed := {}, [], first, INVALID_STREAM, false, false;
      pending, woken, waiting, blocked, tickets, served := {}, {}, {}, [], 0, [];
    }

    method MaybeSendBlockedFrame()
      requires BlockedOnce()
      modifies `blocked, `blockedSent
      ensures BlockedOnce() && blockedSent
    {
      if blockedSent {
        return;
      }
      blocked := blocked + [StreamNum(maxStream)];
      blockedSent := true;
    }

    // A signal for the first caller that waits; its channel holds at most one.
    method MaybeUnblockOpenSync()
      modifies `pending
      ensures pending == old(pending) + if openQueue != [] && nextStream <= maxStream then {openQueue[0]} else {}
    {
      if |openQueue| == 0 {
        return;
      }
      if nextStream > maxStream {
        return;
      }
      pending := pending + {openQueue[0]};
    }

    method Open(ticket: nat) returns (id: int)
      requires LimitsOk() && nextStream <= maxStream
      modifies `streams, `nextStream, `served
      ensures LimitsOk() && id == old(nextStream) && id == first + 4 * |old(served)|
      ensures served == old(served) + [ticket] && nextStream == id + 4 && streams == old(streams) + {id}
    {
      id := nextStream;
      streams := streams + {id};
      nextStream := nextStream + 4;
      served := served + [ticket];
    }

    // OpenStream: a stream right now, or an error. It never overtakes a caller that waits.
    method OpenStream() returns (r: Result)
      requires Valid()
      modifies this
      ensures Valid() && openQueue == old(openQueue) && closed == old(closed) && tickets == old(tickets) + 1
      ensures maxStream == old(maxStream) && pending == old(pending) && woken == old(woken)
      ensures r.Closed? <==> old(closed)
      ensures r.Opened? <==> !old(closed) && old(openQueue) == [] && old(nextStream <= maxStream)
      ensures r.LimitReached? <==> !r.Closed? && !r.Opened?
      ensures r.Opened? ==> r.id == old(nextStream) && served == old(served) + [old(tickets)]
      ensures !r.Opened? ==> served == old(served) && nextStream == old(nextStream)
      ensures r.LimitReached? ==> blockedSent
    {
      hide Fifo, Wakeup, NoStray, Increasing, Below;
      var ticket := tickets;
      FifoTicket(served, openQueue, tickets);
      tickets := tickets + 1;
      if closed {
        return Closed;
      }
      if |openQueue| > 0 || nextStream > maxStream {
        MaybeSendBlockedFrame();
        return LimitReached;
      }
      WakeupEmpty(waiting, pending, woken, true, nextStream + 4 <= maxStream);
      var id := Open(ticket);
      return Opened(id);
    }

    // OpenStreamSync, up to the point where the caller has a result or starts to wait.
    method OpenStreamSync(cancelled: bool) returns (r: Result)
      requires Valid()
      modifies this
      ensures Valid() && closed == old(closed) && tickets == old(tickets) + 1
      ensures maxStream == old(maxStream) && pending == old(pending) && woken == old(woken)
      ensures r.Closed? <==> old(closed)
      ensures r.Cancelled? <==> !old(closed) && cancelled
      ensures r.Opened? <==> !old(closed) && !cancelled && old(openQueue) == [] && old(nextStream <= maxStream)
      ensures r.Opened? ==> r.id == old(nextStream) && served == old(served) + [old(tickets)]
      ensures !r.Opened? ==> served == old(served)
      ensures !r.LimitReached?
      ensures r.Waits? ==> r.ticket == old(tickets) && openQueue == old(openQueue) + [r.ticket] && blockedSent
      ensures !r.Waits? ==> openQueue == old(openQueue)
    {
      hide Fifo, Wakeup, NoStray, Increasing, Below;
      var ticket := tickets;
      FifoTicket(served, openQueue, tickets);
      tickets := tickets + 1;
      if closed {
        return Closed;
      }
      if cancelled {
        return Cancelled;
      }
      if |openQueue| == 0 && nextStream <= maxStream {
        WakeupEmpty(waiting, pending, woken, true, nextStream + 4 <= maxStream);
        var id := Open(ticket);
        return Opened(id);
      }
      WakeupEnter(openQueue, waiting, pending, woken, nextStream <= maxStream, ticket);
      openQueue := openQueue + [ticket];
      waiting := waiting + {ticket};
      MaybeSendBlockedFrame();
      return Waits(ticket);
    }

    // A caller that waits takes the signal.
    method TakeSignal(t: nat)
      requires Valid() && t in pending && t !in woken
      modifies `pending, `woken
      ensures Valid() && woken == old(woken) + {t} && pending == if closed then old(pending) else old(pending) - {t}
    {
      hide Fifo, Wakeup, NoStray, Increasing, Below;
      if !closed {
        WakeupTake(openQueue, waiting, pending, woken, nextStream <= maxStream, t);
        pending := pending - {t};
      }
      woken := woken + {t};
    }

    // A caller is cancelled while it waits, whether or not there is a signal for it.
    method CancelWait(t: nat)
      requires Valid() && t in waiting && t !in woken
      modifies `openQueue, `waiting, `pending, `woken
      ensures Valid() && openQueue == Without(old(openQueue), t) && waiting == old(waiting) - {t}
    {
      Leave(t);
    }

    // A caller leaves without a stream; the next one may be due.
    method Leave(t: nat)
      requires Valid() && t in waiting
      modifies `openQueue, `waiting, `pending, `woken
      ensures Valid() && openQueue == Without(old(openQueue), t) && waiting == old(waiting) - {t}
    {
      hide Fifo, Wakeup, Increasing, Below;
      FifoLeave(served, openQueue, tickets, t);
      if !closed {
        QueueIncreasing(served, openQueue, tickets);
        WakeupIsNoStray(openQueue, waiting, pending, woken, nextStream <= maxStream);
        WakeupLeave(openQueue, waiting, pending, woken, nextStream <= maxStream, t);
      }
      openQueue := Without(openQueue, t);
      waiting, pending, woken := waiting - {t}, pending - {t}, woken - {t};
      if !closed {
        WakeupSignal(openQueue, waiting, pending, woken, nextStream <= maxStream);
      }
      MaybeUnblockOpenSync();
    }

    // A caller that took a signal looks at the limit. There always is a stream for it.
    method Recheck(t: nat, cancelled: bool) returns (r: Result)
      requires Valid() && t in woken
      modifies `openQueue, `waiting, `pending, `woken, `streams, `nextStream, `served
      ensures Valid()
      ensures r.Closed? <==> closed
      ensures r.Cancelled? <==> !closed && cancelled
      ensures r.Opened? <==> !closed && !cancelled
      ensures r.Opened? ==> r.id == old(nextStream) && served == old(served) + [t] && old(openQueue) == [t] + openQueue
      ensures !r.Opened? ==> served == old(served)
      ensures !r.Opened? ==> openQueue == if closed then old(openQueue) else Without(old(openQueue), t)
      ensures waiting == old(waiting) - {t}
    {
      if closed {
        waiting, pending, woken := waiting - {t}, pending - {t}, woken - {t};
        return Closed;
      }
      if cancelled {
        Leave(t);
        return Cancelled;
      }
      if nextStream > maxStream {
        return Waits(t);
      }
      var id := Serve(t);
      return Opened(id);
    }

    method Serve(t: nat) returns (id: int)
      requires Valid() && t in woken && !closed && nextStream <= maxStream
      modifies `openQueue, `waiting, `pending, `woken, `streams, `nextStream, `served
      ensures Valid() && id == old(nextStream) && served == old(served) + [t] && old(openQueue) == [t] + openQueue
      ensures waiting == old(waiting) - {t}
    {
      hide Fifo, NoStray, Increasing, Below;
      QueueIncreasing(served, openQueue, tickets);
      WakeupServe(openQueue, waiting, pending, woken, t, nextStream + 4 <= maxStream);
      FifoServe(served, openQueue, tickets);
      id := Open(t);
      openQueue := openQueue[1..];
      waiting, pending, woken := waiting - {t}, pending - {t}, woken - {t};
      WakeupSignal(openQueue, waiting, pending, woken, nextStream <= maxStream);
      MaybeUnblockOpenSync();
    }

    // A new limit from the peer.
    method SetMaxStream(id: int)
      requires Valid() && (id == INVALID_STREAM || (id >= 0 && id % 4 == first))
      modifies `maxStream, `blockedSent, `blocked, `pending
      ensures Valid() && maxStream == Max(old(maxStream), id)
    {
      if id <= maxStream {
        return;
      }
      hide Fifo, Wakeup;
      if !closed {
        WakeupRaise(openQueue, waiting, pending, woken, nextStream <= maxStream, nextStream <= id);
      }
      Raise(id);
      MaybeUnblockOpenSync();
    }

    method Raise(id: int)
      requires BlockedOnce() && maxStream < id && 0 <= id && (maxStream == INVALID_STREAM || maxStream % 4 == id % 4)
      modifies `maxStream, `blockedSent, `blocked
      ensures BlockedOk() && maxStream == id
    {
      maxStream := id;
      blockedSent := false;
      if maxStream < nextStream - 4 + 4 * |openQueue| {
        MaybeSendBlockedFrame();
      }
    }

    // Every caller that waits is released.
    method CloseWithError()
      requires Valid()
      modifies `closed, `openQueue, `pending
      ensures Valid() && closed && openQueue == []
    {
      closed := true;
      pending := pending + waiting;
      openQueue := [];
    }
  }

  // Whenever there are streams for callers that wait, letting the first one run is enough:
  // the callers are served in their order until none waits or the limit is reached, whatever
  // state the map is in.
  method ServeAll(m: OutgoingStreams) returns (n: nat, ids: seq<int>)
    requires m.Valid() && !m.closed
    modifies m
    ensures m.Valid() && (m.openQueue == [] || m.nextStream > m.maxStream)
    ensures n <= |old(m.openQueue)| && m.served == old(m.served) + old(m.openQueue)[..n]
      && m.openQueue == old(m.openQueue)[n..]
    ensures m.maxStream == old(m.maxStream) && m.nextStream == old(m.nextStream) + 4 * n
    ensures m.tickets == old(m.tickets) && !m.closed
    ensures |ids| == n && forall i :: 0 <= i < n ==> ids[i] == old(m.nextStream) + 4 * i
  {
    hide Fifo, Wakeup;
    n, ids := 0, [];
    while m.openQueue != [] && m.nextStream <= m.maxStream
      invariant m.Valid() && !m.closed && m.maxStream == old(m.maxStream) && m.tickets == old(m.tickets)
      invariant 0 <= n <= |old(m.openQueue)| && m.openQueue == old(m.openQueue)[n..]
      invariant m.served == old(m.served) + old(m.openQueue)[..n]
      invariant m.nextStream == old(m.nextStream) + 4 * n
      invariant |ids| == n && forall i :: 0 <= i < n ==> ids[i] == old(m.nextStream) + 4 * i
      decreases |m.openQueue|
    {
      var head := m.openQueue[0];
      HeadSignalled(m);
      if head !in m.woken {
        m.TakeSignal(head);
      }
      var r := m.Recheck(head, false);
      assert old(m.openQueue)[..n + 1] == old(m.openQueue)[..n] + [head];
      n, ids := n + 1, ids + [r.id];
    }
  }

  lemma HeadSignalled(m: OutgoingStreams)
    requires m.Valid() && !m.closed && m.openQueue != [] && m.nextStream <= m.maxStream
    ensures m.openQueue[0] in m.pending || m.openQueue[0] in m.woken
  {
  }

  // What a thread may do next.
  datatype Action =
    | OpenNow
    | OpenOrWait(cancelled: bool)
    | Take(ticket: nat)
    | Cancel(ticket: nat)
    | Look(ticket: nat, cancelled: bool)
    | Limit(id: int)
    | Shutdown

  // A call that may open a stream.
  predicate Asks(a: Action) {
    a.OpenNow? || a.OpenOrWait?
  }

  // Nobody gives up, and nobody is turned away.
  predicate Patient(a: Action) {
    match a
    case OpenOrWait(cancelled) => !cancelled
    case Look(_, cancelled) => !cancelled
    case Take(_) => true
    case Limit(_) => true
    case _ => false
  }

  ghost predicate AllPatient(actions: seq<Action>) {
    forall i :: 0 <= i < |actions| ==> Patient(actions[i])
  }

  // How many calls may have opened a stream.
  function Calls(actions: seq<Action>): nat {
    if actions == [] then 0 else Calls(actions[..|actions| - 1]) + if Asks(actions[|actions| - 1]) then 1 else 0
  }

  // The first n tickets.
  function UpTo(n: nat): (s: seq<nat>)
    ensures |s| == n && forall i :: 0 <= i < n ==> s[i] == i
  {
    seq(n, i => i)
  }

  // The highest limit.
  function Highest(actions: seq<Action>): int {
    if actions == [] then INVALID_STREAM
    else
      var last := actions[|actions| - 1];
      Max(Highest(actions[..|actions| - 1]), if last.Limit? then last.id else INVALID_STREAM)
  }

  // What a run is about: the tickets served, those in line, those with a signal, those that took one.
  datatype View = View(served: seq<nat>, line: seq<nat>, pending: set<nat>, woken: set<nat>, tickets: nat,
                       maxStream: int, closed: bool)
  {
    // There is a stream to hand out.
    predicate Available()
      requires maxStream >= INVALID_STREAM
    {
      !closed && |served| < StreamNum(maxStream)
    }
  }

  function ViewOf(m: OutgoingStreams): View
    reads m`served, m`openQueue, m`pending, m`woken, m`tickets, m`maxStream, m`closed
  {
    View(m.served, m.openQueue, m.pending, m.woken, m.tickets, m.maxStream, m.closed)
  }

  // The first in line gets a stream, with the next ID.
  ghost predicate Serves(first: nat, v: View, v': View, t: nat, r: Result) {
    r == Opened(first + 4 * |v.served|) && v'.served == v.served + [t]
  }

  ghost predicate Leaves(v: View, v': View, t: nat) {
    v'.served == v.served && v'.line == Without(v.line, t)
  }

  ghost predicate Stays(v: View, v': View) {
    v'.served == v.served && v'.line == v.line
  }

  // What a step does to those served and those in line.
  ghost predicate Moves(first: nat, v: View, v': View, a: Action, r: Result)
    requires v.maxStream >= INVALID_STREAM
  {
    match a
    case OpenNow =>
      if v.Available() && v.line == [] then Serves(first, v, v', v.tickets, r) && v'.line == []
      else Stays(v, v') && (r.Closed? || r.LimitReached?) && (r.Closed? <==> v.closed)
    case OpenOrWait(cancelled) =>
      if v.closed then Stays(v, v') && r.Closed?
      else if cancelled then Stays(v, v') && r.Cancelled?
      else if v.Available() && v.line == [] then Serves(first, v, v', v.tickets, r) && v'.line == []
      else v'.served == v.served && v'.line == v.line + [v.tickets] && r == Waits(v.tickets)
    case Take(t) => Stays(v, v') && v'.woken == v.woken + if t in v.pending then {t} else {}
    case Cancel(t) => !r.Opened? && if t in v.line && t !in v.woken && !v.closed then Leaves(v, v', t) else Stays(v, v')
    case Look(t, cancelled) =>
      if t !in v.woken then Stays(v, v') && !r.Opened?
      else if v.closed then Stays(v, v') && r.Closed?
      else if cancelled then Leaves(v, v', t) && r.Cancelled?
      else Serves(first, v, v', t, r) && v.line == [t] + v'.line
    case Limit(_) => Stays(v, v')
    case Shutdown => v'.served == v.served && v'.line == []
  }

  ghost predicate Stepped(first: nat, v: View, v': View, a: Action, r: Result) {
    && v.maxStream >= INVALID_STREAM && Moves(first, v, v', a, r)
    && v'.tickets == v.tickets + (if Asks(a) then 1 else 0)
    && v'.maxStream == Max(v.maxStream, if a.Limit? then a.id else INVALID_STREAM)
    && v'.closed == (v.closed || a.Shutdown?)
    && (a.Take? || a.Limit? || a.Shutdown? ==> !r.Opened?)
  }

  // Whoever is first in line has a signal, or has taken it, when there is a stream.
  ghost predicate Awake(v: View) {
    v.maxStream >= INVALID_STREAM && (v.line != [] && v.Available() ==> v.line[0] in v.pending || v.line[0] in v.woken)
  }

  // One step of some thread, if it can take it in this state.
  method Step(m: OutgoingStreams, a: Action) returns (r: Result)
    requires m.Valid() && (a.Limit? ==> a.id == INVALID_STREAM || (a.id >= 0 && a.id % 4 == m.first))
    modifies m
    ensures m.Valid() && Stepped(m.first, old(ViewOf(m)), ViewOf(m), a, r)
  {
    hide OutgoingStreams.Valid, Stepped;
    r := LimitReached;
    match a {
      case OpenNow => r := Ask(m, a);
      case OpenOrWait(_) => r := Ask(m, a);
      case Take(t) => Signal(m, t);
      case Cancel(t) => GiveUp(m, t);
      case Look(t, cancelled) => r := LookUp(m, t, cancelled);
      case Limit(id) => Raise(m, id);
      case Shutdown => Close(m);
    }
  }

  method Signal(m: OutgoingStreams, t: nat)
    requires m.Valid()
    modifies m`pending, m`woken
    ensures m.Valid() && Stepped(m.first, old(ViewOf(m)), ViewOf(m), Take(t), LimitReached)
  {
    hide OutgoingStreams.Valid;
    NextId(m);
    if t in m.pending && t !in m.woken {
      m.TakeSignal(t);
    }
  }

  method GiveUp(m: OutgoingStreams, t: nat)
    requires m.Valid()
    modifies m`openQueue, m`waiting, m`pending, m`woken
    ensures m.Valid() && Stepped(m.first, old(ViewOf(m)), ViewOf(m), Cancel(t), LimitReached)
  {
    hide OutgoingStreams.Valid;
    NextId(m);
    if t in m.waiting && t !in m.woken {
      m.CancelWait(t);
    }
  }

  method Raise(m: OutgoingStreams, id: int)
    requires m.Valid() && (id == INVALID_STREAM || (id >= 0 && id % 4 == m.first))
    modifies m`maxStream, m`blockedSent, m`blocked, m`pending
    ensures m.Valid() && Stepped(m.first, old(ViewOf(m)), ViewOf(m), Limit(id), LimitReached)
  {
    hide OutgoingStreams.Valid;
    NextId(m);
    m.SetMaxStream(id);
  }

  method Close(m: OutgoingStreams)
    requires m.Valid()
    modifies m`closed, m`openQueue, m`pending
    ensures m.Valid() && Stepped(m.first, old(ViewOf(m)), ViewOf(m), Shutdown, LimitReached)
  {
    hide OutgoingStreams.Valid;
    NextId(m);
    m.CloseWithError();
  }

  method Ask(m: OutgoingStreams, a: Action) returns (r: Result)
    requires m.Valid() && Asks(a)
    modifies m
    ensures m.Valid() && Stepped(m.first, old(ViewOf(m)), ViewOf(m), a, r)
  {
    hide OutgoingStreams.Valid;
    NextId(m);
    if a.OpenNow? {
      r := m.OpenStream();
    } else {
      r := m.OpenStreamSync(a.cancelled);
    }
  }

  method LookUp(m: OutgoingStreams, t: nat, cancelled: bool) returns (r: Result)
    requires m.Valid()
    modifies m
    ensures m.Valid() && Stepped(m.first, old(ViewOf(m)), ViewOf(m), Look(t, cancelled), r)
  {
    hide OutgoingStreams.Valid;
    NextId(m);
    r := LimitReached;
    if t in m.woken {
      r := m.Recheck(t, cancelled);
    }
  }

  lemma NextId(m: OutgoingStreams)
    requires m.Valid()
    ensures m.nextStream == m.first + 4 * |m.served| && m.maxStream >= INVALID_STREAM
    ensures m.nextStream <= m.maxStream <==> |m.served| < StreamNum(m.maxStream)
    ensures !m.closed ==> forall t :: t in m.waiting <==> t in m.openQueue
    ensures m.closed ==> m.openQueue == []
    ensures Awake(ViewOf(m))
  {
    hide Fifo;
  }

  // Those served and those in line, when t joins the line or gets to its head.
  lemma Lines(served: seq<nat>, queue: seq<nat>, t: nat)
    ensures served + (queue + [t]) == (served + queue) + [t] && (served + [t]) + queue == served + ([t] + queue)
  {
  }

  // Any interleaving of any number of callers, step by step, after which those that wait are let run
  // until none of them gets a stream any more. Streams are handed out in the order of the calls,
  // each with the next ID; whoever is first in line is awake when there is a stream; nobody waits for
  // one that is there; and if nobody gave up, exactly the first callers got one, as many as the
  // highest limit allows.
  method Run(first: nat, actions: seq<Action>)
    returns (m: OutgoingStreams, ids: seq<int>, trace: seq<View>, results: seq<Result>)
    requires first < 4
    requires forall i :: 0 <= i < |actions| && actions[i].Limit? ==>
      actions[i].id == INVALID_STREAM || (actions[i].id >= 0 && actions[i].id % 4 == first)
    ensures |trace| == |actions| + 1 && |results| == |actions|
      && trace[0] == View([], [], {}, {}, 0, INVALID_STREAM, false)
    ensures forall i :: 0 <= i < |actions| ==> Stepped(first, trace[i], trace[i + 1], actions[i], results[i])
    ensures forall i :: 0 <= i < |trace| ==> Awake(trace[i])
    ensures m.Valid() && m.tickets == Calls(actions) && m.maxStream == Highest(actions)
      && (m.closed <==> Shutdown in actions)
    ensures trace[|actions|].served <= m.served && Increasing(m.served)
    ensures |ids| == |m.served| && forall i :: 0 <= i < |ids| ==> ids[i] == first + 4 * i
    ensures m.openQueue == [] || |m.served| >= StreamNum(m.maxStream)
    ensures AllPatient(actions) ==> m.served == UpTo(Min(m.tickets, StreamNum(m.maxStream)))
  {
    hide Increasing, OutgoingStreams.Valid, Stepped, Awake;
    m, ids, trace, results := RunActions(first, actions);
    NextId(m);
    if !m.closed {
      ghost var served, queue := m.served, m.openQueue;
      var n, more := ServeAll(m);
      ids := ids + more;
      assert m.served + m.openQueue == served + queue;
    }
    AtTheEnd(m);
    if AllPatient(actions) {
      assert m.served == UpTo(m.tickets)[..|m.served|];
    }
  }

  // What is known after these actions.
  ghost predicate Ran(first: nat, v: View, ids: seq<int>, actions: seq<Action>) {
    && |ids| == |v.served| && (forall k :: 0 <= k < |ids| ==> ids[k] == first + 4 * k)
    && v.tickets == Calls(actions) && v.maxStream == Highest(actions) && (v.closed <==> Shutdown in actions)
    && (AllPatient(actions) ==> !v.closed && v.served + v.line == UpTo(v.tickets))
  }

  method RunActions(first: nat, actions: seq<Action>)
    returns (m: OutgoingStreams, ids: seq<int>, trace: seq<View>, results: seq<Result>)
    requires first < 4
    requires forall i :: 0 <= i < |actions| && actions[i].Limit? ==>
      actions[i].id == INVALID_STREAM || (actions[i].id >= 0 && actions[i].id % 4 == first)
    ensures fresh(m) && m.Valid() && m.first == first && Ran(first, ViewOf(m), ids, actions)
    ensures |trace| == |actions| + 1 && |results| == |actions|
    ensures trace[0] == View([], [], {}, {}, 0, INVALID_STREAM, false) && trace[|actions|] == ViewOf(m)
    ensures forall i :: 0 <= i < |actions| ==> Stepped(first, trace[i], trace[i + 1], actions[i], results[i])
    ensures forall i :: 0 <= i < |trace| ==> Awake(trace[i])
  {
    hide OutgoingStreams.Valid, Stepped, Ran, Awake;
    m := new OutgoingStreams(first);
    ids, trace, results := [], [ViewOf(m)], [];
    NothingRan(first);
    NextId(m);
    assert actions[..0] == [];
    var i := 0;
    while i < |actions|
      invariant 0 <= i <= |actions| && fresh(m) && m.Valid() && m.first == first
        && Ran(first, ViewOf(m), ids, actions[..i])
      invariant |trace| == i + 1 && |results| == i && trace[i] == ViewOf(m)
      invariant trace[0] == View([], [], {}, {}, 0, INVALID_STREAM, false)
      invariant forall k :: 0 <= k < i ==> Stepped(first, trace[k], trace[k + 1], actions[k], results[k])
      invariant forall k :: 0 <= k < |trace| ==> Awake(trace[k])
      decreases |actions| - i
    {
      var r := Step(m, actions[i]);
      NextId(m);
      OneMoreAction(first, trace[i], ViewOf(m), ids, actions[..i], actions[i], r);
      ids := ids + if r.Opened? then [r.id] else [];
      trace, results := trace + [ViewOf(m)], results + [r];
      assert actions[..i + 1] == actions[..i] + [actions[i]];
      i := i + 1;
    }
    assert actions[..i] == actions;
  }

  lemma OneMoreAction(first: nat, v: View, v': View, ids: seq<int>, actions: seq<Action>, a: Action, r: Result)
    requires Ran(first, v, ids, actions) && Stepped(first, v, v', a, r)
    ensures Ran(first, v', ids + if r.Opened? then [r.id] else [], actions + [a])
  {
    hide Calls, Highest, AllPatient;
    MoreActions(actions, a);
    MorePatient(actions, a);
    assert UpTo(v.tickets + 1) == UpTo(v.tickets) + [v.tickets];
    if Patient(a) && !v.closed { LineKept(first, v, v', a, r); }
  }

  // As long as nobody gives up, those served and those in line stay in their order.
  lemma LineKept(first: nat, v: View, v': View, a: Action, r: Result)
    requires Stepped(first, v, v', a, r) && Patient(a) && !v.closed
    ensures v'.served + v'.line == v.served + v.line + if Asks(a) then [v.tickets] else []
  {
    Lines(v.served, v'.line, if a.Look? then a.ticket else v.tickets);
    Lines(v.served, v.line, v.tickets);
  }

  lemma MoreActions(actions: seq<Action>, a: Action)
    ensures Calls(actions + [a]) == Calls(actions) + if Asks(a) then 1 else 0
    ensures Highest(actions + [a]) == Max(Highest(actions), if a.Limit? then a.id else INVALID_STREAM)
  {
    assert (actions + [a])[..|actions|] == actions;
  }

  lemma MorePatient(actions: seq<Action>, a: Action)
    ensures AllPatient(actions + [a]) <==> AllPatient(actions) && Patient(a)
    ensures Shutdown in actions + [a] <==> Shutdown in actions || a.Shutdown?
  {
    var more := actions + [a];
    assert forall k :: 0 <= k < |actions| ==> more[k] == actions[k];
    assert more[|actions|] == a;
  }

  lemma NothingRan(first: nat)
    ensures Ran(first, View([], [], {}, {}, 0, INVALID_STREAM, false), [], [])
  {
  }

  // What the invariant says when no one else can be served.
  lemma AtTheEnd(m: OutgoingStreams)
    requires m.Valid()
    ensures Increasing(m.served) && (m.closed ==> m.openQueue == []) && m.maxStream >= INVALID_STREAM
    ensures m.nextStream > m.maxStream <==> |m.served| >= StreamNum(m.maxStream)
    ensures |m.served| <= StreamNum(m.maxStream)
  {
    hide Wakeup;
  }
}
