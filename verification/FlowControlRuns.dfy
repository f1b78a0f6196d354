// Whole runs of several streams on one connection.
module FlowControlRuns {
  import opened Protocol
  import opened FlowControl

  // What can happen: streams are named by the order in which they were opened.
  datatype Op =
    | OpenOp(window: nat, maxWindow: nat, sendWindow: nat)
    | SendOp(i: nat, n: nat)
    | SendLimitedOp(i: nat, n: nat, limit: int)
    | CreditOp(i: nat, offset: nat)
    | ConnCreditOp(offset: nat)
    | ReceiveOp(i: nat, offset: nat, final: bool)
    | ReadOp(i: nat, n: nat)
    | AbandonOp(i: nat)
    | UpdateOp(i: nat, rttKnown: bool, tooFast: bool, allowed: bool)
    | ConnUpdateOp(rttKnown: bool, tooFast: bool, allowed: bool)
    | ResetOp

  // One level at one moment.
  datatype Level = Level(sent: nat, sendWindow: nat, highest: nat, read: nat, window: nat, windowSize: nat,
                         epoch: bool, final: bool)
  {
    predicate Due() {
      window - read <= windowSize * 3 / 4
    }

    // Within the credit granted in both directions.
    predicate Within() {
      sent <= sendWindow && read <= highest <= window <= read + windowSize
    }
  }

  // A moment of a run: how often the connection was reset by then, the connection, and its streams since.
  datatype Moment = Moment(resets: nat, connection: Level, streams: seq<Level>)

  ghost function Sent(ls: seq<Level>): nat {
    if ls == [] then 0 else Sent(ls[..|ls| - 1]) + ls[|ls| - 1].sent
  }

  ghost function Highest(ls: seq<Level>): nat {
    if ls == [] then 0 else Highest(ls[..|ls| - 1]) + ls[|ls| - 1].highest
  }

  ghost function Read(ls: seq<Level>): nat {
    if ls == [] then 0 else Read(ls[..|ls| - 1]) + ls[|ls| - 1].read
  }

  // The counters of the connection are the sums over its streams, and all keep to their credit.
  ghost predicate Balanced(m: Moment) {
    && m.connection.Within() && (forall i :: 0 <= i < |m.streams| ==> m.streams[i].Within())
    && m.connection.sent == Sent(m.streams) && m.connection.highest == Highest(m.streams)
    && m.connection.read == Read(m.streams)
  }

  // Nothing granted is taken back, in either direction, and no counter runs backwards.
  ghost predicate Grows(a: Level, b: Level) {
    a.sent <= b.sent && a.sendWindow <= b.sendWindow && a.highest <= b.highest && a.read <= b.read
      && a.window <= b.window
  }

  // From a to b: a reset takes back what was granted to us, but not what we granted.
  ghost predicate Later(a: Moment, b: Moment) {
    && a.resets <= b.resets && a.connection.window <= b.connection.window
    && (a.resets == b.resets ==>
          && Grows(a.connection, b.connection) && |a.streams| <= |b.streams|
          && forall i :: 0 <= i < |a.streams| ==> Grows(a.streams[i], b.streams[i]))
  }

  // ----------------------------------------------------------------- effects

  // The stream s and its connection c take n bytes of credit.
  ghost predicate Takes(s: Level, s': Level, c: Level, c': Level, n: nat) {
    s' == s.(sent := s.sent + n) && c' == c.(sent := c.sent + n)
  }

  ghost predicate Reads(s: Level, s': Level, c: Level, c': Level, n: nat) {
    s' == s.(read := s.read + n) && c' == c.(read := c.read + n)
  }

  // The credit left on both levels.
  function Room(s: Level, c: Level): nat {
    Max(0, Min(s.sendWindow - s.sent, c.sendWindow - c.sent))
  }

  // Data up to offset, the end of the stream if final, is what the stream may receive.
  predicate Acceptable(s: Level, c: Level, offset: nat, final: bool) {
    && (s.final ==> offset <= s.highest) && (final ==> s.highest <= offset)
    && (s.highest < offset ==> offset <= s.window && c.highest + (offset - s.highest) <= c.window)
  }

  // What an operation of a stream does to it and to its connection.
  ghost predicate StreamEffect(op: Op, s: Level, s': Level, c: Level, c': Level) {
    match op
    case SendOp(_, n) => Takes(s, s', c, c', if n <= Room(s, c) then n else 0)
    case SendLimitedOp(_, n, limit) => Takes(s, s', c, c', Min(Min(n, Room(s, c)), Max(limit, 0)))
    case CreditOp(_, offset) => s' == s.(sendWindow := Max(s.sendWindow, offset)) && c' == c
    case ReceiveOp(_, offset, final) =>
      && Acceptable(s, c, offset, final)
      && s' == s.(highest := Max(s.highest, offset), final := s.final || final, epoch := s'.epoch)
      && c' == c.(highest := c.highest + s'.highest - s.highest, epoch := c'.epoch)
    case ReadOp(_, n) => Reads(s, s', c, c', if s.read + n <= s.highest then n else 0)
    case AbandonOp(_) => s.read <= s.highest && Reads(s, s', c, c', s.highest - s.read)
    case UpdateOp(_, _, _, _) =>
      && Updates(s, s', !s.final && s.Due())
      && c' == c.(windowSize := c'.windowSize, epoch := c'.epoch) && c.windowSize <= c'.windowSize
    case _ => s' == s && c' == c
  }

  // A new window is granted if and only if it is due.
  ghost predicate Updates(l: Level, l': Level, due: bool) {
    && l' == l.(window := if due then l.read + l'.windowSize else l.window,
                windowSize := l'.windowSize, epoch := l'.epoch)
    && l.windowSize <= l'.windowSize
  }

  // What an operation does.
  ghost predicate Effect(op: Op, m: Moment, m': Moment) {
    match op
    case OpenOp(window, _, sendWindow) =>
      m' == m.(streams := m.streams + [Level(0, sendWindow, 0, 0, window, window, false, false)])
    case ConnCreditOp(offset) =>
      m' == m.(connection := m.connection.(sendWindow := Max(m.connection.sendWindow, offset)))
    case ConnUpdateOp(_, _, _) =>
      m' == m.(connection := m'.connection) && Updates(m.connection, m'.connection, m.connection.Due())
    case ResetOp =>
      if m.connection.read == 0 && m.connection.highest == 0 && !m.connection.epoch
      then m' == Moment(m.resets + 1, m.connection.(sent := 0, sendWindow := 0), []) else m' == m
    case _ =>
      if op.i >= |m.streams| then m' == m
      else
        && m'.resets == m.resets && |m'.streams| == |m.streams|
        && m'.streams == m.streams[op.i := m'.streams[op.i]]
        && StreamEffect(op, m.streams[op.i], m'.streams[op.i], m.connection, m'.connection)
  }

  // The peer sends more than it may, or contradicts itself about the end of the stream.
  predicate Violates(op: Op, m: Moment) {
    op.ReceiveOp? && op.i < |m.streams| && !Acceptable(m.streams[op.i], m.connection, op.offset, op.final)
  }

  lemma LaterTrans(a: Moment, b: Moment, c: Moment)
    requires Later(a, b) && Later(b, c)
    ensures Later(a, c)
  {
  }

  // ------------------------------------------------------------------ state

  function StreamLevel(s: Stream): Level
    reads s
  {
    Level(s.bytesSent, s.sendWindow, s.recv.highestReceived, s.recv.bytesRead, s.recv.window, s.recv.windowSize,
          s.recv.epochStarted, s.receivedFinalOffset)
  }

  function ConnLevel(c: Connection): Level
    reads c
  {
    Level(c.bytesSent, c.sendWindow, c.recv.highestReceived, c.recv.bytesRead, c.recv.window, c.recv.windowSize,
          c.recv.epochStarted, false)
  }

  function Levels(ss: seq<Stream>): (r: seq<Level>)
    reads ss
    ensures |r| == |ss| && forall i :: 0 <= i < |ss| ==> r[i] == StreamLevel(ss[i])
  {
    seq(|ss|, i requires 0 <= i < |ss| reads ss => StreamLevel(ss[i]))
  }

  // The streams of the run are those in the connection's books.
  ghost predicate Holds(c: Connection, ss: seq<Stream>)
    reads c, c.books.Keys
  {
    && c.Valid()
    && (forall i :: 0 <= i < |ss| ==> ss[i] in c.books && ss[i].connection == c)
    && (forall s :: s in c.books ==> s in ss)
    && (forall i, j :: 0 <= i < j < |ss| ==> ss[i] != ss[j])
  }

  // The accounts m are those of the streams ss, at the levels ls.
  ghost predicate Lists(m: map<Stream, Account>, ss: seq<Stream>, ls: seq<Level>) {
    && |ss| == |ls|
    && (forall i :: 0 <= i < |ss| ==> ss[i] in m && m[ss[i]] == Account(ls[i].sent, ls[i].highest, ls[i].read))
    && (forall s :: s in m ==> s in ss)
    && (forall i, j :: 0 <= i < j < |ss| ==> ss[i] != ss[j])
  }

  lemma ListsButLast(m: map<Stream, Account>, ss: seq<Stream>, ls: seq<Level>)
    requires Lists(m, ss, ls) && ss != []
    ensures |ls| == |ss| && ss[|ss| - 1] in m && Lists(m - {ss[|ss| - 1]}, ss[..|ss| - 1], ls[..|ss| - 1])
    ensures m[ss[|ss| - 1]] == Account(ls[|ss| - 1].sent, ls[|ss| - 1].highest, ls[|ss| - 1].read)
  {
    var n := |ss| - 1;
    forall s | s in m - {ss[n]}
      ensures s in ss[..n]
    {
      assert s in ss;
      var i :| 0 <= i < |ss| && ss[i] == s;
      assert ss[..n][i] == s;
    }
  }

  // The sum over the books is the sum over the list.
  lemma {:induction false} SumOfList(m: map<Stream, Account>, ss: seq<Stream>, ls: seq<Level>)
    requires Lists(m, ss, ls)
    ensures Sum(m) == Account(Sent(ls), Highest(ls), Read(ls))
    decreases |ss|
  {
    hide Sum, Lists;
    if ss == [] {
      NoAccounts(m, ss, ls);
    } else {
      var n := |ss| - 1;
      ListsButLast(m, ss, ls);
      SumRemove(m, ss[n]);
      SumOfList(m - {ss[n]}, ss[..n], ls[..n]);
    }
  }

  lemma NoAccounts(m: map<Stream, Account>, ss: seq<Stream>, ls: seq<Level>)
    requires Lists(m, ss, ls) && ss == []
    ensures Sum(m) == Account(0, 0, 0) && ls == []
  {
    assert m.Keys == {};
    assert |m| == |m.Keys|;
  }

  // ------------------------------------------------------------------- runs

  // One operation of a stream, if it is possible in this state.
  method Act(s: Stream, op: Op) returns (ok: bool)
    requires s.Valid()
    modifies s, s.connection
    ensures ok ==> s.Valid() && s.connection.books.Keys == old(s.connection.books.Keys)
    ensures ok ==> StreamEffect(op, old(StreamLevel(s)), StreamLevel(s), old(ConnLevel(s.connection)),
                                ConnLevel(s.connection))
    ensures !ok ==> op.ReceiveOp? && !old(Acceptable(StreamLevel(s), ConnLevel(s.connection), op.offset, op.final))
  {
    hide Stream.Valid, StreamEffect, Acceptable;
    if op.SendOp? || op.SendLimitedOp? || op.CreditOp? {
      Send(s, op);
      ok := true;
    } else {
      ok := Receive(s, op);
    }
  }

  method Send(s: Stream, op: Op)
    requires s.Valid() && (op.SendOp? || op.SendLimitedOp? || op.CreditOp?)
    modifies s, s.connection
    ensures s.Valid() && s.connection.books.Keys == old(s.connection.books.Keys)
    ensures StreamEffect(op, old(StreamLevel(s)), StreamLevel(s), old(ConnLevel(s.connection)), ConnLevel(s.connection))
  {
    hide Stream.Valid, Sum;
    StreamOk(s);
    match op {
      case SendOp(_, n) =>
        var sent := s.TryAddBytesSent(n);
      case SendLimitedOp(_, n, limit) =>
        var added, limited := s.AddBytesSentWithLimiter(n, limit);
        StreamOk(s);
      case CreditOp(_, offset) =>
        var updated := s.UpdateSendWindow(offset);
    }
  }

  method Receive(s: Stream, op: Op) returns (ok: bool)
    requires s.Valid() && !op.SendOp? && !op.SendLimitedOp? && !op.CreditOp?
    modifies s, s.connection
    ensures ok ==> s.Valid() && s.connection.books.Keys == old(s.connection.books.Keys)
    ensures ok ==> StreamEffect(op, old(StreamLevel(s)), StreamLevel(s), old(ConnLevel(s.connection)),
                                ConnLevel(s.connection))
    ensures !ok ==> op.ReceiveOp? && !old(Acceptable(StreamLevel(s), ConnLevel(s.connection), op.offset, op.final))
  {
    hide Stream.Valid, Sum;
    StreamOk(s);
    ok := true;
    match op {
      case ReceiveOp(_, offset, final) =>
        var v := s.UpdateHighestReceived(offset, final);
        ok := v.Ok?;
      case ReadOp(_, n) =>
        if s.recv.bytesRead + n <= s.recv.highestReceived {
          var a, b := s.AddBytesRead(n);
        }
      case AbandonOp(_) =>
        s.Abandon();
      case UpdateOp(_, rttKnown, tooFast, allowed) =>
        var offset := s.GetWindowUpdate(rttKnown, tooFast, allowed);
      case _ =>
    }
  }

  lemma StreamOk(s: Stream)
    requires s.Valid()
    ensures s.recv.bytesRead <= s.recv.highestReceived
    ensures s.bytesSent <= s.sendWindow && s.connection.bytesSent <= s.connection.sendWindow
  {
  }

  method StreamStep(c: Connection, ss: seq<Stream>, i: nat, op: Op, ghost resets: nat) returns (ok: bool)
    requires Holds(c, ss) && i < |ss| && StreamOp(op) && op.i == i
    modifies c, ss
    ensures ok ==> Holds(c, ss) && Effect(op, old(Snap(c, ss, resets)), Snap(c, ss, resets))
    ensures !ok ==> Violates(op, old(Snap(c, ss, resets)))
  {
    hide Connection.Valid, StreamEffect, Acceptable;
    ghost var before := Levels(ss);
    var s := ss[i];
    ok := Act(s, op);
    if ok {
      assert Levels(ss) == before[i := StreamLevel(s)];
    }
  }

  predicate StreamOp(op: Op) {
    op.SendOp? || op.SendLimitedOp? || op.CreditOp? || op.ReceiveOp? || op.ReadOp? || op.AbandonOp? || op.UpdateOp?
  }

  // One operation of the connection or of a stream, if it is possible in this state. Violations
  // of flow control by the peer end the run.
  method Step(c: Connection, ss: seq<Stream>, op: Op, ghost resets: nat)
    returns (ok: bool, ss': seq<Stream>, reset: bool)
    requires Holds(c, ss)
    modifies c, ss
    ensures ok ==> Holds(c, ss') && (forall s :: s in ss' && s !in ss ==> fresh(s))
    ensures ok ==> Effect(op, old(Snap(c, ss, resets)), Snap(c, ss', resets + if reset then 1 else 0))
    ensures !ok ==> Violates(op, old(Snap(c, ss, resets)))
  {
    hide Connection.Valid, StreamEffect, Acceptable;
    ok, ss', reset := true, ss, false;
    ghost var before := Levels(ss);
    if StreamOp(op) {
      if op.i < |ss| {
        ok := StreamStep(c, ss, op.i, op, resets);
      }
    } else {
      ss', reset := ConnStep(c, ss, op, resets);
    }
  }

  method ConnStep(c: Connection, ss: seq<Stream>, op: Op, ghost resets: nat) returns (ss': seq<Stream>, reset: bool)
    requires Holds(c, ss) && !StreamOp(op)
    modifies c
    ensures Holds(c, ss') && (forall s :: s in ss' && s !in ss ==> fresh(s))
    ensures Effect(op, old(Snap(c, ss, resets)), Snap(c, ss', resets + if reset then 1 else 0))
  {
    hide Connection.Valid;
    ss', reset := ss, false;
    ghost var before := Levels(ss);
    match op {
      case OpenOp(window, maxWindow, sendWindow) =>
        var s := new Stream(c, window, maxWindow, sendWindow);
        ss' := ss + [s];
        assert Levels(ss') == before + [StreamLevel(s)];
      case ConnCreditOp(offset) =>
        var updated := c.UpdateSendWindow(offset);
        assert Levels(ss) == before;
      case ConnUpdateOp(rttKnown, tooFast, allowed) =>
        var offset := c.GetWindowUpdate(rttKnown, tooFast, allowed);
        assert Levels(ss) == before;
      case ResetOp =>
        reset := c.Reset();
        if reset {
          ss' := [];
        }
    }
  }

  function Snap(c: Connection, ss: seq<Stream>, resets: nat): Moment
    reads c, ss
  {
    Moment(resets, ConnLevel(c), Levels(ss))
  }

  lemma HoldsBalanced(c: Connection, ss: seq<Stream>, resets: nat)
    requires Holds(c, ss)
    ensures Balanced(Snap(c, ss, resets))
  {
    hide Sum;
    SumOfList(c.books, ss, Levels(ss));
  }

  // Any interleaving of any number of streams, step by step, up to the first violation by the peer:
  // at every moment the connection's counters are the sums over the streams opened since the last
  // reset, both levels keep to their credit in both directions, and nothing granted is taken back.
  method Run(window: nat, maxWindow: nat, ops: seq<Op>) returns (trace: seq<Moment>)
    ensures 0 < |trace| <= |ops| + 1 && trace[0] == Moment(0, Level(0, 0, 0, 0, window, window, false, false), [])
    ensures forall i :: 0 <= i < |trace| - 1 ==> Effect(ops[i], trace[i], trace[i + 1])
    ensures |trace| <= |ops| ==> Violates(ops[|trace| - 1], trace[|trace| - 1])
    ensures forall i :: 0 <= i < |trace| ==> Balanced(trace[i])
    ensures forall i, j :: 0 <= i < j < |trace| ==> Later(trace[i], trace[j])
  {
    hide Connection.Valid, Balanced, Later, Effect;
    var c := new Connection(window, maxWindow);
    var ss: seq<Stream>, resets := [], 0;
    trace := [Snap(c, ss, resets)];
    HoldsBalanced(c, ss, resets);
    var i := 0;
    while i < |ops|
      invariant 0 <= i <= |ops| && |trace| == i + 1 && fresh(c) && (forall s :: s in ss ==> fresh(s))
      invariant Holds(c, ss) && trace[i] == Snap(c, ss, resets)
      invariant trace[0] == Moment(0, Level(0, 0, 0, 0, window, window, false, false), [])
      invariant forall k :: 0 <= k < i ==> Effect(ops[k], trace[k], trace[k + 1])
      invariant forall k :: 0 <= k < |trace| ==> Balanced(trace[k])
      invariant forall k, l :: 0 <= k < l < |trace| ==> Later(trace[k], trace[l])
      decreases |ops| - i
    {
      var ok, ss', reset := Step(c, ss, ops[i], resets);
      if !ok {
        return;
      }
      ss, resets := ss', resets + if reset then 1 else 0;
      var m := Snap(c, ss, resets);
      HoldsBalanced(c, ss, resets);
      EffectLater(ops[i], trace[i], m);
      AllLater(trace, m);
      trace := trace + [m];
      i := i + 1;
    }
  }

  // No operation takes back what was granted.
  lemma EffectLater(op: Op, a: Moment, b: Moment)
    requires Effect(op, a, b) && Balanced(a) && Balanced(b)
    ensures Later(a, b)
  {
    hide Sent, Highest, Read;
    if StreamOp(op) && op.i < |a.streams| {
      assert Grows(a.streams[op.i], b.streams[op.i]);
      forall k | 0 <= k < |a.streams|
        ensures Grows(a.streams[k], b.streams[k])
      {
      }
    }
  }

  lemma AllLater(trace: seq<Moment>, m: Moment)
    requires trace != [] && Later(trace[|trace| - 1], m)
    requires forall k, l :: 0 <= k < l < |trace| ==> Later(trace[k], trace[l])
    ensures forall k :: 0 <= k < |trace| ==> Later(trace[k], m)
  {
    hide Later;
    forall k | 0 <= k < |trace|
      ensures Later(trace[k], m)
    {
      if k < |trace| - 1 { LaterTrans(trace[k], trace[|trace| - 1], m); }
    }
  }
}
