// Two-level flow control. Every byte a stream sends, receives or reads is also
// accounted for on its connection.
module FlowControl {
  import opened Protocol

  // ------------------------------------------------------ receive windows

  // The receive half shared by stream and connection controllers.
  datatype Receive = Receive(
    bytesRead: nat,
    highestReceived: nat,
    window: nat,
    windowSize: nat,
    maxWindowSize: nat,
    epochStarted: bool,
    epochStartOffset: nat)
  {
    // What the peer may have sent is bounded by the window, the window by what we read.
    predicate Ok() {
      && bytesRead <= highestReceived <= window <= bytesRead + windowSize
      && epochStartOffset <= bytesRead
    }

    function StartEpoch(): Receive {
      this.(epochStarted := true, epochStartOffset := bytesRead)
    }

    // More than a quarter of the window has been consumed.
    predicate HasWindowUpdate() {
      window - bytesRead <= windowSize * 3 / 4
    }

    predicate Violated() {
      highestReceived > window
    }

    // Auto-tuning: doubles the window size, up to its maximum, when it is consumed too fast.
    // Timing (tooFast), the RTT estimate and the consent of the application are inputs.
    function AdjustWindowSize(rttKnown: bool, tooFast: bool, allowed: bool): (r: Receive)
      requires Ok()
      ensures r.Ok() && windowSize <= r.windowSize <= Max(windowSize, maxWindowSize)
      ensures r == this.(windowSize := r.windowSize, epochStarted := r.epochStarted,
                         epochStartOffset := r.epochStartOffset)
    {
      if bytesRead - epochStartOffset <= windowSize / 2 || !rttKnown then this
      else
        var newSize := Min(2 * windowSize, maxWindowSize);
        (if tooFast && newSize > windowSize && allowed then this.(windowSize := newSize) else this).StartEpoch()
    }

    // The new offset to advertise, or 0; the window itself never moves back.
    function WindowUpdate(rttKnown: bool, tooFast: bool, allowed: bool): (r: (nat, Receive))
      requires Ok()
      ensures r.1.Ok() && window <= r.1.window && windowSize <= r.1.windowSize
      ensures r.1.bytesRead == bytesRead && r.1.highestReceived == highestReceived
      ensures !HasWindowUpdate() ==> r == (0, this)
      ensures HasWindowUpdate() ==> r.0 == r.1.window == bytesRead + r.1.windowSize
    {
      if !HasWindowUpdate() then (0, this)
      else
        var tuned := AdjustWindowSize(rttKnown, tooFast, allowed);
        var moved := tuned.(window := tuned.bytesRead + tuned.windowSize);
        (moved.window, moved)
    }
  }

  function NewReceive(window: nat, maxWindow: nat): (r: Receive)
    ensures r.Ok()
  {
    Receive(0, 0, window, window, maxWindow, false, 0)
  }

  // -------------------------------------------------- sums over the streams

  // What a stream has sent, may have received and has read.
  datatype Account = Account(sent: nat, highest: nat, read: nat)

  ghost function AnyKey<K>(m: map<K, Account>): (k: K)
    requires |m| > 0
    ensures k in m
  {
    assert m != map[];
    var k :| k in m; k
  }

  // The account of a connection, when m holds those of its streams.
  ghost function Sum<K>(m: map<K, Account>): Account
    decreases |m|
  {
    if |m| == 0 then Account(0, 0, 0) else Plus(m[AnyKey(m)], Sum(m - {AnyKey(m)}))
  }

  function Plus(a: Account, b: Account): Account {
    Account(a.sent + b.sent, a.highest + b.highest, a.read + b.read)
  }

  lemma {:induction false} SumRemove<K>(m: map<K, Account>, k: K)
    requires k in m
    ensures Sum(m) == Plus(m[k], Sum(m - {k}))
    decreases |m|
  {
    var c := AnyKey(m);
    if c != k {
      var rest := m - {c, k};
      assert m - {c} - {k} == rest && m - {k} - {c} == rest;
      SumRemove(m - {c}, k);
      SumRemove(m - {k}, c);
    }
  }

  // What all streams together have read, they have received.
  lemma {:induction false} SumOrdered<K>(m: map<K, Account>)
    requires forall k :: k in m ==> m[k].read <= m[k].highest
    ensures Sum(m).read <= Sum(m).highest
    decreases |m|
  {
    if |m| > 0 { SumOrdered(m - {AnyKey(m)}); }
  }

  lemma SumInsert<K>(m: map<K, Account>, k: K, a: Account)
    requires k !in m
    ensures Sum(m[k := a]) == Plus(a, Sum(m))
  {
    SumRemove(m[k := a], k);
    assert m[k := a] - {k} == m;
  }

  // Changing the account of one stream changes the sum by as much.
  lemma SumUpdate<K>(m: map<K, Account>, k: K, a: Account, more: Account)
    requires k in m && a == Plus(m[k], more)
    ensures Sum(m[k := a]) == Plus(Sum(m), more)
  {
    SumRemove(m, k);
    SumRemove(m[k := a], k);
    assert m[k := a] - {k} == m - {k};
  }

  // ------------------------------------------------------------ controllers

  datatype Verdict = Ok | FinalSizeError | FlowControlError

  class Connection {
    var recv: Receive
    var bytesSent: nat
    var sendWindow: nat
    var lastBlockedAt: nat
    ghost var books: map<Stream, Account> // of the streams created since the last reset

    constructor (window: nat, maxWindow: nat)
      ensures Valid() && books == map[] && bytesSent == 0 && sendWindow == 0
      ensures recv == NewReceive(window, maxWindow)
    {
      recv := NewReceive(window, maxWindow);
      bytesSent, sendWindow, lastBlockedAt := 0, 0, 0;
      books := map[];
    }

    // Each level stays within its credit, and the connection's counters are the
    // sums over its streams.
    ghost predicate Valid()
      reads this, books.Keys
    {
      && recv.Ok()
      && bytesSent <= sendWindow
      && (forall s :: s in books ==>
            && s.connection == this && s.recv.Ok() && s.bytesSent <= s.sendWindow
            && books[s] == s.Balance())
      && Account(bytesSent, recv.highestReceived, recv.bytesRead) == Sum(books)
    }

    // A new stream starts with an empty account.
    ghost method Enroll(s: Stream)
      requires Valid() && s !in books && s.connection == this
      requires s.recv.Ok() && s.bytesSent <= s.sendWindow && s.Balance() == Account(0, 0, 0)
      modifies `books
      ensures Valid() && books == old(books)[s := Account(0, 0, 0)]
    {
      hide Sum;
      SumInsert(books, s, Account(0, 0, 0));
      books := books[s := Account(0, 0, 0)];
    }

    // The account of s has grown by more, and so have the counters of the connection.
    ghost method Book(s: Stream, more: Account)
      requires s in books && s.Balance() == Plus(books[s], more)
      modifies `books
      ensures books == old(books)[s := s.Balance()] && Sum(books) == Plus(Sum(old(books)), more)
    {
      hide Sum;
      SumUpdate(books, s, s.Balance(), more);
      books := books[s := s.Balance()];
    }

    // Takes n bytes of send credit, if there is enough.
    method TryAddBytesSent(n: nat) returns (ok: bool)
      modifies `bytesSent
      ensures ok <==> old(bytesSent) + n <= sendWindow
      ensures bytesSent == old(bytesSent) + if ok then n else 0
    {
      if bytesSent > sendWindow || n > sendWindow - bytesSent {
        return false;
      }
      bytesSent := bytesSent + n;
      return true;
    }

    // Takes as much of n bytes of credit as the limiter allows; limit is what the limiter
    // answers, whatever that is.
    method AddBytesSentWithLimiter(n: nat, limit: int) returns (added: nat, limited: bool)
      requires bytesSent <= sendWindow
      modifies `bytesSent
      ensures bytesSent == old(bytesSent) + added && bytesSent <= sendWindow
      ensures added <= n && (added > 0 ==> added <= limit)
      ensures limited ==> old(bytesSent) < sendWindow && added == Max(limit, 0) < n
      ensures !limited ==> added == Min(n, sendWindow - old(bytesSent))
    {
      if bytesSent >= sendWindow {
        return 0, false;
      }
      var m := Min(n, sendWindow - bytesSent);
      added := Min(Max(limit, 0), m);
      bytesSent := bytesSent + added;
      limited := added < m;
    }

    method UpdateSendWindow(offset: nat) returns (updated: bool)
      requires Valid()
      modifies `sendWindow
      ensures Valid()
      ensures updated <==> old(sendWindow) < offset
      ensures sendWindow == Max(old(sendWindow), offset)
    {
      updated := offset > sendWindow;
      if updated {
        sendWindow := offset;
      }
    }

    // Whether the connection just became blocked; reported once for each limit.
    method IsNewlyBlocked() returns (blocked: bool, offset: nat)
      requires Valid()
      modifies `lastBlockedAt
      ensures Valid()
      ensures blocked <==> bytesSent == sendWindow && old(lastBlockedAt) != sendWindow
      ensures blocked ==> offset == sendWindow == lastBlockedAt
      ensures !blocked ==> lastBlockedAt == old(lastBlockedAt)
    {
      if bytesSent < sendWindow || sendWindow == lastBlockedAt {
        return false, 0;
      }
      lastBlockedAt := sendWindow;
      return true, sendWindow;
    }

    method IncrementHighestReceived(increment: nat) returns (v: Verdict)
      modifies `recv
      ensures recv == old(recv).(highestReceived := old(recv).highestReceived + increment,
                                 epochStarted := recv.epochStarted, epochStartOffset := recv.epochStartOffset)
      ensures old(recv).epochStartOffset <= old(recv).bytesRead ==> recv.epochStartOffset <= recv.bytesRead
      ensures v == if recv.Violated() then FlowControlError else Ok
    {
      if recv.highestReceived == 0 {
        recv := recv.StartEpoch();
      }
      recv := recv.(highestReceived := recv.highestReceived + increment);
      v := if recv.Violated() then FlowControlError else Ok;
    }

    method AddBytesRead(n: nat) returns (hasUpdate: bool)
      modifies `recv
      ensures recv == old(recv).(bytesRead := old(recv).bytesRead + n)
      ensures hasUpdate <==> recv.HasWindowUpdate()
    {
      recv := recv.(bytesRead := recv.bytesRead + n);
      hasUpdate := recv.HasWindowUpdate();
    }

    method GetWindowUpdate(rttKnown: bool, tooFast: bool, allowed: bool) returns (offset: nat)
      requires Valid()
      modifies `recv
      ensures Valid()
      ensures old(recv).window <= recv.window
      ensures recv.bytesRead == old(recv).bytesRead && recv.highestReceived == old(recv).highestReceived
      ensures old(recv).windowSize <= recv.windowSize && recv.maxWindowSize == old(recv).maxWindowSize
      ensures recv.window == if old(recv).HasWindowUpdate() then recv.bytesRead + recv.windowSize else old(recv).window
      ensures offset == if old(recv).HasWindowUpdate() then recv.window else 0
    {
      var update := recv.WindowUpdate(rttKnown, tooFast, allowed);
      offset, recv := update.0, update.1;
    }

    // Lets the connection window grow along with the window of one of its streams.
    method EnsureMinimumWindowSize(inc: nat, allowed: bool)
      requires Valid()
      modifies `recv
      ensures Valid()
      ensures old(recv).windowSize <= recv.windowSize
      ensures allowed && inc <= recv.maxWindowSize ==> inc <= recv.windowSize
      ensures recv == old(recv).(windowSize := recv.windowSize, epochStarted := recv.epochStarted,
                                 epochStartOffset := recv.epochStartOffset)
    {
      if inc <= recv.windowSize {
        return;
      }
      var newSize := Min(inc, recv.maxWindowSize);
      if newSize > recv.windowSize && allowed {
        recv := recv.(windowSize := newSize);
      }
      recv := recv.StartEpoch();
    }

    // Rejected 0-RTT: as if no stream had been opened. Only possible before data was received.
    method Reset() returns (ok: bool)
      requires Valid()
      modifies this
      ensures Valid() && recv == old(recv)
      ensures ok <==> recv.bytesRead == 0 && recv.highestReceived == 0 && !recv.epochStarted
      ensures ok ==> books == map[] && bytesSent == 0 && sendWindow == 0 && lastBlockedAt == 0
      ensures !ok ==> unchanged(this)
    {
      if recv.bytesRead > 0 || recv.highestReceived > 0 || recv.epochStarted {
        return false;
      }
      bytesSent, lastBlockedAt, sendWindow := 0, 0, 0;
      books := map[];
      return true;
    }
  }

  class Stream {
    var recv: Receive
    var bytesSent: nat
    var sendWindow: nat
    var lastBlockedAt: nat
    var receivedFinalOffset: bool
    const connection: Connection

    ghost function Balance(): Account
      reads this
    {
      Account(bytesSent, recv.highestReceived, recv.bytesRead)
    }

    ghost predicate Valid()
      reads this, connection, connection.books.Keys
    {
      this in connection.books && connection.Valid()
    }

    constructor (connection: Connection, window: nat, maxWindow: nat, initialSendWindow: nat)
      requires connection.Valid()
      modifies connection
      ensures this.connection == connection && Valid()
      ensures recv == NewReceive(window, maxWindow) && bytesSent == 0 && sendWindow == initialSendWindow
      ensures !receivedFinalOffset
      ensures connection.books == old(connection.books)[this := Account(0, 0, 0)]
      ensures connection.recv == old(connection.recv) && connection.bytesSent == old(connection.bytesSent)
      ensures connection.sendWindow == old(connection.sendWindow)
    {
      this.connection := connection;
      recv := NewReceive(window, maxWindow);
      bytesSent, sendWindow, lastBlockedAt := 0, initialSendWindow, 0;
      receivedFinalOffset := false;
      new;
      connection.Enroll(this);
    }

    // Takes n bytes of send credit on both levels, or on neither.
    method TryAddBytesSent(n: nat) returns (ok: bool)
      requires Valid()
      modifies `bytesSent, connection`bytesSent, connection`books
      ensures Valid() && connection.books.Keys == old(connection.books.Keys)
      ensures ok <==> old(bytesSent) + n <= sendWindow && old(connection.bytesSent) + n <= connection.sendWindow
      ensures bytesSent == old(bytesSent) + if ok then n else 0
      ensures connection.bytesSent == old(connection.bytesSent) + if ok then n else 0
    {
      hide Sum;
      if bytesSent > sendWindow || n > sendWindow - bytesSent {
        return false;
      }
      ok := connection.TryAddBytesSent(n);
      if ok {
        bytesSent := bytesSent + n;
        connection.Book(this, Account(n, 0, 0));
      }
    }

    // Takes as much of n bytes of credit as both levels and the limiter allow.
    method AddBytesSentWithLimiter(n: nat, limit: int) returns (added: nat, limited: bool)
      requires Valid()
      modifies `bytesSent, connection`bytesSent, connection`books
      ensures Valid() && connection.books.Keys == old(connection.books.Keys)
      ensures bytesSent == old(bytesSent) + added && connection.bytesSent == old(connection.bytesSent) + added
      ensures added <= n && (added > 0 ==> added <= limit)
      ensures limited ==> added == Max(limit, 0) < n
      ensures !limited ==>
        added == Min(n, Min(sendWindow - old(bytesSent), connection.sendWindow - old(connection.bytesSent)))
    {
      hide Sum;
      if bytesSent >= sendWindow {
        return 0, false;
      }
      added, limited := connection.AddBytesSentWithLimiter(Min(n, sendWindow - bytesSent), limit);
      bytesSent := bytesSent + added;
      connection.Book(this, Account(added, 0, 0));
    }

    // The credit available on both levels.
    method SendWindowSize() returns (n: nat)
      requires Valid()
      ensures bytesSent + n <= sendWindow && connection.bytesSent + n <= connection.sendWindow
      ensures bytesSent + n == sendWindow || connection.bytesSent + n == connection.sendWindow
    {
      n := Min(sendWindow - bytesSent, connection.sendWindow - connection.bytesSent);
    }

    method UpdateSendWindow(offset: nat) returns (updated: bool)
      requires Valid()
      modifies `sendWindow
      ensures Valid()
      ensures updated <==> old(sendWindow) < offset
      ensures sendWindow == Max(old(sendWindow), offset)
    {
      updated := offset > sendWindow;
      if updated {
        sendWindow := offset;
      }
    }

    method IsNewlyBlocked() returns (blocked: bool, offset: nat)
      requires Valid()
      modifies `lastBlockedAt
      ensures Valid()
      ensures blocked <==> bytesSent == sendWindow && old(lastBlockedAt) != sendWindow
      ensures blocked ==> offset == sendWindow == lastBlockedAt
      ensures !blocked ==> lastBlockedAt == old(lastBlockedAt)
    {
      if bytesSent < sendWindow || sendWindow == lastBlockedAt {
        return false, 0;
      }
      lastBlockedAt := sendWindow;
      return true, sendWindow;
    }

    // Whether a frame that ends at offset, and the stream there if final, fits what is known
    // of the final size.
    ghost predicate FinalSizeOk(offset: nat, final: bool)
      reads this
    {
      && (receivedFinalOffset ==> offset <= recv.highestReceived)
      && (final ==> recv.highestReceived <= offset)
    }

    ghost predicate CreditOk(offset: nat)
      reads this, connection
    {
      recv.highestReceived < offset ==>
        && offset <= recv.window
        && connection.recv.highestReceived + (offset - recv.highestReceived) <= connection.recv.window
    }

    // Accounts for data up to offset. Accepted exactly when the final size is consistent and
    // neither level's window is exceeded.
    method UpdateHighestReceived(offset: nat, final: bool) returns (v: Verdict)
      requires Valid()
      modifies `recv, `receivedFinalOffset, connection`recv, connection`books
      ensures v.Ok? <==> old(FinalSizeOk(offset, final)) && old(CreditOk(offset))
      ensures v.FinalSizeError? <==> !old(FinalSizeOk(offset, final))
      ensures v.Ok? ==> Valid() && connection.books.Keys == old(connection.books.Keys)
      ensures v.Ok? ==> receivedFinalOffset == (old(receivedFinalOffset) || final)
      ensures v.Ok? ==> recv.highestReceived == Max(old(recv.highestReceived), offset)
      ensures v.Ok? ==> recv.bytesRead == old(recv.bytesRead) && recv.window == old(recv.window)
      ensures recv.windowSize == old(recv.windowSize) && connection.recv.windowSize == old(connection.recv.windowSize)
      ensures v.Ok? ==> connection.recv.highestReceived - old(connection.recv.highestReceived)
                        == recv.highestReceived - old(recv.highestReceived)
      ensures connection.recv.bytesRead == old(connection.recv.bytesRead)
        && connection.recv.window == old(connection.recv.window)
    {
      hide Sum;
      if receivedFinalOffset {
        if final && offset != recv.highestReceived {
          return FinalSizeError;
        }
        if offset > recv.highestReceived {
          return FinalSizeError;
        }
      }
      if final {
        receivedFinalOffset := true;
      }
      if offset == recv.highestReceived {
        return Ok;
      }
      if offset < recv.highestReceived {
        if final {
          return FinalSizeError;
        }
        return Ok;
      }
      v := RaiseHighestReceived(offset);
    }

    // Data reached a new highest offset.
    method RaiseHighestReceived(offset: nat) returns (v: Verdict)
      requires Valid() && recv.highestReceived < offset
      modifies `recv, connection`recv, connection`books
      ensures v == if old(CreditOk(offset)) then Ok else FlowControlError
      ensures v.Ok? ==> Valid() && connection.books.Keys == old(connection.books.Keys)
      ensures v.Ok? ==> recv.highestReceived == offset
      ensures v.Ok? ==> recv.bytesRead == old(recv.bytesRead) && recv.window == old(recv.window)
      ensures recv.windowSize == old(recv.windowSize) && connection.recv.windowSize == old(connection.recv.windowSize)
      ensures v.Ok? ==> connection.recv.highestReceived - old(connection.recv.highestReceived)
                        == recv.highestReceived - old(recv.highestReceived)
      ensures connection.recv.bytesRead == old(connection.recv.bytesRead)
        && connection.recv.window == old(connection.recv.window)
    {
      hide Sum;
      if recv.highestReceived == 0 {
        recv := recv.StartEpoch();
      }
      var increment := offset - recv.highestReceived;
      recv := recv.(highestReceived := offset);
      if recv.Violated() {
        return FlowControlError;
      }
      v := connection.IncrementHighestReceived(increment);
      connection.Book(this, Account(0, increment, 0));
    }

    // n more bytes were read by the application.
    method AddBytesRead(n: nat) returns (hasStreamUpdate: bool, hasConnUpdate: bool)
      requires Valid() && recv.bytesRead + n <= recv.highestReceived
      modifies `recv, connection`recv, connection`books
      ensures Valid() && connection.books.Keys == old(connection.books.Keys)
      ensures recv == old(recv).(bytesRead := old(recv).bytesRead + n)
      ensures connection.recv == old(connection.recv).(bytesRead := old(connection.recv).bytesRead + n)
      ensures hasStreamUpdate <==> !receivedFinalOffset && recv.HasWindowUpdate()
      ensures hasConnUpdate <==> connection.recv.HasWindowUpdate()
    {
      hide Sum;
      recv := recv.(bytesRead := recv.bytesRead + n);
      hasStreamUpdate := !receivedFinalOffset && recv.HasWindowUpdate();
      hasConnUpdate := connection.AddBytesRead(n);
      connection.Book(this, Account(0, 0, n));
      SumOrdered(connection.books);
    }

    // Gives up on the bytes not read yet: the connection gets their credit back, once.
    method Abandon()
      requires Valid()
      modifies `recv, connection`recv, connection`books
      ensures Valid() && connection.books.Keys == old(connection.books.Keys)
      ensures recv == old(recv).(bytesRead := old(recv).highestReceived)
      ensures connection.recv == old(connection.recv).(bytesRead :=
        old(connection.recv).bytesRead + (old(recv).highestReceived - old(recv).bytesRead))
    {
      hide Sum;
      var unread := recv.highestReceived - recv.bytesRead;
      recv := recv.(bytesRead := recv.highestReceived);
      if unread > 0 {
        var _ := connection.AddBytesRead(unread);
      }
      connection.Book(this, Account(0, 0, unread));
      SumOrdered(connection.books);
    }

    method GetWindowUpdate(rttKnown: bool, tooFast: bool, allowed: bool) returns (offset: nat)
      requires Valid()
      modifies `recv, connection`recv
      ensures Valid()
      ensures old(recv).window <= recv.window && old(connection.recv).window == connection.recv.window
      ensures recv.bytesRead == old(recv).bytesRead && recv.highestReceived == old(recv).highestReceived
      ensures connection.recv.bytesRead == old(connection.recv).bytesRead
      ensures connection.recv.highestReceived == old(connection.recv).highestReceived
      ensures old(recv).windowSize <= recv.windowSize && old(connection.recv).windowSize <= connection.recv.windowSize
      ensures recv.window ==
        if !receivedFinalOffset && old(recv).HasWindowUpdate() then recv.bytesRead + recv.windowSize
        else old(recv).window
      ensures offset == if !receivedFinalOffset && old(recv).HasWindowUpdate() then recv.window else 0
    {
      if receivedFinalOffset {
        return 0;
      }
      var oldSize := recv.windowSize;
      var update := recv.WindowUpdate(rttKnown, tooFast, true);
      offset, recv := update.0, update.1;
      if recv.windowSize > oldSize {
        connection.EnsureMinimumWindowSize(recv.windowSize * 3 / 2, allowed);
      }
    }
  }
}
