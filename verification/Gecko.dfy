// Fragmenting packets and putting them together again, for many sources at once and within
// fixed limits.
module Gecko {
  import opened Protocol
  import opened GeckoFrame

  const REASSEMBLY_TTL: nat := 8
  const MAX_REASSEMBLY: nat := 4096
  const MAX_PER_SOURCE: nat := 8

  type Address = nat

  // ---------------------------------------------------------------- sending

  function Start(size: nat, i: nat): nat {
    i * size
  }

  lemma StartStep(size: nat, i: nat)
    ensures Start(size, i + 1) == Start(size, i) + size && Start(size, 0) == 0
  {
  }

  lemma {:induction false} StartsInside(p: seq<Byte>, n: nat, i: nat)
    requires i <= n && 0 < n
    ensures Start(|p| / n, i) <= |p|
  {
    assert i * (|p| / n) <= n * (|p| / n);
    assert n * (|p| / n) <= |p|;
  }

  // Chunk i of n of a packet: equal sizes, the last one takes the rest.
  function Chunk(p: seq<Byte>, n: nat, i: nat): seq<Byte>
    requires i < n
  {
    var size := |p| / n;
    StartsInside(p, n, i);
    StartsInside(p, n, i + 1);
    StartStep(size, i);
    if i < n - 1 then p[Start(size, i)..Start(size, i) + size] else p[Start(size, i)..]
  }

  function Chunks(p: seq<Byte>, n: nat, k: nat): (r: seq<seq<Byte>>)
    requires k <= n
    ensures |r| == k && forall i :: 0 <= i < k ==> r[i] == Chunk(p, n, i)
  {
    seq(k, i requires 0 <= i < k => Chunk(p, n, i))
  }

  lemma {:induction false} JoinPrefix(p: seq<Byte>, n: nat, k: nat)
    requires k < n
    ensures Start(|p| / n, k) <= |p| && Flatten(Chunks(p, n, k)) == p[..Start(|p| / n, k)]
    decreases k
  {
    hide Start;
    var size := |p| / n;
    StartsInside(p, n, k);
    StartStep(size, k);
    if k > 0 {
      JoinPrefix(p, n, k - 1);
      StartStep(size, k - 1);
      assert Chunks(p, n, k)[..k - 1] == Chunks(p, n, k - 1);
      assert Chunks(p, n, k)[k - 1] == p[Start(size, k - 1)..Start(size, k)];
    }
  }

  // The chunks of a packet make up the packet.
  lemma JoinChunks(p: seq<Byte>, n: nat)
    requires 0 < n
    ensures Flatten(Chunks(p, n, n)) == p
  {
    hide Start, Chunk;
    JoinPrefix(p, n, n - 1);
    LastChunk(p, n);
    assert Chunks(p, n, n)[..n - 1] == Chunks(p, n, n - 1);
  }

  lemma LastChunk(p: seq<Byte>, n: nat)
    requires 0 < n
    ensures Start(|p| / n, n - 1) <= |p| && Chunk(p, n, n - 1) == p[Start(|p| / n, n - 1)..]
  {
    hide Start;
    StartsInside(p, n, n - 1);
  }

  // A padding length for a chunk: random is below 1 + maxPkt - what is needed at least.
  function PadLen(minPkt: nat, maxPkt: nat, chunkLen: nat, random: nat): nat {
    var base := SALT_LEN + HEADER_SIZE + chunkLen;
    var lo := Max(minPkt, base);
    if lo > maxPkt then 0 else lo - base + (if maxPkt - lo + 1 <= 1 then 0 else random % (maxPkt - lo + 1))
  }

  // The datagram has a size in the range, if the chunk allows for that.
  lemma PaddedSize(minPkt: nat, maxPkt: nat, chunkLen: nat, random: nat)
    requires minPkt <= maxPkt
    ensures var size := SALT_LEN + HEADER_SIZE + PadLen(minPkt, maxPkt, chunkLen, random) + chunkLen;
      (minPkt <= size <= maxPkt <==> SALT_LEN + HEADER_SIZE + chunkLen <= maxPkt)
  {
  }

  // What frame i of a fragmented packet must be.
  ghost predicate IsFragment(frame: seq<Byte>, p: seq<Byte>, msgId: Byte, n: nat, i: nat)
    requires i < n
  {
    var d := DecodeFrame(frame);
    d.Frame? && d.header.msgId == msgId && d.header.chunkIdx == i && d.header.totalChunks == n
      && d.payload == Chunk(p, n, i)
  }

  // Sends a packet in n frames, for any random numbers and any noise.
  method WriteFragmented(p: seq<Byte>, n: nat, msgId: Byte, minPkt: nat, maxPkt: nat, random: nat -> nat,
                         noise: (nat, nat) -> Byte)
    returns (frames: seq<seq<Byte>>)
    requires MIN_FRAGMENT_CHUNKS <= n <= MAX_FRAGMENT_CHUNKS && minPkt <= maxPkt <= 2048
    ensures |frames| == n
    ensures forall i :: 0 <= i < n ==> IsFragment(frames[i], p, msgId, n, i)
    ensures forall i :: 0 <= i < n ==>
      (minPkt <= SALT_LEN + |frames[i]| <= maxPkt <==> SALT_LEN + HEADER_SIZE + |Chunk(p, n, i)| <= maxPkt)
  {
    hide Chunk, DecodeFrame;
    frames := [];
    var i := 0;
    while i < n
      invariant 0 <= i <= n && |frames| == i
      invariant forall k :: 0 <= k < i ==> IsFragment(frames[k], p, msgId, n, k)
      invariant forall k :: 0 <= k < i ==>
        (minPkt <= SALT_LEN + |frames[k]| <= maxPkt <==> SALT_LEN + HEADER_SIZE + |Chunk(p, n, k)| <= maxPkt)
      decreases n - i
    {
      var frame := WriteFragment(p, n, i, msgId, minPkt, maxPkt, random(i), noise);
      frames := frames + [frame];
      i := i + 1;
    }
  }

  method WriteFragment(p: seq<Byte>, n: nat, i: nat, msgId: Byte, minPkt: nat, maxPkt: nat, random: nat,
                       noise: (nat, nat) -> Byte)
    returns (frame: seq<Byte>)
    requires MIN_FRAGMENT_CHUNKS <= n <= MAX_FRAGMENT_CHUNKS && i < n && minPkt <= maxPkt <= 2048
    ensures IsFragment(frame, p, msgId, n, i)
    ensures minPkt <= SALT_LEN + |frame| <= maxPkt <==> SALT_LEN + HEADER_SIZE + |Chunk(p, n, i)| <= maxPkt
  {
    hide Chunk, DecodeFrame;
    var chunk := Chunk(p, n, i);
    var padLen := PadLen(minPkt, maxPkt, |chunk|, random);
    PaddedSize(minPkt, maxPkt, |chunk|, random);
    var padding := seq(padLen, k requires 0 <= k < padLen => noise(i, k));
    var buf := new Byte[HEADER_SIZE + padLen + |chunk|](_ => 0);
    var h := FrameHeader(padLen, msgId, i, n);
    var m, err := EncodeFrame(h, padding, chunk, buf);
    RoundTrip(h, padding, chunk);
    frame := buf[..m];
  }

  // -------------------------------------------------------------- receiving

  datatype Key = Key(addr: Address, msgId: Byte)

  datatype Entry = Entry(chunks: seq<Option<seq<Byte>>>, received: nat, total: nat, deadline: int)

  type Table = map<Key, Entry>

  ghost function CountSome(chunks: seq<Option<seq<Byte>>>): nat {
    if chunks == [] then 0 else CountSome(chunks[..|chunks| - 1]) + if chunks[|chunks| - 1].Some? then 1 else 0
  }

  lemma {:induction false} CountBound(chunks: seq<Option<seq<Byte>>>)
    ensures CountSome(chunks) <= |chunks|
    ensures CountSome(chunks) == |chunks| <==> forall i :: 0 <= i < |chunks| ==> chunks[i].Some?
  {
    if chunks != [] {
      CountBound(chunks[..|chunks| - 1]);
      var n := |chunks| - 1;
      assert forall i :: 0 <= i < n ==> chunks[..n][i] == chunks[i];
    }
  }

  lemma {:induction false} CountStore(chunks: seq<Option<seq<Byte>>>, i: nat, c: seq<Byte>)
    requires i < |chunks| && chunks[i].None?
    ensures CountSome(chunks[i := Some(c)]) == CountSome(chunks) + 1
  {
    var n := |chunks| - 1;
    if i == n {
      assert chunks[i := Some(c)][..n] == chunks[..n];
    } else {
      CountStore(chunks[..n], i, c);
      assert chunks[i := Some(c)][..n] == chunks[..n][i := Some(c)];
    }
  }

  lemma {:induction false} CountEmpty(n: nat)
    ensures CountSome(seq(n, _ => None)) == 0
  {
    if n > 0 {
      CountEmpty(n - 1);
      assert seq(n, _ => None)[..n - 1] == seq<Option<seq<Byte>>>(n - 1, _ => None);
    }
  }

  // An entry waits for at least one of its chunks.
  ghost predicate EntryOk(e: Entry) {
    && MIN_FRAGMENT_CHUNKS <= e.total <= MAX_FRAGMENT_CHUNKS && |e.chunks| == e.total
    && e.received == CountSome(e.chunks) < e.total
  }

  // The keys of a source.
  ghost function KeysOf(m: Table, a: Address): set<Key> {
    set k | k in m && k.addr == a
  }

  ghost function Live(m: Table, a: Address): nat {
    |KeysOf(m, a)|
  }

  lemma LiveInsert(m: Table, k: Key, e: Entry, a: Address)
    requires k !in m
    ensures Live(m[k := e], a) == Live(m, a) + if a == k.addr then 1 else 0
  {
    if a == k.addr {
      assert KeysOf(m[k := e], a) == KeysOf(m, a) + {k};
    } else {
      assert KeysOf(m[k := e], a) == KeysOf(m, a);
    }
  }

  lemma LiveReplace(m: Table, k: Key, e: Entry, a: Address)
    requires k in m
    ensures Live(m[k := e], a) == Live(m, a)
  {
    assert KeysOf(m[k := e], a) == KeysOf(m, a);
  }

  lemma LiveRemove(m: Table, k: Key, a: Address)
    requires k in m
    ensures Live(m - {k}, a) == Live(m, a) - if a == k.addr then 1 else 0
  {
    if a == k.addr {
      assert KeysOf(m - {k}, a) == KeysOf(m, a) - {k};
    } else {
      assert KeysOf(m - {k}, a) == KeysOf(m, a);
    }
  }

  // The counters are the numbers of entries per source, and within the limit.
  ghost predicate Counted(m: Table, perSource: map<Address, nat>) {
    && (forall a: Address :: a in perSource ==> perSource[a] == Live(m, a) && 0 < perSource[a] <= MAX_PER_SOURCE)
    && (forall a: Address :: a !in perSource ==> Live(m, a) == 0)
  }

  lemma CountedInsert(m: Table, perSource: map<Address, nat>, k: Key, e: Entry)
    requires Counted(m, perSource) && k !in m && Live(m, k.addr) < MAX_PER_SOURCE
    ensures Counted(m[k := e], perSource[k.addr := Live(m, k.addr) + 1])
  {
    forall a: Address { LiveInsert(m, k, e, a); }
    hide Live;
  }

  lemma CountedReplace(m: Table, perSource: map<Address, nat>, k: Key, e: Entry)
    requires Counted(m, perSource) && k in m
    ensures Counted(m[k := e], perSource)
  {
    forall a: Address { LiveReplace(m, k, e, a); }
    hide Live;
  }

  lemma CountedRemove(m: Table, perSource: map<Address, nat>, k: Key)
    requires Counted(m, perSource) && k in m
    ensures k.addr in perSource && perSource[k.addr] >= 1
    ensures perSource[k.addr] == 1 ==> Counted(m - {k}, perSource - {k.addr})
    ensures perSource[k.addr] > 1 ==> Counted(m - {k}, perSource[k.addr := perSource[k.addr] - 1])
  {
    assert k in KeysOf(m, k.addr);
    forall a: Address { LiveRemove(m, k, a); }
    hide Live, KeysOf;
  }

  // A packet as it was sent: its bytes, and the number of chunks it was cut into.
  datatype Packet = Packet(bytes: seq<Byte>, n: nat)

  // The chunk of this frame is one of the packet that was sent under its key.
  ghost predicate GenuineChunk(packets: Key -> Packet, key: Key, h: FrameHeader, payload: seq<Byte>) {
    h.chunkIdx < h.totalChunks == packets(key).n && payload == Chunk(packets(key).bytes, packets(key).n, h.chunkIdx)
  }

  ghost predicate GenuineEntry(packet: Packet, e: Entry) {
    && e.total == packet.n == |e.chunks|
    && forall i :: 0 <= i < |e.chunks| && e.chunks[i].Some? ==> e.chunks[i].value == Chunk(packet.bytes, packet.n, i)
  }

  ghost predicate GenuineAt(m: Table, packets: Key -> Packet, key: Key) {
    key in m ==> GenuineEntry(packets(key), m[key])
  }

  // All chunks held are those of the packets sent under their keys.
  ghost predicate Genuine(m: Table, packets: Key -> Packet) {
    forall k :: k in m ==> GenuineAt(m, packets, k)
  }

  // Only the entry of key is new or changed. Others may have been dropped.
  ghost predicate OnlyAt(m: Table, m': Table, key: Key) {
    forall k :: k in m' && k != key ==> k in m && m'[k] == m[k]
  }

  // No other entry than that of key has been dropped.
  ghost predicate KeptBut(m: Table, m': Table, key: Key) {
    forall k :: k in m && k != key ==> k in m'
  }

  // No entry expires before that of key.
  ghost predicate Earliest(m: Table, key: Key)
    requires key in m
  {
    forall k :: k in m ==> m[key].deadline <= m[k].deadline
  }

  // There is an entry for a new key. In a full table, it takes the place of one that expires first.
  ghost predicate Grown(m: Table, m': Table, key: Key, e: Entry) {
    if |m| < MAX_REASSEMBLY then m' == m[key := e]
    else exists gone :: gone in m && Earliest(m, gone) && m' == (m - {gone})[key := e]
  }

  lemma GrownFilled(m: Table, m1: Table, key: Key, e: Entry, e': Entry)
    requires Grown(m, m1, key, e)
    ensures Grown(m, m1[key := e'], key, e')
  {
    if |m| < MAX_REASSEMBLY {
      assert m1[key := e'] == m[key := e'];
    } else {
      var gone :| gone in m && Earliest(m, gone) && m1 == (m - {gone})[key := e];
      assert m1[key := e'] == (m - {gone})[key := e'];
    }
  }

  class Reassembler {
    var reassembly: Table
    var perSource: map<Address, nat>

    ghost predicate Valid()
      reads this
    {
      && Counted(reassembly, perSource) && |reassembly| <= MAX_REASSEMBLY
      && (forall k :: k in reassembly ==> EntryOk(reassembly[k]))
    }

    // All is well but for the entry of key.
    ghost predicate ValidBut(key: Key)
      reads this
    {
      && Counted(reassembly, perSource) && |reassembly| <= MAX_REASSEMBLY
      && (forall k :: k in reassembly && k != key ==> EntryOk(reassembly[k]))
    }

    constructor ()
      ensures Valid() && reassembly == map[]
    {
      reassembly, perSource := map[], map[];
    }

    method DropEntry(k: Key)
      requires ValidBut(k)
      modifies this
      ensures Valid() && reassembly == old(reassembly) - {k}
    {
      hide Counted, EntryOk;
      if k !in reassembly {
        return;
      }
      CountedRemove(reassembly, perSource, k);
      SizeRemove(reassembly, k);
      reassembly := reassembly - {k};
      perSource := perSource[k.addr := perSource[k.addr] - 1];
      if perSource[k.addr] <= 0 {
        assert perSource - {k.addr} == old(perSource) - {k.addr};
        perSource := perSource - {k.addr};
      }
    }

    // Drops an entry whose deadline is the earliest.
    method EvictOldest() returns (ghost gone: Key)
      requires Valid() && |reassembly| > 0
      modifies this
      ensures Valid() && gone in old(reassembly) && reassembly == old(reassembly) - {gone}
      ensures Earliest(old(reassembly), gone)
    {
      hide Counted, EntryOk;
      var left := reassembly.Keys;
      assert left != {} by { assert |reassembly.Keys| == |reassembly|; }
      var oldest :| oldest in left;
      left := left - {oldest};
      while left != {}
        invariant left <= reassembly.Keys && oldest in reassembly
        invariant forall k :: k in reassembly && k !in left ==> reassembly[oldest].deadline <= reassembly[k].deadline
        decreases |left|
      {
        var k :| k in left;
        if reassembly[k].deadline < reassembly[oldest].deadline {
          oldest := k;
        }
        left := left - {k};
      }
      gone := oldest;
      DropEntry(oldest);
    }

    // Drops the entries whose deadline has passed, and only those.
    method GcExpired(now: int)
      requires Valid()
      modifies this
      ensures Valid()
      ensures reassembly == Unexpired(old(reassembly), now)
    {
      hide Counted, EntryOk;
      var left := reassembly.Keys;
      while left != {}
        invariant Valid() && left <= reassembly.Keys <= old(reassembly).Keys
        invariant forall k :: k in reassembly ==> reassembly[k] == old(reassembly)[k]
        invariant forall k :: k in reassembly && k !in left ==> now <= reassembly[k].deadline
        invariant forall k :: k in old(reassembly) && now <= old(reassembly)[k].deadline ==> k in reassembly
        decreases |left|
      {
        var k :| k in left;
        left := left - {k};
        if now > reassembly[k].deadline {
          DropEntry(k);
        }
      }
    }

    // Makes an entry for a new key, within the limits.
    method Create(key: Key, total: nat, now: int) returns (ok: bool)
      requires Valid() && key !in reassembly && MIN_FRAGMENT_CHUNKS <= total <= MAX_FRAGMENT_CHUNKS
      modifies this
      ensures Valid()
      ensures ok <==> Live(old(reassembly), key.addr) < MAX_PER_SOURCE
      ensures !ok ==> reassembly == old(reassembly)
      ensures ok ==>
        key in reassembly && reassembly[key] == Entry(seq(total, _ => None), 0, total, now + REASSEMBLY_TTL)
      ensures ok ==> Grown(old(reassembly), reassembly, key,
                           Entry(seq(total, _ => None), 0, total, now + REASSEMBLY_TTL))
      ensures OnlyAt(old(reassembly), reassembly, key) && |reassembly| <= |old(reassembly)| + 1
      ensures |old(reassembly)| < MAX_REASSEMBLY ==> KeptBut(old(reassembly), reassembly, key)
    {
      hide Counted, EntryOk, Live;
      CountOf(reassembly, perSource, key.addr);
      if key.addr in perSource && perSource[key.addr] >= MAX_PER_SOURCE {
        return false;
      }
      if |reassembly| >= MAX_REASSEMBLY {
        ghost var gone := EvictOldest();
        SizeRemove(old(reassembly), gone);
        LiveShrinks(old(reassembly), gone, key.addr);
        CountOf(reassembly, perSource, key.addr);
      }
      var e := Entry(seq(total, _ => None), 0, total, now + REASSEMBLY_TTL);
      EmptyEntry(total, now);
      CountedInsert(reassembly, perSource, key, e);
      SizeInsert(reassembly, key, e);
      reassembly := reassembly[key := e];
      perSource := perSource[key.addr := (if key.addr in perSource then perSource[key.addr] else 0) + 1];
      return true;
    }

    // Stores a chunk in its entry, unless it is there already or its frame disagrees about the
    // number of chunks.
    method Store(key: Key, h: FrameHeader, payload: seq<Byte>) returns (stored: bool, full: bool)
      requires Valid() && key in reassembly && Sound(h)
      modifies this
      ensures stored <==> old(reassembly)[key].total == h.totalChunks && old(reassembly)[key].chunks[h.chunkIdx].None?
      ensures full <==> stored && old(reassembly)[key].received + 1 == h.totalChunks
      ensures !stored ==> Valid() && reassembly == old(reassembly)
      ensures stored ==> reassembly == old(reassembly)[key := Filled(old(reassembly)[key], h.chunkIdx, payload)]
      ensures stored && !full ==> Valid()
      ensures full ==> ValidBut(key)
    {
      hide Counted, CountSome;
      var e := reassembly[key];
      if e.total != h.totalChunks {
        return false, false;
      }
      if e.chunks[h.chunkIdx].Some? {
        return false, false;
      }
      CountStore(e.chunks, h.chunkIdx, payload);
      CountedReplace(reassembly, perSource, key, Filled(e, h.chunkIdx, payload));
      SizeReplace(reassembly, key, Filled(e, h.chunkIdx, payload));
      reassembly := reassembly[key := Filled(e, h.chunkIdx, payload)];
      return true, e.received + 1 >= e.total;
    }

    // Takes the chunk of a frame from addr. When it is the last one missing, the packet is put
    // together and its entry dropped. A packet put together from genuine chunks is the packet
    // that was sent.
    method AcceptChunk(addr: Address, h: FrameHeader, payload: seq<Byte>, now: int, ghost packets: Key -> Packet)
      returns (out: Option<seq<Byte>>)
      requires Valid() && Sound(h)
      modifies this
      ensures Valid()
      ensures out.Some? <==> Completes(old(reassembly), Key(addr, h.msgId), h)
      ensures out.Some? ==> reassembly == old(reassembly) - {Key(addr, h.msgId)}
      ensures out.None? && Welcome(old(reassembly), Key(addr, h.msgId), h) ==>
        && Key(addr, h.msgId) in reassembly
        && reassembly[Key(addr, h.msgId)] ==
             Filled(EntryFor(old(reassembly), Key(addr, h.msgId), h, now), h.chunkIdx, payload)
        && Filling(old(reassembly), reassembly, Key(addr, h.msgId),
                   Filled(EntryFor(old(reassembly), Key(addr, h.msgId), h, now), h.chunkIdx, payload))
      ensures !Welcome(old(reassembly), Key(addr, h.msgId), h) ==> reassembly == old(reassembly)
      ensures OnlyAt(old(reassembly), reassembly, Key(addr, h.msgId)) && |reassembly| <= |old(reassembly)| + 1
      ensures |old(reassembly)| < MAX_REASSEMBLY ==> KeptBut(old(reassembly), reassembly, Key(addr, h.msgId))
      ensures
        GenuineAt(old(reassembly), packets, Key(addr, h.msgId)) && GenuineChunk(packets, Key(addr, h.msgId), h, payload)
        ==> GenuineAt(reassembly, packets, Key(addr, h.msgId))
            && (out.Some? ==> out.value == packets(Key(addr, h.msgId)).bytes)
    {
      hide Counted, CountSome, Live, Chunk, GenuineEntry, Grown;
      var key := Key(addr, h.msgId);
      if key !in reassembly {
        var ok := Create(key, h.totalChunks, now);
        if !ok {
          return None;
        }
        if packets(key).n == h.totalChunks { EmptyIsGenuine(packets(key), h.totalChunks, now); }
        ghost var e := reassembly[key];
        GrownFilled(old(reassembly), reassembly, key, e, Filled(e, h.chunkIdx, payload));
      }
      out := StoreAndJoin(key, h, payload, packets);
    }

    method StoreAndJoin(key: Key, h: FrameHeader, payload: seq<Byte>, ghost packets: Key -> Packet)
      returns (out: Option<seq<Byte>>)
      requires Valid() && key in reassembly && Sound(h)
      modifies this
      ensures Valid()
      ensures out.Some? <==> Completes(old(reassembly), key, h)
      ensures out.Some? ==> reassembly == old(reassembly) - {key}
      ensures out.None? && Welcome(old(reassembly), key, h) ==>
        reassembly == old(reassembly)[key := Filled(old(reassembly)[key], h.chunkIdx, payload)]
      ensures !Welcome(old(reassembly), key, h) ==> reassembly == old(reassembly)
      ensures |reassembly| <= |old(reassembly)|
      ensures GenuineAt(old(reassembly), packets, key) && GenuineChunk(packets, key, h, payload) ==>
        GenuineAt(reassembly, packets, key) && (out.Some? ==> out.value == packets(key).bytes)
    {
      hide Counted, Live, Chunk, GenuineEntry, CountSome;
      ghost var e := reassembly[key];
      var stored, full := Store(key, h, payload);
      if !stored {
        return None;
      }
      SizeReplace(old(reassembly), key, Filled(e, h.chunkIdx, payload));
      if GenuineAt(old(reassembly), packets, key) && GenuineChunk(packets, key, h, payload) {
        FilledIsGenuine(packets, key, e, h, payload);
      }
      if !full {
        return None;
      }
      CountStore(e.chunks, h.chunkIdx, payload);
      CountBound(reassembly[key].chunks);
      var bytes := JoinAll(reassembly[key].chunks);
      if GenuineAt(old(reassembly), packets, key) && GenuineChunk(packets, key, h, payload) {
        JoinedIsPacket(packets(key), reassembly[key], bytes);
      }
      assert reassembly - {key} == old(reassembly) - {key};
      SizeRemove(reassembly, key);
      DropEntry(key);
      return Some(bytes);
    }
  }

  function Unexpired(m: Table, now: int): Table {
    map k | k in m && now <= m[k].deadline :: m[k]
  }

  // The entry with one more chunk.
  function Filled(e: Entry, i: nat, payload: seq<Byte>): Entry
    requires i < |e.chunks|
  {
    e.(chunks := e.chunks[i := Some(payload)], received := e.received + 1)
  }

  // The entry that a frame with this header goes to.
  function EntryFor(m: Table, key: Key, h: FrameHeader, now: int): Entry {
    if key in m then m[key] else Entry(seq(h.totalChunks, _ => None), 0, h.totalChunks, now + REASSEMBLY_TTL)
  }

  ghost predicate Filling(m: Table, m': Table, key: Key, e: Entry) {
    if key in m then m' == m[key := e] else Grown(m, m', key, e)
  }

  // Its chunk is stored: there is room for a new entry, or it is missing in the one there is.
  ghost predicate Welcome(m: Table, key: Key, h: FrameHeader) {
    && h.chunkIdx < h.totalChunks
    && if key !in m then Live(m, key.addr) < MAX_PER_SOURCE
       else m[key].total == h.totalChunks == |m[key].chunks| && m[key].chunks[h.chunkIdx].None?
  }

  // A frame with this header brings the last chunk that is missing.
  ghost predicate Completes(m: Table, key: Key, h: FrameHeader) {
    && key in m && m[key].total == h.totalChunks && h.chunkIdx < |m[key].chunks|
    && m[key].chunks[h.chunkIdx].None? && m[key].received + 1 == h.totalChunks
  }

  lemma EmptyIsGenuine(packet: Packet, total: nat, now: int)
    requires packet.n == total
    ensures GenuineEntry(packet, Entry(seq(total, _ => None), 0, total, now + REASSEMBLY_TTL))
  {
  }

  lemma FilledIsGenuine(packets: Key -> Packet, key: Key, e: Entry, h: FrameHeader, payload: seq<Byte>)
    requires GenuineEntry(packets(key), e) && GenuineChunk(packets, key, h, payload)
    ensures GenuineEntry(packets(key), Filled(e, h.chunkIdx, payload))
  {
  }

  // The chunks of an entry that has all of them.
  function Values(chunks: seq<Option<seq<Byte>>>): (r: seq<seq<Byte>>)
    requires forall i :: 0 <= i < |chunks| ==> chunks[i].Some?
    ensures |r| == |chunks| && forall i :: 0 <= i < |r| ==> r[i] == chunks[i].value
  {
    seq(|chunks|, i requires 0 <= i < |chunks| => chunks[i].value)
  }

  method JoinAll(chunks: seq<Option<seq<Byte>>>) returns (out: seq<Byte>)
    requires forall i :: 0 <= i < |chunks| ==> chunks[i].Some?
    ensures out == Flatten(Values(chunks))
  {
    out := [];
    var i := 0;
    while i < |chunks|
      invariant 0 <= i <= |chunks| && out == Flatten(Values(chunks)[..i])
      decreases |chunks| - i
    {
      assert Values(chunks)[..i + 1][..i] == Values(chunks)[..i];
      out := out + chunks[i].value;
      i := i + 1;
    }
    assert Values(chunks)[..i] == Values(chunks);
  }

  lemma JoinedIsPacket(packet: Packet, e: Entry, bytes: seq<Byte>)
    requires GenuineEntry(packet, e) && 0 < packet.n
    requires (forall i :: 0 <= i < |e.chunks| ==> e.chunks[i].Some?) && bytes == Flatten(Values(e.chunks))
    ensures bytes == packet.bytes
  {
    hide Chunk;
    assert Values(e.chunks) == Chunks(packet.bytes, packet.n, packet.n);
    JoinChunks(packet.bytes, packet.n);
  }

  lemma SizeReplace(m: Table, k: Key, e: Entry)
    requires k in m
    ensures |m[k := e]| == |m|
  {
    assert m[k := e].Keys == m.Keys;
    assert |m.Keys| == |m| && |m[k := e].Keys| == |m[k := e]|;
  }

  lemma EmptyEntry(total: nat, now: int)
    requires MIN_FRAGMENT_CHUNKS <= total <= MAX_FRAGMENT_CHUNKS
    ensures EntryOk(Entry(seq(total, _ => None), 0, total, now + REASSEMBLY_TTL))
  {
    CountEmpty(total);
  }

  lemma CountOf(m: Table, perSource: map<Address, nat>, a: Address)
    requires Counted(m, perSource)
    ensures Live(m, a) == if a in perSource then perSource[a] else 0
    ensures Live(m, a) <= MAX_PER_SOURCE
  {
  }

  lemma LiveShrinks(m: Table, k: Key, a: Address)
    requires k in m
    ensures Live(m - {k}, a) <= Live(m, a)
  {
    LiveRemove(m, k, a);
  }

  lemma SizeRemove(m: Table, k: Key)
    requires k in m
    ensures |m - {k}| == |m| - 1
  {
    assert (m - {k}).Keys == m.Keys - {k};
    assert |m.Keys| == |m| && |(m - {k}).Keys| == |m - {k}|;
  }

  lemma SizeInsert(m: Table, k: Key, e: Entry)
    requires k !in m
    ensures |m[k := e]| == |m| + 1
  {
    assert m[k := e].Keys == m.Keys + {k};
    assert |m.Keys| == |m| && |m[k := e].Keys| == |m[k := e]|;
  }

  lemma SizeSubset(m: Table, m': Table)
    requires m'.Keys <= m.Keys
    ensures |m'| <= |m|
  {
    assert |m.Keys| == |m| && |m'.Keys| == |m'|;
    assert m.Keys == m'.Keys + (m.Keys - m'.Keys);
  }

  lemma StillGenuine(m: Table, m': Table, packets: Key -> Packet, key: Key)
    requires OnlyAt(m, m', key)
    ensures Genuine(m, packets) && GenuineAt(m', packets, key) ==> Genuine(m', packets)
  {
    hide GenuineEntry;
    if Genuine(m, packets) && GenuineAt(m', packets, key) {
      forall k | k in m'
        ensures GenuineAt(m', packets, k)
      {
        assert k != key ==> GenuineAt(m, packets, k);
      }
    }
  }

  // ------------------------------------------------------------------- runs

  datatype Op = Datagram(addr: Address, bytes: seq<Byte>, now: int) | Gc(now: int)

  // A datagram that is a Gecko frame carries a chunk of a packet that was sent under its key.
  ghost predicate GenuineOp(op: Op, packets: Key -> Packet) {
    op.Datagram? && DecodeFrame(op.bytes).Frame? ==>
      GenuineChunk(packets, Key(op.addr, DecodeFrame(op.bytes).header.msgId), DecodeFrame(op.bytes).header,
                   DecodeFrame(op.bytes).payload)
  }

  datatype Delivered = Delivered(addr: Address, bytes: seq<Byte>)

  // Not a Gecko frame.
  predicate Plain(bytes: seq<Byte>) {
    bytes != [] && bytes[0] < FLAG_FRAGMENT
  }

  // An entry with this key and deadline is none of its business.
  ghost predicate Spares(op: Op, key: Key, deadline: int) {
    match op
    case Gc(now) => now <= deadline
    case Datagram(addr, bytes, _) => DecodeFrame(bytes).Frame? ==> Key(addr, DecodeFrame(bytes).header.msgId) != key
  }

  ghost predicate Undisturbed(m: Table, m': Table, op: Op) {
    forall k :: k in m && Spares(op, k, m[k].deadline) ==> k in m' && m'[k] == m[k]
  }

  // What an operation does to the table, and what comes out. A datagram that is not a Gecko frame is
  // passed through; a chunk is stored if it is welcome, and completes its packet if it was the last one.
  ghost predicate Effect(op: Op, m: Table, m': Table, out: Option<Delivered>) {
    match op
    case Gc(now) => out.None? && m' == Unexpired(m, now)
    case Datagram(addr, bytes, now) =>
      if Plain(bytes) then out == Some(Delivered(addr, bytes)) && m' == m
      else if bytes == [] || DecodeFrame(bytes).Bad? then out.None? && m' == m
      else
        var d := DecodeFrame(bytes);
        FrameEffect(Key(addr, d.header.msgId), d.header, d.payload, now, m, m', out)
  }

  ghost predicate FrameEffect(key: Key, h: FrameHeader, payload: seq<Byte>, now: int, m: Table, m': Table,
                              out: Option<Delivered>)
  {
    && (out.Some? <==> Completes(m, key, h))
    && (out.Some? ==> out.value.addr == key.addr && m' == m - {key})
    && (!Welcome(m, key, h) ==> m' == m)
    && (out.None? && Welcome(m, key, h) ==>
          Filling(m, m', key, Filled(EntryFor(m, key, h, now), h.chunkIdx, payload)))
  }

  // A packet that comes out is the one that was sent under its key.
  ghost predicate Truthful(op: Op, out: Option<Delivered>, packets: Key -> Packet) {
    op.Datagram? && !Plain(op.bytes) && out.Some? ==>
      && DecodeFrame(op.bytes).Frame?
      && out.value.bytes == packets(Key(op.addr, DecodeFrame(op.bytes).header.msgId)).bytes
  }

  // What comes out for a datagram.
  method Receive(g: Reassembler, op: Op, ghost packets: Key -> Packet) returns (out: Option<Delivered>)
    requires g.Valid()
    modifies g
    ensures g.Valid() && Effect(op, old(g.reassembly), g.reassembly, out)
    ensures Genuine(old(g.reassembly), packets) && GenuineOp(op, packets) ==>
      Genuine(g.reassembly, packets) && Truthful(op, out, packets)
    ensures |g.reassembly| <= |old(g.reassembly)| + 1
    ensures |old(g.reassembly)| < MAX_REASSEMBLY ==> Undisturbed(old(g.reassembly), g.reassembly, op)
  {
    hide Counted, EntryOk, Live, Chunk, GenuineEntry, Filling;
    if op.Gc? {
      g.GcExpired(op.now);
      SizeSubset(old(g.reassembly), g.reassembly);
      return None;
    }
    if |op.bytes| == 0 {
      return None;
    }
    if op.bytes[0] < FLAG_FRAGMENT {
      return Some(Delivered(op.addr, op.bytes));
    }
    var d := DecodeFrame(op.bytes);
    if d.Bad? {
      return None;
    }
    var packet := g.AcceptChunk(op.addr, d.header, d.payload, op.now, packets);
    StillGenuine(old(g.reassembly), g.reassembly, packets, Key(op.addr, d.header.msgId));
    return if packet.Some? then Some(Delivered(op.addr, packet.value)) else None;
  }

  ghost predicate Within(m: Table) {
    |m| <= MAX_REASSEMBLY && forall a: Address :: Live(m, a) <= MAX_PER_SOURCE
  }

  lemma ValidIsWithin(g: Reassembler)
    requires g.Valid()
    ensures Within(g.reassembly)
  {
    hide Counted, EntryOk, Live;
    forall a: Address { CountOf(g.reassembly, g.perSource, a); }
  }

  // Any interleaving, reordering, duplication and loss of the frames of packets that have distinct keys,
  // with entries expiring at any time. What is no Gecko frame comes out at once and as it was, a packet
  // comes out with the last of its chunks and is the one that was sent, nothing else comes out, and the
  // limits hold throughout.
  method Run(ops: seq<Op>, ghost packets: Key -> Packet) returns (trace: seq<Table>, outs: seq<Option<Delivered>>)
    requires forall i :: 0 <= i < |ops| ==> GenuineOp(ops[i], packets)
    ensures |outs| == |ops| && |trace| == |ops| + 1 && trace[0] == map[]
    ensures forall i :: 0 <= i < |ops| ==>
      Effect(ops[i], trace[i], trace[i + 1], outs[i]) && Truthful(ops[i], outs[i], packets)
    ensures forall i :: 0 <= i < |trace| ==> Within(trace[i])
  {
    hide Genuine, GenuineOp, Counted, EntryOk, Within, Effect, Truthful, Undisturbed, Reassembler.Valid;
    var g := new Reassembler();
    assert Genuine(g.reassembly, packets) by { NothingIsGenuine(packets); }
    ValidIsWithin(g);
    trace, outs := [g.reassembly], [];
    var i := 0;
    while i < |ops|
      invariant 0 <= i <= |ops| && fresh(g) && g.Valid() && Genuine(g.reassembly, packets)
      invariant |outs| == i && |trace| == i + 1 && trace[0] == map[] && trace[i] == g.reassembly
      invariant forall k :: 0 <= k < i ==>
        Effect(ops[k], trace[k], trace[k + 1], outs[k]) && Truthful(ops[k], outs[k], packets)
      invariant forall k :: 0 <= k < |trace| ==> Within(trace[k])
      decreases |ops| - i
    {
      var out := Receive(g, ops[i], packets);
      ValidIsWithin(g);
      trace, outs := trace + [g.reassembly], outs + [out];
      i := i + 1;
    }
  }

  lemma NothingIsGenuine(packets: Key -> Packet)
    ensures Genuine(map[], packets)
  {
  }

  // ------------------------------------------------------------- round trip

  // One of the frames of the packet arrives, or something else happens.
  datatype Event = Ours(i: nat, now: int) | Theirs(op: Op)

  ghost predicate Seen(events: seq<Event>, i: nat) {
    exists j :: 0 <= j < |events| && events[j].Ours? && events[j].i == i
  }

  ghost predicate AllSeen(events: seq<Event>, n: nat) {
    forall i: nat :: i < n ==> Seen(events, i)
  }

  lemma SeenNext(events: seq<Event>, k: nat, i: nat)
    requires k < |events|
    ensures Seen(events[..k + 1], i) <==> Seen(events[..k], i) || (events[k].Ours? && events[k].i == i)
  {
    if Seen(events[..k], i) {
      var j :| 0 <= j < k && events[..k][j].Ours? && events[..k][j].i == i;
      assert events[..k + 1][j] == events[j];
    }
    if events[k].Ours? && events[k].i == i { assert events[..k + 1][k] == events[k]; }
  }

  // What else happens is no business of an entry with this key and deadline.
  ghost predicate Peaceful(events: seq<Event>, key: Key, n: nat, deadline: int) {
    forall j :: 0 <= j < |events| ==> if events[j].Ours? then events[j].i < n else Spares(events[j].op, key, deadline)
  }

  // The chunks that are there are those that were seen.
  ghost predicate Holds(e: Entry, n: nat, events: seq<Event>) {
    |e.chunks| == n && forall i: nat :: i < n ==> (e.chunks[i].Some? <==> Seen(events, i))
  }

  ghost predicate Collecting(m: Table, key: Key, packet: Packet, events: seq<Event>, deadline: int) {
    key in m && GenuineEntry(packet, m[key]) && m[key].deadline == deadline && Holds(m[key], packet.n, events)
  }

  // With one more chunk, the entry is complete if and only if all were seen.
  lemma OneMoreSeen(e: Entry, n: nat, events: seq<Event>, k: nat, payload: seq<Byte>)
    requires k < |events| && EntryOk(e) && Holds(e, n, events[..k])
    requires events[k].Ours? && events[k].i < n && e.chunks[events[k].i].None?
    ensures Holds(Filled(e, events[k].i, payload), n, events[..k + 1])
    ensures e.received + 1 == n <==> AllSeen(events[..k + 1], n)
  {
    hide Seen, CountSome;
    var e' := Filled(e, events[k].i, payload);
    forall i: nat { SeenNext(events, k, i); }
    CountStore(e.chunks, events[k].i, payload);
    CountBound(e'.chunks);
    assert Holds(e', n, events[..k + 1]);
  }

  lemma NoMoreSeen(e: Entry, n: nat, events: seq<Event>, k: nat)
    requires k < |events| && Holds(e, n, events[..k])
    requires events[k].Ours? ==> events[k].i < n && e.chunks[events[k].i].Some?
    ensures Holds(e, n, events[..k + 1])
    ensures AllSeen(events[..k + 1], n) <==> AllSeen(events[..k], n)
  {
    hide Seen;
    forall i: nat { SeenNext(events, k, i); }
  }

  // The first frame of a packet makes an entry for it.
  method FirstFragment(g: Reassembler, frame: seq<Byte>, ghost p: seq<Byte>, ghost n: nat, addr: Address,
                       ghost msgId: Byte, events: seq<Event>)
    returns (out: Option<seq<Byte>>)
    requires g.Valid() && MIN_FRAGMENT_CHUNKS <= n <= MAX_FRAGMENT_CHUNKS
    requires Key(addr, msgId) !in g.reassembly && Live(g.reassembly, addr) < MAX_PER_SOURCE
    requires events != [] && events[0].Ours? && events[0].i < n && IsFragment(frame, p, msgId, n, events[0].i)
    modifies g
    ensures g.Valid() && |g.reassembly| <= |old(g.reassembly)| + 1
    ensures out.None? && !AllSeen(events[..1], n)
    ensures Collecting(g.reassembly, Key(addr, msgId), Packet(p, n), events[..1], events[0].now + REASSEMBLY_TTL)
  {
    hide Chunk, DecodeFrame, Counted, CountSome, Seen, AllSeen, Live;
    var d := DecodeFrame(frame);
    out := g.AcceptChunk(addr, d.header, d.payload, events[0].now, (_: Key) => Packet(p, n));
    ghost var e := Entry(seq(n, _ => None), 0, n, events[0].now + REASSEMBLY_TTL);
    EmptyEntry(n, events[0].now);
    forall i: nat { NothingSeen(events, i); }
    OneMoreSeen(e, n, events, 0, d.payload);
  }

  lemma NothingSeen(events: seq<Event>, i: nat)
    ensures !Seen(events[..0], i)
  {
  }

  method NextFragment(g: Reassembler, frame: seq<Byte>, ghost p: seq<Byte>, ghost n: nat, addr: Address,
                      ghost msgId: Byte, events: seq<Event>, k: nat, ghost deadline: int)
    returns (out: Option<seq<Byte>>)
    requires g.Valid() && MIN_FRAGMENT_CHUNKS <= n <= MAX_FRAGMENT_CHUNKS && k < |events| && !AllSeen(events[..k], n)
    requires events[k].Ours? && events[k].i < n && IsFragment(frame, p, msgId, n, events[k].i)
    requires Collecting(g.reassembly, Key(addr, msgId), Packet(p, n), events[..k], deadline)
    modifies g
    ensures g.Valid() && |g.reassembly| <= |old(g.reassembly)| + 1
    ensures out.Some? <==> AllSeen(events[..k + 1], n)
    ensures out.Some? ==> out.value == p
    ensures out.None? ==> Collecting(g.reassembly, Key(addr, msgId), Packet(p, n), events[..k + 1], deadline)
  {
    hide Chunk, DecodeFrame, Counted, CountSome, Seen, AllSeen, Live;
    var d := DecodeFrame(frame);
    ghost var e := g.reassembly[Key(addr, msgId)];
    if e.chunks[events[k].i].None? {
      OneMoreSeen(e, n, events, k, d.payload);
    } else {
      NoMoreSeen(e, n, events, k);
    }
    out := g.AcceptChunk(addr, d.header, d.payload, events[k].now, (_: Key) => Packet(p, n));
  }

  // Whatever else happens leaves the entry alone.
  method SomethingElse(g: Reassembler, ghost packet: Packet, ghost key: Key, events: seq<Event>, k: nat,
                       ghost deadline: int)
    requires g.Valid() && k < |events| && events[k].Theirs? && Spares(events[k].op, key, deadline)
    requires |g.reassembly| < MAX_REASSEMBLY && Collecting(g.reassembly, key, packet, events[..k], deadline)
    modifies g
    ensures g.Valid() && |g.reassembly| <= |old(g.reassembly)| + 1
    ensures Collecting(g.reassembly, key, packet, events[..k + 1], deadline)
    ensures AllSeen(events[..k + 1], packet.n) <==> AllSeen(events[..k], packet.n)
  {
    hide Counted, EntryOk, Live, GenuineEntry, Genuine, GenuineOp, Seen, AllSeen, Spares;
    NoMoreSeen(g.reassembly[key], packet.n, events, k);
    var d := Receive(g, events[k].op, (_: Key) => packet);
  }

  lemma SeenInAll(events: seq<Event>, k: nat, n: nat)
    requires k <= |events|
    ensures AllSeen(events[..k], n) ==> AllSeen(events, n)
  {
    forall i: nat | Seen(events[..k], i)
      ensures Seen(events, i)
    {
      var j :| 0 <= j < k && events[..k][j].Ours? && events[..k][j].i == i;
      assert events[j] == events[..k][j];
    }
  }

  // A packet that is fragmented, and whose frames arrive in any order and any number of times,
  // while anything else arrives or expires: it comes out when the last of its frames has arrived
  // for the first time, and not before, provided that its source and the table have room, and
  // that its own entry does not expire.
  method FragmentAndReassemble(g: Reassembler, p: seq<Byte>, n: nat, addr: Address, msgId: Byte, minPkt: nat,
                               maxPkt: nat, random: nat -> nat, noise: (nat, nat) -> Byte, events: seq<Event>)
    returns (out: Option<seq<Byte>>, done: nat)
    requires MIN_FRAGMENT_CHUNKS <= n <= MAX_FRAGMENT_CHUNKS && minPkt <= maxPkt <= 2048
    requires g.Valid() && Key(addr, msgId) !in g.reassembly && Live(g.reassembly, addr) < MAX_PER_SOURCE
    requires |g.reassembly| + |events| <= MAX_REASSEMBLY
    requires events != [] && events[0].Ours? && Peaceful(events, Key(addr, msgId), n, events[0].now + REASSEMBLY_TTL)
    modifies g
    ensures g.Valid() && (out.Some? <==> AllSeen(events, n))
    ensures out.Some? ==>
      out.value == p && 0 < done <= |events| && AllSeen(events[..done], n) && !AllSeen(events[..done - 1], n)
  {
    hide Chunk, DecodeFrame, Counted, GenuineEntry, EntryOk, Live, Collecting, AllSeen;
    var frames := WriteFragmented(p, n, msgId, minPkt, maxPkt, random, noise);
    ghost var deadline := events[0].now + REASSEMBLY_TTL;
    out := FirstFragment(g, frames[events[0].i], p, n, addr, msgId, events);
    done := 1;
    while done < |events| && out.None?
      invariant 0 < done <= |events| && g.Valid() && |g.reassembly| + |events| - done <= MAX_REASSEMBLY
      invariant out.None? ==> !AllSeen(events[..done], n)
      invariant out.None? ==> Collecting(g.reassembly, Key(addr, msgId), Packet(p, n), events[..done], deadline)
      invariant out.Some? ==> out.value == p && AllSeen(events[..done], n) && !AllSeen(events[..done - 1], n)
      decreases |events| - done
    {
      if events[done].Ours? {
        out := NextFragment(g, frames[events[done].i], p, n, addr, msgId, events, done, deadline);
      } else {
        SomethingElse(g, Packet(p, n), Key(addr, msgId), events, done, deadline);
      }
      done := done + 1;
    }
    SeenInAll(events, done, n);
    assert out.None? ==> events[..done] == events;
  }
}
