// Chaos protection of Initial packets: the head/tail split of a large ClientHello,
// CRYPTO frames cut at random, PINGs and padding mixed in, all shuffled, at an exact
// byte budget.
module Chaos {
  import opened Protocol
  import opened Wire
  import opened CryptoSending

  const MIN_ADDED_CRYPTO_FRAMES: nat := 2
  const MAX_ADDED_CRYPTO_FRAMES: nat := 10
  const MIN_PING_FRAMES: nat := 2
  const MAX_PING_FRAMES: nat := 10
  const MIN_FIRST_FRAME_LEN: nat := 55
  const FIRST_FRAME_LEN_RANDOM: nat := 32

  // A random number below n: any of them.
  method Draw(n: nat) returns (k: nat)
    requires 0 < n
    ensures k < n
  {
    k :| k < n;
  }

  // ----------------------------------------------------- head/tail split

  function CeilDiv(a: nat, b: nat): nat
    requires 0 < b
  {
    (a + b - 1) / b
  }

  lemma CeilDivBounds(a: nat, b: nat)
    requires 0 < b
    ensures CeilDiv(a, b) * b >= a
    ensures 0 < a ==> (CeilDiv(a, b) - 1) * b < a
    ensures a == 0 ==> CeilDiv(a, b) == 0
  {
  }

  lemma FewLots(a: nat, n: nat, q: nat, c: nat)
    requires 0 < n && a <= c * n && (0 < a ==> (q - 1) * n < a) && (a == 0 ==> q == 0)
    ensures q <= c
  {
    assert c <= q - 1 ==> c * n <= (q - 1) * n;
  }

  // a things in at most n lots of at most c need no more than c per lot.
  lemma EvenLots(a: nat, n: nat, c: nat)
    requires 0 < n && a <= c * n
    ensures CeilDiv(a, n) <= c
  {
    CeilDivBounds(a, n);
    FewLots(a, n, CeilDiv(a, n), c);
  }

  // Room for a frame header anywhere in the pending data.
  function HeaderRoom(pending: nat, offset: nat): nat
    requires 0 < pending
  {
    CryptoHeaderLen(offset + pending - 1, pending)
  }

  // The number of packets the pending data is spread over.
  function NumPackets(pending: nat, offset: nat, available: nat): nat
    requires 0 < pending && 2 * HeaderRoom(pending, offset) <= available
  {
    CeilDiv(pending + HeaderRoom(pending, offset), available - HeaderRoom(pending, offset))
  }

  // The lengths of the leading and of the trailing frame of the first packet; zero for no split.
  function ChromeCryptoSplit(pending: nat, offset: nat, available: nat, random: nat): (r: (nat, nat))
    requires random < FIRST_FRAME_LEN_RANDOM
    ensures r.0 > 0 <==> r.1 > 0
  {
    if pending == 0 || available == 0 then (0, 0)
    else
      var minFrame := HeaderRoom(pending, offset);
      if available < 2 * minFrame then (0, 0)
      else
        var maxFirst := available - 2 * minFrame;
        var maxOther := available - minFrame;
        if pending <= maxFirst then (0, 0)
        else
          var occupied := maxOther - maxFirst;
          var numPackets := NumPackets(pending, offset, available);
          assert numPackets > 0 by { CeilDivBounds(pending + occupied, maxOther); }
          var dataOther := CeilDiv(pending + occupied, numPackets);
          if dataOther < occupied then (0, 0)
          else
            var dataFirst := dataOther - occupied;
            var first := MIN_FIRST_FRAME_LEN + random;
            if pending <= first || dataFirst <= first then (0, 0) else (first, dataFirst - first)
  }

  // A split takes disjoint parts of the pending data, both frames fit into the packet
  // wherever they lie in the pending data, and what is left fits into the other packets.
  lemma SplitFits(pending: nat, offset: nat, available: nat, random: nat, first: nat, last: nat)
    requires random < FIRST_FRAME_LEN_RANDOM
    requires ChromeCryptoSplit(pending, offset, available, random) == (first, last) && first > 0
    ensures first + last < pending
    ensures 2 * HeaderRoom(pending, offset) <= available && 2 <= NumPackets(pending, offset, available)
    ensures CryptoHeaderLen(offset, first) + first + CryptoHeaderLen(offset + pending - last, last) + last <= available
    ensures pending - first - last
         <= (NumPackets(pending, offset, available) - 1) * (available - HeaderRoom(pending, offset))
  {
    Shares(pending + HeaderRoom(pending, offset), available - HeaderRoom(pending, offset));
    hide CeilDiv;
  }

  // More than one lot of c, spread evenly over the fewest lots.
  lemma Shares(total: nat, c: nat)
    requires 0 < c < total
    ensures 2 <= CeilDiv(total, c)
    ensures CeilDiv(total, CeilDiv(total, c)) <= c
    ensures CeilDiv(total, CeilDiv(total, c)) < total
    ensures total - CeilDiv(total, CeilDiv(total, c)) <= (CeilDiv(total, c) - 1) * c
  {
    var n := CeilDiv(total, c);
    CeilDivBounds(total, c);
    ManyLots(total, n, c);
    EvenLots(total, n, c);
    CeilDivBounds(total, n);
    LotsLeft(total, n, CeilDiv(total, n), c);
  }

  lemma ManyLots(total: nat, n: nat, c: nat)
    requires c < total <= n * c
    ensures 2 <= n
  {
    assert n <= 1 ==> n * c <= 1 * c;
  }

  lemma LotsLeft(total: nat, n: nat, each: nat, c: nat)
    requires 0 < n && total <= each * n && each <= c
    ensures total - each <= (n - 1) * c
  {
    assert each * n - each == (n - 1) * each;
    assert (n - 1) * each <= (n - 1) * c;
  }

  // A later packet has room for as much data in one frame as the split counted on.
  lemma LaterFrameRoom(pending: nat, offset: nat, available: nat, at: nat)
    requires 0 < pending && HeaderRoom(pending, offset) <= available <= MAX_FRAME_SIZE
    requires offset <= at < offset + pending
    ensures CryptoMaxDataLen(at, available) >= Min(pending, available - HeaderRoom(pending, offset))
  {
  }

  // ------------------------------------------------------------ contents

  // An element of a payload: a CRYPTO frame, some other frame, a PING or a run of padding.
  datatype Item = Crypto(cf: CryptoFrame) | Other(id: nat, length: nat) | Ping | Padding(n: nat)
  {
    function Length(): nat {
      match this
      case Crypto(cf) => cf.Length()
      case Other(_, length) => length
      case Ping => 1
      case Padding(n) => n
    }
  }

  // What a payload can be measured by: its encoded length, how often it carries byte b at
  // position p of the crypto stream, how often it holds a certain other frame.
  datatype Measure = Encoded | At(p: nat, b: Byte) | Of(id: nat)

  ghost function Weigh(it: Item, m: Measure): nat {
    match m
    case Encoded => it.Length()
    case At(p, b) => if it.Crypto? && Covers(it.cf, p) && it.cf.data[p - it.cf.offset] == b then 1 else 0
    case Of(id) => if it.Other? && it.id == id then 1 else 0
  }

  ghost function OnItem(m: Measure): Item -> nat {
    it => Weigh(it, m)
  }

  ghost function OnFrame(m: Measure): CryptoFrame -> nat {
    f => Weigh(Crypto(f), m)
  }

  ghost function Sum<T>(s: seq<T>, w: T -> nat): nat {
    if s == [] then 0 else Sum(s[..|s| - 1], w) + w(s[|s| - 1])
  }

  lemma SumAppend<T>(s: seq<T>, x: T, w: T -> nat)
    ensures Sum(s + [x], w) == Sum(s, w) + w(x)
  {
    assert (s + [x])[..|s|] == s;
  }

  lemma {:induction false} SumConcat<T>(a: seq<T>, b: seq<T>, w: T -> nat)
    ensures Sum(a + b, w) == Sum(a, w) + Sum(b, w)
  {
    if b == [] {
      assert a + b == a;
    } else {
      var n := |b| - 1;
      SumConcat(a, b[..n], w);
      assert (a + b)[..|a| + n] == a + b[..n];
    }
  }

  lemma {:induction false} SumUpdate<T>(s: seq<T>, i: nat, x: T, w: T -> nat)
    requires i < |s|
    ensures Sum(s[i := x], w) == Sum(s, w) - w(s[i]) + w(x)
  {
    var n := |s| - 1;
    if i == n {
      assert s[i := x][..n] == s[..n];
    } else {
      SumUpdate(s[..n], i, x, w);
      assert s[i := x][..n] == s[..n][i := x];
    }
  }

  ghost function Size(fs: Frames): nat {
    Sum(fs, OnFrame(Encoded))
  }

  // The same bytes at the same positions, equally often.
  ghost predicate SameContents(fs: Frames, gs: Frames) {
    forall m: Measure :: m != Encoded ==> Sum(fs, OnFrame(m)) == Sum(gs, OnFrame(m))
  }

  ghost predicate NoneEmpty(fs: Frames) {
    forall i :: 0 <= i < |fs| ==> fs[i].data != []
  }

  lemma {:induction false} Located(fs: Frames, p: nat, b: Byte) returns (i: nat)
    requires Sum(fs, OnFrame(At(p, b))) > 0
    ensures i < |fs| && Covers(fs[i], p) && fs[i].data[p - fs[i].offset] == b
  {
    var n := |fs| - 1;
    if Weigh(Crypto(fs[n]), At(p, b)) > 0 {
      i := n;
    } else {
      i := Located(fs[..n], p, b);
    }
  }

  lemma {:induction false} Present(fs: Frames, i: nat, p: nat)
    requires i < |fs| && Covers(fs[i], p)
    ensures Sum(fs, OnFrame(At(p, fs[i].data[p - fs[i].offset]))) > 0
  {
    var n := |fs| - 1;
    if i < n {
      Present(fs[..n], i, p);
    }
  }

  // Where all frames carry bytes of data, counting frames is counting occurrences.
  lemma {:induction false} CountOccurrences(fs: Frames, data: seq<Byte>, p: nat)
    requires Carry(fs, data) && p < |data|
    ensures Count(fs, p) == Sum(fs, OnFrame(At(p, data[p])))
  {
    if fs != [] {
      var n := |fs| - 1;
      assert Carry(fs[..n], data);
      CountOccurrences(fs[..n], data, p);
      assert CarriesSlice(fs[n], data);
      if Covers(fs[n], p) { assert fs[n].data[p - fs[n].offset] == data[p]; }
    }
  }

  lemma SameBytesCarry(fs: Frames, gs: Frames, data: seq<Byte>, i: nat)
    requires SameContents(fs, gs) && Carry(fs, data) && i < |gs| && gs[i].data != []
    ensures CarriesSlice(gs[i], data)
  {
    var g := gs[i];
    forall p: nat | Covers(g, p)
      ensures p < |data| && data[p] == g.data[p - g.offset]
    {
      var b := g.data[p - g.offset];
      Present(gs, i, p);
      assert Sum(fs, OnFrame(At(p, b))) == Sum(gs, OnFrame(At(p, b)));
      var k := Located(fs, p, b);
      assert CarriesSlice(fs[k], data);
    }
    assert Covers(g, g.End() - 1);
    assert g.data == data[g.offset..g.End()] by {
      assert forall k :: 0 <= k < |g.data| ==> Covers(g, g.offset + k) && g.data[k] == data[g.offset + k];
    }
  }

  // Frames with the same contents carry each byte of the data equally often.
  lemma SameContentsCover(fs: Frames, gs: Frames, data: seq<Byte>)
    requires SameContents(fs, gs) && NoneEmpty(gs) && Carry(fs, data)
    ensures Carry(gs, data) && forall p: nat :: p < |data| ==> Count(gs, p) == Count(fs, p)
  {
    forall i | 0 <= i < |gs|
      ensures CarriesSlice(gs[i], data)
    {
      SameBytesCarry(fs, gs, data, i);
    }
    forall p: nat | p < |data|
      ensures Count(gs, p) == Count(fs, p)
    {
      CountOccurrences(fs, data, p);
      CountOccurrences(gs, data, p);
      assert At(p, data[p]) != Encoded;
    }
  }

  // -------------------------------------------------------------- shredding

  // Cutting frame i in two and moving the second part to the end.
  function CutAt(fs: Frames, i: nat, cut: nat): Frames
    requires i < |fs| && cut <= |fs[i].data|
  {
    fs[i := CryptoFrame(fs[i].offset, fs[i].data[..cut])] + [CryptoFrame(fs[i].offset + cut, fs[i].data[cut..])]
  }

  lemma CutSum(fs: Frames, i: nat, cut: nat, m: Measure)
    requires i < |fs| && cut <= |fs[i].data|
    ensures Sum(CutAt(fs, i, cut), OnFrame(m)) == Sum(fs, OnFrame(m)) - Weigh(Crypto(fs[i]), m)
      + Weigh(Crypto(CryptoFrame(fs[i].offset, fs[i].data[..cut])), m)
      + Weigh(Crypto(CryptoFrame(fs[i].offset + cut, fs[i].data[cut..])), m)
  {
    var a, b := CryptoFrame(fs[i].offset, fs[i].data[..cut]), CryptoFrame(fs[i].offset + cut, fs[i].data[cut..]);
    SumUpdate(fs, i, a, OnFrame(m));
    SumAppend(fs[i := a], b, OnFrame(m));
  }

  lemma CutKeepsContents(fs: Frames, i: nat, cut: nat)
    requires i < |fs| && cut <= |fs[i].data|
    ensures SameContents(fs, CutAt(fs, i, cut))
  {
    forall m: Measure | m != Encoded
      ensures Sum(fs, OnFrame(m)) == Sum(CutAt(fs, i, cut), OnFrame(m))
    {
      CutSum(fs, i, cut, m);
    }
  }

  // All frames lie in [lo, hi).
  ghost predicate Within(fs: Frames, lo: nat, hi: nat) {
    forall i :: 0 <= i < |fs| ==> lo <= fs[i].offset && fs[i].End() <= hi
  }

  lemma CutWithin(fs: Frames, i: nat, cut: nat, lo: nat, hi: nat)
    requires i < |fs| && 0 < cut < |fs[i].data| && Within(fs, lo, hi)
    ensures Within(CutAt(fs, i, cut), lo, hi)
    ensures NoneEmpty(fs) ==> NoneEmpty(CutAt(fs, i, cut))
  {
  }

  // Headers of the parts cost at most one worst-case header more than that of the whole.
  lemma CutOverhead(f: CryptoFrame, cut: nat, lo: nat, hi: nat)
    requires 0 < cut < |f.data| && lo <= f.offset && f.End() <= hi
    ensures CryptoHeaderLen(f.offset, cut) + CryptoHeaderLen(f.offset + cut, |f.data| - cut)
         <= CryptoHeaderLen(f.offset, |f.data|) + CryptoHeaderLen(hi, hi - lo)
  {
    assert VarIntLen(|f.data| - cut) <= VarIntLen(hi - lo);
    assert VarIntLen(f.offset + cut) <= VarIntLen(hi);
    assert VarIntLen(cut) <= VarIntLen(|f.data|);
  }

  method Range(crypto: Frames) returns (lo: nat, hi: nat)
    requires crypto != []
    ensures Within(crypto, lo, hi) && lo <= hi
  {
    lo, hi := crypto[0].offset, 0;
    var i := 0;
    while i < |crypto|
      invariant 0 <= i <= |crypto|
      invariant Within(crypto[..i], lo, hi) && lo <= crypto[0].offset && (i > 0 ==> lo <= hi)
      decreases |crypto| - i
    {
      lo := Min(lo, crypto[i].offset);
      hi := Max(hi, crypto[i].End());
      i := i + 1;
    }
    assert crypto[..i] == crypto;
  }

  // One attempt at cutting a random frame. The header of the second part is paid for by the budget.
  method Attempt(crypto: Frames, numOther: nat, budget: nat, ghost lo: nat, ghost hi: nat)
    returns (crypto': Frames, budget': nat)
    requires crypto != [] && Within(crypto, lo, hi) && lo <= hi && CryptoHeaderLen(hi, hi - lo) <= budget
    ensures crypto' != [] && Within(crypto', lo, hi) && |crypto'| <= |crypto| + 1
    ensures Size(crypto') + budget' == Size(crypto) + budget
    ensures SameContents(crypto, crypto') && (NoneEmpty(crypto) ==> NoneEmpty(crypto'))
  {
    crypto', budget' := crypto, budget;
    assert SameContents(crypto, crypto);
    hide SameContents, NoneEmpty;
    var idx := Draw(|crypto| + numOther);
    if idx >= |crypto| {
      return;
    }
    var cf := crypto[idx];
    if |cf.data| <= 1 {
      return;
    }
    var cut := Draw(|cf.data| - 1);
    cut := cut + 1;
    crypto' := CutAt(crypto, idx, cut);
    budget' := budget + CryptoHeaderLen(cf.offset, |cf.data|) - CryptoHeaderLen(cf.offset, cut)
      - CryptoHeaderLen(cf.offset + cut, |cf.data| - cut);
    CutWithin(crypto, idx, cut, lo, hi);
    CutOverhead(cf, cut, lo, hi);
    CutKeepsContents(crypto, idx, cut);
    CutSum(crypto, idx, cut, Encoded);
  }

  // Cuts frames at random while the budget lasts.
  method Shred(crypto: Frames, numOther: nat, budget: nat) returns (crypto': Frames, budget': nat)
    ensures Size(crypto') + budget' == Size(crypto) + budget
    ensures SameContents(crypto, crypto') && (NoneEmpty(crypto) ==> NoneEmpty(crypto'))
    ensures |crypto'| <= |crypto| + MAX_ADDED_CRYPTO_FRAMES
  {
    crypto', budget' := crypto, budget;
    if crypto == [] {
      return;
    }
    var lo, hi := Range(crypto);
    var maxOverhead := CryptoHeaderLen(hi, hi - lo);
    var attempts := Draw(MAX_ADDED_CRYPTO_FRAMES - MIN_ADDED_CRYPTO_FRAMES + 1);
    attempts := attempts + MIN_ADDED_CRYPTO_FRAMES;
    var i := 0;
    while i < attempts && budget' >= maxOverhead
      invariant 0 <= i <= attempts && |crypto'| <= |crypto| + i
      invariant crypto' != [] && Within(crypto', lo, hi)
      invariant Size(crypto') + budget' == Size(crypto) + budget
      invariant SameContents(crypto, crypto') && (NoneEmpty(crypto) ==> NoneEmpty(crypto'))
      decreases attempts - i
    {
      crypto', budget' := Attempt(crypto', numOther, budget', lo, hi);
      i := i + 1;
    }
  }

  // ---------------------------------------------------------------- padding

  ghost function Total(runs: seq<nat>): nat {
    Sum(runs, n => n)
  }

  // Breaks the padding into runs.
  method SpreadPadding(numFrames: nat, budget: nat) returns (runs: seq<nat>)
    ensures Total(runs) == budget
    ensures forall i :: 0 <= i < |runs| ==> runs[i] > 0
    ensures |runs| <= numFrames + 1
  {
    runs := [];
    var left := budget;
    var i := 0;
    while i < numFrames && left > 0
      invariant 0 <= i <= numFrames && |runs| <= i
      invariant Total(runs) + left == budget
      invariant forall k :: 0 <= k < |runs| ==> runs[k] > 0
      decreases numFrames - i
    {
      var n := Draw(left + 1);
      i := i + 1;
      if n > 0 {
        SumAppend(runs, n, k => k);
        runs := runs + [n];
        left := left - n;
      }
    }
    if left > 0 {
      SumAppend(runs, left, k => k);
      runs := runs + [left];
    }
  }

  // ---------------------------------------------------------------- payload

  // The CRYPTO frames of a payload.
  function CryptoOf(items: seq<Item>): Frames {
    if items == [] then []
    else
      var last := items[|items| - 1];
      CryptoOf(items[..|items| - 1]) + if last.Crypto? then [last.cf] else []
  }

  lemma CryptoOfAppend(items: seq<Item>, it: Item)
    ensures CryptoOf(items + [it]) == CryptoOf(items) + if it.Crypto? then [it.cf] else []
  {
    assert (items + [it])[..|items|] == items;
  }

  lemma {:induction false} CryptoOfConcat(a: seq<Item>, b: seq<Item>)
    ensures CryptoOf(a + b) == CryptoOf(a) + CryptoOf(b)
  {
    if b == [] {
      assert a + b == a;
    } else {
      var n := |b| - 1;
      CryptoOfConcat(a, b[..n]);
      assert (a + b)[..|a| + n] == a + b[..n];
    }
  }

  lemma {:induction false} CryptoOfMeasure(items: seq<Item>, p: nat, b: Byte)
    ensures Sum(CryptoOf(items), OnFrame(At(p, b))) == Sum(items, OnItem(At(p, b)))
  {
    if items != [] {
      var n := |items| - 1;
      CryptoOfMeasure(items[..n], p, b);
      if items[n].Crypto? {
        SumAppend(CryptoOf(items[..n]), items[n].cf, OnFrame(At(p, b)));
      } else {
        assert CryptoOf(items) == CryptoOf(items[..n]);
      }
    }
  }

  // The payload's frames, CRYPTO and others apart.
  method SplitCryptoFrames(frames: seq<Item>) returns (crypto: Frames, others: seq<Item>)
    ensures forall m: Measure :: Sum(crypto, OnFrame(m)) + Sum(others, OnItem(m)) == Sum(frames, OnItem(m))
    ensures crypto == CryptoOf(frames) && CryptoOf(others) == []
  {
    crypto, others := [], [];
    var i := 0;
    while i < |frames|
      invariant 0 <= i <= |frames|
      invariant forall m: Measure :: Sum(crypto, OnFrame(m)) + Sum(others, OnItem(m)) == Sum(frames[..i], OnItem(m))
      invariant crypto == CryptoOf(frames[..i]) && CryptoOf(others) == []
      decreases |frames| - i
    {
      var f := frames[i];
      assert frames[..i + 1] == frames[..i] + [f];
      CryptoOfAppend(frames[..i], f);
      forall m: Measure
        ensures Sum(frames[..i + 1], OnItem(m)) == Sum(frames[..i], OnItem(m)) + Weigh(f, m)
      {
        SumAppend(frames[..i], f, OnItem(m));
      }
      if f.Crypto? {
        Extend(crypto, f.cf);
        crypto := crypto + [f.cf];
      } else {
        ExtendItems(others, f);
        CryptoOfAppend(others, f);
        others := others + [f];
      }
      i := i + 1;
    }
    assert frames[..i] == frames;
  }

  lemma Extend(fs: Frames, f: CryptoFrame)
    ensures forall m: Measure :: Sum(fs + [f], OnFrame(m)) == Sum(fs, OnFrame(m)) + Weigh(Crypto(f), m)
  {
    forall m: Measure
      ensures Sum(fs + [f], OnFrame(m)) == Sum(fs, OnFrame(m)) + Weigh(Crypto(f), m)
    {
      SumAppend(fs, f, OnFrame(m));
    }
  }

  lemma ExtendItems(items: seq<Item>, it: Item)
    ensures forall m: Measure :: Sum(items + [it], OnItem(m)) == Sum(items, OnItem(m)) + Weigh(it, m)
  {
    forall m: Measure
      ensures Sum(items + [it], OnItem(m)) == Sum(items, OnItem(m)) + Weigh(it, m)
    {
      SumAppend(items, it, OnItem(m));
    }
  }

  // All items laid out before shuffling: the frames, then PINGs, then runs of padding.
  method Items(crypto: Frames, others: seq<Item>) returns (items: seq<Item>)
    requires CryptoOf(others) == []
    ensures forall m: Measure :: Sum(items, OnItem(m)) == Sum(crypto, OnFrame(m)) + Sum(others, OnItem(m))
    ensures |items| == |crypto| + |others| && CryptoOf(items) == crypto
  {
    items := [];
    var i := 0;
    while i < |crypto|
      invariant 0 <= i <= |crypto| == |crypto[..i]| + |crypto| - i && |items| == i
      invariant forall m: Measure :: Sum(items, OnItem(m)) == Sum(crypto[..i], OnFrame(m))
      invariant CryptoOf(items) == crypto[..i]
      decreases |crypto| - i
    {
      ExtendItems(items, Crypto(crypto[i]));
      Extend(crypto[..i], crypto[i]);
      CryptoOfAppend(items, Crypto(crypto[i]));
      assert crypto[..i + 1] == crypto[..i] + [crypto[i]];
      items := items + [Crypto(crypto[i])];
      i := i + 1;
    }
    assert crypto[..i] == crypto;
    items := AddAll(items, others);
  }

  method AddAll(items: seq<Item>, more: seq<Item>) returns (r: seq<Item>)
    requires CryptoOf(more) == []
    ensures r == items + more && CryptoOf(r) == CryptoOf(items)
    ensures forall m: Measure :: Sum(r, OnItem(m)) == Sum(items, OnItem(m)) + Sum(more, OnItem(m))
  {
    r := items;
    var i := 0;
    while i < |more|
      invariant 0 <= i <= |more| && r == items + more[..i] && CryptoOf(r) == CryptoOf(items)
      invariant forall m: Measure :: Sum(r, OnItem(m)) == Sum(items, OnItem(m)) + Sum(more[..i], OnItem(m))
      decreases |more| - i
    {
      NotCrypto(more, i);
      ExtendItems(r, more[i]);
      ExtendItems(more[..i], more[i]);
      CryptoOfAppend(r, more[i]);
      assert more[..i + 1] == more[..i] + [more[i]];
      r := r + [more[i]];
      i := i + 1;
    }
    assert more[..i] == more;
  }

  lemma {:induction false} NotCrypto(items: seq<Item>, i: nat)
    requires i < |items| && CryptoOf(items) == []
    ensures !items[i].Crypto?
  {
    if i < |items| - 1 {
      NotCrypto(items[..|items| - 1], i);
    }
  }

  // Fisher-Yates. Only the order changes: every measure stays the same.
  method Shuffle(items: seq<Item>) returns (r: seq<Item>)
    ensures multiset(r) == multiset(items)
    ensures forall m: Measure :: Sum(r, OnItem(m)) == Sum(items, OnItem(m))
  {
    r := items;
    var i := |items|;
    while i > 1
      invariant 0 <= i <= |r| == |items|
      invariant multiset(r) == multiset(items)
      invariant forall m: Measure :: Sum(r, OnItem(m)) == Sum(items, OnItem(m))
      decreases i
    {
      var j := Draw(i);
      i := i - 1;
      Swap(r, i, j);
      r := r[i := r[j]][j := r[i]];
    }
  }

  lemma Swap(items: seq<Item>, i: nat, j: nat)
    requires i < |items| && j < |items|
    ensures multiset(items[i := items[j]][j := items[i]]) == multiset(items)
    ensures forall m: Measure :: Sum(items[i := items[j]][j := items[i]], OnItem(m)) == Sum(items, OnItem(m))
  {
    forall m: Measure
      ensures Sum(items[i := items[j]][j := items[i]], OnItem(m)) == Sum(items, OnItem(m))
    {
      SumUpdate(items, i, items[j], OnItem(m));
      SumUpdate(items[i := items[j]], j, items[i], OnItem(m));
    }
  }

  // Mixes PINGs and runs of padding in, at the cost of the budget.
  method AddFiller(frames: seq<Item>, budget: nat) returns (items: seq<Item>)
    ensures CryptoOf(items) == CryptoOf(frames)
    ensures Sum(items, OnItem(Encoded)) == Sum(frames, OnItem(Encoded)) + budget
    ensures forall m: Measure :: m != Encoded ==> Sum(items, OnItem(m)) == Sum(frames, OnItem(m))
  {
    var numPings := Draw(MAX_PING_FRAMES - MIN_PING_FRAMES + 1);
    numPings := Min(MIN_PING_FRAMES + numPings, budget);
    items := frames;
    var i := 0;
    while i < numPings
      invariant 0 <= i <= numPings && CryptoOf(items) == CryptoOf(frames)
      invariant Sum(items, OnItem(Encoded)) == Sum(frames, OnItem(Encoded)) + i
      invariant forall m: Measure :: m != Encoded ==> Sum(items, OnItem(m)) == Sum(frames, OnItem(m))
      decreases numPings - i
    {
      ExtendItems(items, Ping);
      CryptoOfAppend(items, Ping);
      items := items + [Ping];
      i := i + 1;
    }
    var runs := SpreadPadding(|items|, budget - numPings);
    items := AddRuns(items, runs);
  }

  method AddRuns(frames: seq<Item>, runs: seq<nat>) returns (items: seq<Item>)
    ensures CryptoOf(items) == CryptoOf(frames)
    ensures Sum(items, OnItem(Encoded)) == Sum(frames, OnItem(Encoded)) + Total(runs)
    ensures forall m: Measure :: m != Encoded ==> Sum(items, OnItem(m)) == Sum(frames, OnItem(m))
  {
    items := frames;
    var i := 0;
    while i < |runs|
      invariant 0 <= i <= |runs| && CryptoOf(items) == CryptoOf(frames)
      invariant Sum(items, OnItem(Encoded)) == Sum(frames, OnItem(Encoded)) + Total(runs[..i])
      invariant forall m: Measure :: m != Encoded ==> Sum(items, OnItem(m)) == Sum(frames, OnItem(m))
      decreases |runs| - i
    {
      ExtendItems(items, Padding(runs[i]));
      CryptoOfAppend(items, Padding(runs[i]));
      SumAppend(runs[..i], runs[i], n => n);
      assert runs[..i + 1] == runs[..i] + [runs[i]];
      items := items + [Padding(runs[i])];
      i := i + 1;
    }
    assert runs[..i] == runs;
  }

  // What is written carries the bytes, and the other frames, that were to be sent.
  ghost predicate Faithful(frames: seq<Item>, items: seq<Item>) {
    && (forall m: Measure :: m != Encoded ==> Sum(items, OnItem(m)) == Sum(frames, OnItem(m)))
    && (NoneEmpty(CryptoOf(frames)) ==> NoneEmpty(CryptoOf(items)))
  }

  // The payload that is written, in order, and its length in bytes, for whatever numbers are
  // drawn: the length is that of the plain payload with its padding, so that the size check
  // never fails; the CRYPTO frames carry the same bytes at the same offsets as before, and
  // the other frames are all there.
  method AppendChaosProtectedPayload(ackLen: nat, frames: seq<Item>, paddingLen: nat)
    returns (items: seq<Item>, written: nat)
    ensures written == ackLen + Sum(frames, OnItem(Encoded)) + paddingLen
    ensures written == ackLen + Sum(items, OnItem(Encoded)) && Faithful(frames, items)
  {
    var crypto, others := SplitCryptoFrames(frames);
    var shredded, budget := Shred(crypto, |others|, paddingLen);
    items := Items(shredded, others);
    items := AddFiller(items, budget);
    ghost var laidOut := items;
    items := Shuffle(items);
    if NoneEmpty(crypto) { StillNoneEmpty(laidOut, items); }
    written := Encode(ackLen, items);
  }

  // The number of bytes written: the ACK, then the items one after another.
  method Encode(ackLen: nat, items: seq<Item>) returns (written: nat)
    ensures written == ackLen + Sum(items, OnItem(Encoded))
  {
    written := ackLen;
    var i := 0;
    while i < |items|
      invariant 0 <= i <= |items| && written == ackLen + Sum(items[..i], OnItem(Encoded))
      decreases |items| - i
    {
      SumAppend(items[..i], items[i], OnItem(Encoded));
      assert items[..i + 1] == items[..i] + [items[i]];
      written := written + items[i].Length();
      i := i + 1;
    }
    assert items[..i] == items;
  }

  lemma {:induction false} CryptoListed(items: seq<Item>, f: CryptoFrame)
    ensures f in CryptoOf(items) <==> Crypto(f) in items
  {
    if items != [] {
      var n := |items| - 1;
      CryptoListed(items[..n], f);
      assert items == items[..n] + [items[n]];
    }
  }

  lemma StillNoneEmpty(items: seq<Item>, shuffled: seq<Item>)
    requires multiset(items) == multiset(shuffled) && NoneEmpty(CryptoOf(items))
    ensures NoneEmpty(CryptoOf(shuffled))
  {
    var fs := CryptoOf(shuffled);
    forall i | 0 <= i < |fs|
      ensures fs[i].data != []
    {
      CryptoListed(shuffled, fs[i]);
      assert Crypto(fs[i]) in multiset(shuffled);
      CryptoListed(items, fs[i]);
    }
  }

  // CRYPTO frames of handshake data carry each byte of it as often when they are protected as
  // without: in particular exactly once, if that is how often they did.
  lemma ProtectedCover(frames: seq<Item>, items: seq<Item>, data: seq<Byte>)
    requires Faithful(frames, items) && NoneEmpty(CryptoOf(frames)) && Carry(CryptoOf(frames), data)
    ensures Carry(CryptoOf(items), data) && forall p: nat :: p < |data| ==>
      Count(CryptoOf(items), p) == Count(CryptoOf(frames), p)
    ensures ExactCover(CryptoOf(items), data) <==> ExactCover(CryptoOf(frames), data)
  {
    var fs, gs := CryptoOf(frames), CryptoOf(items);
    forall m: Measure | m != Encoded
      ensures Sum(fs, OnFrame(m)) == Sum(gs, OnFrame(m))
    {
      if m.At? {
        CryptoOfMeasure(frames, m.p, m.b);
        CryptoOfMeasure(items, m.p, m.b);
      } else {
        NoOthers(fs, m.id);
        NoOthers(gs, m.id);
      }
    }
    SameContentsCover(fs, gs, data);
  }

  lemma {:induction false} NoOthers(fs: Frames, id: nat)
    ensures Sum(fs, OnFrame(Of(id))) == 0
  {
    if fs != [] {
      NoOthers(fs[..|fs| - 1], id);
    }
  }

  // ---------------------------------------------------------------- packets

  // A payload that is not protected: the ACK, the padding, the frames in any order.
  method AppendPacketPayload(ackLen: nat, frames: seq<Item>, paddingLen: nat) returns (items: seq<Item>, written: nat)
    ensures written == ackLen + Sum(frames, OnItem(Encoded)) + paddingLen
    ensures written == ackLen + Sum(items, OnItem(Encoded)) && Faithful(frames, items)
  {
    var padding := if paddingLen > 0 then [Padding(paddingLen)] else [];
    var shuffled := Shuffle(frames);
    if NoneEmpty(CryptoOf(frames)) { StillNoneEmpty(frames, shuffled); }
    items := padding + shuffled;
    CryptoOfConcat(padding, shuffled);
    forall m: Measure
      ensures Sum(items, OnItem(m)) == Sum(frames, OnItem(m)) + if m == Encoded then paddingLen else 0
    {
      SumConcat(padding, shuffled, OnItem(m));
    }
    written := Encode(ackLen, items);
  }

  // The payload has the length that the ACK, the frames and padding up to room come to.
  ghost predicate PaddedTo(room: nat, ackLen: nat, frames: seq<Item>, items: seq<Item>, written: nat) {
    written == Max(ackLen + Sum(frames, OnItem(Encoded)), room) == ackLen + Sum(items, OnItem(Encoded))
  }

  // The payload of an Initial packet. It is padded up to room, which is the rest of the packet, or
  // what header protection needs, and protected if there are CRYPTO frames to cut and padding to
  // spend on it. Either way it has the same length.
  method AppendInitialPayload(protect: bool, ackLen: nat, frames: seq<Item>, room: nat)
    returns (items: seq<Item>, written: nat)
    ensures PaddedTo(room, ackLen, frames, items, written) && Faithful(frames, items)
  {
    var length := Encode(ackLen, frames);
    var paddingLen := if length >= room then 0 else room - length;
    if protect && paddingLen > 0 && CryptoOf(frames) != [] {
      items, written := AppendChaosProtectedPayload(ackLen, frames, paddingLen);
    } else {
      items, written := AppendPacketPayload(ackLen, frames, paddingLen);
    }
  }

  lemma FaithfulConcat(a: seq<Item>, a': seq<Item>, b: seq<Item>, b': seq<Item>)
    requires Faithful(a, a') && Faithful(b, b')
    ensures Faithful(a + b, a' + b')
  {
    CryptoOfConcat(a, b);
    CryptoOfConcat(a', b');
    forall m: Measure | m != Encoded
      ensures Sum(a' + b', OnItem(m)) == Sum(a + b, OnItem(m))
    {
      SumConcat(a, b, OnItem(m));
      SumConcat(a', b', OnItem(m));
    }
    if NoneEmpty(CryptoOf(a + b)) {
      PartsNoneEmpty(CryptoOf(a), CryptoOf(b));
    }
  }

  lemma PartsNoneEmpty(fs: Frames, gs: Frames)
    ensures NoneEmpty(fs + gs) <==> NoneEmpty(fs) && NoneEmpty(gs)
  {
    if NoneEmpty(fs + gs) {
      assert forall i :: 0 <= i < |fs| ==> fs[i] == (fs + gs)[i];
      assert forall i :: 0 <= i < |gs| ==> gs[i] == (fs + gs)[|fs| + i];
    }
  }

  // A flight of Initial packets, each of them protected on its own: all have the length they would
  // have without, and together they carry what they were to carry.
  method AppendInitialPayloads(protect: bool, ackLens: seq<nat>, packets: seq<seq<Item>>, room: nat)
    returns (payloads: seq<seq<Item>>, sizes: seq<nat>)
    requires |ackLens| == |packets|
    ensures |payloads| == |sizes| == |packets|
    ensures forall i :: 0 <= i < |sizes| ==> PaddedTo(room, ackLens[i], packets[i], payloads[i], sizes[i])
    ensures Faithful(Flatten(packets), Flatten(payloads))
  {
    hide Faithful, PaddedTo;
    payloads, sizes := [], [];
    FaithfulToItself([]);
    var i := 0;
    while i < |packets|
      invariant 0 <= i == |payloads| == |sizes| <= |packets|
      invariant forall k :: 0 <= k < i ==> PaddedTo(room, ackLens[k], packets[k], payloads[k], sizes[k])
      invariant Faithful(Flatten(packets[..i]), Flatten(payloads))
      decreases |packets| - i
    {
      var items, written := AppendInitialPayload(protect, ackLens[i], packets[i], room);
      FaithfulConcat(Flatten(packets[..i]), Flatten(payloads), packets[i], items);
      assert packets[..i + 1][..i] == packets[..i] && (payloads + [items])[..i] == payloads;
      payloads, sizes := payloads + [items], sizes + [written];
      i := i + 1;
    }
    assert packets[..i] == packets;
  }

  lemma FaithfulToItself(items: seq<Item>)
    ensures Faithful(items, items)
  {
  }
}
