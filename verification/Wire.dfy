// The frames that carry stream and handshake data: their encoded sizes, and how
// they are cut to a size.
module Wire {
  import opened Protocol

  // The space after the header, length field included, that the computation of sizes can handle.
  const MAX_EXACT_DATA: nat := 16385

  // A frame header has at least two bytes, so up to this size the computation is exact for all frames.
  const MAX_FRAME_SIZE: nat := MAX_EXACT_DATA + 2

  // ---------------------------------------------------------------- STREAM

  datatype StreamFrame = StreamFrame(id: nat, offset: nat, data: seq<Byte>, fin: bool, dataLenPresent: bool)
  {
    function End(): nat {
      offset + |data|
    }

    function HeaderLen(): nat {
      1 + VarIntLen(id) + if offset != 0 then VarIntLen(offset) else 0
    }

    function Length(): nat {
      HeaderLen() + (if dataLenPresent then VarIntLen(|data|) else 0) + |data|
    }

    // The most data a frame with this header may carry in maxSize bytes; 0 if none fits.
    function MaxDataLen(maxSize: nat): nat {
      var headerLen := HeaderLen() + if dataLenPresent then 1 else 0;
      if headerLen > maxSize then 0
      else
        var n := maxSize - headerLen;
        if dataLenPresent && VarIntLen(n) != 1 then n - 1 else n
    }
  }

  // The size computation is exact for a frame with this header.
  predicate SizeExact(f: StreamFrame, maxSize: nat) {
    f.dataLenPresent ==> maxSize <= f.HeaderLen() + MAX_EXACT_DATA
  }

  // Data fits if and only if it is no longer than MaxDataLen.
  lemma MaxDataLenExact(f: StreamFrame, maxSize: nat)
    requires 0 < |f.data| && SizeExact(f, maxSize)
    ensures f.Length() <= maxSize <==> |f.data| <= f.MaxDataLen(maxSize)
  {
  }

  // ... for all data, exactly up to that size. Beyond it, MaxDataLen is too long by two bytes at least.
  lemma MaxDataLenLimit(f: StreamFrame, maxSize: nat)
    ensures (forall d: seq<Byte> :: d != [] ==> (f.(data := d).Length() <= maxSize <==> |d| <= f.MaxDataLen(maxSize)))
      <==> SizeExact(f, maxSize)
  {
    if SizeExact(f, maxSize) {
      forall d: seq<Byte> | d != []
        ensures f.(data := d).Length() <= maxSize <==> |d| <= f.MaxDataLen(maxSize)
      {
        MaxDataLenExact(f.(data := d), maxSize);
      }
    } else {
      var d := seq(f.MaxDataLen(maxSize), _ => 0 as Byte);
      assert d != [] && f.(data := d).Length() > maxSize;
    }
  }

  datatype Split = Fits | TooSmall | SplitOff(first: StreamFrame, rest: StreamFrame)

  // Cuts a frame such that the first part takes at most maxSize bytes.
  function MaybeSplitOff(f: StreamFrame, maxSize: nat): (s: Split)
    requires SizeExact(f, maxSize) && (f.data == [] ==> f.fin)
    ensures s.Fits? <==> f.Length() <= maxSize
    ensures s.TooSmall? <==> f.Length() > maxSize && f.MaxDataLen(maxSize) == 0
    ensures s.SplitOff? ==> |s.first.data| == f.MaxDataLen(maxSize)
    ensures s.SplitOff? ==>
      && s.first.data + s.rest.data == f.data && s.first.data != [] && s.rest.data != []
      && s.first.offset == f.offset && s.rest.offset == s.first.End()
      && !s.first.fin && s.rest.fin == f.fin && s.first.id == s.rest.id == f.id
      && s.first.Length() <= maxSize
  {
    if f.Length() <= maxSize then Fits
    else
      var n := f.MaxDataLen(maxSize);
      if n == 0 then TooSmall
      else
        assert n < |f.data| by { if f.data != [] { MaxDataLenExact(f, maxSize); } }
        var first := f.(data := f.data[..n], fin := false);
        MaxDataLenExact(first, maxSize);
        SplitOff(first, f.(data := f.data[n..], offset := f.offset + n))
  }

  // ---------------------------------------------------------------- CRYPTO

  datatype CryptoFrame = CryptoFrame(offset: nat, data: seq<Byte>)
  {
    function End(): nat {
      offset + |data|
    }

    function Length(): nat {
      CryptoHeaderLen(offset, |data|) + |data|
    }
  }

  // Type byte, offset and length.
  function CryptoHeaderLen(offset: nat, dataLen: nat): nat {
    1 + VarIntLen(offset) + VarIntLen(dataLen)
  }

  function CryptoMaxDataLen(offset: nat, maxSize: nat): nat {
    var headerLen := 1 + VarIntLen(offset) + 1;
    if headerLen > maxSize then 0
    else
      var n := maxSize - headerLen;
      if VarIntLen(n) != 1 then n - 1 else n
  }

  lemma CryptoMaxDataLenExact(f: CryptoFrame, maxSize: nat)
    requires 0 < |f.data| && maxSize <= 1 + VarIntLen(f.offset) + MAX_EXACT_DATA
    ensures f.Length() <= maxSize <==> |f.data| <= CryptoMaxDataLen(f.offset, maxSize)
  {
  }

  // ... exactly up to that size.
  lemma CryptoMaxDataLenLimit(offset: nat, maxSize: nat)
    ensures (forall d: seq<Byte> :: d != [] ==>
             (CryptoFrame(offset, d).Length() <= maxSize <==> |d| <= CryptoMaxDataLen(offset, maxSize)))
      <==> maxSize <= 1 + VarIntLen(offset) + MAX_EXACT_DATA
  {
    if maxSize <= 1 + VarIntLen(offset) + MAX_EXACT_DATA {
      forall d: seq<Byte> | d != []
        ensures CryptoFrame(offset, d).Length() <= maxSize <==> |d| <= CryptoMaxDataLen(offset, maxSize)
      {
        CryptoMaxDataLenExact(CryptoFrame(offset, d), maxSize);
      }
    } else {
      var d := seq(CryptoMaxDataLen(offset, maxSize), _ => 0 as Byte);
      assert d != [] && CryptoFrame(offset, d).Length() > maxSize;
    }
  }

  // ---------------------------------------------------------------- resets

  // A RESET_STREAM frame, or a RESET_STREAM_AT frame if its reliable size is positive.
  datatype ResetFrame = ResetFrame(id: nat, errorCode: nat, finalSize: nat, reliableSize: nat)
  {
    function Length(): nat {
      1 + VarIntLen(id) + VarIntLen(errorCode) + VarIntLen(finalSize) + if reliableSize > 0 then VarIntLen(reliableSize)
        else 0
    }
  }
}
