// Gecko frames: a long-header packet cut into chunks, each in a frame with a header, random
// padding and the chunk, and the way back.
module GeckoFrame {
  import opened Protocol

  const FLAG_FRAGMENT: Byte := 0x80
  const HEADER_SIZE: nat := 5
  const MIN_FRAGMENT_CHUNKS: nat := 2
  const MAX_FRAGMENT_CHUNKS: nat := 8
  const SALT_LEN: nat := 8

  datatype FrameHeader = FrameHeader(padLen: nat, msgId: Byte, chunkIdx: nat, totalChunks: nat)

  datatype FrameError = Truncated | Invalid

  datatype Decoded = Frame(header: FrameHeader, payload: seq<Byte>) | Bad(error: FrameError)

  // A header that fits its fields and names one of its chunks.
  predicate Sound(h: FrameHeader) {
    && MIN_FRAGMENT_CHUNKS <= h.totalChunks <= MAX_FRAGMENT_CHUNKS
    && h.chunkIdx < h.totalChunks
  }

  // The five header bytes; the padding length is big-endian.
  function HeaderBytes(h: FrameHeader): (s: seq<Byte>)
    requires Sound(h) && h.padLen < 65536
    ensures |s| == HEADER_SIZE
  {
    [FLAG_FRAGMENT, h.msgId, h.chunkIdx * 16 + h.totalChunks, h.padLen / 256, h.padLen % 256]
  }

  function Layout(h: FrameHeader, padding: seq<Byte>, payload: seq<Byte>): seq<Byte>
    requires Sound(h) && h.padLen < 65536
  {
    HeaderBytes(h) + padding + payload
  }

  // Writes a frame into out: header, padding, payload. Fails exactly for a header out of range
  // and for a buffer that is too small.
  method EncodeFrame(h: FrameHeader, padding: seq<Byte>, payload: seq<Byte>, out: array<Byte>)
    returns (n: nat, err: Option<FrameError>)
    requires h.padLen < 65536 && |padding| == h.padLen
    modifies out
    ensures err == Some(Invalid) <==> !Sound(h)
    ensures err == Some(Truncated) <==> Sound(h) && out.Length < HEADER_SIZE + h.padLen + |payload|
    ensures err.None? <==> Sound(h) && HEADER_SIZE + h.padLen + |payload| <= out.Length
    ensures err.None? ==> n == HEADER_SIZE + h.padLen + |payload| && out[..n] == Layout(h, padding, payload)
    ensures err.Some? ==> n == 0 && out[..] == old(out[..])
    ensures forall i :: n <= i < out.Length ==> out[i] == old(out[i])
  {
    if h.totalChunks < MIN_FRAGMENT_CHUNKS || h.totalChunks > MAX_FRAGMENT_CHUNKS {
      return 0, Some(Invalid);
    }
    if h.chunkIdx >= h.totalChunks {
      return 0, Some(Invalid);
    }
    var needed := HEADER_SIZE + h.padLen + |payload|;
    if out.Length < needed {
      return 0, Some(Truncated);
    }
    out[0], out[1], out[2] := FLAG_FRAGMENT, h.msgId, h.chunkIdx * 16 + h.totalChunks;
    out[3], out[4] := h.padLen / 256, h.padLen % 256;
    Fill(out, HEADER_SIZE, padding);
    Fill(out, HEADER_SIZE + h.padLen, payload);
    return needed, None;
  }

  // Copies data to out from position at on.
  method Fill(out: array<Byte>, at: nat, data: seq<Byte>)
    requires at + |data| <= out.Length
    modifies out
    ensures out[at..at + |data|] == data
    ensures forall i :: 0 <= i < at || at + |data| <= i < out.Length ==> out[i] == old(out[i])
  {
    var k := 0;
    while k < |data|
      invariant 0 <= k <= |data|
      invariant forall i :: 0 <= i < k ==> out[at + i] == data[i]
      invariant forall i :: 0 <= i < at || at + k <= i < out.Length ==> out[i] == old(out[i])
      decreases |data| - k
    {
      out[at + k] := data[k];
      k := k + 1;
    }
  }

  // Reads a frame.
  function DecodeFrame(s: seq<Byte>): Decoded {
    if |s| < HEADER_SIZE then Bad(Truncated)
    else if s[0] < FLAG_FRAGMENT then Bad(Invalid)
    else
      var index: int, high: int := s[2], s[3];
      var h := FrameHeader(high * 256 + s[4], s[1], index / 16, index % 16);
      if h.totalChunks < MIN_FRAGMENT_CHUNKS || h.totalChunks > MAX_FRAGMENT_CHUNKS then Bad(Invalid)
      else if h.chunkIdx >= h.totalChunks then Bad(Invalid)
      else if HEADER_SIZE + h.padLen > |s| then Bad(Truncated)
      else Frame(h, s[HEADER_SIZE + h.padLen..])
  }

  // Reading back what was written.
  lemma RoundTrip(h: FrameHeader, padding: seq<Byte>, payload: seq<Byte>)
    requires Sound(h) && h.padLen < 65536 && |padding| == h.padLen
    ensures DecodeFrame(Layout(h, padding, payload)) == Frame(h, payload)
  {
    var s := Layout(h, padding, payload);
    assert s[..HEADER_SIZE] == HeaderBytes(h);
    assert s[0] == HeaderBytes(h)[0] && s[1] == HeaderBytes(h)[1] && s[2] == HeaderBytes(h)[2];
    assert s[3] == HeaderBytes(h)[3] && s[4] == HeaderBytes(h)[4];
    assert s[HEADER_SIZE + h.padLen..] == payload;
  }

  // Only what could have been written is read, but for the reserved bits of the first byte.
  lemma OnlyLayouts(s: seq<Byte>)
    requires DecodeFrame(s).Frame?
    ensures var h := DecodeFrame(s).header; Sound(h) && h.padLen < 65536 && HEADER_SIZE + h.padLen <= |s|
    ensures var h := DecodeFrame(s).header;
      s == [s[0]] + Layout(h, s[HEADER_SIZE..HEADER_SIZE + h.padLen], DecodeFrame(s).payload)[1..]
  {
  }
}
