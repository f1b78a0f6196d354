// Vocabulary shared by every component: bytes, byte counts, QUIC varint
// lengths and a few arithmetic helpers.
module Protocol {

  type Byte = b: int | 0 <= b < 256

  datatype Option<+T> = None | Some(value: T)

  // The largest stream offset QUIC can express (2^62 - 1).
  const MAX_BYTE_COUNT: nat := 0x3fff_ffff_ffff_ffff

  function Min(a: int, b: int): int {
    if a <= b then a else b
  }

  function Max(a: int, b: int): int {
    if a >= b then a else b
  }

  // The number of bytes a QUIC variable-length integer occupies. Values above
  // 2^62 - 1 cannot be encoded; no caller produces them.
  function VarIntLen(n: nat): nat {
    if n <= 63 then 1 else if n <= 16383 then 2 else if n <= 1073741823 then 4 else 8
  }

  function Flatten<T>(parts: seq<seq<T>>): seq<T> {
    if parts == [] then [] else Flatten(parts[..|parts| - 1]) + parts[|parts| - 1]
  }

  ghost predicate Increasing(s: seq<int>) {
    forall i, j :: 0 <= i < j < |s| ==> s[i] < s[j]
  }

  // Some bytes of a stream, at their offset, as any frame carries them.
  datatype Piece = Piece(offset: nat, data: seq<Byte>)
  {
    predicate Covers(p: nat) {
      offset <= p < offset + |data|
    }

    ghost predicate SliceIn(whole: seq<Byte>) {
      offset + |data| <= |whole| && data == whole[offset..offset + |data|]
    }
  }
}
