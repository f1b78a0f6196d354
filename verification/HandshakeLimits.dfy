// Runs in which the handshake data does not get through as one would expect.
module HandshakeLimits {
  import opened Protocol
  import opened Wire
  import opened CryptoSending
  import opened Handshake

  // A ClientHello with an ECH extension and no server name: nothing of it is ever sent, whatever
  // is asked for.
  method EchWithoutServerName(hello: seq<Byte>, echPos: nat, requests: seq<Request>, maxLen: nat)
    returns (frames: Frames, stuck: bool)
    requires 0 < echPos <= |hello| - 4 && 11 <= maxLen
    requires Legal(true, requests)
    ensures frames == [] && stuck
  {
    assert Flatten([hello]) == hello;
    frames, stuck := Transmit(true, [hello], Parsed(INVALID, 0, echPos), requests, maxLen);
  }

  // An empty host name: the stream never gets past the empty cut.
  method EmptyHostName(hello: seq<Byte>, sniPos: nat, echPos: int, requests: seq<Request>, maxLen: nat)
    returns (frames: Frames, stuck: bool)
    requires InHello(Parsed(sniPos, 0, echPos), |hello|) && hello != [] && 11 <= maxLen
    requires Legal(true, requests)
    ensures stuck
  {
    assert Flatten([hello]) == hello;
    frames, stuck := Transmit(true, [hello], Parsed(sniPos, 0, echPos), requests, maxLen);
  }

  // A server name shortly after a short ECH extension, such that the second cut starts at or
  // before the end of the first one: everything is sent, and some of it twice.
  method OverlappingCuts(hello: seq<Byte>, sniPos: nat, sniLen: nat, echPos: nat, requests: seq<Request>, maxLen: nat)
    returns (frames: Frames, stuck: bool)
    requires InHello(Parsed(sniPos, sniLen, echPos), |hello|) && 0 < sniLen && 11 <= maxLen
    requires echPos + 1 <= sniPos + sniLen / 2 <= echPos + 17
    requires Legal(true, requests)
    ensures !stuck && AllSent(frames, hello + Queued(requests))
    ensures exists p: nat :: p < |hello + Queued(requests)| && Count(frames, p) > 1
  {
    assert Flatten([hello]) == hello;
    frames, stuck := Transmit(true, [hello], Parsed(sniPos, sniLen, echPos), requests, maxLen);
  }

  // Data written after n bytes were taken from the end: the first of its bytes goes out at the
  // offset of the first byte taken, which was sent already.
  method WriteAfterTail(a: seq<Byte>, b: seq<Byte>, n: nat) returns (tail: CryptoFrame, front: CryptoFrame)
    requires 0 < n <= |a| && b != []
    ensures tail.offset == |a| - n && tail.data == a[|a| - n..]
    ensures Covers(front, tail.offset) && front.data[tail.offset - front.offset] == b[0]
  {
    hide Planned, Carry, Count;
    var s := Queue(a);
    var r := s.PopTail(n);
    tail := r.value;
    var ok := s.Write(b, Malformed);
    assert s.writeBuf[|a| - n] == b[0];
    r := s.TakeFront(|a| + 20);
    front := r.value;
  }
}
