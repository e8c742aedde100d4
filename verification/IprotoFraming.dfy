/** Cutting the byte stream of a connection into packets. A packet is kept as its raw bytes, header and payload. */
module IprotoFraming {
  import opened Bytes
  import opened IprotoCodec

  /** `s` starts with all the bytes of a packet. */
  predicate HasPacket(s: Bytestring) {
    |s| >= HEADER && |s| >= HEADER + HeaderLen(s)
  }

  /** `s` is one packet. */
  predicate Whole(s: Bytestring) {
    |s| >= HEADER && |s| == HEADER + HeaderLen(s)
  }

  function SyncOf(packet: Bytestring): uint32
    requires |packet| >= HEADER
  {
    UnLE32(packet[8..12])
  }

  /** The packets that are delivered, and the bytes that stay in the read buffer. */
  datatype Cutting = Cutting(packets: seq<Bytestring>, residue: Bytestring)

  /** `packets` delivered before what `c` delivers. */
  function Before(packets: seq<Bytestring>, c: Cutting): Cutting {
    Cutting(packets + c.packets, c.residue)
  }

  function Cut(s: Bytestring): Cutting
    decreases |s|
  {
    if !HasPacket(s) then Cutting([], s)
    else
      var n := HEADER + HeaderLen(s);
      Before([s[..n]], Cut(s[n..]))
  }

  /** The least number of bytes that the next read is asked for. */
  function Want(residue: Bytestring): int {
    if |residue| < HEADER then HEADER - |residue| else HEADER + HeaderLen(residue) - |residue|
  }

  ghost predicate AllWhole(packets: seq<Bytestring>) {
    forall k :: 0 <= k < |packets| ==> Whole(packets[k])
  }

  /** The header of a packet does not change when more bytes follow. */
  lemma HeaderStays(s: Bytestring, more: Bytestring)
    requires |s| >= HEADER
    ensures HeaderLen(s + more) == HeaderLen(s)
  {
    assert (s + more)[4..8] == s[4..8];
  }

  lemma BeforeTwice(a: seq<Bytestring>, b: seq<Bytestring>, c: Cutting)
    ensures Before(a, Before(b, c)) == Before(a + b, c) && Before([], c) == c
  {
    assert a + (b + c.packets) == (a + b) + c.packets;
    assert [] + c.packets == c.packets;
  }

  lemma JoinCons(a: Bytestring, packets: seq<Bytestring>, rest: Bytestring)
    ensures Join([a] + packets) + rest == a + (Join(packets) + rest)
  {
    assert ([a] + packets)[1..] == packets;
    assert (a + Join(packets)) + rest == a + (Join(packets) + rest);
  }

  /** Delivered packets and residue together are the bytes received; every packet is whole, the residue is not. */
  lemma {:induction false} CutConserves(s: Bytestring)
    ensures var c := Cut(s); Join(c.packets) + c.residue == s && AllWhole(c.packets) && !HasPacket(c.residue)
    decreases |s|
  {
    if HasPacket(s) {
      var n := HEADER + HeaderLen(s);
      var packet, rest := s[..n], s[n..];
      assert s == packet + rest && packet[4..8] == s[4..8];
      CutConserves(rest);
      JoinCons(packet, Cut(rest).packets, Cut(rest).residue);
    }
  }

  lemma CutPacket(packet: Bytestring, rest: Bytestring)
    requires Whole(packet)
    ensures Cut(packet + rest) == Before([packet], Cut(rest))
  {
    HeaderStays(packet, rest);
    assert (packet + rest)[..|packet|] == packet && (packet + rest)[|packet|..] == rest;
  }

  /** Whole packets in front of anything are delivered one by one. */
  lemma {:induction false} CutPackets(packets: seq<Bytestring>, rest: Bytestring)
    requires AllWhole(packets)
    ensures Cut(Join(packets) + rest) == Before(packets, Cut(rest))
    decreases |packets|
  {
    if packets == [] {
      assert Join(packets) + rest == rest;
      BeforeTwice([], [], Cut(rest));
    } else {
      var first, others := packets[0], packets[1..];
      CutPackets(others, rest);
      assert packets == [first] + others;
      JoinCons(first, others, rest);
      CutPacket(first, Join(others) + rest);
      BeforeTwice([first], others, Cut(rest));
    }
  }

  /** There is only one way to cut a stream into whole packets and an incomplete rest, and it is the one taken. */
  lemma {:induction false} CutExactly(s: Bytestring, packets: seq<Bytestring>, residue: Bytestring)
    ensures Cut(s) == Cutting(packets, residue) <==>
      Join(packets) + residue == s && AllWhole(packets) && !HasPacket(residue)
  {
    CutConserves(s);
    if Join(packets) + residue == s && AllWhole(packets) && !HasPacket(residue) {
      CutPackets(packets, residue);
      assert packets + [] == packets;
    }
  }

  /** Cutting may stop anywhere and go on with what was left over. */
  lemma {:induction false} CutResumes(a: Bytestring, b: Bytestring)
    ensures Cut(a + b) == Before(Cut(a).packets, Cut(Cut(a).residue + b))
  {
    CutConserves(a);
    var c := Cut(a);
    assert a + b == Join(c.packets) + (c.residue + b);
    CutPackets(c.packets, c.residue + b);
  }

  /** The reader never asks for more than is to come: when part of a stream of whole packets is still to be read, the
      minimum it asks for is no more than the bytes missing of the packet it is in. */
  lemma {:induction false} WantIsCovered(residue: Bytestring, rest: Bytestring, packets: seq<Bytestring>)
    requires AllWhole(packets) && packets != [] && residue + rest == Join(packets) && !HasPacket(residue)
    ensures 0 < Want(residue) <= |packets[0]| - |residue| <= |rest|
  {
    var first := packets[0];
    var s := residue + rest;
    assert s == first + Join(packets[1..]);
    HeaderStays(first, Join(packets[1..]));
    if |residue| >= HEADER {
      HeaderStays(residue, rest);
    }
  }

  /** A read that honours the minimum makes progress: it completes a header, or it delivers a packet. */
  lemma {:induction false} WantIsProgress(residue: Bytestring, piece: Bytestring)
    requires !HasPacket(residue) && |piece| >= Want(residue)
    ensures if |residue| < HEADER then |residue + piece| >= HEADER else Cut(residue + piece).packets != []
  {
    if |residue| >= HEADER {
      HeaderStays(residue, piece);
    }
  }
}
