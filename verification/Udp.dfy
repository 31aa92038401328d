// UDPSocket (src/UDPSocket.cpp) over the shared buffer.

module Udp {
  import opened Bytes
  import opened Checksum
  import opened Frame
  import opened NodeModel
  import EtherSia

  const PAYLOAD := 62  // Ethernet, IPv6 and UDP headers
  const MAX_PAYLOAD := SIZE - PAYLOAD

  datatype Endpoint = Endpoint(localPort: u16, remotePort: u16, remoteAddress: Addr, remoteMac: Mac)

  function SourcePort(b: Image): u16 { Word(b[54], b[55]) }
  function DestinationPort(b: Image): u16 { Word(b[56], b[57]) }
  function Length(b: Image): u16 { Word(b[58], b[59]) }

  // havePacket(), the buffer holding a received packet
  predicate Accepts(n: Node, e: Endpoint, b: Image) {
    && Protocol(b) == PROTO_UDP
    && DestinationPort(b) == e.localPort
    && (e.remotePort == 0 || SourcePort(b) == e.remotePort)
    && IsOurAddress(n, Destination(b)) != NotOurs
    && (e.remoteAddress == ZERO_ADDR || Source(b) == e.remoteAddress)
  }

  // sendInternal(), before and after the checksum
  function Unstamped(b: Image, localPort: u16, destinationPort: u16, length: nat): Image
    requires length <= MAX_PAYLOAD
  {
    var b1 := Put(SetPayloadLength(Put(b, 20, [PROTO_UDP]), 8 + length), 58, Word16(8 + length));
    Put(Put(b1, 56, Word16(destinationPort)), 54, Word16(localPort))
  }

  function Fill(b: Image, localPort: u16, destinationPort: u16, length: nat): Image
    requires length <= MAX_PAYLOAD
  { Stamp(Unstamped(b, localPort, destinationPort, length), 60) }

  // send(length, false)
  function Sent(n: Node, e: Endpoint, b: Image, length: nat): Image
    requires length <= MAX_PAYLOAD
  {
    Fill(PrepareSend(n, Put(Put(b, 38, e.remoteAddress), 0, e.remoteMac)), e.localPort, e.remotePort, length)
  }

  // The payload goes out as it lies in the buffer, in a frame that verifies.
  lemma SentIs(n: Node, e: Endpoint, b: Image, length: nat)
    requires length <= MAX_PAYLOAD
    ensures var r := Sent(n, e, b, length);
            && Fits(r) && IsValid(r) && PayloadLength(r) == Length(r) == 8 + length && Protocol(r) == PROTO_UDP
            && (forall i :: PAYLOAD <= i < SIZE ==> r[i] == b[i])
            && SourcePort(r) == e.localPort && DestinationPort(r) == e.remotePort
            && Destination(r) == e.remoteAddress && EtherDestination(r) == e.remoteMac && EtherSource(r) == n.mac
            && Source(r) in {n.linkLocal, n.global}
            && |FrameOf(r)| == PAYLOAD + length
  {
    hide Put, PrepareSend, IsValid, Fill;
    var d := Put(Put(b, 38, e.remoteAddress), 0, e.remoteMac);
    assert Destination(d) == e.remoteAddress && EtherDestination(d) == e.remoteMac;
    SendHeaders(n, d);
    FillIs(PrepareSend(n, d), e.localPort, e.remotePort, length);
  }

  lemma FillIs(p: Image, localPort: u16, destinationPort: u16, length: nat)
    requires length <= MAX_PAYLOAD && IsIPv6(p)
    ensures var r := Fill(p, localPort, destinationPort, length);
            && Fits(r) && IsValid(r) && PayloadLength(r) == Length(r) == 8 + length && Protocol(r) == PROTO_UDP
            && (forall i :: PAYLOAD <= i < SIZE ==> r[i] == p[i])
            && SourcePort(r) == localPort && DestinationPort(r) == destinationPort
            && Source(r) == Source(p) && Destination(r) == Destination(p)
            && EtherDestination(r) == EtherDestination(p) && EtherSource(r) == EtherSource(p)
  {
    hide Put, ChecksumOf, Stamp;
    var z := Unstamped(p, localPort, destinationPort, length);
    assert PayloadLength(z) == 8 + length;
    StampVerifies(z, 60);
    assert forall i :: 0 <= i < 18 || 22 <= i < 54 || PAYLOAD <= i < SIZE ==> Stamp(z, 60)[i] == p[i];
  }

  // For every datagram there is a source port with which its checksum comes out as 0, and is sent
  // so. Such a datagram verifies like any other here, but says that it has no checksum.
  lemma SomePortSendsZero(p: Image, destinationPort: u16, length: nat) returns (localPort: u16)
    requires length <= MAX_PAYLOAD && IsIPv6(p)
    ensures var r := Fill(p, localPort, destinationPort, length); r[60] == 0 && r[61] == 0 && Fits(r) && IsValid(r)
  {
    hide Put, Total, ChecksumOf, Stamp, IsValid;
    var blank: Image := Unstamped(p, 0, destinationPort, length)[60 := 0][61 := 0];
    assert PayloadLength(blank) == 8 + length;
    TotalOfPacket(blank);
    localPort := Complement(Total(blank));
    TotalWithWord(blank, 54, localPort);
    var u, hi: u8, lo: u8 := Unstamped(p, localPort, destinationPort, length), localPort / 0x100, localPort % 0x100;
    var cleared: Image, filled: Image := u[60 := 0][61 := 0], blank[54 := hi][55 := lo];
    assert cleared == filled;
    FillIs(p, localPort, destinationPort, length);
    hide Unstamped;
    StampIsZero(u, 60);
  }

  lemma Complement(n: nat) returns (w: u16)
    ensures (n + w) % ONES == 0
  {
    w := (ONES - n % ONES) % ONES;
    assert n + w == (if w == 0 then n / ONES else n / ONES + 1) * ONES;
  }

  lemma TotalOfPacket(b: Image)
    requires Fits(b)
    ensures Total(b) >= PayloadLength(b)
  {
    hide Words;
  }

  // A frame that is filled in is taken by exactly those nodes and sockets that it is for: the node it
  // is sent to, with the address it is sent to, and a socket with that port that is open to its
  // sender. Its payload is what was in the buffer.
  lemma FilledArrives(p: Image, localPort: u16, destinationPort: u16, length: nat, m: Node, f: Endpoint, c: Image)
    requires length <= MAX_PAYLOAD && IsIPv6(p)
    ensures var r := Fill(p, localPort, destinationPort, length);
            Fits(r) &&
            var a := Received(c, FrameOf(r));
            && Fits(a) && IsValid(a)
            && (AcceptsEthernet(m, a) <==> AcceptsEthernet(m, p))
            && (Accepts(m, f, a) <==>
                  && f.localPort == destinationPort && IsOurAddress(m, Destination(p)) != NotOurs
                  && (f.remotePort == 0 || f.remotePort == localPort)
                  && (f.remoteAddress == ZERO_ADDR || f.remoteAddress == Source(p)))
            && Length(a) == 8 + length && a[PAYLOAD..PAYLOAD + length] == p[PAYLOAD..PAYLOAD + length]
  {
    hide Put, ChecksumOf, IsValid, Fill, Received, IsOurAddress;
    FillIs(p, localPort, destinationPort, length);
    var r := Fill(p, localPort, destinationPort, length);
    ValidInAnyBuffer(r, c);
    SameHeaders(r, c);
    var a := Received(c, FrameOf(r));
    assert forall i :: PAYLOAD <= i < PAYLOAD + length ==> a[i] == p[i];
  }

  // Nothing but a UDP packet is taken.
  lemma OnlyUdp(n: Node, e: Endpoint, b: Image)
    ensures Accepts(n, e, b) ==> b[20] == 17
  {
  }

  // A datagram reaches the socket it is addressed to: every test passes on the other node, and the
  // payload is what was sent.
  lemma DatagramArrives(n: Node, e: Endpoint, b: Image, length: nat, m: Node, f: Endpoint, c: Image)
    requires length <= MAX_PAYLOAD && n.mac != m.mac
    requires e.remoteMac == m.mac && e.remoteAddress in {m.linkLocal, m.global}
    requires f.localPort == e.remotePort && f.remotePort in {0, e.localPort}
    requires f.remoteAddress in {ZERO_ADDR, Source(Sent(n, e, b, length))}
    ensures var r := Sent(n, e, b, length);
            Fits(r) &&
            var a := Received(c, FrameOf(r));
            && Fits(a) && IsValid(a) && AcceptsEthernet(m, a) && Accepts(m, f, a)
            && Length(a) == 8 + length && a[PAYLOAD..PAYLOAD + length] == b[PAYLOAD..PAYLOAD + length]
  {
    hide Put, IsValid, Fill, Received, PrepareSend, Accepts;
    var d := Put(Put(b, 38, e.remoteAddress), 0, e.remoteMac);
    assert Destination(d) == e.remoteAddress && EtherDestination(d) == e.remoteMac;
    SendHeaders(n, d);
    var p := PrepareSend(n, d);
    FillIs(p, e.localPort, e.remotePort, length);
    FilledArrives(p, e.localPort, e.remotePort, length, m, f, c);
    assert p[PAYLOAD..PAYLOAD + length] == b[PAYLOAD..PAYLOAD + length];
  }

  // send(length, true)
  function Replied(n: Node, e: Endpoint, b: Image, length: nat): Image
    requires length <= MAX_PAYLOAD
  { Fill(PrepareReply(n, b), e.localPort, SourcePort(b), length) }

  // A reply finds its way back: to the node, the address and the port that the packet in the buffer
  // came from.
  lemma ReplyArrives(n: Node, e: Endpoint, b: Image, length: nat, m: Node, f: Endpoint, c: Image)
    requires length <= MAX_PAYLOAD && n.mac != m.mac && IsIPv6(b)
    requires EtherSource(b) == m.mac && Source(b) in {m.linkLocal, m.global}
    requires f.localPort == SourcePort(b) && f.remotePort in {0, e.localPort}
    requires f.remoteAddress in {ZERO_ADDR, if IsOurAddress(n, Destination(b)) == Global then n.global else n.linkLocal}
    ensures var r := Replied(n, e, b, length);
            Fits(r) &&
            var a := Received(c, FrameOf(r));
            && Fits(a) && IsValid(a) && AcceptsEthernet(m, a) && Accepts(m, f, a)
            && Length(a) == 8 + length && a[PAYLOAD..PAYLOAD + length] == b[PAYLOAD..PAYLOAD + length]
  {
    hide Put, IsValid, Fill, Received, PrepareReply, Accepts, SourcePort;
    ReplyHeaders(n, b);
    var p := PrepareReply(n, b);
    assert IsIPv6(p);
    assert EtherDestination(p) == m.mac && EtherSource(p) == n.mac && Destination(p) == Source(b);
    FilledArrives(p, e.localPort, SourcePort(b), length, m, f, c);
    assert p[PAYLOAD..PAYLOAD + length] == b[PAYLOAD..PAYLOAD + length];
  }

  // `sent` collects the frames of this socket, which are not all that go out.
  class UDPSocket {
    const ether: EtherSia.EtherSia
    const e: Endpoint
    var sent: seq<seq<u8>>

    constructor (ether: EtherSia.EtherSia, e: Endpoint)
      ensures this.ether == ether && this.e == e && sent == []
    {
      this.ether, this.e, sent := ether, e, [];
    }

    method HavePacket() returns (have: bool)
      requires ether.Valid()
      ensures have == (ether.bufferContainsReceived && Accepts(ether.Self(), e, ether.Buf()))
    {
      if !ether.bufferContainsReceived { return false; }
      if ether.buffer[20] != PROTO_UDP { return false; }
      if Word(ether.buffer[56], ether.buffer[57]) != e.localPort { return false; }
      if e.remotePort != 0 && Word(ether.buffer[54], ether.buffer[55]) != e.remotePort { return false; }
      if IsOurAddress(ether.Self(), ether.buffer[38..54]) == NotOurs { return false; }
      if e.remoteAddress != ZERO_ADDR && ether.buffer[22..38] != e.remoteAddress { return false; }
      return true;
    }

    method Send(length: nat)
      requires ether.Valid() && length <= MAX_PAYLOAD
      modifies this`sent, ether`bufferContainsReceived, ether`wire, ether.buffer
      ensures ether.Buf() == Sent(ether.Self(), e, old(ether.Buf()), length) && Fits(ether.Buf())
      ensures ether.wire == old(ether.wire) + [FrameOf(ether.Buf())] && sent == old(sent) + [FrameOf(ether.Buf())]
    {
      hide Put, NodeModel.PrepareSend;
      SentIs(ether.Self(), e, ether.Buf(), length);
      ether.Store(38, e.remoteAddress);
      ether.Store(0, e.remoteMac);
      ether.PrepareSend();
      SendInternal(length, false);
    }

    method SendReply(length: nat)
      requires ether.Valid() && length <= MAX_PAYLOAD
      requires IsIPv6(ether.Buf())
      modifies this`sent, ether`bufferContainsReceived, ether`wire, ether.buffer
      ensures ether.Buf() == Replied(ether.Self(), e, old(ether.Buf()), length) && Fits(ether.Buf())
      ensures ether.wire == old(ether.wire) + [FrameOf(ether.Buf())] && sent == old(sent) + [FrameOf(ether.Buf())]
    {
      hide Put, NodeModel.PrepareReply, Fill;
      ReplyHeaders(ether.Self(), ether.Buf());
      ether.PrepareReply();
      SendInternal(length, true);
    }

    // Both destinations are set; only the port is still open.
    method SendInternal(length: nat, isReply: bool)
      requires ether.Valid() && length <= MAX_PAYLOAD
      requires IsIPv6(ether.Buf())
      modifies this`sent, ether`bufferContainsReceived, ether`wire, ether.buffer
      ensures var b := old(ether.Buf());
              ether.Buf() == Fill(b, e.localPort, if isReply then SourcePort(b) else e.remotePort, length)
      ensures Fits(ether.Buf()) && sent == old(sent) + [FrameOf(ether.Buf())]
      ensures ether.wire == old(ether.wire) + [FrameOf(ether.Buf())]
    {
      hide Put, ChecksumOf, Stamp;
      ghost var b := ether.Buf();
      FillIs(b, e.localPort, if isReply then SourcePort(b) else e.remotePort, length);
      ether.Store(20, [PROTO_UDP]);
      ether.Store(18, Word16(8 + length));
      ether.Store(58, Word16(8 + length));
      var destinationPort := if isReply then Word(ether.buffer[54], ether.buffer[55]) else e.remotePort;
      ether.Store(56, Word16(destinationPort));
      ether.Store(54, Word16(e.localPort));
      ether.SetChecksum(60);
      ether.Send();
      sent := sent + [ether.buffer[..PAYLOAD + length]];
    }
  }
}
