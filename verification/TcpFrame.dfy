// TCP segments in the shared buffer: the header bytes that fillTCPHeader() of the client and
// sendInternal() of the server write, and what the other end reads from them.

module TcpFrame {
  import opened Bytes
  import opened Frame
  import opened NodeModel
  import opened TcpSegment
  import opened TcpClient
  import EtherSia

  const CHECKSUM_AT := 70

  function Word32(w: u32): seq<u8> { Word16(w / 0x1_0000) + Word16(w % 0x1_0000) }

  function Long(b: Image, i: nat): u32
    requires i + 4 <= SIZE
  { Word(b[i], b[i + 1]) * 0x1_0000 + Word(b[i + 2], b[i + 3]) }

  function Bit(on: bool, value: u8): u8 { if on then value else 0 }

  function FlagByte(f: Flags): u8
  { Bit(f.fin, 1) + Bit(f.syn, 2) + Bit(f.rst, 4) + Bit(f.psh, 8) + Bit(f.ack, 0x10) }

  // Each flag is tested by its own bit.
  function FlagsOf(x: u8): Flags {
    Flags(x / 2 % 2 == 1, x / 0x10 % 2 == 1, x % 2 == 1, x / 4 % 2 == 1, x / 8 % 2 == 1)
  }

  lemma FlagsRoundTrip(f: Flags)
    ensures FlagsOf(FlagByte(f)) == f
  {
  }

  // The option is a maximum segment size of 490.
  lemma OptionBytes(s: Segment)
    ensures Header(s, true)[20..24] == [2, 4, 0x01, 0xEA] && Header(s, true)[12] == 0x60 && Header(s, false)[12] == 0x50
  {
    HeaderParts(s, true);
    HeaderParts(s, false);
    assert Word16(WINDOW) == [0x01, 0xEA];
    hide Header;
  }

  // The control bits of RFC 793, as they are sent.
  lemma FlagBytes()
    ensures FlagByte(SYN) == 0x02 && FlagByte(ACK) == 0x10 && FlagByte(SYN_ACK) == 0x12 && FlagByte(FIN_ACK) == 0x11
    ensures FlagByte(RST_ACK) == 0x14 && FlagByte(FIN_PSH_ACK) == 0x19 && FlagByte(NO_FLAGS) == 0
  {
  }

  // The other way round, the bits of URG and above are lost: they are never tested, and never sent.
  lemma FlagByteRoundTrip(x: u8)
    ensures FlagByte(FlagsOf(x)) == x % 0x20
    ensures FlagByte(FlagsOf(x)) == x <==> x < 0x20
  {
    assert x / 4 == x / 2 / 2 && x / 8 == x / 4 / 2 && x / 0x10 == x / 8 / 2 && x / 0x20 == x / 0x10 / 2;
    assert x == FlagByte(FlagsOf(x)) + 0x20 * (x / 0x20);
  }

  function HeaderSize(option: bool): nat { if option then 24 else 20 }

  function Header(s: Segment, option: bool): (h: seq<u8>)
    ensures |h| == HeaderSize(option)
  {
    Word16(s.sourcePort) + Word16(s.destinationPort) + Word32(s.seqNum) + Word32(s.ackNum)
    + [if option then TRANSMIT_HEADER else MIN_HEADER, FlagByte(s.flags)] + Word16(WINDOW) + [0, 0, 0, 0]
    + if option then [2, 4] + Word16(WINDOW) else []
  }

  function Data(b: Image, option: bool, len: nat): seq<u8>
    requires HEADERS + HeaderSize(option) + len <= SIZE
  { b[HEADERS + HeaderSize(option)..HEADERS + HeaderSize(option) + len] }

  // The data is in the buffer already.
  function Finish(b: Image, header: seq<u8>, len: nat): Image
    requires 20 <= |header| && HEADERS + |header| + len <= SIZE
  { Stamp(Put(Put(SetPayloadLength(b, |header| + len), 20, [PROTO_TCP]), HEADERS, header), CHECKSUM_AT) }

  function Fill(b: Image, s: Segment, option: bool): Image
    requires HEADERS + HeaderSize(option) + s.len <= SIZE
  { Finish(b, Header(s, option), s.len) }

  // The segment in a packet whose data offset and length are in order.
  ghost predicate InOrder(b: Image) {
    Fits(b) && 20 <= b[66] / 0x10 * 4 <= PayloadLength(b)
  }

  ghost function SegmentIn(b: Image): Segment
    requires InOrder(b)
  {
    var header := b[66] / 0x10 * 4;
    var len := PayloadLength(b) - header;
    Segment(Word(b[54], b[55]), Word(b[56], b[57]), Long(b, 58), Long(b, 62), FlagsOf(b[67]), len,
            b[HEADERS + header..HEADERS + header + len])
  }

  lemma Word32RoundTrip(w: u32)
    ensures Word(Word32(w)[0], Word32(w)[1]) * 0x1_0000 + Word(Word32(w)[2], Word32(w)[3]) == w
  {
  }

  lemma HeaderReads(s: Segment, option: bool)
    ensures var h := Header(s, option);
            && Word(h[0], h[1]) == s.sourcePort && Word(h[2], h[3]) == s.destinationPort
            && h[4..8] == Word32(s.seqNum) && h[8..12] == Word32(s.ackNum)
            && h[12] / 0x10 * 4 == HeaderSize(option) && h[13] == FlagByte(s.flags)
  {
    hide FlagByte;
  }

  // Whatever the buffer held, the frame verifies, and its header and data are in place.
  lemma FinishIs(p: Image, header: seq<u8>, len: nat)
    requires 20 <= |header| && HEADERS + |header| + len <= SIZE
    ensures var r, from := Finish(p, header, len), HEADERS + |header|;
            && Fits(r) && (IsIPv6(p) ==> IsValid(r)) && Protocol(r) == PROTO_TCP && PayloadLength(r) == |header| + len
            && r[54..70] == header[..16] && r[72..from] == header[18..] && r[from..] == p[from..]
            && Source(r) == Source(p) && Destination(r) == Destination(p)
            && EtherDestination(r) == EtherDestination(p) && EtherSource(r) == EtherSource(p)
  {
    hide Put, ChecksumOf, Stamp;
    var z := Put(Put(SetPayloadLength(p, |header| + len), 20, [PROTO_TCP]), HEADERS, header);
    assert PayloadLength(z) == |header| + len;
    StampVerifies(z, CHECKSUM_AT);
    var r := Stamp(z, CHECKSUM_AT);
    assert forall i :: 0 <= i < 18 || 22 <= i < 54 || HEADERS + |header| <= i < SIZE ==> r[i] == p[i];
    assert forall i :: 54 <= i < 70 || 72 <= i < HEADERS + |header| ==> r[i] == header[i - 54];
  }

  // The segment can be read back from them.
  lemma SegmentReads(b: Image, s: Segment, option: bool)
    requires HEADERS + HeaderSize(option) + s.len <= SIZE && PayloadLength(b) == HeaderSize(option) + s.len
    requires b[54..70] == Header(s, option)[..16] && Data(b, option, s.len) == s.data
    ensures InOrder(b) && SegmentIn(b) == s
  {
    hide Header, FlagByte, FlagsOf;
    var h := Header(s, option);
    assert forall i :: 54 <= i < 70 ==> b[i] == b[54..70][i - 54];
    HeaderReads(s, option);
    FlagsRoundTrip(s.flags);
    LongReads(b, 58, h[4..8], s.seqNum);
    LongReads(b, 62, h[8..12], s.ackNum);
  }

  lemma LongReads(b: Image, at: nat, x: seq<u8>, w: u32)
    requires at + 4 <= SIZE && x == Word32(w) && forall i :: 0 <= i < 4 ==> b[at + i] == x[i]
    ensures Long(b, at) == w
  {
    Word32RoundTrip(w);
    assert b[at] == b[at + 0];
  }

  // A packet prepared for another node gets there: it passes the tests of receivePacket(), and the
  // other node finds the same segment in it.
  lemma SegmentArrives(p: Image, s: Segment, option: bool, m: Node, c: Image)
    requires HEADERS + HeaderSize(option) + s.len <= SIZE && s.data == Data(p, option, s.len)
    requires IsIPv6(p)
    requires EtherDestination(p) == m.mac && EtherSource(p) != m.mac
    ensures var r := Fill(p, s, option);
            Fits(r) &&
            var a := Received(c, FrameOf(r));
            && Fits(a) && IsValid(a) && AcceptsEthernet(m, a) && Protocol(a) == PROTO_TCP
            && Source(a) == Source(p) && Destination(a) == Destination(p)
            && InOrder(a) && SegmentIn(a) == s
  {
    hide ChecksumOf, IsValid, Finish, Received, FlagsOf, Header;
    FinishIs(p, Header(s, option), s.len);
    var r := Fill(p, s, option);
    ValidInAnyBuffer(r, c);
    SameHeaders(r, c);
    var a, from := Received(c, FrameOf(r)), HEADERS + HeaderSize(option);
    assert a[54..70] == r[54..70] && a[from..from + s.len] == r[from..from + s.len];
    assert r[from..][..s.len] == r[from..from + s.len] && p[from..][..s.len] == p[from..from + s.len];
    hide InOrder, SegmentIn;
    SegmentReads(a, s, option);
  }

  // send(length, false): the client's SYNs and data.
  lemma SentSegmentArrives(n: Node, b: Image, address: Addr, s: Segment, m: Node, c: Image)
    requires HEADERS + 24 + s.len <= SIZE && s.data == Data(b, true, s.len) && n.mac != m.mac
    ensures var r := Fill(PrepareSend(n, Put(Put(b, 38, address), 0, m.mac)), s, true);
            Fits(r) &&
            var a := Received(c, FrameOf(r));
            && Fits(a) && IsValid(a) && AcceptsEthernet(m, a) && Protocol(a) == PROTO_TCP && Destination(a) == address
            && InOrder(a) && SegmentIn(a) == s
  {
    hide ChecksumOf, IsValid, Fill, Received, PrepareSend, Put, SegmentIn;
    var d := Put(Put(b, 38, address), 0, m.mac);
    assert Destination(d) == address && EtherDestination(d) == m.mac;
    SendHeaders(n, d);
    var p := PrepareSend(n, d);
    assert Data(p, true, s.len) == Data(b, true, s.len);
    SegmentArrives(p, s, true, m, c);
  }

  // sendReply(): acknowledgements, resets and the server's answers go back to the node that the
  // packet in the buffer came from.
  lemma ReplySegmentArrives(n: Node, b: Image, s: Segment, option: bool, m: Node, c: Image)
    requires IsIPv6(b) && EtherSource(b) == m.mac && n.mac != m.mac
    requires HEADERS + HeaderSize(option) + s.len <= SIZE && s.data == Data(b, option, s.len)
    ensures var r := Fill(PrepareReply(n, b), s, option);
            Fits(r) &&
            var a := Received(c, FrameOf(r));
            && Fits(a) && IsValid(a) && AcceptsEthernet(m, a) && Protocol(a) == PROTO_TCP && Destination(a) == Source(b)
            && InOrder(a) && SegmentIn(a) == s
  {
    hide ChecksumOf, IsValid, Fill, Received, PrepareReply, Put, SegmentIn;
    ReplyHeaders(n, b);
    var p := PrepareReply(n, b);
    assert Data(p, option, s.len) == Data(b, option, s.len);
    SegmentArrives(p, s, option, m, c);
  }

  // ----- the packet buffer of the client, and its bytes

  // What TcpClient sees of the buffer is what its bytes say.
  ghost predicate Shows(packet: PacketBuffer, b: Image)
    reads packet`body, packet`protocol, packet`ipLength, packet`sourcePort, packet`destinationPort
    reads packet`seqNum, packet`ackNum, packet`dataOffset, packet`flags
  {
    && packet.Valid() && packet.body == b[74..]
    && packet.protocol == Protocol(b) && packet.ipLength == PayloadLength(b)
    && packet.sourcePort == Word(b[54], b[55]) && packet.destinationPort == Word(b[56], b[57])
    && packet.seqNum == Long(b, 58) && packet.ackNum == Long(b, 62)
    && packet.dataOffset == b[66] && packet.flags == FlagsOf(b[67])
  }

  lemma ViewIsSegment(packet: PacketBuffer, b: Image)
    requires Shows(packet, b) && InOrder(b)
    ensures packet.View() == SegmentIn(b)
  {
    hide FlagsOf, Long;
    var from, len := b[66] / 0x10 * 4 - 20, PayloadLength(b) - b[66] / 0x10 * 4;
    assert b[74..][from..from + len] == b[74 + from..74 + from + len];
  }

  lemma HeaderParts(s: Segment, option: bool)
    ensures var h := Header(s, option);
            && h[0..2] == Word16(s.sourcePort) && h[2..4] == Word16(s.destinationPort)
            && h[4..8] == Word32(s.seqNum) && h[8..12] == Word32(s.ackNum)
            && h[12] == (if option then TRANSMIT_HEADER else MIN_HEADER) && h[13] == FlagByte(s.flags)
            && h[14..16] == Word16(WINDOW) && h[18..20] == [0, 0]
            && (option ==> h[20..24] == [2, 4] + Word16(WINDOW))
  {
    hide FlagByte;
  }

  lemma StampIgnoresField(b: Image, c: Image, at: nat)
    requires Fits(b) && HEADERS <= at < SIZE - 1 && forall i :: 0 <= i < SIZE && i != at && i != at + 1 ==> b[i] == c[i]
    ensures Fits(c) && Stamp(b, at) == Stamp(c, at)
  {
    hide ChecksumOf;
    assert b[at := 0][at + 1 := 0] == c[at := 0][at + 1 := 0];
  }

  // fillTCPHeader(), on the bytes: flags, data offset and length have been set.
  method FillTCPHeader(ether: EtherSia.EtherSia, ghost s: Segment, ghost option: bool,
                       localPort: u16, remotePort: u16, localSeq: u32, remoteSeq: u32)
    requires ether.Valid() && HEADERS + HeaderSize(option) + s.len <= SIZE
    requires s.sourcePort == localPort && s.destinationPort == remotePort
    requires s.seqNum == localSeq && s.ackNum == remoteSeq
    requires var b := ether.Buf();
             && PayloadLength(b) == HeaderSize(option) + s.len
             && b[66] == (if option then TRANSMIT_HEADER else MIN_HEADER) && b[67] == FlagByte(s.flags)
    modifies ether.buffer
    ensures ether.Buf() == Fill(old(ether.Buf()), s, option)
  {
    hide Put, Stamp, ChecksumOf, Word16, Word32, FlagByte, Header;
    ghost var b, h := ether.Buf(), Header(s, option);
    HeaderParts(s, option);
    PartSizes(s);
    LengthBytes(b);
    ether.Store(56, Word16(remotePort));
    ether.Store(54, Word16(localPort));
    ether.Store(58, Word32(localSeq));
    ether.Store(62, Word32(remoteSeq));
    ether.Store(20, [PROTO_TCP]);
    ether.Store(68, Word16(WINDOW));
    if ether.buffer[66] / 0x10 > 5 {
      ether.Store(74, [2, 4] + Word16(WINDOW));
    }
    ether.Store(72, [0, 0]);
    ghost var z := ether.Buf();
    ether.SetChecksum(CHECKSUM_AT);
    ghost var y := Put(Put(SetPayloadLength(b, HeaderSize(option) + s.len), 20, [PROTO_TCP]), HEADERS, h);
    assert forall i :: 54 <= i < 70 || 72 <= i < HEADERS + HeaderSize(option) ==> z[i] == h[i - 54];
    StampIgnoresField(z, y, CHECKSUM_AT);
  }

  lemma LengthBytes(b: Image)
    ensures Word16(PayloadLength(b)) == [b[18], b[19]]
  {
  }

  lemma PartSizes(s: Segment)
    ensures |Word16(s.sourcePort)| == |Word16(s.destinationPort)| == |Word16(WINDOW)| == 2
    ensures |Word32(s.seqNum)| == |Word32(s.ackNum)| == 4
  {
  }

  // A packet buffer with the fields of a segment, and the body that goes with its header.
  ghost predicate HasFields(packet: PacketBuffer, s: Segment, option: bool)
    reads packet
  {
    && packet.Valid() && packet.protocol == PROTO_TCP && packet.ipLength == HeaderSize(option) + s.len
    && packet.sourcePort == s.sourcePort && packet.destinationPort == s.destinationPort
    && packet.seqNum == s.seqNum && packet.ackNum == s.ackNum && packet.flags == s.flags
    && packet.dataOffset == if option then TRANSMIT_HEADER else MIN_HEADER
  }

  lemma FillShows(packet: PacketBuffer, p: Image, s: Segment, option: bool)
    requires HEADERS + HeaderSize(option) + s.len <= SIZE && s.data == Data(p, option, s.len)
    requires HasFields(packet, s, option)
    requires packet.body == if option then [2, 4] + Word16(WINDOW) + p[78..] else p[74..]
    ensures var r := Fill(p, s, option);
            && Shows(packet, r) && InOrder(r) && SegmentIn(r) == s
            && Fits(r) && (IsIPv6(p) ==> IsValid(r))
  {
    hide Finish, Header, FlagsOf, FlagByte, Word16, IsValid;
    var h, r, from := Header(s, option), Fill(p, s, option), HEADERS + HeaderSize(option);
    FinishIs(p, h, s.len);
    assert r[from..][..s.len] == r[from..from + s.len] && p[from..][..s.len] == p[from..from + s.len];
    SegmentReads(r, s, option);
    HeaderReads(s, option);
    HeaderParts(s, option);
    assert r[66] == r[54..70][12];
    BodyIs(p, r, h, option);
  }

  lemma BodyIs(p: Image, r: Image, h: seq<u8>, option: bool)
    requires var from := HEADERS + HeaderSize(option);
             |h| == HeaderSize(option) && r[72..from] == h[18..] && r[from..] == p[from..]
    requires option ==> h[20..24] == [2, 4] + Word16(WINDOW)
    ensures r[74..] == if option then [2, 4] + Word16(WINDOW) + p[78..] else p[74..]
  {
    hide Word16;
    if option {
      assert r[74..] == r[72..78][2..] + r[78..];
      assert h[18..][2..] == h[20..24];
    }
  }

  // tcp_send_nodata, on both: what the client puts on its wire is the segment in the frame that the
  // buffer puts on its own, and the two still show the same afterwards.
  method SendNoData(client: TCPClient, ether: EtherSia.EtherSia)
    requires ether.Valid() && Shows(client.packet, ether.Buf()) && ether.buffer[67] < 0x20
    requires client.packet.dataOffset in {MIN_HEADER, TRANSMIT_HEADER}
    modifies client.packet, ether`bufferContainsReceived, ether`wire, ether.buffer
    ensures Shows(client.packet, ether.Buf()) && InOrder(ether.Buf())
    ensures IsIPv6(old(ether.Buf())) ==> IsValid(ether.Buf())
    ensures client.packet.wire == old(client.packet.wire) + [SegmentIn(ether.Buf())]
    ensures ether.wire == old(ether.wire) + [FrameOf(ether.Buf())]
  {
    hide Shows, SegmentIn, IsValid, ChecksumOf, FlagsOf;
    FillBoth(client, ether);
    ViewIsSegment(client.packet, ether.Buf());
    ether.Send();
    client.packet.Send();
  }

  function Blank(client: TCPClient): Segment
    reads client, client.packet`flags
  {
    Empty(client.localPort, client.remotePort, client.localSeqNum, client.remoteSeqNum, client.packet.flags)
  }

  method FillBoth(client: TCPClient, ether: EtherSia.EtherSia)
    requires ether.Valid() && Shows(client.packet, ether.Buf()) && ether.buffer[67] < 0x20
    requires client.packet.dataOffset in {MIN_HEADER, TRANSMIT_HEADER}
    modifies client.packet, ether.buffer
    ensures client.packet.wire == old(client.packet.wire)
    ensures Shows(client.packet, ether.Buf()) && InOrder(ether.Buf())
    ensures IsIPv6(old(ether.Buf())) ==> IsValid(ether.Buf())
  {
    ghost var option := client.packet.dataOffset == TRANSMIT_HEADER;
    ghost var s := Blank(client);
    hide FlagsOf, FlagByte, Fill, SegmentIn, IsValid, InOrder, Word16, Long, Shows, IsIPv6, HasFields, Data, Fits;
    ShowsHeader(client.packet, ether.Buf());
    FillFields(client, ether.Buf(), s, option);
    StoreLength(ether, client.packet.ipLength);
    ghost var p := ether.Buf();
    FillTCPHeader(ether, s, option, client.localPort, client.remotePort, client.localSeqNum, client.remoteSeqNum);
    NoData(p, option);
    FillShows(client.packet, p, s, option);
  }

  lemma NoData(b: Image, option: bool)
    ensures Data(b, option, 0) == []
  {
  }

  lemma ShowsHeader(packet: PacketBuffer, b: Image)
    requires Shows(packet, b) && b[67] < 0x20
    ensures b[66] == packet.dataOffset && b[67] == FlagByte(packet.flags)
  {
    FlagByteRoundTrip(b[67]);
  }

  method FillFields(client: TCPClient, ghost b: Image, ghost s: Segment, ghost option: bool)
    requires Shows(client.packet, b)
    requires client.packet.dataOffset == if option then TRANSMIT_HEADER else MIN_HEADER
    requires s == Blank(client)
    modifies client.packet
    ensures client.packet.wire == old(client.packet.wire) && HasFields(client.packet, s, option)
    ensures client.packet.ipLength == HeaderSize(option)
    ensures client.packet.body == if option then [2, 4] + Word16(WINDOW) + b[78..] else b[74..]
  {
    hide FlagsOf, Long;
    client.packet.ipLength := client.packet.HeaderLength();
    client.FillTCPHeader();
    assert b[74..][4..] == b[78..];
  }

  // setPayloadLength()
  method StoreLength(ether: EtherSia.EtherSia, length: u16)
    requires ether.Valid()
    modifies ether.buffer
    ensures PayloadLength(ether.Buf()) == length
    ensures var b, p := old(ether.Buf()), ether.Buf();
            && p[66] == b[66] && p[67] == b[67] && p[74..] == b[74..] && p[78..] == b[78..]
            && (IsIPv6(p) <==> IsIPv6(b))
  {
    hide Put;
    ether.Store(18, Word16(length));
  }
}
