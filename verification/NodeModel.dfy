// What the functions of EtherSia that prepare a packet do to the buffer of one node.

module NodeModel {
  import opened Bytes
  import opened Frame

  datatype Node = Node(mac: Mac, linkLocal: Addr, global: Addr)

  datatype AddressType = NotOurs | LinkLocal | Global | Multicast

  const ALL_NODES: Addr := [0xff, 0x02, 0, 0, 0, 0, 0, 0, 0, 0, 0, 0, 0, 0, 0, 0x01]

  predicate IsLinkLocal(a: Addr) { a[0] == 0xfe && a[1] == 0x80 }

  function SolicitedNode(a: Addr): Addr {
    [0xff, 0x02, 0, 0, 0, 0, 0, 0, 0, 0, 0, 0x01, 0xff] + a[13..16]
  }

  function MulticastMac(a: Addr): Mac { [0x33, 0x33] + a[12..16] }

  predicate IsMulticastMac(m: Mac) { m[0] == 0x33 && m[1] == 0x33 }

  function IsOurAddress(n: Node, a: Addr): AddressType {
    if a == n.linkLocal then LinkLocal
    else if a == n.global then Global
    else if a == ALL_NODES || a == SolicitedNode(n.linkLocal) || a == SolicitedNode(n.global) then Multicast
    else NotOurs
  }

  // Flipping the universal/local bit
  function FlipLocal(x: u8): u8 { if x / 2 % 2 == 0 then x + 2 else x - 2 }

  // setEui64() replaces the last 64 bits.
  function WithEui64(a: Addr, m: Mac): Addr {
    a[..8] + [FlipLocal(m[0]), m[1], m[2], 0xff, 0xfe, m[3], m[4], m[5]]
  }

  predicate AcceptsEthernet(n: Node, b: Image) {
    (IsMulticastMac(EtherDestination(b)) || EtherDestination(b) == n.mac) && EtherSource(b) != n.mac
  }

  // The addresses that are ours, byte by byte: the two unicast addresses, ff02::1, and what section
  // 2.7.1 of RFC 4291 makes of the last 24 bits of either, ff02::1:ff00:0/104.
  lemma OwnAddresses(n: Node, a: Addr)
    ensures IsOurAddress(n, a) == LinkLocal <==> a == n.linkLocal
    ensures IsOurAddress(n, a) == Global <==> a == n.global && a != n.linkLocal
    ensures IsOurAddress(n, a) == Multicast <==>
              && a != n.linkLocal && a != n.global
              && (|| a == [0xff, 2, 0, 0, 0, 0, 0, 0, 0, 0, 0, 0, 0, 0, 0, 1]
                  || (&& a[..13] == [0xff, 2, 0, 0, 0, 0, 0, 0, 0, 0, 0, 1, 0xff]
                      && (a[13..] == n.linkLocal[13..] || a[13..] == n.global[13..])))
  {
    IsSolicitedNode(a, n.linkLocal);
    IsSolicitedNode(a, n.global);
    hide SolicitedNode;
  }

  lemma IsSolicitedNode(a: Addr, own: Addr)
    ensures a == SolicitedNode(own) <==>
              a[..13] == [0xff, 2, 0, 0, 0, 0, 0, 0, 0, 0, 0, 1, 0xff] && a[13..] == own[13..]
  {
    assert a == a[..13] + a[13..];
    assert own[13..16] == own[13..];
    assert SolicitedNode(own)[..13] == [0xff, 2, 0, 0, 0, 0, 0, 0, 0, 0, 0, 1, 0xff];
    assert SolicitedNode(own)[13..] == own[13..];
  }

  // Frames for the node are sent to its address or to an IPv6 multicast address, section 7 of RFC 2464,
  // and not by itself; that of a solicited node address ends in ff and the last 24 bits.
  lemma OwnFrames(n: Node, b: Image, a: Addr)
    ensures AcceptsEthernet(n, b) <==>
              ((b[0] == 0x33 && b[1] == 0x33) || b[0..6] == n.mac) && b[6..12] != n.mac
    ensures MulticastMac(a) == [0x33, 0x33, a[12], a[13], a[14], a[15]]
    ensures MulticastMac(SolicitedNode(a)) == [0x33, 0x33, 0xff, a[13], a[14], a[15]]
  {
    assert b[0..6][0] == b[0] && b[0..6][1] == b[1];
    var g := SolicitedNode(a);
    assert g[12] == 0xff && g[13] == a[13..16][0] && g[14] == a[13..16][1] && g[15] == a[13..16][2];
    assert g[12..16] == [0xff, a[13], a[14], a[15]] && a[12..16] == [a[12], a[13], a[14], a[15]];
  }

  function Init(b: Image): Image { Put(Put(b, 12, [0x86, 0xdd, 0x60, 0, 0, 0]), 21, [64]) }

  function PrepareSend(n: Node, b: Image): Image {
    var source := if IsLinkLocal(Destination(b)) || n.global == ZERO_ADDR then n.linkLocal else n.global;
    Put(Put(Init(b), 22, source), 6, n.mac)
  }

  function PrepareReply(n: Node, b: Image): Image {
    var source := if IsOurAddress(n, Destination(b)) == Global then n.global else n.linkLocal;
    Put(Put(Put(Put(Put(b, 21, [64]), 38, Source(b)), 22, source), 0, EtherSource(b)), 6, n.mac)
  }

  lemma InitKeeps(b: Image)
    ensures var r := Init(b);
            && IsIPv6(r) && Destination(r) == Destination(b)
            && forall i :: 0 <= i < 12 || 22 <= i < SIZE ==> r[i] == b[i]
  {
    hide Put;
    forall i | 38 <= i < 54 ensures Init(b)[i] == b[i] {}
  }

  lemma InitIs(b: Image)
    ensures Init(b)[14..18] == [0x60, 0, 0, 0] && Init(b)[21] == 64
  {
    hide Put;
    assert Init(b)[14] == 0x60 && Init(b)[15] == 0 && Init(b)[16] == 0 && Init(b)[17] == 0;
  }

  // The caller has set both destinations.
  lemma SendHeaders(n: Node, b: Image)
    ensures var r := PrepareSend(n, b);
            && IsIPv6(r) && r[14..18] == [0x60, 0, 0, 0] && r[21] == 64
            && Destination(r) == Destination(b) && EtherDestination(r) == EtherDestination(b) && EtherSource(r) == n.mac
            && Source(r) == (if IsLinkLocal(Destination(b)) || n.global == ZERO_ADDR then n.linkLocal else n.global)
            && forall i :: HEADERS <= i < SIZE ==> r[i] == b[i]
  {
    hide Put, Init;
    InitKeeps(b);
    var source := if IsLinkLocal(Destination(b)) || n.global == ZERO_ADDR then n.linkLocal else n.global;
    var r := PrepareSend(n, b);
    forall i | 22 <= i < 38 ensures r[i] == source[i - 22] {}
    assert Init(b)[14..18] == [0x60, 0, 0, 0] && Init(b)[21] == 64 by { InitIs(b); }
    assert forall i :: 12 <= i < 22 ==> r[i] == Init(b)[i];
    forall i | 38 <= i < 54 ensures r[i] == b[i] {}
  }

  // The reply goes back to the sender; type, version, length, protocol and payload stay.
  lemma ReplyHeaders(n: Node, b: Image)
    ensures var r := PrepareReply(n, b);
            && Destination(r) == Source(b) && EtherDestination(r) == EtherSource(b) && EtherSource(r) == n.mac
            && Source(r) == (if IsOurAddress(n, Destination(b)) == Global then n.global else n.linkLocal)
            && r[21] == 64 && forall i :: 12 <= i < 21 || HEADERS <= i < SIZE ==> r[i] == b[i]
  {
    hide Put;
    var r := PrepareReply(n, b);
    assert forall i :: 38 <= i < 54 ==> r[i] == Source(b)[i - 38];
    assert forall i :: 0 <= i < 6 ==> r[i] == EtherSource(b)[i];
  }

  function SetPayloadLength(b: Image, len: u16): Image { Put(b, 18, Word16(len)) }

  // readFrame() overwrites the front of the buffer.
  function Received(b: Image, frame: seq<u8>): Image
    requires |frame| <= SIZE
  { Put(b, 0, frame) }

  // A frame means the same in every buffer.
  lemma ValidInAnyBuffer(b: Image, c: Image)
    requires Fits(b)
    ensures var r := Received(c, FrameOf(b));
            && Fits(r) && PayloadLength(r) == PayloadLength(b) && FrameOf(r) == FrameOf(b)
            && ChecksumOf(r) == ChecksumOf(b) && (IsValid(r) <==> IsValid(b))
  {
    var r, end := Received(c, FrameOf(b)), HEADERS + PayloadLength(b);
    assert Source(r) == Source(b) && Destination(r) == Destination(b);
    assert r[HEADERS..end] == b[HEADERS..end];
  }

  lemma SameHeaders(b: Image, c: Image)
    requires Fits(b)
    ensures var r := Received(c, FrameOf(b));
            && Source(r) == Source(b) && Destination(r) == Destination(b) && Protocol(r) == Protocol(b)
            && EtherSource(r) == EtherSource(b) && EtherDestination(r) == EtherDestination(b)
            && (forall i :: 0 <= i < HEADERS + PayloadLength(b) ==> r[i] == b[i])
  {
    hide Put;
  }
}
