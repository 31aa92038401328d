// ICMPv6 (src/icmp6.cpp): the packets it builds, the options it reads.

module Icmp6 {
  import opened Bytes
  import opened Frame
  import opened NodeModel

  const TYPE_PARAM_PROB: u8 := 4
  const TYPE_ECHO: u8 := 128
  const TYPE_ECHO_REPLY: u8 := 129
  const TYPE_RA: u8 := 134
  const TYPE_NS: u8 := 135
  const TYPE_NA: u8 := 136
  const OPTION_SOURCE_LINK: u8 := 1
  const OPTION_TARGET_LINK: u8 := 2
  const OPTION_PREFIX: u8 := 3
  const OPTION_DNS: u8 := 25

  // icmp6PacketSend()
  function Finish(b: Span): (r: Span)
    requires Fits(b)
    ensures |r| == |b|
  { Stamp(b[20 := PROTO_ICMP6], 56) }

  lemma FinishIsValid(b: Span)
    requires Fits(b) && PayloadLength(b) >= 4 && IsIPv6(b)
    ensures var r := Finish(b);
            && Fits(r) && IsValid(r) && Protocol(r) == PROTO_ICMP6 && PayloadLength(r) == PayloadLength(b)
            && (forall i :: 0 <= i < |b| && i != 20 && i != 56 && i != 57 ==> r[i] == b[i])
            && Source(r) == Source(b) && Destination(r) == Destination(b)
            && EtherDestination(r) == EtherDestination(b) && EtherSource(r) == EtherSource(b)
  {
    hide ChecksumOf, Stamp;
    StampVerifies(b[20 := PROTO_ICMP6], 56);
  }

  lemma FinishInMemory(b: Image, beyond: Beyond)
    requires Fits(b)
    ensures Finish(b + beyond) == Finish(b) + beyond && FrameOf(Finish(b + beyond)) == FrameOf(Finish(b))
  {
    hide ChecksumOf, Stamp;
    var z: Image := b[20 := PROTO_ICMP6];
    assert (b + beyond)[20 := PROTO_ICMP6] == z + beyond;
    StampInMemory(z, beyond, 56);
    FitsInMemory(Stamp(z, 56), beyond);
  }

  // ----- Neighbour Discovery

  function SolicitationBody(n: Node, b: Image, target: Addr, source: Addr): Image {
    var group := SolicitedNode(target);
    var b1 := PrepareSend(n, Put(Put(b, 38, group), 0, MulticastMac(group)));
    var b2 := SetPayloadLength(Put(b1, 22, source), 24);
    Put(Put(Put(b2, 21, [255]), 54, [TYPE_NS, 0]), 58, [0, 0, 0, 0] + target)
  }

  function Solicitation(n: Node, b: Image, target: Addr, source: Addr): Image {
    Finish(SolicitationBody(n, b, target, source))
  }

  function Target(b: Image): Addr { b[62..78] }

  function AdvertisementBody(n: Node, b: Image): Image {
    var b1 := SetPayloadLength(Put(PrepareReply(n, b), 21, [255]), 32);
    Put(Put(Put(b1, 54, [TYPE_NA, 0]), 58, [0x40, 0, 0, 0]), 78, [OPTION_TARGET_LINK, 1] + n.mac)
  }

  function Advertisement(n: Node, b: Image): Image { Finish(AdvertisementBody(n, b)) }

  // Only solicitations for a unicast address of the node are answered.
  predicate Answers(n: Node, b: Image) { IsOurAddress(n, Target(b)) in {LinkLocal, Global} }

  lemma SolicitationIs(n: Node, b: Image, target: Addr, source: Addr)
    ensures var r := Solicitation(n, b, target, source);
            && Fits(r) && IsValid(r) && PayloadLength(r) == 24 && Protocol(r) == PROTO_ICMP6
            && r[21] == 255 && r[54] == 135 && r[55] == 0 && r[58..62] == [0, 0, 0, 0] && Target(r) == target
            && Source(r) == source && Destination(r) == SolicitedNode(target)
            && EtherSource(r) == n.mac && EtherDestination(r) == MulticastMac(SolicitedNode(target))
  {
    hide IsValid, Finish, SolicitationBody;
    SolicitationBodyIs(n, b, target, source);
    var z := SolicitationBody(n, b, target, source);
    FinishIsValid(z);
    assert Target(Finish(z)) == Target(z) && Finish(z)[58..62] == z[58..62];
  }

  lemma SolicitationBodyIs(n: Node, b: Image, target: Addr, source: Addr)
    ensures var z := SolicitationBody(n, b, target, source);
            && PayloadLength(z) == 24 && IsIPv6(z)
            && z[21] == 255 && z[54] == 135 && z[55] == 0 && z[58..62] == [0, 0, 0, 0] && Target(z) == target
            && Source(z) == source && Destination(z) == SolicitedNode(target)
            && EtherSource(z) == n.mac && EtherDestination(z) == MulticastMac(SolicitedNode(target))
  {
    hide Put, PrepareSend;
    var group := SolicitedNode(target);
    var d := Put(Put(b, 38, group), 0, MulticastMac(group));
    assert Destination(d) == group && EtherDestination(d) == MulticastMac(group);
    SendHeaders(n, d);
    hide SolicitedNode, MulticastMac;
    var p, z := PrepareSend(n, d), SolicitationBody(n, b, target, source);
    assert forall i :: 0 <= i < 18 || 38 <= i < 54 ==> z[i] == p[i];
    assert Destination(z) == Destination(p) && EtherDestination(z) == EtherDestination(p)
        && EtherSource(z) == EtherSource(p);
    assert forall i :: 22 <= i < 38 ==> z[i] == source[i - 22];
    assert forall i :: 58 <= i < 78 ==> z[i] == ([0, 0, 0, 0] + target)[i - 58];
  }

  lemma AdvertisementBodyIs(n: Node, b: Image)
    ensures var z := AdvertisementBody(n, b);
            && PayloadLength(z) == 32 && (forall i :: 12 <= i < 15 ==> z[i] == b[i])
            && z[21] == 255 && z[55] == 0 && z[58..62] == [0x40, 0, 0, 0]
            && z[54] == 136 && Target(z) == Target(b) && z[78] == OPTION_TARGET_LINK && z[79] == 1
            && z[80..86] == n.mac
            && Destination(z) == Source(b) && EtherSource(z) == n.mac && EtherDestination(z) == EtherSource(b)
  {
    hide Put, PrepareReply;
    ReplyHeaders(n, b);
    var p, z := PrepareReply(n, b), AdvertisementBody(n, b);
    assert forall i :: 0 <= i < 18 || 22 <= i < 54 || 62 <= i < 78 ==> z[i] == p[i];
    assert z[78..86] == [OPTION_TARGET_LINK, 1] + n.mac;
    assert z[80..86] == z[78..86][2..];
    assert Target(z) == Target(b) && Destination(z) == Destination(p);
    assert EtherSource(z) == EtherSource(p) && EtherDestination(z) == EtherDestination(p);
  }

  lemma AdvertisementIs(n: Node, b: Image)
    requires IsIPv6(b)
    ensures var r := Advertisement(n, b);
            && Fits(r) && IsValid(r) && PayloadLength(r) == 32 && Protocol(r) == PROTO_ICMP6
            && r[21] == 255 && r[55] == 0 && r[58..62] == [0x40, 0, 0, 0]
            && r[54] == 136 && Target(r) == Target(b) && r[78] == OPTION_TARGET_LINK && r[79] == 1
            && r[80..86] == n.mac
            && Destination(r) == Source(b) && EtherSource(r) == n.mac && EtherDestination(r) == EtherSource(b)
  {
    hide ChecksumOf, IsValid, Finish, AdvertisementBody;
    AdvertisementBodyIs(n, b);
    var z := AdvertisementBody(n, b);
    FinishIsValid(z);
    assert Target(Finish(z)) == Target(z) && Finish(z)[80..86] == z[80..86] && Finish(z)[58..62] == z[58..62];
  }

  // B's receivePacket() accepts A's solicitation and B is asked.
  lemma SolicitationArrives(a: Node, b: Node, bufA: Image, bufB: Image, target: Addr, source: Addr)
    requires a.mac != b.mac && target in {b.linkLocal, b.global}
    ensures var ns := Solicitation(a, bufA, target, source);
            Fits(ns) &&
            var atB := Received(bufB, FrameOf(ns));
            && Fits(atB) && IsValid(atB) && AcceptsEthernet(b, atB) && Protocol(atB) == PROTO_ICMP6
            && IsOurAddress(b, Destination(atB)) != NotOurs && atB[54] == TYPE_NS && Answers(b, atB)
            && Handles(b, atB) && atB[21] == 255
            && Target(atB) == target && Source(atB) == source && EtherSource(atB) == a.mac
  {
    hide Put, IsValid, Solicitation, ChecksumOf, Received;
    var ns := Solicitation(a, bufA, target, source);
    SolicitationIs(a, bufA, target, source);
    ValidInAnyBuffer(ns, bufB);
    SameHeaders(ns, bufB);
    assert Target(Received(bufB, FrameOf(ns))) == Target(ns);
  }

  // What icmp6ProcessNA() makes of the options of an advertisement.
  ghost predicate Finds(b: Image, beyond: Beyond, mac: Mac)
  {
    var end, stop := WalkEnd(b, 78), Some(OPTION_TARGET_LINK);
    && WalkEnds(b + beyond, 78, end, stop)
    && FirstTargetLink(Seen(b + beyond, 78, end, stop), EtherSource(b)) == mac
  }

  lemma OneOption(b: Image, beyond: Beyond)
    requires PayloadLength(b) == 32 && b[78] == OPTION_TARGET_LINK
    ensures Finds(b, beyond, b[80..86])
  {
    var m := b + beyond;
    SeenTurn(m, 78, 86, Some(OPTION_TARGET_LINK));
    SliceOfSlice(m, 78, 110, 2, 8);
    assert m[80..86] == b[80..86];
  }

  // A's receivePacket() accepts B's advertisement and A's option walk finds B's address.
  lemma AdvertisementArrives(a: Node, b: Node, atB: Image, bufA: Image, beyond: Beyond)
    requires a.mac != b.mac && IsIPv6(atB)
    requires EtherSource(atB) == a.mac && Source(atB) in {a.linkLocal, a.global}
    ensures var na := Advertisement(b, atB);
            Fits(na) &&
            var atA := Received(bufA, FrameOf(na));
            && Fits(atA) && IsValid(atA) && AcceptsEthernet(a, atA) && Protocol(atA) == PROTO_ICMP6
            && IsOurAddress(a, Destination(atA)) != NotOurs && atA[54] == TYPE_NA && Target(atA) == Target(atB)
            && !Handles(a, atA) && atA[21] == 255
            && Finds(atA, beyond, b.mac)
  {
    hide Put, IsValid, Advertisement, ChecksumOf, Received, Finds;
    var na := Advertisement(b, atB);
    AdvertisementIs(b, atB);
    ValidInAnyBuffer(na, bufA);
    var atA := Received(bufA, FrameOf(na));
    SameHeaders(na, bufA);
    assert Target(atA) == Target(na) && atA[80..86] == na[80..86];
    OneOption(atA, beyond);
  }

  // Two nodes, whatever their buffers held before: A's solicitation for an address of B passes
  // every test of B's receivePacket(), B answers, the answer passes A's tests and is handed to A's
  // discoverNeighbour(), and the options of the advertisement say B's MAC address. Both packets have
  // the hop limit that section 7.1 of RFC 4861 asks for.
  lemma NeighbourDiscovery(a: Node, b: Node, bufA: Image, bufB: Image, target: Addr, beyond: Beyond)
    requires a.mac != b.mac && target in {b.linkLocal, b.global}
    ensures var source := if IsLinkLocal(target) then a.linkLocal else a.global;
            var ns := Solicitation(a, bufA, target, source);
            Fits(ns) &&
            var atB := Received(bufB, FrameOf(ns));
            && Fits(atB) && IsValid(atB) && AcceptsEthernet(b, atB) && Protocol(atB) == PROTO_ICMP6
            && IsOurAddress(b, Destination(atB)) != NotOurs && atB[54] == TYPE_NS && Answers(b, atB)
            && Handles(b, atB) && atB[21] == 255 &&
            var na := Advertisement(b, atB);
            Fits(na) &&
            var atA := Received(ns, FrameOf(na));
            && Fits(atA) && IsValid(atA) && AcceptsEthernet(a, atA) && Protocol(atA) == PROTO_ICMP6
            && IsOurAddress(a, Destination(atA)) != NotOurs && atA[54] == TYPE_NA && Target(atA) == target
            && !Handles(a, atA) && atA[21] == 255
            && Finds(atA, beyond, b.mac)
  {
    hide IsValid, Solicitation, Advertisement, ChecksumOf, Received, Finds, IsOurAddress, AcceptsEthernet;
    var source := if IsLinkLocal(target) then a.linkLocal else a.global;
    SolicitationArrives(a, b, bufA, bufB, target, source);
    var ns := Solicitation(a, bufA, target, source);
    AdvertisementArrives(a, b, Received(bufB, FrameOf(ns)), ns, beyond);
  }

  // ----- options

  // An option of RFC 4861 section 4.6, from its type byte on, long enough for what it holds.
  type Opt = o: seq<u8> | |o| >= 8 && (o[0] == OPTION_PREFIX ==> |o| >= 32) && (o[0] == OPTION_DNS ==> |o| >= 24)
    ghost witness [0, 1, 0, 0, 0, 0, 0, 0]

  // The length byte counts units of 8.
  function OptionLength(b: Image, ptr: nat): nat
    requires ptr + 1 < SIZE
  { 8 * (b[ptr + 1] as int) }

  ghost predicate OptionsFit(b: Image, ptr: nat, end: nat)
    requires end <= SIZE
    decreases end - ptr
  {
    ptr < end ==>
      && ptr + 8 <= end && b[ptr + 1] > 0 && ptr + OptionLength(b, ptr) <= end
      && (b[ptr] == OPTION_PREFIX ==> b[ptr + 1] >= 4)
      && (b[ptr] == OPTION_DNS ==> b[ptr + 1] >= 3)
      && OptionsFit(b, ptr + OptionLength(b, ptr), end)
  }

  ghost function Options(b: Image, ptr: nat, end: nat): seq<Opt>
    requires end <= SIZE && OptionsFit(b, ptr, end)
    decreases end - ptr
  {
    if ptr >= end then []
    else [b[ptr..ptr + OptionLength(b, ptr)]] + Options(b, ptr + OptionLength(b, ptr), end)
  }

  ghost function FirstOption(b: Image, ptr: nat, end: nat): Opt
    requires ptr < end <= SIZE && OptionsFit(b, ptr, end)
  { b[ptr..ptr + OptionLength(b, ptr)] }

  lemma OptionsStep(b: Image, ptr: nat, end: nat)
    requires ptr < end <= SIZE && OptionsFit(b, ptr, end)
    ensures var next := ptr + OptionLength(b, ptr);
            && ptr + 8 <= next <= end && OptionsFit(b, next, end)
            && Options(b, ptr, end) != [] && Options(b, ptr, end)[0] == FirstOption(b, ptr, end)
            && Options(b, ptr, end)[1..] == Options(b, next, end)
  {
  }

  lemma OptionsEnd(b: Image, ptr: nat, end: nat)
    requires end <= ptr && end <= SIZE
    ensures OptionsFit(b, ptr, end) && Options(b, ptr, end) == []
  {
  }

  // ----- the walk over any bytes

  // Where a walk from `from` on ends: what is left of the packet there, as a signed 16-bit number.
  function WalkEnd(b: Span, from: nat): nat
    requires HEADERS <= from <= 78
  {
    var remaining := S16(PayloadLength(b) - (from - HEADERS));
    if remaining > 0 then from + remaining else from
  }

  const WALK_MAX := 78 + 0x7FFF

  // What the loops of icmp6ProcessRA() and icmp6ProcessNA() do, one option a turn, to memory `m`
  // that starts with the buffer. The second one stops at an option of type `stop`.

  ghost predicate AtEnd(m: Memory, ptr: nat, end: nat, stop: Option<u8>)
    requires end <= WALK_MAX
  { ptr >= end || Some(m[ptr]) == stop }

  ghost function AfterTurns(m: Memory, ptr: nat, end: nat, stop: Option<u8>, n: nat): nat
    requires end <= WALK_MAX
    decreases n
  { if n == 0 || AtEnd(m, ptr, end, stop) then ptr else AfterTurns(m, ptr + 8 * (m[ptr + 1] as int), end, stop, n - 1) }

  // No option on the way has length zero.
  ghost predicate WalkEnds(m: Memory, ptr: nat, end: nat, stop: Option<u8>)
    requires end <= WALK_MAX
    decreases end - ptr
  { !AtEnd(m, ptr, end, stop) ==> m[ptr + 1] > 0 && WalkEnds(m, ptr + 8 * (m[ptr + 1] as int), end, stop) }

  // The walk is over after some number of turns if and only if it meets no option of length zero;
  // at such an option it stays for ever.
  lemma {:induction false} WalkTerminates(m: Memory, ptr: nat, end: nat, stop: Option<u8>)
    requires end <= WALK_MAX
    ensures WalkEnds(m, ptr, end, stop) <==> exists n: nat :: AtEnd(m, AfterTurns(m, ptr, end, stop, n), end, stop)
    decreases end - ptr
  {
    hide AfterTurns, WalkEnds;
    TurnsOn(m, ptr, end, stop, 0);
    if ptr < end { EndTurn(m, ptr, end, stop); } else { SeenEnd(m, ptr, end, stop); }
    if AtEnd(m, ptr, end, stop) {
      assert AtEnd(m, AfterTurns(m, ptr, end, stop, 0), end, stop);
    } else if m[ptr + 1] == 0 {
      forall n: nat ensures !AtEnd(m, AfterTurns(m, ptr, end, stop, n), end, stop) { Stuck(m, ptr, end, stop, n); }
    } else {
      var next := ptr + 8 * (m[ptr + 1] as int);
      WalkTerminates(m, next, end, stop);
      if n: nat :| AtEnd(m, AfterTurns(m, next, end, stop, n), end, stop) {
        TurnsOn(m, ptr, end, stop, n);
        assert AtEnd(m, AfterTurns(m, ptr, end, stop, n + 1), end, stop);
      }
      if n: nat :| AtEnd(m, AfterTurns(m, ptr, end, stop, n), end, stop) {
        if n > 0 { TurnsOn(m, ptr, end, stop, n - 1); }
      }
    }
  }

  lemma TurnsOn(m: Memory, ptr: nat, end: nat, stop: Option<u8>, n: nat)
    requires end <= WALK_MAX
    ensures AfterTurns(m, ptr, end, stop, 0) == ptr
    ensures !AtEnd(m, ptr, end, stop) ==>
              AfterTurns(m, ptr, end, stop, n + 1) == AfterTurns(m, ptr + 8 * (m[ptr + 1] as int), end, stop, n)
  {
  }

  lemma {:induction false} Stuck(m: Memory, ptr: nat, end: nat, stop: Option<u8>, n: nat)
    requires end <= WALK_MAX && !AtEnd(m, ptr, end, stop) && m[ptr + 1] == 0
    ensures AfterTurns(m, ptr, end, stop, n) == ptr
    decreases n
  {
    if n > 0 { Stuck(m, ptr, end, stop, n - 1); }
  }

  // What is read of an option, whatever its length byte says.
  function Window(m: Memory, ptr: nat): Opt
    requires ptr < WALK_MAX
  { m[ptr..ptr + 32] }

  ghost function Seen(m: Memory, ptr: nat, end: nat, stop: Option<u8>): seq<Opt>
    requires end <= WALK_MAX && WalkEnds(m, ptr, end, stop)
    decreases end - ptr
  {
    if ptr >= end then []
    else [Window(m, ptr)] + if Some(m[ptr]) == stop then [] else Seen(m, ptr + 8 * (m[ptr + 1] as int), end, stop)
  }

  lemma SeenTurn(m: Memory, ptr: nat, end: nat, stop: Option<u8>)
    requires ptr < end <= WALK_MAX && WalkEnds(m, ptr, end, stop)
    ensures Window(m, ptr)[0] == m[ptr] && Window(m, ptr)[1] == m[ptr + 1]
    ensures var seen := Seen(m, ptr, end, stop);
            && seen != [] && seen[0] == Window(m, ptr)
            && (Some(m[ptr]) != stop ==>
                  var next := ptr + 8 * (m[ptr + 1] as int);
                  next > ptr && WalkEnds(m, next, end, stop) && seen[1..] == Seen(m, next, end, stop))
  {
  }

  lemma SeenEnd(m: Memory, ptr: nat, end: nat, stop: Option<u8>)
    requires end <= ptr && end <= WALK_MAX
    ensures WalkEnds(m, ptr, end, stop) && Seen(m, ptr, end, stop) == []
  {
  }

  // Every well-formed option area is walked to its end, and read as its options.
  lemma {:induction false} WellFormedIsSeen(b: Image, beyond: Beyond, ptr: nat, end: nat, l: Learned,
                                              mac: Mac, otherwise: Mac)
    requires end <= SIZE && OptionsFit(b, ptr, end)
    ensures var m, target := b + beyond, Some(OPTION_TARGET_LINK);
            && WalkEnds(m, ptr, end, None)
            && LearnAll(l, mac, Seen(m, ptr, end, None)) == LearnAll(l, mac, Options(b, ptr, end))
            && WalkEnds(m, ptr, end, target)
            && FirstTargetLink(Seen(m, ptr, end, target), otherwise) == FirstTargetLink(Options(b, ptr, end), otherwise)
    decreases end - ptr
  {
    hide Options, OptionsFit, Learn, Seen, WalkEnds, Window, LearnAll, FirstTargetLink;
    var m := b + beyond;
    if ptr < end {
      var o := FirstOption(b, ptr, end);
      OptionsStep(b, ptr, end);
      SameOption(b, beyond, ptr, o, l, mac);
      WellFormedIsSeen(b, beyond, ptr + OptionLength(b, ptr), end, Learn(l, mac, o), mac, otherwise);
      assert m[ptr] == b[ptr] && m[ptr + 1] == b[ptr + 1];
      EndTurn(m, ptr, end, None);
      EndTurn(m, ptr, end, Some(OPTION_TARGET_LINK));
      SeenTurn(m, ptr, end, None);
      SeenTurn(m, ptr, end, Some(OPTION_TARGET_LINK));
      LearnTurn(l, mac, Options(b, ptr, end), otherwise);
      LearnTurn(l, mac, Seen(m, ptr, end, None), otherwise);
      LearnTurn(l, mac, Seen(m, ptr, end, Some(OPTION_TARGET_LINK)), otherwise);
    } else {
      OptionsEnd(b, ptr, end);
      SeenEnd(m, ptr, end, None);
      SeenEnd(m, ptr, end, Some(OPTION_TARGET_LINK));
    }
  }

  lemma LearnTurn(l: Learned, mac: Mac, opts: seq<Opt>, otherwise: Mac)
    requires opts != []
    ensures LearnAll(l, mac, opts) == LearnAll(Learn(l, mac, opts[0]), mac, opts[1..])
    ensures FirstTargetLink(opts, otherwise)
         == if opts[0][0] == OPTION_TARGET_LINK then opts[0][2..8] else FirstTargetLink(opts[1..], otherwise)
  {
    hide Learn;
  }

  lemma EndTurn(m: Memory, ptr: nat, end: nat, stop: Option<u8>)
    requires ptr < end <= WALK_MAX
    ensures WalkEnds(m, ptr, end, stop) <==>
              Some(m[ptr]) == stop || (m[ptr + 1] > 0 && WalkEnds(m, ptr + 8 * (m[ptr + 1] as int), end, stop))
  {
  }

  lemma SameOption(b: Image, beyond: Beyond, ptr: nat, o: Opt, l: Learned, mac: Mac)
    requires ptr + |o| <= SIZE && o == b[ptr..ptr + |o|]
    ensures var w := Window(b + beyond, ptr);
            w[0] == o[0] && w[2..8] == o[2..8] && Learn(l, mac, w) == Learn(l, mac, o)
  {
    hide WithEui64;
    var w := Window(b + beyond, ptr);
    forall i | 0 <= i < |o| && i < 32 ensures w[i] == o[i] {}
    assert w[2..8] == o[2..8];
    if o[0] == OPTION_DNS { assert w[8..24] == o[8..24]; }
    if o[0] == OPTION_PREFIX { assert w[16..32] == o[16..32]; }
  }

  // icmp6ProcessNA(): the first target link address, or the sender of the frame.
  ghost function FirstTargetLink(opts: seq<Opt>, otherwise: Mac): Mac {
    if opts == [] then otherwise
    else if opts[0][0] == OPTION_TARGET_LINK then opts[0][2..8]
    else FirstTargetLink(opts[1..], otherwise)
  }

  // Option i is the first one of type 2.
  ghost predicate IsFirst(opts: seq<Opt>, i: nat) {
    i < |opts| && opts[i][0] == 2 && forall j :: 0 <= j < i ==> opts[j][0] != 2
  }

  lemma {:induction false} FirstTargetLinkIs(opts: seq<Opt>, otherwise: Mac, i: nat)
    ensures IsFirst(opts, i) ==> FirstTargetLink(opts, otherwise) == opts[i][2..8]
    ensures (forall j :: 0 <= j < |opts| ==> opts[j][0] != 2) ==> FirstTargetLink(opts, otherwise) == otherwise
  {
    if opts != [] && opts[0][0] != 2 {
      var rest := opts[1..];
      assert forall j :: 0 <= j < |rest| ==> rest[j] == opts[j + 1];
      FirstTargetLinkIs(rest, otherwise, if i > 0 then i - 1 else 0);
      if IsFirst(opts, i) { assert IsFirst(rest, i - 1); }
    } else if IsFirst(opts, i) {
      assert i == 0;
    }
  }

  // icmp6ProcessRA(): what a node learns from its router.
  datatype Learned = Learned(routerMac: Mac, dns: Addr, global: Addr)

  // On-link and autonomous, and 64 bits long.
  predicate Qualifies(o: Opt) { o[0] == OPTION_PREFIX && o[3] / 0x40 == 3 && o[2] == 64 }

  function Learn(l: Learned, mac: Mac, o: Opt): Learned {
    if o[0] == OPTION_SOURCE_LINK then l.(routerMac := o[2..8])
    else if o[0] == OPTION_DNS then l.(dns := o[8..24])
    else if Qualifies(o) && l.global == ZERO_ADDR then l.(global := WithEui64(o[16..32], mac))
    else l
  }

  ghost function LearnAll(l: Learned, mac: Mac, opts: seq<Opt>): Learned
    decreases |opts|
  {
    if opts == [] then l else LearnAll(Learn(l, mac, opts[0]), mac, opts[1..])
  }

  ghost function LastMac(opts: seq<Opt>, otherwise: Mac): Mac {
    if opts == [] then otherwise
    else if opts[|opts| - 1][0] == 1 then opts[|opts| - 1][2..8]
    else LastMac(opts[..|opts| - 1], otherwise)
  }

  ghost function LastDns(opts: seq<Opt>, otherwise: Addr): Addr {
    if opts == [] then otherwise
    else if opts[|opts| - 1][0] == 25 then opts[|opts| - 1][8..24]
    else LastDns(opts[..|opts| - 1], otherwise)
  }

  ghost function FirstPrefix(opts: seq<Opt>): Option<Addr> {
    if opts == [] then None
    else if Qualifies(opts[0]) then Some(opts[0][16..32])
    else FirstPrefix(opts[1..])
  }

  lemma {:induction false} LearnSnoc(l: Learned, mac: Mac, opts: seq<Opt>)
    requires opts != []
    ensures LearnAll(l, mac, opts) == Learn(LearnAll(l, mac, opts[..|opts| - 1]), mac, opts[|opts| - 1])
    decreases |opts|
  {
    if |opts| > 1 {
      LearnSnoc(Learn(l, mac, opts[0]), mac, opts[1..]);
      assert opts[1..][..|opts| - 2] == opts[..|opts| - 1][1..];
    }
  }

  lemma {:induction false} LearnsLastLinkAndDns(l: Learned, mac: Mac, opts: seq<Opt>)
    ensures LearnAll(l, mac, opts).routerMac == LastMac(opts, l.routerMac)
    ensures LearnAll(l, mac, opts).dns == LastDns(opts, l.dns)
  {
    if opts != [] {
      LearnSnoc(l, mac, opts);
      LearnsLastLinkAndDns(l, mac, opts[..|opts| - 1]);
    }
  }

  lemma Eui64IsNotZero(a: Addr, m: Mac)
    ensures WithEui64(a, m) != ZERO_ADDR
  {
    assert WithEui64(a, m)[11] == 0xff;
  }

  // From an unset address: set by the first qualifying prefix, and only by it.
  lemma {:induction false} LearnsFirstPrefix(l: Learned, mac: Mac, opts: seq<Opt>)
    ensures LearnAll(l, mac, opts).global ==
              if l.global != ZERO_ADDR then l.global
              else match FirstPrefix(opts) case None => ZERO_ADDR case Some(p) => WithEui64(p, mac)
    decreases |opts|
  {
    if opts != [] {
      LearnsFirstPrefix(Learn(l, mac, opts[0]), mac, opts[1..]);
      if Qualifies(opts[0]) { Eui64IsNotZero(opts[0][16..32], mac); }
    }
  }

  // A prefix option with the on-link and the autonomous flag, for 64 bits.
  lemma QualifiesExactly(o: Opt)
    ensures Qualifies(o) <==> o[0] == 3 && o[2] == 64 && o[3] / 0x80 == 1 && o[3] / 0x40 % 2 == 1
  {
  }

  // Any sequence of advertisements.
  ghost function Advertised(l: Learned, mac: Mac, ras: seq<seq<Opt>>): Learned {
    if ras == [] then l else LearnAll(Advertised(l, mac, ras[..|ras| - 1]), mac, ras[|ras| - 1])
  }

  ghost function Flatten(ras: seq<seq<Opt>>): seq<Opt> {
    if ras == [] then [] else Flatten(ras[..|ras| - 1]) + ras[|ras| - 1]
  }

  lemma {:induction false} FirstPrefixOfSum(a: seq<Opt>, b: seq<Opt>)
    ensures FirstPrefix(a + b) == if FirstPrefix(a).Some? then FirstPrefix(a) else FirstPrefix(b)
  {
    if a == [] {
      assert a + b == b;
    } else {
      assert (a + b)[1..] == a[1..] + b;
      FirstPrefixOfSum(a[1..], b);
    }
  }

  // Over any run of advertisements the address is the first qualifying prefix of them all with the
  // EUI-64 of the node, and once set it never changes again.
  lemma {:induction false} GlobalAddressIsSetOnce(l: Learned, mac: Mac, ras: seq<seq<Opt>>, k: nat)
    requires l.global == ZERO_ADDR && k <= |ras|
    ensures Advertised(l, mac, ras).global ==
              match FirstPrefix(Flatten(ras)) case None => ZERO_ADDR case Some(p) => WithEui64(p, mac)
    ensures Advertised(l, mac, ras[..k]).global != ZERO_ADDR
            ==> Advertised(l, mac, ras).global == Advertised(l, mac, ras[..k]).global
  {
    assert FirstPrefix([]) == None;
    hide LearnAll, FirstPrefix, WithEui64;
    if ras != [] {
      var front := ras[..|ras| - 1];
      GlobalAddressIsSetOnce(l, mac, front, if k < |ras| then k else 0);
      LearnsFirstPrefix(Advertised(l, mac, front), mac, ras[|ras| - 1]);
      FirstPrefixOfSum(Flatten(front), ras[|ras| - 1]);
      if FirstPrefix(Flatten(front)).Some? { Eui64IsNotZero(FirstPrefix(Flatten(front)).value, mac); }
      if k < |ras| { assert ras[..k] == front[..k]; } else { assert ras[..k] == ras; }
    }
  }

  // The address learned over any run, byte by byte: the 64 bits of the prefix, and then the MAC
  // address with ff fe in the middle and its universal/local bit, and no other, inverted.
  lemma GlobalAddressBytes(l: Learned, mac: Mac, ras: seq<seq<Opt>>)
    requires l.global == ZERO_ADDR && FirstPrefix(Flatten(ras)).Some?
    ensures var g, p := Advertised(l, mac, ras).global, FirstPrefix(Flatten(ras)).value;
            && g[..8] == p[..8]
            && g[8] / 4 == mac[0] / 4 && g[8] / 2 % 2 != mac[0] / 2 % 2 && g[8] % 2 == mac[0] % 2
            && g[9] == mac[1] && g[10] == mac[2] && g[11] == 0xff && g[12] == 0xfe
            && g[13] == mac[3] && g[14] == mac[4] && g[15] == mac[5]
  {
    GlobalAddressIsSetOnce(l, mac, ras, 0);
    hide Advertised, FirstPrefix, Flatten;
    Eui64Bytes(FirstPrefix(Flatten(ras)).value, mac);
  }

  lemma Eui64Bytes(p: Addr, mac: Mac)
    ensures var g := WithEui64(p, mac);
            && g[..8] == p[..8]
            && g[8] / 4 == mac[0] / 4 && g[8] / 2 % 2 != mac[0] / 2 % 2 && g[8] % 2 == mac[0] % 2
            && g[9] == mac[1] && g[10] == mac[2] && g[11] == 0xff && g[12] == 0xfe
            && g[13] == mac[3] && g[14] == mac[4] && g[15] == mac[5]
  {
  }

  // ----- echo

  function EchoReply(n: Node, b: Image, beyond: Beyond): Memory {
    Finish(Put(PrepareReply(n, b), 54, [TYPE_ECHO_REPLY, 0]) + beyond)
  }

  // The identifier, sequence number and data of the request come back unchanged, wherever its length
  // field leads.
  lemma EchoReplyEchoes(n: Node, b: Image, beyond: Beyond)
    requires IsIPv6(b) && PayloadLength(b) >= 4
    ensures var m, r := b + beyond, EchoReply(n, b, beyond);
            && Fits(r) && IsValid(r) && PayloadLength(r) == PayloadLength(b)
            && Protocol(r) == 58 && r[54] == 129 && r[55] == 0 && r[21] == 64 && EtherSource(r) == n.mac
            && (forall i :: 58 <= i < HEADERS + PayloadLength(b) ==> r[i] == m[i])
            && Destination(r) == Source(b) && EtherDestination(r) == EtherSource(b)
  {
    hide ChecksumOf, Put, IsValid, Finish, PrepareReply;
    ReplyHeaders(n, b);
    var p := PrepareReply(n, b);
    var z := Put(p, 54, [TYPE_ECHO_REPLY, 0]);
    assert Destination(z) == Destination(p) && EtherDestination(z) == EtherDestination(p);
    var m: Memory := z + beyond;
    assert Destination(m) == Destination(z) && EtherDestination(m) == EtherDestination(z);
    assert EtherSource(z) == EtherSource(p) && EtherSource(m) == EtherSource(z);
    FinishIsValid(m);
  }

  // ----- error replies

  const ERROR_MAX := 538

  // What part of the offending packet, from its IPv6 header on, is sent back: a 16-bit sum.
  function Quoted(b: Image): nat { Min(U16(40 + PayloadLength(b)), ERROR_MAX) }

  function ErrorBody(n: Node, b: Image, type_: u8, code: u8): Image {
    var b1 := PrepareReply(n, Put(b, 62, b[14..14 + Quoted(b)]));
    var b2 := Put(SetPayloadLength(b1, 8 + Quoted(b)), 54, [type_, code]);
    Put(b2, 58, if type_ == TYPE_PARAM_PROB then [0, 0, 0, 6] else [0, 0, 0, 0])
  }

  function ErrorReply(n: Node, b: Image, type_: u8, code: u8): Image {
    Finish(ErrorBody(n, b, type_, code))
  }

  lemma ErrorBodyQuotes(n: Node, b: Image, type_: u8, code: u8)
    ensures var r := ErrorBody(n, b, type_, code);
            && PayloadLength(r) == 8 + Quoted(b) && r[54] == type_ && r[55] == code && r[21] == 64
            && r[58..62] == (if type_ == 4 then [0, 0, 0, 6] else [0, 0, 0, 0])
            && (forall i :: 12 <= i < 15 ==> r[i] == b[i])
            && (forall i :: 14 <= i < 14 + Quoted(b) ==> r[i + 48] == b[i])
            && Destination(r) == Source(b) && EtherDestination(r) == EtherSource(b) && EtherSource(r) == n.mac
  {
    hide PrepareReply, Put;
    var b0 := Put(b, 62, b[14..14 + Quoted(b)]);
    var b1 := PrepareReply(n, b0);
    ReplyHeaders(n, b0);
    assert Source(b0) == Source(b) && EtherSource(b0) == EtherSource(b);
    var r := ErrorBody(n, b, type_, code);
    assert forall i :: 62 <= i < SIZE || 0 <= i < 18 || 20 <= i < 54 ==> r[i] == b1[i];
    assert Destination(r) == Destination(b1) && EtherDestination(r) == EtherDestination(b1)
        && EtherSource(r) == EtherSource(b1);
    forall i | 14 <= i < 14 + Quoted(b) ensures r[i + 48] == b[i] {
      assert b0[i + 48] == b[14..14 + Quoted(b)][i - 14];
    }
  }

  // The move and the headers written after it leave the quoted bytes alone, the frame fits the
  // buffer, verifies, and goes back to where the packet came from. As much of the packet is quoted
  // as there is room for, unless its length field is so large that the sum wraps.
  lemma ErrorReplyQuotes(n: Node, b: Image, type_: u8, code: u8)
    requires IsIPv6(b)
    ensures var r := ErrorReply(n, b, type_, code);
            && Fits(r) && IsValid(r) && PayloadLength(r) == 8 + Quoted(b)
            && |FrameOf(r)| == 62 + Quoted(b) <= SIZE
            && Quoted(b) == (if PayloadLength(b) < 65496 then Min(40 + PayloadLength(b), 538)
                             else PayloadLength(b) - 65496)
            && FrameOf(r)[62..] == b[14..14 + Quoted(b)]
            && Destination(r) == Source(b) && EtherDestination(r) == EtherSource(b) && EtherSource(r) == n.mac
            && r[54] == type_ && r[55] == code && Protocol(r) == PROTO_ICMP6 && r[21] == 64
            && r[58..62] == (if type_ == 4 then [0, 0, 0, 6] else [0, 0, 0, 0])
  {
    hide ChecksumOf, IsValid, ErrorBody, Finish;
    ErrorBodyQuotes(n, b, type_, code);
    FinishIsValid(ErrorBody(n, b, type_, code));
    var r := ErrorReply(n, b, type_, code);
    assert r[58..62] == ErrorBody(n, b, type_, code)[58..62];
    forall i | 0 <= i < Quoted(b) ensures FrameOf(r)[62..][i] == b[14..14 + Quoted(b)][i] {
      assert r[i + 14 + 48] == b[i + 14];
    }
  }

  // ----- icmp6ProcessPacket()

  predicate Handles(n: Node, b: Image) {
    IsOurAddress(n, Destination(b)) != NotOurs && b[54] in {TYPE_NS, TYPE_ECHO, TYPE_RA}
  }

  // Solicitations, echo requests and router advertisements for one of our addresses, and no others.
  lemma HandlesExactly(n: Node, b: Image)
    ensures Handles(n, b) <==>
              IsOurAddress(n, Destination(b)) != NotOurs && (b[54] == 135 || b[54] == 128 || b[54] == 134)
    ensures Answers(n, b) <==> b[62..78] == n.linkLocal || b[62..78] == n.global
  {
  }

  // The options of a router advertisement are read, and the walk over them ends.
  ghost predicate Advertises(auto: bool, b: Image, beyond: Beyond)
  { auto && b[54] == TYPE_RA ==> WalkEnds(b + beyond, 70, WalkEnd(b, 70), None) }

  // What a node does with a packet it handles: what it knows, its buffer, whether that still holds
  // a received packet, and what it sends.
  ghost predicate Reacts(n: Node, auto: bool, known: Learned, b: Image, beyond: Beyond, received: bool,
                         known': Learned, b': Image, received': bool, sent: seq<seq<u8>>)
    requires Advertises(auto, b, beyond)
  {
    if b[54] == TYPE_RA then
      && known' == (if auto then LearnAll(known, n.mac, Seen(b + beyond, 70, WalkEnd(b, 70), None)) else known)
      && b' == b && received' == received && sent == []
    else
      && known' == known
      && if b[54] == TYPE_NS && !Answers(n, b) then b' == b && received' == received && sent == []
         else
           && (if b[54] == TYPE_NS then b' == Advertisement(n, b) else b' + beyond == EchoReply(n, b, beyond))
           && !received' && sent == [FrameOf(b' + beyond)]
  }

  // Nothing is learned without automatic configuration, and never from anything but a router.
  lemma LearnsFromRoutersOnly(n: Node, auto: bool, known: Learned, b: Image, beyond: Beyond, received: bool,
                              known': Learned, b': Image, received': bool, sent: seq<seq<u8>>)
    requires Advertises(auto, b, beyond)
    requires Reacts(n, auto, known, b, beyond, received, known', b', received', sent)
    ensures known' != known ==> auto && b[54] == 134
    ensures b[54] == 134 ==> b' == b && sent == []
  {
  }
}
