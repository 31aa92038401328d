// EtherSia (src/EtherSia.cpp, src/icmp6.cpp): one buffer for everything that comes in and goes
// out. `wire` collects the frames handed to sendFrame().

module EtherSia {
  import opened Bytes
  import opened Checksum
  import opened Frame
  import opened NodeModel
  import opened Icmp6

  class EtherSia {
    const buffer: array<u8>
    var beyond: Beyond  // the memory behind the buffer, which is not ours
    var localMac: Mac
    var linkLocalAddress: Addr
    var globalAddress: Addr
    var routerMac: Mac
    var dnsServerAddress: Addr
    var autoConfigurationEnabled: bool
    var bufferContainsReceived: bool
    var wire: seq<seq<u8>>

    constructor (mac: Mac, beyond: Beyond)
      ensures Valid() && fresh(buffer) && localMac == mac && autoConfigurationEnabled && this.beyond == beyond
    {
      buffer := new u8[SIZE];
      this.beyond := beyond;
      localMac := mac;
      autoConfigurationEnabled := true;
    }

    ghost predicate Valid()
      reads this
    { buffer.Length == SIZE }

    ghost function Buf(): Image
      requires Valid()
      reads this, buffer
    { buffer[..] }

    // What a pointer into the buffer can reach.
    ghost function Mem(): Memory
      requires Valid()
      reads this, buffer
    { buffer[..] + beyond }

    function Self(): Node
      reads this`localMac, this`linkLocalAddress, this`globalAddress
    { Node(localMac, linkLocalAddress, globalAddress) }

    ghost function Known(): Learned
      reads this`routerMac, this`dnsServerAddress, this`globalAddress
    { Learned(routerMac, dnsServerAddress, globalAddress) }

    // memcpy into the buffer
    method Store(at: nat, x: seq<u8>)
      requires Valid() && at + |x| <= SIZE
      modifies buffer
      ensures Buf() == Put(old(Buf()), at, x)
    {
      CopyInto(buffer, at, x);
    }

    // memmove towards the end of the buffer, the areas overlapping
    method MoveUp(to: nat, from: nat, n: nat)
      requires Valid() && from <= to && to + n <= SIZE
      modifies buffer
      ensures Buf() == Put(old(Buf()), to, old(Buf())[from..from + n])
    {
      var i := n;
      while i > 0
        invariant 0 <= i <= n
        invariant forall j :: 0 <= j < SIZE ==>
                    buffer[j] == if to + i <= j < to + n then old(buffer[j - to + from]) else old(buffer[j])
      {
        i := i - 1;
        buffer[to + i] := buffer[from + i];
      }
      assert forall j :: 0 <= j < SIZE ==> Buf()[j] == Put(old(Buf()), to, old(Buf())[from..from + n])[j];
    }

    method CalculateChecksum() returns (c: u16)
      requires Valid()
      ensures c == ChecksumOf(Mem())
    {
      hide Words, Fold;
      var memory := buffer[..] + beyond;
      var len := Word(buffer[18], buffer[19]);
      var newsum := U16(len + buffer[20]);
      newsum := Chksum(newsum, memory, 22, 16);
      newsum := Chksum(newsum, memory, 38, 16);
      newsum := Chksum(newsum, memory, HEADERS, len);
      c := ONES - newsum;
    }

    method PacketIsValid() returns (valid: bool)
      requires Valid()
      ensures valid == IsValid(Mem())
    {
      hide ChecksumOf;
      if buffer[12] != 0x86 || buffer[13] != 0xdd { return false; }
      if buffer[14] / 0x10 != 6 { return false; }
      var c := CalculateChecksum();
      return c == 0;
    }

    method SetChecksum(at: nat)
      requires Valid() && HEADERS <= at < SIZE - 1
      modifies buffer
      ensures Mem() == Stamp(old(Mem()), at)
      ensures Fits(old(Buf())) ==> Buf() == Stamp(old(Buf()), at)
    {
      hide ChecksumOf;
      ghost var m := Mem();
      if Fits(Buf()) { StampInMemory(Buf(), beyond, at); }
      buffer[at], buffer[at + 1] := 0, 0;
      assert Mem() == m[at := 0][at + 1 := 0];
      var c := CalculateChecksum();
      buffer[at], buffer[at + 1] := c / 0x100, c % 0x100;
      assert Mem() == Stamp(m, at);
      assert Buf() == Mem()[..SIZE];
    }

    method PrepareSend()
      requires Valid()
      modifies this`bufferContainsReceived, buffer
      ensures !bufferContainsReceived && Buf() == NodeModel.PrepareSend(Self(), old(Buf()))
    {
      hide Put;
      bufferContainsReceived := false;
      ghost var b := Buf();
      Store(12, [0x86, 0xdd, 0x60, 0, 0, 0]);
      Store(21, [64]);
      InitKeeps(b);
      if (buffer[38] == 0xfe && buffer[39] == 0x80) || globalAddress == ZERO_ADDR {
        Store(22, linkLocalAddress);
      } else {
        Store(22, globalAddress);
      }
      Store(6, localMac);
    }

    method PrepareReply()
      requires Valid()
      modifies this`bufferContainsReceived, buffer
      ensures !bufferContainsReceived && Buf() == NodeModel.PrepareReply(Self(), old(Buf()))
    {
      hide Put;
      bufferContainsReceived := false;
      ghost var b := Buf();
      var source := if IsOurAddress(Self(), buffer[38..54]) == Global then globalAddress else linkLocalAddress;
      Store(21, [64]);
      assert Source(Buf()) == Source(b);
      Store(38, buffer[22..38]);
      Store(22, source);
      assert EtherSource(Buf()) == EtherSource(b);
      Store(0, buffer[6..12]);
      Store(6, localMac);
    }

    method Send()
      requires Valid()
      modifies this`bufferContainsReceived, this`wire
      ensures !bufferContainsReceived && wire == old(wire) + [FrameOf(Mem())]
      ensures Fits(Buf()) ==> wire == old(wire) + [FrameOf(Buf())]
    {
      hide ChecksumOf, Words;
      if Fits(Buf()) { FitsInMemory(Buf(), beyond); }
      bufferContainsReceived := false;
      wire := wire + [(buffer[..] + beyond)[..HEADERS + Word(buffer[18], buffer[19])]];
    }

    // ----- ICMPv6

    method Icmp6PacketSend()
      requires Valid()
      modifies this`bufferContainsReceived, this`wire, buffer
      ensures Mem() == Finish(old(Mem())) && !bufferContainsReceived && wire == old(wire) + [FrameOf(Mem())]
      ensures Fits(old(Buf())) ==>
                Buf() == Finish(old(Buf())) && Fits(Buf()) && wire == old(wire) + [FrameOf(Buf())]
    {
      hide Stamp;
      ghost var b, m := Buf(), Mem();
      buffer[20] := PROTO_ICMP6;
      assert Buf() == b[20 := PROTO_ICMP6] && Mem() == m[20 := PROTO_ICMP6];
      SetChecksum(56);
      Send();
    }

    method Icmp6SendNS(target: Addr, source: Addr)
      requires Valid()
      modifies this`bufferContainsReceived, this`wire, buffer
      ensures Buf() == Solicitation(Self(), old(Buf()), target, source) && Fits(Buf()) && !bufferContainsReceived
      ensures wire == old(wire) + [FrameOf(Buf())]
    {
      hide Put, NodeModel.PrepareSend, Finish, SolicitedNode, MulticastMac;
      Store(38, SolicitedNode(target));
      Store(0, MulticastMac(SolicitedNode(target)));
      PrepareSend();
      Store(22, source);
      Store(18, Word16(24));
      Store(21, [255]);
      Store(54, [TYPE_NS, 0]);
      Store(58, [0, 0, 0, 0] + target);
      Icmp6PacketSend();
    }

    method Icmp6NSReply()
      requires Valid()
      modifies this`bufferContainsReceived, this`wire, buffer
      ensures if Answers(Self(), old(Buf())) then
                && Buf() == Advertisement(Self(), old(Buf())) && Fits(Buf()) && !bufferContainsReceived
                && wire == old(wire) + [FrameOf(Mem())]
              else
                Buf() == old(Buf()) && wire == old(wire) && bufferContainsReceived == old(bufferContainsReceived)
    {
      hide Put, NodeModel.PrepareReply, Finish, IsOurAddress;
      var type_ := IsOurAddress(Self(), buffer[62..78]);
      if type_ != LinkLocal && type_ != Global {
        return;
      }
      PrepareReply();
      Store(21, [255]);
      Store(18, Word16(32));
      Store(54, [TYPE_NA, 0]);
      Store(58, [0x40, 0, 0, 0]);
      Store(78, [OPTION_TARGET_LINK, 1] + localMac);
      Icmp6PacketSend();
    }

    method Icmp6EchoReply()
      requires Valid()
      modifies this`bufferContainsReceived, this`wire, buffer
      ensures Mem() == EchoReply(Self(), old(Buf()), beyond) && !bufferContainsReceived
      ensures wire == old(wire) + [FrameOf(Mem())]
    {
      hide Put, NodeModel.PrepareReply, Finish;
      PrepareReply();
      Store(54, [TYPE_ECHO_REPLY, 0]);
      Icmp6PacketSend();
    }

    method Icmp6ErrorReply(type_: u8, code: u8)
      requires Valid()
      modifies this`bufferContainsReceived, this`wire, buffer
      ensures Buf() == ErrorReply(Self(), old(Buf()), type_, code) && Fits(Buf()) && !bufferContainsReceived
      ensures wire == old(wire) + [FrameOf(Buf())]
    {
      hide Put, Finish, NodeModel.PrepareReply;
      ghost var b := Buf();
      var payloadLen: u16 := U16(40 + Word(buffer[18], buffer[19]));
      if payloadLen > ERROR_MAX {
        payloadLen := ERROR_MAX;
      }
      assert payloadLen == Quoted(b);
      MoveUp(62, 14, payloadLen);
      PrepareReply();
      Store(18, Word16(8 + payloadLen));
      Store(54, [type_, code]);
      if type_ == TYPE_PARAM_PROB {
        Store(58, [0, 0, 0, 6]);
      } else {
        Store(58, [0, 0, 0, 0]);
      }
      Icmp6PacketSend();
    }

    method Icmp6ProcessRA()
      requires Valid()
      requires autoConfigurationEnabled ==> WalkEnds(Mem(), 70, WalkEnd(Buf(), 70), None)
      modifies this`routerMac, this`dnsServerAddress, this`globalAddress
      ensures Known() == if autoConfigurationEnabled
                         then LearnAll(old(Known()), localMac, Seen(Mem(), 70, WalkEnd(Buf(), 70), None))
                         else old(Known())
    {
      hide Learn, Seen, WalkEnds;
      var memory: Memory := buffer[..] + beyond;
      var remaining := S16(Word(memory[18], memory[19]) - 16);
      var ptr := 70;
      if !autoConfigurationEnabled { return; }
      ghost var end := WalkEnd(Buf(), 70);
      ghost var all := LearnAll(Known(), localMac, Seen(memory, ptr, end, None));
      while remaining > 0
        invariant (remaining == end - ptr || remaining <= 0 == end - ptr) && WalkEnds(memory, ptr, end, None)
        invariant LearnAll(Known(), localMac, Seen(memory, ptr, end, None)) == all
      {
        SeenTurn(memory, ptr, end, None);
        Icmp6ProcessOption(memory[ptr..ptr + 32]);
        remaining := remaining - 8 * (memory[ptr + 1] as int);
        ptr := ptr + 8 * (memory[ptr + 1] as int);
      }
      SeenEnd(memory, ptr, end, None);
    }

    method Icmp6ProcessOption(option: Opt)
      modifies this`routerMac, this`dnsServerAddress, this`globalAddress
      ensures Known() == Learn(old(Known()), localMac, option)
    {
      hide WithEui64;
      if option[0] == OPTION_SOURCE_LINK {
        routerMac := option[2..8];
      } else if option[0] == OPTION_PREFIX {
        Icmp6ProcessPrefix(option[2], option[3], option[16..32]);
      } else if option[0] == OPTION_DNS {
        dnsServerAddress := option[8..24];
      }
    }

    method Icmp6ProcessPrefix(prefixLength: u8, flags: u8, prefix: Addr)
      modifies this`globalAddress
      ensures globalAddress == if flags / 0x40 == 3 && prefixLength == 64 && old(globalAddress) == ZERO_ADDR
                               then WithEui64(prefix, localMac) else old(globalAddress)
    {
      if flags / 0x40 != 3 { return; }
      if prefixLength != 64 { return; }
      if globalAddress == ZERO_ADDR {
        globalAddress := WithEui64(prefix, localMac);
      }
    }

    method Icmp6ProcessNA(expected: Addr) returns (mac: Option<Mac>)
      requires Valid()
      requires Target(Buf()) == expected ==> WalkEnds(Mem(), 78, WalkEnd(Buf(), 78), Some(OPTION_TARGET_LINK))
      ensures mac.Some? <==> Target(Buf()) == expected
      ensures mac.Some? ==> Finds(Buf(), beyond, mac.value)
    {
      hide Seen, WalkEnds;
      var memory: Memory := buffer[..] + beyond;
      var remaining := S16(Word(memory[18], memory[19]) - 24);
      var ptr := 78;
      if buffer[62..78] != expected { return None; }
      ghost var end, stop := WalkEnd(Buf(), 78), Some(OPTION_TARGET_LINK);
      ghost var found := FirstTargetLink(Seen(memory, ptr, end, stop), EtherSource(Buf()));
      while remaining > 0
        invariant (remaining == end - ptr || remaining <= 0 == end - ptr) && WalkEnds(memory, ptr, end, stop)
        invariant FirstTargetLink(Seen(memory, ptr, end, stop), EtherSource(Buf())) == found
      {
        SeenTurn(memory, ptr, end, stop);
        if memory[ptr] == OPTION_TARGET_LINK {
          SliceOfSlice(memory, ptr, ptr + 32, 2, 8);
          return Some(memory[ptr + 2..ptr + 8]);
        }
        remaining := remaining - 8 * (memory[ptr + 1] as int);
        ptr := ptr + 8 * (memory[ptr + 1] as int);
      }
      SeenEnd(memory, ptr, end, stop);
      return Some(buffer[6..12]);
    }

    method Icmp6ProcessPacket() returns (handled: bool)
      requires Valid()
      requires Handles(Self(), Buf()) ==> Advertises(autoConfigurationEnabled, Buf(), beyond)
      modifies this`bufferContainsReceived, this`wire, this`routerMac, this`dnsServerAddress, this`globalAddress, buffer
      ensures old(wire) <= wire && handled == Handles(old(Self()), old(Buf()))
      ensures handled ==>
                Reacts(old(Self()), old(autoConfigurationEnabled),
                       old(Known()), old(Buf()), beyond, old(bufferContainsReceived),
                       Known(), Buf(), bufferContainsReceived, wire[|old(wire)|..])
      ensures !handled ==>
                && Buf() == old(Buf()) && wire == old(wire) && Known() == old(Known())
                && bufferContainsReceived == old(bufferContainsReceived)
    {
      hide Advertisement, EchoReply, Seen, WalkEnds, Answers;
      if IsOurAddress(Self(), buffer[38..54]) == NotOurs { return false; }
      match buffer[54]
      case 135 =>
        Icmp6NSReply();
        return true;
      case 128 =>
        Icmp6EchoReply();
        return true;
      case 134 =>
        Icmp6ProcessRA();
        return true;
      case _ =>
        return false;
    }

    // receivePacket() keeps a frame for this node that verifies.
    ghost predicate Accepted(frame: seq<u8>, b: Image)
      reads this
    { frame != [] && IsValid(b + beyond) && AcceptsEthernet(Self(), b) }

    // `frame` is what readFrame() has fetched, empty if there was none.
    method ReceivePacket(frame: seq<u8>) returns (len: nat)
      requires Valid() && |frame| <= SIZE
      requires var b := Received(Buf(), frame);
               Accepted(frame, b) && Protocol(b) == PROTO_ICMP6 && Handles(Self(), b) ==>
                 Advertises(autoConfigurationEnabled, b, beyond)
      modifies this`bufferContainsReceived, this`wire, this`routerMac, this`dnsServerAddress, this`globalAddress, buffer
      ensures old(wire) <= wire
      ensures var b, n := Received(old(Buf()), frame), old(Self());
              var accepted := old(Accepted(frame, Received(Buf(), frame)));
              if accepted && Protocol(b) == PROTO_ICMP6 && Handles(n, b) then
                len == 0 &&
                Reacts(n, old(autoConfigurationEnabled), old(Known()), b, beyond, true,
                       Known(), Buf(), bufferContainsReceived, wire[|old(wire)|..])
              else
                && len == (if accepted then |frame| else 0) && bufferContainsReceived == accepted
                && Buf() == b && wire == old(wire) && Known() == old(Known())
    {
      hide IsValid, Reacts, Advertises;
      Store(0, frame);
      if frame == [] {
        bufferContainsReceived := false;
        return 0;
      }
      var valid := PacketIsValid();
      if !valid || !AcceptsEthernet(Self(), buffer[..]) {
        bufferContainsReceived := false;
        return 0;
      }
      bufferContainsReceived := true;
      if buffer[20] == PROTO_ICMP6 {
        var handled := Icmp6ProcessPacket();
        if handled { return 0; }
      }
      len := |frame|;
    }
  }
}
