// TCPServer (src/TCPServer.cpp). It keeps no connection state: every reply is built from the
// header it answers.

module TcpServer {
  import opened Bytes
  import opened TcpSegment
  import opened TcpClient

  datatype Reaction = Ignored | Answered(reply: Segment) | Request

  // What havePacket() does with a segment; `random` is the initial sequence number it would pick.
  function React(port: u16, seg: Segment, random: u32): Reaction {
    if seg.destinationPort != port || seg.flags.rst then Ignored
    else if seg.flags.fin then Answered(Answer(port, seg, FIN_ACK, []))
    else if seg.flags.syn then Answered(Answer(port, seg.(ackNum := random), SYN_ACK, []))
    else if seg.len > 0 then Request
    else Ignored
  }

  function Answer(port: u16, seg: Segment, flags: Flags, data: seq<u8>): Segment
    requires |data| < 0x1_0000
  {
    Segment(port, seg.sourcePort, seg.ackNum, U32(seg.seqNum + (if seg.len == 0 then 1 else seg.len)),
            flags, |data|, data)
  }

  // The whole reaction, for every segment: other ports and resets are ignored; a FIN is answered by
  // FIN-ACK, before anything else; a SYN by SYN-ACK with a number of our own; data is for the
  // application. Every answer goes back under the number that was acknowledged, and acknowledges
  // what came, or one number if nothing did.
  lemma ReactsTo(port: u16, seg: Segment, random: u32)
    ensures var r := React(port, seg, random);
            var next := (seg.seqNum + (if seg.len == 0 then 1 else seg.len)) % 0x1_0000_0000;
            && (r.Answered? <==> seg.destinationPort == port && !seg.flags.rst && (seg.flags.fin || seg.flags.syn))
            && (r.Answered? ==> var s := r.reply;
                  && s.sourcePort == port && s.destinationPort == seg.sourcePort && s.len == 0 && s.data == []
                  && s.flags == Flags(!seg.flags.fin, true, seg.flags.fin, false, false)
                  && s.seqNum == (if seg.flags.fin then seg.ackNum else random) && s.ackNum == next)
            && (r.Request? <==> && seg.destinationPort == port && !seg.flags.rst && !seg.flags.fin && !seg.flags.syn
                                && seg.len > 0)
  {
  }

  class TCPServer {
    const packet: PacketBuffer
    const localPort: u16

    constructor (packet: PacketBuffer, localPort: u16)
      ensures this.packet == packet && this.localPort == localPort
    {
      this.packet, this.localPort := packet, localPort;
    }

    method HavePacket(random: u32) returns (request: bool)
      requires packet.Valid()
      modifies packet
      ensures packet.Valid()
      ensures var tcp := old(packet.received && packet.protocol == PROTO_TCP);
              var r := if tcp then React(localPort, old(packet.View()), random) else Ignored;
              && request == r.Request?
              && packet.wire == old(packet.wire) + (if r.Answered? then [r.reply] else [])
              // A request stays in the buffer for the application, its flags cleared.
              && (request ==> packet.View() == old(packet.View()).(flags := NO_FLAGS))
    {
      if !packet.received || packet.protocol != PROTO_TCP { return false; }
      if packet.destinationPort != localPort { return false; }
      if packet.flags.rst { return false; }
      if packet.flags.fin {
        packet.flags := FIN_ACK;
        SendInternal(0);
        return false;
      }
      if packet.flags.syn {
        packet.ackNum := random;
        packet.flags := SYN_ACK;
        SendInternal(0);
        return false;
      }
      if packet.PayloadLength() > 0 {
        packet.flags := NO_FLAGS;
        return true;
      }
      return false;
    }

    // sendReply(length): the application has put its bytes behind the option.
    method SendInternal(length: u16)
      requires packet.Valid() && length + 4 <= BODY_SIZE
      modifies packet
      ensures packet.Valid()
      ensures var flags := if old(packet.flags) == NO_FLAGS then FIN_PSH_ACK else old(packet.flags);
              packet.wire == old(packet.wire)
                             + [Answer(localPort, old(packet.View()), flags, old(packet.body)[4..4 + length])]
    {
      var seqNum: int := packet.ackNum;
      var ackNum: int := packet.seqNum;
      var receivedLen := packet.PayloadLength();
      if receivedLen == 0 { receivedLen := 1; }
      if packet.flags == NO_FLAGS { packet.flags := FIN_PSH_ACK; }
      packet.destinationPort := packet.sourcePort;
      packet.sourcePort := localPort;
      packet.seqNum := seqNum;
      packet.ackNum := U32(ackNum + receivedLen);
      packet.dataOffset := TRANSMIT_HEADER;
      BehindPrefix([2, 4] + Word16(WINDOW), packet.body, 4, 4 + length);
      packet.body := [2, 4] + Word16(WINDOW) + packet.body[4..];
      packet.ipLength := packet.HeaderLength() + length;
      packet.Send();
    }
  }
}
