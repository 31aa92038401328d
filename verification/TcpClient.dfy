// TCPClient (src/TCPClient.cpp): the class, proved against TcpClientModel. Each goto label of
// havePacket() that several branches share is a method here.

module TcpClient {
  import opened Bytes
  import opened TcpSegment
  import opened TcpClientModel

  const PROTO_TCP: u8 := 6
  const MIN_HEADER: u8 := 0x50       // dataOffset of a 20-byte header
  const TRANSMIT_HEADER: u8 := 0x60  // dataOffset of a header with the MSS option
  const WINDOW: u16 := 490           // TCP_WINDOW_SIZE
  const BODY_SIZE := 526             // what the 600-byte buffer has room for behind 74 header bytes

  // The packet in EtherSia's only buffer, its TCP header decoded. `wire` collects what was sent.
  class PacketBuffer {
    var received: bool   // _bufferContainsReceived
    var ipPair: bool     // from the remote address to our link-local address
    var protocol: u8
    var ipLength: u16
    var sourcePort: u16
    var destinationPort: u16
    var seqNum: u32
    var ackNum: u32
    var dataOffset: u8
    var flags: Flags
    var body: seq<u8>    // options and data: all bytes behind the 20 fixed header bytes
    var wire: seq<Segment>

    ghost predicate Valid()
      reads this`body
    { |body| == BODY_SIZE }

    function HeaderLength(): int
      reads this
    { dataOffset / 0x10 * 4 }

    function PayloadLength(): u16
      reads this
    { U16(ipLength - HeaderLength()) }

    function Payload(): seq<u8>
      reads this
    {
      var from := HeaderLength() - 20;
      if PayloadLength() == 0 then []
      else if 0 <= from && from + PayloadLength() <= |body| then body[from..from + PayloadLength()] else []
    }

    function View(): Segment
      reads this
    { Segment(sourcePort, destinationPort, seqNum, ackNum, flags, PayloadLength(), Payload()) }

    function InBuffer(): Arrival
      reads this
    {
      if !received then Nothing
      else if !ipPair || protocol != PROTO_TCP then Other
      else FromPeer(View())
    }

    method Send()
      modifies this`received, this`wire
      ensures !received && wire == old(wire) + [old(View())]
    {
      received, wire := false, wire + [View()];
    }
  }

  // Only what has been received, from our peer to us, with TCP inside, is looked at.
  lemma InBufferIs(packet: PacketBuffer)
    ensures packet.InBuffer().FromPeer? <==> packet.received && packet.ipPair && packet.protocol == 6
    ensures packet.InBuffer().FromPeer? ==> packet.InBuffer().seg == packet.View()
    ensures packet.InBuffer().Nothing? <==> !packet.received
  {
  }

  function OptSeq<T>(o: Option<T>): seq<T> { match o case None => [] case Some(x) => [x] }

  class TCPClient {
    const packet: PacketBuffer
    var state: State
    var timedOut: bool
    var localPort: u16
    var remotePort: u16
    var localSeqNum: u32
    var remoteSeqNum: u32
    var unAckLen: u16
    var timer: u8
    var rto: u8
    var sa: u8
    var sv: u8
    var nrtx: u8
    var appliFlags: Signals

    constructor (packet: PacketBuffer)
      ensures this.packet == packet && state == Disconnected && !timedOut
    {
      this.packet := packet;
      state, timedOut := Disconnected, false;
    }

    function Snapshot(): Conn
      reads this
    {
      Conn(state, timedOut, localPort, remotePort, localSeqNum, remoteSeqNum, unAckLen, timer,
           Rtt(sa, sv, rto), nrtx, appliFlags)
    }

    method Open(isn: u32)
      requires packet.Valid()
      modifies this, packet
      ensures packet.Valid()
      ensures Snapshot() == Connect(old(Snapshot()), isn).conn
      ensures packet.wire == old(packet.wire) + OptSeq(Connect(old(Snapshot()), isn).sent)
    {
      StartConnection(isn);
      packet.flags := SYN;
      ghost var c, none := Snapshot(), packet.body[4..4];
      SendInternal(0);
      assert none == [];
      assert SendData(c, SYN, none).sent == Some(Reply(c, SYN));
    }

    method StartConnection(isn: u32)
      modifies this
      ensures Snapshot() == Connect(old(Snapshot()), isn).conn
    {
      hide Reply;
      localSeqNum := isn;
      remoteSeqNum := 0;
      localPort := U16(localPort + 1);
      unAckLen := 1;
      rto := RTO;
      timer := rto;
      sa, sv := 0, 16;
      nrtx := 0;
      state, timedOut := WaitSynAck, false;
    }

    method HavePacket(tick: bool, idle: bool) returns (newData: bool)
      requires packet.Valid()
      modifies this, packet
      ensures packet.Valid()
      ensures var o := Call(old(Snapshot()), Event(tick, idle, old(packet.InBuffer())));
              && Snapshot() == o.conn
              && packet.wire == old(packet.wire) + OptSeq(o.sent)
              && newData == o.conn.signals.newData
      // The blank reply leaves the delivered bytes in place, but not the fields that locate them.
      ensures newData ==>
                packet.body == old(packet.body) && packet.dataOffset == MIN_HEADER && packet.PayloadLength() == 0
    {
      hide Process;
      appliFlags := QUIET.(reset := idle);
      if state == Disconnected && !timedOut { return false; }
      if timedOut {
        state, timedOut := Disconnected, false;
        return false;
      }
      if tick && unAckLen > 0 {
        timer := U8(timer - 1);
      }
      ProcessArrival();
      newData := appliFlags.newData;
    }

    method ProcessArrival()
      requires packet.Valid() && !appliFlags.newData
      modifies this, packet
      ensures packet.Valid()
      ensures var o := Process(old(Snapshot()), old(packet.InBuffer()));
              Snapshot() == o.conn && packet.wire == old(packet.wire) + OptSeq(o.sent)
      ensures appliFlags.newData ==>
                packet.body == old(packet.body) && packet.dataOffset == MIN_HEADER && packet.PayloadLength() == 0
    {
      hide Found, CheckRetransmit;
      if !packet.received || !packet.ipPair || packet.protocol != PROTO_TCP || packet.sourcePort != remotePort {
        CheckForRetransmit();
      } else if packet.destinationPort == localPort {
        HandleFound();
      } else if packet.flags.syn {
        CheckForRetransmit();
      } else {
        SendReset();
      }
    }

    // found:
    method HandleFound()
      requires packet.Valid() && !appliFlags.newData
      modifies this, packet
      ensures packet.Valid()
      ensures var o := Found(old(Snapshot()), old(packet.View()));
              Snapshot() == o.conn && packet.wire == old(packet.wire) + OptSeq(o.sent)
      ensures appliFlags.newData ==>
                packet.body == old(packet.body) && packet.dataOffset == MIN_HEADER && packet.PayloadLength() == 0
    {
      hide CheckRetransmit, InWaitSynAck, InConnected, Reset;
      var flags := packet.flags;
      if flags.rst {
        state, appliFlags := Disconnected, QUIET.(abort := true);
        return;
      }
      if !(state == WaitSynAck && (flags.syn || flags.ack)) {
        if packet.PayloadLength() > 0 || flags.fin {
          if packet.seqNum != remoteSeqNum {
            SendNoDataReply(ACK);
            return;
          }
        }
      }
      TestAck();
      match state
      case WaitSynAck =>
        HandleWaitSynAck();
      case Connected =>
        HandleConnected();
      case LastAck =>
        if appliFlags.ackData {
          state, appliFlags := Disconnected, QUIET.(close := true);
        } else {
          CheckForRetransmit();
        }
      case Disconnected =>
    }

    // "ACKING TEST"
    method TestAck()
      modifies this
      ensures Snapshot() == AckTest(old(Snapshot()), packet.View())
    {
      if packet.flags.ack && unAckLen > 0 {
        if packet.ackNum == U32(localSeqNum + unAckLen) {
          localSeqNum := U32(localSeqNum + unAckLen);
          if nrtx == 0 {
            UpdateRtt();
          }
          timer := rto;
          unAckLen := 0;
          appliFlags := QUIET.(ackData := true);
        }
      }
    }

    method HandleWaitSynAck()
      requires packet.Valid() && state == WaitSynAck
      modifies this, packet
      ensures packet.Valid() && !appliFlags.newData
      ensures var o := InWaitSynAck(old(Snapshot()), old(packet.View()));
              Snapshot() == o.conn && packet.wire == old(packet.wire) + OptSeq(o.sent)
    {
      if appliFlags.ackData && (packet.flags.syn || packet.flags.ack) {
        state := Connected;
        remoteSeqNum := U32(packet.seqNum + 1);
        appliFlags := QUIET.(connected := true);
        SendNoDataReply(ACK);
      } else {
        state, appliFlags := Disconnected, QUIET.(abort := true);
        SendReset();
      }
    }

    method HandleConnected()
      requires packet.Valid() && state == Connected && !appliFlags.newData
      modifies this, packet
      ensures packet.Valid()
      ensures var o := InConnected(old(Snapshot()), old(packet.View()));
              Snapshot() == o.conn && packet.wire == old(packet.wire) + OptSeq(o.sent)
      ensures appliFlags.newData ==>
                packet.body == old(packet.body) && packet.dataOffset == MIN_HEADER && packet.PayloadLength() == 0
    {
      hide CheckRetransmit, Reply;
      if packet.flags.fin {
        if unAckLen > 0 {
          CheckForRetransmit();
        } else {
          remoteSeqNum := U32(remoteSeqNum + packet.PayloadLength() + 1);
          appliFlags := appliFlags.(close := true);
          if packet.PayloadLength() > 0 {
            appliFlags := appliFlags.(newData := true);
          }
          unAckLen := 1;
          state := LastAck;
          nrtx := 0;
          SendNoDataReply(FIN_ACK);
        }
      } else if packet.PayloadLength() > 0 {
        appliFlags := appliFlags.(newData := true);
        remoteSeqNum := U32(remoteSeqNum + packet.PayloadLength());
        SendNoDataReply(ACK);
      } else {
        CheckForRetransmit();
      }
    }

    method UpdateRtt()
      modifies this`sa, this`sv, this`rto
      ensures Rtt(sa, sv, rto) == Measure(Rtt(old(sa), old(sv), old(rto)), timer)
    {
      hide S8, U8;
      var m := S8(rto - timer);
      m := S8(m - sa / 8);
      sa := U8(sa + m);
      if m < 0 { m := S8(-m); }
      m := S8(m - sv / 4);
      sv := U8(sv + m);
      rto := U8(sa / 8 + sv);
    }

    // check_for_retransmit:
    method CheckForRetransmit()
      requires packet.Valid()
      modifies this`timer, this`timedOut, this`nrtx, this`appliFlags, packet
      ensures packet.Valid() && appliFlags.newData == old(appliFlags.newData)
      ensures var o := CheckRetransmit(old(Snapshot()));
              Snapshot() == o.conn && packet.wire == old(packet.wire) + OptSeq(o.sent)
    {
      if unAckLen > 0 && timer == 0 {
        timer := Backoff(nrtx);
        if nrtx == MAX_RTX || (state == WaitSynAck && nrtx == MAX_SYN_RTX) {
          timedOut := true;
          packet.flags := RST_ACK;
          packet.dataOffset := MIN_HEADER;
          SendNoData();
          return;
        }
        nrtx := U8(nrtx + 1);
        match state
        case WaitSynAck =>
          packet.flags := SYN;
          packet.dataOffset := TRANSMIT_HEADER;
          SendNoData();
        case Connected =>
          packet.flags := ACK;
          appliFlags := appliFlags.(rexmit := true);
        case LastAck =>
          packet.flags := FIN_ACK;
          packet.dataOffset := MIN_HEADER;
          SendNoData();
        case Disconnected =>
      }
    }

    // tcp_send_ack: and tcp_send_nodata_reply:
    method SendNoDataReply(flags: Flags)
      requires packet.Valid()
      modifies packet
      ensures packet.Valid() && packet.body == old(packet.body)
      ensures packet.dataOffset == MIN_HEADER && packet.PayloadLength() == 0
      ensures packet.wire == old(packet.wire) + [Reply(Snapshot(), flags)]
    {
      packet.flags := flags;
      packet.dataOffset := MIN_HEADER;
      SendNoData();
    }

    // tcp_send_nodata:
    method SendNoData()
      requires packet.Valid() && packet.dataOffset in {MIN_HEADER, TRANSMIT_HEADER}
      modifies packet
      ensures packet.Valid() && packet.dataOffset == old(packet.dataOffset) && packet.PayloadLength() == 0
      ensures packet.dataOffset == MIN_HEADER ==> packet.body == old(packet.body)
      ensures packet.wire == old(packet.wire) + [Reply(Snapshot(), old(packet.flags))]
    {
      packet.ipLength := packet.HeaderLength();
      FillTCPHeader();
      packet.Send();
    }

    // reset:
    method SendReset()
      requires packet.Valid()
      modifies packet
      ensures packet.Valid()
      ensures packet.wire == old(packet.wire) + OptSeq(Reset(Snapshot(), old(packet.View())))
    {
      if packet.flags.rst { return; }
      packet.flags := RST_ACK;
      packet.protocol := PROTO_TCP;
      packet.sourcePort := packet.destinationPort;
      packet.destinationPort := Swap16(remotePort);
      var tmp32: int := packet.seqNum;
      packet.seqNum := packet.ackNum;
      packet.ackNum := U32(tmp32 + 1);
      packet.dataOffset := MIN_HEADER;
      packet.ipLength := packet.HeaderLength();
      packet.Send();
    }

    method FillTCPHeader()
      requires packet.Valid()
      modifies packet`destinationPort, packet`sourcePort, packet`seqNum, packet`ackNum, packet`protocol, packet`body
      ensures packet.destinationPort == remotePort && packet.sourcePort == localPort
      ensures packet.seqNum == localSeqNum && packet.ackNum == remoteSeqNum && packet.protocol == PROTO_TCP
      ensures packet.body == if packet.dataOffset / 0x10 > 5 then [2, 4] + Word16(WINDOW) + old(packet.body)[4..]
                             else old(packet.body)
    {
      packet.destinationPort := remotePort;
      packet.sourcePort := localPort;
      packet.seqNum := localSeqNum;
      packet.ackNum := remoteSeqNum;
      packet.protocol := PROTO_TCP;
      if packet.dataOffset / 0x10 > 5 {
        packet.body := [2, 4] + Word16(WINDOW) + packet.body[4..];
      }
    }

    // send(length): the application has put its bytes behind the option.
    method SendInternal(length: u16)
      requires packet.Valid() && length + 4 <= BODY_SIZE
      modifies this`unAckLen, this`timer, this`nrtx, packet
      ensures packet.Valid()
      ensures var o := SendData(old(Snapshot()), old(packet.flags), old(packet.body)[4..4 + length]);
              Snapshot() == o.conn && packet.wire == old(packet.wire) + OptSeq(o.sent)
    {
      SendBody(length);
      if !appliFlags.rexmit {
        unAckLen := U16(unAckLen + length);
        timer := rto;
        nrtx := 0;
      }
    }

    method SendBody(length: u16)
      requires packet.Valid() && length + 4 <= BODY_SIZE
      modifies packet
      ensures packet.Valid()
      ensures var data := old(packet.body)[4..4 + length];
              packet.wire == old(packet.wire) + [Reply(Snapshot(), old(packet.flags)).(len := length, data := data)]
    {
      packet.dataOffset := TRANSMIT_HEADER;
      packet.ipLength := packet.HeaderLength() + length;
      BehindPrefix([2, 4] + Word16(WINDOW), packet.body, 4, 4 + length);
      FillTCPHeader();
      packet.Send();
    }
  }
}
