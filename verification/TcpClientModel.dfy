// What one call of TCPClient::havePacket() does to the connection record, as a function of the
// record, the two timer flags and the arrival, if any.

module TcpClientModel {
  import opened Bytes
  import opened TcpSegment

  const RTO: u8 := 3         // UIP_RTO
  const MAX_RTX: u8 := 8     // UIP_MAXRTX
  const MAX_SYN_RTX: u8 := 5 // UIP_MAXSYNRTX

  datatype State = Disconnected | WaitSynAck | Connected | LastAck

  // _appliFlags
  datatype Signals = Signals(ackData: bool, newData: bool, rexmit: bool, close: bool,
                             abort: bool, connected: bool, reset: bool)

  const QUIET := Signals(false, false, false, false, false, false, false)

  datatype Rtt = Rtt(sa: u8, sv: u8, rto: u8)

  datatype Conn = Conn(
    state: State, timedOut: bool,
    localPort: u16, remotePort: u16,
    localSeq: u32, remoteSeq: u32,
    unAck: u16,
    timer: u8, rtt: Rtt, nrtx: u8,
    signals: Signals)

  // What the shared buffer holds when havePacket() is called.
  datatype Arrival = Nothing | Other | FromPeer(seg: Segment)

  datatype Event = Event(tick: bool, idle: bool, arrival: Arrival)

  datatype Outcome = Outcome(conn: Conn, sent: Option<Segment>)

  // ----- connect() and send()

  function Connect(c: Conn, isn: u32): (o: Outcome) {
    var c' := c.(state := WaitSynAck, timedOut := false, localPort := U16(c.localPort + 1),
                 localSeq := isn, remoteSeq := 0, unAck := 1,
                 timer := RTO, rtt := Rtt(0, 16, RTO), nrtx := 0);
    Outcome(c', Some(Reply(c', SYN)))
  }

  // `flags` are whatever the header in the buffer holds: send() does not set them.
  function SendData(c: Conn, flags: Flags, data: seq<u8>): Outcome
    requires |data| < 0x1_0000
  {
    var seg := Reply(c, flags).(len := |data|, data := data);
    if c.signals.rexmit then Outcome(c, Some(seg))
    else Outcome(c.(unAck := U16(c.unAck + |data|), timer := c.rtt.rto, nrtx := 0), Some(seg))
  }

  // ----- havePacket()

  function Call(c: Conn, ev: Event): Outcome {
    var c0 := c.(signals := QUIET.(reset := ev.idle));
    if c.timedOut then Outcome(c0.(state := Disconnected, timedOut := false), None)
    else if c.state == Disconnected then Outcome(c0, None)
    else Process(Clocked(c0, ev.tick), ev.arrival)
  }

  function Clocked(c: Conn, tick: bool): Conn {
    if tick && c.unAck > 0 then c.(timer := U8(c.timer - 1)) else c
  }

  function Process(c: Conn, arrival: Arrival): Outcome {
    match arrival
    case Nothing => CheckRetransmit(c)
    case Other => CheckRetransmit(c)
    case FromPeer(seg) =>
      if seg.sourcePort != c.remotePort then CheckRetransmit(c)
      else if seg.destinationPort == c.localPort then Found(c, seg)
      else if seg.flags.syn then CheckRetransmit(c)
      else Outcome(c, Reset(c, seg))
  }

  // What the call hands to the application: true, and these bytes.
  function Delivered(o: Outcome, ev: Event): seq<u8> {
    if o.conn.signals.newData && ev.arrival.FromPeer? then ev.arrival.seg.data else []
  }

  // Every segment the client builds for its own connection carries its two counters.
  function Reply(c: Conn, flags: Flags): Segment {
    Empty(c.localPort, c.remotePort, c.localSeq, c.remoteSeq, flags)
  }

  // The reset is built from the received header. Its destination port is stored without htons.
  function Reset(c: Conn, seg: Segment): Option<Segment> {
    if seg.flags.rst then None
    else Some(Empty(seg.destinationPort, Swap16(c.remotePort), seg.ackNum, U32(seg.seqNum + 1), RST_ACK))
  }

  // A segment for this connection.
  function Found(c: Conn, seg: Segment): Outcome {
    if seg.flags.rst then
      Outcome(c.(state := Disconnected, signals := QUIET.(abort := true)), None)
    else if Unexpected(c, seg) then Outcome(c, Some(Reply(c, ACK)))
    else
      var a := AckTest(c, seg);
      match c.state
      case WaitSynAck => InWaitSynAck(a, seg)
      case Connected => InConnected(a, seg)
      case LastAck =>
        if a.signals.ackData then Outcome(a.(state := Disconnected, signals := QUIET.(close := true)), None)
        else CheckRetransmit(a)
      case Disconnected => Outcome(a, None)
  }

  function InWaitSynAck(a: Conn, seg: Segment): Outcome {
    if a.signals.ackData && (seg.flags.syn || seg.flags.ack) then
      var c' := a.(state := Connected, remoteSeq := U32(seg.seqNum + 1), signals := QUIET.(connected := true));
      Outcome(c', Some(Reply(c', ACK)))
    else
      Outcome(a.(state := Disconnected, signals := QUIET.(abort := true)), Reset(a, seg))
  }

  function InConnected(a: Conn, seg: Segment): Outcome {
    if seg.flags.fin then
      if a.unAck > 0 then CheckRetransmit(a)
      else
        var c' := a.(state := LastAck, unAck := 1, nrtx := 0,
                     remoteSeq := U32(a.remoteSeq + seg.len + 1),
                     signals := a.signals.(close := true, newData := a.signals.newData || seg.len > 0));
        Outcome(c', Some(Reply(c', FIN_ACK)))
    else if seg.len > 0 then
      var c' := a.(remoteSeq := U32(a.remoteSeq + seg.len), signals := a.signals.(newData := true));
      Outcome(c', Some(Reply(c', ACK)))
    else CheckRetransmit(a)
  }

  // It occupies sequence space, but not the next byte of it.
  predicate Unexpected(c: Conn, seg: Segment) {
    !(c.state == WaitSynAck && (seg.flags.syn || seg.flags.ack)) &&
    (seg.len > 0 || seg.flags.fin) && seg.seqNum != c.remoteSeq
  }

  // Only an acknowledgement of everything outstanding counts; it is an RTT sample unless the
  // segment was sent more than once.
  function AckTest(c: Conn, seg: Segment): Conn {
    if seg.flags.ack && c.unAck > 0 && seg.ackNum == U32(c.localSeq + c.unAck) then
      var rtt := if c.nrtx == 0 then Measure(c.rtt, c.timer) else c.rtt;
      c.(localSeq := U32(c.localSeq + c.unAck), unAck := 0, rtt := rtt, timer := rtt.rto,
         signals := QUIET.(ackData := true))
    else c
  }

  // Van Jacobson's estimator in 8-bit arithmetic, `m` being a signed char.
  function Measure(e: Rtt, timer: u8): Rtt {
    var err := S8(S8(e.rto - timer) - e.sa / 8);
    var sa := U8(e.sa + err);
    var mag := if err < 0 then S8(-err) else err;
    var sv := U8(e.sv + S8(mag - e.sv / 4));
    Rtt(sa, sv, U8(sa / 8 + sv))
  }

  // The timeout doubles with each repetition, four times at most.
  function Backoff(nrtx: u8): u8 {
    match nrtx case 0 => 3 case 1 => 6 case 2 => 12 case 3 => 24 case _ => 48
  }

  function Cap(state: State): u8 { if state == WaitSynAck then MAX_SYN_RTX else MAX_RTX }

  function CheckRetransmit(c: Conn): Outcome {
    if c.unAck == 0 || c.timer != 0 then Outcome(c, None)
    else
      var b := c.(timer := Backoff(c.nrtx));
      if c.nrtx == MAX_RTX || c.nrtx == Cap(c.state) then
        Outcome(b.(timedOut := true), Some(Reply(c, RST_ACK)))
      else
        var r := b.(nrtx := U8(c.nrtx + 1));
        match c.state
        case WaitSynAck => Outcome(r, Some(Reply(c, SYN)))
        case Connected => Outcome(r.(signals := c.signals.(rexmit := true)), None)
        case LastAck => Outcome(r, Some(Reply(c, FIN_ACK)))
        case Disconnected => Outcome(r, None)
  }

  // The retransmission check never touches the sequence numbers, and what it sends is a SYN, a
  // FIN or a reset with the connection's own numbers.
  lemma RetransmitKeeps(c: Conn)
    ensures var o := CheckRetransmit(c);
            && o.conn.state == c.state && o.conn.unAck == c.unAck && o.conn.rtt == c.rtt
            && o.conn.localSeq == c.localSeq && o.conn.remoteSeq == c.remoteSeq
            && o.conn.localPort == c.localPort && o.conn.remotePort == c.remotePort
            && o.conn.signals.newData == c.signals.newData
            && (o.sent.Some? ==> var s := o.sent.value;
                  && s == Reply(c, s.flags) && s.flags in {SYN, FIN_ACK, RST_ACK}
                  && (s.flags == SYN ==> c.state == WaitSynAck)
                  && (s.flags == FIN_ACK ==> c.state == LastAck))
  {
  }
}
