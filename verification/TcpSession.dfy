// The client of this library with the server of this library.

module TcpSession {
  import opened Bytes
  import opened TcpSegment
  import opened TcpClientModel
  import opened TcpConservation
  import opened TcpServer
  import opened TcpDelivery

  // `reply` is what the server's application has to say if the segment is a request.
  function Serve(port: u16, reply: Payload, seg: Segment, random: u32): Option<Segment> {
    match React(port, seg, random)
    case Ignored => None
    case Answered(answer) => Some(answer)
    case Request => Some(Answer(port, seg, FIN_PSH_ACK, reply))
  }

  // ----- nothing lost

  // The call that finds the server's reply in the buffer.
  ghost function Arrives(clock: (bool, bool), reply: Option<Segment>): Event {
    Event(clock.0, clock.1, match reply case None => Nothing case Some(s) => FromPeer(s))
  }

  ghost predicate Waiting(c: Conn) { !c.timedOut && c.unAck > 0 }

  lemma AcceptsSynAck(c: Conn, ev: Event)
    requires Waiting(c) && c.state == WaitSynAck && ev.arrival.FromPeer?
    requires var s := ev.arrival.seg; Acks(c, s) && s.flags.syn
    ensures var o := Call(c, ev);
            && o.conn.state == Connected && o.conn.signals.connected && !o.conn.timedOut && !o.conn.signals.rexmit
            && o.conn.localPort == c.localPort && o.conn.remotePort == c.remotePort
            && o.conn.localSeq == U32(c.localSeq + c.unAck) && o.conn.unAck == 0
            && o.conn.remoteSeq == U32(ev.arrival.seg.seqNum + 1)
            && o.sent == Some(Reply(o.conn, ACK))
  {
    hide Measure, CheckRetransmit;
  }

  lemma AcceptsFin(c: Conn, ev: Event)
    requires Waiting(c) && c.state == Connected && ev.arrival.FromPeer?
    requires var s := ev.arrival.seg; Acks(c, s) && s.flags.fin && s.seqNum == c.remoteSeq
    ensures var o, s := Call(c, ev), ev.arrival.seg;
            && o.conn.state == LastAck && o.conn.signals.close && !o.conn.timedOut
            && o.conn.localPort == c.localPort && o.conn.remotePort == c.remotePort
            && o.conn.localSeq == U32(c.localSeq + c.unAck) && o.conn.unAck == 1
            && o.conn.remoteSeq == U32(c.remoteSeq + s.len + 1)
            && o.conn.signals.newData == (s.len > 0)
            && o.sent == Some(Reply(o.conn, FIN_ACK))
  {
    hide Measure, CheckRetransmit;
  }

  lemma AcceptsLastAck(c: Conn, ev: Event)
    requires Waiting(c) && c.state == LastAck && ev.arrival.FromPeer?
    requires var s := ev.arrival.seg; Acks(c, s) && s.seqNum == c.remoteSeq
    ensures var o := Call(c, ev);
            o.conn.state == Disconnected && o.conn.signals.close && !o.conn.signals.abort && o.sent == None
  {
    hide Measure, CheckRetransmit;
  }

  // SYN, SYN-ACK, ACK, request, FIN-reply, FIN-ACK, FIN-ACK: for all initial sequence numbers, all
  // request and reply lengths and any clock, every test passes, the client delivers exactly the
  // reply to its request, and the connection closes without an abort.
  lemma LosslessSession(c: Conn, isn: u32, request: Payload, reply: Payload, random: seq<u32>, clock: seq<(bool, bool)>)
    requires request != [] && |random| == 4 && |clock| == 3
    ensures var port := c.remotePort;
            var o1 := Connect(c, isn);
            var e2 := Arrives(clock[0], Serve(port, reply, o1.sent.value, random[0]));
            var o2 := Call(o1.conn, e2);
            var o3 := SendData(o2.conn, ACK, request);
            var e4 := Arrives(clock[1], Serve(port, reply, o3.sent.value, random[2]));
            var o4 := Call(o3.conn, e4);
            o4.sent.Some? &&
            var e5 := Arrives(clock[2], Serve(port, reply, o4.sent.value, random[3]));
            var o5 := Call(o4.conn, e5);
            && o2.conn.state == Connected && o2.conn.signals.connected
            && o2.sent.Some? && o2.sent.value.flags == ACK && Serve(port, reply, o2.sent.value, random[1]) == None
            && o4.conn.state == LastAck && o4.conn.signals.close && Delivered(o4, e4) == reply
            && o5.conn.state == Disconnected && o5.conn.signals.close && !o5.conn.signals.abort && o5.sent == None
  {
    hide Call;
    var port := c.remotePort;
    var o1 := Connect(c, isn);
    var e2 := Arrives(clock[0], Serve(port, reply, o1.sent.value, random[0]));
    AcceptsSynAck(o1.conn, e2);
    var o2 := Call(o1.conn, e2);
    var o3 := SendData(o2.conn, ACK, request);
    var e4 := Arrives(clock[1], Serve(port, reply, o3.sent.value, random[2]));
    AcceptsFin(o3.conn, e4);
    var o4 := Call(o3.conn, e4);
    var e5 := Arrives(clock[2], Serve(port, reply, o4.sent.value, random[3]));
    AcceptsLastAck(o4.conn, e5);
  }

  // ----- anything lost, repeated or reordered

  // `given` are the answers of the server's application to the request: it may hear it more than
  // once, and need not say the same each time. `delivered` are the replies that the client reports.
  datatype Session = Session(
    c: Conn,
    toServer: set<Segment>, toClient: set<Segment>,
    written: bool,
    given: set<seq<u8>>, delivered: seq<seq<u8>>)

  datatype Turn =
    | Poll(ev: Event)
    | Ask(flags: Flags)                       // the application sends, or resends, its request
    | ServerHears(s: Segment, random: u32, reply: Payload)

  // One request per connection; other segments may arrive if they are not of this connection.
  ghost predicate Possible(w: Session, t: Turn) {
    match t
    case Poll(ev) => ev.arrival.FromPeer? ==> ev.arrival.seg in w.toClient || !OwnPorts(w.c, ev.arrival.seg)
    case Ask(flags) => Legal(w.c, Write(flags, [])) && (w.written ==> w.c.signals.rexmit)
    case ServerHears(s, _, _) => s in w.toServer
  }

  ghost function SetOf(o: Option<Segment>): set<Segment> { match o case None => {} case Some(s) => {s} }

  ghost function Then(request: Payload, w: Session, t: Turn): Session {
    match t
    case Poll(ev) =>
      var o := Call(w.c, ev);
      w.(c := o.conn, toServer := w.toServer + SetOf(o.sent),
         delivered := if o.conn.signals.newData then w.delivered + [Delivered(o, ev)] else w.delivered)
    case Ask(flags) =>
      var o := SendData(w.c, flags, request);
      w.(c := o.conn, toServer := w.toServer + SetOf(o.sent), written := true)
    case ServerHears(s, random, reply) =>
      var asked := React(w.c.remotePort, s, random).Request? && s.data == request;
      w.(toClient := w.toClient + SetOf(Serve(w.c.remotePort, reply, s, random)),
         given := if asked then w.given + {reply} else w.given)
  }

  ghost function Opening(c: Conn, isn: u32): Session {
    var o := Connect(c, isn);
    Session(o.conn, SetOf(o.sent), {}, false, {}, [])
  }

  ghost function Play(request: Payload, w: Session, turns: seq<Turn>): Session {
    if turns == [] then w
    else Then(request, Play(request, w, turns[..|turns| - 1]), turns[|turns| - 1])
  }

  ghost predicate AllPossible(request: Payload, w: Session, turns: seq<Turn>) {
    turns != [] ==>
      AllPossible(request, w, turns[..|turns| - 1]) &&
      Possible(Play(request, w, turns[..|turns| - 1]), turns[|turns| - 1])
  }

  ghost predicate Open(c: Conn) { c.state == WaitSynAck || c.state == Connected }

  ghost predicate AtMostOne(request: Payload, w: Session) {
    && (forall s :: s in w.toServer ==> s.WellFormed() && (s.len > 0 ==> s.data == request))
    && (forall s :: s in w.toClient ==> s.WellFormed() && (s.len > 0 ==> s.flags.fin && s.data in w.given))
    && |w.delivered| <= 1 && (forall r :: r in w.delivered ==> r in w.given)
    && (Open(w.c) ==> w.delivered == [])
  }

  // New data is reported only by an open connection; with a FIN, that is the last report.
  ghost predicate Reports(c: Conn, o: Outcome) {
    && (o.sent.Some? ==> o.sent.value.len == 0 && o.sent.value.data == [])
    && (Open(o.conn) ==> Open(c))
    && o.conn.localPort == c.localPort && o.conn.remotePort == c.remotePort
  }

  lemma FoundReports(c: Conn, seg: Segment)
    requires !c.signals.newData
    ensures var o := Found(c, seg);
            Reports(c, o) &&
            (o.conn.signals.newData ==>
               c.state == Connected && seg.len > 0 && (seg.flags.fin ==> o.conn.state == LastAck))
  {
    hide Measure, CheckRetransmit;
    RetransmitKeeps(AckTest(c, seg));
  }

  lemma CallReports(c: Conn, ev: Event)
    ensures var o := Call(c, ev);
            Reports(c, o) &&
            (o.conn.signals.newData ==>
               && c.state == Connected && ev.arrival.FromPeer? && OwnPorts(c, ev.arrival.seg) && ev.arrival.seg.len > 0
               && (ev.arrival.seg.flags.fin ==> o.conn.state == LastAck))
  {
    hide Found, CheckRetransmit;
    var c1 := Clocked(c.(signals := QUIET.(reset := ev.idle)), ev.tick);
    RetransmitKeeps(c1);
    if ev.arrival.FromPeer? { FoundReports(c1, ev.arrival.seg); }
  }

  lemma TurnKeepsAtMostOne(request: Payload, w: Session, t: Turn)
    requires AtMostOne(request, w) && Possible(w, t)
    ensures AtMostOne(request, Then(request, w, t))
  {
    hide Call;
    match t
    case Poll(ev) =>
      CallReports(w.c, ev);
    case Ask(flags) =>
    case ServerHears(s, random, reply) =>
  }

  // Whatever the network does, and however often the server is asked, the client delivers at most
  // one reply per connection, and that is one of the server's answers to the request.
  lemma {:induction false} AtMostOneReply(request: Payload, c: Conn, isn: u32, turns: seq<Turn>)
    requires AllPossible(request, Opening(c, isn), turns)
    ensures var w := Play(request, Opening(c, isn), turns);
            && |w.delivered| <= 1 && (forall r :: r in w.delivered ==> r in w.given)
            && AtMostOne(request, w)
  {
    hide Then, Possible;
    if turns != [] {
      AtMostOneReply(request, c, isn, turns[..|turns| - 1]);
      TurnKeepsAtMostOne(request, Play(request, Opening(c, isn), turns[..|turns| - 1]), turns[|turns| - 1]);
    }
  }
}
