// One connection of the client with an RFC 793 sender, over a network that may lose, duplicate
// and reorder: whatever has been sent may arrive at any later time, any number of times, or never.
// The one thing that must not happen is that the SYN-ACK is overtaken: that the first
// acknowledgement of our SYN to arrive is not the peer's SYN (TcpLimits says what happens then).

module TcpDelivery {
  import opened Bytes
  import opened TcpSegment
  import opened TcpClientModel
  import opened TcpConservation

  // With SYN and FIN, the stream is shorter than the sequence number space.
  type Stream = s: seq<u8> | |s| <= 0xFFFF_FFFE

  // What the peer sends, first to last byte, and the sequence number of its SYN.
  datatype Peer = Peer(irs: u32, stream: Stream)
  {
    // The k-th byte of the stream has this sequence number; the FIN is byte |stream|.
    function Seq(k: nat): u32
      requires k <= 0xFFFF_FFFF
    { U32(irs + 1 + k) }

    ghost predicate SendsSyn(s: Segment) {
      s.flags.syn && !s.flags.fin && s.len == 0 && s.seqNum == irs
    }

    ghost predicate SendsAt(s: Segment, k: nat) {
      && !s.flags.syn && k <= |stream| + 1 && s.seqNum == Seq(k)
      && (if k <= |stream| then k + s.len <= |stream| && s.data == stream[k..k + s.len] else s.len == 0)
      && (s.flags.fin ==> k + s.len == |stream|)
    }

    // Synchronised segments: any slice of the stream, the last ones with FIN, and bare ACKs.
    ghost predicate SendsData(s: Segment) { exists k: nat :: k <= |stream| + 1 && SendsAt(s, k) }
  }

  datatype World = World(
    c: Conn,
    toClient: set<Segment>, toPeer: set<Segment>,
    established: bool,     // the peer has seen its SYN acknowledged
    delivered: seq<u8>,    // what havePacket() has reported, concatenated
    finSeen: bool,
    last: Option<Segment>) // what the client sent in the last action

  datatype Move =
    | Client(a: Action)
    | PeerSends(s: Segment)
    | PeerHears(s: Segment)

  ghost predicate OwnPorts(c: Conn, s: Segment) { s.sourcePort == c.remotePort && s.destinationPort == c.localPort }

  // An acknowledgement of everything outstanding, which is what connects in WAIT_SYN_ACK.
  ghost predicate Acks(c: Conn, s: Segment) {
    OwnPorts(c, s) && s.flags.ack && !s.flags.rst && s.ackNum == NextSeq(c)
  }

  // What the peer may send. Before its SYN is acknowledged it may already send data, and repeat
  // acknowledgements; like all but a first SYN, these carry ACK. An RST is always possible.
  ghost predicate MaySend(p: Peer, w: World, s: Segment) {
    OwnPorts(w.c, s) && s.WellFormed() &&
    (s.flags.rst || p.SendsSyn(s) || ((w.established || s.flags.ack) && p.SendsData(s)))
  }

  // The segment does not connect, or it is the peer's SYN.
  ghost predicate NotOvertaken(c: Conn, s: Segment) {
    c.state == WaitSynAck && !c.timedOut && Acks(c, s) ==> s.flags.syn
  }

  // Segments of other connections, real or forged, may arrive too.
  ghost predicate Enabled(p: Peer, w: World, m: Move) {
    match m
    case Client(Receive(ev)) =>
      ev.arrival.FromPeer? ==>
        !OwnPorts(w.c, ev.arrival.seg) || (ev.arrival.seg in w.toClient && NotOvertaken(w.c, ev.arrival.seg))
    case Client(Write(_, _)) => Legal(w.c, m.a)
    case PeerSends(s) => MaySend(p, w, s)
    case PeerHears(s) => s in w.toPeer
  }

  ghost function Next(p: Peer, w: World, m: Move): World {
    match m
    case Client(a) =>
      var o := Perform(w.c, a);
      w.(c := o.conn,
         toPeer := w.toPeer + (match o.sent case Some(s) => {s} case None => {}),
         delivered := w.delivered + (if a.Receive? then Delivered(o, a.ev) else []),
         finSeen := w.finSeen || (w.c.state == Connected && o.conn.state == LastAck),
         last := o.sent)
    case PeerSends(s) => w.(toClient := w.toClient + {s}, last := None)
    case PeerHears(s) =>
      w.(established := w.established || (s.flags.ack && !s.flags.rst && s.ackNum == p.Seq(0)),
         last := None)
  }

  ghost function Start(c: Conn, isn: u32): World {
    var o := Connect(c, isn);
    World(o.conn, {}, {o.sent.value}, false, [], false, o.sent)
  }

  ghost function Runs(p: Peer, w: World, moves: seq<Move>): World {
    if moves == [] then w else Next(p, Runs(p, w, moves[..|moves| - 1]), moves[|moves| - 1])
  }

  ghost predicate LegalMoves(p: Peer, w: World, moves: seq<Move>) {
    moves != [] ==>
      LegalMoves(p, w, moves[..|moves| - 1]) && Enabled(p, Runs(p, w, moves[..|moves| - 1]), moves[|moves| - 1])
  }

  // What the client must acknowledge.
  ghost function AckNo(p: Peer, w: World): u32
    requires |w.delivered| <= |p.stream|
  {
    p.Seq(|w.delivered| + (if w.finSeen then 1 else 0))
  }

  ghost predicate InOrder(p: Peer, w: World) { w.delivered <= p.stream && (w.finSeen ==> w.delivered == p.stream) }

  ghost predicate Inv(p: Peer, w: World) {
    && InOrder(p, w)
    && (forall s :: s in w.toClient ==> MaySend(p, w, s))
    && (w.c.state == WaitSynAck ==>
          && !w.established && w.delivered == [] && !w.finSeen
          && forall s :: s in w.toPeer ==> !s.flags.ack || s.flags.rst)
    && (w.c.state == Connected ==> !w.finSeen && w.c.remoteSeq == AckNo(p, w))
    && (w.c.state == LastAck ==> w.finSeen && w.c.remoteSeq == AckNo(p, w))
  }

  // What Found can do to the receiving side of an open connection. While there is no receive
  // counter yet, only a segment with neither SYN nor ACK is answered by an acknowledgement.
  ghost predicate Receives(c: Conn, seg: Segment, o: Outcome) {
    var d := o.conn;
    && d.localPort == c.localPort && d.remotePort == c.remotePort
    && (o.sent.Some? ==>
          || o.sent.value.flags.rst
          || (&& o.sent.value.ackNum == d.remoteSeq
              && (d.state == WaitSynAck && o.sent.value.flags.ack ==>
                    !seg.flags.syn && !seg.flags.ack && !seg.flags.rst)))
    && (if (d.state == c.state && d.remoteSeq == c.remoteSeq) || d.state == Disconnected then !d.signals.newData
        else if c.state == WaitSynAck then
          d.state == Connected && Acks(c, seg) && d.remoteSeq == U32(seg.seqNum + 1) && !d.signals.newData
        else
          && c.state == Connected && seg.seqNum == c.remoteSeq && !seg.flags.rst
          && d.state == (if seg.flags.fin then LastAck else Connected)
          && d.remoteSeq == U32(c.remoteSeq + seg.len + (if seg.flags.fin then 1 else 0))
          && d.signals.newData == (seg.len > 0))
  }

  lemma FoundReceives(c: Conn, seg: Segment)
    requires !c.timedOut && c.state != Disconnected && OwnPorts(c, seg)
    requires !c.signals.newData && !c.signals.ackData  // havePacket() begins by clearing them
    ensures Receives(c, seg, Found(c, seg))
  {
    hide Measure, CheckRetransmit, InConnected, Acks;
    var a := AckTest(c, seg);
    if !seg.flags.rst && a.signals.ackData { WhatAcks(c, seg); }
    assert a.remoteSeq == c.remoteSeq && !a.signals.newData;
    RetransmitKeeps(a);
    if c.state == Connected && !seg.flags.rst && !Unexpected(c, seg) { ConnectedReceives(a, seg); }
  }

  lemma WhatAcks(c: Conn, seg: Segment)
    requires OwnPorts(c, seg) && !c.signals.ackData && !seg.flags.rst && AckTest(c, seg).signals.ackData
    ensures Acks(c, seg)
  {
    hide Measure;
  }

  lemma ConnectedReceives(c: Conn, seg: Segment)
    requires c.state == Connected && !c.signals.newData && !seg.flags.rst
    requires (seg.len > 0 || seg.flags.fin) ==> seg.seqNum == c.remoteSeq
    ensures Receives(c, seg, InConnected(c, seg))
  {
    hide CheckRetransmit, Acks;
    RetransmitKeeps(c);
    if (seg.flags.fin && c.unAck > 0) || (!seg.flags.fin && seg.len == 0) {
      assert InConnected(c, seg) == CheckRetransmit(c);
    }
  }

  lemma CallReceives(c: Conn, ev: Event)
    requires !c.timedOut && c.state != Disconnected
    ensures var o := Call(c, ev);
            if ev.arrival.FromPeer? && OwnPorts(c, ev.arrival.seg) then Receives(c, ev.arrival.seg, o)
            else
              && o.conn.localPort == c.localPort && o.conn.remotePort == c.remotePort
              && o.conn.state == c.state && o.conn.remoteSeq == c.remoteSeq && !o.conn.signals.newData
              && (o.sent.Some? ==>
                    || o.sent.value.flags.rst
                    || (o.sent.value.ackNum == c.remoteSeq && (c.state != WaitSynAck || !o.sent.value.flags.ack)))
  {
    hide Found, CheckRetransmit;
    RetransmitKeeps(Clocked(c.(signals := QUIET.(reset := ev.idle)), ev.tick));
    if ev.arrival.FromPeer? && OwnPorts(c, ev.arrival.seg) {
      FoundReceives(Clocked(c.(signals := QUIET.(reset := ev.idle)), ev.tick), ev.arrival.seg);
    }
  }

  // A segment that fills the next place in the sequence space holds the next bytes of the stream.
  lemma NextBytes(p: Peer, s: Segment, n: nat)
    requires s.WellFormed() && p.SendsData(s) && n <= |p.stream| + 1
    requires s.seqNum == p.Seq(n) && (s.len > 0 || s.flags.fin)
    ensures n + s.len <= |p.stream| && p.stream[..n] + s.data == p.stream[..n + s.len]
    ensures s.flags.fin ==> n + s.len == |p.stream|
  {
    var k: nat :| k <= |p.stream| + 1 && p.SendsAt(s, k);
    assert k == n;
  }

  lemma ReceiveKeepsInv(p: Peer, w: World, ev: Event)
    requires Inv(p, w) && Enabled(p, w, Client(Receive(ev)))
    ensures var w' := Next(p, w, Client(Receive(ev)));
            Inv(p, w') && Acknowledges(p, w') && (w'.c.signals.newData <==> w'.delivered != w.delivered)
  {
    hide Call;
    if w.c.timedOut || w.c.state == Disconnected {
      IdleCall(w.c, ev);
    } else {
      CallReceives(w.c, ev);
      var o := Call(w.c, ev);
      var n := |w.delivered|;
      if ev.arrival.FromPeer? && OwnPorts(w.c, ev.arrival.seg) {
        var s := ev.arrival.seg;
        if w.c.state == Connected && s.seqNum == w.c.remoteSeq && !s.flags.rst && (s.len > 0 || s.flags.fin) {
          NextBytes(p, s, n);
          assert w.delivered == p.stream[..n];
        }
      }
    }
  }

  lemma IdleCall(c: Conn, ev: Event)
    requires c.timedOut || c.state == Disconnected
    ensures var o := Call(c, ev);
            o.sent == None && o.conn.state == Disconnected && !o.conn.signals.newData &&
            o.conn.localPort == c.localPort && o.conn.remotePort == c.remotePort
  {
  }

  // Whatever acknowledgement went out for this connection acknowledges what has been delivered.
  ghost predicate Acknowledges(p: Peer, w: World)
    requires Inv(p, w)
  {
    w.last.Some? && w.last.value.flags.ack && !w.last.value.flags.rst && w.c.state != Disconnected
    ==> w.last.value.ackNum == AckNo(p, w)
  }

  lemma WriteKeepsInv(p: Peer, w: World, flags: Flags, data: Payload)
    requires Inv(p, w) && Enabled(p, w, Client(Write(flags, data)))
    ensures var w' := Next(p, w, Client(Write(flags, data)));
            Inv(p, w') && Acknowledges(p, w') && w'.delivered == w.delivered
  {
  }

  lemma MoveKeepsInv(p: Peer, w: World, m: Move)
    requires Inv(p, w) && Enabled(p, w, m)
    ensures Inv(p, Next(p, w, m)) && Acknowledges(p, Next(p, w, m))
  {
    match m
    case Client(Receive(ev)) => ReceiveKeepsInv(p, w, ev);
    case Client(Write(flags, data)) => WriteKeepsInv(p, w, flags, data);
    case PeerSends(s) =>
    case PeerHears(s) =>
  }

  // For every run: the payloads reported by havePacket() concatenate to a prefix of the peer's
  // stream, and to all of it once a FIN has been accepted; whatever acknowledgement the client
  // sends for the open connection is the first sequence number not yet delivered.
  lemma {:induction false} DeliversAPrefix(p: Peer, c: Conn, isn: u32, moves: seq<Move>)
    requires LegalMoves(p, Start(c, isn), moves)
    ensures var w := Runs(p, Start(c, isn), moves);
            && w.delivered <= p.stream && (w.finSeen ==> w.delivered == p.stream)
            && (w.c.state == LastAck ==> w.delivered == p.stream)
            && (w.last.Some? && w.last.value.flags.ack && !w.last.value.flags.rst && w.c.state != Disconnected ==>
                  w.last.value.ackNum == p.Seq(|w.delivered| + (if w.finSeen then 1 else 0)))
            && Inv(p, w)
  {
    hide Next, Enabled;
    if moves == [] {
      assert Start(c, isn).last.value == Reply(Connect(c, isn).conn, SYN);
    } else {
      var w := Runs(p, Start(c, isn), moves[..|moves| - 1]);
      DeliversAPrefix(p, c, isn, moves[..|moves| - 1]);
      MoveKeepsInv(p, w, moves[|moves| - 1]);
    }
  }

  // A call returns true exactly when it has appended bytes to what was delivered.
  lemma ReportsNewData(p: Peer, c: Conn, isn: u32, moves: seq<Move>, ev: Event)
    requires LegalMoves(p, Start(c, isn), moves)
    requires Enabled(p, Runs(p, Start(c, isn), moves), Client(Receive(ev)))
    ensures var w := Runs(p, Start(c, isn), moves); var w' := Next(p, w, Client(Receive(ev)));
            && (Call(w.c, ev).conn.signals.newData <==> w.delivered < w'.delivered)
            && w'.delivered <= p.stream
  {
    hide Call, Runs, Start;
    DeliversAPrefix(p, c, isn, moves);
    ReceiveKeepsInv(p, Runs(p, Start(c, isn), moves), ev);
  }
}
