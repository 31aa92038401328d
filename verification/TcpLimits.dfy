// Where the client does less than its comments promise, and exactly when it does not matter.

module TcpLimits {
  import opened Bytes
  import opened TcpSegment
  import opened TcpClientModel
  import opened TcpSession
  import opened TcpConservation
  import opened TcpDelivery

  // "connexion" on a SYN-ACK: the test for SYN and ACK is an or, so any acknowledgement of the SYN
  // connects. The receive counter is then the number of the peer's first byte exactly when the
  // segment is the peer's SYN, or comes from a peer that has used up all numbers and is back there;
  // and exactly then it acknowledges what it has got, the SYN.
  lemma ConnectsOnAnyAck(p: Peer, c: Conn, ev: Event)
    requires Waiting(c) && c.state == WaitSynAck && ev.arrival.FromPeer? && OwnPorts(c, ev.arrival.seg)
    ensures Call(c, ev).conn.state == Connected <==> Acks(c, ev.arrival.seg)
    ensures var s := ev.arrival.seg;
            Acks(c, s) && (p.SendsSyn(s) || p.SendsData(s)) ==>
              (Call(c, ev).conn.remoteSeq == p.Seq(0)
               <==> s.flags.syn || (|p.stream| == 0xFFFF_FFFE && s.seqNum == p.irs))
              && Call(c, ev).sent.Some? && Call(c, ev).sent.value.ackNum == Call(c, ev).conn.remoteSeq
  {
    var s := ev.arrival.seg;
    WaitingAnswer(c, ev);
    if p.SendsData(s) {
      var k: nat :| k <= |p.stream| + 1 && p.SendsAt(s, k);
    }
  }

  lemma WaitingAnswer(c: Conn, ev: Event)
    requires Waiting(c) && c.state == WaitSynAck && ev.arrival.FromPeer? && OwnPorts(c, ev.arrival.seg)
    ensures Call(c, ev).conn.state == Connected <==> Acks(c, ev.arrival.seg)
    ensures Acks(c, ev.arrival.seg) ==>
              && Call(c, ev).conn.remoteSeq == U32(ev.arrival.seg.seqNum + 1) && !Call(c, ev).conn.timedOut
              && Call(c, ev).conn.localPort == c.localPort && Call(c, ev).conn.remotePort == c.remotePort
              && Call(c, ev).sent == Some(Reply(Call(c, ev).conn, ACK))
  {
    hide Measure, CheckRetransmit;
  }

  const TICK := Client(Receive(Event(true, false, Nothing)))

  // The peer's SYN-ACK, and its answer to a repeated SYN once it is in SYN-RECEIVED: section 3.9 of
  // RFC 793 has it acknowledge a segment that it does not accept.
  function SynAckOf(p: Peer, c: Conn): Segment {
    Empty(c.remotePort, c.localPort, p.irs, U32(c.localSeq + 1), SYN_ACK)
  }

  function BareAckOf(p: Peer, c: Conn): Segment {
    Empty(c.remotePort, c.localPort, p.Seq(0), U32(c.localSeq + 1), ACK)
  }

  // An ordinary run that fails, for every peer: the SYN-ACK is sent, and lost; after three ticks the
  // SYN goes out again, and is answered by a bare acknowledgement. When that arrives the client
  // connects, and acknowledges a byte that it has not got.
  lemma SynAckOvertaken(p: Peer, c: Conn, isn: u32)
    ensures var start := Start(c, isn);
            var synAck, bare := SynAckOf(p, start.c), BareAckOf(p, start.c);
            var repeated := Runs(p, start, [PeerSends(synAck), TICK, TICK, TICK]);
            var moves := [PeerSends(synAck), TICK, TICK, TICK, PeerSends(bare)];
            var w := Runs(p, start, moves);
            && repeated.last == Some(Reply(start.c, SYN))
            && LegalMoves(p, start, moves) && bare in w.toClient && w.c.state == WaitSynAck
            && var o := Call(w.c, Event(false, false, FromPeer(bare)));
               o.conn.state == Connected && o.conn.remoteSeq == p.Seq(1) && o.sent == Some(Reply(o.conn, ACK))
  {
    var start := Start(c, isn);
    var synAck, bare := SynAckOf(p, start.c), BareAckOf(p, start.c);
    ThreeTicks(start.c);
    MayAnswer(p, start, start);
    hide Runs, LegalMoves, Call, Start, MaySend, Next, Enabled;
    Appended(PeerSends(synAck), TICK, PeerSends(bare));
    RunsOn(p, start, [], PeerSends(synAck));
    RunsOn(p, start, [PeerSends(synAck)], TICK);
    RunsOn(p, start, [PeerSends(synAck), TICK], TICK);
    RunsOn(p, start, [PeerSends(synAck), TICK, TICK], TICK);
    RunsOn(p, start, [PeerSends(synAck), TICK, TICK, TICK], PeerSends(bare));
    SendNext(p, start, synAck);
    var w1 := Next(p, start, PeerSends(synAck));
    var w2 := Next(p, w1, TICK);
    var w3 := Next(p, w2, TICK);
    var w4 := Next(p, w3, TICK);
    TickNext(p, w1);
    TickNext(p, w2);
    TickNext(p, w3);
    MayAnswer(p, start, w4);
    SendNext(p, w4, bare);
    WaitingAnswer(w4.c, Event(false, false, FromPeer(bare)));
  }

  lemma MayAnswer(p: Peer, start: World, w: World)
    requires w.c.localPort == start.c.localPort && w.c.remotePort == start.c.remotePort
    ensures MaySend(p, w, SynAckOf(p, start.c)) && MaySend(p, w, BareAckOf(p, start.c))
  {
    assert p.SendsAt(BareAckOf(p, start.c), 0);
  }

  lemma TickNext(p: Peer, w: World)
    ensures Enabled(p, w, TICK)
    ensures var o, w' := Call(w.c, Event(true, false, Nothing)), Next(p, w, TICK); w'.c == o.conn && w'.last == o.sent
  {
    hide Call;
  }

  lemma SendNext(p: Peer, w: World, s: Segment)
    ensures Enabled(p, w, PeerSends(s)) <==> MaySend(p, w, s)
    ensures Next(p, w, PeerSends(s)).c == w.c && s in Next(p, w, PeerSends(s)).toClient
  {
  }

  lemma Appended<T>(a: T, t: T, b: T)
    ensures [] + [a] == [a] && [a] + [t] == [a, t] && [a, t] + [t] == [a, t, t]
    ensures [a, t, t] + [t] == [a, t, t, t] && [a, t, t, t] + [b] == [a, t, t, t, b]
  {
  }

  lemma RunsOn(p: Peer, w: World, moves: seq<Move>, m: Move)
    ensures Runs(p, w, []) == w && LegalMoves(p, w, [])
    ensures Runs(p, w, moves + [m]) == Next(p, Runs(p, w, moves), m)
    ensures LegalMoves(p, w, moves + [m]) <==> LegalMoves(p, w, moves) && Enabled(p, Runs(p, w, moves), m)
  {
    hide Next, Enabled;
    assert (moves + [m])[..|moves|] == moves;
  }

  lemma ThreeTicks(c: Conn)
    requires Waiting(c) && c.state == WaitSynAck && c.timer == 3 && c.nrtx == 0
    ensures var tick := Event(true, false, Nothing);
            var o1 := Call(c, tick); var o2 := Call(o1.conn, tick); var o3 := Call(o2.conn, tick);
            && o1.sent == None && o2.sent == None && o3.sent == Some(Reply(c, SYN))
            && Waiting(o3.conn) && o3.conn.state == WaitSynAck && !o3.conn.signals.newData
            && !o1.conn.signals.newData && !o2.conn.signals.newData
            && o3.conn.localPort == c.localPort && o3.conn.remotePort == c.remotePort
            && o3.conn.localSeq == c.localSeq && o3.conn.unAck == c.unAck
  {
  }

  // And from there on: the peer's first byte, and all that come with it, are refused.
  lemma BareAckRefuses(p: Peer, c: Conn, ev: Event, data: Segment)
    requires c.state == Connected && !c.timedOut && c.remoteSeq == p.Seq(1)
    requires ev.arrival == FromPeer(data) && OwnPorts(c, data)
    requires p.SendsAt(data, 0) && data.len > 0 && !data.flags.rst
    ensures var o := Call(c, ev);
            !o.conn.signals.newData && o.sent == Some(Reply(c, ACK)) && o.conn.remoteSeq == p.Seq(1)
  {
    OutOfSequence(c, ev);
  }

  lemma OutOfSequence(c: Conn, ev: Event)
    requires c.state == Connected && !c.timedOut && ev.arrival.FromPeer? && OwnPorts(c, ev.arrival.seg)
    requires !ev.arrival.seg.flags.rst && ev.arrival.seg.len > 0 && ev.arrival.seg.seqNum != c.remoteSeq
    ensures var o := Call(c, ev);
            !o.conn.signals.newData && o.sent == Some(Reply(c, ACK)) && o.conn.remoteSeq == c.remoteSeq
  {
    hide Measure, CheckRetransmit;
  }

  // A segment for an old port is answered by a reset, but the reset's destination port is stored
  // in the wrong byte order: it reaches the peer exactly when both bytes of the port are equal.
  lemma ResetReachesPeer(c: Conn, seg: Segment)
    requires !seg.flags.rst
    ensures Reset(c, seg).Some?
    ensures Reset(c, seg).value.destinationPort == c.remotePort <==> c.remotePort / 0x100 == c.remotePort % 0x100
  {
    var hi, lo := c.remotePort / 0x100, c.remotePort % 0x100;
    assert c.remotePort == hi * 0x100 + lo;
  }

  // HTTP's port 80 is one that it does not reach.
  lemma ResetMissesPort80(c: Conn, seg: Segment)
    requires !seg.flags.rst && c.remotePort == 80
    ensures Reset(c, seg).value.destinationPort == 20480
  {
  }
}
