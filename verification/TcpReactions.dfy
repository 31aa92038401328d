// What havePacket() does with each arrival, said outright: the state, the signals and the reply of
// every case, and what closes a connection over a whole run.

module TcpReactions {
  import opened Bytes
  import opened TcpSegment
  import opened TcpClientModel
  import opened TcpConservation
  import opened TcpDelivery

  ghost predicate Live(c: Conn) { c.state != Disconnected && !c.timedOut }

  // The retransmission timer, after the clock.
  function TimerAt(c: Conn, ev: Event): u8 {
    if ev.tick && c.unAck > 0 then (if c.timer == 0 then 255 else c.timer - 1) else c.timer
  }

  // It takes up sequence space, which does not start at the next byte.
  ghost predicate OutOfOrder(c: Conn, s: Segment) {
    && (s.len > 0 || s.flags.fin) && s.seqNum != c.remoteSeq
    && (c.state != WaitSynAck || (!s.flags.syn && !s.flags.ack))
  }

  // It is in order, and acknowledges everything outstanding.
  ghost predicate Acknowledged(c: Conn, s: Segment) {
    !s.flags.rst && !OutOfOrder(c, s) && s.flags.ack && c.unAck > 0 && s.ackNum == U32(c.localSeq + c.unAck)
  }

  // A FIN is taken only when nothing of ours is outstanding.
  ghost predicate TakesFin(c: Conn, s: Segment) {
    && c.state == Connected && !s.flags.rst && !OutOfOrder(c, s) && s.flags.fin
    && (c.unAck == 0 || Acknowledged(c, s))
  }

  ghost predicate TakesData(c: Conn, s: Segment) {
    && c.state == Connected && !s.flags.rst && !OutOfOrder(c, s) && s.len > 0
    && (s.flags.fin ==> TakesFin(c, s))
  }

  ghost predicate SynFails(c: Conn, s: Segment) {
    c.state == WaitSynAck && !s.flags.rst && !OutOfOrder(c, s) && !Acknowledged(c, s)
  }

  ghost predicate FinAcknowledged(c: Conn, s: Segment) { c.state == LastAck && Acknowledged(c, s) }

  ghost predicate IsOwn(c: Conn, ev: Event) { ev.arrival.FromPeer? && OwnPorts(c, ev.arrival.seg) }

  // Nothing in the arrival keeps the call from looking at the timer.
  ghost predicate LooksAtTimer(c: Conn, ev: Event) {
    match ev.arrival
    case Nothing => true
    case Other => true
    case FromPeer(s) =>
      if s.sourcePort != c.remotePort then true
      else if s.destinationPort != c.localPort then s.flags.syn
      else
        && !s.flags.rst && !OutOfOrder(c, s) && !Acknowledged(c, s) && c.state != WaitSynAck
        && (c.state == LastAck || (if s.flags.fin then c.unAck > 0 else s.len == 0))
  }

  ghost predicate TimesOut(c: Conn, ev: Event) {
    LooksAtTimer(c, ev) && c.unAck > 0 && TimerAt(c, ev) == 0
  }

  ghost predicate LastTimeout(c: Conn, ev: Event) {
    TimesOut(c, ev) && (c.nrtx == 8 || (c.state == WaitSynAck && c.nrtx == 5))
  }

  // ----- one call

  // The record that the arrival is looked at with.
  function Ready(c: Conn, ev: Event): Conn {
    c.(signals := QUIET.(reset := ev.idle), timer := TimerAt(c, ev))
  }

  lemma CallIsFound(c: Conn, ev: Event)
    requires Live(c) && IsOwn(c, ev)
    ensures Call(c, ev) == Found(Ready(c, ev), ev.arrival.seg)
  {
    hide Found, CheckRetransmit;
  }

  lemma CallIsCheck(c: Conn, ev: Event)
    requires Live(c) && !IsOwn(c, ev) && LooksAtTimer(c, ev)
    ensures Call(c, ev) == CheckRetransmit(Ready(c, ev))
  {
    hide Found, CheckRetransmit;
  }

  // A reset for the connection ends it at once: the application is told, and nothing else happens.
  lemma ResetCloses(c: Conn, ev: Event)
    requires Live(c) && IsOwn(c, ev) && ev.arrival.seg.flags.rst
    ensures var o := Call(c, ev);
            && o.conn.state == Disconnected && !o.conn.timedOut
            && o.conn.signals == Signals(false, false, false, false, true, false, false)
            && o.sent == None && Delivered(o, ev) == []
            && o.conn.localSeq == c.localSeq && o.conn.remoteSeq == c.remoteSeq
  {
    CallIsFound(c, ev);
  }

  // The next state, for every segment of the connection.
  lemma NextState(c: Conn, ev: Event)
    requires Live(c) && IsOwn(c, ev)
    ensures var s, d := ev.arrival.seg, Call(c, ev).conn;
            && d.state == (if s.flags.rst || SynFails(c, s) || FinAcknowledged(c, s) then Disconnected
                           else if c.state == WaitSynAck && Acknowledged(c, s) then Connected
                           else if TakesFin(c, s) then LastAck
                           else c.state)
            && (d.timedOut <==> LastTimeout(c, ev))
  {
    hide Measure;
    CallIsFound(c, ev);
  }

  // And what the application is told.
  lemma Signalled(c: Conn, ev: Event)
    requires Live(c) && IsOwn(c, ev)
    ensures var s, g := ev.arrival.seg, Call(c, ev).conn.signals;
            && (g.abort <==> s.flags.rst || SynFails(c, s))
            && (g.connected <==> c.state == WaitSynAck && Acknowledged(c, s))
            && (g.close <==> FinAcknowledged(c, s) || TakesFin(c, s))
            && (g.newData <==> TakesData(c, s))
  {
    hide Measure, U32, Swap16, Reply, Backoff;
    CallIsFound(c, ev);
  }

  lemma SignalledToo(c: Conn, ev: Event)
    requires Live(c) && IsOwn(c, ev)
    ensures var s, g := ev.arrival.seg, Call(c, ev).conn.signals;
            && (g.ackData <==> c.state == Connected && Acknowledged(c, s))
            && (g.rexmit <==> c.state == Connected && TimesOut(c, ev) && !LastTimeout(c, ev))
            && (g.reset <==> ev.idle && !s.flags.rst && !Acknowledged(c, s) && !SynFails(c, s))
  {
    hide Measure, U32, Swap16, Reply, Backoff;
    CallIsFound(c, ev);
  }

  // And what goes out.
  lemma Replied(c: Conn, ev: Event)
    requires Live(c) && IsOwn(c, ev)
    ensures var s, o := ev.arrival.seg, Call(c, ev);
            o.sent == if s.flags.rst then None
                      else if SynFails(c, s) then
                        Some(Segment(c.localPort, Swap16(c.remotePort), s.ackNum, U32(s.seqNum + 1),
                                     Flags(false, true, false, true, false), 0, []))
                      else if || OutOfOrder(c, s) || (c.state == WaitSynAck && Acknowledged(c, s))
                              || (TakesData(c, s) && !s.flags.fin) then
                        Some(Numbered(o.conn, Flags(false, true, false, false, false)))
                      else if TakesFin(c, s) then Some(Numbered(o.conn, Flags(false, true, true, false, false)))
                      else if LastTimeout(c, ev) then Some(Numbered(o.conn, Flags(false, true, false, true, false)))
                      else if TimesOut(c, ev) && c.state == LastAck then
                        Some(Numbered(o.conn, Flags(false, true, true, false, false)))
                      else None
  {
    hide Measure;
    CallIsFound(c, ev);
  }

  // An empty segment with the numbers of the connection.
  function Numbered(c: Conn, flags: Flags): Segment {
    Segment(c.localPort, c.remotePort, c.localSeq, c.remoteSeq, flags, 0, [])
  }

  // Packets that are not for the connection are as if nothing had come, unless they are for an old
  // port of ours: then a reset goes out, but not in answer to a reset.
  lemma NotOurs(c: Conn, ev: Event)
    requires Live(c) && !IsOwn(c, ev)
    ensures if LooksAtTimer(c, ev) then Call(c, ev) == Call(c, ev.(arrival := Nothing))
            else
              var s, o := ev.arrival.seg, Call(c, ev);
              && o.conn == Ready(c, ev)
              && o.sent == if s.flags.rst then None
                           else Some(Segment(s.destinationPort, Swap16(c.remotePort), s.ackNum, U32(s.seqNum + 1),
                                             Flags(false, true, false, true, false), 0, []))
  {
    hide CheckRetransmit, Found;
  }

  // Without an arrival, only the timer can do something.
  lemma NothingComes(c: Conn, ev: Event)
    requires Live(c) && ev.arrival.Nothing?
    ensures var o := Call(c, ev);
            && o.conn.state == c.state && (o.conn.timedOut <==> LastTimeout(c, ev))
            && o.conn.signals == QUIET.(reset := ev.idle,
                                        rexmit := c.state == Connected && TimesOut(c, ev) && !LastTimeout(c, ev))
            && o.sent == if LastTimeout(c, ev) then Some(Numbered(c, Flags(false, true, false, true, false)))
                         else if !TimesOut(c, ev) || c.state == Connected then None
                         else if c.state == WaitSynAck then Some(Numbered(c, Flags(true, false, false, false, false)))
                         else Some(Numbered(c, Flags(false, true, true, false, false)))
  {
    CallIsCheck(c, ev);
  }

  // connect() takes a new port, so that segments of the connection before are not taken for its own.
  lemma ConnectsAfresh(c: Conn, isn: u32, s: Segment)
    ensures var o := Connect(c, isn);
            && o.conn.localPort != c.localPort && o.conn.remotePort == c.remotePort
            && (OwnPorts(c, s) ==> !OwnPorts(o.conn, s))
            && o.sent == Some(Segment(o.conn.localPort, c.remotePort, isn, 0,
                                      Flags(true, false, false, false, false), 0, []))
            && o.conn.state == WaitSynAck && !o.conn.timedOut && o.conn.unAck == 1 && o.conn.nrtx == 0
  {
  }

  // Data sent again goes out under the number that it had, and starts nothing anew.
  lemma ResendsTheSame(c: Conn, first: Payload, flags: Flags, again: Payload)
    requires c.unAck == 0 && !c.signals.rexmit
    ensures var o := SendData(c, flags, first);
            var d := o.conn.(signals := c.signals.(rexmit := true));
            && o.sent.Some? && o.sent.value.seqNum == c.localSeq && o.sent.value.ackNum == c.remoteSeq
            && o.sent.value.data == first && o.sent.value.len == |first|
            && SendData(d, flags, first).sent == o.sent && SendData(d, flags, again).conn == d
  {
  }

  // ----- whole runs

  // A reset, a failed answer to the SYN, the acknowledgement of our FIN, or the last timeout.
  ghost predicate Closes(c: Conn, a: Action) {
    && Live(c) && a.Receive?
    && (|| (IsOwn(c, a.ev) && (a.ev.arrival.seg.flags.rst || SynFails(c, a.ev.arrival.seg)))
        || (IsOwn(c, a.ev) && FinAcknowledged(c, a.ev.arrival.seg))
        || LastTimeout(c, a.ev))
  }

  lemma ActionCloses(c: Conn, a: Action)
    ensures !Live(Perform(c, a).conn) <==> !Live(c) || Closes(c, a)
  {
    match a
    case Write(flags, data) =>
    case Receive(ev) =>
      if Live(c) {
        hide Call;
        if IsOwn(c, ev) {
          NextState(c, ev);
        } else {
          NotOurs(c, ev);
          NothingComes(c, ev.(arrival := Nothing));
        }
      } else {
        IdleCall(c, ev);
      }
  }

  // In any run whatever, the connection is over exactly if one of these has come.
  lemma {:induction false} WhatClosesARun(c: Conn, isn: u32, actions: seq<Action>)
    ensures !Live(Run(Begin(c, isn), actions).conn)
            <==> exists i :: 0 <= i < |actions| && Closes(Run(Begin(c, isn), actions[..i]).conn, actions[i])
  {
    hide Perform, Closes;
    if actions != [] {
      var l, front, a := Begin(c, isn), actions[..|actions| - 1], actions[|actions| - 1];
      WhatClosesARun(c, isn, front);
      ActionCloses(Run(l, front).conn, a);
      if i :| 0 <= i < |front| && Closes(Run(l, front[..i]).conn, front[i]) {
        assert front[..i] == actions[..i] && front[i] == actions[i];
      }
      if i :| 0 <= i < |actions| && Closes(Run(l, actions[..i]).conn, actions[i]) {
        if i < |front| { assert front[..i] == actions[..i] && front[i] == actions[i]; }
      }
    }
  }
}
