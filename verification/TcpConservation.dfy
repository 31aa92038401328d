// Whole runs of one connection: any interleaving of havePacket() calls, with any arrivals
// whatever, and of sends by an application that keeps one segment outstanding.

module TcpConservation {
  import opened Bytes
  import opened TcpSegment
  import opened TcpClientModel
  import TcpSilence

  const MODULUS := 0x1_0000_0000

  type Payload = s: seq<u8> | |s| < 0x1_0000

  datatype Action = Receive(ev: Event) | Write(flags: Flags, data: Payload)

  // `written` counts the bytes sent for the first time; `closed` says LAST_ACK has been entered.
  datatype Ledger = Ledger(conn: Conn, written: nat, closed: bool)

  function Begin(c: Conn, isn: u32): Ledger { Ledger(Connect(c, isn).conn, 0, false) }

  function Perform(c: Conn, a: Action): Outcome {
    match a
    case Receive(ev) => Call(c, ev)
    case Write(flags, data) => SendData(c, flags, data)
  }

  function Post(l: Ledger, a: Action): Ledger {
    var c := Perform(l.conn, a).conn;
    Ledger(c,
           l.written + (if a.Write? && !l.conn.signals.rexmit then |a.data| else 0),
           l.closed || c.state == LastAck)
  }

  function Run(l: Ledger, actions: seq<Action>): Ledger {
    if actions == [] then l else Post(Run(l, actions[..|actions| - 1]), actions[|actions| - 1])
  }

  // The application writes on an open connection, new data only when nothing is outstanding.
  predicate Legal(c: Conn, a: Action) {
    a.Write? ==> c.state == Connected && !c.timedOut && (c.unAck == 0 || c.signals.rexmit)
  }

  ghost predicate LegalRun(l: Ledger, actions: seq<Action>) {
    actions != [] ==>
      LegalRun(l, actions[..|actions| - 1]) &&
      Legal(Run(l, actions[..|actions| - 1]).conn, actions[|actions| - 1])
  }

  ghost predicate Sound(c: Conn) {
    && c.nrtx <= Cap(c.state)
    && (c.state in {WaitSynAck, LastAck} ==> c.unAck == 1)
    && (c.unAck == 0 ==> c.timer == c.rtt.rto)
  }

  // The sequence number the next new byte will get.
  function NextSeq(c: Conn): u32 { U32(c.localSeq + c.unAck) }

  // What one call may do: a sequence number is consumed only by the FIN that answers a FIN, and
  // a connection that has closed stays closed.
  ghost predicate Moves(c: Conn, d: Conn) {
    && (if d.state == LastAck && c.state != LastAck then
          c.state == Connected && NextSeq(d) == U32(NextSeq(c) + 1) &&
          d.unAck == 1 && d.nrtx == 0 && !d.timedOut
        else NextSeq(d) == NextSeq(c))
    && (c.state == Disconnected ==> d.state == Disconnected)
    && (c.state == LastAck ==> d.state in {LastAck, Disconnected})
  }

  lemma FoundMoves(c: Conn, seg: Segment)
    requires !c.timedOut
    ensures var d := Found(c, seg).conn;
            && Moves(c, d)
            && (d.localSeq != c.localSeq ==>
                  seg.flags.ack && c.unAck > 0 && seg.ackNum == d.localSeq == NextSeq(c))
  {
    hide Measure;
    var a := AckTest(c, seg);
    assert NextSeq(a) == NextSeq(c);
  }

  lemma ProcessMoves(c: Conn, arrival: Arrival)
    requires !c.timedOut
    ensures var d := Process(c, arrival).conn;
            && Moves(c, d)
            && (d.localSeq != c.localSeq ==>
                  && arrival.FromPeer? && arrival.seg.flags.ack && c.unAck > 0
                  && arrival.seg.ackNum == d.localSeq == NextSeq(c))
  {
    hide Found, CheckRetransmit;
    RetransmitKeeps(c);
    if arrival.FromPeer? { FoundMoves(c, arrival.seg); }
  }

  // Retransmissions and partial, stale or duplicate acknowledgements change nothing:
  // _localSeqNum moves only to an acknowledgement number that covers everything outstanding.
  lemma CallMoves(c: Conn, ev: Event)
    ensures var d := Call(c, ev).conn;
            && Moves(c, d)
            && (d.localSeq != c.localSeq ==>
                  && ev.arrival.FromPeer? && ev.arrival.seg.flags.ack && c.unAck > 0
                  && ev.arrival.seg.ackNum == d.localSeq == NextSeq(c))
  {
    hide Process;
    if !c.timedOut {
      ProcessMoves(Clocked(c.(signals := QUIET.(reset := ev.idle)), ev.tick), ev.arrival);
    }
  }

  lemma FoundKeepsSound(c: Conn, seg: Segment)
    requires Sound(c)
    ensures var d := Found(c, seg).conn;
            Sound(d) && (d.state == LastAck && c.state != LastAck ==> d.timer == d.rtt.rto)
  {
    hide Measure;
  }

  lemma CallKeepsSound(c: Conn, ev: Event)
    requires Sound(c)
    ensures var d := Call(c, ev).conn;
            Sound(d) && (d.state == LastAck && c.state != LastAck ==> d.timer == d.rtt.rto)
  {
    hide Found;
    if ev.arrival.FromPeer? {
      FoundKeepsSound(Clocked(c.(signals := QUIET.(reset := ev.idle)), ev.tick), ev.arrival.seg);
    }
  }

  lemma AddModulo(a: int, b: int, k: int)
    requires a % MODULUS == b % MODULUS
    ensures (a + k) % MODULUS == (b + k) % MODULUS
  {
    var q := a / MODULUS - b / MODULUS;
    assert a == b + q * MODULUS;
    ModuloMultiple(b + k, q);
  }

  lemma {:induction false} ModuloMultiple(a: int, q: int)
    ensures (a + q * MODULUS) % MODULUS == a % MODULUS
    decreases if q < 0 then -q else q
  {
    if q > 0 { ModuloMultiple(a, q - 1); assert a + q * MODULUS == a + (q - 1) * MODULUS + MODULUS; }
    if q < 0 { ModuloMultiple(a, q + 1); assert a + q * MODULUS == a + (q + 1) * MODULUS - MODULUS; }
  }

  // Once closed, a connection never returns to CONNECTED: nothing more is written, no second FIN.
  ghost predicate Balanced(l: Ledger, isn: u32) {
    && Sound(l.conn)
    && (l.closed ==> l.conn.state in {LastAck, Disconnected})
    && (l.conn.state == LastAck ==> l.closed)
    && NextSeq(l.conn) == Spent(l, isn) % MODULUS
  }

  function Spent(l: Ledger, isn: u32): nat { isn + 1 + l.written + (if l.closed then 1 else 0) }

  lemma StepKeepsBalance(l: Ledger, isn: u32, a: Action)
    requires Balanced(l, isn) && Legal(l.conn, a)
    ensures Balanced(Post(l, a), isn)
  {
    hide Call;
    match a
    case Receive(ev) =>
      CallMoves(l.conn, ev);
      CallKeepsSound(l.conn, ev);
      AddModulo(NextSeq(l.conn), Spent(l, isn), 1);
    case Write(flags, data) =>
      AddModulo(NextSeq(l.conn), Spent(l, isn), |data|);
  }

  // Over every run: the two counters account for every byte first sent, and the retransmission
  // count keeps within its caps.
  lemma {:induction false} SequenceConservation(c: Conn, isn: u32, actions: seq<Action>)
    requires LegalRun(Begin(c, isn), actions)
    ensures var l := Run(Begin(c, isn), actions);
            && (l.conn.localSeq + l.conn.unAck) % MODULUS == Spent(l, isn) % MODULUS
            && l.conn.nrtx <= MAX_RTX && (l.conn.state == WaitSynAck ==> l.conn.nrtx <= MAX_SYN_RTX)
            && Balanced(l, isn)
  {
    hide Perform;
    if actions != [] {
      SequenceConservation(c, isn, actions[..|actions| - 1]);
      StepKeepsBalance(Run(Begin(c, isn), actions[..|actions| - 1]), isn, actions[|actions| - 1]);
    }
  }

  // In every run, data or a FIN newly outstanding meet the premise of the silence schedule.
  lemma NewlyOutstanding(c: Conn, isn: u32, actions: seq<Action>, a: Action)
    requires LegalRun(Begin(c, isn), actions)
    requires var l := Run(Begin(c, isn), actions).conn; var d := Perform(l, a).conn;
             && Legal(l, a) && d.rtt.rto > 0
             && ((a.Write? && !l.signals.rexmit && a.data != []) || (d.state == LastAck && l.state == Connected))
    ensures TcpSilence.JustSent(Perform(Run(Begin(c, isn), actions).conn, a).conn)
  {
    hide Call;
    SequenceConservation(c, isn, actions);
    var l := Run(Begin(c, isn), actions);
    if a.Receive? {
      CallMoves(l.conn, a.ev);
      CallKeepsSound(l.conn, a.ev);
    }
  }
}
