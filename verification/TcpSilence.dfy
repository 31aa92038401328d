// What the client does when no segment arrives: the retransmission schedule and its end.

module TcpSilence {
  import opened Bytes
  import opened TcpSegment
  import opened TcpClientModel
  import TcpRtt

  datatype Tally = Tally(conn: Conn, resent: nat, resets: nat)

  ghost predicate Silent(evs: seq<Event>) {
    forall i :: 0 <= i < |evs| ==> evs[i].arrival.Nothing? || evs[i].arrival.Other?
  }

  function Ticks(evs: seq<Event>): nat {
    if evs == [] then 0 else Ticks(evs[..|evs| - 1]) + (if evs[|evs| - 1].tick then 1 else 0)
  }

  // SYN and FIN go out again; lost data is asked for from the application.
  predicate Resends(c: Conn, o: Outcome) {
    match c.state
    case WaitSynAck => o.sent == Some(Reply(c, SYN))
    case Connected => o.sent == None && o.conn.signals.rexmit
    case LastAck => o.sent == Some(Reply(c, FIN_ACK))
    case Disconnected => false
  }

  predicate GivesUp(c: Conn, o: Outcome) { o.sent == Some(Reply(c, RST_ACK)) && o.conn.timedOut }

  function Count(t: Tally, ev: Event): Tally {
    var o := Call(t.conn, ev);
    Tally(o.conn, t.resent + (if Resends(t.conn, o) then 1 else 0), t.resets + (if GivesUp(t.conn, o) then 1 else 0))
  }

  function Wait(c: Conn, evs: seq<Event>): Tally {
    if evs == [] then Tally(c, 0, 0) else Count(Wait(c, evs[..|evs| - 1]), evs[|evs| - 1])
  }

  // Ticks until the retransmission timer has expired k times.
  function Deadline(rto: u8, k: nat): nat {
    if k == 0 then 0 else if k == 1 then rto else Deadline(rto, k - 1) + Backoff(Min(k - 2, 4))
  }

  function Expirations(rto: u8, cap: nat, n: nat): nat {
    if cap == 0 then 0 else Expirations(rto, cap - 1, n) + (if Deadline(rto, cap) <= n then 1 else 0)
  }

  // Something has just been sent for the first time.
  ghost predicate JustSent(c: Conn) {
    c.state != Disconnected && !c.timedOut && c.unAck > 0 && c.nrtx == 0 && c.timer == c.rtt.rto > 0
  }

  lemma {:induction false} DeadlineGrows(rto: u8, j: nat, k: nat)
    requires j <= k && rto > 0
    ensures Deadline(rto, j) <= Deadline(rto, k)
    ensures j < k ==> Deadline(rto, j) < Deadline(rto, k)
  {
    if j < k { DeadlineGrows(rto, j, k - 1); }
  }

  lemma {:induction false} ExpirationsAre(rto: u8, cap: nat, n: nat, k: nat)
    requires rto > 0 && Deadline(rto, k) <= n && (k < cap ==> n < Deadline(rto, k + 1))
    ensures Expirations(rto, cap, n) == Min(k, cap)
  {
    if cap > 0 {
      if k < cap { DeadlineGrows(rto, k + 1, cap); } else { DeadlineGrows(rto, cap, k); }
      ExpirationsAre(rto, cap - 1, n, k);
    }
  }

  ghost predicate OnSchedule(c: Conn, t: Tally, n: nat) {
    var d := t.conn;
    && t.resets == 0 && t.resent == d.nrtx <= Cap(c.state)
    && d.state == c.state && !d.timedOut && d.unAck == c.unAck && d.rtt == c.rtt
    && d.localSeq == c.localSeq && d.remoteSeq == c.remoteSeq
    && d.localPort == c.localPort && d.remotePort == c.remotePort
    && Deadline(c.rtt.rto, d.nrtx) <= n < Deadline(c.rtt.rto, d.nrtx + 1)
    && d.timer == Deadline(c.rtt.rto, d.nrtx + 1) - n
  }

  ghost predicate Over(c: Conn, t: Tally) {
    t.resets == 1 && t.resent == Cap(c.state) && (t.conn.timedOut || t.conn.state == Disconnected)
  }

  // One silent call of a waiting connection: the timer runs down, or it expires and the segment
  // is repeated with the next timeout, or it expires once too often and the connection is reset.
  lemma SilentCall(t: Tally, ev: Event)
    requires var d := t.conn;
             && d.state != Disconnected && !d.timedOut && d.unAck > 0 && d.timer > 0
             && d.nrtx <= Cap(d.state)
    requires ev.arrival.Nothing? || ev.arrival.Other?
    ensures var d, d' := t.conn, Count(t, ev).conn;
            && d' == d.(signals := d'.signals, timer := d'.timer, nrtx := d'.nrtx, timedOut := d'.timedOut)
            && if !ev.tick || d.timer > 1 then
                 Count(t, ev) == t.(conn := d') && d'.nrtx == d.nrtx && !d'.timedOut &&
                 d'.timer == if ev.tick then d.timer - 1 else d.timer
               else if d.nrtx < Cap(d.state) then
                 Count(t, ev) == Tally(d', t.resent + 1, t.resets) && d'.nrtx == d.nrtx + 1 && !d'.timedOut &&
                 d'.timer == Backoff(d.nrtx)
               else
                 Count(t, ev) == Tally(d', t.resent, t.resets + 1) && d'.timedOut
  {
    var d := t.conn;
    var d0 := d.(signals := QUIET.(reset := ev.idle), timer := if ev.tick then d.timer - 1 else d.timer);
    assert Call(d, ev) == CheckRetransmit(d0);
    assert Reply(d0, SYN) == Reply(d, SYN) && Reply(d0, FIN_ACK) == Reply(d, FIN_ACK)
        && Reply(d0, RST_ACK) == Reply(d, RST_ACK);
    assert Reply(d, SYN).flags == SYN && Reply(d, FIN_ACK).flags == FIN_ACK && Reply(d, RST_ACK).flags == RST_ACK;
  }

  lemma ScheduleStep(c: Conn, t: Tally, n: nat, ev: Event)
    requires JustSent(c) && OnSchedule(c, t, n)
    requires ev.arrival.Nothing? || ev.arrival.Other?
    ensures var n' := if ev.tick then n + 1 else n;
            if n' < Deadline(c.rtt.rto, Cap(c.state) + 1) then OnSchedule(c, Count(t, ev), n')
            else Over(c, Count(t, ev)) && Count(t, ev).conn.timedOut
  {
    var k, rto := t.conn.nrtx, c.rtt.rto;
    DeadlineGrows(rto, k + 1, Cap(c.state) + 1);
    SilentCall(t, ev);
    if k < Cap(c.state) {
      DeadlineGrows(rto, k + 2, Cap(c.state) + 1);
      assert Deadline(rto, k + 2) == Deadline(rto, k + 1) + Backoff(k);
    }
  }

  lemma {:induction false} Schedule(c: Conn, evs: seq<Event>)
    requires JustSent(c) && Silent(evs)
    ensures var n, t := Ticks(evs), Wait(c, evs);
            if n < Deadline(c.rtt.rto, Cap(c.state) + 1) then OnSchedule(c, t, n) else Over(c, t)
    ensures var end := Deadline(c.rtt.rto, Cap(c.state) + 1);
            && (evs != [] && Ticks(evs[..|evs| - 1]) < end <= Ticks(evs) ==> Wait(c, evs).conn.timedOut)
            && (evs != [] && end <= Ticks(evs[..|evs| - 1]) ==>
                Wait(c, evs).conn.state == Disconnected && !Wait(c, evs).conn.timedOut)
  {
    var end := Deadline(c.rtt.rto, Cap(c.state) + 1);
    DeadlineGrows(c.rtt.rto, 0, 1);
    DeadlineGrows(c.rtt.rto, 1, Cap(c.state) + 1);
    if evs != [] {
      var front, ev := evs[..|evs| - 1], evs[|evs| - 1];
      Schedule(c, front);
      if Ticks(front) < end {
        ScheduleStep(c, Wait(c, front), Ticks(front), ev);
      }
    }
  }

  // After a first transmission, for any number of silent calls of which n are ticks: the timer has
  // expired, and the segment been repeated, once for every deadline up to n, capped; one reset
  // goes out with the last expiry, in that very call, and the call after it is disconnected.
  lemma SilenceEndsTheConnection(c: Conn, evs: seq<Event>)
    requires JustSent(c) && Silent(evs)
    ensures var n, t, end := Ticks(evs), Wait(c, evs), Deadline(c.rtt.rto, Cap(c.state) + 1);
            && t.resent == Expirations(c.rtt.rto, Cap(c.state), n)
            && t.resets == (if end <= n then 1 else 0)
            && (n < end ==> t.conn.state == c.state && !t.conn.timedOut)
            && (evs != [] && Ticks(evs[..|evs| - 1]) < end <= n ==> t.conn.timedOut)
            && (evs != [] && end <= Ticks(evs[..|evs| - 1]) ==> t.conn.state == Disconnected && !t.conn.timedOut)
  {
    Schedule(c, evs);
    var n, t, cap := Ticks(evs), Wait(c, evs), Cap(c.state);
    if n < Deadline(c.rtt.rto, cap + 1) {
      ExpirationsAre(c.rtt.rto, cap, n, t.conn.nrtx);
    } else {
      DeadlineGrows(c.rtt.rto, cap, cap + 1);
      ExpirationsAre(c.rtt.rto, cap, n, cap);
    }
  }

  // The RTT sample that an acknowledgement of everything gives after a silent wait: the ticks since
  // the segment was sent, at most rto of them, and none once the segment has been repeated.
  lemma SampleIsElapsed(c: Conn, evs: seq<Event>, ev: Event)
    requires JustSent(c) && Silent(evs) && Ticks(evs) < Deadline(c.rtt.rto, Cap(c.state) + 1)
    requires ev.arrival.FromPeer? && Acknowledges(Wait(c, evs).conn, ev.arrival.seg)
    ensures var elapsed := Ticks(evs) + (if ev.tick then 1 else 0);
            if Ticks(evs) < c.rtt.rto then
              elapsed <= c.rtt.rto && Call(Wait(c, evs).conn, ev).conn.rtt == TcpRtt.After(c.rtt, elapsed)
            else Call(Wait(c, evs).conn, ev).conn.rtt == c.rtt
  {
    hide Call, Wait, Ticks, Deadline, OnSchedule, Over, JustSent, Silent, Acknowledges, Measure;
    Schedule(c, evs);
    FirstTimeout(c, Wait(c, evs), Ticks(evs));
    AcknowledgedRtt(Wait(c, evs).conn, ev);
  }

  lemma FirstTimeout(c: Conn, t: Tally, n: nat)
    requires JustSent(c) && OnSchedule(c, t, n)
    ensures var d := t.conn;
            && d.state != Disconnected && !d.timedOut && d.unAck > 0 && d.rtt == c.rtt
            && (if n < c.rtt.rto then d.nrtx == 0 && d.timer == c.rtt.rto - n else d.nrtx > 0)
  {
    if t.conn.nrtx > 0 { DeadlineGrows(c.rtt.rto, 1, t.conn.nrtx); }
  }

  // An acknowledgement of everything outstanding that is not out of sequence.
  ghost predicate Acknowledges(c: Conn, seg: Segment) {
    && seg.sourcePort == c.remotePort && seg.destinationPort == c.localPort
    && seg.flags.ack && !seg.flags.rst && seg.ackNum == U32(c.localSeq + c.unAck) && !Unexpected(c, seg)
  }

  lemma AcknowledgedRtt(c: Conn, ev: Event)
    requires c.state != Disconnected && !c.timedOut && c.unAck > 0
    requires ev.arrival.FromPeer? && Acknowledges(c, ev.arrival.seg)
    ensures Call(c, ev).conn.rtt ==
              if c.nrtx == 0 then Measure(c.rtt, if ev.tick then U8(c.timer - 1) else c.timer) else c.rtt
  {
    hide Measure;
  }

  // The schedule in numbers. After connect(): SYNs at ticks 3, 6, 12, 24 and 48, a reset at 96.
  // In CONNECTED or LAST_ACK: 8 repetitions, a reset rto + 237 ticks after the first transmission.
  lemma Deadlines(c: Conn, isn: u32)
    ensures JustSent(Connect(c, isn).conn) && Connect(c, isn).conn.rtt.rto == 3
    ensures Cap(WaitSynAck) == 5 && Cap(Connected) == 8 && Cap(LastAck) == 8
    ensures forall k :: 1 <= k <= 6 ==> Deadline(3, k) == [3, 6, 12, 24, 48, 96][k - 1]
    ensures forall rto: u8, k :: 1 <= k <= 9 ==> Deadline(rto, k) == rto + [0, 3, 9, 21, 45, 93, 141, 189, 237][k - 1]
  {
    forall rto: u8, k | 1 <= k <= 9
      ensures Deadline(rto, k) == rto + [0, 3, 9, 21, 45, 93, 141, 189, 237][k - 1]
    {
      assert Deadline(rto, 2) == rto + 3;
      assert Deadline(rto, 4) == rto + 21;
      assert Deadline(rto, 6) == rto + 93;
      assert Deadline(rto, 8) == rto + 189;
    }
  }
}
