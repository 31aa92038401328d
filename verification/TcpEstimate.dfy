// The round trip estimate over whole runs of a connection, from connect() on.

module TcpEstimate {
  import opened Bytes
  import opened TcpSegment
  import opened TcpClientModel
  import opened TcpConservation
  import opened TcpDelivery
  import opened TcpRtt
  import opened TcpReactions

  // A mean of 0, a deviation of 4 ticks, and a timeout of 3.
  lemma ConnectStartsAt(c: Conn, isn: u32)
    ensures AsExact(Connect(c, isn).conn.rtt) == Exact(0, 16, 3) && Connect(c, isn).conn.rtt == INITIAL
  {
  }

  // A call takes a sample when it is acknowledged what has been sent once only.
  ghost predicate TakesSample(c: Conn, a: Action): (takes: bool)
    ensures takes ==> a.Receive?
  {
    a.Receive? && Live(c) && IsOwn(c, a.ev) && Acknowledged(c, a.ev.arrival.seg) && c.nrtx == 0
  }

  // How far the timer has run down since then.
  function Elapsed(c: Conn, ev: Event): u8 { U8(c.rtt.rto - TimerAt(c, ev)) }

  lemma ActionEstimates(c: Conn, a: Action)
    ensures Perform(c, a).conn.rtt == if TakesSample(c, a) then After(c.rtt, Elapsed(c, a.ev)) else c.rtt
  {
    match a
    case Write(flags, data) =>
    case Receive(ev) =>
      if Live(c) && IsOwn(c, ev) {
        OwnEstimates(c, ev);
      } else if Live(c) {
        hide Call;
        OthersKeep(c, ev);
      }
  }

  lemma OwnEstimates(c: Conn, ev: Event)
    requires Live(c) && IsOwn(c, ev)
    ensures Call(c, ev).conn.rtt
         == if Acknowledged(c, ev.arrival.seg) && c.nrtx == 0 then After(c.rtt, Elapsed(c, ev)) else c.rtt
  {
    CallIsFound(c, ev);
    assert U8(c.rtt.rto - Elapsed(c, ev)) == TimerAt(c, ev);
    hide Measure, U8, Found;
    FoundEstimates(Ready(c, ev), ev.arrival.seg);
  }

  lemma FoundEstimates(c: Conn, s: Segment)
    requires Live(c)
    ensures Found(c, s).conn.rtt == if Acknowledged(c, s) && c.nrtx == 0 then Measure(c.rtt, c.timer) else c.rtt
  {
    hide Measure, CheckRetransmit, Reset, U8, U16, Swap16;
    RetransmitKeeps(AckTest(c, s));
  }

  lemma OthersKeep(c: Conn, ev: Event)
    requires Live(c) && !IsOwn(c, ev)
    ensures Call(c, ev).conn.rtt == c.rtt
  {
    hide Found, CheckRetransmit;
    RetransmitKeeps(Ready(c, ev));
  }

  // The samples of a run, first to last.
  ghost function SamplesOf(l: Ledger, actions: seq<Action>): seq<u8> {
    if actions == [] then []
    else
      var front, a := actions[..|actions| - 1], actions[|actions| - 1];
      var c := Run(l, front).conn;
      SamplesOf(l, front) + if TakesSample(c, a) then [Elapsed(c, a.ev)] else []
  }

  // In every run, the estimate is what the samples make of the one that connect() starts with.
  lemma {:induction false} EstimateOfARun(c: Conn, isn: u32, actions: seq<Action>)
    ensures Run(Begin(c, isn), actions).conn.rtt == Feed(INITIAL, SamplesOf(Begin(c, isn), actions))
  {
    hide Perform, After, Elapsed, TakesSample;
    if actions != [] {
      var l, front, a := Begin(c, isn), actions[..|actions| - 1], actions[|actions| - 1];
      EstimateOfARun(c, isn, front);
      ActionEstimates(Run(l, front).conn, a);
      assert SamplesOf(l, front) + [] == SamplesOf(l, front);
      if TakesSample(Run(l, front).conn, a) { FeedSnoc(SamplesOf(l, front), Elapsed(Run(l, front).conn, a.ev)); }
    } else {
      ConnectStartsAt(c, isn);
    }
  }

  // So in every run with samples of at most 31 ticks, the estimate is that of the integer
  // estimator, started at mean 0 and deviation 16, and stays in range.
  lemma ExactInARun(c: Conn, isn: u32, actions: seq<Action>)
    requires var samples := SamplesOf(Begin(c, isn), actions); forall i :: 0 <= i < |samples| ==> samples[i] <= 31
    ensures var e := Run(Begin(c, isn), actions).conn.rtt;
            && e.sa <= 248 && 3 <= e.sv <= 124 && 3 <= e.rto <= 155
            && AsExact(e) == ExactFeed(Exact(0, 16, 3), SamplesOf(Begin(c, isn), actions))
  {
    hide SamplesOf, Feed, ExactFeed, Run, Begin;
    EstimateOfARun(c, isn, actions);
    SamplesStayInRange(SamplesOf(Begin(c, isn), actions));
  }
}
