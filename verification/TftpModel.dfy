// TFTP transfers (src/TFTPServer.cpp) as machines that take one step for every receivePacket().

module TftpModel {
  import opened Bytes

  const BLOCK_SIZE := 512     // TFTP_BLOCK_SIZE
  const RETRIES := 10         // TFTP_RETRIES
  const LAST_BLOCK := 0xFFFF  // UINT16_MAX: the read loop stops before this block

  // Block b of a file, counted from 1; the blocks after the last are empty.
  function Block(file: seq<u8>, b: nat): (d: seq<u8>)
    requires b >= 1
    ensures |d| <= BLOCK_SIZE
  {
    file[Min((b - 1) * BLOCK_SIZE, |file|)..Min(b * BLOCK_SIZE, |file|)]
  }

  // ----- reading a file from the server

  datatype Phase = Running | Finished | GaveUp | OutOfBlocks

  // `sent` lists the block numbers of the DATA packets sent so far.
  datatype Reading = Reading(block: nat, retries: nat, sent: seq<nat>, phase: Phase)

  // One receivePacket(): the block number of the ACK it brought, if any, and whether the timeout
  // had passed afterwards.
  datatype AckPoll = AckPoll(ack: Option<u16>, expired: bool)

  const READ_START := Reading(1, 0, [1], Running)

  function ReadStep(file: seq<u8>, s: Reading, p: AckPoll): Reading
    requires s.block >= 1
  {
    if s.phase != Running then s
    else match p.ack
      case Some(b) => if b == s.block then Advance(file, s) else Retry(s)
      case None => if p.expired then Retry(s) else s
  }

  function Advance(file: seq<u8>, s: Reading): Reading
    requires s.block >= 1
  {
    var next := s.(block := s.block + 1, retries := 0);
    if |Block(file, s.block)| < BLOCK_SIZE then next.(phase := Finished)
    else if s.block + 1 == LAST_BLOCK then next.(phase := OutOfBlocks)
    else next.(sent := s.sent + [s.block + 1])
  }

  function Retry(s: Reading): Reading {
    if s.retries + 1 > RETRIES then s.(retries := s.retries + 1, phase := GaveUp)
    else s.(retries := s.retries + 1, sent := s.sent + [s.block])
  }

  function ReadRun(file: seq<u8>, polls: seq<AckPoll>): (s: Reading)
    ensures 1 <= s.block <= LAST_BLOCK
    ensures s.phase == Running ==> s.block < LAST_BLOCK
  {
    if polls == [] then READ_START
    else
      ReadStep(file, ReadRun(file, polls[..|polls| - 1]), polls[|polls| - 1])
  }

  function Count(s: seq<nat>, b: nat): nat {
    if s == [] then 0 else Count(s[..|s| - 1], b) + (if s[|s| - 1] == b then 1 else 0)
  }

  lemma CountSnoc(s: seq<nat>, x: nat, b: nat)
    ensures Count(s + [x], b) == Count(s, b) + (if x == b then 1 else 0)
  {
    assert (s + [x])[..|s|] == s;
  }

  lemma {:induction false} CountAbsent(s: seq<nat>, b: nat)
    requires b !in s
    ensures Count(s, b) == 0
  {
    if s != [] { CountAbsent(s[..|s| - 1], b); }
  }

  ghost predicate Paced(s: Reading) {
    && (forall b :: b in s.sent ==> 1 <= b <= s.block && b < LAST_BLOCK)
    && (forall b: nat :: Count(s.sent, b) <= RETRIES + 1)
    && (s.phase == Running ==> Count(s.sent, s.block) == s.retries + 1 <= RETRIES + 1)
    && |s.sent| <= (RETRIES + 1) * (LAST_BLOCK - 1)
    && (s.phase == Running ==> |s.sent| <= (RETRIES + 1) * (s.block - 1) + s.retries + 1)
  }

  lemma PacedStep(file: seq<u8>, s: Reading, p: AckPoll)
    requires 1 <= s.block < LAST_BLOCK && s.phase == Running && Paced(s)
    ensures Paced(ReadStep(file, s, p))
  {
    var s' := ReadStep(file, s, p);
    if s'.sent != s.sent {
      var x := s'.sent[|s'.sent| - 1];
      forall b: nat ensures Count(s'.sent, b) <= RETRIES + 1 && (b == x ==> Count(s'.sent, b) == Count(s.sent, b) + 1) {
        CountSnoc(s.sent, x, b);
        if x == s.block + 1 { CountAbsent(s.sent, x); }
      }
      if x == s.block + 1 { CountAbsent(s.sent, x); }
    }
  }

  // At most 11 sends of any block, and only of blocks 1 to 65534, whatever arrives or does not.
  lemma {:induction false} SendsAreBounded(file: seq<u8>, polls: seq<AckPoll>)
    ensures Paced(ReadRun(file, polls))
  {
    if polls != [] {
      var front := polls[..|polls| - 1];
      SendsAreBounded(file, front);
      if ReadRun(file, front).phase == Running { PacedStep(file, ReadRun(file, front), polls[|polls| - 1]); }
    } else {
      forall b: nat ensures Count([1], b) <= 1 && (b == 1 ==> Count([1], b) == 1)
      { CountSnoc([], 1, b); assert [] + [1] == [1]; }
    }
  }

  // A poll that settles the block on its way: an ACK, or the end of the timeout.
  predicate Decides(p: AckPoll) { p.ack.Some? || p.expired }

  function Decisive(polls: seq<AckPoll>): nat {
    if polls == [] then 0 else Decisive(polls[..|polls| - 1]) + (if Decides(polls[|polls| - 1]) then 1 else 0)
  }

  // What there is to send of a file.
  function Blocks(file: seq<u8>): nat { Min(|file| / BLOCK_SIZE + 1, LAST_BLOCK - 1) }

  lemma {:induction false} EachDecisionSends(file: seq<u8>, polls: seq<AckPoll>)
    ensures var s := ReadRun(file, polls);
            s.phase == Running ==> |s.sent| == 1 + Decisive(polls) && (s.block - 1) * BLOCK_SIZE <= |file|
  {
    if polls != [] { EachDecisionSends(file, polls[..|polls| - 1]); }
  }

  // The read loop ends: it is over once every send has been answered, or has timed out, as often
  // as the retries allow.
  lemma ReadingEnds(file: seq<u8>, polls: seq<AckPoll>)
    requires Decisive(polls) >= (RETRIES + 1) * Blocks(file)
    ensures ReadRun(file, polls).phase != Running
  {
    EachDecisionSends(file, polls);
    SendsAreBounded(file, polls);
  }

  // ----- what each poll does to a read

  // The block on its way is lost: the ACK is for another block, or does not come in time.
  predicate Loses(s: Reading, p: AckPoll) {
    match p.ack case Some(b) => b != s.block case None => p.expired
  }

  // One poll of a running read, whatever it brings. The right ACK puts the next block on the wire, or
  // ends the read; a loss puts the same block there once more, or ends it if that was the 11th time;
  // otherwise nothing happens.
  lemma PollReads(file: seq<u8>, polls: seq<AckPoll>, p: AckPoll)
    requires ReadRun(file, polls).phase == Running
    ensures var s, s' := ReadRun(file, polls), ReadRun(file, polls + [p]);
            if p.ack == Some(s.block) then
              && s'.block == s.block + 1
              && (if |Block(file, s.block)| < 512 then s'.phase == Finished && s'.sent == s.sent
                  else if s.block == 65534 then s'.phase == OutOfBlocks && s'.sent == s.sent
                  else s'.phase == Running && s'.sent == s.sent + [s.block + 1])
            else if Loses(s, p) then
              && s'.block == s.block
              && (if Count(s.sent, s.block) < 11 then s'.phase == Running && s'.sent == s.sent + [s.block]
                  else s'.phase == GaveUp && s'.sent == s.sent)
            else s' == s
  {
    SendsAreBounded(file, polls);
    ReadSnoc(file, polls, p);
    hide Block, Count, ReadRun;
  }

  lemma ReadSnoc(file: seq<u8>, polls: seq<AckPoll>, p: AckPoll)
    ensures ReadRun(file, polls + [p]) == ReadStep(file, ReadRun(file, polls), p)
  {
    assert (polls + [p])[..|polls|] == polls;
  }

  // The server gives up if and only if a block that it has sent 11 times is lost once more.
  lemma {:induction false} GivesUpExactly(file: seq<u8>, polls: seq<AckPoll>)
    ensures ReadRun(file, polls).phase == GaveUp
            <==> exists i :: 0 <= i < |polls| && LastLoss(file, polls[..i], polls[i])
  {
    hide LastLoss;
    if polls != [] {
      var front, p := polls[..|polls| - 1], polls[|polls| - 1];
      GivesUpExactly(file, front);
      assert polls == front + [p];
      LastLossEnds(file, front, p);
      if i :| 0 <= i < |front| && LastLoss(file, front[..i], front[i]) {
        assert front[..i] == polls[..i] && front[i] == polls[i];
      }
      if i :| 0 <= i < |polls| && LastLoss(file, polls[..i], polls[i]) {
        if i < |front| { assert front[..i] == polls[..i] && front[i] == polls[i]; }
      }
    }
  }

  ghost predicate LastLoss(file: seq<u8>, polls: seq<AckPoll>, p: AckPoll) {
    var s := ReadRun(file, polls);
    s.phase == Running && Count(s.sent, s.block) == 11 && Loses(s, p)
  }

  lemma LastLossEnds(file: seq<u8>, polls: seq<AckPoll>, p: AckPoll)
    ensures ReadRun(file, polls + [p]).phase == GaveUp
            <==> ReadRun(file, polls).phase == GaveUp || LastLoss(file, polls, p)
  {
    ReadSnoc(file, polls, p);
    SendsAreBounded(file, polls);
    hide ReadRun, Block, Count;
  }

  // One block with its losses, and then its ACK.
  function Turn(block: u16, losses: seq<AckPoll>): seq<AckPoll> { losses + [AckPoll(Some(block), false)] }

  function Turns(losses: seq<seq<AckPoll>>): seq<AckPoll>
    requires |losses| < LAST_BLOCK
  {
    if losses == [] then []
    else Turns(losses[..|losses| - 1]) + Turn(|losses|, losses[|losses| - 1])
  }

  // Up to 10 ACKs for other blocks or timeouts, and any number of polls that bring nothing.
  ghost predicate Bearable(losses: seq<AckPoll>, block: nat) {
    Decisive(losses) <= 10 && forall i :: 0 <= i < |losses| ==> losses[i].ack != Some(block)
  }

  lemma {:induction false} LossesAreBorne(file: seq<u8>, polls: seq<AckPoll>, losses: seq<AckPoll>)
    requires var s := ReadRun(file, polls); s.phase == Running && s.retries == 0 && Bearable(losses, s.block)
    ensures var s, s' := ReadRun(file, polls), ReadRun(file, polls + losses);
            s'.phase == Running && s'.block == s.block && s'.retries == Decisive(losses)
    decreases |losses|
  {
    if losses == [] {
      assert polls + [] == polls;
    } else {
      var front, p := losses[..|losses| - 1], losses[|losses| - 1];
      assert polls + losses == polls + front + [p];
      LossesAreBorne(file, polls, front);
      ReadSnoc(file, polls + front, p);
      hide ReadRun, Block;
    }
  }

  // With at most 10 losses of every block, the read goes on to the end.
  lemma {:induction false} BearsLosses(file: seq<u8>, losses: seq<seq<AckPoll>>)
    requires |losses| < LAST_BLOCK && (|losses| - 1) * BLOCK_SIZE <= |file|
    requires forall i :: 0 <= i < |losses| ==> Bearable(losses[i], i + 1)
    ensures var s := ReadRun(file, Turns(losses));
            && s.block == |losses| + 1 && s.retries == 0
            && s.phase == (if |losses| > 0 && |Block(file, |losses|)| < BLOCK_SIZE then Finished
                           else if |losses| == LAST_BLOCK - 1 then OutOfBlocks else Running)
  {
    if losses != [] {
      var front, last, n := losses[..|losses| - 1], losses[|losses| - 1], |losses|;
      BearsLosses(file, front);
      LossesAreBorne(file, Turns(front), last);
      assert Turns(losses) == Turns(front) + last + [AckPoll(Some(n), false)];
      ReadSnoc(file, Turns(front) + last, AckPoll(Some(n), false));
      hide ReadRun, Turns, Bearable;
    }
  }

  // ----- writing a file to the server

  datatype Datagram = Datagram(block: u16, bytes: seq<u8>)

  // What the server does, in order: an ACK goes out, writeBytes() is called.
  datatype WriteEvent = Ack(block: u16) | Store(data: Datagram)

  datatype Writing = Writing(expected: u16, trace: seq<WriteEvent>, phase: Phase)

  datatype DataPoll = DataPoll(data: Option<Datagram>, expired: bool)

  const WRITE_START := Writing(1, [Ack(0)], Running)

  function WriteStep(s: Writing, p: DataPoll): Writing {
    if s.phase != Running then s
    else
      var s' := match p.data
        case None => s
        case Some(d) =>
          if d.block < s.expected then s.(trace := s.trace + [Ack(d.block)])
          else if d.block == s.expected then
            Writing(U16(s.expected + 1), s.trace + [Ack(d.block), Store(d)],
                    if |d.bytes| != BLOCK_SIZE then Finished else Running)
          else s;
      if s'.phase == Running && p.expired then s'.(phase := GaveUp) else s'
  }

  function WriteRun(polls: seq<DataPoll>): Writing {
    if polls == [] then WRITE_START else WriteStep(WriteRun(polls[..|polls| - 1]), polls[|polls| - 1])
  }

  function Stored(trace: seq<WriteEvent>): (ds: seq<Datagram>)
    ensures |ds| <= |trace|
  {
    if trace == [] then []
    else Stored(trace[..|trace| - 1]) + match trace[|trace| - 1] case Ack(_) => [] case Store(d) => [d]
  }

  function Acked(trace: seq<WriteEvent>): (bs: seq<u16>)
    ensures |bs| <= |trace|
  {
    if trace == [] then []
    else Acked(trace[..|trace| - 1]) + match trace[|trace| - 1] case Ack(b) => [b] case Store(_) => []
  }

  lemma TraceSnoc(trace: seq<WriteEvent>, ev: WriteEvent)
    ensures Stored(trace + [ev]) == Stored(trace) + (if ev.Store? then [ev.data] else [])
    ensures Acked(trace + [ev]) == Acked(trace) + (if ev.Ack? then [ev.block] else [])
  {
    assert (trace + [ev])[..|trace|] == trace;
  }

  // One poll of a running write, whatever it brings: the block expected is acknowledged and stored,
  // a block before it is acknowledged again, and any other leaves everything as it is. The last
  // block ends the transfer; otherwise a timeout does.
  lemma PollWrites(polls: seq<DataPoll>, p: DataPoll)
    requires WriteRun(polls).phase == Running
    ensures var s, s' := WriteRun(polls), WriteRun(polls + [p]);
            var next := p.data.Some? && p.data.value.block == s.expected;
            && s'.trace == s.trace + (if next then [Ack(s.expected), Store(p.data.value)]
                                      else if p.data.Some? && p.data.value.block < s.expected then
                                        [Ack(p.data.value.block)]
                                      else [])
            && s'.expected == (if !next then s.expected else if s.expected == 0xFFFF then 0 else s.expected + 1)
            && (s'.phase == Finished <==> next && |p.data.value.bytes| != 512)
            && (s'.phase == GaveUp <==> p.expired && !(next && |p.data.value.bytes| != 512))
  {
    assert (polls + [p])[..|polls|] == polls;
  }
}
