// TFTPServer (src/TFTPServer.cpp): both transfer loops, in the buffer they share with everything
// else, proved against TftpModel.

module TftpServer {
  import opened Bytes
  import opened Frame
  import opened NodeModel
  import opened Udp
  import opened TftpModel
  import EtherSia

  const OPCODE_DATA: u8 := 3
  const OPCODE_ACK: u8 := 4

  // Whatever a call of receivePacket() may leave behind: the buffer, and what lies behind it; the
  // flag; the global address, which a router advertisement may have set; frames it sent itself, in
  // answer to a solicitation or an echo request. `expired`: millis() then said that time was up.
  datatype Poll = Poll(buffer: Image, beyond: Beyond, received: bool, expired: bool,
                       global: Addr, answers: seq<seq<u8>>)

  // A packet for the data socket with this opcode. Only the global address of a node may change.
  predicate Brings(n: Node, e: Endpoint, p: Poll, opcode: u8) {
    && p.received && Accepts(n.(global := p.global), e, p.buffer)
    && p.buffer[PAYLOAD] == 0 && p.buffer[PAYLOAD + 1] == opcode
  }

  function BlockNumber(b: Image): u16 { Word(b[64], b[65]) }

  function AsAck(n: Node, e: Endpoint, p: Poll): AckPoll {
    AckPoll(if Brings(n, e, p, OPCODE_ACK) then Some(BlockNumber(p.buffer)) else None, p.expired)
  }

  // The length that goes to writeBytes(), whatever the length field says.
  function DataLength(b: Image): u16 { U16(Length(b) - 12) }

  function DataIn(b: Image, beyond: Beyond): seq<u8> { (b + beyond)[66..66 + DataLength(b)] }

  function AsData(n: Node, e: Endpoint, p: Poll): DataPoll {
    DataPoll(if Brings(n, e, p, OPCODE_DATA) then Some(Datagram(BlockNumber(p.buffer), DataIn(p.buffer, p.beyond)))
             else None, p.expired)
  }

  ghost function Acks(n: Node, e: Endpoint, polls: seq<Poll>): seq<AckPoll> {
    seq(|polls|, i requires 0 <= i < |polls| => AsAck(n, e, polls[i]))
  }

  ghost function Datas(n: Node, e: Endpoint, polls: seq<Poll>): seq<DataPoll> {
    seq(|polls|, i requires 0 <= i < |polls| => AsData(n, e, polls[i]))
  }

  // What is read of a packet, byte by byte, when the socket takes it: an ACK or a DATA packet of
  // RFC 1350, with its block number and, up to the length in the UDP header, its data.
  lemma PacketIsRead(n: Node, e: Endpoint, p: Poll, opcode: u8, block: u16, bytes: seq<u8>)
    requires 66 + |bytes| <= SIZE && p.buffer[62..66 + |bytes|] == [0, opcode] + Word16(block) + bytes
    requires Length(p.buffer) == 12 + |bytes|
    ensures var takes := p.received && Accepts(n.(global := p.global), e, p.buffer);
            && AsAck(n, e, p) == AckPoll(if takes && opcode == 4 then Some(block) else None, p.expired)
            && AsData(n, e, p)
               == DataPoll(if takes && opcode == 3 then Some(Datagram(block, bytes)) else None, p.expired)
  {
    hide Accepts;
    var s := [0, opcode] + Word16(block) + bytes;
    assert forall i :: 0 <= i < 4 + |bytes| ==> p.buffer[62 + i] == s[i];
    forall i | 0 <= i < |bytes| ensures p.buffer[66 + i] == bytes[i] {
      assert p.buffer[62 + (4 + i)] == s[4 + i];
    }
    assert DataLength(p.buffer) == |bytes|;
    assert DataIn(p.buffer, p.beyond) == p.buffer[66..66 + |bytes|] == bytes;
  }

  // The frames on the wire: TFTP packets with these headers and bytes.
  ghost predicate IsPacket(frame: seq<u8>, opcode: u8, block: nat, bytes: seq<u8>) {
    block < 0x1_0000 && |frame| == 66 + |bytes| && frame[PAYLOAD..] == [0, opcode] + Word16(block) + bytes
  }

  ghost predicate AreAcks(frames: seq<seq<u8>>, acked: seq<u16>) {
    |frames| == |acked| && forall i :: 0 <= i < |frames| ==> IsPacket(frames[i], OPCODE_ACK, acked[i], [])
  }

  ghost predicate AreData(frames: seq<seq<u8>>, file: seq<u8>, sent: seq<nat>) {
    |frames| == |sent| &&
    forall i :: 0 <= i < |frames| ==> sent[i] >= 1 && IsPacket(frames[i], OPCODE_DATA, sent[i], Block(file, sent[i]))
  }

  lemma AcksAppend(frames: seq<seq<u8>>, acked: seq<u16>, frame: seq<u8>, block: u16)
    requires AreAcks(frames, acked) && IsPacket(frame, OPCODE_ACK, block, [])
    ensures AreAcks(frames + [frame], acked + [block])
  {
    hide IsPacket;
  }

  lemma DataAppend(frames: seq<seq<u8>>, file: seq<u8>, sent: seq<nat>, frame: seq<u8>, block: nat)
    requires AreData(frames, file, sent) && block >= 1 && IsPacket(frame, OPCODE_DATA, block, Block(file, block))
    ensures AreData(frames + [frame], file, sent + [block])
  {
    hide IsPacket, Block;
  }

  class TFTPServer {
    const ether: EtherSia.EtherSia
    const data: UDPSocket
    var polls: seq<Poll>             // what receivePacket() will bring
    var next: nat                    // how much of it has been received
    var trace: seq<WriteEvent>       // the ACKs and the calls of writeBytes(), in order

    constructor (ether: EtherSia.EtherSia, data: UDPSocket, polls: seq<Poll>)
      ensures this.ether == ether && this.data == data && this.polls == polls && next == 0 && trace == []
    {
      this.ether, this.data, this.polls, next, trace := ether, data, polls, 0, [];
    }

    ghost predicate Valid()
      reads this, data, ether
    {
      ether.Valid() && data.ether == ether && next <= |polls|
    }

    method ReceivePacket() returns (expired: bool)
      requires Valid() && next < |polls|
      modifies this`next, ether`bufferContainsReceived, ether`globalAddress, ether`beyond, ether`wire, ether.buffer
      ensures next == old(next) + 1
      ensures ether.Buf() == polls[old(next)].buffer && ether.bufferContainsReceived == polls[old(next)].received
      ensures ether.globalAddress == polls[old(next)].global && ether.beyond == polls[old(next)].beyond
      ensures ether.wire == old(ether.wire) + polls[old(next)].answers
      ensures expired == polls[old(next)].expired
    {
      var p := polls[next];
      ether.Store(0, p.buffer);
      assert ether.Buf() == p.buffer;
      ether.bufferContainsReceived := p.received;
      ether.globalAddress := p.global;
      ether.beyond := p.beyond;
      ether.wire := ether.wire + p.answers;
      expired := p.expired;
      next := next + 1;
    }

    method SendAck(block: u16)
      requires Valid()
      modifies this`trace, data`sent, ether`bufferContainsReceived, ether`wire, ether.buffer
      ensures |data.sent| == |old(data.sent)| + 1 && data.sent[..|old(data.sent)|] == old(data.sent)
      ensures IsPacket(data.sent[|old(data.sent)|], OPCODE_ACK, block, [])
      ensures ether.wire == old(ether.wire) + [data.sent[|old(data.sent)|]]
      ensures trace == old(trace) + [Ack(block)]
      // The rest of the payload is still there.
      ensures forall i :: 66 <= i < SIZE ==> ether.buffer[i] == old(ether.buffer[i])
    {
      hide Put, Sent, IsValid;
      ether.Store(PAYLOAD, [0, OPCODE_ACK] + Word16(block));
      SentIs(ether.Self(), data.e, ether.Buf(), 4);
      data.Send(4);
      var frame := data.sent[|old(data.sent)|];
      assert frame[PAYLOAD..] == [0, OPCODE_ACK] + Word16(block) + [];
      trace := trace + [Ack(block)];
    }

    // A write request: runs until the transfer ends, or the script does.
    method HandleWriteRequest() returns (phase: Phase)
      requires Valid() && next == 0 && trace == []
      modifies this`next, this`trace, data`sent
      modifies ether`bufferContainsReceived, ether`globalAddress, ether`beyond, ether`wire, ether.buffer
      ensures Valid() && (phase == Running ==> next == |polls|)
      ensures var end := WriteRun(Datas(old(ether.Self()), data.e, polls[..next]));
              && phase == end.phase && trace == end.trace
              && old(data.sent) <= data.sent && AreAcks(data.sent[|old(data.sent)|..], Acked(trace))
    {
      ghost var start, n, e := |data.sent|, ether.Self(), data.e;
      ghost var s := WRITE_START;
      SendAck(0);
      assert polls[..0] == [] && data.sent[start..] == [data.sent[start]];
      FirstAck(data.sent[start]);
      assert WriteRun(Datas(n, e, [])) == s;
      hide AreAcks, WriteRun, WriteStep, Datas, Acked;
      var expectedBlock: u16 := 1;
      phase := Running;
      while next < |polls| && phase == Running
        invariant Valid() && old(data.sent) <= data.sent
        invariant ether.Self() == n.(global := ether.globalAddress)
        invariant s == WriteRun(Datas(n, e, polls[..next]))
        invariant s.phase == phase && s.expected == expectedBlock && s.trace == trace
        invariant AreAcks(data.sent[start..], Acked(trace))
        decreases |polls| - next
      {
        hide AsData;
        DatasSnoc(n, e, polls, next);
        s := WriteStep(s, AsData(n, e, polls[next]));
        expectedBlock, phase := ReceiveBlock(expectedBlock, n, start);
      }
      assert phase == Running ==> polls[..next] == polls;
    }

    // writeBytes() is the application's.
    method WriteBytes(block: u16, bytes: seq<u8>)
      modifies this`trace
      ensures trace == old(trace) + [Store(Datagram(block, bytes))] && Acked(trace) == Acked(old(trace))
    {
      TraceSnoc(trace, Store(Datagram(block, bytes)));
      trace := trace + [Store(Datagram(block, bytes))];
    }

    // One turn of the loop. The node is `n`, but for its global address.
    method ReceiveBlock(expectedBlock: u16, ghost n: Node, ghost start: nat) returns (expectedBlock': u16, phase: Phase)
      requires Valid() && next < |polls| && ether.Self() == n.(global := ether.globalAddress)
      requires start <= |data.sent| && AreAcks(data.sent[start..], Acked(trace))
      modifies this`next, this`trace, data`sent
      modifies ether`bufferContainsReceived, ether`globalAddress, ether`beyond, ether`wire, ether.buffer
      ensures Valid() && next == old(next) + 1 && ether.Self() == n.(global := ether.globalAddress)
      ensures Writing(expectedBlock', trace, phase)
           == WriteStep(Writing(expectedBlock, old(trace), Running), AsData(n, data.e, polls[old(next)]))
      ensures old(data.sent) <= data.sent && AreAcks(data.sent[start..], Acked(trace))
    {
      hide AreAcks, Acked, IsPacket, Accepts;
      ghost var p := polls[next];
      expectedBlock', phase := expectedBlock, Running;
      var expired := ReceivePacket();
      var have := data.HavePacket();
      if have && ether.buffer[PAYLOAD] == 0 && ether.buffer[PAYLOAD + 1] == OPCODE_DATA {
        var len: u16 := U16(Word(ether.buffer[58], ether.buffer[59]) - 12);
        var block := Word(ether.buffer[64], ether.buffer[65]);
        if block <= expectedBlock {
          ghost var before := data.sent;
          SendAck(block);
          AckSent(before, data.sent, start, old(trace), block);
        }
        if block == expectedBlock {
          SameData(p.buffer, ether.buffer[..], ether.beyond, len);
          WriteBytes(block, (ether.buffer[..] + ether.beyond)[66..66 + len]);
          expectedBlock' := U16(expectedBlock + 1);
          if len != BLOCK_SIZE {
            phase := Finished;
            return;
          }
        }
      }
      if expired {
        phase := GaveUp;
      }
    }

    // A read request: the file is what readBytes() reads.
    method HandleReadRequest(file: seq<u8>) returns (phase: Phase)
      requires Valid() && next == 0
      modifies this`next, data`sent
      modifies ether`bufferContainsReceived, ether`globalAddress, ether`beyond, ether`wire, ether.buffer
      ensures Valid() && (phase == Running ==> next == |polls|)
      ensures var polled := Acks(old(ether.Self()), data.e, polls[..next]);
              && phase == ReadRun(file, polled).phase
              && old(data.sent) <= data.sent
              && AreData(data.sent[|old(data.sent)|..], file, ReadRun(file, polled).sent)
              // It only goes on while there is a decision to wait for.
              && (phase == Running ==> Decisive(polled) < (RETRIES + 1) * Blocks(file))
    {
      ghost var start, n, e := |data.sent|, ether.Self(), data.e;
      ghost var s := READ_START;
      assert polls[..0] == [] && data.sent[start..] == [];
      assert ReadRun(file, Acks(n, e, [])) == s && AreData([], file, s.sent[..0]);
      hide ReadRun, Block, Blocks, Decisive, AreData, IsPacket, Acks;
      var block, retries := 1, 0;
      while block < LAST_BLOCK
        invariant Valid() && old(data.sent) <= data.sent
        invariant ether.Self() == n.(global := ether.globalAddress)
        invariant s == ReadRun(file, Acks(n, e, polls[..next]))
        invariant s.block == block && s.retries == retries
        invariant block < LAST_BLOCK ==>
                    && s.phase == Running && |s.sent| > 0 && s.sent[|s.sent| - 1] == block
                    && AreData(data.sent[start..], file, s.sent[..|s.sent| - 1])
        invariant block == LAST_BLOCK ==> s.phase == OutOfBlocks && AreData(data.sent[start..], file, s.sent)
        decreases |polls| - next
      {
        ghost var s0 := s;
        SendData(file, block, start, s0.sent[..|s0.sent| - 1]);
        assert s0.sent == s0.sent[..|s0.sent| - 1] + [block];
        var len := |Block(file, block)|;
        var gotAck, ended := WaitForAck(block, file, n, s0);
        if ended {
          StillReading(file, Acks(n, e, polls[..next]));
          return Running;
        }
        s := if gotAck then Advance(file, s0) else TftpModel.Retry(s0);
        if gotAck {
          block := block + 1;
          retries := 0;
        } else {
          retries := retries + 1;
          if retries > RETRIES { return GaveUp; }
          assert s.sent[..|s.sent| - 1] == s0.sent;
          continue;
        }
        if len < BLOCK_SIZE { return Finished; }
        if block < LAST_BLOCK { assert s.sent[..|s.sent| - 1] == s0.sent; }
      }
      phase := OutOfBlocks;
    }

    // `sent` are the blocks that this transfer has put on the wire before: its frames from `start` on.
    method SendData(file: seq<u8>, block: nat, ghost start: nat, ghost sent: seq<nat>)
      requires Valid() && 1 <= block < 0x1_0000
      requires start <= |data.sent| && AreData(data.sent[start..], file, sent)
      modifies data`sent, ether`bufferContainsReceived, ether`wire, ether.buffer
      ensures |data.sent| == |old(data.sent)| + 1 && old(data.sent) <= data.sent
      ensures ether.wire == old(ether.wire) + [data.sent[|old(data.sent)|]]
      ensures AreData(data.sent[start..], file, sent + [block])
    {
      hide Put, Sent, IsValid, Block, AreData;
      var bytes := Block(file, block);
      ether.Store(PAYLOAD, [0, OPCODE_DATA] + Word16(block));
      ether.Store(PAYLOAD + 4, bytes);
      ghost var b := ether.Buf();
      SentIs(ether.Self(), data.e, b, 4 + |bytes|);
      data.Send(4 + |bytes|);
      var frame := data.sent[|old(data.sent)|];
      assert frame[PAYLOAD..] == b[PAYLOAD..PAYLOAD + 4 + |bytes|];
      assert b[PAYLOAD..PAYLOAD + 4 + |bytes|] == [0, OPCODE_DATA] + Word16(block) + bytes;
      assert data.sent[start..] == old(data.sent)[start..] + [frame];
      DataAppend(old(data.sent)[start..], file, sent, frame, block);
    }

    // `ended` says that the script ran out while waiting.
    method WaitForAck(expectedBlock: nat, ghost file: seq<u8>, ghost n: Node, ghost s: Reading)
      returns (gotAck: bool, ended: bool)
      requires Valid() && s == ReadRun(file, Acks(n, data.e, polls[..next]))
      requires ether.Self() == n.(global := ether.globalAddress)
      requires s.phase == Running && s.block == expectedBlock
      modifies this`next, ether`bufferContainsReceived, ether`globalAddress, ether`beyond, ether`wire, ether.buffer
      ensures Valid() && next >= old(next) && ether.Self() == n.(global := ether.globalAddress)
      ensures var s' := ReadRun(file, Acks(n, data.e, polls[..next]));
              if ended then next == |polls| && s' == s
              else next > old(next) && s' == if gotAck then Advance(file, s) else TftpModel.Retry(s)
    {
      ghost var e := data.e;
      while next < |polls|
        invariant Valid() && next >= old(next) && ether.Self() == n.(global := ether.globalAddress)
        invariant s == ReadRun(file, Acks(n, e, polls[..next]))
        decreases |polls| - next
      {
        hide ReadRun, Advance;
        AcksSnoc(n, e, file, polls[..next], polls[next]);
        assert polls[..next] + [polls[next]] == polls[..next + 1];
        var expired := ReceivePacket();
        var have := data.HavePacket();
        if have && ether.buffer[PAYLOAD] == 0 && ether.buffer[PAYLOAD + 1] == OPCODE_ACK {
          var receivedBlock := Word(ether.buffer[64], ether.buffer[65]);
          return receivedBlock == expectedBlock, false;
        }
        if expired { return false, false; }
      }
      return false, true;
    }
  }

  lemma AcksSnoc(n: Node, e: Endpoint, file: seq<u8>, polls: seq<Poll>, p: Poll)
    ensures ReadRun(file, Acks(n, e, polls + [p])) == ReadStep(file, ReadRun(file, Acks(n, e, polls)), AsAck(n, e, p))
  {
    hide AsAck, ReadStep;
    var acks := Acks(n, e, polls);
    assert Acks(n, e, polls + [p]) == acks + [AsAck(n, e, p)];
    assert (acks + [AsAck(n, e, p)])[..|acks|] == acks;
  }

  lemma StillReading(file: seq<u8>, polls: seq<AckPoll>)
    requires ReadRun(file, polls).phase == Running
    ensures Decisive(polls) < (RETRIES + 1) * Blocks(file)
  {
    if Decisive(polls) >= (RETRIES + 1) * Blocks(file) { ReadingEnds(file, polls); }
  }

  lemma FirstAck(frame: seq<u8>)
    requires IsPacket(frame, OPCODE_ACK, 0, [])
    ensures AreAcks([frame], Acked([Ack(0)]))
  {
    hide IsPacket;
    TraceSnoc([], Ack(0));
    assert [] + [Ack(0)] == [Ack(0)];
  }

  lemma AckSent(sent: seq<seq<u8>>, sent': seq<seq<u8>>, start: nat, trace: seq<WriteEvent>, block: u16)
    requires start <= |sent| && AreAcks(sent[start..], Acked(trace))
    requires |sent'| == |sent| + 1 && sent <= sent' && IsPacket(sent'[|sent|], OPCODE_ACK, block, [])
    ensures AreAcks(sent'[start..], Acked(trace + [Ack(block)]))
  {
    hide IsPacket, AreAcks, Acked;
    TraceSnoc(trace, Ack(block));
    AcksAppend(sent[start..], Acked(trace), sent'[|sent|], block);
    assert sent'[start..] == sent[start..] + [sent'[|sent|]];
  }

  lemma SameData(b: Image, b': Image, beyond: Beyond, len: u16)
    requires forall i :: 66 <= i < SIZE ==> b'[i] == b[i]
    ensures (b + beyond)[66..66 + len] == (b' + beyond)[66..66 + len]
  {
  }

  lemma DatasSnoc(n: Node, e: Endpoint, polls: seq<Poll>, i: nat)
    requires i < |polls|
    ensures WriteRun(Datas(n, e, polls[..i + 1]))
            == WriteStep(WriteRun(Datas(n, e, polls[..i])), AsData(n, e, polls[i]))
  {
    hide AsData, WriteStep;
    var ds, d := Datas(n, e, polls[..i]), AsData(n, e, polls[i]);
    assert Datas(n, e, polls[..i + 1]) == ds + [d];
    assert (ds + [d])[..|ds|] == ds;
  }
}
