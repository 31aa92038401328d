// The W5100's memory (src/w5100.cpp, src/w5100.h): two 8 KiB rings addressed by free-running
// 16-bit pointers, seen as a queue of frames.

module W5100 {
  import opened Bytes

  const TX_BASE := 0x4000   // TxBufferAddress
  const RX_BASE := 0x6000   // RxBufferAddress
  const RING := 0x2000      // TxBufferLength and RxBufferLength
  const MEMORY := 0x8000

  // What the chip stores for a frame: its length with these two bytes, and its bytes.
  function Record(f: seq<u8>): seq<u8>
    requires |f| <= RING - 2
  { Word16(|f| + 2) + f }

  type EthFrame = f: seq<u8> | 1 <= |f| <= RING - 2 witness [0]

  function Flat(queue: seq<EthFrame>): seq<u8> {
    if queue == [] then [] else Record(queue[0]) + Flat(queue[1..])
  }

  lemma {:induction false} FlatAppend(queue: seq<EthFrame>, f: EthFrame)
    ensures Flat(queue + [f]) == Flat(queue) + Record(f)
  {
    if queue == [] {
      assert queue + [f] == [f] && [f][1..] == [];
    } else {
      assert (queue + [f])[1..] == queue[1..] + [f];
      FlatAppend(queue[1..], f);
      assert Record(queue[0]) + (Flat(queue[1..]) + Record(f)) == Record(queue[0]) + Flat(queue[1..]) + Record(f);
    }
  }

  // Cell k of a window that starts at a pointer; the ring size divides the pointer range.
  function Cell(base: nat, ptr: u16, k: nat): nat { base + (ptr + k) % RING }

  lemma CellAdvances(base: nat, ptr: u16, n: nat, k: nat)
    requires n <= RING
    ensures Cell(base, U16(ptr + n), k) == Cell(base, ptr, n + k)
  {
    if ptr + n >= 0x1_0000 {
      assert ptr + n + k == (ptr + n - 0x1_0000 + k) + 8 * RING;
    }
  }

  // Each window stays in its own 8 KiB: what is sent never touches what has been received.
  lemma RingsApart(ptr: u16, k: nat)
    ensures 0x4000 <= Cell(TX_BASE, ptr, k) < 0x6000 <= Cell(RX_BASE, ptr, k) < 0x8000
  {
  }

  class Wizchip {
    const mem: array<u8>
    var txWR: u16           // Sn_TX_WR
    var rxRD: u16           // Sn_RX_RD
    var rxWR: u16           // where the chip stores the next record
    var rxSeen: u16         // Sn_RX_RD as of the last RECV command
    ghost var queue: seq<EthFrame>

    constructor ()
      ensures Valid() && fresh(mem) && queue == []
    {
      mem := new u8[MEMORY];
      txWR, rxRD, rxWR, rxSeen, queue := 0, 0, 0, 0, [];
    }

    ghost predicate Holds(bytes: seq<u8>)
      reads this`rxRD, mem
    {
      mem.Length == MEMORY && |bytes| <= RING &&
      forall k :: 0 <= k < |bytes| ==> mem[Cell(RX_BASE, rxRD, k)] == bytes[k]
    }

    // `bytes` are all that is left to read, and the chip knows how far it has been read.
    ghost predicate Ready(bytes: seq<u8>)
      reads this`rxRD, this`rxSeen, this`rxWR, mem
    { Holds(bytes) && rxSeen == rxRD && rxWR == U16(rxRD + |bytes|) }

    ghost predicate Valid()
      reads this, mem
    { Ready(Flat(queue)) }

    // getSn_RX_RSR()
    function Received(): u16
      reads this
    { U16(rxWR - rxSeen) }

    // setSn_CR(Sn_CR_RECV)
    method CommandRecv()
      modifies this`rxSeen
      ensures rxSeen == rxRD
    { rxSeen := rxRD; }

    // The chip receives a frame, or has no room for it. `bytes` are what the driver has yet to read.
    method Receive(f: EthFrame, ghost bytes: seq<u8>) returns (stored: bool)
      requires Ready(bytes)
      modifies this`rxWR, mem
      ensures stored == (|bytes| + |f| + 2 <= RING)
      ensures Ready(if stored then bytes + Record(f) else bytes)
    {
      if Received() + |f| + 2 > RING { return false; }
      ghost var n, all := |bytes|, bytes + Record(f);
      var record := Record(f);
      var i := 0;
      while i < |record|
        modifies mem
        invariant 0 <= i <= |record|
        invariant forall k :: 0 <= k < n + i ==> mem[Cell(RX_BASE, rxRD, k)] == all[k]
      {
        CellAdvances(RX_BASE, rxRD, n, i);
        CellsDiffer(RX_BASE, rxRD, n + i);
        mem[Cell(RX_BASE, rxWR, i)] := record[i];
        i := i + 1;
      }
      rxWR := U16(rxWR + |record|);
      stored := true;
    }

    method Arrive(f: EthFrame)
      requires Valid()
      modifies this`rxWR, this`queue, mem
      ensures Valid() && queue == Admit(0, old(queue), [f])
    {
      hide Ready;
      FlatAppend(queue, f);
      AdmitOne(0, queue, f);
      var stored := Receive(f, Flat(queue));
      if stored { queue := queue + [f]; }
    }

    // wizchip_read_buf()
    method ReadBuf(address: nat, dest: array<u8>, from: nat, len: nat)
      requires mem.Length == MEMORY && address + len <= MEMORY && from + len <= dest.Length && dest != mem
      modifies dest
      ensures forall i :: 0 <= i < dest.Length ==>
                dest[i] == if from <= i < from + len then mem[address + i - from] else old(dest[i])
    {
      for i := 0 to len
        invariant forall j :: 0 <= j < dest.Length ==>
                    dest[j] == if from <= j < from + i then mem[address + j - from] else old(dest[j])
      {
        dest[from + i] := mem[address + i];
      }
    }

    // wizchip_write_buf()
    method WriteBuf(address: nat, src: seq<u8>)
      requires mem.Length == MEMORY && address + |src| <= MEMORY
      modifies mem
      ensures forall i :: 0 <= i < MEMORY ==>
                mem[i] == if address <= i < address + |src| then src[i - address] else old(mem[i])
    {
      for i := 0 to |src|
        invariant forall j :: 0 <= j < MEMORY ==>
                    mem[j] == if address <= j < address + i then src[j - address] else old(mem[j])
      {
        mem[address + i] := src[i];
      }
    }

    // wizchip_send_data(): byte k goes to ring cell WR + k, and nothing else is touched.
    method SendData(data: seq<u8>)
      requires mem.Length == MEMORY && |data| <= RING
      modifies this`txWR, mem
      ensures txWR == U16(old(txWR) + |data|)
      ensures forall k :: 0 <= k < |data| ==> mem[Cell(TX_BASE, old(txWR), k)] == data[k]
      ensures forall i :: 0 <= i < MEMORY && (forall k :: 0 <= k < |data| ==> Cell(TX_BASE, old(txWR), k) != i)
                ==> mem[i] == old(mem[i])
    {
      var mask := txWR % RING;
      CellsAre(TX_BASE, txWR, |data|);
      if mask + |data| > RING {
        var size := RING - mask;
        WriteBuf(TX_BASE + mask, data[..size]);
        WriteBuf(TX_BASE, data[size..]);
      } else {
        WriteBuf(TX_BASE + mask, data);
      }
      txWR := U16(txWR + |data|);
    }

    // wizchip_recv_data(), while the ring holds `bytes` from the read pointer on
    method RecvData(dest: array<u8>, len: nat, ghost bytes: seq<u8>)
      requires Holds(bytes) && len <= |bytes| && len <= dest.Length && dest != mem
      modifies this`rxRD, dest
      ensures rxRD == U16(old(rxRD) + len)
      ensures dest[..] == bytes[..len] + old(dest[len..])
      ensures Holds(bytes[len..])
    {
      var mask := rxRD % RING;
      CellsAre(RX_BASE, rxRD, len);
      assert forall k :: 0 <= k < |bytes| ==> mem[Cell(RX_BASE, rxRD, k)] == bytes[k];
      hide Cell, Holds;
      if mask + len > RING {
        var size := RING - mask;
        ReadBuf(RX_BASE + mask, dest, 0, size);
        ReadBuf(RX_BASE, dest, size, len - size);
      } else {
        ReadBuf(RX_BASE + mask, dest, 0, len);
      }
      assert forall k :: 0 <= k < len ==> dest[k] == mem[Cell(RX_BASE, rxRD, k)];
      rxRD := U16(rxRD + len);
      HoldsRest(old(rxRD), len, bytes);
    }

    lemma HoldsRest(start: u16, n: nat, bytes: seq<u8>)
      requires mem.Length == MEMORY && n <= |bytes| <= RING && rxRD == U16(start + n)
      requires forall k :: 0 <= k < |bytes| ==> mem[Cell(RX_BASE, start, k)] == bytes[k]
      ensures Holds(bytes[n..])
    {
      forall k | 0 <= k < |bytes| - n ensures mem[Cell(RX_BASE, rxRD, k)] == bytes[n..][k] {
        CellAdvances(RX_BASE, start, n, k);
      }
    }

    // wizchip_recv_ignore()
    method RecvIgnore(len: nat, ghost bytes: seq<u8>)
      requires Holds(bytes) && len <= |bytes|
      modifies this`rxRD
      ensures rxRD == U16(old(rxRD) + len)
      ensures Holds(bytes[len..])
    {
      rxRD := U16(rxRD + len);
      HoldsRest(old(rxRD), len, bytes);
    }

    // `meanwhile` arrive between the two RECV commands, while the chip has got back the room of the
    // length only. Those that arrive at other times might as well come before the call or after it.
    method ReadFrame(buffer: array<u8>, meanwhile: seq<EthFrame>) returns (len: nat)
      requires Valid() && buffer != mem
      modifies this`rxRD, this`rxSeen, this`rxWR, this`queue, mem, buffer
      ensures Valid()
      ensures old(queue) == [] ==> len == 0 && queue == [] && buffer[..] == old(buffer[..])
      ensures old(queue) != [] ==>
                var f := old(queue)[0];
                && queue == Admit(|f|, old(queue)[1..], meanwhile)
                && (if |f| <= buffer.Length then len == |f| && buffer[..] == f + old(buffer[len..])
                    else len == 0 && buffer[..] == old(buffer[..]))
    {
      var rsr := Received();
      if rsr == 0 { return 0; }
      ghost var f: seq<u8>, rest: seq<u8> := queue[0], Flat(queue[1..]);
      assert Flat(queue) == Word16(|f| + 2) + (f + rest);
      hide Cell, Holds, Flat, Ready;
      var dataLen := ReadHead(f, rest);
      queue := queue[1..];
      Meanwhile(f, meanwhile);
      rest := Flat(queue);
      len := ReadBody(buffer, dataLen, f, rest);
    }

    method Meanwhile(ghost f: seq<u8>, frames: seq<EthFrame>)
      requires Ready(f + Flat(queue))
      modifies this`rxWR, this`queue, mem
      ensures Ready(f + Flat(queue)) && queue == Admit(|f|, old(queue), frames)
    {
      hide Ready, Flat;
      ghost var all := Admit(|f|, queue, frames);
      for i := 0 to |frames|
        modifies this`rxWR, this`queue, mem
        invariant Ready(f + Flat(queue)) && Admit(|f|, queue, frames[i..]) == all
      {
        FlatAppend(queue, frames[i]);
        assert frames[i..][0] == frames[i] && frames[i..][1..] == frames[i + 1..];
        assert f + Flat(queue) + Record(frames[i]) == f + (Flat(queue) + Record(frames[i]));
        var stored := Receive(frames[i], f + Flat(queue));
        if stored { queue := queue + [frames[i]]; }
      }
    }

    method ReadBody(buffer: array<u8>, dataLen: nat, ghost f: seq<u8>, ghost rest: seq<u8>) returns (len: nat)
      requires Ready(f + rest) && dataLen == |f| && buffer != mem
      modifies this`rxRD, this`rxSeen, buffer
      ensures Ready(rest)
      ensures if |f| <= buffer.Length then len == |f| && buffer[..] == f + old(buffer[len..])
              else len == 0 && buffer[..] == old(buffer[..])
    {
      assert (f + rest)[..dataLen] == f && (f + rest)[dataLen..] == rest;
      hide Cell, Holds;
      if dataLen > buffer.Length {
        RecvIgnore(dataLen, f + rest);
        len := 0;
      } else {
        RecvData(buffer, dataLen, f + rest);
        len := dataLen;
      }
      CommandRecv();
    }

    method ReadHead(ghost f: seq<u8>, ghost rest: seq<u8>) returns (dataLen: nat)
      requires |f| <= RING - 2 && Ready(Word16(|f| + 2) + (f + rest))
      modifies this`rxRD, this`rxSeen
      ensures dataLen == |f| && Ready(f + rest)
    {
      hide Cell, Holds;
      ghost var all := Word16(|f| + 2) + (f + rest);
      var head := new u8[2];
      RecvData(head, 2, all);
      CommandRecv();
      assert head[..] == all[..2] == Word16(|f| + 2) && all[2..] == f + rest;
      assert head[0] == head[..][0] && head[1] == head[..][1];
      dataLen := Word(head[0], head[1]) - 2;
    }
  }

  // Within one turn of the ring, all cells differ.
  lemma CellsDiffer(base: nat, ptr: u16, n: nat)
    requires n < RING
    ensures forall k :: 0 <= k < n ==> Cell(base, ptr, k) != Cell(base, ptr, n)
  {
  }

  lemma CellsAre(base: nat, ptr: u16, len: nat)
    requires len <= RING
    ensures forall k :: 0 <= k < len ==>
              Cell(base, ptr, k) == if ptr % RING + k < RING then base + ptr % RING + k
                                    else base + ptr % RING + k - RING
  {
  }

  // ----- whole runs

  // Frames that arrive one after the other; `unread` bytes of a frame before the queue take up room.
  function Admit(unread: nat, queue: seq<EthFrame>, frames: seq<EthFrame>): seq<EthFrame>
    decreases |frames|
  {
    if frames == [] then queue
    else if unread + |Flat(queue)| + |frames[0]| + 2 <= RING then Admit(unread, queue + [frames[0]], frames[1..])
    else Admit(unread, queue, frames[1..])
  }

  lemma AdmitOne(unread: nat, queue: seq<EthFrame>, f: EthFrame)
    ensures Admit(unread, queue, [f])
         == if unread + |Flat(queue)| + |f| + 2 <= RING then queue + [f] else queue
  {
    hide Flat;
    assert [f][1..] == [];
  }

  datatype Event = Arrival(f: EthFrame) | Read(meanwhile: seq<EthFrame>)

  // A plain queue with room for 8 KiB of records; `bufsize` is the room the reader has.
  datatype Plain = Plain(queue: seq<EthFrame>, arrived: seq<EthFrame>, returned: seq<seq<u8>>)

  function Next(p: Plain, bufsize: nat, ev: Event): Plain {
    match ev
    case Arrival(f) => Arrivals(p, 0, [f])
    case Read(meanwhile) =>
      if p.queue == [] then p
      else
        var f := p.queue[0];
        var q := p.(queue := p.queue[1..], returned := if |f| <= bufsize then p.returned + [f] else p.returned);
        Arrivals(q, |f|, meanwhile)
  }

  // What is admitted has arrived.
  function Arrivals(p: Plain, unread: nat, frames: seq<EthFrame>): Plain
    decreases |frames|
  {
    if frames == [] then p
    else if unread + |Flat(p.queue)| + |frames[0]| + 2 <= RING then
      Arrivals(p.(queue := p.queue + [frames[0]], arrived := p.arrived + [frames[0]]), unread, frames[1..])
    else Arrivals(p, unread, frames[1..])
  }

  lemma {:induction false} ArrivalsAdmit(p: Plain, unread: nat, frames: seq<EthFrame>)
    ensures Arrivals(p, unread, frames).queue == Admit(unread, p.queue, frames)
    ensures Arrivals(p, unread, frames).returned == p.returned
    decreases |frames|
  {
    hide Flat;
    if frames != [] {
      if unread + |Flat(p.queue)| + |frames[0]| + 2 <= RING {
        ArrivalsAdmit(p.(queue := p.queue + [frames[0]], arrived := p.arrived + [frames[0]]), unread, frames[1..]);
      } else {
        ArrivalsAdmit(p, unread, frames[1..]);
      }
    }
  }

  function Run(bufsize: nat, evs: seq<Event>): Plain {
    if evs == [] then Plain([], [], []) else Next(Run(bufsize, evs[..|evs| - 1]), bufsize, evs[|evs| - 1])
  }

  // The chip and the driver, through any interleaving, hand out what the queue hands out.
  method Play(bufsize: nat, evs: seq<Event>) returns (returned: seq<seq<u8>>)
    ensures returned == Run(bufsize, evs).returned
  {
    var chip := new Wizchip();
    var buffer := new u8[bufsize];
    returned := [];
    hide Flat, Admit, Arrivals;
    for i := 0 to |evs|
      invariant chip.Valid() && fresh(chip) && fresh(chip.mem) && buffer != chip.mem
      invariant chip.queue == Run(bufsize, evs[..i]).queue && returned == Run(bufsize, evs[..i]).returned
    {
      assert evs[..i + 1][..i] == evs[..i];
      ghost var p := Run(bufsize, evs[..i]);
      match evs[i]
      case Arrival(f) =>
        ArrivalsAdmit(p, 0, [f]);
        chip.Arrive(f);
      case Read(meanwhile) =>
        if p.queue != [] {
          ghost var f := p.queue[0];
          ghost var q := p.(queue := p.queue[1..], returned := if |f| <= bufsize then p.returned + [f] else p.returned);
          ArrivalsAdmit(q, |f|, meanwhile);
        }
        var len := chip.ReadFrame(buffer, meanwhile);
        if len > 0 {
          returned := returned + [buffer[..len]];
        }
    }
    assert evs[..|evs|] == evs;
  }

  function Fitting(frames: seq<EthFrame>, bufsize: nat): seq<seq<u8>> {
    if frames == [] then []
    else Fitting(frames[..|frames| - 1], bufsize)
         + (if |frames[|frames| - 1]| <= bufsize then [frames[|frames| - 1]] else [])
  }

  lemma {:induction false} FittingAppends(a: seq<EthFrame>, b: seq<EthFrame>, bufsize: nat)
    ensures Fitting(a + b, bufsize) == Fitting(a, bufsize) + Fitting(b, bufsize)
  {
    if b == [] {
      assert a + b == a;
    } else {
      assert (a + b)[..|a + b| - 1] == a + b[..|b| - 1];
      FittingAppends(a, b[..|b| - 1], bufsize);
    }
  }

  lemma FittingFirst(q: seq<EthFrame>, bufsize: nat)
    requires q != []
    ensures Fitting(q, bufsize) == (if |q[0]| <= bufsize then [q[0]] else []) + Fitting(q[1..], bufsize)
  {
    FittingOne(q[0], bufsize);
    FittingAppends([q[0]], q[1..], bufsize);
    assert q == [q[0]] + q[1..];
  }

  lemma FittingOne(f: EthFrame, bufsize: nat)
    ensures Fitting([f], bufsize) == if |f| <= bufsize then [f] else []
  {
    assert [f][..0] == [];
  }

  ghost predicate Framed(p: Plain, bufsize: nat) {
    p.returned + Fitting(p.queue, bufsize) == Fitting(p.arrived, bufsize)
  }

  lemma {:induction false} ArrivalsKeepFrames(p: Plain, bufsize: nat, unread: nat, frames: seq<EthFrame>)
    requires Framed(p, bufsize)
    ensures Framed(Arrivals(p, unread, frames), bufsize)
    decreases |frames|
  {
    hide Flat, Fitting;
    if frames != [] {
      var f := frames[0];
      var q := p.(queue := p.queue + [f], arrived := p.arrived + [f]);
      FittingAppends(p.queue, [f], bufsize);
      FittingAppends(p.arrived, [f], bufsize);
      if unread + |Flat(p.queue)| + |f| + 2 <= RING {
        ArrivalsKeepFrames(q, bufsize, unread, frames[1..]);
      } else {
        ArrivalsKeepFrames(p, bufsize, unread, frames[1..]);
      }
    }
  }

  // At any moment, the frames returned so far, followed by those still queued, are the frames that
  // arrived, in order, without the ones larger than the buffer: framing is never lost.
  lemma {:induction false} FramesComeInOrder(bufsize: nat, evs: seq<Event>)
    ensures Framed(Run(bufsize, evs), bufsize)
  {
    hide Fitting, Arrivals;
    if evs != [] {
      var p, ev := Run(bufsize, evs[..|evs| - 1]), evs[|evs| - 1];
      FramesComeInOrder(bufsize, evs[..|evs| - 1]);
      match ev
      case Arrival(f) =>
        ArrivalsKeepFrames(p, bufsize, 0, [f]);
      case Read(meanwhile) =>
        if p.queue != [] {
          var f := p.queue[0];
          var q := p.(queue := p.queue[1..], returned := if |f| <= bufsize then p.returned + [f] else p.returned);
          FittingFirst(p.queue, bufsize);
          ArrivalsKeepFrames(q, bufsize, |f|, meanwhile);
        }
    }
  }
}
