// A transfer between the server and a peer that follows sections 2, 4 and 6 of RFC 1350, over a
// network that may lose, duplicate and reorder: what was sent may arrive at any later time.

module TftpNetwork {
  import opened Bytes
  import opened TftpModel

  // ----- reading: the peer stores block after block and acknowledges what it stores

  datatype Download = Download(
    polls: seq<AckPoll>,  // what the server has seen
    stored: seq<u8>, last: nat, done: bool,
    acks: set<nat>)

  datatype ReadMove =
    | ServerPolls(p: AckPoll)
    | PeerHears(block: nat)

  ghost function Server(file: seq<u8>, w: Download): Reading { ReadRun(file, w.polls) }

  ghost predicate ReadEnabled(file: seq<u8>, w: Download, m: ReadMove) {
    match m
    case ServerPolls(p) => p.ack.Some? ==> p.ack.value in w.acks
    case PeerHears(b) => b in Server(file, w).sent
  }

  // The next block is stored and acknowledged; the last one is shorter than 512 bytes. Any other
  // block is a duplicate: its ACK, if repeated, is one that has been sent before.
  ghost function ReadNext(file: seq<u8>, w: Download, m: ReadMove): Download {
    match m
    case ServerPolls(p) => w.(polls := w.polls + [p])
    case PeerHears(b) =>
      if b == w.last + 1 && !w.done then
        w.(stored := w.stored + Block(file, b), last := b, done := |Block(file, b)| < BLOCK_SIZE, acks := w.acks + {b})
      else w
  }

  const READ_BEGIN := Download([], [], 0, false, {})

  ghost function Downloads(file: seq<u8>, moves: seq<ReadMove>): Download {
    if moves == [] then READ_BEGIN
    else ReadNext(file, Downloads(file, moves[..|moves| - 1]), moves[|moves| - 1])
  }

  ghost predicate DownloadLegal(file: seq<u8>, moves: seq<ReadMove>) {
    moves != [] ==>
      DownloadLegal(file, moves[..|moves| - 1]) &&
      ReadEnabled(file, Downloads(file, moves[..|moves| - 1]), moves[|moves| - 1])
  }

  function Prefix(file: seq<u8>, blocks: nat): seq<u8> { file[..Min(blocks * BLOCK_SIZE, |file|)] }

  ghost predicate InStep(file: seq<u8>, w: Download) {
    var s := Server(file, w);
    && Paced(s)
    && w.stored == Prefix(file, w.last)
    && (w.done <==> w.last >= 1 && |Block(file, w.last)| < BLOCK_SIZE)
    && (w.last > 1 ==> |Block(file, w.last - 1)| == BLOCK_SIZE)
    && (forall a :: a in w.acks ==> 1 <= a <= w.last)
    && (match s.phase
        case Finished => w.last == s.block - 1 && w.done
        case OutOfBlocks => w.last == s.block - 1 == LAST_BLOCK - 1 && !w.done
        case _ => s.block - 1 <= w.last <= s.block && (w.last == s.block - 1 ==> !w.done))
  }

  lemma BlockExtends(file: seq<u8>, k: nat)
    ensures Prefix(file, k + 1) == Prefix(file, k) + Block(file, k + 1)
    ensures |Block(file, k + 1)| < BLOCK_SIZE ==> Prefix(file, k + 1) == file
    ensures |Block(file, k + 1)| == BLOCK_SIZE ==> (k + 1) * BLOCK_SIZE <= |file|
  {
    var i, j := Min(k * BLOCK_SIZE, |file|), Min((k + 1) * BLOCK_SIZE, |file|);
    assert file[..j] == file[..i] + file[i..j];
    if j == |file| { assert file[..j] == file; }
  }

  lemma BeginsInStep(file: seq<u8>)
    ensures InStep(file, READ_BEGIN)
  {
    SendsAreBounded(file, []);
  }

  lemma PollKeepsStep(file: seq<u8>, w: Download, p: AckPoll)
    requires InStep(file, w) && ReadEnabled(file, w, ServerPolls(p))
    ensures InStep(file, ReadNext(file, w, ServerPolls(p)))
  {
    hide Paced, Block;
    var w' := ReadNext(file, w, ServerPolls(p));
    assert w'.polls[..|w.polls|] == w.polls;
    assert Server(file, w') == ReadStep(file, Server(file, w), p);
    SendsAreBounded(file, w'.polls);
  }

  lemma HearingKeepsStep(file: seq<u8>, w: Download, b: nat)
    requires InStep(file, w) && ReadEnabled(file, w, PeerHears(b))
    ensures InStep(file, ReadNext(file, w, PeerHears(b)))
  {
    hide ReadRun, Block;
    if b == w.last + 1 && !w.done { BlockExtends(file, w.last); }
  }

  // The server is never ahead by more than the block in flight, the peer holds a prefix of the
  // file, and a normal exit means it holds all of it. Otherwise the file has 65534 full blocks.
  lemma {:induction false} DownloadIsFaithful(file: seq<u8>, moves: seq<ReadMove>)
    requires DownloadLegal(file, moves)
    ensures var w := Downloads(file, moves); var s := Server(file, w);
            && w.stored <= file && w.stored == Prefix(file, w.last)
            && (s.phase == Running ==> w.last <= s.block <= w.last + 1)
            && (s.phase == Finished ==> w.stored == file)
            && (s.phase == OutOfBlocks ==> w.stored == Prefix(file, LAST_BLOCK - 1))
            && InStep(file, w)
  {
    hide ReadNext, Block, ReadRun;
    if moves != [] {
      DownloadIsFaithful(file, moves[..|moves| - 1]);
      match moves[|moves| - 1]
      case ServerPolls(p) => PollKeepsStep(file, Downloads(file, moves[..|moves| - 1]), p);
      case PeerHears(b) => HearingKeepsStep(file, Downloads(file, moves[..|moves| - 1]), b);
    } else {
      BeginsInStep(file);
    }
    var w := Downloads(file, moves);
    if w.last > 0 { BlockExtends(file, w.last - 1); }
  }

  // Every block acknowledged at once.
  ghost function Prompt(n: nat): seq<AckPoll>
    requires n < LAST_BLOCK
  { if n == 0 then [] else Prompt(n - 1) + [AckPoll(Some(n), false)] }

  lemma {:induction false} PromptRun(file: seq<u8>, n: nat)
    requires n < LAST_BLOCK && n * BLOCK_SIZE <= |file| + BLOCK_SIZE
    ensures var s := ReadRun(file, Prompt(n));
            && s.block == n + 1
            && s.phase == (if n >= 1 && |Block(file, n)| < BLOCK_SIZE then Finished
                           else if n == LAST_BLOCK - 1 then OutOfBlocks else Running)
  {
    if n > 0 {
      PromptRun(file, n - 1);
      assert Prompt(n)[..|Prompt(n)| - 1] == Prompt(n - 1);
    }
  }

  lemma {:induction false} ExitDependsOnSize(file: seq<u8>, polls: seq<AckPoll>)
    ensures var s := ReadRun(file, polls);
            && (s.phase == Finished ==> |file| < (LAST_BLOCK - 1) * BLOCK_SIZE)
            && (s.phase == OutOfBlocks ==> |file| >= (LAST_BLOCK - 1) * BLOCK_SIZE)
  {
    if polls != [] {
      ExitDependsOnSize(file, polls[..|polls| - 1]);
    }
  }

  // Not every file can be read: the loop ends before block 65535. A transfer can finish exactly
  // when the file has fewer than 65534 full blocks.
  lemma ReadableSizes(file: seq<u8>)
    ensures (exists polls :: ReadRun(file, polls).phase == Finished) <==> |file| < (LAST_BLOCK - 1) * BLOCK_SIZE
  {
    if |file| < (LAST_BLOCK - 1) * BLOCK_SIZE {
      var n := |file| / BLOCK_SIZE + 1;
      PromptRun(file, n);
      assert ReadRun(file, Prompt(n)).phase == Finished;
    } else {
      forall polls ensures ReadRun(file, polls).phase != Finished { ExitDependsOnSize(file, polls); }
    }
  }

  // ----- writing: the peer sends its blocks, in whatever order they arrive

  // The file fits in blocks 1 to 65535, the last of them short.
  ghost predicate Sendable(file: seq<u8>) { |file| < LAST_BLOCK * BLOCK_SIZE }

  ghost predicate Carries(file: seq<u8>, d: Datagram) {
    d.block >= 1 && d.bytes == Block(file, d.block) && (d.block - 1) * BLOCK_SIZE <= |file|
  }

  ghost predicate FromPeer(file: seq<u8>, polls: seq<DataPoll>) {
    forall i :: 0 <= i < |polls| && polls[i].data.Some? ==> Carries(file, polls[i].data.value)
  }

  function Concat(ds: seq<Datagram>): seq<u8> {
    if ds == [] then [] else Concat(ds[..|ds| - 1]) + ds[|ds| - 1].bytes
  }

  // The ACK at place i: for a block that has been stored before (or for the request, which is
  // block 0), or for the block expected then, which is stored next.
  ghost predicate AckInOrder(trace: seq<WriteEvent>, i: nat)
    requires i < |trace| && trace[i].Ack?
  {
    var b, stored := trace[i].block, Stored(trace[..i]);
    || b == 0
    || (b <= |stored| && stored[b - 1].block == b)
    || (b == |stored| + 1 && i + 1 < |trace| && trace[i + 1].Store? && trace[i + 1].data.block == b)
  }

  // Every block that is stored has just been acknowledged.
  ghost predicate InOrder(trace: seq<WriteEvent>) {
    && (forall i :: 0 <= i < |trace| && trace[i].Ack? ==> AckInOrder(trace, i))
    && (forall i :: 0 <= i < |trace| && trace[i].Store? ==> i > 0 && trace[i - 1] == Ack(trace[i].data.block))
  }

  ghost predicate InSequence(file: seq<u8>, stored: seq<Datagram>) {
    forall i :: 0 <= i < |stored| ==> stored[i].block == i + 1 && stored[i].bytes == Block(file, i + 1)
  }

  ghost predicate Sequential(file: seq<u8>, s: Writing) {
    var stored := Stored(s.trace);
    var n := |stored|;
    && n <= LAST_BLOCK && InSequence(file, stored) && InOrder(s.trace)
    && Concat(stored) == Prefix(file, n)
    && s.expected == U16(n + 1)
    && (s.phase == Finished ==> n >= 1 && |Block(file, n)| < BLOCK_SIZE)
    && (s.phase != Finished ==> n < LAST_BLOCK && (n >= 1 ==> |Block(file, n)| == BLOCK_SIZE))
  }

  lemma RepeatKeepsOrder(trace: seq<WriteEvent>, b: u16)
    requires InOrder(trace) && (b == 0 || (b <= |Stored(trace)| && Stored(trace)[b - 1].block == b))
    ensures InOrder(trace + [Ack(b)])
  {
    hide Stored;
    var longer := trace + [Ack(b)];
    assert longer[..|trace|] == trace;
    OrderKept(trace, longer);
  }

  lemma NextKeepsOrder(trace: seq<WriteEvent>, d: Datagram)
    requires InOrder(trace) && d.block == |Stored(trace)| + 1
    ensures InOrder(trace + [Ack(d.block), Store(d)])
  {
    hide Stored;
    var longer := trace + [Ack(d.block), Store(d)];
    assert longer[..|trace|] == trace;
    OrderKept(trace, longer);
  }

  lemma OrderKept(trace: seq<WriteEvent>, longer: seq<WriteEvent>)
    requires InOrder(trace) && trace <= longer
    ensures forall i :: 0 <= i < |trace| && trace[i].Ack? ==> AckInOrder(longer, i)
  {
    hide Stored;
    forall i | 0 <= i < |trace| && trace[i].Ack? ensures AckInOrder(longer, i) {
      assert AckInOrder(trace, i) && longer[..i] == trace[..i];
    }
  }

  lemma RepeatKeepsSequence(file: seq<u8>, s: Writing, b: u16)
    requires Sequential(file, s) && s.phase == Running && b < s.expected
    ensures Sequential(file, s.(trace := s.trace + [Ack(b)]))
  {
    hide Block, Stored, InOrder, Concat;
    TraceSnoc(s.trace, Ack(b));
    RepeatKeepsOrder(s.trace, b);
    assert Stored(s.trace + [Ack(b)]) == Stored(s.trace);
  }

  lemma TimeoutKeepsSequence(file: seq<u8>, s: Writing)
    requires Sequential(file, s) && s.phase == Running
    ensures Sequential(file, s.(phase := GaveUp))
  {
  }

  lemma NextKeepsSequence(file: seq<u8>, s: Writing, d: Datagram)
    requires Sendable(file) && Sequential(file, s) && s.phase == Running
    requires d.block == s.expected && Carries(file, d)
    ensures var phase := if |d.bytes| != BLOCK_SIZE then Finished else Running;
            Sequential(file, Writing(U16(s.expected + 1), s.trace + [Ack(d.block), Store(d)], phase))
  {
    hide Block, Stored, InOrder, Concat;
    var stored, longer := Stored(s.trace), s.trace + [Ack(d.block), Store(d)];
    TraceSnoc(s.trace, Ack(d.block));
    TraceSnoc(s.trace + [Ack(d.block)], Store(d));
    assert longer == s.trace + [Ack(d.block)] + [Store(d)];
    NextKeepsOrder(s.trace, d);
    BlockExtends(file, |stored|);
    ConcatSnoc(stored, d);
    assert Stored(longer) == stored + [d];
  }

  lemma ConcatSnoc(ds: seq<Datagram>, d: Datagram)
    ensures Concat(ds + [d]) == Concat(ds) + d.bytes
  {
    assert (ds + [d])[..|ds|] == ds;
  }

  lemma PollKeepsSequence(file: seq<u8>, s: Writing, p: DataPoll)
    requires Sendable(file) && Sequential(file, s) && (p.data.Some? ==> Carries(file, p.data.value))
    ensures Sequential(file, WriteStep(s, p))
  {
    hide Sequential, Sendable, Carries;
    if s.phase == Running {
      var t := s;
      if p.data.Some? {
        var d := p.data.value;
        if d.block < s.expected {
          t := s.(trace := s.trace + [Ack(d.block)]);
          RepeatKeepsSequence(file, s, d.block);
        } else if d.block == s.expected {
          t := WriteStep(s, DataPoll(p.data, false));
          NextKeepsSequence(file, s, d);
        }
      }
      if t.phase == Running { TimeoutKeepsSequence(file, t); }
    }
  }

  lemma StartsInSequence(file: seq<u8>)
    ensures Sequential(file, WRITE_START)
  {
    TraceSnoc([], Ack(0));
    assert [] + [Ack(0)] == [Ack(0)];
  }

  // For every order of arrival, loss and duplication: writeBytes() is called for blocks 1, 2, 3,
  // once each, with the peer's bytes. Every ACK repeats one for a block that has been stored, or
  // is for the block expected then, whose store is the very next thing that happens; so no block
  // beyond that is ever acknowledged. A transfer that ends has stored the whole file.
  lemma {:induction false} UploadIsFaithful(file: seq<u8>, polls: seq<DataPoll>)
    requires Sendable(file) && FromPeer(file, polls)
    ensures var s := WriteRun(polls); var stored := Stored(s.trace);
            && Concat(stored) <= file && InSequence(file, stored)
            && InOrder(s.trace)
            && (s.phase == Finished ==> Concat(stored) == file)
            && Sequential(file, s)
  {
    hide WriteStep, Block, InOrder, Stored;
    if polls == [] {
      StartsInSequence(file);
    } else {
      UploadIsFaithful(file, polls[..|polls| - 1]);
      PollKeepsSequence(file, WriteRun(polls[..|polls| - 1]), polls[|polls| - 1]);
    }
    var s := WriteRun(polls);
    if s.phase == Finished { BlockExtends(file, |Stored(s.trace)| - 1); }
  }

  // ----- what it takes to write a file

  // The blocks that have arrived in their order, with anything in between.
  ghost function Arrived(polls: seq<DataPoll>): nat {
    if polls == [] then 0
    else
      var n, p := Arrived(polls[..|polls| - 1]), polls[|polls| - 1];
      if p.data.Some? && p.data.value.block == n + 1 then n + 1 else n
  }

  function LastBlock(file: seq<u8>): nat { |file| / 512 + 1 }

  lemma WriteSnoc(polls: seq<DataPoll>, p: DataPoll)
    ensures WriteRun(polls + [p]) == WriteStep(WriteRun(polls), p)
  {
    assert (polls + [p])[..|polls|] == polls;
  }

  // Before any timeout, what has arrived in order is what is stored, and the transfer ends exactly
  // with the last block.
  lemma {:induction false} StoresWhatArrives(file: seq<u8>, polls: seq<DataPoll>)
    requires Sendable(file) && FromPeer(file, polls) && forall i :: 0 <= i < |polls| ==> !polls[i].expired
    ensures var s := WriteRun(polls);
            && |Stored(s.trace)| == Arrived(polls) <= LastBlock(file)
            && s.phase == (if Arrived(polls) == LastBlock(file) then Finished else Running)
  {
    hide Stored, Block;
    if polls == [] {
      StartsInSequence(file);
      TraceSnoc([], Ack(0));
      assert [] + [Ack(0)] == [Ack(0)];
      NothingStored();
    } else {
      var front, p := polls[..|polls| - 1], polls[|polls| - 1];
      StoresWhatArrives(file, front);
      UploadIsFaithful(file, front);
      assert polls == front + [p];
      if WriteRun(front).phase == Running {
        WriteSnoc(front, p);
        ArrivalIsStored(file, WriteRun(front), p);
      } else {
        WriteSnoc(front, p);
      }
    }
  }

  lemma NothingStored()
    ensures Stored([]) == []
  {
  }

  lemma ArrivalIsStored(file: seq<u8>, s: Writing, p: DataPoll)
    requires Sendable(file) && Sequential(file, s) && s.phase == Running && !p.expired
    requires p.data.Some? ==> Carries(file, p.data.value)
    ensures var n, s' := |Stored(s.trace)|, WriteStep(s, p);
            if p.data.Some? && p.data.value.block == n + 1 then
              |Stored(s'.trace)| == n + 1 && (s'.phase == if n + 1 == LastBlock(file) then Finished else Running)
              && n + 1 <= LastBlock(file)
            else |Stored(s'.trace)| == n && s'.phase == Running
  {
    hide Stored, InOrder, InSequence, Concat;
    if p.data.Some? {
      var d := p.data.value;
      TraceSnoc(s.trace, Ack(d.block));
      TraceSnoc(s.trace + [Ack(d.block)], Store(d));
      assert s.trace + [Ack(d.block), Store(d)] == s.trace + [Ack(d.block)] + [Store(d)];
    }
  }

  // A write in which all blocks arrive in order before a timeout stores the whole file, whatever
  // comes afterwards.
  lemma UploadCompletes(file: seq<u8>, polls: seq<DataPoll>, rest: seq<DataPoll>)
    requires Sendable(file) && FromPeer(file, polls) && Arrived(polls) == LastBlock(file)
    requires forall i :: 0 <= i < |polls| ==> !polls[i].expired
    ensures var s := WriteRun(polls + rest); s.phase == Finished && Concat(Stored(s.trace)) == file
  {
    StoresWhatArrives(file, polls);
    UploadIsFaithful(file, polls);
    hide WriteRun, WriteStep, Stored, Concat, InOrder;
    EndStays(polls, rest);
  }

  lemma {:induction false} EndStays(polls: seq<DataPoll>, rest: seq<DataPoll>)
    requires WriteRun(polls).phase != Running
    ensures WriteRun(polls + rest) == WriteRun(polls)
    decreases |rest|
  {
    if rest == [] {
      assert polls + [] == polls;
    } else {
      EndStays(polls, rest[..|rest| - 1]);
      WriteSnoc(polls + rest[..|rest| - 1], rest[|rest| - 1]);
      assert polls + rest == polls + rest[..|rest| - 1] + [rest[|rest| - 1]];
    }
  }

  // The first n blocks, each of them once.
  ghost function OneByOne(file: seq<u8>, n: nat): seq<DataPoll>
    requires n <= LAST_BLOCK
  {
    if n == 0 then [] else OneByOne(file, n - 1) + [DataPoll(Some(Datagram(n, Block(file, n))), false)]
  }

  lemma {:induction false} OneByOneArrives(file: seq<u8>, n: nat)
    requires n <= LAST_BLOCK && n <= LastBlock(file)
    ensures FromPeer(file, OneByOne(file, n)) && Arrived(OneByOne(file, n)) == n
    ensures forall i :: 0 <= i < |OneByOne(file, n)| ==> !OneByOne(file, n)[i].expired
  {
    hide Block;
    if n > 0 {
      OneByOneArrives(file, n - 1);
      var p := DataPoll(Some(Datagram(n, Block(file, n))), false);
      assert OneByOne(file, n)[..|OneByOne(file, n)| - 1] == OneByOne(file, n - 1);
      assert Carries(file, p.data.value);
    }
  }

  lemma {:induction false} TooLargeNeverEnds(file: seq<u8>, polls: seq<DataPoll>)
    requires |file| >= 65535 * 512 && FromPeer(file, polls)
    ensures WriteRun(polls).phase != Finished
  {
    if polls != [] {
      TooLargeNeverEnds(file, polls[..|polls| - 1]);
      hide WriteRun;
      assert polls[..|polls| - 1] + [polls[|polls| - 1]] == polls;
      WriteSnoc(polls[..|polls| - 1], polls[|polls| - 1]);
    }
  }

  // A file can be written if and only if it fits into blocks 1 to 65535, the last of them short.
  lemma WritableSizes(file: seq<u8>)
    ensures (exists polls :: FromPeer(file, polls) && WriteRun(polls).phase == Finished
                             && Concat(Stored(WriteRun(polls).trace)) == file)
            <==> |file| < 65535 * 512
  {
    if |file| < 65535 * 512 {
      var polls := OneByOne(file, LastBlock(file));
      OneByOneArrives(file, LastBlock(file));
      UploadCompletes(file, polls, []);
      assert polls + [] == polls;
    } else {
      forall polls | FromPeer(file, polls) ensures WriteRun(polls).phase != Finished { TooLargeNeverEnds(file, polls); }
    }
  }

  // ----- reading in spite of losses

  // A peer that stores and acknowledges, and a network that loses no block or its ACK more than 10
  // times: the file has arrived when the server ends.
  lemma DownloadBearsLosses(file: seq<u8>, losses: seq<seq<AckPoll>>, moves: seq<ReadMove>)
    requires |file| < 65534 * 512 && |losses| == LastBlock(file)
    requires forall i :: 0 <= i < |losses| ==> Bearable(losses[i], i + 1)
    requires DownloadLegal(file, moves) && Downloads(file, moves).polls == Turns(losses)
    ensures ReadRun(file, Turns(losses)).phase == Finished && Downloads(file, moves).stored == file
  {
    BearsLosses(file, losses);
    hide ReadRun, Turns, Downloads, Bearable;
    DownloadIsFaithful(file, moves);
  }
}
