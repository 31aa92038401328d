// The 600-byte buffer that every layer shares, as a byte string, and what the header functions of
// IPv6Packet and EtherSia do to it.

module Frame {
  import opened Bytes
  import opened Checksum

  const SIZE := 600          // ETHERSIA_MAX_PACKET_SIZE
  const HEADERS := 54        // Ethernet and IPv6
  const PROTO_UDP: u8 := 17
  const PROTO_ICMP6: u8 := 58

  type Image = b: seq<u8> | |b| == SIZE witness seq(SIZE, _ => 0)
  type Mac = s: seq<u8> | |s| == 6 witness [0, 0, 0, 0, 0, 0]
  type Addr = s: seq<u8> | |s| == 16 witness [0, 0, 0, 0, 0, 0, 0, 0, 0, 0, 0, 0, 0, 0, 0, 0]

  // The memory behind the buffer, as far as a 16-bit length can reach, and both together.
  type Beyond = m: seq<u8> | |m| == 0x1_0000 ghost witness Zeros(0x1_0000)
  type Memory = m: seq<u8> | |m| == SIZE + 0x1_0000 ghost witness Zeros(SIZE + 0x1_0000)

  // Either of the buffer and the memory that starts with it.
  type Span = s: seq<u8> | |s| >= SIZE witness seq(SIZE, _ => 0)

  const ZERO_ADDR: Addr := Zeros(16)

  function Put(b: Image, at: nat, x: seq<u8>): (r: Image)
    requires at + |x| <= SIZE
    ensures forall i :: 0 <= i < SIZE ==> r[i] == if at <= i < at + |x| then x[i - at] else b[i]
  {
    Overwrite(b, at, x)
  }

  function EtherDestination(b: Span): Mac { b[0..6] }
  function EtherSource(b: Span): Mac { b[6..12] }
  function PayloadLength(b: Span): u16 { Word(b[18], b[19]) }
  function Protocol(b: Span): u8 { b[20] }
  function Source(b: Span): Addr { b[22..38] }
  function Destination(b: Span): Addr { b[38..54] }

  // The length field does not lead out of it. That cannot happen with all of the memory.
  predicate Fits(b: Span): (fits: bool)
    ensures |b| == SIZE + 0x1_0000 ==> fits
  { HEADERS + PayloadLength(b) <= |b| }

  function FrameOf(b: Span): seq<u8>
    requires Fits(b)
  { b[..HEADERS + PayloadLength(b)] }

  // ----- checksum

  // calculateChecksum(): four chained sums, complemented. The first one has 16 bits.
  function ChecksumOf(b: Span): u16
    requires Fits(b)
  {
    var s0 := U16(PayloadLength(b) + Protocol(b));
    var s1 := Fold(s0 + Words(Source(b)));
    var s2 := Fold(s1 + Words(Destination(b)));
    ONES - Fold(s2 + Words(b[HEADERS..HEADERS + PayloadLength(b)]))
  }

  // Ethernet type and version
  predicate IsIPv6(b: Span) { b[12] == 0x86 && b[13] == 0xdd && b[14] / 0x10 == 6 }

  predicate IsValid(b: Span): (valid: bool)
    requires Fits(b)
    ensures valid ==> IsIPv6(b)
  { IsIPv6(b) && ChecksumOf(b) == 0 }

  // An Ethernet frame of type 86DD, with version 6, whose checksum comes out as 0.
  lemma ValidExactly(b: Span)
    requires Fits(b)
    ensures IsValid(b) <==> b[12] == 0x86 && b[13] == 0xdd && b[14] / 0x10 == 6 && ChecksumOf(b) == 0
  {
    hide ChecksumOf;
  }

  // Everything the checksum covers, as one integer.
  function Total(b: Span): nat
    requires Fits(b)
  { U16(PayloadLength(b) + Protocol(b)) + Words(b[22..HEADERS + PayloadLength(b)]) }

  lemma ChecksumIsOfTotal(b: Span)
    requires Fits(b)
    ensures ChecksumOf(b) == ONES - Fold(Total(b))
  {
    hide Words, Fold;
    var end := HEADERS + PayloadLength(b);
    var s0 := U16(PayloadLength(b) + Protocol(b));
    Split(b, 22, 38, end);
    Split(b, 38, 54, end);
    WordsAppend(b[22..38], b[38..end]);
    WordsAppend(b[38..54], b[54..end]);
    FoldAdd(s0 + Words(b[22..38]), Words(b[38..54]));
    FoldAdd(s0 + Words(b[22..38]) + Words(b[38..54]), Words(b[54..end]));
  }

  // The pseudo-header of RFC 8200 section 8.1: addresses, 32-bit length, 24 zero bits, next header.
  function PseudoHeader(b: Span): seq<u8> {
    Source(b) + Destination(b) + [0, 0] + Word16(PayloadLength(b)) + [0, 0, 0, Protocol(b)]
  }

  lemma WordsOfTail(len: u16, protocol: u8)
    ensures Words([0, 0] + Word16(len) + [0, 0, 0, protocol]) == len + protocol
  {
    hide Words;
    WordsPair(0, 0);
    WordsPair(0, protocol);
    WordsPair(len / 0x100, len % 0x100);
    WordsAppend([0, 0], [0, protocol]);
    WordsAppend(Word16(len), [0, 0] + [0, protocol]);
    WordsAppend([0, 0], Word16(len) + ([0, 0] + [0, protocol]));
    assert [0, 0] + Word16(len) + [0, 0, 0, protocol] == [0, 0] + (Word16(len) + ([0, 0] + [0, protocol]));
  }

  function Payload(b: Span): seq<u8>
    requires Fits(b)
  { b[HEADERS..HEADERS + PayloadLength(b)] }

  // What RFC 8200 has summed up is the total, but for a carry in its first addition, which the code
  // says cannot happen.
  lemma Rfc8200Sum(b: Span)
    requires Fits(b)
    ensures Words(PseudoHeader(b) + Payload(b))
         == Total(b) + if PayloadLength(b) + Protocol(b) < 0x1_0000 then 0 else 0x1_0000
  {
    hide Words;
    var end, tail := HEADERS + PayloadLength(b), [0, 0] + Word16(PayloadLength(b)) + [0, 0, 0, Protocol(b)];
    var payload := b[HEADERS..end];
    Split(b, 22, 38, end);
    Split(b, 38, 54, end);
    WordsAppend(b[22..38], b[38..end]);
    WordsAppend(b[38..54], payload);
    assert PseudoHeader(b) + payload == Source(b) + (Destination(b) + (tail + payload));
    WordsAppend(Source(b), Destination(b) + (tail + payload));
    WordsAppend(Destination(b), tail + payload);
    WordsAppend(tail, payload);
    WordsOfTail(PayloadLength(b), Protocol(b));
  }

  // calculateChecksum() gives the checksum of RFC 8200 if and only if length and protocol add up to
  // less than 65536, wherever the length field leads.
  lemma ChecksumIsRfc8200(b: Span)
    requires Fits(b)
    ensures ChecksumOf(b) == ONES - Fold(Words(PseudoHeader(b) + Payload(b)))
            <==> PayloadLength(b) + Protocol(b) < 0x1_0000
  {
    hide Words, Fold, Total, ChecksumOf;
    var n := Total(b);
    ChecksumIsOfTotal(b);
    Rfc8200Sum(b);
    FoldCarry(n);
  }

  // The checksum notices every change of one byte of the addresses or the payload.
  lemma OneByteShows(b: Span, i: nat, v: u8)
    requires Fits(b) && 22 <= i < HEADERS + PayloadLength(b) && v != b[i]
    ensures Fits(b[i := v]) && ChecksumOf(b[i := v]) != ChecksumOf(b)
    ensures IsValid(b) ==> !IsValid(b[i := v])
  {
    hide Words, Fold;
    var end, c := HEADERS + PayloadLength(b), b[i := v];
    assert c[22..end] == b[22..end][i - 22 := v];
    WordsUpdate(b[22..end], i - 22, v);
    assert b[22..end][i - 22] == b[i];
    ChecksumIsOfTotal(b);
    ChecksumIsOfTotal(c);
    FoldTellsApart(Total(c), Total(b));
  }

  // The checksum, calculated with its own field cleared, is stored in that field.
  function Stamp(b: Span, at: nat): (r: Span)
    requires Fits(b) && HEADERS <= at < SIZE - 1
    ensures |r| == |b| && forall i :: 0 <= i < |b| && i != at && i != at + 1 ==> r[i] == b[i]
  {
    var z := b[at := 0][at + 1 := 0];
    var c := ChecksumOf(z);
    z[at := c / 0x100][at + 1 := c % 0x100]
  }

  // Filling in a word that was 0 adds it to the total.
  lemma TotalWithWord(b: Span, at: nat, w: u16)
    requires Fits(b) && 22 <= at && at + 2 <= HEADERS + PayloadLength(b) && at % 2 == 0 && b[at] == 0 && b[at + 1] == 0
    ensures var r := b[at := w / 0x100][at + 1 := w % 0x100]; Fits(r) && Total(r) == Total(b) + w
  {
    hide Words, Fold;
    var hi: u8, lo: u8 := w / 0x100, w % 0x100;
    var end, r := HEADERS + PayloadLength(b), b[at := hi][at + 1 := lo];
    var j, covered: seq<u8> := at - 22, b[22..end];
    assert r[22..end] == covered[j := hi][j + 1 := lo];
    WordsUpdate(covered, j, hi);
    WordsUpdate(covered[j := hi], j + 1, lo);
    assert covered[j] == 0 && covered[j + 1] == 0 && j % 2 == 0;
  }

  // Stamped anywhere in the payload, at an even offset, the checksum verifies.
  lemma StampVerifies(b: Span, at: nat)
    requires Fits(b) && HEADERS <= at < SIZE - 1 && at + 2 <= HEADERS + PayloadLength(b) && at % 2 == 0
    ensures Fits(Stamp(b, at)) && ChecksumOf(Stamp(b, at)) == 0
  {
    hide Words, Fold, Total;
    var z := b[at := 0][at + 1 := 0];
    var c := ChecksumOf(z);
    TotalWithWord(z, at, c);
    ChecksumIsOfTotal(z);
    ChecksumIsOfTotal(Stamp(b, at));
    FoldAdd(Total(z), c);
    FoldSmall(ONES);
  }

  // When the field that is stamped stays 0, which for UDP means that there is no checksum. RFC 768
  // has 0xFFFF sent instead; the code does not.
  lemma StampIsZero(b: Span, at: nat)
    requires Fits(b) && HEADERS <= at < SIZE - 1 && at + 2 <= HEADERS + PayloadLength(b)
    ensures var z, r := b[at := 0][at + 1 := 0], Stamp(b, at);
            Fits(z) && (r[at] == 0 && r[at + 1] == 0 <==> Total(z) > 0 && Total(z) % ONES == 0)
  {
    hide Words, Total;
    var z := b[at := 0][at + 1 := 0];
    ChecksumIsOfTotal(z);
    FoldIsOnes(Total(z));
  }

  // A packet whose length field stays inside the buffer means the same with any memory behind it.
  lemma FitsInMemory(b: Image, beyond: Beyond)
    requires Fits(b)
    ensures var m: Memory := b + beyond;
            && Total(m) == Total(b) && ChecksumOf(m) == ChecksumOf(b) && (IsValid(m) <==> IsValid(b))
            && FrameOf(m) == FrameOf(b)
  {
    hide Words, Fold;
    var m, end := b + beyond, HEADERS + PayloadLength(b);
    assert Source(m) == Source(b) && Destination(m) == Destination(b);
    assert m[22..end] == b[22..end] && m[HEADERS..end] == b[HEADERS..end];
  }

  lemma StampInMemory(b: Image, beyond: Beyond, at: nat)
    requires Fits(b) && HEADERS <= at < SIZE - 1
    ensures Stamp(b + beyond, at) == Stamp(b, at) + beyond
  {
    hide ChecksumOf, Words, Fold;
    var z: Image := b[at := 0][at + 1 := 0];
    FitsInMemory(z, beyond);
    var c: u16 := ChecksumOf(z);
    UpdateInMemory(b, beyond, at, 0, 0);
    UpdateInMemory(z, beyond, at, c / 0x100, c % 0x100);
  }

  lemma UpdateInMemory(b: Image, beyond: Beyond, at: nat, x: u8, y: u8)
    requires at < SIZE - 1
    ensures (b + beyond)[at := x][at + 1 := y] == b[at := x][at + 1 := y] + beyond
  {
  }
}
