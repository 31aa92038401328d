// The DNS client (src/dns.cpp): the request it writes and the walk over a reply, against the
// message format of RFC 1035 section 4.1.

module Dns {
  import opened Bytes

  const DOT: u8 := 46
  const TYPE_AAAA: u16 := 28
  const CLASS_IN: u16 := 1
  const HEADER := 12

  // ----- names

  type Label = l: seq<u8> | 1 <= |l| <= 63 witness [0]

  // RFC 1035 section 4.1.4: labels that end in a zero byte, or in a pointer, which may stand alone.
  datatype AnyName = Plain(labels: seq<Label>) | Pointing(labels: seq<Label>, hi: u8, lo: u8)

  type Name = n: AnyName | (n.Plain? && n.labels != []) || (n.Pointing? && n.hi >= 0xC0) witness Pointing([], 0xC0, 0)

  function LabelsTo(labels: seq<Label>, tail: seq<u8>): seq<u8>
    decreases |labels|
  { if labels == [] then tail else [|labels[0]|] + (labels[0] + LabelsTo(labels[1..], tail)) }

  // The name as it is sent, and what follows it.
  function NameTo(n: AnyName, tail: seq<u8>): seq<u8> {
    match n
    case Plain(labels) => LabelsTo(labels, [0] + tail)
    case Pointing(labels, hi, lo) => LabelsTo(labels, [hi, lo] + tail)
  }

  // Memory behind the bytes at hand reads as zero.
  function At(s: seq<u8>, i: nat): u8 { if i < |s| then s[i] else 0 }
  function Drop(s: seq<u8>, n: nat): seq<u8> { if n <= |s| then s[n..] else [] }

  // skipOverName(): how many bytes it steps over.
  function Skip(s: seq<u8>): nat
    decreases |s|
  {
    if At(s, 0) == 0 then 0
    else if s[0] >= 0xC0 then 2
    else
      var k: nat := s[0] as int + 1;
      if At(s, k) == 0 then k + 1 else k + Skip(s[k..])
  }

  lemma SkipTurn(s: seq<u8>)
    ensures At(s, 0) == 0 ==> Skip(s) == 0
    ensures 0 < At(s, 0) < 0xC0 ==>
              var k: nat := At(s, 0) + 1; Skip(s) == k + if At(s, k) == 0 then 1 else Skip(Drop(s, k))
    ensures 0xC0 <= At(s, 0) ==> Skip(s) == 2
  {
  }

  lemma DropAdds(s: seq<u8>, m: nat, n: nat)
    ensures Drop(Drop(s, m), n) == Drop(s, m + n)
    ensures At(Drop(s, m), n) == At(s, m + n)
  {
  }

  method SkipOverName(b: seq<u8>, ptr: nat) returns (r: nat)
    ensures r == ptr + Skip(Drop(b, ptr))
  {
    hide Skip, Drop;
    r := ptr;
    while At(b, r) != 0
      invariant r + Skip(Drop(b, r)) == ptr + Skip(Drop(b, ptr))
      decreases |b| - r
    {
      SkipTurn(Drop(b, r));
      DropAdds(b, r, 0);
      if b[r] >= 0xC0 {
        r := r + 2;
        return;
      }
      var k: nat := b[r] as int + 1;
      DropAdds(b, r, k);
      r := r + k;
      if At(b, r) == 0 {
        r := r + 1;
        return;
      }
    }
    SkipTurn(Drop(b, r));
    DropAdds(b, r, 0);
  }

  lemma SkipLabel(l: Label, rest: seq<u8>)
    ensures var s := [|l|] + (l + rest);
            && Skip(s) == |l| + 1 + (if At(rest, 0) == 0 then 1 else Skip(rest))
            && s[|l| + 1..] == rest
  {
    hide Skip;
    var s := [|l|] + (l + rest);
    assert s[0] == |l| && s[|l| + 1..] == rest;
    SkipTurn(s);
    DropAdds(s, |l| + 1, 0);
  }

  lemma NameParts(n: AnyName, tail: seq<u8>)
    ensures n == Plain([]) ==> NameTo(n, tail) == [0] + tail
    ensures n.labels == [] && n.Pointing? ==> NameTo(n, tail) == [n.hi, n.lo] + tail
    ensures n.labels != [] ==>
              NameTo(n, tail) == [|n.labels[0]|] + (n.labels[0] + NameTo(n.(labels := n.labels[1..]), tail))
  {
  }

  lemma FirstByte(n: Name, tail: seq<u8>)
    ensures At(NameTo(n, tail), 0) != 0
  {
  }

  // Every name, plain or compressed, is stepped over exactly.
  lemma {:induction false} SkipLands(n: Name, tail: seq<u8>)
    ensures Skip(NameTo(n, tail)) <= |NameTo(n, tail)| && NameTo(n, tail)[Skip(NameTo(n, tail))..] == tail
    decreases |n.labels|
  {
    hide Skip, NameTo;
    var s := NameTo(n, tail);
    NameParts(n, tail);
    if n.labels == [] {
      SkipTurn(s);
    } else {
      var l, rest := n.labels[0], n.(labels := n.labels[1..]);
      var s' := NameTo(rest, tail);
      SkipLabel(l, s');
      NameParts(rest, tail);
      if rest == Plain([]) {
        SliceOfSlice(s, |l| + 1, |s|, 1, |s'|);
      } else {
        FirstByte(rest, tail);
        SkipLands(rest, tail);
        SliceOfSlice(s, |l| + 1, |s|, Skip(s'), |s'|);
      }
    }
  }

  // And no other name is: a root name by itself is a zero byte, and that is not stepped over.
  type WireName = n: AnyName | n.Pointing? ==> n.hi >= 0xC0 witness Plain([])

  lemma SkipLandsUnlessRoot(n: WireName, tail: seq<u8>)
    ensures Skip(NameTo(n, tail)) <= |NameTo(n, tail)| && NameTo(n, tail)[Skip(NameTo(n, tail))..] == tail
            <==> n != Plain([])
  {
    if n == Plain([]) {
      NameParts(n, tail);
      SkipTurn(NameTo(n, tail));
      assert |NameTo(n, tail)[0..]| == |tail| + 1;
    } else {
      SkipLands(n, tail);
    }
  }

  // ----- encodeName()

  function DotAt(host: seq<u8>): (k: nat)
    ensures k <= |host| && (forall i :: 0 <= i < k ==> host[i] != DOT) && (k < |host| ==> host[k] == DOT)
  { if host == [] || host[0] == DOT then 0 else 1 + DotAt(host[1..]) }

  // The length byte of a label keeps its low eight bits.
  function LengthByte(k: nat): u8 { k % 0x100 }

  function LabelOf(host: seq<u8>): seq<u8> { [LengthByte(DotAt(host))] + host[..DotAt(host)] }

  function Encode(host: seq<u8>): seq<u8>
    decreases |host|
  {
    var k := DotAt(host);
    LabelOf(host) + if k < |host| then Encode(host[k + 1..]) else [0]
  }

  lemma {:induction false} EncodeLength(host: seq<u8>)
    ensures |Encode(host)| == |host| + 2
    decreases |host|
  {
    if DotAt(host) < |host| { EncodeLength(host[DotAt(host) + 1..]); }
  }

  lemma WriteOn(b: seq<u8>, at: nat, x: seq<u8>, y: seq<u8>)
    requires at + |x| + |y| <= |b|
    ensures Overwrite(Overwrite(b, at, x), at + |x|, y) == Overwrite(b, at, x + y)
  {
  }

  lemma WriteBefore(b: seq<u8>, at: nat, x: u8, y: seq<u8>)
    requires at + 1 + |y| <= |b|
    ensures Overwrite(b, at + 1, y)[at := x] == Overwrite(b, at, [x] + y)
  {
  }

  // encodeName(): the bytes at `query`; the result points behind them.
  method EncodeName(buffer: array<u8>, query: nat, host: seq<u8>) returns (end: nat)
    requires query + |host| + 2 <= buffer.Length
    modifies buffer
    ensures end == query + |host| + 2 && |Encode(host)| == |host| + 2
    ensures buffer[..] == Overwrite(old(buffer[..]), query, Encode(host))
  {
    hide Overwrite, Encode, LabelOf;
    end := query;
    var name: nat := 0;
    ghost var done: seq<u8>, rest := [], host;
    EncodeLength(host);
    WriteNothing(buffer[..], query);
    while true
      invariant name <= |host| && rest == host[name..] && done + Encode(rest) == Encode(host)
      invariant end == query + name && |done| == name
      invariant buffer[..] == Overwrite(old(buffer[..]), query, done)
      decreases |host| - name
    {
      EncodeTurn(rest);
      var next := WriteLabel(buffer, end, host, name);
      WriteOn(old(buffer[..]), query, done, LabelOf(rest));
      Append(done, LabelOf(rest), if DotAt(rest) < |rest| then Encode(rest[DotAt(rest) + 1..]) else [0]);
      done := done + LabelOf(rest);
      end := end + 1 + (next - name);
      name := next;
      if name == |host| { break; }
      assert rest[DotAt(rest) + 1..] == host[name + 1..];
      name := name + 1;
      rest := host[name..];
    }
    WriteOn(old(buffer[..]), query, done, [0]);
    CopyInto(buffer, end, [0]);
    end := end + 1;
  }

  // One label; its length byte, which comes first, is filled in behind it.
  method WriteLabel(buffer: array<u8>, nptr: nat, host: seq<u8>, start: nat) returns (name: nat)
    requires start <= |host| && nptr + 1 + (|host| - start) <= buffer.Length
    modifies buffer
    ensures name == start + DotAt(host[start..])
    ensures buffer[..] == Overwrite(old(buffer[..]), nptr, LabelOf(host[start..]))
  {
    hide Overwrite, LabelOf, LengthByte, DotAt, U8;
    ghost var rest := host[start..];
    WriteNothing(buffer[..], nptr + 1);
    LengthStep(0);
    var n: u8 := 0;
    name := start;
    while name < |host| && host[name] != DOT
      invariant start <= name <= |host| && (forall i :: 0 <= i < name - start ==> rest[i] != DOT)
      invariant n == LengthByte(name - start)
      invariant buffer[..] == Overwrite(old(buffer[..]), nptr + 1, rest[..name - start])
    {
      ghost var k := name - start;
      CopyInto(buffer, nptr + 1 + (name - start), [host[name]]);
      WriteOn(old(buffer[..]), nptr + 1, rest[..k], [rest[k]]);
      assert rest[..k] + [rest[k]] == rest[..k + 1];
      LengthStep(k);
      name := name + 1;
      n := U8(n + 1);
    }
    DotUnique(rest, name - start);
    LabelParts(rest);
    WriteBefore(old(buffer[..]), nptr, n, rest[..name - start]);
    buffer[nptr] := n;
  }

  lemma LengthStep(k: nat)
    ensures LengthByte(0) == 0 && U8(LengthByte(k) + 1) == LengthByte(k + 1)
  {
  }

  lemma LabelParts(host: seq<u8>)
    ensures LabelOf(host) == [LengthByte(DotAt(host))] + host[..DotAt(host)]
  {
  }

  lemma WriteNothing(b: seq<u8>, at: nat)
    requires at <= |b|
    ensures b == Overwrite(b, at, [])
  {
  }

  lemma Append(a: seq<u8>, b: seq<u8>, c: seq<u8>)
    ensures a + (b + c) == a + b + c
  {
  }

  lemma EncodeTurn(host: seq<u8>)
    ensures DotAt(host) < |host| ==> Encode(host) == LabelOf(host) + Encode(host[DotAt(host) + 1..])
    ensures DotAt(host) == |host| ==> Encode(host) == LabelOf(host) + [0]
    ensures |LabelOf(host)| == DotAt(host) + 1
  {
    assert |LabelOf(host)| == DotAt(host) + 1;
    hide DotAt, LabelOf;
  }

  lemma DotUnique(host: seq<u8>, k: nat)
    requires k <= |host| && (forall i :: 0 <= i < k ==> host[i] != DOT) && (k < |host| ==> host[k] == DOT)
    ensures DotAt(host) == k
  {
    hide DotAt;
  }

  // A host name is its labels, joined by dots.
  function HostOf(labels: seq<Label>): seq<u8>
    requires labels != []
  { if |labels| == 1 then labels[0] else labels[0] + ([DOT] + HostOf(labels[1..])) }

  ghost predicate DotFree(labels: seq<Label>) { forall l :: l in labels ==> DOT !in l }

  // The encoding of a host name is the plain form of its labels, two bytes longer than the text.
  lemma {:induction false} EncodesLabels(labels: seq<Label>)
    requires labels != [] && DotFree(labels)
    ensures Encode(HostOf(labels)) == NameTo(Plain(labels), [])
    ensures |Encode(HostOf(labels))| == |HostOf(labels)| + 2
    decreases |labels|
  {
    hide Encode, NameTo;
    var l := labels[0];
    assert l in labels;
    EncodeLength(HostOf(labels));
    NameTurn(labels);
    if |labels| > 1 {
      forall m | m in labels[1..] ensures DOT !in m { assert m in labels; }
      EncodesLabels(labels[1..]);
      EncodesFirst(l, HostOf(labels[1..]));
    } else {
      EncodesLast(l);
    }
  }

  lemma NameTurn(labels: seq<Label>)
    requires labels != []
    ensures |labels| == 1 ==> NameTo(Plain(labels), []) == [|labels[0]|] + (labels[0] + [0])
    ensures |labels| > 1 ==> NameTo(Plain(labels), []) == [|labels[0]|] + (labels[0] + NameTo(Plain(labels[1..]), []))
  {
    assert [0] + [] == [0];
    assert LabelsTo(labels, [0]) == [|labels[0]|] + (labels[0] + LabelsTo(labels[1..], [0]));
  }

  lemma LabelIs(host: seq<u8>)
    requires DotAt(host) <= 63
    ensures LabelOf(host) == [DotAt(host) as u8] + host[..DotAt(host)]
  {
    hide DotAt;
  }

  lemma EncodesLast(l: Label)
    requires DOT !in l
    ensures Encode(l) == [|l|] + (l + [0])
  {
    hide Encode, DotAt, LabelOf;
    assert Encode(l) == [|l|] + l + [0] by {
      DotUnique(l, |l|);
      EncodeTurn(l);
      assert LabelOf(l) == [|l|] + l by { LabelIs(l); }
    }
    Append([|l|], l, [0]);
  }

  lemma EncodesFirst(l: Label, rest: seq<u8>)
    requires DOT !in l
    ensures Encode(l + ([DOT] + rest)) == [|l|] + (l + Encode(rest))
  {
    hide Encode, DotAt, LabelOf;
    var host := l + ([DOT] + rest);
    assert host[..|l|] == l && host[|l| + 1..] == rest;
    assert Encode(host) == [|l|] + l + Encode(rest) by {
      forall i | 0 <= i < |l| ensures host[i] != DOT { assert host[i] == l[i]; }
      DotUnique(host, |l|);
      EncodeTurn(host);
      assert LabelOf(host) == [|l|] + l by { LabelIs(host); }
    }
    Append([|l|], l, Encode(rest));
  }

  // ----- dnsMakeRequest()

  // One question of type AAAA, class IN, recursion desired.
  function RequestHeader(id: u16): seq<u8> { Word16(id) + [0x01, 0x00] + Word16(1) + Word16(0) + Word16(0) + Word16(0) }

  function Request(host: seq<u8>, id: u16): seq<u8>
  { RequestHeader(id) + Encode(host) + (Word16(TYPE_AAAA) + Word16(CLASS_IN)) }

  method DnsMakeRequest(buffer: array<u8>, host: seq<u8>, id: u16) returns (len: nat)
    requires |host| + 18 <= buffer.Length
    modifies buffer
    ensures len == |host| + 18 == |Request(host, id)|
    ensures buffer[..] == Overwrite(old(buffer[..]), 0, Request(host, id))
  {
    hide Overwrite, Encode;
    EncodeLength(host);
    WriteNothing(buffer[..], 0);
    WriteOn(buffer[..], 0, [], RequestHeader(id));
    assert [] + RequestHeader(id) == RequestHeader(id);
    CopyInto(buffer, 0, RequestHeader(id));
    len := EncodeName(buffer, HEADER, host);
    WriteOn(old(buffer[..]), 0, RequestHeader(id), Encode(host));
    WriteOn(old(buffer[..]), 0, RequestHeader(id) + Encode(host), Word16(TYPE_AAAA) + Word16(CLASS_IN));
    CopyInto(buffer, len, Word16(TYPE_AAAA) + Word16(CLASS_IN));
    len := len + 4;
  }

  // ----- replies

  type Four = s: seq<u8> | |s| == 4 witness [0, 0, 0, 0]
  type RData = s: seq<u8> | |s| < 0x1_0000

  datatype Question = Question(name: Name, fields: Four)

  datatype Record = Record(name: Name, type_: u16, class_: u16, ttl: Four, rdata: RData)
  {
    predicate IsAddress() { type_ == 28 && class_ == 1 && |rdata| == 16 }
  }

  function QuestionsTo(qs: seq<Question>, tail: seq<u8>): seq<u8>
    decreases |qs|
  { if qs == [] then tail else NameTo(qs[0].name, qs[0].fields + QuestionsTo(qs[1..], tail)) }

  // Type, class, TTL and RDLENGTH, and what follows them.
  function FieldsTo(r: Record, tail: seq<u8>): seq<u8>
  { Word16(r.type_) + (Word16(r.class_) + (r.ttl + (Word16(|r.rdata|) + tail))) }

  function RecordsTo(rs: seq<Record>, tail: seq<u8>): seq<u8>
    decreases |rs|
  { if rs == [] then tail else NameTo(rs[0].name, FieldsTo(rs[0], rs[0].rdata + RecordsTo(rs[1..], tail))) }

  // The last two counts, and everything behind the answers, do not matter.
  datatype Message = Message(id: u16, flags1: u8, flags2: u8, questions: seq<Question>, answers: seq<Record>,
                             counts: Four, more: seq<u8>)
  {
    predicate Countable() { |questions| <= 0xFF && |answers| <= 0xFF }

    function Wire(): seq<u8>
      requires Countable()
    {
      Word16(id) + [flags1, flags2] + Word16(|questions|) + Word16(|answers|) + counts
      + QuestionsTo(questions, RecordsTo(answers, more))
    }
  }

  ghost function FirstAddress(rs: seq<Record>): Option<seq<u8>> {
    if rs == [] then None else if rs[0].IsAddress() then Some(rs[0].rdata) else FirstAddress(rs[1..])
  }

  // ----- dnsProcessReply()

  // What is left behind n questions, and how much of it belongs to the payload.
  function SkipQuestions(s: seq<u8>, room: int, n: nat): Option<(seq<u8>, int)>
    decreases n
  {
    if n == 0 then Some((s, room))
    else
      var k := Skip(s) + 4;
      if k > room then None else SkipQuestions(Drop(s, k), room - k, n - 1)
  }

  function Field(s: seq<u8>, i: nat): u16 { Word(At(s, i), At(s, i + 1)) }

  function Sixteen(s: seq<u8>): seq<u8> { seq(16, i requires i >= 0 => At(s, i)) }

  function FindAddress(s: seq<u8>, room: int, n: nat): Option<seq<u8>>
    decreases n
  {
    if n == 0 then None
    else
      var r := Drop(s, Skip(s));
      if Field(r, 2) == CLASS_IN && Field(r, 0) == TYPE_AAAA && Field(r, 8) == 16 then Some(Sixteen(Drop(r, 10)))
      else
        var k := Skip(s) + 10 + Field(r, 8);
        if k > room then None else FindAddress(Drop(s, k), room - k, n - 1)
  }

  function Process(payload: seq<u8>, length: nat, id: u16): Option<seq<u8>> {
    if Field(payload, 0) != id || At(payload, 3) % 0x10 != 0 then None
    else match SkipQuestions(Drop(payload, HEADER), length - HEADER, At(payload, 5))
      case None => None
      case Some(rest) => FindAddress(rest.0, rest.1, At(payload, 7))
  }

  lemma FieldAt(s: seq<u8>, m: nat, n: nat)
    ensures Field(Drop(s, m), n) == Field(s, m + n)
  {
  }

  // The address, as a copy of the 16 bytes that the returned pointer points at.
  method DnsProcessReply(payload: seq<u8>, length: nat, id: u16) returns (address: Option<seq<u8>>)
    ensures address == Process(payload, length, id)
  {
    if Field(payload, 0) != id { return None; }
    if At(payload, 3) % 0x10 != 0 { return None; }
    var ptr := QuestionSection(payload, length, At(payload, 5));
    if ptr == None { return None; }
    address := AnswerSection(payload, ptr.value, length, At(payload, 7));
  }

  method QuestionSection(payload: seq<u8>, length: nat, count: u8) returns (end: Option<nat>)
    ensures SkipQuestions(Drop(payload, HEADER), length - HEADER, count)
         == match end case None => None case Some(ptr) => Some((Drop(payload, ptr), length - ptr))
  {
    hide Skip, Drop;
    var ptr: nat := HEADER;
    var questionCount: nat := count;
    while questionCount > 0
      invariant SkipQuestions(Drop(payload, ptr), length - ptr, questionCount)
             == SkipQuestions(Drop(payload, HEADER), length - HEADER, count)
    {
      ghost var at := ptr;
      ptr := SkipOverName(payload, ptr);
      ptr := ptr + 4;
      DropAdds(payload, at, ptr - at);
      if ptr > length { return None; }
      questionCount := questionCount - 1;
    }
    return Some(ptr);
  }

  method AnswerSection(payload: seq<u8>, start: nat, length: nat, count: u8) returns (address: Option<seq<u8>>)
    ensures address == FindAddress(Drop(payload, start), length - start, count)
  {
    hide Skip, Sixteen, Field, Drop;
    var ptr: nat, answerCount: nat := start, count;
    while answerCount > 0
      invariant FindAddress(Drop(payload, ptr), length - ptr, answerCount)
             == FindAddress(Drop(payload, start), length - start, count)
    {
      ghost var at := ptr;
      ptr := SkipOverName(payload, ptr);
      DropAdds(payload, at, ptr - at);
      FieldAt(payload, ptr, 0);
      FieldAt(payload, ptr, 2);
      FieldAt(payload, ptr, 8);
      DropAdds(payload, ptr, 10);
      var rdlength: nat := Field(payload, ptr + 8);
      if Field(payload, ptr + 2) == CLASS_IN && Field(payload, ptr) == TYPE_AAAA && rdlength == 16 {
        return Some(Sixteen(Drop(payload, ptr + 10)));
      }
      ptr := ptr + 10 + rdlength;
      DropAdds(payload, at, ptr - at);
      if ptr > length { return None; }
      answerCount := answerCount - 1;
    }
    return None;
  }

  // ----- what the walk finds

  function LabelsSize(labels: seq<Label>): nat
    decreases |labels|
  { if labels == [] then 0 else |labels[0]| + 1 + LabelsSize(labels[1..]) }

  function NameSize(n: AnyName): nat { LabelsSize(n.labels) + if n.Plain? then 1 else 2 }

  function QuestionsSize(qs: seq<Question>): nat
    decreases |qs|
  { if qs == [] then 0 else NameSize(qs[0].name) + 4 + QuestionsSize(qs[1..]) }

  function RecordSize(r: Record): nat { NameSize(r.name) + 10 + |r.rdata| }

  function RecordsSize(rs: seq<Record>): nat
    decreases |rs|
  { if rs == [] then 0 else RecordSize(rs[0]) + RecordsSize(rs[1..]) }

  // What there is to be found when only so many bytes belong to the payload: a record that is
  // stepped over must be inside.
  ghost function FirstWithin(rs: seq<Record>, room: int): Option<seq<u8>>
    decreases |rs|
  {
    if rs == [] then None
    else if rs[0].IsAddress() then Some(rs[0].rdata)
    else if RecordSize(rs[0]) > room then None
    else FirstWithin(rs[1..], room - RecordSize(rs[0]))
  }

  lemma {:induction false} LabelsLength(labels: seq<Label>, tail: seq<u8>)
    ensures |LabelsTo(labels, tail)| == LabelsSize(labels) + |tail|
    decreases |labels|
  {
    if labels != [] { LabelsLength(labels[1..], tail); }
  }

  lemma NameLength(n: AnyName, tail: seq<u8>)
    ensures |NameTo(n, tail)| == NameSize(n) + |tail|
  {
    match n
    case Plain(labels) => LabelsLength(labels, [0] + tail);
    case Pointing(labels, hi, lo) => LabelsLength(labels, [hi, lo] + tail);
  }

  // Well-formed questions are stepped over exactly, if they belong to the payload.
  lemma {:induction false} WalksQuestions(qs: seq<Question>, tail: seq<u8>, room: int)
    ensures |QuestionsTo(qs, tail)| == QuestionsSize(qs) + |tail|
    ensures SkipQuestions(QuestionsTo(qs, tail), room, |qs|)
         == if qs == [] || QuestionsSize(qs) <= room then Some((tail, room - QuestionsSize(qs))) else None
    decreases |qs|
  {
    hide NameTo, QuestionsTo, SkipQuestions, NameSize;
    QuestionsTurn(qs, tail);
    NothingToWalk(tail, room);
    if qs != [] {
      var rest := QuestionsTo(qs[1..], tail);
      WalksQuestion(qs[0], rest, room, |qs|);
      WalksQuestions(qs[1..], tail, room - (NameSize(qs[0].name) + 4));
    }
  }

  lemma QuestionsTurn(qs: seq<Question>, tail: seq<u8>)
    ensures qs == [] ==> QuestionsTo(qs, tail) == tail
    ensures qs != [] ==> QuestionsTo(qs, tail) == NameTo(qs[0].name, qs[0].fields + QuestionsTo(qs[1..], tail))
  {
    hide NameTo;
  }

  lemma NothingToWalk(s: seq<u8>, room: int)
    ensures SkipQuestions(s, room, 0) == Some((s, room)) && FindAddress(s, room, 0) == None
  {
  }

  lemma WalksQuestion(q: Question, rest: seq<u8>, room: int, n: nat)
    requires n > 0
    ensures var s, size := NameTo(q.name, q.fields + rest), NameSize(q.name) + 4;
            && |s| == size + |rest|
            && SkipQuestions(s, room, n) == if size > room then None else SkipQuestions(rest, room - size, n - 1)
  {
    var s := NameTo(q.name, q.fields + rest);
    SkipLands(q.name, q.fields + rest);
    NameLength(q.name, q.fields + rest);
    hide Skip, NameTo, NameSize;
    DropAdds(s, Skip(s), 4);
    assert Drop(s, Skip(s)) == q.fields + rest && Drop(q.fields + rest, 4) == rest;
  }

  lemma FieldsRead(r: Record, tail: seq<u8>)
    ensures var s := FieldsTo(r, tail);
            && Field(s, 0) == r.type_ && Field(s, 2) == r.class_ && Field(s, 8) == |r.rdata|
            && |s| == 10 + |tail| && s[10..] == tail
  {
  }

  lemma SixteenOf(a: seq<u8>, tail: seq<u8>)
    requires |a| == 16
    ensures Sixteen(a + tail) == a
  {
  }

  lemma FindTurn(s: seq<u8>, room: int, n: nat)
    requires n > 0
    ensures var r := Drop(s, Skip(s));
            FindAddress(s, room, n)
            == if Field(r, 2) == CLASS_IN && Field(r, 0) == TYPE_AAAA && Field(r, 8) == 16 then
                 Some(Sixteen(Drop(r, 10)))
               else
                 var k := Skip(s) + 10 + Field(r, 8);
                 if k > room then None else FindAddress(Drop(s, k), room - k, n - 1)
  {
    hide Skip, Field, Sixteen, Drop;
  }

  // One record: found, or stepped over, or not all there.
  lemma WalksRecord(r: Record, rest: seq<u8>, room: int, n: nat)
    requires n > 0
    ensures var s := NameTo(r.name, FieldsTo(r, r.rdata + rest));
            && |s| == RecordSize(r) + |rest|
            && FindAddress(s, room, n)
               == if r.IsAddress() then Some(r.rdata)
                  else if RecordSize(r) > room then None
                  else FindAddress(rest, room - RecordSize(r), n - 1)
  {
    var tail := r.rdata + rest;
    var fields := FieldsTo(r, tail);
    var s := NameTo(r.name, fields);
    SkipLands(r.name, fields);
    NameLength(r.name, fields);
    FieldsRead(r, tail);
    hide Skip, NameTo, NameSize, FieldsTo, Sixteen, Field, FindAddress;
    FindTurn(s, room, n);
    assert Drop(s, Skip(s)) == fields && Drop(fields, 10) == tail && Drop(tail, |r.rdata|) == rest;
    hide Drop;
    if r.IsAddress() {
      SixteenOf(r.rdata, rest);
    } else {
      DropAdds(s, Skip(s), 10 + |r.rdata|);
      DropAdds(fields, 10, |r.rdata|);
    }
  }

  lemma {:induction false} WalksRecords(rs: seq<Record>, tail: seq<u8>, room: int)
    ensures |RecordsTo(rs, tail)| == RecordsSize(rs) + |tail|
    ensures FindAddress(RecordsTo(rs, tail), room, |rs|) == FirstWithin(rs, room)
    decreases |rs|
  {
    hide FindAddress, NameTo, FieldsTo, RecordsTo, RecordSize;
    RecordsTurn(rs, tail);
    NothingToWalk(tail, room);
    if rs != [] {
      WalksRecord(rs[0], RecordsTo(rs[1..], tail), room, |rs|);
      WalksRecords(rs[1..], tail, room - RecordSize(rs[0]));
    }
  }

  lemma RecordsTurn(rs: seq<Record>, tail: seq<u8>)
    ensures rs == [] ==> RecordsTo(rs, tail) == tail
    ensures rs != [] ==>
              RecordsTo(rs, tail) == NameTo(rs[0].name, FieldsTo(rs[0], rs[0].rdata + RecordsTo(rs[1..], tail)))
  {
    hide NameTo, FieldsTo;
  }

  lemma {:induction false} AllWithin(rs: seq<Record>, room: int)
    requires RecordsSize(rs) <= room
    ensures FirstWithin(rs, room) == FirstAddress(rs)
    decreases |rs|
  {
    if rs != [] { AllWithin(rs[1..], room - RecordSize(rs[0])); }
  }

  lemma HeaderFields(m: Message, behind: seq<u8>)
    requires m.Countable()
    ensures var b := m.Wire() + behind;
            && Field(b, 0) == m.id && At(b, 3) == m.flags2 && At(b, 5) == |m.questions| && At(b, 7) == |m.answers|
            && |m.Wire()| == HEADER + |QuestionsTo(m.questions, RecordsTo(m.answers, m.more))|
            && Drop(b, HEADER) == QuestionsTo(m.questions, RecordsTo(m.answers, m.more)) + behind
  {
    hide QuestionsTo, RecordsTo;
  }

  // For every well-formed message, whatever lies behind it in the buffer and however much of it the
  // payload is said to hold. The reply to another request, and one with an error code, are refused,
  // and so is one whose questions, or whose records before an address, lead out of the payload.
  lemma ReplyIsWalked(m: Message, behind: seq<u8>, length: nat, id: u16)
    requires m.Countable()
    ensures Process(m.Wire() + behind, length, id)
         == if m.id != id || m.flags2 % 0x10 != 0 then None
            else if m.questions != [] && HEADER + QuestionsSize(m.questions) > length then None
            else FirstWithin(m.answers, length - HEADER - QuestionsSize(m.questions))
  {
    hide QuestionsTo, RecordsTo, SkipQuestions, FindAddress, Field, FirstWithin, Skip, NameTo, Drop, At, Message.Wire;
    hide QuestionsSize;
    var tail := m.more + behind;
    var answers := RecordsTo(m.answers, tail);
    HeaderFields(m, behind);
    BodyBehind(m.questions, m.answers, m.more, behind);
    assert Drop(m.Wire() + behind, HEADER) == QuestionsTo(m.questions, answers);
    WalksQuestions(m.questions, answers, length - HEADER);
    WalksRecords(m.answers, tail, length - HEADER - QuestionsSize(m.questions));
  }

  // When all of it is there: the data of the first IN/AAAA answer with 16 bytes, or nothing if there
  // is none.
  lemma ReplyIsUnderstood(m: Message, behind: seq<u8>, id: u16)
    requires m.Countable()
    ensures Process(m.Wire() + behind, |m.Wire()|, id)
         == if m.id == id && m.flags2 % 0x10 == 0 then FirstAddress(m.answers) else None
  {
    ReplyIsWalked(m, behind, |m.Wire()|, id);
    hide QuestionsTo, RecordsTo, FirstWithin, FirstAddress, Process, Message.Wire, QuestionsSize, RecordsSize;
    HeaderFields(m, behind);
    WalksQuestions(m.questions, RecordsTo(m.answers, m.more), 0);
    WalksRecords(m.answers, m.more, 0);
    AllWithin(m.answers, |m.Wire()| - HEADER - QuestionsSize(m.questions));
  }

  lemma BodyBehind(qs: seq<Question>, rs: seq<Record>, more: seq<u8>, behind: seq<u8>)
    ensures QuestionsTo(qs, RecordsTo(rs, more)) + behind == QuestionsTo(qs, RecordsTo(rs, more + behind))
  {
    QuestionsBehind(qs, RecordsTo(rs, more), behind);
    RecordsBehind(rs, more, behind);
  }

  // The request is a message of RFC 1035 section 4.1: one question for the labels of the host name.
  lemma RequestIsAQuestion(labels: seq<Label>, id: u16)
    requires labels != [] && DotFree(labels)
    ensures Request(HostOf(labels), id)
         == Message(id, 0x01, 0, [Question(Plain(labels), [0, 28, 0, 1])], [], [0, 0, 0, 0], []).Wire()
  {
    hide Encode, NameTo, HostOf;
    var n, fields: Four := Plain(labels), [0, 28, 0, 1];
    assert Word16(TYPE_AAAA) + Word16(CLASS_IN) == fields;
    EncodesLabels(labels);
    NameBehind(n, [], fields);
    assert [] + fields == fields;
    var q := Question(n, fields);
    assert QuestionsTo([q], []) == NameTo(n, fields) by {
      QuestionsTurn([q], []);
      assert [q][1..] == [] && fields + [] == fields;
    }
    assert Word16(0) + Word16(0) == [0, 0, 0, 0];
  }

  lemma {:induction false} LabelsBehind(labels: seq<Label>, tail: seq<u8>, behind: seq<u8>)
    ensures LabelsTo(labels, tail) + behind == LabelsTo(labels, tail + behind)
    decreases |labels|
  {
    if labels != [] { LabelsBehind(labels[1..], tail, behind); }
  }

  lemma NameBehind(n: AnyName, tail: seq<u8>, behind: seq<u8>)
    ensures NameTo(n, tail) + behind == NameTo(n, tail + behind)
  {
    match n
    case Plain(labels) =>
      LabelsBehind(labels, [0] + tail, behind);
      assert [0] + tail + behind == [0] + (tail + behind);
    case Pointing(labels, hi, lo) =>
      LabelsBehind(labels, [hi, lo] + tail, behind);
      assert [hi, lo] + tail + behind == [hi, lo] + (tail + behind);
  }

  lemma {:induction false} QuestionsBehind(qs: seq<Question>, tail: seq<u8>, behind: seq<u8>)
    ensures QuestionsTo(qs, tail) + behind == QuestionsTo(qs, tail + behind)
    decreases |qs|
  {
    if qs != [] {
      hide NameTo;
      QuestionsBehind(qs[1..], tail, behind);
      NameBehind(qs[0].name, qs[0].fields + QuestionsTo(qs[1..], tail), behind);
      assert qs[0].fields + QuestionsTo(qs[1..], tail) + behind == qs[0].fields + QuestionsTo(qs[1..], tail + behind);
    }
  }

  lemma {:induction false} RecordsBehind(rs: seq<Record>, tail: seq<u8>, behind: seq<u8>)
    ensures RecordsTo(rs, tail) + behind == RecordsTo(rs, tail + behind)
    decreases |rs|
  {
    if rs != [] {
      var r, rest := rs[0], rs[0].rdata + RecordsTo(rs[1..], tail);
      FieldsBehind(r, rest, behind);
      hide NameTo, FieldsTo;
      RecordsBehind(rs[1..], tail, behind);
      NameBehind(r.name, FieldsTo(r, rest), behind);
      assert rest + behind == r.rdata + RecordsTo(rs[1..], tail + behind);
    }
  }

  lemma FieldsBehind(r: Record, tail: seq<u8>, behind: seq<u8>)
    ensures FieldsTo(r, tail) + behind == FieldsTo(r, tail + behind)
  {
    var a, b := Word16(|r.rdata|) + tail, Word16(|r.rdata|) + (tail + behind);
    assert a + behind == b;
    assert (r.ttl + a) + behind == r.ttl + b;
    assert (Word16(r.class_) + (r.ttl + a)) + behind == Word16(r.class_) + (r.ttl + b);
  }
}
