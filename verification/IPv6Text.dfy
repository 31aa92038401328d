// IPv6Address::fromString() and print() (src/IPv6Address.cpp, src/util.cpp) against the text
// forms of RFC 4291 section 2.2. Strings are C strings: bytes up to a NUL.

module IPv6Text {
  import opened Bytes
  import opened Frame
  import opened HexText

  const MAX_STR_LEN := 39

  // ----- the two passes, on what is left of the string

  // Step 1: `prev` is the character before `rest`; at most n more are looked at.
  function Scan(prev: u8, rest: seq<u8>, n: nat, count: u8): u8
    decreases n
  {
    if n == 0 || rest == [] || rest[0] == NUL then count
    else if rest[0] != COLON then Scan(rest[0], rest[1..], n - 1, count)
    else Scan(COLON, rest[1..], n - 1, if prev == COLON then 14 else if count >= 2 then count - 2 else count)
  }

  datatype Parsed = Parsed(ok: bool, address: Addr)

  // One more digit at the end of a word, which keeps its last four.
  function Shift(acc: u16, val: int): u16
    requires 0 <= val < 16
  { acc * 16 % 0x1_0000 + val }

  function SetWord(a: Addr, pos: nat, w: u16): Addr
    requires pos <= 14
  { a[pos := w / 0x100][pos + 1 := w % 0x100] }

  // Step 2: `prev` is absent for the first character.
  function Convert(prev: Option<u8>, rest: seq<u8>, n: nat, count: u8, pos: nat, acc: u16, a: Addr): Parsed
    requires count <= 14 && count % 2 == 0 && pos % 2 == 0
    decreases n
  {
    if n == 0 || rest == [] || pos >= 16 then Parsed(true, a)
    else if rest[0] == COLON || rest[0] == NUL then
      var a' := SetWord(a, pos, acc);
      if rest[0] == NUL then Parsed(true, a')
      else
        var pos' := if count > 0 && prev == Some(COLON) then count else pos + 2;
        Convert(Some(COLON), rest[1..], n - 1, count, pos', 0, a')
    else if AsciiToHex(rest[0]) == -1 then Parsed(false, a)
    else Convert(Some(rest[0]), rest[1..], n - 1, count, pos, Shift(acc, AsciiToHex(rest[0])), a)
  }

  lemma ScanTurn(prev: u8, rest: seq<u8>, n: nat, count: u8)
    requires n > 0 && rest != []
    ensures Scan(prev, rest, n, count) ==
              if rest[0] == NUL then count
              else if rest[0] != COLON then Scan(rest[0], rest[1..], n - 1, count)
              else Scan(COLON, rest[1..], n - 1, if prev == COLON then 14 else if count >= 2 then count - 2 else count)
  {
  }

  lemma ScanEnd(prev: u8, rest: seq<u8>, count: u8)
    ensures Scan(prev, rest, 0, count) == count
  {
  }

  // The character before position i.
  function Before(s: seq<u8>, i: nat): Option<u8>
    requires i <= |s|
  { if i == 0 then None else Some(s[i - 1]) }

  lemma ConvertTurn(prev: Option<u8>, rest: seq<u8>, n: nat, count: u8, pos: nat, acc: u16, a: Addr)
    requires count <= 14 && count % 2 == 0 && pos % 2 == 0 && n > 0 && rest != [] && pos < 16
    ensures Convert(prev, rest, n, count, pos, acc, a) ==
              if rest[0] == NUL then Parsed(true, SetWord(a, pos, acc))
              else if rest[0] == COLON then
                var pos' := if count > 0 && prev == Some(COLON) then count else pos + 2;
                Convert(Some(COLON), rest[1..], n - 1, count, pos', 0, SetWord(a, pos, acc))
              else if AsciiToHex(rest[0]) == -1 then Parsed(false, a)
              else Convert(Some(rest[0]), rest[1..], n - 1, count, pos, Shift(acc, AsciiToHex(rest[0])), a)
  {
  }

  lemma ConvertEnd(prev: Option<u8>, rest: seq<u8>, n: nat, count: u8, pos: nat, acc: u16, a: Addr)
    requires count <= 14 && count % 2 == 0 && pos % 2 == 0 && (n == 0 || pos >= 16)
    ensures Convert(prev, rest, n, count, pos, acc, a) == Parsed(true, a)
  {
  }

  lemma {:induction false} ScanIsEven(prev: u8, rest: seq<u8>, n: nat, count: u8)
    requires count <= 14 && count % 2 == 0
    ensures Scan(prev, rest, n, count) <= 14 && Scan(prev, rest, n, count) % 2 == 0
    decreases n
  {
    if n == 0 || rest == [] || rest[0] == NUL {
    } else if rest[0] != COLON {
      ScanIsEven(rest[0], rest[1..], n - 1, count);
    } else {
      ScanIsEven(COLON, rest[1..], n - 1, if prev == COLON then 14 else if count >= 2 then count - 2 else count);
    }
  }

  function Parse(s: seq<u8>): Parsed
    requires s != []
  {
    ScanIsEven(s[0], s[1..], MAX_STR_LEN, 0);
    Convert(None, s, MAX_STR_LEN + 1, Scan(s[0], s[1..], MAX_STR_LEN, 0), 0, 0, ZERO_ADDR)
  }

  class IPv6Address {
    const address: array<u8>

    constructor ()
      ensures address.Length == 16 && fresh(address)
    {
      address := new u8[16];
    }

    // A C string that is not empty.
    method FromString(s: seq<u8>) returns (ok: bool)
      requires address.Length == 16
      requires |s| >= 2 && s[|s| - 1] == NUL && NUL !in s[..|s| - 1]
      modifies address
      ensures Parsed(ok, address[..]) == Parse(s)
    {
      SetZero();
      var colonCount := FindDoubleColon(s);
      ScanIsEven(s[0], s[1..], MAX_STR_LEN, 0);
      var accumulator: u16, pos := 0, 0;
      var i := 0;
      assert s[0..] == s;
      hide Scan, Convert, Parse;
      while i <= MAX_STR_LEN && pos < 16
        invariant 0 <= i <= MAX_STR_LEN + 1 && i < |s| && 0 <= pos && pos % 2 == 0
        invariant Parse(s) ==
                    Convert(Before(s, i), s[i..], MAX_STR_LEN + 1 - i, colonCount, pos, accumulator, address[..])
        decreases MAX_STR_LEN + 1 - i
      {
        ok, pos, accumulator := Character(s, i, colonCount, pos, accumulator);
        if !ok { return false; }
        if s[i] == NUL { return true; }
        i := i + 1;
      }
      ConvertEnd(Before(s, i), s[i..], MAX_STR_LEN + 1 - i, colonCount, pos, accumulator, address[..]);
      ok := true;
    }

    method SetZero()
      requires address.Length == 16
      modifies address
      ensures address[..] == ZERO_ADDR
    {
      forall i | 0 <= i < 16 { address[i] := 0; }
    }

    // One turn of the second loop.
    method Character(s: seq<u8>, i: nat, colonCount: u8, pos: nat, acc: u16) returns (ok: bool, pos': nat, acc': u16)
      requires address.Length == 16 && i < |s| && i <= MAX_STR_LEN
      requires colonCount <= 14 && colonCount % 2 == 0 && pos % 2 == 0 && pos < 16
      modifies address
      ensures pos' % 2 == 0
      ensures Convert(Before(s, i), s[i..], MAX_STR_LEN + 1 - i, colonCount, pos, acc, old(address[..]))
           == if !ok || s[i] == NUL then Parsed(ok, address[..])
              else Convert(Before(s, i + 1), s[i + 1..], MAX_STR_LEN - i, colonCount, pos', acc', address[..])
    {
      hide AsciiToHex, Shift, SetWord, Convert;
      ConvertTurn(Before(s, i), s[i..], MAX_STR_LEN + 1 - i, colonCount, pos, acc, address[..]);
      assert s[i..][0] == s[i] && s[i..][1..] == s[i + 1..];
      ok := true;
      if s[i] == COLON || s[i] == NUL {
        StoreWord(pos, acc);
        acc' := 0;
        pos' := if colonCount > 0 && i > 0 && s[i - 1] == COLON then colonCount else pos + 2;
      } else {
        pos', acc' := pos, acc;
        var val := AsciiToHex(s[i]);
        if val == -1 {
          ok := false;
        } else {
          acc' := Shift(acc, val);
        }
      }
    }

    method StoreWord(pos: nat, w: u16)
      requires address.Length == 16 && pos <= 14
      modifies address
      ensures address[..] == SetWord(old(address[..]), pos, w)
    {
      address[pos] := w / 0x100;
      address[pos + 1] := w % 0x100;
    }

    method FindDoubleColon(s: seq<u8>) returns (colonCount: u8)
      requires |s| >= 2 && s[|s| - 1] == NUL && NUL !in s[..|s| - 1]
      ensures colonCount == Scan(s[0], s[1..], MAX_STR_LEN, 0)
    {
      hide Scan;
      colonCount := 0;
      var i := 1;
      while i <= MAX_STR_LEN
        invariant 1 <= i <= MAX_STR_LEN + 1 && i <= |s| && colonCount <= 14 && colonCount % 2 == 0
        invariant i == |s| ==> i == MAX_STR_LEN + 1
        invariant Scan(s[i - 1], s[i..], MAX_STR_LEN + 1 - i, colonCount) == Scan(s[0], s[1..], MAX_STR_LEN, 0)
      {
        ScanTurn(s[i - 1], s[i..], MAX_STR_LEN + 1 - i, colonCount);
        assert s[i..][0] == s[i] && s[i..][1..] == s[i + 1..];
        if s[i] == COLON {
          if s[i - 1] == COLON {
            colonCount := 14;
          } else if colonCount > 0 {
            colonCount := colonCount - 2;
          }
        } else if s[i] == NUL {
          return;
        }
        i := i + 1;
      }
      ScanEnd(s[i - 1], s[i..], colonCount);
    }
  }

  // ----- the grammar of RFC 4291 section 2.2, forms 1 and 2

  predicate IsGroup(g: seq<u8>) { 1 <= |g| <= 4 && forall i :: 0 <= i < |g| ==> IsHex(g[i]) }

  type Group = g: seq<u8> | IsGroup(g) witness [48]

  // Eight groups, or fewer with "::" standing for the zeros between `before` and `after`.
  datatype Text = Full(groups: seq<Group>) | Compressed(before: seq<Group>, after: seq<Group>)
  {
    ghost predicate Valid() {
      match this
      case Full(groups) => |groups| == 8
      case Compressed(before, after) => |before| + |after| <= 7
    }
  }

  // Groups separated by colons, and what follows them.
  function Join(gs: seq<Group>, tail: seq<u8>): seq<u8>
    decreases |gs|
  { if gs == [] then tail else gs[0] + if |gs| == 1 then tail else [COLON] + Join(gs[1..], tail) }

  // The text as a C string.
  function Render(t: Text): seq<u8> {
    match t
    case Full(groups) => Join(groups, [NUL])
    case Compressed(before, after) => Join(before, [COLON] + ([COLON] + Join(after, [NUL])))
  }

  // The hexadecimal value of a digit and of a group, as the RFC reads them.
  function Digit(c: u8): (d: u8)
    requires IsHex(c)
    ensures d < 16
  { if c <= 57 then c - 48 else if c <= 70 then c - 55 else c - 87 }

  function Value(g: Group): u16 {
    var d := Digit(g[|g| - 1]);
    if |g| == 1 then d
    else if |g| == 2 then Digit(g[0]) * 0x10 + d
    else if |g| == 3 then Digit(g[0]) * 0x100 + Digit(g[1]) * 0x10 + d
    else Digit(g[0]) * 0x1000 + Digit(g[1]) * 0x100 + Digit(g[2]) * 0x10 + d
  }

  function Values(gs: seq<Group>): (r: seq<u8>)
    ensures |r| == 2 * |gs|
  {
    if gs == [] then [] else Word16(Value(gs[0])) + Values(gs[1..])
  }

  ghost function Denotes(t: Text): Addr
    requires t.Valid()
  {
    match t
    case Full(groups) => Values(groups)
    case Compressed(before, after) => Values(before) + ZERO_ADDR[2 * |before|..16 - 2 * |after|] + Values(after)
  }

  // ----- step 1 on a text

  ghost predicate Plain(s: seq<u8>) { forall i :: 0 <= i < |s| ==> s[i] != COLON && s[i] != NUL }

  lemma {:induction false} ScanGroup(prev: u8, g: seq<u8>, tail: seq<u8>, n: nat, count: u8)
    requires Plain(g) && n >= |g| > 0
    ensures Scan(prev, g + tail, n, count) == Scan(g[|g| - 1], tail, n - |g|, count)
    decreases |g|
  {
    assert (g + tail)[1..] == g[1..] + tail;
    if |g| > 1 {
      ScanGroup(g[0], g[1..], tail, n - 1, count);
    } else {
      assert g[1..] + tail == tail;
    }
  }

  // Through groups that are joined by single colons, each colon takes 2 off a positive count.
  lemma {:induction false} ScanJoin(prev: u8, gs: seq<Group>, tail: seq<u8>, n: nat, count: u8) returns (last: u8)
    requires gs != [] && n >= |Join(gs, tail)| && count % 2 == 0
    requires count == 0 || count >= 2 * |gs|
    ensures last != COLON && |Join(gs, tail)| >= |tail|
    ensures Scan(prev, Join(gs, tail), n, count)
         == Scan(last, tail, n - (|Join(gs, tail)| - |tail|), if count == 0 then 0 else count - 2 * (|gs| - 1))
    decreases |gs|
  {
    var g := gs[0];
    GroupIsPlain(g);
    hide Scan, IsGroup;
    if |gs| == 1 {
      last := g[|g| - 1];
      ScanGroup(prev, g, tail, n, count);
    } else {
      var rest := Join(gs[1..], tail);
      ScanGroup(prev, g, [COLON] + rest, n, count);
      ScanTurn(g[|g| - 1], [COLON] + rest, n - |g|, count);
      assert ([COLON] + rest)[1..] == rest;
      last := ScanJoin(COLON, gs[1..], tail, n - |g| - 1, if count == 0 then 0 else count - 2);
    }
  }

  lemma GroupIsPlain(g: Group)
    ensures Plain(g)
  {
  }

  lemma {:induction false} JoinLength(gs: seq<Group>, tail: seq<u8>)
    ensures |tail| + 2 * |gs| - 1 <= |Join(gs, tail)| <= |tail| + 5 * |gs|
    ensures gs != [] ==> |Join(gs, tail)| <= |tail| + 5 * |gs| - 1 && Join(gs, tail)[0] != NUL
    decreases |gs|
  {
    if gs != [] {
      GroupIsPlain(gs[0]);
      if |gs| > 1 { JoinLength(gs[1..], tail); }
    }
  }

  // "::" sets the count to 14, and every colon behind it takes 2 off.
  lemma ScanDouble(prev: u8, after: seq<Group>, n: nat)
    requires prev != COLON && |after| <= 7 && n >= |Join(after, [NUL])| + 2
    ensures Scan(prev, [COLON] + ([COLON] + Join(after, [NUL])), n, 0) == Count(after)
  {
    hide Scan;
    var end := Join(after, [NUL]);
    ScanTurn(prev, [COLON] + ([COLON] + end), n, 0);
    assert ([COLON] + ([COLON] + end))[1..] == [COLON] + end;
    ScanTurn(COLON, [COLON] + end, n - 1, 0);
    assert ([COLON] + end)[1..] == end;
    if after == [] {
      ScanTurn(COLON, [NUL], n - 2, 14);
    } else {
      var last := ScanJoin(COLON, after, [NUL], n - 2, 14);
      ScanTurn(last, [NUL], n - 2 - (|end| - 1), 16 - 2 * |after|);
    }
  }

  // Where the groups after "::" start.
  function Count(after: seq<Group>): u8
    requires |after| <= 7
  { if after == [] then 14 else 16 - 2 * |after| }

  lemma ScanCompressed(before: seq<Group>, after: seq<Group>)
    requires |before| + |after| <= 7
    ensures Scan(48, Render(Compressed(before, after)), MAX_STR_LEN + 1, 0) == Count(after)
  {
    hide Scan;
    var tail := [COLON] + ([COLON] + Join(after, [NUL]));
    JoinLength(before, tail);
    JoinLength(after, [NUL]);
    var prev, n := 48, MAX_STR_LEN + 1;
    if before != [] {
      prev := ScanJoin(48, before, tail, n, 0);
      n := n - (|Join(before, tail)| - |tail|);
    }
    ScanDouble(prev, after, n);
  }

  lemma ScanFull(groups: seq<Group>)
    requires |groups| == 8
    ensures Scan(48, Join(groups, [NUL]), MAX_STR_LEN + 1, 0) == 0
  {
    hide Scan;
    JoinLength(groups, [NUL]);
    var last := ScanJoin(48, groups, [NUL], MAX_STR_LEN + 1, 0);
    ScanTurn(last, [NUL], MAX_STR_LEN + 1 - (|Join(groups, [NUL])| - 1), 0);
  }

  // ----- step 2 on a text

  lemma DigitIsHex(c: u8)
    requires IsHex(c)
    ensures AsciiToHex(c) == Digit(c) && c != COLON && c != NUL
  {
  }

  function ShiftAll(acc: u16, g: seq<u8>): u16
    requires forall i :: 0 <= i < |g| ==> IsHex(g[i])
    decreases |g|
  { if g == [] then acc else ShiftAll(Shift(acc, Digit(g[0])), g[1..]) }

  lemma ShiftSmall(acc: u16, v: int)
    requires acc < 0x1000 && 0 <= v < 16
    ensures Shift(acc, v) == acc * 16 + v
  {
  }

  lemma ShiftAllIsValue(g: Group)
    ensures ShiftAll(0, g) == Value(g)
  {
    hide Digit, Shift, IsHex;
    var acc: u16 := Digit(g[0]);
    ShiftSmall(0, Digit(g[0]));
    assert ShiftAll(0, g) == ShiftAll(acc, g[1..]);
    if |g| >= 2 {
      ShiftSmall(acc, Digit(g[1]));
      acc := acc * 16 + Digit(g[1]);
      assert ShiftAll(0, g) == ShiftAll(acc, g[1..][1..]);
      if |g| >= 3 {
        ShiftSmall(acc, Digit(g[2]));
        acc := acc * 16 + Digit(g[2]);
        assert ShiftAll(0, g) == ShiftAll(acc, g[1..][1..][1..]);
        if |g| == 4 {
          ShiftSmall(acc, Digit(g[3]));
          assert ShiftAll(0, g) == ShiftAll(acc * 16 + Digit(g[3]), g[1..][1..][1..][1..]);
        }
      }
    }
  }

  lemma {:induction false} ConvertHex(prev: Option<u8>, g: seq<u8>, tail: seq<u8>, n: nat, count: u8,
                                        pos: nat, acc: u16, a: Addr)
    requires count <= 14 && count % 2 == 0 && pos % 2 == 0 && pos < 16
    requires n >= |g| > 0 && forall i :: 0 <= i < |g| ==> IsHex(g[i])
    ensures Convert(prev, g + tail, n, count, pos, acc, a)
         == Convert(Some(g[|g| - 1]), tail, n - |g|, count, pos, ShiftAll(acc, g), a)
    decreases |g|
  {
    hide AsciiToHex, Digit, Shift, Convert;
    DigitIsHex(g[0]);
    ConvertTurn(prev, g + tail, n, count, pos, acc, a);
    assert (g + tail)[1..] == g[1..] + tail && (g + tail)[0] == g[0];
    if |g| > 1 {
      ConvertHex(Some(g[0]), g[1..], tail, n - 1, count, pos, Shift(acc, Digit(g[0])), a);
    } else {
      assert g[1..] + tail == tail && ShiftAll(Shift(acc, Digit(g[0])), g[1..]) == Shift(acc, Digit(g[0]));
    }
  }

  // A group and its separator write one word.
  lemma ConvertGroup(prev: Option<u8>, g: Group, sep: u8, tail: seq<u8>, n: nat, count: u8, pos: nat, a: Addr)
    requires count <= 14 && count % 2 == 0 && pos % 2 == 0 && pos < 16 && n > |g| && (sep == COLON || sep == NUL)
    ensures Convert(prev, g + ([sep] + tail), n, count, pos, 0, a)
         == if sep == NUL then Parsed(true, SetWord(a, pos, ShiftAll(0, g)))
            else Convert(Some(COLON), tail, n - |g| - 1, count, pos + 2, 0, SetWord(a, pos, ShiftAll(0, g)))
  {
    var rest, last := [sep] + tail, g[|g| - 1];
    LastIsHex(g);
    hide Convert, ShiftAll, AsciiToHex, Shift, SetWord, Digit;
    ConvertHex(prev, g, rest, n, count, pos, 0, a);
    ConvertTurn(Some(last), rest, n - |g|, count, pos, ShiftAll(0, g), a);
    assert rest[0] == sep && rest[1..] == tail;
  }

  lemma LastIsHex(g: Group)
    ensures g[|g| - 1] != COLON
  {
    DigitIsHex(g[|g| - 1]);
  }

  function SetWords(a: Addr, pos: nat, gs: seq<Group>): Addr
    requires pos + 2 * |gs| <= 16
    decreases |gs|
  { if gs == [] then a else SetWords(SetWord(a, pos, ShiftAll(0, gs[0])), pos + 2, gs[1..]) }

  lemma {:induction false} SetWordsIs(a: Addr, pos: nat, gs: seq<Group>)
    requires pos + 2 * |gs| <= 16
    ensures SetWords(a, pos, gs) == a[..pos] + Values(gs) + a[pos + 2 * |gs|..]
    decreases |gs|
  {
    if gs != [] {
      ShiftAllIsValue(gs[0]);
      var w := Value(gs[0]);
      hide Value, ShiftAll;
      var b, end := SetWord(a, pos, w), pos + 2 * |gs|;
      assert b[..pos + 2] == a[..pos] + Word16(w) && b[end..] == a[end..];
      hide SetWord;
      SetWordsIs(b, pos + 2, gs[1..]);
    }
  }

  lemma {:induction false} ConvertJoin(prev: Option<u8>, gs: seq<Group>, sep: u8, tail: seq<u8>, n: nat, count: u8,
                                         pos: nat, a: Addr)
    requires count <= 14 && count % 2 == 0 && pos % 2 == 0 && gs != [] && pos + 2 * |gs| <= 16
    requires n >= |Join(gs, [sep] + tail)| - |tail| && (sep == COLON || sep == NUL)
    ensures |Join(gs, [sep] + tail)| >= |tail|
    ensures Convert(prev, Join(gs, [sep] + tail), n, count, pos, 0, a)
         == if sep == NUL then Parsed(true, SetWords(a, pos, gs))
            else Convert(Some(COLON), tail, n - (|Join(gs, [sep] + tail)| - |tail|), count, pos + 2 * |gs|, 0,
                SetWords(a, pos, gs))
    decreases |gs|
  {
    hide Convert, ShiftAll, SetWord;
    JoinLength(gs, [sep] + tail);
    if |gs| == 1 {
      ConvertGroup(prev, gs[0], sep, tail, n, count, pos, a);
      assert SetWords(a, pos, gs) == SetWord(a, pos, ShiftAll(0, gs[0]));
    } else {
      JoinLength(gs[1..], [sep] + tail);
      ConvertGroup(prev, gs[0], COLON, Join(gs[1..], [sep] + tail), n, count, pos, a);
      ConvertJoin(Some(COLON), gs[1..], sep, tail, n - |gs[0]| - 1, count, pos + 2,
          SetWord(a, pos, ShiftAll(0, gs[0])));
    }
  }

  // ----- both passes

  lemma ScanFromStart(s: seq<u8>)
    requires s != [] && s[0] != NUL
    ensures Scan(48, s, MAX_STR_LEN + 1, 0) == Scan(s[0], s[1..], MAX_STR_LEN, 0)
  {
  }

  lemma ParsesFull(groups: seq<Group>)
    requires |groups| == 8
    ensures Parse(Join(groups, [NUL])) == Parsed(true, Values(groups))
  {
    hide Convert, Scan, Value, Values, Join;
    JoinLength(groups, [NUL]);
    ScanFull(groups);
    ScanFromStart(Join(groups, [NUL]));
    assert [NUL] + [] == [NUL];
    ConvertJoin(None, groups, NUL, [], MAX_STR_LEN + 1, 0, 0, ZERO_ADDR);
    SetWordsIs(ZERO_ADDR, 0, groups);
  }

  lemma ZeroWord(a: Addr, pos: nat)
    requires pos <= 14 && a[pos..] == ZERO_ADDR[pos..]
    ensures SetWord(a, pos, 0) == a
  {
    assert a[pos] == a[pos..][0] && a[pos + 1] == a[pos..][1];
  }

  // After the first colon of "::", whatever came before it: the second moves to the words that
  // the groups behind it need.
  lemma ConvertAfterDouble(after: seq<Group>, n: nat, pos: nat, a: Addr)
    requires |after| <= 7 && pos % 2 == 0 && pos < 16 && n > |Join(after, [NUL])|
    requires pos + 2 * |after| <= 16 && a[pos..] == ZERO_ADDR[pos..]
    ensures Convert(Some(COLON), [COLON] + Join(after, [NUL]), n, Count(after), pos, 0, a)
         == Parsed(true, a[..pos] + ZERO_ADDR[pos..16 - 2 * |after|] + Values(after))
  {
    assert |Join([], [NUL])| == 1;
    hide Convert, Value, Values, SetWords, Join, Zeros, AsciiToHex, Shift, SetWord, IsGroup;
    var count, end := Count(after), Join(after, [NUL]);
    ConvertTurn(Some(COLON), [COLON] + end, n, count, pos, 0, a);
    ZeroWord(a, pos);
    assert ([COLON] + end)[1..] == end;
    if after == [] {
      ConvertAtEnd(n - 1, pos, a);
    } else {
      ConvertAtLast(after, n - 1, pos, a);
    }
  }

  lemma ConvertAtLast(after: seq<Group>, n: nat, pos: nat, a: Addr)
    requires 1 <= |after| <= 7 && n >= |Join(after, [NUL])| && pos + 2 * |after| <= 16 && a[pos..] == ZERO_ADDR[pos..]
    ensures var at := 16 - 2 * |after|;
            Convert(Some(COLON), Join(after, [NUL]), n, at, at, 0, a)
            == Parsed(true, a[..pos] + ZERO_ADDR[pos..at] + Values(after))
  {
    hide Convert, Value, Values, SetWords, Join, Zeros;
    var at := 16 - 2 * |after|;
    assert [NUL] + [] == [NUL];
    ConvertJoin(Some(COLON), after, NUL, [], n, at, at, a);
    SetWordsIs(a, at, after);
    ZerosBefore(a, pos, Values(after));
  }

  lemma ConvertAtEnd(n: nat, pos: nat, a: Addr)
    requires n > 0 && pos % 2 == 0 && pos < 16 && a[pos..] == ZERO_ADDR[pos..]
    ensures Convert(Some(COLON), Join([], [NUL]), n, 14, 14, 0, a)
         == Parsed(true, a[..pos] + ZERO_ADDR[pos..16] + Values([]))
  {
    hide Convert, AsciiToHex, Shift, SetWord, Zeros;
    ConvertTurn(Some(COLON), [NUL], n, 14, 14, 0, a);
    assert a[14..] == a[pos..][14 - pos..];
    assert ZERO_ADDR[14..] == ZERO_ADDR[pos..][14 - pos..];
    ZeroWord(a, 14);
    assert a == a[..pos] + a[pos..] + [];
    assert ZERO_ADDR[pos..16] == ZERO_ADDR[pos..];
  }

  lemma ZerosBefore(a: Addr, pos: nat, words: seq<u8>)
    requires pos + |words| <= 16 && a[pos..] == ZERO_ADDR[pos..]
    ensures a[..16 - |words|] + words + a[16..] == a[..pos] + ZERO_ADDR[pos..16 - |words|] + words
  {
    var at := 16 - |words|;
    assert a[..at] == a[..pos] + a[pos..][..at - pos];
    assert ZERO_ADDR[pos..][..at - pos] == ZERO_ADDR[pos..at];
    assert a[16..] == [];
  }

  lemma WordsThenZeros(gs: seq<Group>)
    requires |gs| <= 7
    ensures var a := SetWords(ZERO_ADDR, 0, gs); a[..2 * |gs|] == Values(gs) && a[2 * |gs|..] == ZERO_ADDR[2 * |gs|..]
  {
    hide SetWords, Values;
    SetWordsIs(ZERO_ADDR, 0, gs);
    assert SetWords(ZERO_ADDR, 0, gs) == Values(gs) + ZERO_ADDR[2 * |gs|..];
  }

  lemma ConvertDoubleFirst(after: seq<Group>)
    requires |after| <= 7
    ensures Convert(None, Render(Compressed([], after)), MAX_STR_LEN + 1, Count(after), 0, 0, ZERO_ADDR)
         == Parsed(true, Denotes(Compressed([], after)))
  {
    var end := [COLON] + Join(after, [NUL]);
    assert Render(Compressed([], after)) == [COLON] + end;
    JoinLength(after, [NUL]);
    NoValues();
    hide Convert, Value, Values, SetWord, AsciiToHex, Shift, Join, Render;
    ConvertTurn(None, [COLON] + end, MAX_STR_LEN + 1, Count(after), 0, 0, ZERO_ADDR);
    assert ([COLON] + end)[1..] == end;
    ZeroWord(ZERO_ADDR, 0);
    ConvertAfterDouble(after, MAX_STR_LEN, 2, ZERO_ADDR);
    assert ZERO_ADDR[..2] + ZERO_ADDR[2..16 - 2 * |after|] == [] + ZERO_ADDR[0..16 - 2 * |after|];
  }

  // The loop does not end before the string does.
  lemma JoinRoom(before: seq<Group>, after: seq<Group>, end: seq<u8>)
    requires before != [] && |before| + |after| <= 7 && end == [COLON] + Join(after, [NUL])
    ensures |Join(before, [COLON] + end)| >= |end|
    ensures MAX_STR_LEN + 1 - (|Join(before, [COLON] + end)| - |end|) > |Join(after, [NUL])|
  {
    JoinLength(before, [COLON] + end);
    JoinLength(after, [NUL]);
  }

  lemma ConvertDoubleLater(before: seq<Group>, after: seq<Group>)
    requires before != [] && |before| + |after| <= 7
    ensures Convert(None, Render(Compressed(before, after)), MAX_STR_LEN + 1, Count(after), 0, 0, ZERO_ADDR)
         == Parsed(true, Denotes(Compressed(before, after)))
  {
    hide Convert, Value, Values, SetWords, Join, Zeros;
    var end := [COLON] + Join(after, [NUL]);
    JoinRoom(before, after, end);
    var pos, a := 2 * |before|, SetWords(ZERO_ADDR, 0, before);
    ConvertJoin(None, before, COLON, end, MAX_STR_LEN + 1, Count(after), 0, ZERO_ADDR);
    WordsThenZeros(before);
    hide Count;
    ConvertAfterDouble(after, MAX_STR_LEN + 1 - (|Join(before, [COLON] + end)| - |end|), pos, a);
  }

  lemma NoValues()
    ensures Values([]) == []
  {
  }

  lemma ParsesCompressed(before: seq<Group>, after: seq<Group>)
    requires |before| + |after| <= 7
    ensures Parse(Render(Compressed(before, after))) == Parsed(true, Denotes(Compressed(before, after)))
  {
    hide Convert, Scan, Denotes;
    JoinLength(before, [COLON] + ([COLON] + Join(after, [NUL])));
    ScanCompressed(before, after);
    ScanFromStart(Render(Compressed(before, after)));
    if before == [] { ConvertDoubleFirst(after); } else { ConvertDoubleLater(before, after); }
  }

  // fromString() accepts every address text of RFC 4291 section 2.2, forms 1 and 2, and yields the
  // address it denotes.
  lemma ParsesWhatItDenotes(t: Text)
    requires t.Valid()
    ensures Parse(Render(t)) == Parsed(true, Denotes(t))
  {
    match t
    case Full(groups) => ParsesFull(groups);
    case Compressed(before, after) => ParsesCompressed(before, after);
  }

  // ----- what is accepted

  // How far the address has been written before character i: this depends on the colons alone.
  function PosAt(s: seq<u8>, i: nat, count: u8): nat
    requires i <= |s|
  {
    if i == 0 then 0
    else if s[i - 1] != COLON then PosAt(s, i - 1, count)
    else if count > 0 && i >= 2 && s[i - 2] == COLON then count
    else PosAt(s, i - 1, count) + 2
  }

  // Character i is looked at in step 2: the string has not ended before it, nor has the address.
  ghost predicate Reached(s: seq<u8>, i: nat, count: u8) {
    && i < |s| && i <= MAX_STR_LEN
    && (forall j :: 0 <= j < i ==> s[j] != NUL)
    && (forall j :: 0 <= j <= i ==> PosAt(s, j, count) < 16)
  }

  predicate Passes(c: u8) { c == COLON || c == NUL || AsciiToHex(c) != -1 }

  lemma {:induction false} PosIsEven(s: seq<u8>, i: nat, count: u8)
    requires i <= |s| && count % 2 == 0
    ensures PosAt(s, i, count) % 2 == 0
  {
    if i > 0 { PosIsEven(s, i - 1, count); }
  }

  lemma PosTurn(s: seq<u8>, i: nat, count: u8)
    requires i < |s|
    ensures PosAt(s, i + 1, count)
         == if s[i] != COLON then PosAt(s, i, count)
            else if count > 0 && Before(s, i) == Some(COLON) then count else PosAt(s, i, count) + 2
  {
  }

  ghost predicate AllPass(s: seq<u8>, i: nat, count: u8) {
    forall k: nat :: i <= k && Reached(s, k, count) ==> Passes(s[k])
  }

  lemma AllPassTurn(s: seq<u8>, i: nat, count: u8)
    requires i <= |s| && forall j :: 0 <= j < i ==> s[j] != NUL && PosAt(s, j, count) < 16
    ensures if i == |s| || i > MAX_STR_LEN || PosAt(s, i, count) >= 16 then AllPass(s, i, count)
            else AllPass(s, i, count) <==> Passes(s[i]) && (s[i] == NUL || AllPass(s, i + 1, count))
  {
    hide PosAt, Passes;
    if i < |s| && i <= MAX_STR_LEN && PosAt(s, i, count) < 16 {
      assert Reached(s, i, count);
    }
  }

  lemma {:induction false} PassesFrom(s: seq<u8>, i: nat, count: u8, acc: u16, a: Addr)
    requires count <= 14 && count % 2 == 0 && i <= |s| && i <= MAX_STR_LEN + 1 && PosAt(s, i, count) % 2 == 0
    requires forall j :: 0 <= j < i ==> s[j] != NUL && PosAt(s, j, count) < 16
    ensures Convert(Before(s, i), s[i..], MAX_STR_LEN + 1 - i, count, PosAt(s, i, count), acc, a).ok
            <==> AllPass(s, i, count)
    decreases MAX_STR_LEN + 1 - i
  {
    hide AsciiToHex, Shift, SetWord, Convert, AllPass, Reached, PosAt;
    var pos, n := PosAt(s, i, count), MAX_STR_LEN + 1 - i;
    AllPassTurn(s, i, count);
    if i == |s| {
      NothingLeft(Before(s, i), n, count, pos, acc, a);
      assert s[i..] == [];
    } else if n == 0 || pos >= 16 {
      ConvertEnd(Before(s, i), s[i..], n, count, pos, acc, a);
    } else {
      ConvertTurn(Before(s, i), s[i..], n, count, pos, acc, a);
      assert s[i..][0] == s[i] && s[i..][1..] == s[i + 1..];
      if s[i] != NUL && Passes(s[i]) {
        PosIsEven(s, i + 1, count);
        PosTurn(s, i, count);
        if s[i] == COLON {
          PassesFrom(s, i + 1, count, 0, SetWord(a, pos, acc));
        } else {
          PassesFrom(s, i + 1, count, Shift(acc, AsciiToHex(s[i])), a);
        }
      }
    }
  }

  lemma NothingLeft(prev: Option<u8>, n: nat, count: u8, pos: nat, acc: u16, a: Addr)
    requires count <= 14 && count % 2 == 0 && pos % 2 == 0
    ensures Convert(prev, [], n, count, pos, acc, a).ok
  {
  }

  // fromString() accepts a string if and only if every character that it gets to, before the address
  // or the string is full, is a digit or a colon. So it takes any number of groups, of any length,
  // and any number of "::".
  lemma AcceptsExactly(s: seq<u8>)
    requires s != []
    ensures Parse(s).ok <==>
              forall k: nat :: Reached(s, k, Scan(s[0], s[1..], MAX_STR_LEN, 0)) ==> Passes(s[k])
    ensures (forall k :: 0 <= k < |s| ==> Passes(s[k])) ==> Parse(s).ok
  {
    hide Convert, Scan;
    ScanIsEven(s[0], s[1..], MAX_STR_LEN, 0);
    PassesFrom(s, 0, Scan(s[0], s[1..], MAX_STR_LEN, 0), 0, ZERO_ADDR);
    assert s[0..] == s;
  }

  // ----- print()

  function GroupAt(a: Addr, k: nat): Group
    requires k < 8
  { [HexChar(a[2 * k] / 0x10), HexChar(a[2 * k] % 0x10), HexChar(a[2 * k + 1] / 0x10), HexChar(a[2 * k + 1] % 0x10)] }

  function Groups(a: Addr): (gs: seq<Group>)
    ensures |gs| == 8 && forall k :: 0 <= k < 8 ==> gs[k] == GroupAt(a, k)
  {
    [GroupAt(a, 0), GroupAt(a, 1), GroupAt(a, 2), GroupAt(a, 3),
     GroupAt(a, 4), GroupAt(a, 5), GroupAt(a, 6), GroupAt(a, 7)]
  }

  // Byte by byte, a colon after every second one but the last, then the NUL.
  function PrintRest(a: Addr, i: nat): seq<u8>
    requires i <= 16
    decreases 16 - i
  {
    if i == 16 then [NUL]
    else PaddedHex(a[i]) + if i % 2 == 1 && i < 15 then [COLON] + PrintRest(a, i + 1) else PrintRest(a, i + 1)
  }

  method Print(a: Addr) returns (out: seq<u8>)
    ensures out + [NUL] == PrintRest(a, 0)
  {
    out := [];
    for i := 0 to 16
      invariant out + PrintRest(a, i) == PrintRest(a, 0)
    {
      ghost var before, rest := out, PrintRest(a, i + 1);
      out := out + PaddedHex(a[i]);
      if i % 2 == 1 && i < 15 {
        assert PrintRest(a, i) == PaddedHex(a[i]) + ([COLON] + rest);
        Reassociate(before, PaddedHex(a[i]), [COLON], rest);
        out := out + [COLON];
      } else {
        assert PrintRest(a, i) == PaddedHex(a[i]) + rest;
        Reassociate(before, [], PaddedHex(a[i]), rest);
      }
    }
  }

  lemma Reassociate(a: seq<u8>, b: seq<u8>, c: seq<u8>, d: seq<u8>)
    ensures a + (b + (c + d)) == a + b + c + d && a + [] + c == a + c && [] + (c + d) == c + d
  {
  }

  lemma PrintsGroup(a: Addr, k: nat)
    requires k < 8
    ensures PrintRest(a, 2 * k) == GroupAt(a, k) + if k < 7 then [COLON] + PrintRest(a, 2 * k + 2) else [NUL]
  {
    var rest := if k < 7 then [COLON] + PrintRest(a, 2 * k + 2) else [NUL];
    assert PrintRest(a, 2 * k + 1) == PaddedHex(a[2 * k + 1]) + rest;
    assert PrintRest(a, 2 * k) == PaddedHex(a[2 * k]) + PrintRest(a, 2 * k + 1);
    hide PrintRest, HexChar;
    TwoPairs(HexChar(a[2 * k] / 0x10), HexChar(a[2 * k] % 0x10), HexChar(a[2 * k + 1] / 0x10),
        HexChar(a[2 * k + 1] % 0x10), rest);
  }

  lemma TwoPairs(p: u8, q: u8, r: u8, s: u8, rest: seq<u8>)
    ensures [p, q] + ([r, s] + rest) == [p, q, r, s] + rest
  {
  }

  lemma {:induction false} PrintsFullForm(a: Addr, k: nat)
    requires k < 8
    ensures PrintRest(a, 2 * k) == Join(Groups(a)[k..], [NUL])
    decreases 8 - k
  {
    hide PrintRest, GroupAt;
    PrintsGroup(a, k);
    var gs := Groups(a)[k..];
    assert gs[0] == GroupAt(a, k);
    if k < 7 {
      PrintsFullForm(a, k + 1);
      assert gs[1..] == Groups(a)[k + 1..];
    }
  }

  lemma ValueOfPrinted(a: Addr, k: nat)
    requires k < 8
    ensures Word16(Value(GroupAt(a, k))) == [a[2 * k], a[2 * k + 1]]
  {
    var g := GroupAt(a, k);
    var x, y: u8 := a[2 * k], a[2 * k + 1];
    assert Digit(g[0]) == x / 0x10 && Digit(g[1]) == x % 0x10 && Digit(g[2]) == y / 0x10 && Digit(g[3]) == y % 0x10;
    assert Value(g) == x * 0x100 + y;
  }

  lemma {:induction false} ValuesOfPrinted(a: Addr, k: nat)
    requires k <= 8
    ensures Values(Groups(a)[k..]) == a[2 * k..]
    decreases 8 - k
  {
    if k < 8 {
      hide Value, GroupAt;
      ValuesOfPrinted(a, k + 1);
      ValueOfPrinted(a, k);
      assert Groups(a)[k..][0] == GroupAt(a, k) && Groups(a)[k..][1..] == Groups(a)[k + 1..];
    }
  }

  // Printing and parsing again gives the address back.
  lemma PrintRoundTrip(a: Addr)
    ensures Parse(PrintRest(a, 0)) == Parsed(true, a)
  {
    hide PrintRest, Join, Values, Groups;
    PrintsFullForm(a, 0);
    ValuesOfPrinted(a, 0);
    assert Groups(a)[0..] == Groups(a) && a[0..] == a;
    ParsesFull(Groups(a));
  }
}
