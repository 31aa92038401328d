// chksum() of src/util.cpp: 16-bit one's complement addition against exact integers.

module Checksum {
  import opened Bytes

  const ONES := 0xFFFF

  // The big-endian 16-bit words of a byte string, added as integers; an odd byte is a high byte.
  function Words(s: seq<u8>): nat {
    if |s| == 0 then 0
    else if |s| == 1 then Word(s[0], 0)
    else Word(s[0], s[1]) + Words(s[2..])
  }

  // One's complement addition keeps sums modulo 65535 and writes 0 only for a total of nothing.
  function Fold(n: nat): u16 { if n <= ONES then n else Fold(n - ONES) }

  // `data` is memory, which is only read.
  method Chksum(sum: u16, data: seq<u8>, from: nat, len: nat) returns (r: u16)
    requires from + len <= |data|
    ensures r == Fold(sum + Words(data[from..from + len]))
  {
    r := sum;
    var ptr, last := from, from + len - 1;
    FoldSmall(sum);
    assert Words(data[from..from]) == 0;
    hide Words, Fold, Word, U16;
    while ptr < last
      invariant from <= ptr <= from + len && (ptr - from) % 2 == 0
      invariant r == Fold(sum + Words(data[from..ptr]))
    {
      r := AddCarry(r, Word(data[ptr], data[ptr + 1]));
      FoldExtends(sum, data, from, ptr, ptr + 2);
      ptr := ptr + 2;
    }
    if ptr == last {
      r := AddCarry(r, Word(data[ptr], 0));
      FoldExtends(sum, data, from, ptr, ptr + 1);
    }
  }

  lemma FoldExtends(sum: u16, s: seq<u8>, from: nat, mid: nat, to: nat)
    requires from <= mid < to <= |s| && to - mid <= 2 && (mid - from) % 2 == 0
    ensures Fold(sum + Words(s[from..to]))
         == Fold(Fold(sum + Words(s[from..mid])) + Word(s[mid], if to == mid + 2 then s[mid + 1] else 0))
  {
    Split(s, from, mid, to);
    WordsAppend(s[from..mid], s[mid..to]);
    FoldAdd(sum + Words(s[from..mid]), Words(s[mid..to]));
    assert s[mid..to] == if to == mid + 2 then [s[mid], s[mid + 1]] else [s[mid]];
    assert Words(s[mid..to][Min(2, to - mid)..]) == 0;
  }

  // 16-bit addition, with the carry added in again
  method AddCarry(sum: u16, t: u16) returns (r: u16)
    ensures r == Fold(sum + t)
  {
    r := U16(sum + t);
    if r < t {
      r := r + 1;
    }
    FoldSmall(r);
  }

  lemma FoldSmall(n: nat)
    requires n <= ONES
    ensures Fold(n) == n
  {
  }

  // Folding is a remainder, except that a positive total never becomes 0.
  lemma {:induction false} FoldMeans(n: nat)
    ensures Fold(n) % ONES == n % ONES && (Fold(n) == 0 <==> n == 0)
  {
    if n > ONES {
      FoldMeans(n - ONES);
      assert n % ONES == (n - ONES) % ONES;
    }
  }

  lemma FoldIsOnes(n: nat)
    ensures Fold(n) == ONES <==> n > 0 && n % ONES == 0
  {
    FoldMeans(n);
  }

  // A carry out of 16 bits that is lost always shows.
  lemma FoldCarry(n: nat)
    ensures Fold(n + 0x1_0000) != Fold(n)
  {
    FoldMeans(n);
    FoldMeans(n + 0x1_0000);
  }

  lemma {:induction false} FoldAdd(n: nat, t: nat)
    ensures Fold(Fold(n) + t) == Fold(n + t)
  {
    if n > ONES { FoldAdd(n - ONES, t); }
  }

  lemma {:induction false} WordsAppend(a: seq<u8>, b: seq<u8>)
    requires |a| % 2 == 0
    ensures Words(a + b) == Words(a) + Words(b)
  {
    if a == [] {
      assert a + b == b;
    } else {
      assert (a + b)[2..] == a[2..] + b;
      WordsAppend(a[2..], b);
    }
  }

  lemma WordsPair(a: u8, b: u8)
    ensures Words([a, b]) == Word(a, b)
  {
    assert [a, b][2..] == [];
  }

  // Summing piece by piece, the first of even length, is summing the whole.
  lemma ChksumChains(sum: u16, a: seq<u8>, b: seq<u8>)
    requires |a| % 2 == 0
    ensures Fold(Fold(sum + Words(a)) + Words(b)) == Fold(sum + Words(a + b))
  {
    WordsAppend(a, b);
    FoldAdd(sum + Words(a), Words(b));
  }

  lemma {:induction false} WordsAllZero(s: seq<u8>)
    ensures Words(s) == 0 <==> forall i :: 0 <= i < |s| ==> s[i] == 0
  {
    if |s| >= 2 {
      WordsAllZero(s[2..]);
      assert (forall i :: 0 <= i < |s[2..]| ==> s[2..][i] == 0) <==> (forall i :: 2 <= i < |s| ==> s[i] == 0) by {
        if forall i :: 0 <= i < |s[2..]| ==> s[2..][i] == 0 {
          forall i | 2 <= i < |s| ensures s[i] == 0 { assert s[i] == s[2..][i - 2]; }
        }
      }
    }
  }

  function Weight(i: nat): nat { if i % 2 == 0 then 0x100 else 1 }

  lemma {:induction false} WordsUpdate(s: seq<u8>, i: nat, v: u8)
    requires i < |s|
    ensures Words(s[i := v]) == Words(s) + (v - s[i]) * Weight(i)
  {
    if |s| >= 2 {
      if i < 2 {
        assert s[i := v][2..] == s[2..];
      } else {
        assert s[i := v][2..] == s[2..][i - 2 := v];
        WordsUpdate(s[2..], i - 2, v);
      }
    }
  }

  // What a byte can change is less than 65535, so it always shows.
  lemma FoldTellsApart(m: nat, n: nat)
    requires m != n && -ONES < m - n < ONES
    ensures Fold(m) != Fold(n)
  {
    FoldMeans(m);
    FoldMeans(n);
  }
}
