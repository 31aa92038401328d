// Machine integers as the source uses them, and byte strings.

module Bytes {

  type u8 = x: int | 0 <= x < 0x100
  type u16 = x: int | 0 <= x < 0x1_0000
  type u32 = x: int | 0 <= x < 0x1_0000_0000

  datatype Option<+T> = None | Some(value: T)

  // Assigning an int to an unsigned variable keeps it modulo the variable's width. One carry or
  // borrow is all that ever happens here, so no division is needed.
  function U8(x: int): (r: u8)
    requires -0x100 <= x < 0x200
  { if x < 0 then x + 0x100 else if x < 0x100 then x else x - 0x100 }

  function U16(x: int): (r: u16)
    requires -0x1_0000 <= x < 0x2_0000
  { if x < 0 then x + 0x1_0000 else if x < 0x1_0000 then x else x - 0x1_0000 }

  function U32(x: int): (r: u32)
    requires -0x1_0000_0000 <= x < 0x2_0000_0000
  { if x < 0 then x + 0x1_0000_0000 else if x < 0x1_0000_0000 then x else x - 0x1_0000_0000 }

  // Assigning an int to a `signed char`.
  function S8(x: int): (r: int)
    requires -0x180 <= x < 0x180
    ensures -0x80 <= r < 0x80
  { if x < -0x80 then x + 0x100 else if x < 0x80 then x else x - 0x100 }

  // Assigning an int to an `int16_t`.
  function S16(x: int): (r: int)
    requires -0x8000 <= x < 0x1_0000
    ensures -0x8000 <= r < 0x8000
  { if x < 0x8000 then x else x - 0x1_0000 }

  // `htons` and `ntohs` on a little-endian machine.
  function Swap16(w: u16): u16 { w % 0x100 * 0x100 + w / 0x100 }

  function Word(high: u8, low: u8): u16 { high * 0x100 + low }

  // A 16-bit field in network byte order.
  function Word16(w: u16): seq<u8> { [w / 0x100, w % 0x100] }

  function Zeros(n: nat): (r: seq<u8>)
    ensures |r| == n && forall i :: 0 <= i < n ==> r[i] == 0
  { if n == 0 then [] else [0] + Zeros(n - 1) }

  // A buffer with x written at an offset.
  function Overwrite(b: seq<u8>, at: nat, x: seq<u8>): (r: seq<u8>)
    requires at + |x| <= |b|
    ensures |r| == |b|
  { b[..at] + x + b[at + |x|..] }

  // memcpy into a buffer, or assigning through a pointer
  method CopyInto(buffer: array<u8>, at: nat, x: seq<u8>)
    requires at + |x| <= buffer.Length
    modifies buffer
    ensures buffer[..] == Overwrite(old(buffer[..]), at, x)
  {
    forall i | 0 <= i < |x| { buffer[at + i] := x[i]; }
  }

  function Min(a: int, b: int): int { if a < b then a else b }

  // Rewriting the first bytes of a string leaves the others where they were.
  lemma BehindPrefix(head: seq<u8>, s: seq<u8>, from: nat, to: nat)
    requires |head| <= from <= to <= |s|
    ensures (head + s[|head|..])[from..to] == s[from..to]
  {
    forall i | from <= i < to ensures (head + s[|head|..])[i] == s[i] {}
  }

  lemma Split(s: seq<u8>, from: nat, mid: nat, to: nat)
    requires from <= mid <= to <= |s|
    ensures s[from..to] == s[from..mid] + s[mid..to]
  {
  }

  lemma SliceOfSlice(s: seq<u8>, from: nat, to: nat, i: nat, j: nat)
    requires from <= to <= |s| && i <= j <= to - from
    ensures s[from..to][i..j] == s[from + i..from + j]
  {
    forall k | 0 <= k < j - i ensures s[from..to][i..j][k] == s[from + i..from + j][k] {}
  }
}
