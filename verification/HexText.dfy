// asciiToHex() and printPaddedHex() of src/util.cpp, from which both kinds of address are read and
// printed.

module HexText {
  import opened Bytes

  const COLON: u8 := 58
  const NUL: u8 := 0

  // asciiToHex(): setting bit 5 makes letters lower-case.
  function AsciiToHex(c: u8): (v: int)
    ensures -1 <= v < 16
  {
    var d := if c / 0x20 % 2 == 0 then c + 0x20 else c;
    if 48 <= d <= 57 then d - 48 else if 97 <= d <= 102 then d - 87 else -1
  }

  predicate IsHex(c: u8) { 48 <= c <= 57 || 65 <= c <= 70 || 97 <= c <= 102 }

  // What bytes are accepted as digits: asciiToHex() sets bit 5 before it looks, which turns the
  // control characters 0x10 to 0x19 into digits as well.
  lemma DigitsAccepted(c: u8)
    ensures AsciiToHex(c) != -1 <==> IsHex(c) || 0x10 <= c <= 0x19
  {
  }

  // printPaddedHex()
  function HexChar(v: int): u8
    requires 0 <= v < 16
  { if v > 9 then v + 39 + 48 else v + 48 }

  function PaddedHex(b: u8): seq<u8> { [HexChar(b / 0x10), HexChar(b % 0x10)] }

  // Digits are printed in lower case.
  lemma HexCharIs(v: int)
    requires 0 <= v < 16
    ensures HexChar(v) == [48, 49, 50, 51, 52, 53, 54, 55, 56, 57, 97, 98, 99, 100, 101, 102][v]
  {
  }

  lemma HexReads(v: int)
    requires 0 <= v < 16
    ensures AsciiToHex(HexChar(v)) == v
  {
  }
}
