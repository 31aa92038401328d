// MACAddress::fromString() and print() (src/MACAddress.cpp). Strings are C strings.

module MacText {
  import opened Bytes
  import opened Frame
  import opened HexText

  const DASH: u8 := 45
  const LENGTH := 17

  // The character at position i passes: every third one separates two bytes.
  predicate Passes(s: seq<u8>, i: nat)
    requires i < |s|
  { if i % 3 == 2 then s[i] == COLON || s[i] == DASH else AsciiToHex(s[i]) != -1 }

  // Byte k as the text has it.
  function ByteAt(s: seq<u8>, k: nat): u8
    requires 3 * k + 1 < |s| && Passes(s, 3 * k) && Passes(s, 3 * k + 1)
  { AsciiToHex(s[3 * k]) * 16 + AsciiToHex(s[3 * k + 1]) }

  // Bytes are separated by colons or dashes, in any mixture.
  lemma PassesExactly(s: seq<u8>, i: nat)
    requires i < |s|
    ensures Passes(s, i) <==>
              if i % 3 == 2 then s[i] == 58 || s[i] == 45 else IsHex(s[i]) || 0x10 <= s[i] <= 0x19
  {
    DigitsAccepted(s[i]);
  }

  class MACAddress {
    const address: array<u8>

    constructor ()
      ensures address.Length == 6 && fresh(address)
    {
      address := new u8[6];
    }

    // Reads up to the first character that does not pass, and writes what it has read.
    method FromString(s: seq<u8>) returns (ok: bool, ghost read: nat)
      requires address.Length == 6 && s != [] && s[|s| - 1] == NUL
      modifies address
      ensures read <= LENGTH && read < |s| && (forall i :: 0 <= i < read ==> Passes(s, i))
      ensures if ok then read == LENGTH else read < LENGTH && !Passes(s, read)
      ensures forall k :: 0 <= k < 6 ==>
                address[k] == if 3 * k + 1 < read then ByteAt(s, k)
                              else if 3 * k < read then AsciiToHex(s[3 * k]) * 16
                              else old(address[k])
    {
      hide AsciiToHex;
      EndFails(s);
      var pos := 0;
      read := 0;
      for strpos := 0 to LENGTH
        invariant read == strpos && pos == strpos / 3
        invariant strpos < |s| && forall i :: 0 <= i < strpos ==> Passes(s, i)
        invariant forall k :: 0 <= k < 6 ==>
                    address[k] == if 3 * k + 1 < strpos then ByteAt(s, k)
                                  else if 3 * k < strpos then AsciiToHex(s[3 * k]) * 16
                                  else old(address[k])
      {
        var mod := strpos % 3;
        if mod == 2 {
          if s[strpos] == COLON || s[strpos] == DASH {
            pos := pos + 1;
          } else {
            return false, strpos;
          }
        } else {
          var val := AsciiToHex(s[strpos]);
          if val == -1 {
            return false, strpos;
          } else if mod == 0 {
            address[pos] := val * 16;
          } else {
            address[pos] := address[pos] + val;
          }
        }
        read := strpos + 1;
      }
      ok := true;
    }

    method Print() returns (out: seq<u8>)
      requires address.Length == 6
      ensures Shows(out, address[..])
    {
      hide HexChar;
      out := [];
      for i := 0 to 6
        invariant |out| == if i == 6 then LENGTH else 3 * i
        invariant forall k :: 0 <= k < i ==>
                    out[3 * k..3 * k + 2] == PaddedHex(address[k]) && (k < 5 ==> out[3 * k + 2] == COLON)
      {
        ghost var before := out;
        out := out + PaddedHex(address[i]);
        if i < 5 {
          out := out + [COLON];
        }
        assert before <= out && out[3 * i..3 * i + 2] == PaddedHex(address[i]);
        forall k | 0 <= k < i ensures out[3 * k..3 * k + 2] == PaddedHex(address[k])
        { assert out[3 * k..3 * k + 2] == before[3 * k..3 * k + 2]; }
      }
    }
  }

  lemma EndFails(s: seq<u8>)
    requires s != [] && s[|s| - 1] == NUL
    ensures !Passes(s, |s| - 1)
  {
  }

  ghost predicate Shows(text: seq<u8>, a: Mac) {
    |text| == LENGTH &&
    forall k :: 0 <= k < 6 ==> text[3 * k..3 * k + 2] == PaddedHex(a[k]) && (k < 5 ==> text[3 * k + 2] == COLON)
  }

  // What print() writes, fromString() accepts, and reads as the same address.
  lemma ShownIsRead(text: seq<u8>, a: Mac)
    requires Shows(text, a)
    ensures var s := text + [NUL];
            && (forall i :: 0 <= i < LENGTH ==> Passes(s, i))
            && (forall k :: 0 <= k < 6 ==> ByteAt(s, k) == a[k])
  {
    var s := text + [NUL];
    forall k | 0 <= k < 6
      ensures Passes(s, 3 * k) && Passes(s, 3 * k + 1) && ByteAt(s, k) == a[k] && (k < 5 ==> Passes(s, 3 * k + 2))
    {
      HexReads(a[k] / 0x10);
      HexReads(a[k] % 0x10);
      assert s[3 * k] == text[3 * k..3 * k + 2][0] && s[3 * k + 1] == text[3 * k..3 * k + 2][1];
    }
    forall i | 0 <= i < LENGTH ensures Passes(s, i) {
      var k := i / 3;
      assert 0 <= k < 6 && (i == 3 * k || i == 3 * k + 1 || (i == 3 * k + 2 && k < 5));
    }
  }
}
