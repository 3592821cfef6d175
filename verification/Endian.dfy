/** Byte order: the swaps of endianness.h and machine words in memory. */
module Endian {
  type Octet = bv8

  /** `do_change_endian` for 16 bits. */
  function ChangeEndian16(data: bv16): bv16
  {
    ((data & 0xff00) >> 8) | ((data & 0x00ff) << 8)
  }

  /** `do_change_endian` for 32 bits. */
  function ChangeEndian32(data: bv32): bv32
  {
    ((data & 0xff000000) >> 24) | ((data & 0x00ff0000) >> 8) | ((data & 0x0000ff00) << 8) | ((data & 0x000000ff) << 24)
  }

  /** `do_change_endian` for 64 bits: both halves changed, and exchanged. */
  function ChangeEndian64(data: bv64): bv64
  {
    ((ChangeEndian32((data & 0xffffffff) as bv32) as bv64) << 32) | (ChangeEndian32((data >> 32) as bv32) as bv64)
  }

  /** The bytes of a word, lowest first. */
  function Bytes16(x: bv16): seq<Octet>
  {
    [(x & 0xff) as bv8, (x >> 8) as bv8]
  }

  function Bytes32(x: bv32): seq<Octet>
  {
    [(x & 0xff) as bv8, ((x >> 8) & 0xff) as bv8, ((x >> 16) & 0xff) as bv8, (x >> 24) as bv8]
  }

  function Bytes64(x: bv64): seq<Octet>
  {
    Bytes32((x & 0xffffffff) as bv32) + Bytes32((x >> 32) as bv32)
  }

  function Word16(b: seq<Octet>): bv16
  {
    if |b| == 2 then (b[0] as bv16) | ((b[1] as bv16) << 8) else 0
  }

  function Word32(b: seq<Octet>): bv32
  {
    if |b| == 4 then (b[0] as bv32) | ((b[1] as bv32) << 8) | ((b[2] as bv32) << 16) | ((b[3] as bv32) << 24) else 0
  }

  function Word64(b: seq<Octet>): bv64
  {
    if |b| == 8 then (Word32(b[..4]) as bv64) | ((Word32(b[4..]) as bv64) << 32) else 0
  }

  /** The first byte is the lowest: it is the remainder modulo 256, and the others, one place down, are the quotient. */
  lemma LowestFirst16(b: seq<Octet>)
    requires |b| == 2
    ensures Word16(b) % 256 == b[0] as bv16 && Word16(b) / 256 == b[1] as bv16
  {
  }

  lemma LowestFirst32(b: seq<Octet>)
    requires |b| == 4
    ensures Word32(b) % 256 == b[0] as bv32 && Word32(b) / 256 == Word32([b[1], b[2], b[3], 0])
  {
  }

  lemma LowestFirst64(b: seq<Octet>)
    requires |b| == 8
    ensures Word64(b) % 256 == b[0] as bv64 && Word64(b) / 256 == Word64([b[1], b[2], b[3], b[4], b[5], b[6], b[7], 0])
  {
    var c := [b[1], b[2], b[3], b[4], b[5], b[6], b[7], 0];
    assert b[..4] == [b[0], b[1], b[2], b[3]] && b[4..] == [b[4], b[5], b[6], b[7]];
    assert c[..4] == [b[1], b[2], b[3], b[4]] && c[4..] == [b[5], b[6], b[7], 0];
  }

  function Reverse<T>(s: seq<T>): (r: seq<T>)
    ensures |r| == |s| && forall i :: 0 <= i < |s| ==> r[i] == s[|s| - 1 - i]
  {
    seq(|s|, i requires 0 <= i < |s| => s[|s| - 1 - i])
  }

  lemma ReverseTwice<T>(s: seq<T>)
    ensures Reverse(Reverse(s)) == s
  {
  }

  // -------------------------------------------------------------------------
  // Changing endianness is reversing the bytes
  // -------------------------------------------------------------------------

  lemma Reversal16(x: bv16)
    ensures Bytes16(ChangeEndian16(x)) == Reverse(Bytes16(x))
  {
    var r, b := Bytes16(ChangeEndian16(x)), Bytes16(x);
    assert r[0] == b[1] && r[1] == b[0];
  }

  lemma Reversal32(x: bv32)
    ensures Bytes32(ChangeEndian32(x)) == Reverse(Bytes32(x))
  {
    var r, b := Bytes32(ChangeEndian32(x)), Bytes32(x);
    assert r[0] == b[3];
    assert r[1] == b[2];
    assert r[2] == b[1];
    assert r[3] == b[0];
  }

  lemma Halves(low: bv32, high: bv32)
    ensures var x := ((high as bv64) << 32) | (low as bv64);
      (x & 0xffffffff) as bv32 == low && (x >> 32) as bv32 == high
  {
  }

  lemma Reversal64(x: bv64)
    ensures Bytes64(ChangeEndian64(x)) == Reverse(Bytes64(x))
  {
    var low, high := (x & 0xffffffff) as bv32, (x >> 32) as bv32;
    Halves(ChangeEndian32(high), ChangeEndian32(low));
    Reversal32(low);
    Reversal32(high);
    var bl, bh := Bytes32(low), Bytes32(high);
    assert Reverse(bl + bh) == Reverse(bh) + Reverse(bl);
  }

  lemma WordOfBytes16(x: bv16)
    ensures Word16(Bytes16(x)) == x
  {
  }

  lemma WordOfBytes32(x: bv32)
    ensures Word32(Bytes32(x)) == x
  {
  }

  lemma JoinHalves(x: bv64)
    ensures ((x & 0xffffffff) as bv32 as bv64) | (((x >> 32) as bv32 as bv64) << 32) == x
  {
  }

  lemma Word64Joins(low: bv32, high: bv32)
    ensures Word64(Bytes32(low) + Bytes32(high)) == (low as bv64) | ((high as bv64) << 32)
  {
    var b := Bytes32(low) + Bytes32(high);
    assert b[..4] == Bytes32(low) && b[4..] == Bytes32(high);
    WordOfBytes32(low);
    WordOfBytes32(high);
  }

  lemma WordOfBytes64(x: bv64)
    ensures Word64(Bytes64(x)) == x
  {
    Word64Joins((x & 0xffffffff) as bv32, (x >> 32) as bv32);
    JoinHalves(x);
  }

  lemma BytesOfWord16(b: seq<Octet>)
    requires |b| == 2
    ensures Bytes16(Word16(b)) == b
  {
  }

  lemma BytesOfWord32(b: seq<Octet>)
    requires |b| == 4
    ensures Bytes32(Word32(b)) == b
  {
    var r := Bytes32(Word32(b));
    assert r[0] == b[0];
    assert r[1] == b[1];
    assert r[2] == b[2];
    assert r[3] == b[3];
  }

  lemma BytesOfWord64(b: seq<Octet>)
    requires |b| == 8
    ensures Bytes64(Word64(b)) == b
  {
    var low, high := Word32(b[..4]), Word32(b[4..]);
    Halves(low, high);
    BytesOfWord32(b[..4]);
    BytesOfWord32(b[4..]);
    assert (low as bv64) | ((high as bv64) << 32) == ((high as bv64) << 32) | (low as bv64);
    assert b == b[..4] + b[4..];
  }

  /** So changing it twice changes nothing. */
  lemma ChangeEndianTwice(a: bv16, b: bv32, c: bv64)
    ensures ChangeEndian16(ChangeEndian16(a)) == a
    ensures ChangeEndian32(ChangeEndian32(b)) == b
    ensures ChangeEndian64(ChangeEndian64(c)) == c
  {
    Halves(ChangeEndian32((c >> 32) as bv32), ChangeEndian32((c & 0xffffffff) as bv32));
    ChangeEndianTwice32((c >> 32) as bv32);
    ChangeEndianTwice32((c & 0xffffffff) as bv32);
    JoinHalves(c);
  }

  lemma ChangeEndianTwice32(b: bv32)
    ensures ChangeEndian32(ChangeEndian32(b)) == b
  {
  }
}
