/** Bits of bytes, and the 8x8 bit matrix packed into a 64-bit word. */
module Bits {
  predicate Bit(b: bv8, k: nat)
    requires k < 8
  {
    if k == 0 then b & 0x01 != 0
    else if k == 1 then b & 0x02 != 0
    else if k == 2 then b & 0x04 != 0
    else if k == 3 then b & 0x08 != 0
    else if k == 4 then b & 0x10 != 0
    else if k == 5 then b & 0x20 != 0
    else if k == 6 then b & 0x40 != 0
    else b & 0x80 != 0
  }

  /** A byte is determined by its bits. */
  lemma SameBits(a: bv8, b: bv8)
    requires forall k :: 0 <= k < 8 ==> Bit(a, k) == Bit(b, k)
    ensures a == b
  {
    assert Bit(a, 0) == Bit(b, 0) && Bit(a, 1) == Bit(b, 1) && Bit(a, 2) == Bit(b, 2) && Bit(a, 3) == Bit(b, 3);
    assert Bit(a, 4) == Bit(b, 4) && Bit(a, 5) == Bit(b, 5) && Bit(a, 6) == Bit(b, 6) && Bit(a, 7) == Bit(b, 7);
  }

  /** Byte `i` of a word, counted from the least significant one; storing a word
      on a little endian machine puts it at offset `i`. */
  function ByteOf(x: bv64, i: nat): bv8
    requires i < 8
  {
    if i == 0 then (x & 0xFF) as bv8
    else if i == 1 then ((x >> 8) & 0xFF) as bv8
    else if i == 2 then ((x >> 16) & 0xFF) as bv8
    else if i == 3 then ((x >> 24) & 0xFF) as bv8
    else if i == 4 then ((x >> 32) & 0xFF) as bv8
    else if i == 5 then ((x >> 40) & 0xFF) as bv8
    else if i == 6 then ((x >> 48) & 0xFF) as bv8
    else ((x >> 56) & 0xFF) as bv8
  }

  function WordBytes(x: bv64): (s: seq<bv8>)
    ensures |s| == 8 && forall i :: 0 <= i < 8 ==> s[i] == ByteOf(x, i)
  {
    [ByteOf(x, 0), ByteOf(x, 1), ByteOf(x, 2), ByteOf(x, 3), ByteOf(x, 4), ByteOf(x, 5), ByteOf(x, 6), ByteOf(x, 7)]
  }

  /** Reading eight bytes as a little endian word. */
  function Load(s: seq<bv8>): bv64
    requires |s| == 8
  {
    (s[0] as bv64) | ((s[1] as bv64) << 8) | ((s[2] as bv64) << 16) | ((s[3] as bv64) << 24)
    | ((s[4] as bv64) << 32) | ((s[5] as bv64) << 40) | ((s[6] as bv64) << 48) | ((s[7] as bv64) << 56)
  }

  lemma LoadByte0(s: seq<bv8>)
    requires |s| == 8
    ensures ByteOf(Load(s), 0) == s[0]
  {
  }

  lemma LoadByte1(s: seq<bv8>)
    requires |s| == 8
    ensures ByteOf(Load(s), 1) == s[1]
  {
  }

  lemma LoadByte2(s: seq<bv8>)
    requires |s| == 8
    ensures ByteOf(Load(s), 2) == s[2]
  {
  }

  lemma LoadByte3(s: seq<bv8>)
    requires |s| == 8
    ensures ByteOf(Load(s), 3) == s[3]
  {
  }

  lemma LoadByte4(s: seq<bv8>)
    requires |s| == 8
    ensures ByteOf(Load(s), 4) == s[4]
  {
  }

  lemma LoadByte5(s: seq<bv8>)
    requires |s| == 8
    ensures ByteOf(Load(s), 5) == s[5]
  {
  }

  lemma LoadByte6(s: seq<bv8>)
    requires |s| == 8
    ensures ByteOf(Load(s), 6) == s[6]
  {
  }

  lemma LoadByte7(s: seq<bv8>)
    requires |s| == 8
    ensures ByteOf(Load(s), 7) == s[7]
  {
  }

  lemma LoadBytes(s: seq<bv8>)
    requires |s| == 8
    ensures forall i :: 0 <= i < 8 ==> ByteOf(Load(s), i) == s[i]
  {
    LoadByte0(s);
    LoadByte1(s);
    LoadByte2(s);
    LoadByte3(s);
    LoadByte4(s);
    LoadByte5(s);
    LoadByte6(s);
    LoadByte7(s);
  }

  /** TRANS_BIT_8X8, the three swaps of growing blocks. */
  function Trans8x8(x: bv64): bv64 {
    var x1 := Swap(x, 0x00AA00AA00AA00AA, 7);
    var x2 := Swap(x1, 0x0000CCCC0000CCCC, 14);
    Swap(x2, 0x00000000F0F0F0F0, 28)
  }

  function Swap(x: bv64, mask: bv64, shift: bv7): bv64
    requires shift <= 64
  {
    var t := (x ^ (x >> shift)) & mask;
    x ^ t ^ (t << shift)
  }

  // One lemma for each row, so that every query stays small.

  lemma TransRow0(x: bv64, j: nat)
    requires j < 8
    ensures Bit(ByteOf(Trans8x8(x), 0), j) == Bit(ByteOf(x, j), 0)
  {
    if j == 0 { assert Bit(ByteOf(Trans8x8(x), 0), 0) == Bit(ByteOf(x, 0), 0); }
    else if j == 1 { assert Bit(ByteOf(Trans8x8(x), 0), 1) == Bit(ByteOf(x, 1), 0); }
    else if j == 2 { assert Bit(ByteOf(Trans8x8(x), 0), 2) == Bit(ByteOf(x, 2), 0); }
    else if j == 3 { assert Bit(ByteOf(Trans8x8(x), 0), 3) == Bit(ByteOf(x, 3), 0); }
    else if j == 4 { assert Bit(ByteOf(Trans8x8(x), 0), 4) == Bit(ByteOf(x, 4), 0); }
    else if j == 5 { assert Bit(ByteOf(Trans8x8(x), 0), 5) == Bit(ByteOf(x, 5), 0); }
    else if j == 6 { assert Bit(ByteOf(Trans8x8(x), 0), 6) == Bit(ByteOf(x, 6), 0); }
    else if j == 7 { assert Bit(ByteOf(Trans8x8(x), 0), 7) == Bit(ByteOf(x, 7), 0); }
  }

  lemma TransRow1(x: bv64, j: nat)
    requires j < 8
    ensures Bit(ByteOf(Trans8x8(x), 1), j) == Bit(ByteOf(x, j), 1)
  {
    if j == 0 { assert Bit(ByteOf(Trans8x8(x), 1), 0) == Bit(ByteOf(x, 0), 1); }
    else if j == 1 { assert Bit(ByteOf(Trans8x8(x), 1), 1) == Bit(ByteOf(x, 1), 1); }
    else if j == 2 { assert Bit(ByteOf(Trans8x8(x), 1), 2) == Bit(ByteOf(x, 2), 1); }
    else if j == 3 { assert Bit(ByteOf(Trans8x8(x), 1), 3) == Bit(ByteOf(x, 3), 1); }
    else if j == 4 { assert Bit(ByteOf(Trans8x8(x), 1), 4) == Bit(ByteOf(x, 4), 1); }
    else if j == 5 { assert Bit(ByteOf(Trans8x8(x), 1), 5) == Bit(ByteOf(x, 5), 1); }
    else if j == 6 { assert Bit(ByteOf(Trans8x8(x), 1), 6) == Bit(ByteOf(x, 6), 1); }
    else if j == 7 { assert Bit(ByteOf(Trans8x8(x), 1), 7) == Bit(ByteOf(x, 7), 1); }
  }

  lemma TransRow2(x: bv64, j: nat)
    requires j < 8
    ensures Bit(ByteOf(Trans8x8(x), 2), j) == Bit(ByteOf(x, j), 2)
  {
    if j == 0 { assert Bit(ByteOf(Trans8x8(x), 2), 0) == Bit(ByteOf(x, 0), 2); }
    else if j == 1 { assert Bit(ByteOf(Trans8x8(x), 2), 1) == Bit(ByteOf(x, 1), 2); }
    else if j == 2 { assert Bit(ByteOf(Trans8x8(x), 2), 2) == Bit(ByteOf(x, 2), 2); }
    else if j == 3 { assert Bit(ByteOf(Trans8x8(x), 2), 3) == Bit(ByteOf(x, 3), 2); }
    else if j == 4 { assert Bit(ByteOf(Trans8x8(x), 2), 4) == Bit(ByteOf(x, 4), 2); }
    else if j == 5 { assert Bit(ByteOf(Trans8x8(x), 2), 5) == Bit(ByteOf(x, 5), 2); }
    else if j == 6 { assert Bit(ByteOf(Trans8x8(x), 2), 6) == Bit(ByteOf(x, 6), 2); }
    else if j == 7 { assert Bit(ByteOf(Trans8x8(x), 2), 7) == Bit(ByteOf(x, 7), 2); }
  }

  lemma TransRow3(x: bv64, j: nat)
    requires j < 8
    ensures Bit(ByteOf(Trans8x8(x), 3), j) == Bit(ByteOf(x, j), 3)
  {
    if j == 0 { assert Bit(ByteOf(Trans8x8(x), 3), 0) == Bit(ByteOf(x, 0), 3); }
    else if j == 1 { assert Bit(ByteOf(Trans8x8(x), 3), 1) == Bit(ByteOf(x, 1), 3); }
    else if j == 2 { assert Bit(ByteOf(Trans8x8(x), 3), 2) == Bit(ByteOf(x, 2), 3); }
    else if j == 3 { assert Bit(ByteOf(Trans8x8(x), 3), 3) == Bit(ByteOf(x, 3), 3); }
    else if j == 4 { assert Bit(ByteOf(Trans8x8(x), 3), 4) == Bit(ByteOf(x, 4), 3); }
    else if j == 5 { assert Bit(ByteOf(Trans8x8(x), 3), 5) == Bit(ByteOf(x, 5), 3); }
    else if j == 6 { assert Bit(ByteOf(Trans8x8(x), 3), 6) == Bit(ByteOf(x, 6), 3); }
    else if j == 7 { assert Bit(ByteOf(Trans8x8(x), 3), 7) == Bit(ByteOf(x, 7), 3); }
  }

  lemma TransRow4(x: bv64, j: nat)
    requires j < 8
    ensures Bit(ByteOf(Trans8x8(x), 4), j) == Bit(ByteOf(x, j), 4)
  {
    if j == 0 { assert Bit(ByteOf(Trans8x8(x), 4), 0) == Bit(ByteOf(x, 0), 4); }
    else if j == 1 { assert Bit(ByteOf(Trans8x8(x), 4), 1) == Bit(ByteOf(x, 1), 4); }
    else if j == 2 { assert Bit(ByteOf(Trans8x8(x), 4), 2) == Bit(ByteOf(x, 2), 4); }
    else if j == 3 { assert Bit(ByteOf(Trans8x8(x), 4), 3) == Bit(ByteOf(x, 3), 4); }
    else if j == 4 { assert Bit(ByteOf(Trans8x8(x), 4), 4) == Bit(ByteOf(x, 4), 4); }
    else if j == 5 { assert Bit(ByteOf(Trans8x8(x), 4), 5) == Bit(ByteOf(x, 5), 4); }
    else if j == 6 { assert Bit(ByteOf(Trans8x8(x), 4), 6) == Bit(ByteOf(x, 6), 4); }
    else if j == 7 { assert Bit(ByteOf(Trans8x8(x), 4), 7) == Bit(ByteOf(x, 7), 4); }
  }

  lemma TransRow5(x: bv64, j: nat)
    requires j < 8
    ensures Bit(ByteOf(Trans8x8(x), 5), j) == Bit(ByteOf(x, j), 5)
  {
    if j == 0 { assert Bit(ByteOf(Trans8x8(x), 5), 0) == Bit(ByteOf(x, 0), 5); }
    else if j == 1 { assert Bit(ByteOf(Trans8x8(x), 5), 1) == Bit(ByteOf(x, 1), 5); }
    else if j == 2 { assert Bit(ByteOf(Trans8x8(x), 5), 2) == Bit(ByteOf(x, 2), 5); }
    else if j == 3 { assert Bit(ByteOf(Trans8x8(x), 5), 3) == Bit(ByteOf(x, 3), 5); }
    else if j == 4 { assert Bit(ByteOf(Trans8x8(x), 5), 4) == Bit(ByteOf(x, 4), 5); }
    else if j == 5 { assert Bit(ByteOf(Trans8x8(x), 5), 5) == Bit(ByteOf(x, 5), 5); }
    else if j == 6 { assert Bit(ByteOf(Trans8x8(x), 5), 6) == Bit(ByteOf(x, 6), 5); }
    else if j == 7 { assert Bit(ByteOf(Trans8x8(x), 5), 7) == Bit(ByteOf(x, 7), 5); }
  }

  lemma TransRow6(x: bv64, j: nat)
    requires j < 8
    ensures Bit(ByteOf(Trans8x8(x), 6), j) == Bit(ByteOf(x, j), 6)
  {
    if j == 0 { assert Bit(ByteOf(Trans8x8(x), 6), 0) == Bit(ByteOf(x, 0), 6); }
    else if j == 1 { assert Bit(ByteOf(Trans8x8(x), 6), 1) == Bit(ByteOf(x, 1), 6); }
    else if j == 2 { assert Bit(ByteOf(Trans8x8(x), 6), 2) == Bit(ByteOf(x, 2), 6); }
    else if j == 3 { assert Bit(ByteOf(Trans8x8(x), 6), 3) == Bit(ByteOf(x, 3), 6); }
    else if j == 4 { assert Bit(ByteOf(Trans8x8(x), 6), 4) == Bit(ByteOf(x, 4), 6); }
    else if j == 5 { assert Bit(ByteOf(Trans8x8(x), 6), 5) == Bit(ByteOf(x, 5), 6); }
    else if j == 6 { assert Bit(ByteOf(Trans8x8(x), 6), 6) == Bit(ByteOf(x, 6), 6); }
    else if j == 7 { assert Bit(ByteOf(Trans8x8(x), 6), 7) == Bit(ByteOf(x, 7), 6); }
  }

  lemma TransRow7(x: bv64, j: nat)
    requires j < 8
    ensures Bit(ByteOf(Trans8x8(x), 7), j) == Bit(ByteOf(x, j), 7)
  {
    if j == 0 { assert Bit(ByteOf(Trans8x8(x), 7), 0) == Bit(ByteOf(x, 0), 7); }
    else if j == 1 { assert Bit(ByteOf(Trans8x8(x), 7), 1) == Bit(ByteOf(x, 1), 7); }
    else if j == 2 { assert Bit(ByteOf(Trans8x8(x), 7), 2) == Bit(ByteOf(x, 2), 7); }
    else if j == 3 { assert Bit(ByteOf(Trans8x8(x), 7), 3) == Bit(ByteOf(x, 3), 7); }
    else if j == 4 { assert Bit(ByteOf(Trans8x8(x), 7), 4) == Bit(ByteOf(x, 4), 7); }
    else if j == 5 { assert Bit(ByteOf(Trans8x8(x), 7), 5) == Bit(ByteOf(x, 5), 7); }
    else if j == 6 { assert Bit(ByteOf(Trans8x8(x), 7), 6) == Bit(ByteOf(x, 6), 7); }
    else if j == 7 { assert Bit(ByteOf(Trans8x8(x), 7), 7) == Bit(ByteOf(x, 7), 7); }
  }

  /** Bit `j` of byte `i` and bit `i` of byte `j` change places. */
  lemma Trans8x8Transposes(x: bv64, i: nat, j: nat)
    requires i < 8 && j < 8
    ensures Bit(ByteOf(Trans8x8(x), i), j) == Bit(ByteOf(x, j), i)
  {
    if i == 0 { TransRow0(x, j); }
    else if i == 1 { TransRow1(x, j); }
    else if i == 2 { TransRow2(x, j); }
    else if i == 3 { TransRow3(x, j); }
    else if i == 4 { TransRow4(x, j); }
    else if i == 5 { TransRow5(x, j); }
    else if i == 6 { TransRow6(x, j); }
    else { TransRow7(x, j); }
  }

  /** The byte with the given bits. */
  function FromBits(b0: bool, b1: bool, b2: bool, b3: bool, b4: bool, b5: bool, b6: bool, b7: bool): (b: bv8)
    ensures Bit(b, 0) == b0 && Bit(b, 1) == b1 && Bit(b, 2) == b2 && Bit(b, 3) == b3
    ensures Bit(b, 4) == b4 && Bit(b, 5) == b5 && Bit(b, 6) == b6 && Bit(b, 7) == b7
  {
    (if b0 then 0x01 else 0) | (if b1 then 0x02 else 0) | (if b2 then 0x04 else 0) | (if b3 then 0x08 else 0)
    | (if b4 then 0x10 else 0) | (if b5 then 0x20 else 0) | (if b6 then 0x40 else 0) | (if b7 then 0x80 else 0)
  }
}
