/** Numbers in big endian order: `bshuf_write_uint64_BE`, `bshuf_read_uint64_BE` and
    their 32-bit counterparts. */
module BigEndian {
  import Arith
  import opened Bits

  /** The number with the given binary digits, lowest first. */
  function Sum(bits: seq<bool>): nat {
    if bits == [] then 0 else (if bits[0] then 1 else 0) + 2 * Sum(bits[1..])
  }

  lemma SumStep(b: bool, bits: seq<bool>)
    ensures Sum([b] + bits) == (if b then 1 else 0) + 2 * Sum(bits)
  {
    assert ([b] + bits)[1..] == bits;
  }

  /** The digits of `v`, lowest first. */
  function Binary(v: nat, n: nat): (bits: seq<bool>)
    ensures |bits| == n
  {
    if n == 0 then [] else [v % 2 == 1] + Binary(v / 2, n - 1)
  }

  function Limit(n: nat): nat {
    if n == 0 then 1 else 2 * Limit(n - 1)
  }

  lemma {:induction false} SumOfBinary(v: nat, n: nat)
    requires v < Limit(n)
    ensures Sum(Binary(v, n)) == v
  {
    if n > 0 {
      SumOfBinary(v / 2, n - 1);
      SumStep(v % 2 == 1, Binary(v / 2, n - 1));
    }
  }

  lemma {:induction false} SumBelow(bits: seq<bool>)
    ensures Sum(bits) < Limit(|bits|)
  {
    if bits != [] { SumBelow(bits[1..]); }
  }

  function BitsOf(b: bv8): (bits: seq<bool>)
    ensures |bits| == 8
  {
    [Bit(b, 0), Bit(b, 1), Bit(b, 2), Bit(b, 3), Bit(b, 4), Bit(b, 5), Bit(b, 6), Bit(b, 7)]
  }

  function Value(b: bv8): (v: nat)
    ensures v < 256
  {
    SumBelow(BitsOf(b));
    assert Limit(8) == 256;
    Sum(BitsOf(b))
  }

  function SetBit(b: bv8, n: nat): bv8
    requires n < 8
  {
    if n == 0 then b | 0x01
    else if n == 1 then b | 0x02
    else if n == 2 then b | 0x04
    else if n == 3 then b | 0x08
    else if n == 4 then b | 0x10
    else if n == 5 then b | 0x20
    else if n == 6 then b | 0x40
    else b | 0x80
  }

  lemma BitSet(b: bv8, n: nat, i: nat)
    requires n < 8 && i < 8
    ensures Bit(SetBit(b, n), i) == (i == n || Bit(b, i))
  {
  }

  /** The byte with the given bits, lowest first. */
  function Pack(bits: seq<bool>): bv8
    requires |bits| <= 8
  {
    if bits == [] then 0
    else
      var n := |bits| - 1;
      if bits[n] then SetBit(Pack(bits[..n]), n) else Pack(bits[..n])
  }

  lemma {:induction false} PackBit(bits: seq<bool>, i: nat)
    requires |bits| <= 8 && i < 8
    ensures Bit(Pack(bits), i) == (i < |bits| && bits[i])
  {
    if bits != [] {
      var n := |bits| - 1;
      PackBit(bits[..n], i);
      BitSet(Pack(bits[..n]), n, i);
    }
  }

  function Digit(v: nat): (b: bv8)
    requires v < 256
    ensures Value(b) == v
  {
    DigitValue(v);
    Pack(Binary(v, 8))
  }

  lemma BitsOfPack(bits: seq<bool>)
    requires |bits| == 8
    ensures BitsOf(Pack(bits)) == bits
  {
    forall i: nat | i < 8
      ensures BitsOf(Pack(bits))[i] == bits[i]
    {
      PackBit(bits, i);
    }
  }

  lemma DigitValue(v: nat)
    requires v < 256
    ensures Value(Pack(Binary(v, 8))) == v
  {
    assert Limit(8) == 256;
    SumOfBinary(v, 8);
    BitsOfPack(Binary(v, 8));
  }

  function Pow256(n: nat): (p: nat)
    ensures p > 0
  {
    if n == 0 then 1 else 256 * Pow256(n - 1)
  }

  /** The last `n` digits of `num`. */
  function Encode(num: nat, n: nat): (s: seq<bv8>)
    ensures |s| == n
  {
    if n == 0 then [] else Encode(num / 256, n - 1) + [Digit(num % 256)]
  }

  function Decode(s: seq<bv8>): nat {
    if s == [] then 0 else 256 * Decode(s[..|s| - 1]) + Value(s[|s| - 1])
  }

  /** Reading gives back what was written, modulo the width of the field. */
  lemma {:induction false} DecodeEncode(num: nat, n: nat)
    ensures Decode(Encode(num, n)) == num % Pow256(n)
  {
    if n > 0 {
      var s := Encode(num, n);
      assert s[..n - 1] == Encode(num / 256, n - 1);
      DecodeEncode(num / 256, n - 1);
      ModDigit(num, Pow256(n - 1));
    }
  }

  lemma ModDigit(x: nat, m: nat)
    requires m > 0
    ensures 256 * (x / 256 % m) + x % 256 == x % (256 * m)
  {
    var q, r := x / 256 / m, x / 256 % m;
    assert x / 256 == q * m + r;
    assert x == 256 * (x / 256) + x % 256;
    Arith.DivModUnique(x, q, 256 * r + x % 256, 256 * m) by {
      assert 256 * (q * m) == q * (256 * m);
    }
  }

  /** `num` fits into `n` digits. */
  lemma RoundTrip(num: nat, n: nat)
    requires num < Pow256(n)
    ensures Decode(Encode(num, n)) == num
  {
    DecodeEncode(num, n);
    Arith.DivModUnique(num, 0, num, Pow256(n));
  }

  lemma Pow256Values()
    ensures Pow256(4) == 0x1_0000_0000 && Pow256(8) == 0x1_0000_0000_0000_0000
  {
    assert Pow256(2) == 0x1_0000;
    assert Pow256(4) == 0x1_0000 * 0x1_0000;
    assert Pow256(6) == Pow256(4) * 0x1_0000;
  }

  lemma EncodeStep(num: nat, n: nat, tail: seq<bv8>)
    requires n > 0
    ensures Encode(num, n) + tail == Encode(num / 256, n - 1) + ([Digit(num % 256)] + tail)
  {
  }

  /** The loop of the writers, last digit first. */
  method WriteUint(buf: array<bv8>, at: nat, num: nat, n: nat)
    requires at + n <= buf.Length
    modifies buf
    ensures buf[at..at + n] == Encode(num, n)
    ensures forall i :: 0 <= i < buf.Length && !(at <= i < at + n) ==> buf[i] == old(buf[i])
  {
    var ii, rest := n, num;
    ghost var whole := Encode(num, n);
    assert Encode(num, n) + buf[at + n..at + n] == whole;
    while ii > 0
      invariant 0 <= ii <= n
      invariant Encode(rest, ii) + buf[at + ii..at + n] == whole
      invariant forall i :: 0 <= i < buf.Length && !(at <= i < at + n) ==> buf[i] == old(buf[i])
    {
      ghost var tail := buf[at + ii..at + n];
      EncodeStep(rest, ii, tail);
      ii := ii - 1;
      buf[at + ii] := Digit(rest % 256);
      assert buf[at + ii..at + n] == [Digit(rest % 256)] + tail;
      rest := rest / 256;
    }
    assert buf[at..at + n] == whole;
  }

  /** A digit in front. */
  lemma {:induction false} DecodePrepend(b: bv8, s: seq<bv8>)
    ensures Decode([b] + s) == Value(b) * Pow256(|s|) + Decode(s)
  {
    if s == [] {
      assert ([b] + s)[..0] == [];
    } else {
      var n := |s| - 1;
      assert ([b] + s)[..n + 1] == [b] + s[..n];
      DecodePrepend(b, s[..n]);
      Shift(Value(b), Pow256(n));
    }
  }

  lemma Shift(v: nat, p: nat)
    ensures 256 * (v * p) == v * (256 * p)
  {
  }

  lemma ReadStep(buf: seq<bv8>, lo: nat, hi: nat, cp: nat)
    requires lo < hi <= |buf| && cp == Pow256(hi - lo - 1)
    ensures Decode(buf[lo..hi]) == Value(buf[lo]) * cp + Decode(buf[lo + 1..hi])
    ensures Pow256(hi - lo) == cp * 256
  {
    assert buf[lo..hi] == [buf[lo]] + buf[lo + 1..hi];
    DecodePrepend(buf[lo], buf[lo + 1..hi]);
  }

  /** The loop of the readers, last digit first. */
  method ReadUint(buf: seq<bv8>, at: nat, n: nat) returns (num: nat)
    requires at + n <= |buf|
    ensures num == Decode(buf[at..at + n])
  {
    num := 0;
    var ii, cp := n, 1;
    ghost var hi := at + n;
    while ii > 0
      invariant 0 <= ii <= n && cp == Pow256(hi - (at + ii))
      invariant num == Decode(buf[at + ii..hi])
    {
      ii := ii - 1;
      ReadStep(buf, at + ii, hi, cp);
      num := num + Value(buf[at + ii]) * cp;
      cp := cp * 256;
    }
  }
}
