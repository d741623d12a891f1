/** The unpack networks that transpose sixteen elements of two, four or eight bytes
    (`bshuf_trans_byte_elem_SSE_16`, `_32` and `_64`).  A register is a sequence of
    sixteen bytes; `s` is the memory the registers are loaded from. */
module Unpack {
  type Reg = r: seq<bv8> | |r| == 16 witness seq(16, _ => 0)

  /** `_mm_unpacklo_epi8` and `_mm_unpackhi_epi8` of the same pair. */
  method Unpack8(a: Reg, b: Reg) returns (lo: Reg, hi: Reg)
    ensures forall i :: 0 <= i < 16 ==> lo[i] == if i % 2 == 0 then a[i / 2] else b[i / 2]
    ensures forall i :: 0 <= i < 16 ==> hi[i] == if i % 2 == 0 then a[8 + i / 2] else b[8 + i / 2]
  {
    lo := seq(16, i requires 0 <= i < 16 => if i % 2 == 0 then a[i / 2] else b[i / 2]);
    hi := seq(16, i requires 0 <= i < 16 => if i % 2 == 0 then a[8 + i / 2] else b[8 + i / 2]);
  }

  /** `_mm_unpacklo_epi32` and `_mm_unpackhi_epi32`. */
  method Unpack32(a: Reg, b: Reg) returns (lo: Reg, hi: Reg)
    ensures forall i :: 0 <= i < 16 ==>
              lo[i] == if i / 4 % 2 == 0 then a[i / 8 * 4 + i % 4] else b[i / 8 * 4 + i % 4]
    ensures forall i :: 0 <= i < 16 ==>
              hi[i] == if i / 4 % 2 == 0 then a[8 + i / 8 * 4 + i % 4] else b[8 + i / 8 * 4 + i % 4]
  {
    lo := seq(16, i requires 0 <= i < 16 => if i / 4 % 2 == 0 then a[i / 8 * 4 + i % 4] else b[i / 8 * 4 + i % 4]);
    hi := seq(16, i requires 0 <= i < 16 =>
                if i / 4 % 2 == 0 then a[8 + i / 8 * 4 + i % 4] else b[8 + i / 8 * 4 + i % 4]);
  }

  /** `_mm_unpacklo_epi64` and `_mm_unpackhi_epi64`. */
  method Unpack64(a: Reg, b: Reg) returns (lo: Reg, hi: Reg)
    ensures lo == a[..8] + b[..8] && hi == a[8..] + b[8..]
  {
    lo, hi := a[..8] + b[..8], a[8..] + b[8..];
  }

  /** One level of byte unpacking of the registers at `at` and `at + 16`. */
  method Once(s: seq<bv8>, at: nat) returns (a: Reg, b: Reg)
    requires at + 32 <= |s|
    ensures forall i :: 0 <= i < 16 ==> a[i] == s[at + 16 * (i % 2) + i / 2]
    ensures forall i :: 0 <= i < 16 ==> b[i] == s[at + 16 * (i % 2) + 8 + i / 2]
  {
    a, b := Unpack8(s[at..at + 16], s[at + 16..at + 32]);
  }

  /** Two levels of byte unpacking of the registers at `at` and `at + 16`. */
  method Twice(s: seq<bv8>, at: nat) returns (a: Reg, b: Reg)
    requires at + 32 <= |s|
    ensures forall i :: 0 <= i < 16 ==> a[i] == s[at + 8 * (i % 4) + i / 4]
    ensures forall i :: 0 <= i < 16 ==> b[i] == s[at + 8 * (i % 4) + 4 + i / 4]
  {
    var a1, b1 := Once(s, at);
    a, b := Unpack8(a1, b1);
    forall i | 0 <= i < 16
      ensures a[i] == s[at + 8 * (i % 4) + i / 4] && b[i] == s[at + 8 * (i % 4) + 4 + i / 4]
    {
      assert 16 * (i / 2 % 2) + 8 * (i % 2) == 8 * (i % 4);
      assert i / 2 / 2 == i / 4 && (8 + i / 2) / 2 == 4 + i / 4;
    }
  }

  /** A third level. */
  method Thrice(s: seq<bv8>, at: nat) returns (a: Reg, b: Reg)
    requires at + 32 <= |s|
    ensures forall i :: 0 <= i < 16 ==> a[i] == s[at + 4 * (i % 8) + i / 8]
    ensures forall i :: 0 <= i < 16 ==> b[i] == s[at + 4 * (i % 8) + 2 + i / 8]
  {
    var a0, b0 := Twice(s, at);
    a, b := Unpack8(a0, b0);
    forall i | 0 <= i < 16
      ensures a[i] == s[at + 4 * (i % 8) + i / 8] && b[i] == s[at + 4 * (i % 8) + 2 + i / 8]
    {
      assert 8 * (i / 2 % 4) + 4 * (i % 2) == 4 * (i % 8);
      assert i / 2 / 4 == i / 8 && (8 + i / 2) / 4 == 2 + i / 8 && (8 + i / 2) % 4 == i / 2 % 4;
    }
  }

  /** A fourth level. */
  method FourTimes(s: seq<bv8>, at: nat) returns (a: Reg, b: Reg)
    requires at + 32 <= |s|
    ensures forall i :: 0 <= i < 16 ==> a[i] == s[at + 2 * i] && b[i] == s[at + 2 * i + 1]
  {
    var a1, b1 := Thrice(s, at);
    a, b := Unpack8(a1, b1);
    forall i | 0 <= i < 16
      ensures a[i] == s[at + 2 * i] && b[i] == s[at + 2 * i + 1]
    {
      assert 4 * (i / 2 % 8) + 2 * (i % 2) == 2 * i;
      assert i / 2 / 8 == 0 && (8 + i / 2) / 8 == 1 && (8 + i / 2) % 8 == i / 2;
    }
  }

  /** One level of 32-bit unpacking. */
  method Pair(s: seq<bv8>, at: nat, off: nat, a: Reg, b: Reg) returns (lo: Reg, hi: Reg)
    requires at + 64 <= |s| && off <= 4
    requires forall i :: 0 <= i < 16 ==> a[i] == s[at + 8 * (i % 4) + off + i / 4]
    requires forall i :: 0 <= i < 16 ==> b[i] == s[at + 32 + 8 * (i % 4) + off + i / 4]
    ensures forall i :: 0 <= i < 16 ==> lo[i] == s[at + 8 * (i % 8) + off + i / 8]
    ensures forall i :: 0 <= i < 16 ==> hi[i] == s[at + 8 * (i % 8) + off + 2 + i / 8]
  {
    lo, hi := Unpack32(a, b);
    forall i | 0 <= i < 16
      ensures lo[i] == s[at + 8 * (i % 8) + off + i / 8] && hi[i] == s[at + 8 * (i % 8) + off + 2 + i / 8]
    {
      var x := i / 8 * 4 + i % 4;
      assert x % 4 == i % 4 && x / 4 == i / 8 && (8 + x) % 4 == i % 4 && (8 + x) / 4 == 2 + i / 8;
      assert 32 * (i / 4 % 2) + 8 * (i % 4) == 8 * (i % 8);
    }
  }

  /** Two levels of byte unpacking and one of 32-bit unpacking of four registers. */
  method Quad(s: seq<bv8>, at: nat) returns (a: Reg, b: Reg, c: Reg, d: Reg)
    requires at + 64 <= |s|
    ensures forall i :: 0 <= i < 16 ==> a[i] == s[at + 8 * (i % 8) + i / 8] && b[i] == s[at + 8 * (i % 8) + 2 + i / 8]
    ensures forall i :: 0 <= i < 16 ==>
              c[i] == s[at + 8 * (i % 8) + 4 + i / 8] && d[i] == s[at + 8 * (i % 8) + 6 + i / 8]
  {
    var a0, b0 := Twice(s, at);
    var c0, d0 := Twice(s, at + 32);
    a, b := Pair(s, at, 0, a0, c0);
    c, d := Pair(s, at, 4, b0, d0);
  }

  /** The rows a network has to produce: row `r` is byte `r` of each of the sixteen
      elements of `e` bytes. */
  ghost predicate RowsOf(s: seq<bv8>, e: nat, rows: seq<Reg>)
    requires |s| == 16 * e && (e == 2 || e == 4 || e == 8)
  {
    |rows| == e && forall r, t :: 0 <= r < e && 0 <= t < 16 ==> rows[r][t] == s[e * t + r]
  }

  method Network16(s: seq<bv8>) returns (rows: seq<Reg>)
    requires |s| == 32
    ensures RowsOf(s, 2, rows)
  {
    var a, b := FourTimes(s, 0);
    rows := [a, b];
  }

  /** The last level: two registers of eight elements each become two rows. */
  method Join(s: seq<bv8>, e: nat, r: nat, a: Reg, b: Reg) returns (lo: Reg, hi: Reg)
    requires (e == 4 || e == 8) && r + 1 < e && |s| == 16 * e
    requires forall i :: 0 <= i < 16 ==>
               a[i] == s[e * (i % 8) + r + i / 8] && b[i] == s[8 * e + e * (i % 8) + r + i / 8]
    ensures forall t :: 0 <= t < 16 ==> lo[t] == s[e * t + r] && hi[t] == s[e * t + r + 1]
  {
    lo, hi := Unpack64(a, b);
    forall t | 0 <= t < 8
      ensures lo[t] == s[e * t + r] && hi[t] == s[e * t + r + 1]
    {
      assert t % 8 == t && t / 8 == 0 && (8 + t) % 8 == t && (8 + t) / 8 == 1;
      assert lo[t] == a[t] && hi[t] == a[8 + t];
    }
    forall t | 8 <= t < 16
      ensures lo[t] == s[e * t + r] && hi[t] == s[e * t + r + 1]
    {
      assert (t - 8) % 8 == t - 8 && (t - 8) / 8 == 0 && t % 8 == t - 8 && t / 8 == 1;
      assert lo[t] == b[t - 8] && hi[t] == b[t];
      assert 8 * e + e * (t - 8) == e * t;
    }
  }

  method Network32(s: seq<bv8>) returns (rows: seq<Reg>)
    requires |s| == 64
    ensures RowsOf(s, 4, rows)
  {
    var a1, b1 := Thrice(s, 0);
    var c1, d1 := Thrice(s, 32);
    var a0, b0 := Join(s, 4, 0, a1, c1);
    var c0, d0 := Join(s, 4, 2, b1, d1);
    rows := [a0, b0, c0, d0];
  }

  method Network64(s: seq<bv8>) returns (rows: seq<Reg>)
    requires |s| == 128
    ensures RowsOf(s, 8, rows)
  {
    var a1, b1, c1, d1 := Quad(s, 0);
    var e1, f1, g1, h1 := Quad(s, 64);
    var a0, b0 := Join(s, 8, 0, a1, e1);
    var c0, d0 := Join(s, 8, 2, b1, f1);
    var e0, f0 := Join(s, 8, 4, c1, g1);
    var g0, h0 := Join(s, 8, 6, d1, h1);
    rows := [a0, b0, c0, d0, e0, f0, g0, h0];
  }
}
