/** The SSE2 and AVX2 workers of `bitshuffle_core.c`, proved to compute what the
    scalar ones do.  A vector register is the sequence of its bytes. */
module BitShuffleSimd {
  import opened Bits
  import opened Grid
  import opened ShuffleSpec
  import opened BitShuffle

  /** `_mm_slli_epi16(v, 1)`: 16-bit lanes, so the top bit of a low byte moves into
      the high byte of its lane. */
  function ShiftLanes(v: seq<bv8>): (r: seq<bv8>)
    ensures |r| == |v|
  {
    seq(|v|, i requires 0 <= i < |v| => if i % 2 == 0 then ShiftLow(v[i]) else ShiftHigh(v[i], v[i - 1]))
  }

  function ShiftLow(x: bv8): bv8 { x << 1 }

  function ShiftHigh(x: bv8, low: bv8): bv8 { (x << 1) | (low >> 7) }

  /** Byte `g` of `_mm_movemask_epi8(v)`: the top bits of eight bytes. */
  function MaskByte(v: seq<bv8>, g: nat): (b: bv8)
    requires 8 * g + 8 <= |v|
    ensures forall c: nat :: c < 8 ==> Bit(b, c) == Bit(v[8 * g + c], 7)
  {
    FromBits(Bit(v[8 * g], 7), Bit(v[8 * g + 1], 7), Bit(v[8 * g + 2], 7), Bit(v[8 * g + 3], 7),
             Bit(v[8 * g + 4], 7), Bit(v[8 * g + 5], 7), Bit(v[8 * g + 6], 7), Bit(v[8 * g + 7], 7))
  }

  lemma ShiftBit(x: bv8, low: bv8, b: nat)
    requires 1 <= b < 8
    ensures Bit(ShiftLow(x), b) == Bit(x, b - 1)
    ensures Bit(ShiftHigh(x, low), b) == Bit(x, b - 1)
  {
  }

  /** What leaks into a high byte stays below the bits that are still to be taken. */
  lemma ShiftLanesBit(v: seq<bv8>, i: nat, b: nat)
    requires i < |v| && 1 <= b < 8
    ensures Bit(ShiftLanes(v)[i], b) == Bit(v[i], b - 1)
  {
    ShiftBit(v[i], if i % 2 == 0 then 0 else v[i - 1], b);
  }

  /** `now` has the bits of `v` in the columns `col .. col + |v| / 8` of the rows
      `row + lo .. row + 8`, and is `was` elsewhere. */
  ghost predicate RowsMasked(v: seq<bv8>, was: seq<bv8>, now: seq<bv8>, row: nat, lo: nat, w: nat, col: nat) {
    && (forall r: nat, i: nat, c: nat :: row + lo <= r < row + 8 && col <= i < col + |v| / 8 && c < 8 ==>
          Bit(Cell(now, r, w, i), c) == Bit(v[8 * (i - col) + c], r - row))
    && (forall r: nat, i: nat :: i < w && !(row + lo <= r < row + 8 && col <= i < col + |v| / 8) ==>
          Cell(now, r, w, i) == Cell(was, r, w, i))
  }

  /** After `n` shifts the bits from `n` on are the original ones, moved up by `n`. */
  ghost predicate ShiftedBy(v0: seq<bv8>, v: seq<bv8>, n: nat) {
    && |v| == |v0|
    && forall i: nat, b: nat :: i < |v| && n <= b < 8 ==> Bit(v[i], b) == Bit(v0[i], b - n)
  }

  lemma ShiftOnce(v0: seq<bv8>, v: seq<bv8>, n: nat)
    requires ShiftedBy(v0, v, n)
    ensures ShiftedBy(v0, ShiftLanes(v), n + 1)
  {
    forall i: nat, b: nat | i < |v| && n + 1 <= b < 8
      ensures Bit(ShiftLanes(v)[i], b) == Bit(v0[i], b - (n + 1))
    {
      ShiftLanesBit(v, i, b);
      assert Bit(v[i], b - 1) == Bit(v0[i], b - 1 - n);
    }
  }

  /** The store of one mask: `|v| / 8` bytes of row `r`. */
  method StoreMask(out: array<bv8>, v: seq<bv8>, r: nat, w: nat, col: nat, ghost rows: nat)
    requires r < rows && out.Length == rows * w && col + |v| / 8 <= w
    modifies out
    ensures forall r': nat, i: nat :: i < w ==>
              Cell(out[..], r', w, i) ==
              if r' == r && col <= i < col + |v| / 8 then MaskByte(v, i - col) else Cell(old(out[..]), r', w, i)
  {
    ghost var was := out[..];
    for g := 0 to |v| / 8
      invariant forall r': nat, i: nat :: i < w ==>
                  Cell(out[..], r', w, i) == if r' == r && col <= i < col + g then MaskByte(v, i - col)
                      else Cell(was, r', w, i)
    {
      ghost var now := out[..];
      AtBound(r, w, col + g, rows);
      out[At(r, w, col + g)] := MaskByte(v, g);
      assert out[..] == now[At(r, w, col + g) := MaskByte(v, g)];
      CellUpdate(now, r, col + g, w, MaskByte(v, g));
    }
  }

  /** The top bits after `n` shifts are the bits `7 - n` of the vector. */
  lemma TopBits(v0: seq<bv8>, v: seq<bv8>, n: nat, g: nat, c: nat)
    requires n < 8 && ShiftedBy(v0, v, n) && 8 * g + 8 <= |v| && c < 8
    ensures Bit(MaskByte(v, g), c) == Bit(v0[8 * g + c], 7 - n)
  {
    assert Bit(MaskByte(v, g), c) == Bit(v[8 * g + c], 7);
  }

  lemma MaskRow(v0: seq<bv8>, v: seq<bv8>, was: seq<bv8>, now: seq<bv8>, now': seq<bv8>,
                row: nat, n: nat, w: nat, col: nat)
    requires n < 8 && col + |v0| / 8 <= w && ShiftedBy(v0, v, n) && RowsMasked(v0, was, now, row, 8 - n, w, col)
    requires forall r: nat, i: nat :: i < w ==>
               Cell(now', r, w, i) ==
               if r == row + 7 - n && col <= i < col + |v| / 8 then MaskByte(v, i - col) else Cell(now, r, w, i)
    ensures RowsMasked(v0, was, now', row, 7 - n, w, col)
  {
    forall r: nat, i: nat, c: nat | row + 7 - n <= r < row + 8 && col <= i < col + |v0| / 8 && c < 8
      ensures Bit(Cell(now', r, w, i), c) == Bit(v0[8 * (i - col) + c], r - row)
    {
      assert i < w;
      if r == row + 7 - n {
        TopBits(v0, v, n, i - col, c);
      } else {
        assert Cell(now', r, w, i) == Cell(now, r, w, i);
      }
    }
  }

  /** Load a vector, then eight times take the top bits and shift. */
  method MoveMasks(a: array<bv8>, p: nat, width: nat, out: array<bv8>, row: nat, w: nat, col: nat, ghost rows: nat)
    requires a != out && p + width <= a.Length && width % 8 == 0
    requires row + 8 <= rows && out.Length == rows * w && col + width / 8 <= w
    modifies out
    ensures RowsMasked(a[p..p + width], old(out[..]), out[..], row, 0, w, col)
  {
    var v := a[p..p + width];
    ghost var v0 := v;
    ghost var was := out[..];
    for kk := 0 to 8
      invariant ShiftedBy(v0, v, kk)
      invariant RowsMasked(v0, was, out[..], row, 8 - kk, w, col)
    {
      ghost var now := out[..];
      StoreMask(out, v, row + 7 - kk, w, col, rows);
      MaskRow(v0, v, was, now, out[..], row, kk, w, col);
      ShiftOnce(v0, v, kk);
      v := ShiftLanes(v);
    }
  }

  lemma MaskedWord(a: seq<bv8>, m0: nat, width: nat, was: seq<bv8>, now: seq<bv8>, w: nat, m: nat)
    requires 8 * m0 + width <= |a| && width % 8 == 0 && m0 <= m < m0 + width / 8
    requires RowsMasked(a[8 * m0..8 * m0 + width], was, now, 0, 0, w, m0)
    ensures WordTransposed(a, now, w, m)
  {
    forall k: nat, c: nat | k < 8 && c < 8
      ensures Bit(Cell(now, k, w, m), c) == Bit(Cell(a, m, 8, c), k)
    {
      AtProduct(m, 8, c);
      assert a[8 * m0..8 * m0 + width][8 * (m - m0) + c] == a[8 * m + c];
    }
  }

  lemma WordKept(a: seq<bv8>, b: seq<bv8>, b': seq<bv8>, w: nat, m: nat)
    requires WordTransposed(a, b, w, m) && forall k: nat :: k < 8 ==> Cell(b', k, w, m) == Cell(b, k, w, m)
    ensures WordTransposed(a, b', w, m)
  {
  }

  ghost predicate WordsDone(a: seq<bv8>, b: seq<bv8>, w: nat, n: nat) {
    forall m: nat :: m < n ==> WordTransposed(a, b, w, m)
  }

  /** A vector of `g` words from word `m0` on. */
  method MoveWords(a: array<bv8>, out: array<bv8>, w: nat, m0: nat, g: nat)
    requires a != out && a.Length == out.Length == 8 * w && m0 + g <= w
    requires WordsDone(a[..], out[..], w, m0)
    modifies out
    ensures WordsDone(a[..], out[..], w, m0 + g)
  {
    ghost var was := out[..];
    MoveMasks(a, 8 * m0, 8 * g, out, 0, w, m0, 8);
    forall m: nat | m < m0 + g
      ensures WordTransposed(a[..], out[..], w, m)
    {
      if m < m0 {
        WordKept(a[..], was, out[..], w, m);
      } else {
        assert a[8 * m0..8 * m0 + 8 * g] == a[..][8 * m0..8 * m0 + 8 * g];
        MaskedWord(a[..], m0, 8 * g, was, out[..], w, m);
      }
    }
  }

  /** `bshuf_trans_bit_byte_SSE` for `width == 16` and `bshuf_trans_bit_byte_AVX` for
      `width == 32`; the scalar worker does the rest. */
  method TransBitByteVector(a: array<bv8>, out: array<bv8>, size: nat, elem: nat, width: nat) returns (count: int)
    requires a != out && a.Length == out.Length == elem * size
    requires width == 16 || width == 32
    modifies out
    ensures count == if elem * size % 8 == 0 then elem * size else -80
    ensures count >= 0 ==> BitTransposed(a[..], out[..], elem * size / 8)
  {
    var nbyte := elem * size;
    if nbyte % 8 != 0 { return -80; }
    var w := nbyte / 8;
    VectorSplit(nbyte, width);
    var end := (nbyte - nbyte % width) / 8;
    MoveVectors(a, out, w, end, width / 8);
    ghost var was := out[..];
    count := TransBitByteRemainder(a, out, size, elem, nbyte - nbyte % width);
    forall m: nat | m < w
      ensures WordTransposed(a[..], out[..], w, m)
    {
      if m < end { WordKept(a[..], was, out[..], w, m); }
    }
    WordsTranspose(a[..], out[..], w);
  }

  lemma VectorSplit(nbyte: nat, width: nat)
    requires nbyte % 8 == 0 && (width == 16 || width == 32)
    ensures var end := nbyte - nbyte % width; end % 8 == 0 && end / 8 % (width / 8) == 0 && end / 8 <= nbyte / 8
  {
  }

  /** The vector loop: words up to `end`, `g` at a time. */
  method MoveVectors(a: array<bv8>, out: array<bv8>, w: nat, end: nat, g: nat)
    requires a != out && a.Length == out.Length == 8 * w && end <= w
    requires (g == 2 && end % 2 == 0) || (g == 4 && end % 4 == 0)
    modifies out
    ensures WordsDone(a[..], out[..], w, end)
  {
    var m0, left := 0, if g == 2 then end / 2 else end / 4;
    while left > 0
      invariant m0 + (if g == 2 then 2 * left else 4 * left) == end
      invariant WordsDone(a[..], out[..], w, m0)
    {
      MoveWords(a, out, w, m0, g);
      m0, left := m0 + g, left - 1;
    }
  }

  /** A vector of block `m`: `width / 8` words from word `j` on. */
  method MoveBlock(a: array<bv8>, out: array<bv8>, blocks: nat, e: nat, m: nat, j: nat, width: nat)
    requires a != out && a.Length == out.Length == 8 * blocks * e && m < blocks
    requires width % 8 == 0 && width > 0 && j + width / 8 <= e
    modifies out
    ensures forall i: nat :: j <= i < j + width / 8 ==> BlockWordTransposed(a[..], out[..], e, m, i)
    ensures forall r: nat, i: nat :: i < e && (i < j || j + width / 8 <= i || r < 8 * m || 8 * m + 8 <= r) ==>
              Cell(out[..], r, e, i) == Cell(old(out[..]), r, e, i)
  {
    var p := At(m, 8 * e, 8 * j);
    BlockInside(blocks, e, m, j + width / 8 - 1);
    AtProduct(m, 8 * e, 8 * j);
    AtProduct(m, 8 * e, 8 * (j + width / 8 - 1));
    MoveMasks(a, p, width, out, 8 * m, e, j, 8 * blocks);
    forall i: nat | j <= i < j + width / 8
      ensures BlockWordTransposed(a[..], out[..], e, m, i)
    {
      MaskedBlockWord(a[..], e, m, j, width, old(out[..]), out[..], i);
    }
  }

  /** Where byte `c` of word `i` of block `m` is in a vector that starts at word `j`. */
  lemma BlockByte(a: seq<bv8>, e: nat, m: nat, j: nat, width: nat, i: nat, c: nat)
    requires At(m, 8 * e, 8 * j) + width <= |a| && width % 8 == 0 && j <= i < j + width / 8 && c < 8
    ensures a[At(m, 8 * e, 8 * j)..At(m, 8 * e, 8 * j) + width][8 * (i - j) + c] == Cell(a, m, 8 * e, 8 * i + c)
  {
    AtProduct(m, 8 * e, 8 * j);
    AtProduct(m, 8 * e, 8 * i + c);
  }

  lemma MaskedBlockWord(a: seq<bv8>, e: nat, m: nat, j: nat, width: nat, was: seq<bv8>, now: seq<bv8>, i: nat)
    requires At(m, 8 * e, 8 * j) + width <= |a| && width % 8 == 0 && j <= i < j + width / 8
    requires RowsMasked(a[At(m, 8 * e, 8 * j)..At(m, 8 * e, 8 * j) + width], was, now, 8 * m, 0, e, j)
    ensures BlockWordTransposed(a, now, e, m, i)
  {
    var v := a[At(m, 8 * e, 8 * j)..At(m, 8 * e, 8 * j) + width];
    forall k: nat, c: nat | k < 8 && c < 8
      ensures ElemBit(now, e, m, k, i, c) == Bit(Cell(a, m, 8 * e, 8 * i + c), k)
    {
      BlockByte(a, e, m, j, width, i, c);
      assert Bit(Cell(now, 8 * m + k, e, i), c) == Bit(v[8 * (i - j) + c], k);
    }
  }
}
