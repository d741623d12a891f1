/** The scalar workers of `bitshuffle_core.c`. */
module BitShuffle {
  import opened Bits
  import opened Grid
  import opened ShuffleSpec

  /** `b` holds the bytes of the `n` elements of `a`, sorted by their place in the element. */
  ghost predicate ByteTransposed(a: seq<bv8>, b: seq<bv8>, n: nat, e: nat) {
    forall i: nat, j: nat :: i < n && j < e ==> Cell(b, j, n, i) == Cell(a, i, e, j)
  }

  /** `now` differs from `was` in the columns `lo .. hi` only, where it holds the bytes
      of the elements `lo .. hi` of `a`. */
  ghost predicate ColumnsStored(a: seq<bv8>, was: seq<bv8>, now: seq<bv8>, n: nat, e: nat, lo: nat, hi: nat) {
    forall i: nat, j: nat :: i < n && j < e ==>
      Cell(now, j, n, i) == if lo <= i < hi then Cell(a, i, e, j) else Cell(was, j, n, i)
  }

  lemma ColumnsExtend(a: seq<bv8>, was: seq<bv8>, mid: seq<bv8>, now: seq<bv8>, n: nat, e: nat, lo: nat, hi: nat,
                      hi': nat)
    requires lo <= hi <= hi' && ColumnsStored(a, was, mid, n, e, lo, hi) && ColumnsStored(a, mid, now, n, e, hi, hi')
    ensures ColumnsStored(a, was, now, n, e, lo, hi')
  {
  }

  /** The inner loops of `bshuf_trans_byte_elem_remainder`: the elements `ii .. ii + g`. */
  method TransGroup(a: array<bv8>, out: array<bv8>, size: nat, elem: nat, ii: nat, g: nat)
    requires a != out && a.Length == out.Length == size * elem && ii + g <= size
    modifies out
    ensures ColumnsStored(a[..], old(out[..]), out[..], size, elem, ii, ii + g)
  {
    ghost var was := out[..];
    for jj := 0 to elem
      invariant forall i: nat, j: nat :: i < size && j < elem ==>
                  Cell(out[..], j, size, i) == if ii <= i < ii + g && j < jj then Cell(a[..], i, elem, j)
                      else Cell(was, j, size, i)
    {
      for kk := 0 to g
        invariant forall i: nat, j: nat :: i < size && j < elem ==>
                    Cell(out[..], j, size, i) ==
                    if (ii <= i < ii + g && j < jj) || (ii <= i < ii + kk && j == jj) then Cell(a[..], i, elem, j)
                    else Cell(was, j, size, i)
      {
        ghost var now := out[..];
        AtBound(ii + kk, elem, jj, size);
        AtBound(jj, size, ii + kk, elem);
        out[At(jj, size, ii + kk)] := a[At(ii + kk, elem, jj)];
        assert out[..] == now[At(jj, size, ii + kk) := a[At(ii + kk, elem, jj)]];
        CellUpdate(now, jj, ii + kk, size, a[At(ii + kk, elem, jj)]);
      }
    }
  }

  /** The outer loops: groups of eight or single elements from `lo` up to `hi`. */
  method TransColumns(a: array<bv8>, out: array<bv8>, size: nat, elem: nat, lo: nat, hi: nat, g: nat)
    requires a != out && a.Length == out.Length == size * elem && lo <= hi <= size
    requires g == 1 || (g == 8 && (hi - lo) % 8 == 0)
    modifies out
    ensures ColumnsStored(a[..], old(out[..]), out[..], size, elem, lo, hi)
  {
    var ii := lo;
    while ii < hi
      invariant lo <= ii <= hi && (g == 8 ==> (hi - ii) % 8 == 0)
      invariant ColumnsStored(a[..], old(out[..]), out[..], size, elem, lo, ii)
      decreases hi - ii
    {
      ghost var mid := out[..];
      TransGroup(a, out, size, elem, ii, g);
      ColumnsExtend(a[..], old(out[..]), mid, out[..], size, elem, lo, ii, ii + g);
      ii := ii + g;
    }
  }

  /** From element `start` on, the bytes of each element go to its column; the other columns
      stay as they are. */
  method TransByteElemRemainder(a: array<bv8>, out: array<bv8>, size: nat, elem: nat, start: nat) returns (count: int)
    requires a != out && a.Length == out.Length == size * elem
    modifies out
    ensures count == if start % 8 == 0 then size * elem else -80
    ensures count < 0 ==> out[..] == old(out[..])
    ensures count >= 0 ==> ColumnsStored(a[..], old(out[..]), out[..], size, elem, start, size)
  {
    if start % 8 != 0 { return -80; }
    if size > start {
      TransColumns(a, out, size, elem, start, size - size % 8, 8);
      ghost var mid := out[..];
      TransColumns(a, out, size, elem, size - size % 8, size, 1);
      ColumnsExtend(a[..], old(out[..]), mid, out[..], size, elem, start, size - size % 8, size);
    }
    return size * elem;
  }

  method TransByteElemScal(a: array<bv8>, out: array<bv8>, size: nat, elem: nat) returns (count: int)
    requires a != out && a.Length == out.Length == size * elem
    modifies out
    ensures count == size * elem
    ensures ByteTransposed(a[..], out[..], size, elem)
  {
    count := TransByteElemRemainder(a, out, size, elem, 0);
  }

  /** Row `k` of `b` holds the bits `k` of the bytes of `a`, eight of them in a byte. */
  ghost predicate BitTransposed(a: seq<bv8>, b: seq<bv8>, w: nat) {
    forall m: nat, k: nat, c: nat :: m < w && k < 8 && c < 8 ==> Bit(Cell(b, k, w, m), c) == Bit(Cell(a, m, 8, c), k)
  }

  /** The eight bytes of word `m`. */
  ghost predicate WordTransposed(a: seq<bv8>, b: seq<bv8>, w: nat, m: nat) {
    forall k: nat, c: nat :: k < 8 && c < 8 ==> Bit(Cell(b, k, w, m), c) == Bit(Cell(a, m, 8, c), k)
  }

  /** Load eight bytes, transpose the word and take it apart again, least
      significant byte first. */
  method TransposeWord(s: seq<bv8>) returns (bytes: seq<bv8>)
    requires |s| == 8
    ensures |bytes| == 8
    ensures forall k: nat, c: nat :: k < 8 && c < 8 ==> Bit(bytes[k], c) == Bit(s[c], k)
  {
    bytes := WordBytes(Trans8x8(Load(s)));
    WordBits(s, bytes);
  }

  lemma WordBits(s: seq<bv8>, bytes: seq<bv8>)
    requires |s| == |bytes| == 8
    requires forall i :: 0 <= i < 8 ==> bytes[i] == ByteOf(Trans8x8(Load(s)), i)
    ensures forall k: nat, c: nat :: k < 8 && c < 8 ==> Bit(bytes[k], c) == Bit(s[c], k)
  {
    LoadBytes(s);
    forall k: nat, c: nat | k < 8 && c < 8
      ensures Bit(bytes[k], c) == Bit(s[c], k)
    {
      Trans8x8Transposes(Load(s), k, c);
    }
  }

  /** From byte `start` on, the words of eight bytes are transposed and their bytes spread over
      the eight rows. */
  method TransBitByteRemainder(a: array<bv8>, out: array<bv8>, size: nat, elem: nat, start: nat) returns (count: int)
    requires a != out && a.Length == out.Length == elem * size
    modifies out
    ensures count == if elem * size % 8 == 0 && start % 8 == 0 then elem * size else -80
    ensures count < 0 ==> out[..] == old(out[..])
    ensures count >= 0 ==> var w := elem * size / 8;
              && (forall m: nat :: start / 8 <= m < w ==> WordTransposed(a[..], out[..], w, m))
              && (forall m: nat, k: nat :: m < w && m < start / 8 && k < 8 ==>
                    Cell(out[..], k, w, m) == Cell(old(out[..]), k, w, m))
  {
    var nbyte := elem * size;
    if nbyte % 8 != 0 || start % 8 != 0 { return -80; }
    var w := nbyte / 8;
    ghost var was := out[..];
    var ii := start / 8;
    while ii < w
      invariant start / 8 <= ii
      invariant forall m: nat :: start / 8 <= m < ii && m < w ==> WordTransposed(a[..], out[..], w, m)
      invariant forall m: nat, k: nat :: m < w && !(start / 8 <= m < ii) && k < 8 ==>
                  Cell(out[..], k, w, m) == Cell(was, k, w, m)
    {
      ghost var now := out[..];
      StoreWord(a, out, w, ii);
      forall m: nat | start / 8 <= m < ii
        ensures WordTransposed(a[..], out[..], w, m)
      {
        assert WordTransposed(a[..], now, w, m);
      }
      ii := ii + 1;
    }
    return nbyte;
  }

  /** Eight bytes become a column of eight rows. */
  method StoreColumn(out: array<bv8>, bytes: seq<bv8>, row: nat, w: nat, col: nat, ghost rows: nat)
    requires |bytes| == 8 && row + 8 <= rows && out.Length == rows * w && col < w
    modifies out
    ensures forall r: nat, i: nat :: i < w ==>
              Cell(out[..], r, w, i) == if i == col && row <= r < row + 8 then bytes[r - row]
                  else Cell(old(out[..]), r, w, i)
  {
    ghost var was := out[..];
    for kk := 0 to 8
      invariant forall r: nat, i: nat :: i < w ==>
                  Cell(out[..], r, w, i) == if i == col && row <= r < row + kk then bytes[r - row]
                      else Cell(was, r, w, i)
    {
      ghost var now := out[..];
      AtBound(row + kk, w, col, rows);
      out[At(row + kk, w, col)] := bytes[kk];
      assert out[..] == now[At(row + kk, w, col) := bytes[kk]];
      CellUpdate(now, row + kk, col, w, bytes[kk]);
    }
  }

  /** The body of the loop: word `ii` is transposed and its bytes go to the eight rows. */
  method StoreWord(a: array<bv8>, out: array<bv8>, w: nat, ii: nat)
    requires a != out && a.Length == out.Length == 8 * w && ii < w
    modifies out
    ensures WordTransposed(a[..], out[..], w, ii)
    ensures forall m: nat, k: nat :: m < w && m != ii && k < 8 ==> Cell(out[..], k, w, m) == Cell(old(out[..]), k, w, m)
  {
    var bytes := TransposeWord(a[8 * ii..8 * ii + 8]);
    StoreColumn(out, bytes, 0, w, ii, 8);
    forall k: nat, c: nat | k < 8 && c < 8
      ensures Bit(Cell(out[..], k, w, ii), c) == Bit(Cell(a[..], ii, 8, c), k)
    {
      AtProduct(ii, 8, c);
    }
  }

  /** Bits within bytes, the whole buffer. */
  method TransBitByteScal(a: array<bv8>, out: array<bv8>, size: nat, elem: nat) returns (count: int)
    requires a != out && a.Length == out.Length == elem * size
    modifies out
    ensures count == if elem * size % 8 == 0 then elem * size else -80
    ensures count >= 0 ==> BitTransposed(a[..], out[..], elem * size / 8)
  {
    count := TransBitByteRemainder(a, out, size, elem, 0);
    if count >= 0 { WordsTranspose(a[..], out[..], elem * size / 8); }
  }

  lemma WordsTranspose(a: seq<bv8>, b: seq<bv8>, w: nat)
    requires forall m: nat :: m < w ==> WordTransposed(a, b, w, m)
    ensures BitTransposed(a, b, w)
  {
    forall m: nat, k: nat, c: nat | m < w && k < 8 && c < 8
      ensures Bit(Cell(b, k, w, m), c) == Bit(Cell(a, m, 8, c), k)
    {
      assert WordTransposed(a, b, w, m);
    }
  }

  /** The table of `lda` times `ldb` entries of `width` bytes is transposed. */
  ghost predicate RowsTransposed(a: seq<bv8>, b: seq<bv8>, lda: nat, ldb: nat, width: nat) {
    forall i: nat, j: nat, t: nat :: i < lda && j < ldb && t < width ==>
      Cell(b, At(j, lda, i), width, t) == Cell(a, At(i, ldb, j), width, t)
  }

  /** `memcpy` of one entry of a table. */
  method CopyEntry(a: array<bv8>, src: nat, out: array<bv8>, dst: nat, width: nat, ghost entries: nat)
    requires a != out && a.Length == out.Length == entries * width && src < entries && dst < entries
    modifies out
    ensures forall r: nat, t: nat :: t < width ==>
              Cell(out[..], r, width, t) == if r == dst then Cell(a[..], src, width, t)
                  else Cell(old(out[..]), r, width, t)
  {
    ghost var was := out[..];
    for u := 0 to width
      invariant forall r: nat, t: nat :: t < width ==>
                  Cell(out[..], r, width, t) == if r == dst && t < u then Cell(a[..], src, width, t)
                      else Cell(was, r, width, t)
    {
      ghost var now := out[..];
      AtBound(src, width, u, entries);
      AtBound(dst, width, u, entries);
      out[At(dst, width, u)] := a[At(src, width, u)];
      assert out[..] == now[At(dst, width, u) := a[At(src, width, u)]];
      CellUpdate(now, dst, u, width, a[At(src, width, u)]);
    }
  }

  /** Entry by entry, the table of `lda` rows and `ldb` columns becomes one of `ldb` rows. */
  method TransElem(a: array<bv8>, out: array<bv8>, lda: nat, ldb: nat, width: nat) returns (count: int)
    requires a != out && a.Length == out.Length == lda * ldb * width
    modifies out
    ensures count == lda * ldb * width
    ensures RowsTransposed(a[..], out[..], lda, ldb, width)
  {
    for ii := 0 to lda
      invariant forall i: nat, j: nat, t: nat :: i < ii && j < ldb && t < width ==>
                  Cell(out[..], At(j, lda, i), width, t) == Cell(a[..], At(i, ldb, j), width, t)
    {
      for jj := 0 to ldb
        invariant forall i: nat, j: nat, t: nat :: ((i < ii && j < ldb) || (i == ii && j < jj)) && t < width ==>
                    Cell(out[..], At(j, lda, i), width, t) == Cell(a[..], At(i, ldb, j), width, t)
      {
        ghost var now := out[..];
        AtBound(ii, ldb, jj, lda);
        AtBound(jj, lda, ii, ldb);
        CopyEntry(a, At(ii, ldb, jj), out, At(jj, lda, ii), width, lda * ldb);
        forall i: nat, j: nat, t: nat | ((i < ii && j < ldb) || (i == ii && j < jj + 1)) && t < width
          ensures Cell(out[..], At(j, lda, i), width, t) == Cell(a[..], At(i, ldb, j), width, t)
        {
          if At(j, lda, i) == At(jj, lda, ii) { AtInjective(j, i, jj, ii, lda); }
        }
      }
    }
    return lda * ldb * width;
  }

  lemma TransThreeStages(a: seq<bv8>, b: seq<bv8>, t: seq<bv8>, s: seq<bv8>, q: nat, e: nat,
                         j: nat, k: nat, m: nat, c: nat)
    requires |t| == |b| == 8 * q * e
    requires ByteTransposed(a, b, 8 * q, e) && BitTransposed(b, t, e * q) && RowsTransposed(t, s, 8, e, q)
    requires j < e && k < 8 && m < q && c < 8
    ensures RowBit(s, q, j, k, m, c) == ElemBit(a, e, m, c, j, k)
  {
    AtProduct(j, 8, k);
    var w := At(j, q, m);
    assert Cell(s, At(j, 8, k), q, m) == Cell(t, k, e * q, w) by { AtNested(k, e, j, q, m); }
    AtBound(j, q, m, e);
    assert Cell(b, w, 8, c) == Cell(b, j, 8 * q, 8 * m + c) by { AtWord(j, q, m, c); }
  }

  /** Byte transpose, bit transpose and regrouping of the rows make a bit shuffle. */
  lemma TransComposes(a: seq<bv8>, b: seq<bv8>, t: seq<bv8>, s: seq<bv8>, q: nat, e: nat)
    requires |t| == |b| == 8 * q * e && |s| == 8 * e * q
    requires ByteTransposed(a, b, 8 * q, e) && BitTransposed(b, t, e * q) && RowsTransposed(t, s, 8, e, q)
    ensures s == Shuffle(a, q, e)
  {
    forall j: nat, k: nat, m: nat, c: nat | j < e && k < 8 && m < q && c < 8
      ensures RowBit(s, q, j, k, m, c) == ElemBit(a, e, m, c, j, k)
    {
      TransThreeStages(a, b, t, s, q, e, j, k, m, c);
    }
    ShuffleShuffles(a, q, e);
    ShuffleUnique(a, s, Shuffle(a, q, e), q, e);
  }

  /** The three stages one after the other: `out` becomes the bit shuffle of `a`. */
  method TransBitElemScal(a: array<bv8>, out: array<bv8>, size: nat, elem: nat) returns (count: int)
    requires a != out && a.Length == out.Length == size * elem
    modifies out
    ensures count == if size % 8 == 0 then size * elem else -80
    ensures count >= 0 ==> out[..] == Shuffle(a[..], size / 8, elem)
  {
    if size % 8 != 0 { return -80; }
    var tmp := new bv8[size * elem];
    ghost var q := size / 8;
    assert size * elem == 8 * q * elem == 8 * elem * q;
    assert elem * size / 8 == elem * q && elem * size % 8 == 0 by {
      assert elem * size == 8 * (elem * q);
    }
    count := TransByteElemScal(a, out, size, elem);
    ghost var b := out[..];
    count := TransBitByteScal(out, tmp, size, elem);
    ghost var t := tmp[..];
    count := TransElem(tmp, out, 8, elem, size / 8);
    TransComposes(a[..], b, t, out[..], q, elem);
  }

  // ---- The way back ----

  /** The `8 * elem` rows of bits become columns: byte `i` of every row ends up in row `i`. */
  method TransByteBitrowScal(a: array<bv8>, out: array<bv8>, size: nat, elem: nat) returns (count: int)
    requires a != out && a.Length == out.Length == size * elem
    modifies out
    ensures count == if size % 8 == 0 then size * elem else -80
    ensures count >= 0 ==> ByteTransposed(a[..], out[..], 8 * elem, size / 8)
  {
    if size % 8 != 0 { return -80; }
    var rows, width := 8 * elem, size / 8;
    assert size * elem == rows * width == width * rows;
    for jj := 0 to elem
      invariant forall r: nat, m: nat :: r < 8 * jj && m < width ==>
                Cell(out[..], m, rows, r) == Cell(a[..], r, width, m)
    {
      for ii := 0 to width
        invariant forall r: nat, m: nat :: r < 8 * jj && m < width ==>
                  Cell(out[..], m, rows, r) == Cell(a[..], r, width, m)
        invariant forall r: nat, m: nat :: 8 * jj <= r < 8 * jj + 8 && m < ii ==>
                    Cell(out[..], m, rows, r) == Cell(a[..], r, width, m)
      {
        for kk := 0 to 8
          invariant forall r: nat, m: nat :: r < 8 * jj && m < width ==>
                    Cell(out[..], m, rows, r) == Cell(a[..], r, width, m)
          invariant forall r: nat, m: nat :: 8 * jj <= r < 8 * jj + 8 && m < ii ==>
                      Cell(out[..], m, rows, r) == Cell(a[..], r, width, m)
          invariant forall r: nat :: 8 * jj <= r < 8 * jj + kk ==>
                    Cell(out[..], ii, rows, r) == Cell(a[..], r, width, ii)
        {
          ghost var now := out[..];
          var r := 8 * jj + kk;
          AtBound(ii, rows, r, width);
          AtBound(r, width, ii, rows);
          out[At(ii, rows, r)] := a[At(r, width, ii)];
          assert out[..] == now[At(ii, rows, r) := a[At(r, width, ii)]];
          CellUpdate(now, ii, r, rows, a[At(r, width, ii)]);
        }
      }
    }
    return size * elem;
  }

  /** The eight bytes `8 * j ..` of block `m` of eight elements, transposed and spread
      over the eight elements. */
  ghost predicate BlockWordTransposed(a: seq<bv8>, b: seq<bv8>, e: nat, m: nat, j: nat) {
    forall k: nat, c: nat :: k < 8 && c < 8 ==>
      ElemBit(b, e, m, k, j, c) == Bit(Cell(a, m, 8 * e, 8 * j + c), k)
  }

  /** The body of the loops of `bshuf_shuffle_bit_eightelem_scal`; byte `kk` of the
      word goes to byte `j` of element `8 * m + kk`. */
  method StoreBlockWord(a: array<bv8>, out: array<bv8>, blocks: nat, e: nat, m: nat, j: nat)
    requires a != out && a.Length == out.Length == 8 * blocks * e && m < blocks && j < e
    modifies out
    ensures BlockWordTransposed(a[..], out[..], e, m, j)
    ensures forall r: nat, i: nat :: i < e && (i != j || r < 8 * m || 8 * m + 8 <= r) ==>
              Cell(out[..], r, e, i) == Cell(old(out[..]), r, e, i)
  {
    BlockInside(blocks, e, m, j);
    var p := At(m, 8 * e, 8 * j);
    var bytes := TransposeWord(a[p..p + 8]);
    StoreColumn(out, bytes, 8 * m, e, j, 8 * blocks);
    forall k: nat, c: nat | k < 8 && c < 8
      ensures ElemBit(out[..], e, m, k, j, c) == Bit(Cell(a[..], m, 8 * e, 8 * j + c), k)
    {
      AtProduct(m, 8 * e, 8 * j);
      AtProduct(m, 8 * e, 8 * j + c);
    }
  }

  lemma BlockInside(blocks: nat, e: nat, m: nat, j: nat)
    requires m < blocks && j < e
    ensures At(m, 8 * e, 8 * j) + 8 <= 8 * blocks * e
  {
    AtBound(m, 8 * e, 8 * j + 7, blocks);
    AtProduct(m, 8 * e, 8 * j);
    AtProduct(m, 8 * e, 8 * j + 7);
    assert blocks * (8 * e) == 8 * blocks * e;
  }

  /** In every block of eight elements every word is transposed and becomes a column. */
  method ShuffleBitEightelemScal(a: array<bv8>, out: array<bv8>, size: nat, elem: nat) returns (count: int)
    requires a != out && a.Length == out.Length == size * elem
    modifies out
    ensures count == if size % 8 == 0 then size * elem else -80
    ensures count >= 0 ==> forall m: nat, j: nat :: m < size / 8 && j < elem ==>
              BlockWordTransposed(a[..], out[..], elem, m, j)
  {
    if size % 8 != 0 { return -80; }
    var blocks := size / 8;
    assert size * elem == 8 * blocks * elem;
    for jj := 0 to elem
      invariant forall m: nat, j: nat :: m < blocks && j < jj ==> BlockWordTransposed(a[..], out[..], elem, m, j)
    {
      for ii := 0 to blocks
        invariant forall m: nat, j: nat :: m < blocks && j < jj ==> BlockWordTransposed(a[..], out[..], elem, m, j)
        invariant forall m: nat :: m < ii ==> BlockWordTransposed(a[..], out[..], elem, m, jj)
      {
        ghost var now := out[..];
        StoreBlockWord(a, out, blocks, elem, ii, jj);
        forall m: nat, j: nat | (m < blocks && j < jj) || (m < ii && j == jj)
          ensures BlockWordTransposed(a[..], out[..], elem, m, j)
        {
          BlockWordKept(a[..], now, out[..], elem, m, j);
        }
      }
    }
    return size * elem;
  }

  lemma BlockWordKept(a: seq<bv8>, b: seq<bv8>, b': seq<bv8>, e: nat, m: nat, j: nat)
    requires BlockWordTransposed(a, b, e, m, j)
    requires forall r: nat :: 8 * m <= r < 8 * m + 8 ==> Cell(b', r, e, j) == Cell(b, r, e, j)
    ensures BlockWordTransposed(a, b', e, m, j)
  {
    forall k: nat, c: nat | k < 8 && c < 8
      ensures ElemBit(b', e, m, k, j, c) == Bit(Cell(a, m, 8 * e, 8 * j + c), k)
    {
      assert ElemBit(b', e, m, k, j, c) == ElemBit(b, e, m, k, j, c);
    }
  }

  lemma UntransTwoStages(s: seq<bv8>, t: seq<bv8>, a: seq<bv8>, q: nat, e: nat, j: nat, k: nat, m: nat, c: nat)
    requires ByteTransposed(s, t, 8 * e, q)
    requires j < e && k < 8 && m < q && c < 8
    requires BlockWordTransposed(t, a, e, m, j)
    ensures RowBit(s, q, j, k, m, c) == ElemBit(a, e, m, c, j, k)
  {
    assert Cell(t, m, 8 * e, 8 * j + k) == Cell(s, 8 * j + k, q, m);
  }

  /** Transposing the bytes of the rows and then the bits of blocks of eight elements
      undoes the three stages. */
  lemma UntransComposes(s: seq<bv8>, t: seq<bv8>, a: seq<bv8>, q: nat, e: nat)
    requires |a| == 8 * q * e && ByteTransposed(s, t, 8 * e, q)
    requires forall m: nat, j: nat :: m < q && j < e ==> BlockWordTransposed(t, a, e, m, j)
    ensures a == Unshuffle(s, q, e)
  {
    forall j: nat, k: nat, m: nat, c: nat | j < e && k < 8 && m < q && c < 8
      ensures RowBit(s, q, j, k, m, c) == ElemBit(a, e, m, c, j, k)
    {
      UntransTwoStages(s, t, a, q, e, j, k, m, c);
    }
    UnshuffleShuffles(s, q, e);
    UnshuffleUnique(a, Unshuffle(s, q, e), s, q, e);
  }

  /** The two stages of the way back: `out` becomes the buffer whose bit shuffle is `a`. */
  method UntransBitElemScal(a: array<bv8>, out: array<bv8>, size: nat, elem: nat) returns (count: int)
    requires a != out && a.Length == out.Length == size * elem
    modifies out
    ensures count == if size % 8 == 0 then size * elem else -80
    ensures count >= 0 ==> out[..] == Unshuffle(a[..], size / 8, elem)
  {
    if size % 8 != 0 { return -80; }
    var tmp := new bv8[size * elem];
    count := TransByteBitrowScal(a, tmp, size, elem);
    count := ShuffleBitEightelemScal(tmp, out, size, elem);
    assert size * elem == 8 * (size / 8) * elem;
    UntransComposes(a[..], tmp[..], out[..], size / 8, elem);
  }
}
