/** The vectorised paths put together: they compute the same shuffle as the scalar
    workers, for every size. */
module BitShuffleFast {
  import opened Arith
  import opened Grid
  import opened ShuffleSpec
  import opened BitShuffle
  import opened BitShuffleSimd
  import opened Unpack

  // ---- Transposing bytes ----

  /** `_mm_storeu_si128` of the rows of a network. */
  method StoreRows(a: array<bv8>, out: array<bv8>, rows: seq<Reg>, size: nat, elem: nat, ii: nat)
    requires a != out && a.Length == out.Length == size * elem && ii + 16 <= size && |rows| == elem
    requires forall r: nat, t: nat :: r < elem && t < 16 ==> rows[r][t] == Cell(a[..], ii + t, elem, r)
    modifies out
    ensures ColumnsStored(a[..], old(out[..]), out[..], size, elem, ii, ii + 16)
  {
    ghost var was := out[..];
    for r := 0 to elem
      invariant forall i: nat, j: nat :: i < size && j < elem ==>
                  Cell(out[..], j, size, i) == if ii <= i < ii + 16 && j < r then rows[j][i - ii]
                      else Cell(was, j, size, i)
    {
      for t := 0 to 16
        invariant forall i: nat, j: nat :: i < size && j < elem ==>
                    Cell(out[..], j, size, i) ==
                    if (ii <= i < ii + 16 && j < r) || (ii <= i < ii + t && j == r) then rows[j][i - ii]
                    else Cell(was, j, size, i)
      {
        ghost var now := out[..];
        AtBound(r, size, ii + t, elem);
        out[At(r, size, ii + t)] := rows[r][t];
        assert out[..] == now[At(r, size, ii + t) := rows[r][t]];
        CellUpdate(now, r, ii + t, size, rows[r][t]);
      }
    }
    forall i: nat, j: nat | i < size && j < elem
      ensures Cell(out[..], j, size, i) == if ii <= i < ii + 16 then Cell(a[..], i, elem, j) else Cell(was, j, size, i)
    {
      if ii <= i < ii + 16 { assert rows[j][i - ii] == Cell(a[..], ii + (i - ii), elem, j); }
    }
  }

  method Network(s: seq<bv8>, elem: nat) returns (rows: seq<Reg>)
    requires (elem == 2 || elem == 4 || elem == 8) && |s| == 16 * elem
    ensures RowsOf(s, elem, rows)
  {
    if elem == 2 { rows := Network16(s); } else if elem == 4 { rows := Network32(s); } else { rows := Network64(s); }
  }

  /** One round of the loop: sixteen elements. */
  method TransSixteen(a: array<bv8>, out: array<bv8>, size: nat, elem: nat, ii: nat)
    requires a != out && a.Length == out.Length == size * elem && ii + 16 <= size
    requires elem == 2 || elem == 4 || elem == 8
    modifies out
    ensures ColumnsStored(a[..], old(out[..]), out[..], size, elem, ii, ii + 16)
  {
    SixteenInside(ii, size, elem);
    var s := a[elem * ii..elem * ii + 16 * elem];
    var rows := Network(s, elem);
    forall r: nat, t: nat | r < elem && t < 16
      ensures rows[r][t] == Cell(a[..], ii + t, elem, r)
    {
      assert a[elem * ii..elem * ii + 16 * elem] == a[..][elem * ii..elem * ii + 16 * elem];
      SixteenCell(a[..], elem, ii, r, t);
    }
    StoreRows(a, out, rows, size, elem, ii);
  }

  lemma SixteenInside(ii: nat, size: nat, elem: nat)
    requires ii + 16 <= size
    ensures elem * ii + 16 * elem <= size * elem
  {
    MulMonotone(ii + 16, size, elem);
  }

  lemma SixteenCell(a: seq<bv8>, elem: nat, ii: nat, r: nat, t: nat)
    requires r < elem && t < 16 && elem * ii + 16 * elem <= |a| && (elem == 2 || elem == 4 || elem == 8)
    ensures a[elem * ii..elem * ii + 16 * elem][elem * t + r] == Cell(a, ii + t, elem, r)
  {
    AtProduct(ii + t, elem, r);
    assert (ii + t) * elem + r == elem * ii + (elem * t + r);
  }

  /** The vector loop, up to the last multiple of sixteen. */
  method TransSixteens(a: array<bv8>, out: array<bv8>, size: nat, elem: nat)
    requires a != out && a.Length == out.Length == size * elem
    requires elem == 2 || elem == 4 || elem == 8
    modifies out
    ensures ColumnsStored(a[..], old(out[..]), out[..], size, elem, 0, size - size % 16)
  {
    var ii := 0;
    while ii + 15 < size
      invariant ii <= size && ii % 16 == 0
      invariant ColumnsStored(a[..], old(out[..]), out[..], size, elem, 0, ii)
    {
      ghost var mid := out[..];
      TransSixteen(a, out, size, elem, ii);
      ColumnsExtend(a[..], old(out[..]), mid, out[..], size, elem, 0, ii, ii + 16);
      ii := ii + 16;
    }
  }

  /** `bshuf_trans_byte_elem_SSE_16`, `_32` and `_64`. */
  method TransByteElemPower(a: array<bv8>, out: array<bv8>, size: nat, elem: nat) returns (count: int)
    requires a != out && a.Length == out.Length == size * elem
    requires elem == 2 || elem == 4 || elem == 8
    modifies out
    ensures count == size * elem
    ensures ByteTransposed(a[..], out[..], size, elem)
  {
    ghost var was := out[..];
    TransSixteens(a, out, size, elem);
    ghost var mid := out[..];
    count := TransByteElemRemainder(a, out, size, elem, size - size % 16);
    ColumnsExtend(a[..], was, mid, out[..], size, elem, 0, size - size % 16, size);
    ColumnsAll(a[..], was, out[..], size, elem);
  }

  lemma ColumnsAll(a: seq<bv8>, was: seq<bv8>, now: seq<bv8>, n: nat, e: nat)
    requires ColumnsStored(a, was, now, n, e, 0, n)
    ensures ByteTransposed(a, now, n, e)
  {
  }

  ghost predicate EntryStored(a: seq<bv8>, b: seq<bv8>, lda: nat, ldb: nat, width: nat, i: nat, j: nat) {
    forall t: nat :: t < width ==> Cell(b, At(j, lda, i), width, t) == Cell(a, At(i, ldb, j), width, t)
  }

  /** One assignment of TRANS_ELEM_TYPE. */
  method TransEntry(a: array<bv8>, out: array<bv8>, lda: nat, ldb: nat, width: nat, ii: nat, jj: nat)
    requires a != out && a.Length == out.Length == lda * ldb * width && ii < lda && jj < ldb
    modifies out
    ensures EntryStored(a[..], out[..], lda, ldb, width, ii, jj)
    ensures forall i: nat, j: nat :: i < lda && j < ldb && EntryStored(a[..], old(out[..]), lda, ldb, width, i, j) ==>
              EntryStored(a[..], out[..], lda, ldb, width, i, j)
  {
    AtBound(ii, ldb, jj, lda);
    AtBound(jj, lda, ii, ldb);
    CopyEntry(a, At(ii, ldb, jj), out, At(jj, lda, ii), width, lda * ldb);
    forall i: nat, j: nat | i < lda && j < ldb && EntryStored(a[..], old(out[..]), lda, ldb, width, i, j)
      ensures EntryStored(a[..], out[..], lda, ldb, width, i, j)
    {
      if At(j, lda, i) == At(jj, lda, ii) { AtInjective(j, i, jj, ii, lda); }
    }
  }

  method TransEntries(a: array<bv8>, out: array<bv8>, lda: nat, ldb: nat, width: nat, ii: nat, g: nat)
    requires a != out && a.Length == out.Length == lda * ldb * width && ii + g <= lda
    requires forall i: nat, j: nat :: i < ii && j < ldb ==> EntryStored(a[..], out[..], lda, ldb, width, i, j)
    modifies out
    ensures forall i: nat, j: nat :: i < ii + g && j < ldb ==> EntryStored(a[..], out[..], lda, ldb, width, i, j)
  {
    for jj := 0 to ldb
      invariant forall i: nat, j: nat :: i < ii && j < ldb ==> EntryStored(a[..], out[..], lda, ldb, width, i, j)
      invariant forall i: nat, j: nat :: ii <= i < ii + g && j < jj ==>
                EntryStored(a[..], out[..], lda, ldb, width, i, j)
    {
      for kk := 0 to g
        invariant forall i: nat, j: nat :: i < ii && j < ldb ==> EntryStored(a[..], out[..], lda, ldb, width, i, j)
        invariant forall i: nat, j: nat :: ii <= i < ii + g && j < jj ==>
                  EntryStored(a[..], out[..], lda, ldb, width, i, j)
        invariant forall i: nat :: ii <= i < ii + kk ==> EntryStored(a[..], out[..], lda, ldb, width, i, jj)
      {
        TransEntry(a, out, lda, ldb, width, ii + kk, jj);
      }
    }
  }

  /** TRANS_ELEM_TYPE: like `TransElem`, eight rows at a time. */
  method TransElemType(a: array<bv8>, out: array<bv8>, lda: nat, ldb: nat, width: nat)
    requires a != out && a.Length == out.Length == lda * ldb * width
    modifies out
    ensures RowsTransposed(a[..], out[..], lda, ldb, width)
  {
    var ii := 0;
    while ii + 7 < lda
      invariant ii <= lda && ii % 8 == 0
      invariant forall i: nat, j: nat :: i < ii && j < ldb ==> EntryStored(a[..], out[..], lda, ldb, width, i, j)
    {
      TransEntries(a, out, lda, ldb, width, ii, 8);
      ii := ii + 8;
    }
    assert ii == lda - lda % 8;
    while ii < lda
      invariant ii <= lda
      invariant forall i: nat, j: nat :: i < ii && j < ldb ==> EntryStored(a[..], out[..], lda, ldb, width, i, j)
    {
      TransEntries(a, out, lda, ldb, width, ii, 1);
      ii := ii + 1;
    }
    forall i: nat, j: nat, t: nat | i < lda && j < ldb && t < width
      ensures Cell(out[..], At(j, lda, i), width, t) == Cell(a[..], At(i, ldb, j), width, t)
    {
      assert EntryStored(a[..], out[..], lda, ldb, width, i, j);
    }
  }

  lemma HierarchyRows(b: seq<bv8>, t: seq<bv8>, s: seq<bv8>, n: nat, chunks: nat, width: nat, i: nat, j: nat, r: nat)
    requires ByteTransposed(b, t, chunks * n, width) && RowsTransposed(t, s, width, chunks, n)
    requires i < n && j < chunks && r < width
    ensures Cell(s, At(j, width, r), n, i) == Cell(b, At(j, n, i), width, r)
  {
    assert Cell(s, At(j, width, r), n, i) == Cell(t, At(r, chunks, j), n, i);
    assert Cell(t, At(r, chunks, j), n, i) == Cell(t, r, chunks * n, At(j, n, i)) by { AtNested(r, chunks, j, n, i); }
    AtBound(j, n, i, chunks);
  }

  /** Wide elements first, then the bytes of these, then the rows of the chunks: the
      same as transposing the bytes directly. */
  lemma HierarchyCell(a: seq<bv8>, b: seq<bv8>, t: seq<bv8>, s: seq<bv8>, n: nat, chunks: nat, width: nat,
                      i: nat, j: nat, r: nat)
    requires RowsTransposed(a, b, n, chunks, width) && ByteTransposed(b, t, chunks * n, width)
    requires RowsTransposed(t, s, width, chunks, n)
    requires i < n && j < chunks && r < width
    ensures Cell(s, At(j, width, r), n, i) == Cell(a, i, chunks * width, At(j, width, r))
  {
    HierarchyRows(b, t, s, n, chunks, width, i, j, r);
    assert Cell(b, At(j, n, i), width, r) == Cell(a, At(i, chunks, j), width, r);
    AtNested(i, chunks, j, width, r);
  }

  lemma HierarchyTransposes(a: seq<bv8>, b: seq<bv8>, t: seq<bv8>, s: seq<bv8>, n: nat, chunks: nat, width: nat)
    requires RowsTransposed(a, b, n, chunks, width) && ByteTransposed(b, t, chunks * n, width)
    requires RowsTransposed(t, s, width, chunks, n)
    ensures ByteTransposed(a, s, n, chunks * width)
  {
    forall i: nat, k: nat | i < n && k < chunks * width
      ensures Cell(s, k, n, i) == Cell(a, i, chunks * width, k)
    {
      var j, r := AtCovers(k, width, chunks);
      HierarchyCell(a, b, t, s, n, chunks, width, i, j, r);
    }
  }

  /** `bshuf_trans_byte_elem_SSE`: the best way for each element size. */
  method TransByteElemSse(a: array<bv8>, out: array<bv8>, size: nat, elem: nat) returns (count: int)
    requires a != out && a.Length == out.Length == size * elem
    modifies out
    ensures count == size * elem
    ensures ByteTransposed(a[..], out[..], size, elem)
  {
    if elem == 1 {
      CopyAll(a, out);
      forall i: nat, j: nat | i < size && j < 1
        ensures Cell(out[..], j, size, i) == Cell(a[..], i, 1, j)
      {
        AtProduct(i, 1, j);
      }
      return size * elem;
    }
    if elem == 2 || elem == 4 || elem == 8 {
      count := TransByteElemPower(a, out, size, elem);
      return;
    }
    if elem % 4 != 0 {
      count := TransByteElemScal(a, out, size, elem);
      return;
    }
    var width := if elem % 8 == 0 then 8 else 4;
    var chunks := elem / width;
    var tmp := new bv8[size * elem];
    assert elem == chunks * width;
    Products(size, chunks, width);
    TransElemType(a, out, size, chunks, width);
    ghost var b := out[..];
    count := TransByteElemPower(out, tmp, chunks * size, width);
    ghost var t := tmp[..];
    var _ := TransElem(tmp, out, width, chunks, size);
    HierarchyTransposes(a[..], b, t, out[..], size, chunks, width);
  }

  lemma Products(n: nat, chunks: nat, width: nat)
    ensures n * (chunks * width) == n * chunks * width == chunks * n * width == width * chunks * n
  {
  }

  /** `bshuf_copy`. */
  method CopyAll(a: array<bv8>, out: array<bv8>)
    requires a != out && a.Length == out.Length
    modifies out
    ensures out[..] == a[..]
  {
    for p := 0 to a.Length
      invariant forall i :: 0 <= i < p ==> out[i] == a[i]
    {
      out[p] := a[p];
    }
  }

  // ---- The drivers of the AVX2 build ----

  /** `bshuf_trans_bit_elem_AVX` for `width == 32`, `bshuf_trans_bit_elem_SSE` for
      `width == 16`: the result is that of `TransBitElemScal`. */
  method TransBitElemVector(a: array<bv8>, out: array<bv8>, size: nat, elem: nat, width: nat) returns (count: int)
    requires a != out && a.Length == out.Length == size * elem && (width == 16 || width == 32)
    modifies out
    ensures count == if size % 8 == 0 then size * elem else -80
    ensures count >= 0 ==> out[..] == Shuffle(a[..], size / 8, elem)
  {
    if size % 8 != 0 { return -80; }
    var tmp := new bv8[size * elem];
    ghost var q := size / 8;
    assert size * elem == 8 * q * elem == 8 * elem * q;
    assert elem * size / 8 == elem * q && elem * size % 8 == 0 by {
      assert elem * size == 8 * (elem * q);
    }
    count := TransByteElemSse(a, out, size, elem);
    ghost var b := out[..];
    count := TransBitByteVector(out, tmp, size, elem, width);
    ghost var t := tmp[..];
    count := TransElem(tmp, out, 8, elem, size / 8);
    TransComposes(a[..], b, t, out[..], q, elem);
  }

  /** All words of the blocks below `blocks` are in place. */
  ghost predicate BlocksDone(a: seq<bv8>, b: seq<bv8>, e: nat, blocks: nat, words: nat) {
    forall m: nat, j: nat :: m < blocks && j < words ==> BlockWordTransposed(a, b, e, m, j)
  }

  /** One vector of `bshuf_shuffle_bit_eightelem_SSE` or `_AVX`; what was done stays. */
  method StoreBlockVector(a: array<bv8>, out: array<bv8>, blocks: nat, e: nat, m: nat, j: nat, width: nat)
    requires a != out && a.Length == out.Length == 8 * blocks * e && m < blocks
    requires width % 8 == 0 && width > 0 && j + width / 8 <= e
    modifies out
    ensures forall i: nat :: j <= i < j + width / 8 ==> BlockWordTransposed(a[..], out[..], e, m, i)
    ensures forall m': nat, i: nat :: m' < blocks && i < e && BlockWordTransposed(a[..], old(out[..]), e, m', i) ==>
              BlockWordTransposed(a[..], out[..], e, m', i)
  {
    ghost var was := out[..];
    MoveBlock(a, out, blocks, e, m, j, width);
    forall m': nat, i: nat | m' < blocks && i < e && BlockWordTransposed(a[..], was, e, m', i)
      ensures BlockWordTransposed(a[..], out[..], e, m', i)
    {
      if m' != m || i < j || j + width / 8 <= i { BlockWordKept(a[..], was, out[..], e, m', i); }
    }
  }

  /** The words of block `m`, two at a time. */
  method StoreBlockRow(a: array<bv8>, out: array<bv8>, blocks: nat, e: nat, m: nat)
    requires a != out && a.Length == out.Length == 8 * blocks * e && m < blocks && e % 2 == 0
    requires BlocksDone(a[..], out[..], e, m, e)
    modifies out
    ensures BlocksDone(a[..], out[..], e, m + 1, e)
  {
    var j := 0;
    while j < e
      invariant j <= e && j % 2 == 0
      invariant BlocksDone(a[..], out[..], e, m, e)
      invariant forall i: nat :: i < j ==> BlockWordTransposed(a[..], out[..], e, m, i)
    {
      StoreBlockVector(a, out, blocks, e, m, j, 16);
      j := j + 2;
    }
  }

  /** Four words of every block. */
  method StoreBlockColumns(a: array<bv8>, out: array<bv8>, blocks: nat, e: nat, j: nat)
    requires a != out && a.Length == out.Length == 8 * blocks * e && j + 4 <= e
    requires BlocksDone(a[..], out[..], e, blocks, j)
    modifies out
    ensures BlocksDone(a[..], out[..], e, blocks, j + 4)
  {
    for m := 0 to blocks
      invariant BlocksDone(a[..], out[..], e, blocks, j)
      invariant BlocksDone(a[..], out[..], e, m, j + 4)
    {
      StoreBlockVector(a, out, blocks, e, m, j, 32);
    }
  }

  lemma EightBlocks(size: nat, e: nat)
    requires size % 8 == 0
    ensures size * e == 8 * (size / 8) * e
  {
  }

  /** `bshuf_shuffle_bit_eightelem_SSE`: blocks in the outer loop, words in the inner one. */
  method ShuffleBitEightelemSse(a: array<bv8>, out: array<bv8>, size: nat, elem: nat) returns (count: int)
    requires a != out && a.Length == out.Length == size * elem
    modifies out
    ensures count == if size % 8 == 0 then size * elem else -80
    ensures count >= 0 ==> BlocksDone(a[..], out[..], elem, size / 8, elem)
  {
    if size % 8 != 0 { return -80; }
    if elem % 2 != 0 {
      count := ShuffleBitEightelemScal(a, out, size, elem);
      return;
    }
    count := a.Length;
    EightBlocks(size, elem);
    for m := 0 to size / 8
      invariant BlocksDone(a[..], out[..], elem, m, elem)
    {
      StoreBlockRow(a, out, size / 8, elem, m);
    }
  }

  /** `bshuf_shuffle_bit_eightelem_AVX`: words in the outer loop, blocks in the inner one. */
  method ShuffleBitEightelemAvx(a: array<bv8>, out: array<bv8>, size: nat, elem: nat) returns (count: int)
    requires a != out && a.Length == out.Length == size * elem
    modifies out
    ensures count == if size % 8 == 0 then size * elem else -80
    ensures count >= 0 ==> BlocksDone(a[..], out[..], elem, size / 8, elem)
  {
    if size % 8 != 0 { return -80; }
    if elem % 4 != 0 {
      count := ShuffleBitEightelemSse(a, out, size, elem);
      return;
    }
    count := a.Length;
    EightBlocks(size, elem);
    var j := 0;
    while j < elem
      invariant j <= elem && j % 4 == 0
      invariant BlocksDone(a[..], out[..], elem, size / 8, j)
    {
      StoreBlockColumns(a, out, size / 8, elem, j);
      j := j + 4;
    }
  }

  /** `bshuf_untrans_bit_elem_AVX` with the scalar byte transpose of the rows. */
  method UntransBitElemVector(a: array<bv8>, out: array<bv8>, size: nat, elem: nat) returns (count: int)
    requires a != out && a.Length == out.Length == size * elem
    modifies out
    ensures count == if size % 8 == 0 then size * elem else -80
    ensures count >= 0 ==> out[..] == Unshuffle(a[..], size / 8, elem)
  {
    if size % 8 != 0 { return -80; }
    var tmp := new bv8[size * elem];
    count := TransByteBitrowScal(a, tmp, size, elem);
    count := ShuffleBitEightelemAvx(tmp, out, size, elem);
    assert size * elem == 8 * (size / 8) * elem;
    UntransComposes(a[..], tmp[..], out[..], size / 8, elem);
  }
}
