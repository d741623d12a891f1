/** How a Gigafrost module frame is cut into packets (`gigafrost.hpp` and the head of the
    receiver). */
module Geometry {
  import opened Arith
  import opened FrameAssembly

  const PACKET_N_DATA_BYTES_MAX: nat := 7400

  /** `module_n_data_bytes`: twelve bits for each pixel. */
  function ModuleBytes(width: nat, height: nat): nat { width * height * 3 / 2 }

  /** `n_rows_per_packet` for a module of the given size. */
  function RowsPerPacket(width: nat, height: nat): nat
    requires width >= 12
  {
    var blocks := width / 12;
    Min(RowsIn(CacheLines(RowPairs(36 * blocks), blocks), width), height)
  }

  /** Two rows of twelve-pixel blocks take 36 bytes for each block. */
  function RowPairs(bytes: nat): nat
    requires bytes > 0
  {
    PACKET_N_DATA_BYTES_MAX / bytes
  }

  function CacheLines(k: nat, blocks: nat): nat { k * blocks / 2 }

  /** Each cache line holds 48 pixels. */
  function RowsIn(cacheLines: nat, width: nat): nat
    requires width > 0
  {
    cacheLines * 48 / width
  }

  /** The bytes of `rows` rows and of the padding behind them. */
  function PacketBytes(width: nat, rows: nat): nat {
    width * rows * 3 / 2 + (if rows % 2 == 1 && width % 48 != 0 then 36 else 0)
  }

  /** `n_packets_per_frame`, the quotient rounded up. */
  function Packets(height: nat, rows: nat): nat
    requires rows > 0
  {
    (height + rows - 1) / rows
  }

  function LastRows(height: nat, rows: nat): nat
    requires rows > 0
  {
    if height % rows == 0 then rows else height % rows
  }

  function FrameBytes(width: nat, height: nat, rows: nat): int
    requires rows > 0
  {
    PacketBytes(width, rows) * (Packets(height, rows) - 1) + PacketBytes(width, LastRows(height, rows))
  }

  // ---- Rows ----

  /** `4 * x / n` for half of an even or odd product. */
  lemma QuotientOfHalf(k: nat, n: nat)
    requires n >= 2 && k >= 1
    ensures k * n / 2 * 48 / (12 * n) == if k * n % 2 == 0 then 2 * k else 2 * k - 1
  {
    var p := k * n;
    var x := p / 2 * 48;
    if p % 2 == 0 {
      assert x == 24 * p;
      assert 24 * p == 2 * k * (12 * n);
      DivModUnique(x, 2 * k, 0, 12 * n);
    } else {
      assert x == 24 * p - 24;
      OddQuotient(k, n, x);
    }
  }

  lemma OddQuotient(k: nat, n: nat, x: int)
    requires n >= 2 && k >= 1 && x == 24 * (k * n) - 24
    ensures x / (12 * n) == 2 * k - 1
  {
    var c := 12 * n;
    assert (2 * k - 1) * c == 24 * (k * n) - c;
    DivModUnique(x, 2 * k - 1, c - 24, c);
  }

  /** Modules of `n` twelve-pixel blocks: how many rows the payload has room for. */
  lemma RowsAre(n: nat, height: nat)
    requires n >= 2 && 36 * n <= PACKET_N_DATA_BYTES_MAX
    ensures var k := PACKET_N_DATA_BYTES_MAX / (36 * n);
            k >= 1 && 36 * (n * k) <= PACKET_N_DATA_BYTES_MAX
            && RowsPerPacket(12 * n, height) == Min(if k * n % 2 == 0 then 2 * k else 2 * k - 1, height)
  {
    var d := 36 * n;
    var k := PACKET_N_DATA_BYTES_MAX / d;
    assert PACKET_N_DATA_BYTES_MAX == k * d + PACKET_N_DATA_BYTES_MAX % d;
    if k < 1 {
      assert false;
    }
    assert 12 * n / 12 == n;
    assert k * d == 36 * (n * k);
    QuotientOfHalf(k, n);
  }

  lemma Eighteen(n: nat, rows: nat)
    ensures 12 * n * rows * 3 / 2 == 18 * (n * rows)
  {
    assert 12 * n * rows == 12 * (n * rows);
  }

  lemma LessOne(n: nat, k: nat)
    ensures n * (2 * k - 1) == 2 * (n * k) - n && n * (2 * k) == 2 * (n * k)
  {
  }

  /** A packet, padding included, fits into the payload. */
  lemma PayloadFits(n: nat, k: nat, rows: nat)
    requires n >= 2 && 36 * (n * k) <= PACKET_N_DATA_BYTES_MAX && rows <= 2 * k
    ensures PacketBytes(12 * n, rows) <= PACKET_N_DATA_BYTES_MAX
  {
    Eighteen(n, rows);
    LessOne(n, k);
    if rows % 2 == 1 {
      MulMonotone(rows, 2 * k - 1, n);
    } else {
      MulMonotone(rows, 2 * k, n);
    }
  }

  lemma PaddedBy(x: nat)
    ensures (36 * x + (if x % 2 == 1 then 36 else 0)) % 72 == 0
  {
  }

  lemma {:induction false} OddProduct(m: nat, rows: nat)
    ensures m * rows % 2 == 1 <==> m % 2 == 1 && rows % 2 == 1
  {
    if m >= 2 {
      OddProduct(m - 2, rows);
      SameParity(m * rows, (m - 2) * rows, rows);
    }
  }

  lemma SameParity(x: int, y: int, n: int)
    requires x == y + 2 * n
    ensures x % 2 == y % 2
  {
  }

  /** The bytes on the wire: twelve bits for each pixel, rounded up to the next multiple of 72,
      for rows of whole halves of 48 pixels. */
  lemma PacketsPadded(m: nat, rows: nat)
    ensures PacketBytes(24 * m, rows) % 72 == 0
    ensures 0 <= PacketBytes(24 * m, rows) - 36 * (m * rows) < 72
    ensures ModuleBytes(24 * m, rows) == 36 * (m * rows)
  {
    Eighteen(2 * m, rows);
    assert 2 * m * rows == 2 * (m * rows);
    OddProduct(m, rows);
    assert 24 * m % 48 == 0 <==> m % 2 == 0;
    PaddedBy(m * rows);
  }

  /** The packets of a frame carry every row once. */
  lemma RowsAddUp(height: nat, rows: nat)
    requires rows > 0 && height > 0
    ensures Packets(height, rows) >= 1
    ensures 1 <= LastRows(height, rows) <= rows
    ensures (Packets(height, rows) - 1) * rows + LastRows(height, rows) == height
  {
    var q, r := height / rows, height % rows;
    assert height == q * rows + r;
    if r == 0 {
      assert q > 0;
      DivModUnique(height + rows - 1, q, rows - 1, rows);
      assert (q - 1) * rows == q * rows - rows;
    } else {
      assert height + rows - 1 == (q + 1) * rows + (r - 1) by { assert (q + 1) * rows == q * rows + rows; }
      DivModUnique(height + rows - 1, q + 1, r - 1, rows);
    }
  }

  /** For a module of `12 * n` by `height` pixels, at least one row fits into a packet, no
      packet is longer than the payload, and the rows of the packets add up to the module. */
  lemma PacketsAreSound(n: nat, height: nat)
    requires n >= 2 && 36 * n <= PACKET_N_DATA_BYTES_MAX && height >= 1
    ensures var rows := RowsPerPacket(12 * n, height);
            && 1 <= rows <= height
            && PacketBytes(12 * n, rows) <= PACKET_N_DATA_BYTES_MAX
            && PacketBytes(12 * n, LastRows(height, rows)) <= PACKET_N_DATA_BYTES_MAX
            && (Packets(height, rows) - 1) * rows + LastRows(height, rows) == height
  {
    var rows, k := RowsPerPacket(12 * n, height), PACKET_N_DATA_BYTES_MAX / (36 * n);
    RowsAre(n, height);
    RowsAddUp(height, rows);
    PayloadFits(n, k, rows);
    PayloadFits(n, k, LastRows(height, rows));
  }

  // ---- Bytes ----

  /** Where packet `i` starts: its first row times the bytes of a row. */
  function Start(width: nat, height: nat, rows: nat, i: nat): nat {
    Min(i * rows, height) * (width / 2 * 3)
  }

  function GigafrostLayout(width: nat, height: nat, rows: nat): Layout
    requires rows > 0
  {
    Layout(Packets(height, rows), i => Start(width, height, rows, i))
  }

  lemma Halved(width: nat, h: nat, rows: nat)
    requires width == 2 * h
    ensures width * rows * 3 / 2 == rows * (h * 3)
  {
    assert width * rows == 2 * (h * rows);
    assert rows * (h * 3) == 3 * (h * rows);
  }

  lemma NoPadding(width: nat, rows: nat)
    requires width % 48 == 0
    ensures PacketBytes(width, rows) == ModuleBytes(width, rows)
  {
  }

  lemma RowBytes(width: nat, rows: nat, h: nat)
    requires width == 2 * h
    ensures ModuleBytes(width, rows) == rows * (width / 2 * 3)
  {
    Halved(width, h, rows);
  }

  lemma WholeRows(width: nat, rows: nat)
    requires width % 48 == 0
    ensures PacketBytes(width, rows) == ModuleBytes(width, rows)
    ensures ModuleBytes(width, rows) == rows * (width / 2 * 3)
  {
    NoPadding(width, rows);
    RowBytes(width, rows, 24 * (width / 48));
  }

  lemma StartGrows(width: nat, height: nat, rows: nat, i: nat, j: nat)
    requires i <= j
    ensures Start(width, height, rows, i) <= Start(width, height, rows, j)
  {
    assert i * rows <= j * rows;
    var a, b, c := Min(i * rows, height), Min(j * rows, height), width / 2 * 3;
    MulMonotone(a, b, c);
  }

  lemma BeforeLast(height: nat, rows: nat, i: nat, p: nat)
    requires rows > 0 && p == Packets(height, rows) && i < p && height > 0
    ensures i * rows < height && (i + 1) * rows == i * rows + rows
    ensures i + 1 < p ==> (i + 1) * rows <= height
    ensures i + 1 == p ==> (i + 1) * rows >= height && height - i * rows == LastRows(height, rows)
  {
    RowsAddUp(height, rows);
    RowsBefore(i, p, rows, LastRows(height, rows), height);
  }

  lemma RowsBefore(i: nat, p: nat, rows: nat, last: nat, height: nat)
    requires i < p && 1 <= last <= rows && (p - 1) * rows + last == height
    ensures i * rows < height && (i + 1) * rows == i * rows + rows
    ensures i + 1 < p ==> (i + 1) * rows <= height
    ensures i + 1 == p ==> (i + 1) * rows >= height && height - i * rows == last
  {
    assert (i + 1) * rows == i * rows + rows;
    if i + 1 < p { MulGrows(i, p - 1, rows); }
  }

  lemma Difference(a: nat, b: nat, c: nat)
    requires a <= b
    ensures b * c - a * c == (b - a) * c
  {
  }

  /** When the module width is a multiple of 48 there is no padding: the packets tile the
      module's bytes, and a frame is as long as the module. */
  lemma PacketsTile(width: nat, height: nat, rows: nat)
    requires width % 48 == 0 && rows > 0 && height > 0
    ensures GigafrostLayout(width, height, rows).Valid()
    ensures var l := GigafrostLayout(width, height, rows);
            && l.off(l.n) == ModuleBytes(width, height) == FrameBytes(width, height, rows)
            && forall i: nat :: i < l.n ==>
                 l.off(i + 1) - l.off(i) == PacketBytes(width, if i == l.n - 1 then LastRows(height, rows) else rows)
  {
    var l, row := GigafrostLayout(width, height, rows), width / 2 * 3;
    RowsAddUp(height, rows);
    forall i, j | 0 <= i <= j <= l.n
      ensures l.off(i) <= l.off(j)
    {
      StartGrows(width, height, rows, i, j);
    }
    forall i: nat | i < l.n
      ensures l.off(i + 1) - l.off(i) == PacketBytes(width, if i == l.n - 1 then LastRows(height, rows) else rows)
    {
      BeforeLast(height, rows, i, l.n);
      WholeRows(width, rows);
      WholeRows(width, LastRows(height, rows));
      Difference(i * rows, Min((i + 1) * rows, height), row);
    }
    BeforeLast(height, rows, l.n - 1, l.n);
    WholeRows(width, height);
    FrameIsModule(width, height, rows);
  }

  /** `calculate_data_sizes` of the converter, whose last packet has no padding. */
  function ConverterBytes(width: nat, height: nat, rows: nat): int
    requires rows > 0
  {
    PacketBytes(width, rows) * (Packets(height, rows) - 1) + LastRows(height, rows) * width * 3 / 2
  }

  /** `get_data`: where the buffer that both processes map keeps image `id`. */
  function SlotAt(bytes: int, slots: nat, id: nat): int
    requires slots > 0
  {
    id % slots * bytes
  }

  /** Receiver and converter look for every image in the same place if and only if the last packet
      of a frame has no padding. */
  lemma SlotsAgree(width: nat, height: nat, rows: nat, slots: nat)
    requires rows > 0 && slots >= 2
    ensures (forall id: nat :: SlotAt(FrameBytes(width, height, rows), slots, id)
                               == SlotAt(ConverterBytes(width, height, rows), slots, id))
            <==> LastRows(height, rows) % 2 == 0 || width % 48 == 0
  {
    var f, c := FrameBytes(width, height, rows), ConverterBytes(width, height, rows);
    LastPacket(width, LastRows(height, rows));
    if f != c {
      DivModUnique(1, 0, 1, slots);
      assert SlotAt(f, slots, 1) == f && SlotAt(c, slots, 1) == c;
    }
  }

  lemma LastPacket(width: nat, rows: nat)
    ensures PacketBytes(width, rows) - rows * width * 3 / 2 == if rows % 2 == 1 && width % 48 != 0 then 36 else 0
  {
    assert rows * width == width * rows;
  }

  /** A module of 24 by 205 pixels: one packet of 204 rows and one of a single row, for which the
      receiver reserves 36 bytes more than the converter. */
  lemma OddLastRow()
    ensures RowsPerPacket(24, 205) == 204 && LastRows(205, 204) == 1
    ensures FrameBytes(24, 205, 204) == ConverterBytes(24, 205, 204) + 36
  {
  }

  lemma SumOfRows(p: nat, rows: nat, last: nat, row: nat)
    ensures rows * row * p + last * row == (p * rows + last) * row
  {
    assert rows * row * p == p * rows * row;
  }

  lemma FrameIsModule(width: nat, height: nat, rows: nat)
    requires width % 48 == 0 && rows > 0 && height > 0
    ensures FrameBytes(width, height, rows) == ModuleBytes(width, height)
  {
    RowsAddUp(height, rows);
    WholeRows(width, rows);
    WholeRows(width, LastRows(height, rows));
    WholeRows(width, height);
    SumOfRows(Packets(height, rows) - 1, rows, LastRows(height, rows), width / 2 * 3);
  }
}
