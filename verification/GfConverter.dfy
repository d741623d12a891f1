/** The Gigafrost converter (`converter.cpp`): eight modules, two for each quadrant, send
    every second row of their quadrant, starting at the middle of the image; the converter
    scatters their rows into one image. */
module GfConverter {
  import opened Arith
  import opened Grid
  import opened PixelPacking

  datatype Quadrant = SW | SE | NW | NE
  {
    predicate North() { this == NW || this == NE }
    predicate East() { this == SE || this == NE }
  }

  /** `calculate_start_index`. */
  function StartIndex(id: nat, q: Quadrant, h: nat, w: nat): int {
    match q
    case SW => h / 2 * w + (if id % 2 != 0 then w else 0)
    case SE => h / 2 * w + w / 2 + (if id % 2 != 0 then w else 0)
    case NW => (h - 1) / 2 * w - (if id % 2 != 0 then w else 0)
    case NE => (h - 1) / 2 * w + w / 2 - (if id % 2 != 0 then w else 0)
  }

  /** `calculate_row_jump`. */
  function RowJump(q: Quadrant, w: nat): int {
    2 * w * (if q.North() then -1 else 1)
  }

  // ---- Which pixel belongs to which module ----

  /** Rows between the middle of the image and row `y`, on the side of the quadrant. */
  function Depth(q: Quadrant, h: nat, y: nat): int {
    if q.North() then h / 2 - 1 - y else y - h / 2
  }

  function Offset(q: Quadrant, w: nat): nat {
    if q.East() then w / 2 else 0
  }

  /** Module `m` of quadrant `q` sends the pixel in row `y` and column `x`. */
  predicate Mine(q: Quadrant, m: nat, h: nat, w: nat, y: nat, x: nat) {
    && Depth(q, h, y) >= 0 && Depth(q, h, y) % 2 == m
    && Offset(q, w) <= x < Offset(q, w) + w / 2
  }

  /** The row of the image that holds row `r` of a module. */
  function ImageRow(q: Quadrant, m: nat, h: nat, r: nat): int {
    if q.North() then h / 2 - 1 - (2 * r + m) else h / 2 + (2 * r + m)
  }

  lemma RowOfModule(q: Quadrant, m: nat, h: nat, w: nat, r: nat, y: nat, x: nat)
    requires h % 4 == 0 && m < 2
    ensures r < h / 4 ==> 0 <= ImageRow(q, m, h, r) < h
    ensures (Mine(q, m, h, w, y, x) && Depth(q, h, y) / 2 == r)
            <==> (y == ImageRow(q, m, h, r) && Offset(q, w) <= x < Offset(q, w) + w / 2)
  {
  }

  lemma SameOwner(h: nat, w: nat, y: nat, x: nat, q: Quadrant, m: nat, q': Quadrant, m': nat)
    requires Mine(q, m, h, w, y, x) && Mine(q', m', h, w, y, x)
    ensures q == q' && m == m'
  {
    assert q.North() == q'.North() && q.East() == q'.East();
  }

  lemma Quarters(h: nat)
    requires h % 4 == 0
    ensures h / 2 == 2 * (h / 4) && h == 4 * (h / 4)
  {
  }

  lemma SomeOwner(h: nat, w: nat, y: nat, x: nat) returns (q: Quadrant, m: nat)
    requires h % 4 == 0 && w % 4 == 0 && y < h && x < w
    ensures m < 2 && Mine(q, m, h, w, y, x)
  {
    Quarters(h);
    Quarters(w);
    q := if y < h / 2 then (if x < w / 2 then NW else NE) else (if x < w / 2 then SW else SE);
    m := Depth(q, h, y) % 2;
  }

  lemma DepthBelow(q: Quadrant, h: nat, y: nat)
    requires h % 4 == 0 && y < h && Depth(q, h, y) >= 0
    ensures Depth(q, h, y) / 2 < h / 4
  {
    Quarters(h);
  }

  /** Every pixel belongs to exactly one of the eight modules. */
  lemma OwnerOf(h: nat, w: nat, y: nat, x: nat) returns (q: Quadrant, m: nat)
    requires h % 4 == 0 && w % 4 == 0 && y < h && x < w
    ensures m < 2 && Mine(q, m, h, w, y, x)
    ensures Depth(q, h, y) / 2 < h / 4
    ensures forall q': Quadrant, m': nat :: Mine(q', m', h, w, y, x) ==> q' == q && m' == m
  {
    q, m := SomeOwner(h, w, y, x);
    DepthBelow(q, h, y);
    forall q': Quadrant, m': nat | Mine(q', m', h, w, y, x)
      ensures q' == q && m' == m
    {
      SameOwner(h, w, y, x, q, m, q', m');
    }
  }

  /** The index arithmetic of `convert` leads to that row. */
  lemma RowStart(q: Quadrant, id: nat, h: nat, w: nat, r: nat)
    requires h % 4 == 0 && r < h / 4
    ensures ImageRow(q, id % 2, h, r) >= 0
    ensures RowJump(q, w) * r + StartIndex(id, q, h, w) == At(ImageRow(q, id % 2, h, r), w, Offset(q, w))
  {
    var y, m := ImageRow(q, id % 2, h, r), id % 2;
    AtProduct(y, w, Offset(q, w));
    if q.North() {
      assert (h - 1) / 2 == h / 2 - 1;
      NorthRow(h / 2 - 1, m, r, w);
    } else {
      SouthRow(h / 2, m, r, w);
    }
  }

  lemma NorthRow(top: int, m: nat, r: nat, w: nat)
    requires m < 2
    ensures 2 * w * -1 * r + (top * w - (if m != 0 then w else 0)) == (top - (2 * r + m)) * w
  {
    assert 2 * w * -1 * r == -(2 * r * w);
    assert (top - (2 * r + m)) * w == top * w - 2 * r * w - m * w;
  }

  lemma SouthRow(top: int, m: nat, r: nat, w: nat)
    requires m < 2
    ensures 2 * w * 1 * r + (top * w + (if m != 0 then w else 0)) == (top + (2 * r + m)) * w
  {
    assert 2 * w * 1 * r == 2 * r * w;
    assert (top + (2 * r + m)) * w == top * w + 2 * r * w + m * w;
  }

  // ---- Images ----

  /** The pixel in row `y` and column `x`. */
  function Pix(image: seq<nat>, y: nat, w: nat, x: nat): nat {
    if At(y, w, x) < |image| then image[At(y, w, x)] else 0
  }

  lemma PixUpdate(s: seq<nat>, y: nat, x: nat, w: nat, v: nat)
    requires x < w && At(y, w, x) < |s|
    ensures forall y': nat, x': nat {:trigger Pix(s[At(y, w, x) := v], y', w, x')} :: x' < w ==>
              Pix(s[At(y, w, x) := v], y', w, x') == if y' == y && x' == x then v else Pix(s, y', w, x')
  {
    forall y': nat, x': nat | x' < w
      ensures Pix(s[At(y, w, x) := v], y', w, x') == if y' == y && x' == x then v else Pix(s, y', w, x')
    {
      if At(y', w, x') == At(y, w, x) { AtInjective(y, x, y', x', w); }
    }
  }

  lemma SameImages(a: seq<nat>, b: seq<nat>, h: nat, w: nat)
    requires |a| == |b| == h * w
    requires forall y: nat, x: nat :: y < h && x < w ==> Pix(a, y, w, x) == Pix(b, y, w, x)
    ensures a == b
  {
    forall p | 0 <= p < |a|
      ensures a[p] == b[p]
    {
      var y, x := AtCovers(p, w, h);
      assert Pix(a, y, w, x) == Pix(b, y, w, x);
    }
  }

  /** What the pixel in row `y` and column `x` is once the rows of the module below `rows` have
      been written to the image `was`; they are `w / 2` pixels long. */
  function Expected(bytes: seq<nat>, was: seq<nat>, q: Quadrant, m: nat, h: nat, w: nat, rows: nat, y: nat,
                    x: nat): nat {
    if Mine(q, m, h, w, y, x) && Depth(q, h, y) / 2 < rows
    then Pixel(bytes, At(Depth(q, h, y) / 2, w / 2, x - Offset(q, w)))
    else Pix(was, y, w, x)
  }

  ghost predicate RowsConverted(bytes: seq<nat>, was: seq<nat>, now: seq<nat>, q: Quadrant, m: nat, h: nat, w: nat,
                                rows: nat)
  {
    && |now| == |was|
    && forall y: nat, x: nat :: y < h && x < w ==> Pix(now, y, w, x) == Expected(bytes, was, q, m, h, w, rows, y, x)
  }

  ghost predicate Converted(bytes: seq<nat>, was: seq<nat>, now: seq<nat>, q: Quadrant, m: nat, h: nat, w: nat) {
    RowsConverted(bytes, was, now, q, m, h, w, h / 4)
  }

  // ---- The loops ----

  /** Two pixels of a row, side by side. */
  method StorePair(output: array<nat>, ghost h: nat, ghost w: nat, ghost y: nat, ghost x: nat, j: nat, p: nat, p': nat)
    requires output.Length == h * w && y < h && x + 1 < w && j == At(y, w, x)
    modifies output
    ensures forall y': nat, x': nat :: y' < h && x' < w ==>
              Pix(output[..], y', w, x') == if y' == y && x' == x then p else if y' == y && x' == x + 1 then p'
                                            else Pix(old(output[..]), y', w, x')
  {
    ghost var was := output[..];
    AtNext(y, w, x);
    AtBound(y, w, x, h);
    AtBound(y, w, x + 1, h);
    output[j] := p;
    ghost var half := output[..];
    assert half == was[At(y, w, x) := p];
    PixUpdate(was, y, x, w, p);
    output[j + 1] := p';
    assert output[..] == half[At(y, w, x + 1) := p'];
    PixUpdate(half, y, x + 1, w, p');
  }

  lemma {:induction false} AtNext(y: nat, w: nat, x: nat)
    ensures At(y, w, x + 1) == At(y, w, x) + 1
  {
    if y > 0 { AtNext(y - 1, w, x); }
  }

  lemma {:induction false} AtPlus(y: nat, w: nat, x: nat, d: nat)
    ensures At(y, w, x + d) == At(y, w, x) + d
  {
    if y > 0 { AtPlus(y - 1, w, x, d); }
  }

  /** The first `n` pixels of row `y` are those of the stream from `first` on; nothing else
      has changed. */
  ghost predicate RowStarted(bytes: seq<nat>, was: seq<nat>, now: seq<nat>, h: nat, w: nat, y: nat, off: nat,
                             first: nat, n: nat) {
    forall y': nat, x: nat :: y' < h && x < w ==>
      Pix(now, y', w, x) == if y' == y && off <= x < off + n then Pixel(bytes, first + (x - off))
          else Pix(was, y', w, x)
  }

  /** The inner loop of `convert`: `2 * n` pixels of the module go to `startRow`. */
  method ConvertRow(bytes: seq<nat>, output: array<nat>, ghost h: nat, ghost w: nat, n: nat, ghost y: nat,
                    ghost off: nat,
                    startRow: nat, first: nat) returns (i: nat)
    requires AllBytes(bytes) && output.Length == h * w && y < h && off + 2 * n <= w
    requires startRow == At(y, w, off) && 3 * (first + n) <= |bytes|
    modifies output
    ensures i == first + n
    ensures RowStarted(bytes, old(output[..]), output[..], h, w, y, off, 2 * first, 2 * n)
  {
    var j := startRow;
    i := first;
    ghost var c := 0;
    ghost var was := output[..];
    while j < startRow + 2 * n
      invariant c <= n && j == startRow + 2 * c && i == first + c
      invariant RowStarted(bytes, was, output[..], h, w, y, off, 2 * first, 2 * c)
    {
      ghost var before := output[..];
      var p, p' := ReadHandle(bytes, i);
      AtPlus(y, w, off, 2 * c);
      StorePair(output, h, w, y, off + 2 * c, j, p, p');
      TwoMore(bytes, was, before, output[..], h, w, y, off, 2 * first, 2 * c, p, p');
      c := c + 1;
      i, j := i + 1, j + 2;
    }
  }

  lemma TwoMore(bytes: seq<nat>, was: seq<nat>, before: seq<nat>, now: seq<nat>, h: nat, w: nat, y: nat, off: nat,
                first: nat,
                n: nat, p: nat, p': nat)
    requires RowStarted(bytes, was, before, h, w, y, off, first, n)
    requires p == Pixel(bytes, first + n) && p' == Pixel(bytes, first + n + 1)
    requires forall y': nat, x: nat :: y' < h && x < w ==>
               Pix(now, y', w, x) == if y' == y && x == off + n then p else if y' == y && x == off + n + 1 then p'
                                     else Pix(before, y', w, x)
    ensures RowStarted(bytes, was, now, h, w, y, off, first, n + 2)
  {
  }

  /** `Converter::convert`. */
  method Convert(bytes: seq<nat>, output: array<nat>, h: nat, w: nat, q: Quadrant, id: nat)
    requires h % 4 == 0 && w % 4 == 0 && output.Length == h * w
    requires AllBytes(bytes) && |bytes| >= 3 * At(h / 4, w / 4, 0)
    modifies output
    ensures Converted(bytes, old(output[..]), output[..], q, id % 2, h, w)
  {
    var startIndex, rowJump := StartIndex(id, q, h, w), RowJump(q, w);
    var i := 0;
    ghost var was := output[..];
    for row := 0 to h / 4
      invariant i == At(row, w / 4, 0)
      invariant RowsConverted(bytes, was, output[..], q, id % 2, h, w, row)
    {
      ghost var before := output[..];
      RowFacts(q, id, h, w, row, i);
      i := ConvertRow(bytes, output, h, w, w / 4, ImageRow(q, id % 2, h, row), Offset(q, w),
                      rowJump * row + startIndex, i);
      OneMoreRow(bytes, was, before, output[..], q, id % 2, h, w, row);
    }
  }

  lemma RowFacts(q: Quadrant, id: nat, h: nat, w: nat, row: nat, i: nat)
    requires h % 4 == 0 && w % 4 == 0 && row < h / 4 && i == At(row, w / 4, 0)
    ensures 0 <= ImageRow(q, id % 2, h, row) < h && Offset(q, w) + 2 * (w / 4) <= w
    ensures RowJump(q, w) * row + StartIndex(id, q, h, w) == At(ImageRow(q, id % 2, h, row), w, Offset(q, w))
    ensures i + w / 4 == At(row + 1, w / 4, 0) <= At(h / 4, w / 4, 0)
    ensures 2 * i == At(row, w / 2, 0) && 2 * (w / 4) == w / 2
  {
    assert 0 <= ImageRow(q, id % 2, h, row) < h by { RowOfModule(q, id % 2, h, w, row, 0, 0); }
    RowStart(q, id, h, w, row);
    HandlesLeft(row, h / 4, w / 4);
    Quarters(w);
    AtDouble(row, w / 4, 0);
  }

  lemma {:induction false} HandlesLeft(row: nat, rows: nat, n: nat)
    requires row < rows
    ensures At(row, n, 0) + n <= At(rows, n, 0) && At(row + 1, n, 0) == At(row, n, 0) + n
  {
    if row + 1 < rows { HandlesLeft(row, rows - 1, n); }
  }

  lemma OneMoreRow(bytes: seq<nat>, was: seq<nat>, before: seq<nat>, now: seq<nat>, q: Quadrant, m: nat, h: nat,
                   w: nat, row: nat)
    requires h % 4 == 0 && m < 2 && row < h / 4 && |now| == |before|
    requires RowsConverted(bytes, was, before, q, m, h, w, row)
    requires ImageRow(q, m, h, row) >= 0
    requires w % 4 == 0
    requires RowStarted(bytes, before, now, h, w, ImageRow(q, m, h, row), Offset(q, w), At(row, w / 2, 0), w / 2)
    ensures RowsConverted(bytes, was, now, q, m, h, w, row + 1)
  {
    forall y: nat, x: nat | y < h && x < w
      ensures Pix(now, y, w, x) == Expected(bytes, was, q, m, h, w, row + 1, y, x)
    {
      OneMoreRowAt(bytes, was, q, m, h, w, row, y, x);
    }
  }

  lemma OneMoreRowAt(bytes: seq<nat>, was: seq<nat>, q: Quadrant, m: nat, h: nat, w: nat, row: nat, y: nat, x: nat)
    requires h % 4 == 0 && m < 2
    ensures Expected(bytes, was, q, m, h, w, row + 1, y, x)
            == if y == ImageRow(q, m, h, row) && Offset(q, w) <= x < Offset(q, w) + w / 2
               then Pixel(bytes, At(row, w / 2, 0) + (x - Offset(q, w)))
               else Expected(bytes, was, q, m, h, w, row, y, x)
  {
    RowOfModule(q, m, h, w, row, y, x);
    if Offset(q, w) <= x { AtPlus(row, w / 2, 0, x - Offset(q, w)); }
  }

  // ---- Eight modules, one image ----

  /** Row `r` of a module. */
  function ModuleRow(image: seq<nat>, q: Quadrant, m: nat, h: nat, w: nat, r: nat): (row: seq<nat>)
    requires ImageRow(q, m, h, r) >= 0
    ensures |row| == w / 2
  {
    seq<nat>(w / 2, t requires 0 <= t < w / 2 => Pix(image, ImageRow(q, m, h, r), w, Offset(q, w) + t))
  }

  /** The pixels a module sends, row after row. */
  function ModulePixels(image: seq<nat>, q: Quadrant, m: nat, h: nat, w: nat, rows: nat): (pixels: seq<nat>)
    requires h % 4 == 0 && m < 2 && rows <= h / 4
    ensures |pixels| == At(rows, w / 2, 0)
  {
    if rows == 0 then [] else
      HandlesLeft(rows - 1, rows, w / 2);
      ModulePixels(image, q, m, h, w, rows - 1) + ModuleRow(image, q, m, h, w, rows - 1)
  }

  lemma {:induction false} ModulePixelAt(image: seq<nat>, q: Quadrant, m: nat, h: nat, w: nat, rows: nat, r: nat,
                                         t: nat)
    requires h % 4 == 0 && m < 2 && r < rows <= h / 4 && t < w / 2
    ensures At(r, w / 2, t) < At(rows, w / 2, 0) && ImageRow(q, m, h, r) >= 0
    ensures ModulePixels(image, q, m, h, w, rows)[At(r, w / 2, t)]
            == Pix(image, ImageRow(q, m, h, r), w, Offset(q, w) + t)
  {
    AtPlus(r, w / 2, 0, t);
    HandlesLeft(r, rows, w / 2);
    if r < rows - 1 { ModulePixelAt(image, q, m, h, w, rows - 1, r, t); }
  }

  lemma {:induction false} ModulePixelsSmall(image: seq<nat>, q: Quadrant, m: nat, h: nat, w: nat, rows: nat)
    requires h % 4 == 0 && m < 2 && rows <= h / 4 && AllPixels(image)
    ensures AllPixels(ModulePixels(image, q, m, h, w, rows))
  {
    if rows > 0 {
      ModulePixelsSmall(image, q, m, h, w, rows - 1);
      var row := ModuleRow(image, q, m, h, w, rows - 1);
      forall t | 0 <= t < |row|
        ensures row[t] < 4096
      {
        assert row[t] == Pix(image, ImageRow(q, m, h, rows - 1), w, Offset(q, w) + t);
      }
    }
  }

  /** What module `m` of quadrant `q` sends of an image, packed as the simulator packs it;
      `nbytes` may include padding. */
  function ModuleBytes(image: seq<nat>, q: Quadrant, m: nat, h: nat, w: nat, nbytes: nat): seq<nat>
    requires h % 4 == 0 && m < 2
  {
    ToLittle(Pack(ModulePixels(image, q, m, h, w, h / 4)), nbytes)
  }

  lemma {:induction false} AtDouble(r: nat, n: nat, c: nat)
    ensures At(r, 2 * n, 2 * c) == 2 * At(r, n, c)
  {
    if r > 0 { AtDouble(r - 1, n, c); }
  }

  /** The converter reads from the stream what the module sent. */
  lemma StreamHoldsPixel(image: seq<nat>, q: Quadrant, m: nat, h: nat, w: nat, nbytes: nat, r: nat, t: nat)
    requires h % 4 == 0 && w % 4 == 0 && m < 2 && AllPixels(image) && nbytes >= 3 * At(h / 4, w / 4, 0)
    requires r < h / 4 && t < w / 2
    ensures ImageRow(q, m, h, r) >= 0
    ensures Pixel(ModuleBytes(image, q, m, h, w, nbytes), At(r, w / 2, t))
            == Pix(image, ImageRow(q, m, h, r), w, Offset(q, w) + t)
  {
    var pixels := ModulePixels(image, q, m, h, w, h / 4);
    assert w / 2 == 2 * (w / 4);
    AtDouble(h / 4, w / 4, 0);
    ModulePixelAt(image, q, m, h, w, h / 4, r, t);
    ModulePixelsSmall(image, q, m, h, w, h / 4);
    UnpackedPacked(pixels, At(h / 4, w / 4, 0), nbytes, At(r, w / 2, t));
  }

  /** The pixels of a module are those of the image. */
  ghost predicate Restored(image: seq<nat>, out: seq<nat>, q: Quadrant, m: nat, h: nat, w: nat) {
    forall y: nat, x: nat :: y < h && x < w && Mine(q, m, h, w, y, x) ==> Pix(out, y, w, x) == Pix(image, y, w, x)
  }

  /** One conversion puts the pixels of its module in place ... */
  lemma ConvertRestores(image: seq<nat>, was: seq<nat>, now: seq<nat>, q: Quadrant, m: nat, h: nat, w: nat, nbytes: nat)
    requires h % 4 == 0 && w % 4 == 0 && m < 2 && AllPixels(image) && nbytes >= 3 * At(h / 4, w / 4, 0)
    requires Converted(ModuleBytes(image, q, m, h, w, nbytes), was, now, q, m, h, w)
    ensures Restored(image, now, q, m, h, w)
  {
    forall y: nat, x: nat | y < h && x < w && Mine(q, m, h, w, y, x)
      ensures Pix(now, y, w, x) == Pix(image, y, w, x)
    {
      var r := Depth(q, h, y) / 2;
      RowOfModule(q, m, h, w, r, y, x);
      assert r < h / 4;
      StreamHoldsPixel(image, q, m, h, w, nbytes, r, x - Offset(q, w));
    }
  }

  /** ... and leaves the pixels of the others alone. */
  lemma ConvertKeeps(bytes: seq<nat>, was: seq<nat>, now: seq<nat>, q: Quadrant, m: nat, h: nat, w: nat, q': Quadrant,
                     m': nat,
                     image: seq<nat>)
    requires h % 4 == 0 && w % 4 == 0 && (q' != q || m' != m) && Converted(bytes, was, now, q, m, h, w)
    requires Restored(image, was, q', m', h, w)
    ensures Restored(image, now, q', m', h, w)
  {
    forall y: nat, x: nat | y < h && x < w && Mine(q', m', h, w, y, x)
      ensures Pix(now, y, w, x) == Pix(image, y, w, x)
    {
      var _, _ := OwnerOf(h, w, y, x);
      assert !Mine(q, m, h, w, y, x);
    }
  }

  datatype Module = Module(q: Quadrant, m: nat)

  /** A run of the converters, in any order: `outs[i]` is the buffer before conversion `i`. */
  ghost predicate Conversions(image: seq<nat>, order: seq<Module>, outs: seq<seq<nat>>, h: nat, w: nat, nbytes: nat)
    requires h % 4 == 0
  {
    && |outs| == |order| + 1
    && (forall i :: 0 <= i < |order| ==> order[i].m < 2)
    && (forall i :: 0 <= i < |order| ==>
          Converted(ModuleBytes(image, order[i].q, order[i].m, h, w, nbytes), outs[i], outs[i + 1],
                    order[i].q, order[i].m, h, w))
  }

  lemma {:induction false} ModuleRestored(image: seq<nat>, order: seq<Module>, outs: seq<seq<nat>>, h: nat, w: nat,
                                          nbytes: nat,
                                          n: nat, a: Module)
    requires h % 4 == 0 && w % 4 == 0 && AllPixels(image) && nbytes >= 3 * At(h / 4, w / 4, 0)
    requires Conversions(image, order, outs, h, w, nbytes) && n <= |order| && a in order[..n]
    ensures Restored(image, outs[n], a.q, a.m, h, w)
  {
    var b := order[n - 1];
    if b == a {
      ConvertRestores(image, outs[n - 1], outs[n], a.q, a.m, h, w, nbytes);
    } else {
      assert a in order[..n - 1] by { assert order[..n] == order[..n - 1] + [b]; }
      ModuleRestored(image, order, outs, h, w, nbytes, n - 1, a);
      ConvertKeeps(ModuleBytes(image, b.q, b.m, h, w, nbytes), outs[n - 1], outs[n], b.q, b.m, h, w, a.q, a.m, image);
    }
  }

  lemma {:induction false} SizeKept(image: seq<nat>, order: seq<Module>, outs: seq<seq<nat>>, h: nat, w: nat,
                                    nbytes: nat, n: nat)
    requires h % 4 == 0 && Conversions(image, order, outs, h, w, nbytes) && n <= |order|
    ensures |outs[n]| == |outs[0]|
  {
    if n > 0 { SizeKept(image, order, outs, h, w, nbytes, n - 1); }
  }

  /** Once each of the eight modules has been converted, in whatever order and whatever the
      buffer held before, the buffer is the image. */
  lemma EightModulesRebuild(image: seq<nat>, order: seq<Module>, outs: seq<seq<nat>>, h: nat, w: nat, nbytes: nat)
    requires h % 4 == 0 && w % 4 == 0 && AllPixels(image) && nbytes >= 3 * At(h / 4, w / 4, 0)
    requires Conversions(image, order, outs, h, w, nbytes) && |image| == |outs[0]| == h * w
    requires forall a: Module :: a.m < 2 ==> a in order
    ensures outs[|order|] == image
  {
    var out := outs[|order|];
    SizeKept(image, order, outs, h, w, nbytes, |order|);
    forall y: nat, x: nat | y < h && x < w
      ensures Pix(out, y, w, x) == Pix(image, y, w, x)
    {
      var q, m := OwnerOf(h, w, y, x);
      assert order[..|order|] == order && Module(q, m) in order;
      ModuleRestored(image, order, outs, h, w, nbytes, |order|, Module(q, m));
    }
    SameImages(out, image, h, w);
  }

  // ---- Eight converters ----

  /** The module that the converter with number `id` serves. */
  function ModuleOf(id: nat): (a: Module)
    ensures a.m < 2
  {
    var k := id % 8 / 2;
    Module(if k == 0 then SW else if k == 1 then SE else if k == 2 then NW else NE, id % 2)
  }

  function NumberOf(a: Module): nat {
    (match a.q case SW => 0 case SE => 2 case NW => 4 case NE => 6) + a.m
  }

  lemma NumbersCover(a: Module)
    requires a.m < 2
    ensures NumberOf(a) < 8 && ModuleOf(NumberOf(a)) == a
  {
  }

  lemma NumberOfModule(id: nat)
    ensures NumberOf(ModuleOf(id)) == id % 8
  {
  }

  function Modules(ids: seq<nat>): (order: seq<Module>)
    ensures |order| == |ids| && forall i :: 0 <= i < |ids| ==> order[i] == ModuleOf(ids[i])
  {
    seq(|ids|, i requires 0 <= i < |ids| => ModuleOf(ids[i]))
  }

  lemma AllModules(ids: seq<nat>)
    requires forall id: nat :: id < 8 ==> id in ids
    ensures forall a: Module :: a.m < 2 ==> a in Modules(ids)
  {
    forall a: Module | a.m < 2
      ensures a in Modules(ids)
    {
      NumbersCover(a);
      var id := NumberOf(a);
      assert id in ids;
      var i :| 0 <= i < |ids| && ids[i] == id;
      assert Modules(ids)[i] == a;
    }
  }

  lemma ConversionsStep(image: seq<nat>, order: seq<Module>, outs: seq<seq<nat>>, h: nat, w: nat, nbytes: nat,
                                           a: Module, out: seq<nat>)
    requires h % 4 == 0 && a.m < 2 && Conversions(image, order, outs, h, w, nbytes)
    requires Converted(ModuleBytes(image, a.q, a.m, h, w, nbytes), outs[|order|], out, a.q, a.m, h, w)
    ensures Conversions(image, order + [a], outs + [out], h, w, nbytes)
  {
    var order', outs' := order + [a], outs + [out];
    forall i | 0 <= i < |order'|
      ensures order'[i].m < 2 && Converted(ModuleBytes(image, order'[i].q, order'[i].m, h, w, nbytes),
                                           outs'[i], outs'[i + 1], order'[i].q, order'[i].m, h, w)
    {
      if i < |order| { assert order'[i] == order[i] && outs'[i] == outs[i] && outs'[i + 1] == outs[i + 1]; }
    }
  }

  lemma ModuleBytesAreBytes(image: seq<nat>, a: Module, h: nat, w: nat, nbytes: nat)
    requires h % 4 == 0 && a.m < 2
    ensures AllBytes(ModuleBytes(image, a.q, a.m, h, w, nbytes))
  {
    LittleBytes(Pack(ModulePixels(image, a.q, a.m, h, w, h / 4)), nbytes);
  }

  /** The packets carry the pixels of a module, whole pairs in each. */
  ghost predicate Carries(packets: seq<seq<nat>>, image: seq<nat>, a: Module, h: nat, w: nat)
    requires h % 4 == 0 && a.m < 2
  {
    WholePairs(packets) && Flatten(packets) == ModulePixels(image, a.q, a.m, h, w, h / 4)
  }

  /** Sent packet by packet, they are the bytes of the module. */
  lemma CarriedBytes(packets: seq<seq<nat>>, image: seq<nat>, a: Module, h: nat, w: nat)
    requires h % 4 == 0 && w % 4 == 0 && a.m < 2 && Carries(packets, image, a, h, w)
    ensures PacketStream(packets) == ModuleBytes(image, a.q, a.m, h, w, 3 * At(h / 4, w / 4, 0))
  {
    PacketStreamIs(packets);
    Quarters(w);
    AtDouble(h / 4, w / 4, 0);
  }

  /** Packets of `rows` rows each, the last one possibly shorter, from row `lo` on. */
  function RowPackets(pixels: seq<nat>, w: nat, height: nat, rows: nat, lo: nat): seq<seq<nat>>
    requires rows > 0 && |pixels| == At(height, w, 0)
    decreases height - lo
  {
    if lo >= height then []
    else
      var hi := if lo + rows < height then lo + rows else height;
      RowsInOrder(lo, hi, height, w);
      [pixels[At(lo, w, 0)..At(hi, w, 0)]] + RowPackets(pixels, w, height, rows, hi)
  }

  lemma {:induction false} RowsInOrder(lo: nat, hi: nat, height: nat, w: nat)
    requires lo <= hi <= height
    ensures At(lo, w, 0) <= At(hi, w, 0) <= At(height, w, 0)
  {
    AtProduct(lo, w, 0);
    AtProduct(hi, w, 0);
    AtProduct(height, w, 0);
    MulMonotone(lo, hi, w);
    MulMonotone(hi, height, w);
  }

  lemma {:induction false} RowPacketsCarry(pixels: seq<nat>, n: nat, height: nat, rows: nat, lo: nat)
    requires rows > 0 && |pixels| == At(height, 2 * n, 0) && AllPixels(pixels) && lo <= height
    ensures At(lo, 2 * n, 0) <= |pixels|
    ensures WholePairs(RowPackets(pixels, 2 * n, height, rows, lo))
    ensures Flatten(RowPackets(pixels, 2 * n, height, rows, lo)) == pixels[At(lo, 2 * n, 0)..]
    decreases height - lo
  {
    RowsInOrder(lo, height, height, 2 * n);
    if lo < height {
      var hi := if lo + rows < height then lo + rows else height;
      RowsInOrder(lo, hi, height, 2 * n);
      RowPacketsCarry(pixels, n, height, rows, hi);
      EvenPacket(pixels, n, lo, hi);
      var rest := RowPackets(pixels, 2 * n, height, rows, hi);
      PacketInFront(pixels[At(lo, 2 * n, 0)..At(hi, 2 * n, 0)], rest);
    }
  }

  lemma EvenPacket(pixels: seq<nat>, n: nat, lo: nat, hi: nat)
    requires At(lo, 2 * n, 0) <= At(hi, 2 * n, 0) <= |pixels| && AllPixels(pixels)
    ensures var packet := pixels[At(lo, 2 * n, 0)..At(hi, 2 * n, 0)];
            |packet| % 2 == 0 && AllPixels(packet)
  {
    AtDouble(lo, n, 0);
    AtDouble(hi, n, 0);
  }

  lemma PacketInFront(packet: seq<nat>, rest: seq<seq<nat>>)
    requires |packet| % 2 == 0 && AllPixels(packet) && WholePairs(rest)
    ensures WholePairs([packet] + rest) && Flatten([packet] + rest) == packet + Flatten(rest)
  {
    assert ([packet] + rest)[1..] == rest;
  }

  /** Cutting the pixels of a module into packets of whole rows is one way to carry them. */
  lemma RowsCarry(image: seq<nat>, a: Module, h: nat, w: nat, rows: nat)
    requires h % 4 == 0 && w % 4 == 0 && a.m < 2 && rows > 0 && AllPixels(image)
    ensures var pixels := ModulePixels(image, a.q, a.m, h, w, h / 4);
            Carries(RowPackets(pixels, w / 2, h / 4, rows, 0), image, a, h, w)
  {
    var pixels, n := ModulePixels(image, a.q, a.m, h, w, h / 4), w / 4;
    assert w / 2 == 2 * n;
    ModulePixelsSmall(image, a.q, a.m, h, w, h / 4);
    RowPacketsCarry(pixels, n, h / 4, rows, 0);
    assert pixels[0..] == pixels;
  }

  /** Converting what all modules sent, packet by packet, in any order and from any buffer,
      rebuilds the image. */
  method ConvertAll(ghost image: seq<nat>, ids: seq<nat>, ghost packets: seq<seq<seq<nat>>>, streams: seq<seq<nat>>,
                    output: array<nat>, h: nat, w: nat)
    requires h % 4 == 0 && w % 4 == 0 && AllPixels(image) && |image| == output.Length == h * w
    requires |streams| == |packets| == |ids|
    requires forall i :: 0 <= i < |ids| ==> Carries(packets[i], image, ModuleOf(ids[i]), h, w)
    requires forall i :: 0 <= i < |ids| ==> streams[i] == PacketStream(packets[i])
    requires forall id: nat :: id < 8 ==> id in ids
    modifies output
    ensures output[..] == image
  {
    ghost var outs, nbytes := [output[..]], 3 * At(h / 4, w / 4, 0);
    for i := 0 to |ids|
      invariant Conversions(image, Modules(ids[..i]), outs, h, w, nbytes)
      invariant outs[i] == output[..] && |outs[0]| == h * w
    {
      var a := ModuleOf(ids[i]);
      CarriedBytes(packets[i], image, a, h, w);
      ModuleBytesAreBytes(image, a, h, w, nbytes);
      Convert(streams[i], output, h, w, a.q, ids[i]);
      ConversionsStep(image, Modules(ids[..i]), outs, h, w, nbytes, a, output[..]);
      assert Modules(ids[..i + 1]) == Modules(ids[..i]) + [a];
      outs := outs + [output[..]];
    }
    assert ids[..|ids|] == ids;
    AllModules(ids);
    EightModulesRebuild(image, Modules(ids), outs, h, w, nbytes);
  }
}
