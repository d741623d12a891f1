/** Twelve-bit pixels in a byte stream: the simulator packs them into one big number
    (`udp_sim_gf.py`), the converter takes them out three bytes at a time
    (`converter.cpp`). */
module PixelPacking {
  import opened Wrappers
  import opened Arith

  // ---- Numbers as bits ----

  function Pow2(n: nat): (p: nat)
    ensures p > 0
  {
    if n == 0 then 1 else 2 * Pow2(n - 1)
  }

  function Shl(x: nat, n: nat): nat {
    if n == 0 then x else 2 * Shl(x, n - 1)
  }

  function Or(a: nat, b: nat): nat
    decreases a + b
  {
    if a == 0 && b == 0 then 0
    else 2 * Or(a / 2, b / 2) + (if a % 2 == 1 || b % 2 == 1 then 1 else 0)
  }

  lemma {:induction false} OrZero(x: nat)
    ensures Or(0, x) == x
  {
    if x > 0 { OrZero(x / 2); }
  }

  lemma {:induction false} OrCommutes(a: nat, b: nat)
    ensures Or(a, b) == Or(b, a)
    decreases a + b
  {
    if a > 0 || b > 0 { OrCommutes(a / 2, b / 2); }
  }

  /** Or-ing above the bits that are in use is adding. */
  lemma {:induction false} OrAbove(a: nat, x: nat, n: nat)
    requires a < Pow2(n)
    ensures Or(a, Shl(x, n)) == a + Shl(x, n)
  {
    if n == 0 {
      OrZero(x);
    } else {
      OrAbove(a / 2, x, n - 1);
    }
  }

  /** Or-ing below the bits that are in use. */
  lemma OrBelow(x: nat, n: nat, a: nat)
    requires a < Pow2(n)
    ensures Or(Shl(x, n), a) == Shl(x, n) + a
  {
    OrCommutes(Shl(x, n), a);
    OrAbove(a, x, n);
  }

  lemma ShlFour(x: nat, n: nat)
    ensures Shl(x, n + 4) == 16 * Shl(x, n)
  {
    assert Shl(x, n + 2) == 4 * Shl(x, n);
  }

  lemma ShlTwelve(x: nat, n: nat)
    ensures Shl(x, n + 12) == 4096 * Shl(x, n)
  {
    ShlFour(x, n);
    ShlFour(x, n + 4);
    ShlFour(x, n + 8);
  }

  lemma Pow2Twelve(n: nat)
    ensures Pow2(n + 12) == 4096 * Pow2(n)
  {
    assert Pow2(n + 4) == 16 * Pow2(n) by { assert Pow2(n + 2) == 4 * Pow2(n); }
    assert Pow2(n + 8) == 16 * Pow2(n + 4) by { assert Pow2(n + 6) == 4 * Pow2(n + 4); }
    assert Pow2(n + 12) == 16 * Pow2(n + 8) by { assert Pow2(n + 10) == 4 * Pow2(n + 8); }
  }

  // ---- Packing ----

  ghost predicate AllPixels(pixels: seq<nat>) {
    forall i :: 0 <= i < |pixels| ==> pixels[i] < 4096
  }

  /** The number whose digits to the base 4096 are the pixels, lowest first. */
  function Pack(pixels: seq<nat>): nat {
    if pixels == [] then 0 else pixels[0] + 4096 * Pack(pixels[1..])
  }

  lemma {:induction false} PackBelow(pixels: seq<nat>)
    requires AllPixels(pixels)
    ensures Pack(pixels) < Pow2(12 * |pixels|)
  {
    if pixels != [] {
      PackBelow(pixels[1..]);
      Pow2Twelve(12 * (|pixels| - 1));
    }
  }

  lemma {:induction false} PackAppend(pixels: seq<nat>, p: nat)
    ensures Pack(pixels + [p]) == Pack(pixels) + Shl(p, 12 * |pixels|)
  {
    if pixels == [] {
      assert (pixels + [p])[1..] == [];
    } else {
      assert (pixels + [p])[1..] == pixels[1..] + [p];
      PackAppend(pixels[1..], p);
      ShlTwelve(p, 12 * (|pixels| - 1));
    }
  }

  /** One turn of the simulator's inner loop. */
  lemma PackStep(pixels: seq<nat>, p: nat)
    requires AllPixels(pixels)
    ensures Or(Pack(pixels), Shl(p, 12 * |pixels|)) == Pack(pixels + [p])
  {
    PackBelow(pixels);
    OrAbove(Pack(pixels), p, 12 * |pixels|);
    PackAppend(pixels, p);
  }

  /** `to_bytes(n, 'little')`. */
  function ToLittle(v: nat, n: nat): (s: seq<nat>)
    ensures |s| == n
  {
    if n == 0 then [] else [v % 256] + ToLittle(v / 256, n - 1)
  }

  // ---- Unpacking ----

  /** The two pixels of a `conversion_handle`. */
  function First(b0: nat, b1: nat): nat {
    b0 + 256 * (b1 % 16)
  }

  function Second(b1: nat, b2: nat): nat {
    b1 / 16 + 16 * b2
  }

  /** Pixel `t` of a stream of handles. */
  function Pixel(bytes: seq<nat>, t: nat): nat {
    if |bytes| < 3 then 0
    else if t == 0 then First(bytes[0], bytes[1])
    else if t == 1 then Second(bytes[1], bytes[2])
    else Pixel(bytes[3..], t - 2)
  }

  lemma {:induction false} PixelsOfHandle(bytes: seq<nat>, i: nat)
    requires 3 * i + 3 <= |bytes|
    ensures Pixel(bytes, 2 * i) == First(bytes[3 * i], bytes[3 * i + 1])
    ensures Pixel(bytes, 2 * i + 1) == Second(bytes[3 * i + 1], bytes[3 * i + 2])
  {
    if i > 0 {
      var s := bytes[3..];
      PixelsOfHandle(s, i - 1);
      assert s[3 * i - 3] == bytes[3 * i] && s[3 * i - 2] == bytes[3 * i + 1] && s[3 * i - 1] == bytes[3 * i + 2];
    }
  }

  method FromHandle(b0: nat, b1: nat, b2: nat) returns (p: nat, p': nat)
    requires b0 < 256 && b1 < 256
    ensures p == First(b0, b1) && p' == Second(b1, b2)
  {
    p, p' := Or(b0, Shl(b1 % 16, 8)), Or(b1 / 16, Shl(b2, 4));
    assert Pow2(8) == 256 && Pow2(4) == 16;
    OrAbove(b0, b1 % 16, 8);
    OrAbove(b1 / 16, b2, 4);
    ShlIs(b1 % 16);
    ShlIs(b2);
  }

  /** `p11 | p21 << 8` and `p12 | p22 << 4` of handle `i`. */
  method ReadHandle(bytes: seq<nat>, i: nat) returns (p: nat, p': nat)
    requires 3 * i + 3 <= |bytes| && AllBytes(bytes)
    ensures p == Pixel(bytes, 2 * i) && p' == Pixel(bytes, 2 * i + 1)
  {
    p, p' := FromHandle(bytes[3 * i], bytes[3 * i + 1], bytes[3 * i + 2]);
    PixelsOfHandle(bytes, i);
  }

  ghost predicate AllBytes(bytes: seq<nat>) {
    forall i :: 0 <= i < |bytes| ==> bytes[i] < 256
  }

  lemma ShlIs(x: nat)
    ensures Shl(x, 4) == 16 * x && Shl(x, 8) == 256 * x && Shl(x, 9) == 512 * x && Shl(x, 10) == 1024 * x
  {
    ShlFour(x, 0);
    ShlFour(x, 4);
    assert Shl(x, 9) == 2 * Shl(x, 8) && Shl(x, 10) == 2 * Shl(x, 9);
  }

  lemma Digit256(a: nat, x: nat)
    requires a < 256
    ensures (a + 256 * x) % 256 == a && (a + 256 * x) / 256 == x
  {
  }

  /** The first three bytes of a number made of pixels. */
  lemma ThreeDigits(p: nat, p': nat, rest: nat, v: nat)
    requires p < 4096 && p' < 4096 && v == p + 4096 * (p' + 4096 * rest)
    ensures v % 256 == p % 256
    ensures v / 256 % 256 == p / 256 + 16 * (p' % 16)
    ensures v / 256 / 256 % 256 == p' / 16 && v / 256 / 256 / 256 == rest
  {
    var a, b, c := p % 256, p / 256 + 16 * (p' % 16), p' / 16;
    var w := c + 256 * rest;
    var u := b + 256 * w;
    assert v == a + 256 * u;
    Digit256(a, u);
    Digit256(b, w);
    Digit256(c, rest);
  }

  lemma LittleThree(v: nat, n: nat)
    requires n >= 3
    ensures var s := ToLittle(v, n);
            s[0] == v % 256 && s[1] == v / 256 % 256 && s[2] == v / 256 / 256 % 256
            && s[3..] == ToLittle(v / 256 / 256 / 256, n - 3)
  {
    var s1, s2, s3 := ToLittle(v / 256, n - 1), ToLittle(v / 256 / 256, n - 2), ToLittle(v / 256 / 256 / 256, n - 3);
    assert s1 == [v / 256 % 256] + s2 && s2 == [v / 256 / 256 % 256] + s3;
    assert ToLittle(v, n) == [v % 256] + s1;
  }

  lemma PackTwo(pixels: seq<nat>)
    requires |pixels| >= 2
    ensures Pack(pixels) == pixels[0] + 4096 * (pixels[1] + 4096 * Pack(pixels[2..]))
  {
    assert pixels[1..][0] == pixels[1] && pixels[1..][1..] == pixels[2..];
  }

  lemma PairOfDigits(p: nat, p': nat, rest: nat, v: nat)
    requires p < 4096 && p' < 4096 && v == p + 4096 * (p' + 4096 * rest)
    ensures First(v % 256, v / 256 % 256) == p && Second(v / 256 % 256, v / 256 / 256 % 256) == p'
    ensures v / 256 / 256 / 256 == rest
  {
    ThreeDigits(p, p', rest, v);
  }

  /** The first two pixels of a packed stream, and what is left. */
  lemma PairOfPacked(pixels: seq<nat>, n: nat)
    requires AllPixels(pixels) && |pixels| >= 2 && n >= 3
    ensures var s := ToLittle(Pack(pixels), n);
            && First(s[0], s[1]) == pixels[0] && Second(s[1], s[2]) == pixels[1]
            && s[3..] == ToLittle(Pack(pixels[2..]), n - 3)
  {
    PackTwo(pixels);
    PairOfDigits(pixels[0], pixels[1], Pack(pixels[2..]), Pack(pixels));
    LittleThree(Pack(pixels), n);
  }

  /** Taking the pixels out three bytes at a time undoes packing them into one number. */
  lemma {:induction false} UnpackedPacked(pixels: seq<nat>, k: nat, n: nat, t: nat)
    requires AllPixels(pixels) && |pixels| == 2 * k && n >= 3 * k && t < |pixels|
    ensures Pixel(ToLittle(Pack(pixels), n), t) == pixels[t]
  {
    PairOfPacked(pixels, n);
    if t >= 2 { UnpackedPacked(pixels[2..], k - 1, n - 3, t - 2); }
  }

  lemma {:induction false} LittleBytes(v: nat, n: nat)
    ensures AllBytes(ToLittle(v, n))
  {
    if n > 0 { LittleBytes(v / 256, n - 1); }
  }

  /** The first three bytes only depend on the first two pixels. */
  lemma SameHead(a: seq<nat>, c: seq<nat>, m: nat, n: nat)
    requires AllPixels(a) && AllPixels(c) && |a| >= 2 && |c| >= 2 && a[0] == c[0] && a[1] == c[1] && m >= 3 && n >= 3
    ensures ToLittle(Pack(a), m)[..3] == ToLittle(Pack(c), n)[..3]
    ensures ToLittle(Pack(a), m)[3..] == ToLittle(Pack(a[2..]), m - 3)
    ensures ToLittle(Pack(c), n)[3..] == ToLittle(Pack(c[2..]), n - 3)
  {
    PackTwo(a);
    PackTwo(c);
    ThreeDigits(a[0], a[1], Pack(a[2..]), Pack(a));
    ThreeDigits(c[0], c[1], Pack(c[2..]), Pack(c));
    LittleThree(Pack(a), m);
    LittleThree(Pack(c), n);
  }

  lemma JoinHeads(s: seq<nat>, t: seq<nat>, r: seq<nat>)
    requires |s| >= 3 && |t| >= 3 && s[..3] == t[..3] && s[3..] == t[3..] + r
    ensures s == t + r
  {
    assert s == s[..3] + s[3..] && t == t[..3] + t[3..];
  }

  /** Cutting a stream into packets of whole pairs does not change its bytes. */
  lemma {:induction false} PacketsJoin(a: seq<nat>, b: seq<nat>, k: nat, n: nat)
    requires AllPixels(a) && AllPixels(b) && |a| == 2 * k
    ensures ToLittle(Pack(a + b), 3 * k + n) == ToLittle(Pack(a), 3 * k) + ToLittle(Pack(b), n)
  {
    if k == 0 {
      assert a + b == b;
    } else {
      var c := a + b;
      assert c[2..] == a[2..] + b;
      PacketsJoin(a[2..], b, k - 1, n);
      SameHead(a, c, 3 * k, 3 * k + n);
      JoinHeads(ToLittle(Pack(c), 3 * k + n), ToLittle(Pack(a), 3 * k), ToLittle(Pack(b), n));
    }
  }

  /** The pixels of all packets of a frame, and their bytes as they are sent: packet by packet. */
  function Flatten(packets: seq<seq<nat>>): seq<nat> {
    if packets == [] then [] else packets[0] + Flatten(packets[1..])
  }

  function PacketStream(packets: seq<seq<nat>>): seq<nat> {
    if packets == [] then [] else ToLittle(Pack(packets[0]), 3 * (|packets[0]| / 2)) + PacketStream(packets[1..])
  }

  /** Packets hold whole pairs of pixels. */
  ghost predicate WholePairs(packets: seq<seq<nat>>) {
    forall i :: 0 <= i < |packets| ==> |packets[i]| % 2 == 0 && AllPixels(packets[i])
  }

  /** However a stream is cut into packets of whole pairs, its bytes are those of all its pixels
      packed into one number. */
  lemma {:induction false} PacketStreamIs(packets: seq<seq<nat>>)
    requires WholePairs(packets)
    ensures AllPixels(Flatten(packets)) && |Flatten(packets)| % 2 == 0
    ensures PacketStream(packets) == ToLittle(Pack(Flatten(packets)), 3 * (|Flatten(packets)| / 2))
  {
    if packets != [] {
      var a, b := packets[0], Flatten(packets[1..]);
      assert WholePairs(packets[1..]) by {
        assert forall i :: 0 <= i < |packets| - 1 ==> packets[1..][i] == packets[i + 1];
      }
      PacketStreamIs(packets[1..]);
      assert |a| % 2 == 0 && AllPixels(a);
      PairsAdd(|a|, |b|);
      PacketsJoin(a, b, |a| / 2, 3 * (|b| / 2));
    }
  }

  lemma PairsAdd(a: nat, b: nat)
    requires a % 2 == 0 && b % 2 == 0
    ensures (a + b) % 2 == 0 && 3 * ((a + b) / 2) == 3 * (a / 2) + 3 * (b / 2) && a == 2 * (a / 2)
  {
  }

  // ---- The simulator ----

  /** The pixel the simulator sends: which quadrant, link, packet, row and column it is in. */
  function SimPixel(quadrant: nat, link: nat, packet: nat, row: nat, col: nat): nat {
    1024 * quadrant + 512 * link + 256 * (packet % 2) + 16 * (row % 16) + col % 16
  }

  /** Two bits of quadrant, one of link, one of packet, four of row and four of column. */
  lemma SimPixelFields(quadrant: nat, link: nat, packet: nat, row: nat, col: nat)
    requires quadrant < 4 && link < 2
    ensures var p := SimPixel(quadrant, link, packet, row, col);
            && p < 4096 && p / 1024 == quadrant && p / 512 % 2 == link && p / 256 % 2 == packet % 2
            && p / 16 % 16 == row % 16 && p % 16 == col % 16
  {
    var p := SimPixel(quadrant, link, packet, row, col);
    var a, r, c := packet % 2, row % 16, col % 16;
    var q2 := 2 * quadrant + link;
    var q3 := 2 * q2 + a;
    var q4 := 16 * q3 + r;
    DivModUnique(p, quadrant, 512 * link + 256 * a + 16 * r + c, 1024);
    DivModUnique(p, q2, 256 * a + 16 * r + c, 512);
    DivModUnique(p, q3, 16 * r + c, 256);
    DivModUnique(p, q4, c, 16);
    DivModUnique(q2, quadrant, link, 2);
    DivModUnique(q3, q2, a, 2);
    DivModUnique(q4, q3, r, 16);
  }

  method MakePixel(quadrant: nat, link: nat, packet: nat, row: nat, col: nat) returns (pixel: nat)
    requires quadrant < 4 && link < 2
    ensures pixel == SimPixel(quadrant, link, packet, row, col) && pixel < 4096
  {
    pixel := 0;
    pixel := Or(pixel, Shl(quadrant, 10));
    OrZero(Shl(quadrant, 10));
    ShlIs(quadrant);
    pixel := AddField(pixel, quadrant, 10, link, 9);
    pixel := AddField(pixel, 2 * quadrant + link, 9, packet % 2, 8);
    pixel := AddField(pixel, 4 * quadrant + 2 * link + packet % 2, 8, row % 16, 4);
    pixel := AddField(pixel, 64 * quadrant + 32 * link + 16 * (packet % 2) + row % 16, 4, col % 16, 0);
  }

  /** A field below the bits that are in use. */
  method AddField(pixel: nat, ghost high: nat, ghost n: nat, value: nat, m: nat) returns (r: nat)
    requires (n == 10 && m == 9 && value < 2) || (n == 9 && m == 8 && value < 2) || (n == 8 && m == 4 && value < 16)
             || (n == 4 && m == 0 && value < 16)
    requires pixel == (if n == 10 then 1024 else if n == 9 then 512 else if n == 8 then 256 else 16) * high
    ensures r == pixel + (if m == 9 then 512 else if m == 8 then 256 else if m == 4 then 16 else 1) * value
  {
    r := Or(pixel, Shl(value, m));
    ShlIs(high);
    ShlIs(value);
    assert Pow2(4) == 16 && Pow2(8) == 256 && Pow2(9) == 512 && Pow2(10) == 1024;
    OrBelow(high, n, Shl(value, m));
  }

  function SimRow(quadrant: nat, link: nat, packet: nat, row: nat, cols: nat): (pixels: seq<nat>)
    ensures |pixels| == cols
  {
    seq(cols, c requires 0 <= c < cols => SimPixel(quadrant, link, packet, row, c))
  }

  function SimRows(quadrant: nat, link: nat, packet: nat, rows: nat, cols: nat): seq<nat> {
    if rows == 0 then []
    else SimRows(quadrant, link, packet, rows - 1, cols) + SimRow(quadrant, link, packet, rows - 1, cols)
  }

  /** The inner loop of `generate_data_for_packet`. */
  method GenerateRow(quadrant: nat, link: nat, packet: nat, row: nat, cols: nat, start: nat, firstPixel: nat,
                     ghost before: seq<nat>)
    returns (packetBytes: nat, iPixel: nat)
    requires quadrant < 4 && link < 2 && AllPixels(before) && start == Pack(before) && firstPixel == |before|
    ensures AllPixels(before + SimRow(quadrant, link, packet, row, cols))
    ensures packetBytes == Pack(before + SimRow(quadrant, link, packet, row, cols)) && iPixel == |before| + cols
  {
    packetBytes := start;
    iPixel := firstPixel;
    ghost var now := before;
    ghost var all := SimRow(quadrant, link, packet, row, cols);
    for col := 0 to cols
      invariant now == before + all[..col] && AllPixels(now)
      invariant packetBytes == Pack(now) && iPixel == |now|
    {
      var pixel := MakePixel(quadrant, link, packet, row, col);
      PackStep(now, pixel);
      packetBytes := Or(packetBytes, Shl(pixel, iPixel * 12));
      iPixel := iPixel + 1;
      assert all[..col + 1] == all[..col] + [pixel];
      now := now + [pixel];
    }
    assert all[..cols] == all;
  }

  /** `generate_data_for_packet`; `None` is the OverflowError of `to_bytes`. */
  method GeneratePacket(id: nat, packet: nat, rows: nat, cols: nat, nbytes: nat) returns (bytes: Option<seq<nat>>)
    requires id < 8
    ensures AllPixels(SimRows(id / 2, id % 2, packet, rows, cols))
    ensures var v := Pack(SimRows(id / 2, id % 2, packet, rows, cols));
            bytes == if v < Pow2(8 * nbytes) then Some(ToLittle(v, nbytes)) else None
  {
    var quadrant, link := id / 2, id % 2;
    var packetBytes, iPixel := 0, 0;
    for row := 0 to rows
      invariant AllPixels(SimRows(quadrant, link, packet, row, cols))
      invariant packetBytes == Pack(SimRows(quadrant, link, packet, row, cols))
      invariant iPixel == |SimRows(quadrant, link, packet, row, cols)|
    {
      packetBytes, iPixel := GenerateRow(quadrant, link, packet, row, cols, packetBytes, iPixel,
                                         SimRows(quadrant, link, packet, row, cols));
    }
    bytes := if packetBytes < Pow2(8 * nbytes) then Some(ToLittle(packetBytes, nbytes)) else None;
  }

  lemma {:induction false} Pow2Grows(m: nat, n: nat)
    requires m <= n
    ensures Pow2(m) <= Pow2(n)
  {
    if m < n { Pow2Grows(m, n - 1); }
  }

  /** A packet of the announced size always holds its pixels. */
  lemma PacketFits(pixels: seq<nat>, nbytes: nat)
    requires AllPixels(pixels) && 2 * nbytes >= 3 * |pixels|
    ensures Pack(pixels) < Pow2(8 * nbytes)
  {
    PackBelow(pixels);
    Pow2Grows(12 * |pixels|, 8 * nbytes);
  }
}
