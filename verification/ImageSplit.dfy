/** How an image is split among the senders (`image_size_calc.cpp`) and how many parts the
    stream synchronizer waits for. */
module ImageSplit {
  import opened Arith

  /** `image` and `largest` are the bytes of an image and of the largest image of the
      detector type, `forwarders` the senders that are started. */
  datatype Config = Config(fullImages: bool, useAll: bool, image: nat, largest: nat, forwarders: nat)

  /** The bytes that are divided among the forwarders. */
  function SplitSize(c: Config): nat {
    if c.useAll then c.image else c.largest
  }

  /** `calculate_image_offset`. */
  function Offset(c: Config, part: nat): nat
    requires c.forwarders > 0
  {
    if c.fullImages then 0 else part * SplitSize(c) / c.forwarders
  }

  /** `max_single_sender_size`. */
  function SingleSize(c: Config): nat
    requires c.forwarders > 0
  {
    if c.fullImages then c.image else SplitSize(c) / c.forwarders
  }

  /** A sender whose part starts behind the image exits. */
  predicate Exits(c: Config, part: nat)
    requires c.forwarders > 0
  {
    c.image <= Offset(c, part)
  }

  /** `calculate_image_bytes_sent`. */
  function BytesSent(c: Config, part: nat): nat
    requires c.forwarders > 0 && !Exits(c, part)
  {
    var left := c.image - Offset(c, part);
    if left < SingleSize(c) then left else SingleSize(c)
  }

  /** `number_of_senders`, the parts the stream synchronizer waits for. */
  function NumberOfSenders(c: Config): nat
    requires c.forwarders > 0 && (c.fullImages || c.useAll || SingleSize(c) > 0)
  {
    if c.fullImages then 1
    else if c.useAll then c.forwarders
    else (c.image + SingleSize(c) - 1) / SingleSize(c)
  }

  // ---- Disjoint ----

  lemma QuotientStep(p: nat, s: nat, n: nat)
    requires n > 0
    ensures p * s / n + s / n <= (p + 1) * s / n
  {
    var a, b := p * s / n, s / n;
    assert p * s == a * n + p * s % n && s == b * n + s % n;
    assert (p + 1) * s == p * s + s;
    assert (p + 1) * s >= (a + b) * n by { assert (a + b) * n == a * n + b * n; }
    QuotientAtLeast((p + 1) * s, a + b, n);
  }

  lemma QuotientAtLeast(x: int, q: int, n: nat)
    requires n > 0 && x >= q * n
    ensures x / n >= q
  {
    var q' := x / n;
    assert x == q' * n + x % n;
    if q' < q {
      MulGrows(q', q, n);
      assert false;
    }
  }

  lemma {:induction false} OffsetsGrow(c: Config, p: nat, q: nat)
    requires c.forwarders > 0 && !c.fullImages && p < q
    ensures Offset(c, p) + SingleSize(c) <= Offset(c, q)
  {
    QuotientStep(q - 1, SplitSize(c), c.forwarders);
    if p < q - 1 { OffsetsGrow(c, p, q - 1); }
  }

  /** The parts lie inside the image and do not overlap. */
  lemma PartsDisjoint(c: Config, p: nat, q: nat)
    requires c.forwarders > 0 && !c.fullImages && p < q && !Exits(c, p) && !Exits(c, q)
    ensures Offset(c, p) + BytesSent(c, p) <= Offset(c, q)
    ensures Offset(c, q) + BytesSent(c, q) <= c.image
  {
    OffsetsGrow(c, p, q);
  }

  // ---- Complete ----

  ghost predicate Covers(c: Config, p: nat, x: nat)
    requires c.forwarders > 0
  {
    p < c.forwarders && !Exits(c, p) && Offset(c, p) <= x < Offset(c, p) + BytesSent(c, p)
  }

  /** No byte is sent twice. */
  lemma CoveredOnce(c: Config, x: nat, p: nat, q: nat)
    requires c.forwarders > 0 && !c.fullImages && Covers(c, p, x) && Covers(c, q, x)
    ensures p == q
  {
    if q < p { OffsetsGrow(c, q, p); } else if p < q { OffsetsGrow(c, p, q); }
  }

  /** Every byte of the image is sent. */
  ghost predicate Tiles(c: Config)
    requires c.forwarders > 0
  {
    forall x: nat :: x < c.image ==> Covered(c, x)
  }

  ghost predicate Covered(c: Config, x: nat)
    requires c.forwarders > 0
  {
    exists p: nat :: Covers(c, p, x)
  }

  /** A sender of full images takes turns with the others. */
  predicate Sends(c: Config, part: nat, id: nat)
    requires c.forwarders > 0
  {
    !c.fullImages || id % c.forwarders == part
  }

  /** Full images: every sender that is started stays, and each byte of image `id` is sent by
      exactly one of them, the one whose turn it is, so that one part makes an image. */
  lemma FullImagesSentWhole(c: Config, p: nat, id: nat, x: nat)
    requires c.forwarders > 0 && c.fullImages && x < c.image && p < c.forwarders
    ensures NumberOfSenders(c) == 1 && !Exits(c, p)
    ensures Sends(c, p, id) && Covers(c, p, x) <==> p == id % c.forwarders
    ensures Offset(c, p) + BytesSent(c, p) == c.image
  {
  }

  /** The bytes sent by the first `n` senders. */
  function TotalSent(c: Config, n: nat): nat
    requires c.forwarders > 0
  {
    if n == 0 then 0 else TotalSent(c, n - 1) + (if Exits(c, n - 1) then 0 else BytesSent(c, n - 1))
  }

  lemma {:induction false} UseAllSends(c: Config, n: nat)
    requires c.forwarders > 0 && c.useAll && !c.fullImages && n <= c.forwarders
    ensures TotalSent(c, n) == n * SingleSize(c)
  {
    if n > 0 {
      UseAllSends(c, n - 1);
      assert n * SingleSize(c) == (n - 1) * SingleSize(c) + SingleSize(c);
      OffsetsGrow(c, n - 1, n);
      assert Offset(c, n) <= c.image by { QuotientAtMost(n, c.image, c.forwarders); }
    }
  }

  lemma QuotientAtMost(k: nat, s: nat, n: nat)
    requires n > 0 && k <= n
    ensures k * s / n <= s
  {
    var q := k * s / n;
    assert k * s == q * n + k * s % n;
    assert k * s <= n * s;
    if q > s {
      MulGrows(s, q, n);
      assert false;
    }
  }

  /** With all forwarders in use, exactly `image % forwarders` bytes are not sent; so the image
      is sent completely if and only if the number of forwarders divides its size. */
  lemma UseAllMisses(c: Config)
    requires c.forwarders > 0 && c.useAll && !c.fullImages
    ensures TotalSent(c, c.forwarders) == c.image - c.image % c.forwarders
    ensures TotalSent(c, c.forwarders) == c.image <==> c.image % c.forwarders == 0
  {
    UseAllSends(c, c.forwarders);
    Division(c.image, c.forwarders, SingleSize(c));
  }

  lemma Division(x: nat, n: nat, q: nat)
    requires n > 0 && q == x / n
    ensures n * q == x - x % n
  {
  }

  // ---- How many ----

  function Active(c: Config, n: nat): nat
    requires c.forwarders > 0
  {
    if n == 0 then 0 else Active(c, n - 1) + (if Exits(c, n - 1) then 0 else 1)
  }

  /** The number of senders it takes for an image, if there are enough. */
  function Needed(c: Config): nat
    requires SplitSize(c) > 0
  {
    RoundUp(c.image * c.forwarders, SplitSize(c))
  }

  function RoundUp(x: nat, s: nat): nat
    requires s > 0
  {
    (x + s - 1) / s
  }

  lemma RoundedUp(x: nat, s: nat) returns (k: nat)
    requires s > 0 && x > 0
    ensures k == RoundUp(x, s) && k > 0 && (k - 1) * s < x <= k * s
  {
    k := (x + s - 1) / s;
    var r := (x + s - 1) % s;
    assert x + s - 1 == k * s + r;
    assert (k - 1) * s == k * s - s;
  }

  lemma RoundedUpTwice(j: nat, k: nat, s: nat, x: nat)
    requires j > 0 && k > 0 && (j - 1) * s < x <= j * s && (k - 1) * s < x <= k * s
    ensures j == k
  {
    if j < k { MulMonotone(j, k - 1, s); } else if k < j { MulMonotone(k, j - 1, s); }
  }

  lemma AtMostAll(k: nat, n: nat, s: nat, x: nat)
    requires k > 0 && (k - 1) * s < x <= n * s
    ensures k <= n
  {
    if n < k { MulMonotone(n, k - 1, s); }
  }

  lemma Cancel(a: int, b: int, n: nat)
    requires a * n < b * n
    ensures a < b
  {
    if b <= a { MulMonotone(b, a, n); }
  }

  lemma Positive(a: nat, b: nat)
    requires a > 0 && b > 0
    ensures a * b > 0
  {
  }

  lemma NeededIs(c: Config) returns (k: nat)
    requires SplitSize(c) > 0 && c.image > 0 && c.forwarders > 0
    ensures k == Needed(c) && k > 0
    ensures (k - 1) * SplitSize(c) < c.image * c.forwarders <= k * SplitSize(c)
  {
    Positive(c.image, c.forwarders);
    k := RoundedUp(c.image * c.forwarders, SplitSize(c));
  }

  lemma ExitsWhen(c: Config, p: nat)
    requires c.forwarders > 0 && !c.fullImages
    ensures Exits(c, p) <==> c.image * c.forwarders <= p * SplitSize(c)
  {
    var n, x := c.forwarders, p * SplitSize(c);
    assert x == x / n * n + x % n;
    if c.image <= x / n {
      MulMonotone(c.image, x / n, n);
    } else if c.image * n <= x {
      QuotientAtLeast(x, c.image, n);
    }
  }

  lemma {:induction false} ActiveUpTo(c: Config, m: nat, k: nat)
    requires c.forwarders > 0 && !c.fullImages && k > 0
    requires (k - 1) * SplitSize(c) < c.image * c.forwarders <= k * SplitSize(c)
    ensures Active(c, m) == Min(m, k)
  {
    if m > 0 {
      ActiveUpTo(c, m - 1, k);
      ExitsWhen(c, m - 1);
      if m <= k { MulMonotone(m - 1, k - 1, SplitSize(c)); } else { MulMonotone(k, m - 1, SplitSize(c)); }
    }
  }

  /** Enough forwarders have been started if and only if the image is not larger than what is
      divided among them. */
  lemma EnoughForwarders(c: Config, k: nat)
    requires c.forwarders > 0 && k > 0
    requires (k - 1) * SplitSize(c) < c.image * c.forwarders <= k * SplitSize(c)
    ensures k <= c.forwarders <==> c.image <= SplitSize(c)
  {
    var n, m := c.forwarders, SplitSize(c);
    if c.image <= m {
      MulMonotone(c.image, m, n);
      AtMostAll(k, n, m, c.image * n);
    } else {
      MulGrows(m, c.image, n);
      if k <= n { MulMonotone(k, n, m); }
    }
  }

  /** How many senders do not exit. */
  lemma ActiveIs(c: Config)
    requires c.forwarders > 0 && !c.fullImages && SplitSize(c) > 0 && c.image > 0
    ensures Active(c, c.forwarders) == Min(c.forwarders, Needed(c))
    ensures Needed(c) <= c.forwarders <==> c.image <= SplitSize(c)
  {
    var k := NeededIs(c);
    ActiveUpTo(c, c.forwarders, k);
    EnoughForwarders(c, k);
  }

  /** The number of senders that do not exit is the number of parts the synchronizer waits
      for: always when all forwarders are in use ... */
  lemma AllSendersExpected(c: Config)
    requires c.forwarders > 0 && !c.fullImages && c.useAll && c.image > 0
    ensures Active(c, c.forwarders) == NumberOfSenders(c)
  {
    ActiveIs(c);
    var k := NeededIs(c);
    Exactly(k, c.forwarders, c.image);
  }

  lemma Exactly(k: nat, n: nat, m: nat)
    requires k > 0 && m > 0 && (k - 1) * m < m * n <= k * m
    ensures k == n
  {
    Cancel(k - 1, n, m);
    if k < n { MulGrows(k, n, m); }
  }

  lemma FirstParts(k: nat, s: nat, n: nat, m: nat, x: nat)
    requires k > 0 && n > 0 && n * s <= m && (k - 1) * m < x * n
    ensures (k - 1) * s < x
  {
    assert (k - 1) * (n * s) <= (k - 1) * m by { MulMonotone(n * s, m, k - 1); }
    assert (k - 1) * (n * s) == ((k - 1) * s) * n;
    Cancel((k - 1) * s, x, n);
  }

  /** ... and otherwise if and only if the parts of the senders it takes reach the end of the
      image, and there are enough of them. */
  lemma SendersAreExpected(c: Config)
    requires c.forwarders > 0 && !c.fullImages && !c.useAll && c.image > 0 && SingleSize(c) > 0
    ensures SplitSize(c) > 0
    ensures Active(c, c.forwarders) == NumberOfSenders(c)
            <==> c.image <= c.largest && c.image <= Needed(c) * SingleSize(c)
  {
    var n, s := c.forwarders, SingleSize(c);
    Division(c.largest, n, s);
    Positive(n, s);
    ActiveIs(c);
    var k := NeededIs(c);
    var j := RoundedUp(c.image, s);
    FirstParts(k, s, n, c.largest, c.image);
    if c.image <= c.largest {
      if c.image <= k * s { RoundedUpTwice(j, k, s, c.image); } else if j <= k { MulMonotone(j, k, s); }
    } else {
      if j <= n { MulMonotone(j, n, s); }
    }
  }

  /** When the forwarders divide the largest image, the numbers agree for every image ... */
  lemma DividedAlwaysExpected(c: Config)
    requires c.forwarders > 0 && !c.fullImages && !c.useAll && 0 < c.image <= c.largest
    requires c.largest % c.forwarders == 0
    ensures SingleSize(c) > 0 && Active(c, c.forwarders) == NumberOfSenders(c)
  {
    var n, s := c.forwarders, SingleSize(c);
    Division(c.largest, n, s);
    var k := NeededIs(c);
    assert k * c.largest == (k * s) * n;
    if k * s < c.image { MulGrows(k * s, c.image, n); }
    SendersAreExpected(c);
  }

  /** ... and for images of the largest size only then: otherwise the synchronizer waits for a
      part that nobody sends. */
  lemma LargestImageExpected(c: Config)
    requires c.forwarders > 0 && !c.fullImages && !c.useAll && c.image == c.largest > 0 && SingleSize(c) > 0
    ensures Active(c, c.forwarders) == NumberOfSenders(c) <==> c.largest % c.forwarders == 0
  {
    SendersAreExpected(c);
    var k := NeededIs(c);
    Exactly(k, c.forwarders, c.largest);
    Division(c.largest, c.forwarders, SingleSize(c));
  }

  const GIGAFROST_BYTES: nat := 2016 * 2016 * 2

  /** Five forwarders for full Gigafrost images: five senders, six parts expected. */
  lemma FiveForwardersMismatch()
    ensures var c := Config(false, false, GIGAFROST_BYTES, GIGAFROST_BYTES, 5);
            SingleSize(c) > 0 && Active(c, 5) == 5 && NumberOfSenders(c) == 6
  {
    var c := Config(false, false, GIGAFROST_BYTES, GIGAFROST_BYTES, 5);
    ActiveIs(c);
    var k := NeededIs(c);
    Exactly(k, 5, GIGAFROST_BYTES);
    assert SingleSize(c) == 1625702;
  }

  /** Ten forwarders for Gigafrost images of half the height: five senders, six parts expected. */
  lemma HalfImagesMismatch()
    ensures var c := Config(false, false, GIGAFROST_BYTES / 2, GIGAFROST_BYTES, 10);
            SingleSize(c) > 0 && Active(c, 10) == 5 && NumberOfSenders(c) == 6
  {
    ActiveIs(Config(false, false, GIGAFROST_BYTES / 2, GIGAFROST_BYTES, 10));
  }

  // ---- When the parts tile the image ----

  lemma ScaledDivision(p: nat, s: nat, n: nat, r: nat)
    requires n > 0
    ensures p * (s * n + r) / n == p * s + p * r / n
  {
    var q, t := p * r / n, p * r % n;
    assert p * r == q * n + t;
    assert p * (s * n + r) == p * (s * n) + p * r;
    assert p * (s * n) == (p * s) * n;
    assert (p * s + q) * n == (p * s) * n + q * n;
    DivModUnique(p * (s * n + r), p * s + q, t, n);
  }

  lemma NoQuotient(x: nat, n: nat)
    requires n > 0
    ensures x / n == 0 <==> x < n
  {
    if x < n { DivModUnique(x, 0, x, n); }
  }

  /** Parts start late by the remainders that have added up. */
  lemma OffsetIs(c: Config, p: nat, s: nat, r: nat)
    requires c.forwarders > 0 && !c.fullImages && s == SingleSize(c) && r == SplitSize(c) % c.forwarders
    ensures Offset(c, p) == p * s + p * r / c.forwarders
    ensures Offset(c, p) == p * s <==> p * r < c.forwarders
  {
    StartOf(p, SplitSize(c), c.forwarders, s, r, p * r);
  }

  lemma StartOf(p: nat, x: nat, n: nat, s: nat, r: nat, pr: nat)
    requires n > 0 && s == x / n && r == x % n && pr == p * r
    ensures p * x / n == p * s + pr / n
    ensures pr / n == 0 <==> pr < n
  {
    assert x == s * n + r;
    ScaledDivision(p, s, n, r);
    NoQuotient(pr, n);
  }

  lemma NotExiting(c: Config, p: nat, k: nat)
    requires c.forwarders > 0 && !c.fullImages && k > 0
    requires (k - 1) * SplitSize(c) < c.image * c.forwarders <= k * SplitSize(c)
    ensures Exits(c, p) <==> p >= k
  {
    ExitsWhen(c, p);
    if p < k { MulMonotone(p, k - 1, SplitSize(c)); } else { MulMonotone(k, p, SplitSize(c)); }
  }

  /** The byte behind the first `p` parts is not sent by any of them. */
  lemma NotBefore(c: Config, p: nat, q: nat, x: nat)
    requires c.forwarders > 0 && !c.fullImages && q <= p && Offset(c, p) + SingleSize(c) <= x
    ensures !Covers(c, q, x)
  {
    if q < p { OffsetsGrow(c, q, p); }
  }

  /** If every byte is sent, no part of those that are needed starts late. */
  lemma {:induction false} NoneLate(c: Config, p: nat, k: nat, s: nat)
    requires c.forwarders > 0 && !c.fullImages && k > 0 && s == SingleSize(c) && Tiles(c) && p < k
    requires (k - 1) * SplitSize(c) < c.image * c.forwarders <= k * SplitSize(c)
    ensures Offset(c, p) == p * s
  {
    if p == 0 {
      DivModUnique(0, 0, 0, c.forwarders);
    } else {
      NoneLate(c, p - 1, k, s);
      OffsetsGrow(c, p - 1, p);
      NotExiting(c, p, k);
      var x := (p - 1) * s + s;
      assert x == p * s;
      if x < Offset(c, p) {
        assert Covered(c, x);
        var q: nat :| Covers(c, q, x);
        if q <= p - 1 { NotBefore(c, p - 1, q, x); } else if q > p { OffsetsGrow(c, p, q); }
        assert false;
      }
    }
  }

  lemma TilesOnlyIf(c: Config, k: nat, s: nat, r: nat)
    requires c.forwarders > 0 && !c.fullImages && k > 0 && s == SingleSize(c) && r == SplitSize(c) % c.forwarders
    requires (k - 1) * SplitSize(c) < c.image * c.forwarders <= k * SplitSize(c) && Tiles(c)
    ensures (k - 1) * r < c.forwarders && c.image <= k * s && c.image <= SplitSize(c)
  {
    NoneLate(c, k - 1, k, s);
    OffsetIs(c, k - 1, s, r);
    var x := (k - 1) * s + s;
    assert x == k * s;
    if x < c.image {
      assert Covered(c, x);
      var q: nat :| Covers(c, q, x);
      NotExiting(c, q, k);
      NotBefore(c, k - 1, q, x);
      assert false;
    }
    EnoughForwarders(c, k);
    LastByteSent(c, k);
  }

  /** The sender of the last byte is the last one needed, so it has been started. */
  lemma LastByteSent(c: Config, k: nat)
    requires c.forwarders > 0 && !c.fullImages && k > 0 && Tiles(c)
    requires (k - 1) * SplitSize(c) < c.image * c.forwarders <= k * SplitSize(c)
    ensures k <= c.forwarders
  {
    if c.image == 0 {
      assert k <= 1;
    } else {
      var x := c.image - 1;
      assert Covered(c, x);
      var q: nat :| Covers(c, q, x);
      NotExiting(c, q, k);
      NotExiting(c, k - 1, k);
      if q < k - 1 { OffsetsGrow(c, q, k - 1); }
    }
  }

  lemma TilesIf(c: Config, k: nat, s: nat, r: nat)
    requires c.forwarders > 0 && !c.fullImages && k > 0 && s == SingleSize(c) && r == SplitSize(c) % c.forwarders
    requires (k - 1) * SplitSize(c) < c.image * c.forwarders <= k * SplitSize(c)
    requires (k - 1) * r < c.forwarders && c.image <= k * s && c.image <= SplitSize(c)
    ensures Tiles(c)
  {
    EnoughForwarders(c, k);
    forall x: nat | x < c.image
      ensures Covered(c, x)
    {
      var p := PartOf(x, s, k);
      MulMonotone(p, k - 1, r);
      OffsetIs(c, p, s, r);
      NotExiting(c, p, k);
      assert Covers(c, p, x);
    }
  }

  lemma PartOf(x: nat, s: nat, k: nat) returns (p: nat)
    requires x < k * s
    ensures p < k && p * s <= x < p * s + s
  {
    p := x / s;
    assert x == p * s + x % s;
    Cancel(p, k, s);
  }

  /** The parts tile the image, each byte in exactly one of them, if and only if no part that is
      needed starts late, the last one reaches the end of the image, and enough senders have
      been started. */
  lemma PartsTile(c: Config)
    requires c.forwarders > 0 && !c.fullImages && SplitSize(c) > 0 && c.image > 0
    ensures Tiles(c) <==>
              && (Needed(c) - 1) * (SplitSize(c) % c.forwarders) < c.forwarders
              && c.image <= Needed(c) * SingleSize(c)
              && c.image <= SplitSize(c)
  {
    var k := NeededIs(c);
    var s, r := SingleSize(c), SplitSize(c) % c.forwarders;
    if Tiles(c) { TilesOnlyIf(c, k, s, r); }
    if (k - 1) * r < c.forwarders && c.image <= k * s && c.image <= SplitSize(c) { TilesIf(c, k, s, r); }
  }

  /** For an image as large as what is divided, in particular with all forwarders in use, this
      means that the forwarders divide it. */
  lemma WholeImageTiles(c: Config)
    requires c.forwarders > 0 && !c.fullImages && c.image == SplitSize(c) > 0
    ensures Tiles(c) <==> c.image % c.forwarders == 0
  {
    PartsTile(c);
    var k := NeededIs(c);
    Exactly(k, c.forwarders, c.image);
    Division(c.image, c.forwarders, SingleSize(c));
  }

  /** Five forwarders for full Gigafrost images lose a byte between the third and the fourth part. */
  lemma ByteLost(p: nat)
    ensures var c := Config(false, false, GIGAFROST_BYTES, GIGAFROST_BYTES, 5);
            3 * SingleSize(c) < c.image && !Covers(c, p, 3 * SingleSize(c))
  {
    var c := Config(false, false, GIGAFROST_BYTES, GIGAFROST_BYTES, 5);
    if p <= 2 { NotBefore(c, 2, p, 3 * SingleSize(c)); } else if p > 3 { OffsetsGrow(c, 3, p); }
  }
}
