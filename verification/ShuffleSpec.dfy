/** What bit shuffling means, said bit by bit, and why it can be undone.  The
    workers of `BitShuffle` and `BitShuffleSimd` are proved against this. */
module ShuffleSpec {
  import opened Arith
  import opened Bits
  import opened Grid

  /** Bit `k` of byte `j` of element `8 * m + c`, elements of `e` bytes. */
  predicate ElemBit(a: seq<bv8>, e: nat, m: nat, c: nat, j: nat, k: nat)
    requires k < 8
  {
    Bit(Cell(a, 8 * m + c, e, j), k)
  }

  /** Bit `c` of byte `m` in row `8 * j + k`, rows of `q` bytes. */
  predicate RowBit(s: seq<bv8>, q: nat, j: nat, k: nat, m: nat, c: nat)
    requires c < 8
  {
    Bit(Cell(s, 8 * j + k, q, m), c)
  }

  /** `s` is the bit shuffle of the `8 * q` elements of `e` bytes in `a`: bit `k` of
      byte `j` of element `8 * m + c` is bit `c` of byte `m` in row `8 * j + k`. */
  ghost predicate BitShuffled(a: seq<bv8>, s: seq<bv8>, q: nat, e: nat) {
    forall j: nat, k: nat, m: nat, c: nat :: j < e && k < 8 && m < q && c < 8 ==>
      RowBit(s, q, j, k, m, c) == ElemBit(a, e, m, c, j, k)
  }

  function Shuffle(a: seq<bv8>, q: nat, e: nat): (s: seq<bv8>)
    ensures |s| == 8 * e * q
  {
    seq(8 * e * q, p requires 0 <= p < 8 * e * q => ShuffledByte(a, e, p / q / 8, p / q % 8, p % q))
  }

  /** Byte `m` of row `8 * j + k`. */
  function ShuffledByte(a: seq<bv8>, e: nat, j: nat, k: nat, m: nat): (b: bv8)
    requires k < 8
    ensures forall c: nat :: c < 8 ==> Bit(b, c) == Bit(Cell(a, 8 * m + c, e, j), k)
  {
    FromBits(Bit(Cell(a, 8 * m, e, j), k), Bit(Cell(a, 8 * m + 1, e, j), k),
             Bit(Cell(a, 8 * m + 2, e, j), k), Bit(Cell(a, 8 * m + 3, e, j), k),
             Bit(Cell(a, 8 * m + 4, e, j), k), Bit(Cell(a, 8 * m + 5, e, j), k),
             Bit(Cell(a, 8 * m + 6, e, j), k), Bit(Cell(a, 8 * m + 7, e, j), k))
  }

  function Unshuffle(s: seq<bv8>, q: nat, e: nat): (a: seq<bv8>)
    ensures |a| == 8 * q * e
  {
    seq(8 * q * e, p requires 0 <= p < 8 * q * e => UnshuffledByte(s, q, p % e, p / e / 8, p / e % 8))
  }

  /** Byte `j` of element `8 * m + c`. */
  function UnshuffledByte(s: seq<bv8>, q: nat, j: nat, m: nat, c: nat): (b: bv8)
    requires c < 8
    ensures forall k: nat :: k < 8 ==> Bit(b, k) == Bit(Cell(s, 8 * j + k, q, m), c)
  {
    FromBits(Bit(Cell(s, 8 * j, q, m), c), Bit(Cell(s, 8 * j + 1, q, m), c),
             Bit(Cell(s, 8 * j + 2, q, m), c), Bit(Cell(s, 8 * j + 3, q, m), c),
             Bit(Cell(s, 8 * j + 4, q, m), c), Bit(Cell(s, 8 * j + 5, q, m), c),
             Bit(Cell(s, 8 * j + 6, q, m), c), Bit(Cell(s, 8 * j + 7, q, m), c))
  }

  lemma CellOfShuffle(a: seq<bv8>, q: nat, e: nat, j: nat, k: nat, m: nat)
    requires j < e && k < 8 && m < q
    ensures Cell(Shuffle(a, q, e), 8 * j + k, q, m) == ShuffledByte(a, e, j, k, m)
  {
    AtBound(8 * j + k, q, m, 8 * e);
    AtProduct(8 * j + k, q, m);
    var p := At(8 * j + k, q, m);
    DivModUnique(p, 8 * j + k, m, q);
    assert p / q / 8 == j && p / q % 8 == k && p % q == m;
    assert Shuffle(a, q, e)[p] == ShuffledByte(a, e, j, k, m);
  }

  lemma CellOfUnshuffle(s: seq<bv8>, q: nat, e: nat, j: nat, m: nat, c: nat)
    requires j < e && m < q && c < 8
    ensures Cell(Unshuffle(s, q, e), 8 * m + c, e, j) == UnshuffledByte(s, q, j, m, c)
  {
    AtBound(8 * m + c, e, j, 8 * q);
    AtProduct(8 * m + c, e, j);
    var p := At(8 * m + c, e, j);
    DivModUnique(p, 8 * m + c, j, e);
    assert p / e / 8 == m && p / e % 8 == c && p % e == j;
    assert Unshuffle(s, q, e)[p] == UnshuffledByte(s, q, j, m, c);
  }

  /** The formula is met by `Shuffle` ... */
  lemma ShuffleShuffles(a: seq<bv8>, q: nat, e: nat)
    ensures BitShuffled(a, Shuffle(a, q, e), q, e)
  {
    forall j: nat, k: nat, m: nat, c: nat | j < e && k < 8 && m < q && c < 8
      ensures RowBit(Shuffle(a, q, e), q, j, k, m, c) == ElemBit(a, e, m, c, j, k)
    {
      CellOfShuffle(a, q, e, j, k, m);
    }
  }

  lemma UnshuffleShuffles(s: seq<bv8>, q: nat, e: nat)
    ensures BitShuffled(Unshuffle(s, q, e), s, q, e)
  {
    forall j: nat, k: nat, m: nat, c: nat | j < e && k < 8 && m < q && c < 8
      ensures RowBit(s, q, j, k, m, c) == ElemBit(Unshuffle(s, q, e), e, m, c, j, k)
    {
      CellOfUnshuffle(s, q, e, j, m, c);
    }
  }

  /** ... and by nothing else, whichever side is given. */
  lemma ShuffleUnique(a: seq<bv8>, s: seq<bv8>, s': seq<bv8>, q: nat, e: nat)
    requires |s| == |s'| == 8 * e * q && BitShuffled(a, s, q, e) && BitShuffled(a, s', q, e)
    ensures s == s'
  {
    forall r: nat, m: nat | r < 8 * e && m < q
      ensures Cell(s, r, q, m) == Cell(s', r, q, m)
    {
      var j, k := r / 8, r % 8;
      forall c: nat | c < 8
        ensures Bit(Cell(s, r, q, m), c) == Bit(Cell(s', r, q, m), c)
      {
        assert RowBit(s, q, j, k, m, c) == RowBit(s', q, j, k, m, c);
      }
      SameBits(Cell(s, r, q, m), Cell(s', r, q, m));
    }
    SameCells(s, s', 8 * e, q);
  }

  lemma UnshuffleUnique(a: seq<bv8>, a': seq<bv8>, s: seq<bv8>, q: nat, e: nat)
    requires |a| == |a'| == 8 * q * e && BitShuffled(a, s, q, e) && BitShuffled(a', s, q, e)
    ensures a == a'
  {
    forall i: nat, j: nat | i < 8 * q && j < e
      ensures Cell(a, i, e, j) == Cell(a', i, e, j)
    {
      var m, c := i / 8, i % 8;
      forall k: nat | k < 8
        ensures Bit(Cell(a, i, e, j), k) == Bit(Cell(a', i, e, j), k)
      {
        assert ElemBit(a, e, m, c, j, k) == ElemBit(a', e, m, c, j, k);
      }
      SameBits(Cell(a, i, e, j), Cell(a', i, e, j));
    }
    SameCells(a, a', 8 * q, e);
  }

  /** Unshuffling undoes shuffling, and the other way round. */
  lemma UnshuffleInverts(a: seq<bv8>, q: nat, e: nat)
    requires |a| == 8 * q * e
    ensures Unshuffle(Shuffle(a, q, e), q, e) == a
    ensures Shuffle(Unshuffle(a, q, e), q, e) == a
  {
    var s := Shuffle(a, q, e);
    ShuffleShuffles(a, q, e);
    UnshuffleShuffles(s, q, e);
    UnshuffleUnique(a, Unshuffle(s, q, e), s, q, e);
    var u := Unshuffle(a, q, e);
    UnshuffleShuffles(a, q, e);
    ShuffleShuffles(u, q, e);
    ShuffleUnique(u, a, Shuffle(u, q, e), q, e);
  }
}
