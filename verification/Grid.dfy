/** Addresses of row-major tables. */
module Grid {
  import opened Arith

  /** Column `j` of row `i` in a table of width `w`: `i * w + j`.  Counting the rows
      keeps products of variables away from the solver. */
  function At(i: nat, w: nat, j: nat): nat {
    if i == 0 then j else w + At(i - 1, w, j)
  }

  lemma {:induction false} AtProduct(i: nat, w: nat, j: nat)
    ensures At(i, w, j) == i * w + j
  {
    if i > 0 { AtProduct(i - 1, w, j); }
  }

  lemma AtBound(i: nat, w: nat, j: nat, rows: nat)
    requires i < rows && j < w
    ensures At(i, w, j) < rows * w
  {
    AtProduct(i, w, j);
    MulGrows(i, rows, w);
  }

  /** Different cells have different addresses. */
  lemma {:induction false} AtInjective(i: nat, j: nat, i': nat, j': nat, w: nat)
    requires j < w && j' < w && At(i, w, j) == At(i', w, j')
    ensures i == i' && j == j'
  {
    if i > 0 && i' > 0 { AtInjective(i - 1, j, i' - 1, j', w); }
  }

  /** Every address is the address of a cell. */
  lemma AtCovers(p: nat, w: nat, rows: nat) returns (i: nat, j: nat)
    requires p < rows * w
    ensures i < rows && j < w && p == At(i, w, j)
  {
    i, j := p / w, p % w;
    AtProduct(i, w, j);
    if i >= rows {
      if i > rows { MulGrows(rows, i, w); }
      assert false;
    }
  }

  /** A table of tables is a table of their rows. */
  lemma AtNested(i: nat, a: nat, j: nat, w: nat, k: nat)
    ensures At(i, a * w, At(j, w, k)) == At(At(i, a, j), w, k)
  {
    AtProduct(i, a * w, At(j, w, k));
    AtProduct(j, w, k);
    AtProduct(i, a, j);
    AtProduct(At(i, a, j), w, k);
    Regroup(i, a, j, w);
  }

  /** Byte `c` of word `m` in a row of `q` words. */
  lemma AtWord(j: nat, q: nat, m: nat, c: nat)
    ensures At(At(j, q, m), 8, c) == At(j, 8 * q, 8 * m + c)
  {
    AtProduct(At(j, q, m), 8, c);
    AtProduct(j, 8 * q, 8 * m + c);
    AtProduct(j, q, m);
    assert j * (8 * q) == 8 * (j * q);
  }

  /** The cell in row `i` and column `j` of a table of bytes of width `w`. */
  function Cell(s: seq<bv8>, i: nat, w: nat, j: nat): bv8 {
    if At(i, w, j) < |s| then s[At(i, w, j)] else 0
  }

  lemma CellUpdate(s: seq<bv8>, i: nat, j: nat, w: nat, v: bv8)
    requires j < w && At(i, w, j) < |s|
    ensures forall i': nat, j': nat {:trigger Cell(s[At(i, w, j) := v], i', w, j')} :: j' < w ==>
              Cell(s[At(i, w, j) := v], i', w, j') == if i' == i && j' == j then v else Cell(s, i', w, j')
  {
    forall i': nat, j': nat | j' < w
      ensures Cell(s[At(i, w, j) := v], i', w, j') == if i' == i && j' == j then v else Cell(s, i', w, j')
    {
      if At(i', w, j') == At(i, w, j) { AtInjective(i, j, i', j', w); }
    }
  }

  /** Tables with the same cells are the same. */
  lemma SameCells(s: seq<bv8>, t: seq<bv8>, rows: nat, w: nat)
    requires |s| == |t| == rows * w
    requires forall i: nat, j: nat :: i < rows && j < w ==> Cell(s, i, w, j) == Cell(t, i, w, j)
    ensures s == t
  {
    forall p | 0 <= p < |s|
      ensures s[p] == t[p]
    {
      var i, j := AtCovers(p, w, rows);
      assert Cell(s, i, w, j) == Cell(t, i, w, j);
    }
  }
}
