/**
 * Index arithmetic of the Harmony grid.
 *
 * The grid is an n-by-n square indexed (0, 0) at the top-left corner. A cell
 * is named either by its grid coordinates (i, j) -- row i, column j -- or by
 * its position in the row-major list (left to right, top to bottom) that the
 * puzzle input uses for colors and swap counts.
 */
module GridIndex {

  /** A grid coordinate (i, j): the block grid[i][j]. Either part may be out of range. */
  datatype Index = Index(i: int, j: int)

  /** Whether an index lies within the bounds of an n-by-n grid. */
  predicate ValidIndex(n: nat, p: Index)
  {
    0 <= p.i < n && 0 <= p.j < n
  }

  /** Every position of the row-major list of an n-by-n grid has a row and a column below n. */
  lemma QuotientBound(n: nat, k: int)
    requires 0 <= k < n * n
    ensures n > 0 && 0 <= k / n < n && 0 <= k % n < n
  {
  }

  lemma MultiplyMonotone(c: nat, x: int, y: int)
    requires x <= y
    ensures c * x <= c * y
  {
    assert c * y - c * x == c * (y - x);
  }

  /** The grid coordinates of position k of the row-major list. */
  function ListToGridIndex(n: nat, k: int): (p: Index)
    requires 0 <= k < n * n
    ensures ValidIndex(n, p)
  {
    QuotientBound(n, k);
    Index(k / n, k % n)
  }

  /** The position in the row-major list of the block at grid coordinates (i, j). */
  function GridToListIndex(n: nat, i: int, j: int): (k: int)
    ensures ValidIndex(n, Index(i, j)) ==> 0 <= k < n * n
  {
    RowMajorBound(n, i, j);
    i * n + j
  }

  lemma RowMajorBound(n: nat, i: int, j: int)
    ensures ValidIndex(n, Index(i, j)) ==> 0 <= i * n + j < n * n
  {
    if ValidIndex(n, Index(i, j)) {
      MultiplyMonotone(n, i, n - 1);
      assert i * n + j <= (n - 1) * n + (n - 1);
    }
  }

  /** Division by n recovers the row and the column from a row-major position. */
  lemma DivModUnique(n: nat, q: int, r: int)
    requires n > 0 && 0 <= r < n
    ensures (q * n + r) / n == q && (q * n + r) % n == r
  {
    var k := q * n + r;
    var q', r' := k / n, k % n;
    assert k == q' * n + r';
    assert (q - q') * n == r' - r;
    if q' < q {
      MultiplyMonotone(n, 1, q - q');
      assert false;
    } else if q < q' {
      MultiplyMonotone(n, 1, q' - q);
      assert false;
    }
  }

  /** From list position to grid coordinates and back is the identity. */
  lemma {:induction false} ListGridRoundTrip(n: nat, k: int)
    requires 0 <= k < n * n
    ensures GridToListIndex(n, ListToGridIndex(n, k).i, ListToGridIndex(n, k).j) == k
  {
  }

  /** From grid coordinates to list position and back is the identity. */
  lemma {:induction false} GridListRoundTrip(n: nat, p: Index)
    requires ValidIndex(n, p)
    ensures 0 <= GridToListIndex(n, p.i, p.j) < n * n
    ensures ListToGridIndex(n, GridToListIndex(n, p.i, p.j)) == p
  {
    DivModUnique(n, p.i, p.j);
  }

  /** The valid indices are exactly the images of the list positions 0 .. n*n - 1. */
  lemma ValidIndexIsListImage(n: nat, p: Index)
    ensures ValidIndex(n, p) <==> exists k :: 0 <= k < n * n && ListToGridIndex(n, k) == p
  {
    if ValidIndex(n, p) {
      GridListRoundTrip(n, p);
      var k := GridToListIndex(n, p.i, p.j);
      assert 0 <= k < n * n && ListToGridIndex(n, k) == p;
    }
  }

  /**
   * Whether the blocks at a and b may be swapped as far as the shape of the
   * grid goes: both in bounds, and in the same row or the same column. Swap
   * budgets are not considered here.
   */
  predicate IndicesInLine(n: nat, a: Index, b: Index)
  {
    ValidIndex(n, a) && ValidIndex(n, b) && (a.i == b.i || a.j == b.j)
  }

  /** Being in line does not depend on the order of the two indices. */
  lemma InLineSymmetric(n: nat, a: Index, b: Index)
    ensures IndicesInLine(n, a, b) == IndicesInLine(n, b, a)
  {
  }

  /** As written, every block in bounds is in line with itself. */
  lemma InLineReflexive(n: nat, a: Index)
    ensures IndicesInLine(n, a, a) <==> ValidIndex(n, a)
  {
  }

  /** In terms of list positions: same row means same quotient, same column same remainder. */
  lemma InLineByListIndex(n: nat, k1: int, k2: int)
    requires 0 <= k1 < n * n && 0 <= k2 < n * n
    ensures IndicesInLine(n, ListToGridIndex(n, k1), ListToGridIndex(n, k2))
        <==> k1 / n == k2 / n || k1 % n == k2 % n
  {
  }
}
