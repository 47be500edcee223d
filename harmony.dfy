/**
 * The state of a game of Harmony 3.
 *
 * An n-by-n grid of blocks; each block holds a color and the number of swaps
 * it must still take part in. Two blocks may be swapped only when they share
 * a row or a column and both still have swaps left; a swap exchanges their
 * colors and uses up one swap of each. The game is solved when no swaps are
 * left and row i holds only color i.
 *
 * The queries of the game (valid_swap, game_solved, valid_moves, ...) are
 * functions of the state they read; the class Harmony holds that state and
 * updates it in place (construction, swap, unswap).
 */
module HarmonyGame {
  import opened GridIndex

  /** One block of the grid: its color and the number of swaps it must still take part in. */
  datatype Block = Block(color: int, swaps: nat)

  /** The grid as rows of blocks: g[i][j] is the block at row i, column j. */
  type Grid = seq<seq<Block>>

  /** One swap of the blocks at a and b. */
  datatype Move = Move(a: Index, b: Index)

  datatype Option<T> = None | Some(value: T)

  /** g has n rows of n blocks each. */
  predicate WellFormed(n: nat, g: Grid)
  {
    |g| == n && forall r :: 0 <= r < |g| ==> |g[r]| == n
  }

  /** The block at index p. */
  function At(n: nat, g: Grid, p: Index): (x: Block)
    requires WellFormed(n, g) && ValidIndex(n, p)
  {
    g[p.i][p.j]
  }

  /** g with the block at p replaced by x, and nothing else changed. */
  function Put(n: nat, g: Grid, p: Index, x: Block): (r: Grid)
    requires WellFormed(n, g) && ValidIndex(n, p)
    ensures WellFormed(n, r)
    ensures At(n, r, p) == x
    ensures forall q :: ValidIndex(n, q) && q != p ==> At(n, r, q) == At(n, g, q)
  {
    g[p.i := g[p.i][p.j := x]]
  }

  // ---------------------------------------------------------------------------
  // Swap totals
  // ---------------------------------------------------------------------------

  function Sum(s: seq<nat>): (total: nat)
  {
    if s == [] then 0 else s[0] + Sum(s[1..])
  }

  /** The swaps left in one row. */
  function RowSwaps(row: seq<Block>): (total: nat)
  {
    if row == [] then 0 else row[0].swaps + RowSwaps(row[1..])
  }

  /** The swaps left in the whole grid: what moves_left keeps track of. */
  function TotalSwaps(g: Grid): (total: nat)
  {
    if g == [] then 0 else RowSwaps(g[0]) + TotalSwaps(g[1..])
  }

  lemma {:induction false} SumAppend(s: seq<nat>, t: seq<nat>)
    ensures Sum(s + t) == Sum(s) + Sum(t)
  {
    if s == [] {
      assert s + t == t;
    } else {
      assert (s + t)[1..] == s[1..] + t;
      SumAppend(s[1..], t);
    }
  }

  /** A row's swap total is the sum of the swap counts it was built from. */
  lemma {:induction false} RowSwapsAsSum(row: seq<Block>, s: seq<nat>)
    requires |row| == |s|
    requires forall j :: 0 <= j < |row| ==> row[j].swaps == s[j]
    ensures RowSwaps(row) == Sum(s)
  {
    if row != [] {
      RowSwapsAsSum(row[1..], s[1..]);
    }
  }

  lemma {:induction false} RowSwapsUpdate(row: seq<Block>, j: nat, x: Block)
    requires j < |row|
    ensures RowSwaps(row[j := x]) == RowSwaps(row) - row[j].swaps + x.swaps
  {
    if j == 0 {
      assert row[j := x][1..] == row[1..];
    } else {
      assert row[j := x][1..] == row[1..][j - 1 := x];
      RowSwapsUpdate(row[1..], j - 1, x);
    }
  }

  lemma {:induction false} TotalSwapsUpdate(g: Grid, i: nat, row: seq<Block>)
    requires i < |g|
    ensures TotalSwaps(g[i := row]) == TotalSwaps(g) - RowSwaps(g[i]) + RowSwaps(row)
  {
    if i == 0 {
      assert g[i := row][1..] == g[1..];
    } else {
      assert g[i := row][1..] == g[1..][i - 1 := row];
      TotalSwapsUpdate(g[1..], i - 1, row);
    }
  }

  /** Replacing one block changes the total by the difference of the two swap counts. */
  lemma PutTotal(n: nat, g: Grid, p: Index, x: Block)
    requires WellFormed(n, g) && ValidIndex(n, p)
    ensures TotalSwaps(Put(n, g, p, x)) == TotalSwaps(g) - At(n, g, p).swaps + x.swaps
  {
    RowSwapsUpdate(g[p.i], p.j, x);
    TotalSwapsUpdate(g, p.i, g[p.i][p.j := x]);
  }

  /** Every block of the grid has used up its swaps. */
  predicate AllSwapsSpent(n: nat, g: Grid)
    requires WellFormed(n, g)
  {
    forall i, j :: 0 <= i < n && 0 <= j < n ==> g[i][j].swaps == 0
  }

  lemma {:induction false} RowSwapsZero(row: seq<Block>)
    ensures RowSwaps(row) == 0 <==> forall j :: 0 <= j < |row| ==> row[j].swaps == 0
  {
    if row != [] {
      RowSwapsZero(row[1..]);
      if RowSwaps(row) == 0 {
        forall j | 0 <= j < |row| ensures row[j].swaps == 0 {
          if j > 0 {
            assert row[j] == row[1..][j - 1];
          }
        }
      } else if row[0].swaps == 0 {
        var j :| 0 <= j < |row[1..]| && row[1..][j].swaps != 0;
        assert row[j + 1].swaps != 0;
      }
    }
  }

  lemma {:induction false} TotalSwapsZeroRows(g: Grid)
    ensures TotalSwaps(g) == 0 <==> forall r :: 0 <= r < |g| ==> RowSwaps(g[r]) == 0
  {
    if g != [] {
      TotalSwapsZeroRows(g[1..]);
      if TotalSwaps(g) == 0 {
        forall r | 0 <= r < |g| ensures RowSwaps(g[r]) == 0 {
          if r > 0 {
            assert g[r] == g[1..][r - 1];
          }
        }
      } else if RowSwaps(g[0]) == 0 {
        var r :| 0 <= r < |g[1..]| && RowSwaps(g[1..][r]) != 0;
        assert RowSwaps(g[r + 1]) != 0;
      }
    }
  }

  /** The total is zero exactly when every block has used up its swaps. */
  lemma TotalSwapsZero(n: nat, g: Grid)
    requires WellFormed(n, g)
    ensures TotalSwaps(g) == 0 <==> AllSwapsSpent(n, g)
  {
    TotalSwapsZeroRows(g);
    forall r | 0 <= r < n {
      RowSwapsZero(g[r]);
    }
    if !AllSwapsSpent(n, g) {
      var i, j :| 0 <= i < n && 0 <= j < n && g[i][j].swaps != 0;
      assert RowSwaps(g[i]) != 0;
    }
  }

  // ---------------------------------------------------------------------------
  // Construction
  // ---------------------------------------------------------------------------

  /** The side length the game gets: with no colors or no swaps there is no valid game. */
  function GameSize(n: nat, colors: seq<int>, swaps: seq<nat>): (m: nat)
  {
    if colors == [] || swaps == [] then 0 else n
  }

  /** The grid that the row-major lists colors and swaps describe: n rows of n blocks. */
  function InitialGrid(n: nat, colors: seq<int>, swaps: seq<nat>): (g: Grid)
    requires |colors| >= n * n && |swaps| >= n * n
    ensures WellFormed(n, g)
  {
    seq(n, i requires 0 <= i < n =>
      seq(n, j requires 0 <= j < n =>
        Block(colors[GridToListIndex(n, i, j)], swaps[GridToListIndex(n, i, j)])))
  }

  /**
   * The game built from the lists has no blocks exactly when a list is
   * missing or n is 0; otherwise it has side length n.
   */
  lemma EmptyGameIffListMissing(n: nat, colors: seq<int>, swaps: seq<nat>)
    requires colors != [] && swaps != [] ==> |colors| >= n * n && |swaps| >= n * n
    ensures GameSize(n, colors, swaps) * GameSize(n, colors, swaps) <= |colors|
    ensures GameSize(n, colors, swaps) * GameSize(n, colors, swaps) <= |swaps|
    ensures InitialGrid(GameSize(n, colors, swaps), colors, swaps) == []
        <==> colors == [] || swaps == [] || n == 0
    ensures colors != [] && swaps != [] ==> |InitialGrid(GameSize(n, colors, swaps), colors, swaps)| == n
  {
  }

  /** The block at (i, j) of the initial grid comes from list position i*n + j. */
  lemma InitialBlock(n: nat, colors: seq<int>, swaps: seq<nat>, i: nat, j: nat)
    requires |colors| >= n * n && |swaps| >= n * n
    requires i < n && j < n
    ensures i * n + j < n * n
    ensures InitialGrid(n, colors, swaps)[i][j] == Block(colors[i * n + j], swaps[i * n + j])
  {
    RowMajorBound(n, i, j);
  }

  /** Position k of the row-major lists lands at grid coordinates ListToGridIndex(k). */
  lemma InitialGridRowMajor(n: nat, colors: seq<int>, swaps: seq<nat>, k: int)
    requires |colors| >= n * n && |swaps| >= n * n
    requires 0 <= k < n * n
    ensures At(n, InitialGrid(n, colors, swaps), ListToGridIndex(n, k)) == Block(colors[k], swaps[k])
  {
  }

  /**
   * The swaps counted at construction, as the source has it: every entry of
   * the swaps list, whether or not it made it into the grid.
   */
  function InitialMovesLeftAsWritten(swaps: seq<nat>): (movesLeft: nat)
  {
    Sum(swaps)
  }

  /** The swaps counted at construction, corrected: only the n*n entries the grid holds. */
  function InitialMovesLeft(n: nat, swaps: seq<nat>): (movesLeft: nat)
    requires |swaps| >= n * n
  {
    Sum(swaps[..n * n])
  }

  /** The bounds of row k of the row-major list. */
  lemma RowBounds(n: nat, k: nat)
    requires k < n
    ensures k * n + n == (k + 1) * n <= n * n
  {
    MultiplyMonotone(n, k + 1, n);
  }

  /** Row k of the initial grid holds the swaps of list positions k*n .. k*n+n-1. */
  lemma InitialRowTotal(n: nat, colors: seq<int>, swaps: seq<nat>, k: nat)
    requires |colors| >= n * n && |swaps| >= n * n
    requires k < n
    ensures k * n + n <= n * n
    ensures RowSwaps(InitialGrid(n, colors, swaps)[k]) == Sum(swaps[k * n .. k * n + n])
  {
    RowBounds(n, k);
    var g: Grid := InitialGrid(n, colors, swaps);
    var s := swaps[k * n .. k * n + n];
    forall j: int | 0 <= j < n ensures g[k][j].swaps == s[j] {
      InitialBlock(n, colors, swaps, k, j);
    }
    RowSwapsAsSum(g[k], s);
  }

  /** Rows k .. n-1 of the initial grid hold the swaps of list positions k*n .. n*n-1. */
  lemma {:induction false} InitialRowsTotal(n: nat, colors: seq<int>, swaps: seq<nat>, k: nat)
    requires |colors| >= n * n && |swaps| >= n * n
    requires k <= n
    ensures k * n <= n * n
    ensures TotalSwaps(InitialGrid(n, colors, swaps)[k..]) == Sum(swaps[k * n .. n * n])
    decreases n - k
  {
    var g: Grid := InitialGrid(n, colors, swaps);
    if k == n {
      assert g[k..] == [];
    } else {
      InitialRowTotal(n, colors, swaps, k);
      InitialRowsTotal(n, colors, swaps, k + 1);
      var lo, mid := k * n, k * n + n;
      assert mid == (k + 1) * n;
      assert g[k..][1..] == g[k + 1..];
      assert swaps[lo .. n * n] == swaps[lo .. mid] + swaps[mid .. n * n];
      SumAppend(swaps[lo .. mid], swaps[mid .. n * n]);
    }
  }

  /** The corrected count at construction is the total of the grid that was built. */
  lemma InitialTotal(n: nat, colors: seq<int>, swaps: seq<nat>)
    requires |colors| >= n * n && |swaps| >= n * n
    ensures TotalSwaps(InitialGrid(n, colors, swaps)) == InitialMovesLeft(n, swaps)
  {
    InitialRowsTotal(n, colors, swaps, 0);
    assert InitialGrid(n, colors, swaps)[0..] == InitialGrid(n, colors, swaps);
  }

  /** On well-formed input (exactly n*n swap counts) the two counts agree. */
  lemma MovesLeftAgreeOnExactInput(n: nat, colors: seq<int>, swaps: seq<nat>)
    requires |colors| >= n * n && |swaps| == n * n
    ensures InitialMovesLeftAsWritten(swaps) == TotalSwaps(InitialGrid(n, colors, swaps))
  {
    InitialTotal(n, colors, swaps);
    assert swaps[..n * n] == swaps;
  }

  /**
   * As written, a game built with no colors but some swaps gets n = 0 and an
   * empty grid, yet counts the swaps: moves_left is 2 for swaps [1, 1].
   */
  lemma MovesLeftAsWrittenMismatch()
    ensures GameSize(2, [], [1, 1]) == 0
    ensures InitialGrid(0, [], [1, 1]) == []
    ensures InitialMovesLeftAsWritten([1, 1]) == 2 != TotalSwaps(InitialGrid(0, [], [1, 1]))
  {
    assert [1, 1][1..] == [1];
  }

  // ---------------------------------------------------------------------------
  // Rules of the game
  // ---------------------------------------------------------------------------

  /**
   * valid_swap as its documentation states it: a and b in line, and both
   * blocks with swaps left. A block is in line with itself, so this admits a
   * "swap" of a block with itself.
   */
  predicate ValidSwapAsWritten(n: nat, g: Grid, a: Index, b: Index)
    requires WellFormed(n, g)
  {
    IndicesInLine(n, a, b) && At(n, g, a).swaps > 0 && At(n, g, b).swaps > 0
  }

  /**
   * valid_swap: a and b are two different blocks in the same row or column,
   * and both still have swaps left.
   */
  predicate ValidSwap(n: nat, g: Grid, a: Index, b: Index)
    requires WellFormed(n, g)
  {
    IndicesInLine(n, a, b) && a != b && At(n, g, a).swaps > 0 && At(n, g, b).swaps > 0
  }

  /** The corrected rule is the documented one without the swap of a block with itself. */
  lemma ValidSwapCorrection(n: nat, g: Grid, a: Index, b: Index)
    requires WellFormed(n, g)
    ensures ValidSwap(n, g, a, b) <==> ValidSwapAsWritten(n, g, a, b) && a != b
  {
  }

  /** A valid swap does not depend on the order of the two indices. */
  lemma ValidSwapSymmetric(n: nat, g: Grid, a: Index, b: Index)
    requires WellFormed(n, g)
    ensures ValidSwap(n, g, a, b) == ValidSwap(n, g, b, a)
  {
  }

  /** has_swaps_left: the number of swaps left is an even number above zero. */
  predicate HasSwapsLeft(movesLeft: int)
  {
    movesLeft > 0 && movesLeft % 2 == 0
  }

  /** Every block in row i has color i: the gradient, color 0 at the top. */
  predicate ColorsByRow(n: nat, g: Grid)
    requires WellFormed(n, g)
  {
    forall i, j :: 0 <= i < n && 0 <= j < n ==> g[i][j].color == i
  }

  /** game_solved: all swaps are used up and the blocks are in order of color by row. */
  predicate GameSolved(n: nat, g: Grid)
    requires WellFormed(n, g)
  {
    AllSwapsSpent(n, g) && ColorsByRow(n, g)
  }

  /** With moves_left kept equal to the total, the O(1) test on moves_left decides game_solved. */
  lemma SolvedByCounter(n: nat, g: Grid, movesLeft: int)
    requires WellFormed(n, g) && movesLeft == TotalSwaps(g)
    ensures GameSolved(n, g) <==> movesLeft == 0 && ColorsByRow(n, g)
  {
    TotalSwapsZero(n, g);
  }

  /**
   * The starting points: the blocks that still have swaps left. tests.py reads
   * them as an attribute that harmony.py does not define.
   */
  function StartingPoints(n: nat, g: Grid): (r: set<Index>)
    requires WellFormed(n, g)
    ensures forall p :: p in r <==> ValidIndex(n, p) && At(n, g, p).swaps > 0
  {
    var r := set i, j | 0 <= i < n && 0 <= j < n && g[i][j].swaps > 0 :: Index(i, j);
    assert forall p :: ValidIndex(n, p) && At(n, g, p).swaps > 0 ==> p in r by {
      forall p | ValidIndex(n, p) && At(n, g, p).swaps > 0 ensures p in r {
        assert p == Index(p.i, p.j);
      }
    }
    r
  }

  /** There are no starting points exactly when no swaps are left. */
  lemma NoStartingPointsIffSpent(n: nat, g: Grid)
    requires WellFormed(n, g)
    ensures StartingPoints(n, g) == {} <==> TotalSwaps(g) == 0
  {
    TotalSwapsZero(n, g);
    if !AllSwapsSpent(n, g) {
      var i, j :| 0 <= i < n && 0 <= j < n && g[i][j].swaps != 0;
      assert Index(i, j) in StartingPoints(n, g);
    }
  }

  // ---------------------------------------------------------------------------
  // Moves
  // ---------------------------------------------------------------------------

  /** The valid swap partners of a in a's row, from column j onwards, left to right. */
  function MovesInRow(n: nat, g: Grid, a: Index, j: nat): (r: seq<Index>)
    requires WellFormed(n, g)
    ensures forall b :: b in r <==> b.i == a.i && j <= b.j && ValidSwap(n, g, a, b)
    ensures forall x, y :: 0 <= x < y < |r| ==> r[x].j < r[y].j
    decreases n - j
  {
    if j >= n then []
    else
      var rest := MovesInRow(n, g, a, j + 1);
      if ValidSwap(n, g, a, Index(a.i, j)) then [Index(a.i, j)] + rest else rest
  }

  /** The valid swap partners of a in a's column, from row i onwards, top to bottom. */
  function MovesInColumn(n: nat, g: Grid, a: Index, i: nat): (r: seq<Index>)
    requires WellFormed(n, g)
    ensures forall b :: b in r <==> b.j == a.j && i <= b.i && ValidSwap(n, g, a, b)
    ensures forall x, y :: 0 <= x < y < |r| ==> r[x].i < r[y].i
    decreases n - i
  {
    if i >= n then []
    else
      var rest := MovesInColumn(n, g, a, i + 1);
      if ValidSwap(n, g, a, Index(i, a.j)) then [Index(i, a.j)] + rest else rest
  }

  /**
   * valid_moves: the swap candidates of a, each one a valid swap with a, every
   * valid swap partner listed, none twice (row partners first, then column
   * partners).
   */
  function ValidMoves(n: nat, g: Grid, a: Index): (r: seq<Index>)
    requires WellFormed(n, g)
    ensures forall b :: b in r <==> ValidSwap(n, g, a, b)
    ensures forall x, y :: 0 <= x < y < |r| ==> r[x] != r[y]
  {
    var row, column := MovesInRow(n, g, a, 0), MovesInColumn(n, g, a, 0);
    var r := row + column;
    assert forall x, y :: 0 <= x < y < |r| ==> r[x] != r[y] by {
      forall x, y | 0 <= x < y < |r| ensures r[x] != r[y] {
        if y < |row| {
        } else if |row| <= x {
          assert r[x] == column[x - |row|] && r[y] == column[y - |row|];
        } else {
          assert r[x] in row && r[y] in column;
        }
      }
    }
    r
  }

  /** Once every swap is used up, no block has a valid move. */
  lemma NoMovesWhenSpent(n: nat, g: Grid, a: Index)
    requires WellFormed(n, g) && TotalSwaps(g) == 0
    ensures ValidMoves(n, g, a) == []
  {
    TotalSwapsZero(n, g);
    NoRowMovesWhenSpent(n, g, a, 0);
    NoColumnMovesWhenSpent(n, g, a, 0);
  }

  lemma {:induction false} NoRowMovesWhenSpent(n: nat, g: Grid, a: Index, j: nat)
    requires WellFormed(n, g) && AllSwapsSpent(n, g)
    ensures MovesInRow(n, g, a, j) == []
    decreases n - j
  {
    if j < n {
      NoRowMovesWhenSpent(n, g, a, j + 1);
    }
  }

  lemma {:induction false} NoColumnMovesWhenSpent(n: nat, g: Grid, a: Index, i: nat)
    requires WellFormed(n, g) && AllSwapsSpent(n, g)
    ensures MovesInColumn(n, g, a, i) == []
    decreases n - i
  {
    if i < n {
      NoColumnMovesWhenSpent(n, g, a, i + 1);
    }
  }

  // ---------------------------------------------------------------------------
  // Swap and unswap
  // ---------------------------------------------------------------------------

  /**
   * The grid after swap(a, b): the colors at a and b are exchanged and each
   * block's swap count drops by 1, the block at b written last.
   */
  function SwapGrid(n: nat, g: Grid, a: Index, b: Index): (r: Grid)
    requires WellFormed(n, g) && ValidIndex(n, a) && ValidIndex(n, b)
    requires At(n, g, a).swaps > 0 && At(n, g, b).swaps > 0
    ensures WellFormed(n, r)
    ensures a != b ==> At(n, r, a) == Block(At(n, g, b).color, At(n, g, a).swaps - 1)
    ensures At(n, r, b) == Block(At(n, g, a).color, At(n, g, b).swaps - 1)
    ensures forall p :: ValidIndex(n, p) && p != a && p != b ==> At(n, r, p) == At(n, g, p)
    ensures TotalSwaps(r) == TotalSwaps(g) - (if a == b then 1 else 2)
  {
    var x, y := At(n, g, a), At(n, g, b);
    var g1 := Put(n, g, a, Block(y.color, x.swaps - 1));
    PutTotal(n, g, a, Block(y.color, x.swaps - 1));
    var r := Put(n, g1, b, Block(x.color, y.swaps - 1));
    PutTotal(n, g1, b, Block(x.color, y.swaps - 1));
    r
  }

  /**
   * The grid after unswap(a, b): the colors at a and b are exchanged back
   * and each block's swap count rises by 1.
   */
  function UnswapGrid(n: nat, g: Grid, a: Index, b: Index): (r: Grid)
    requires WellFormed(n, g) && ValidIndex(n, a) && ValidIndex(n, b)
    ensures WellFormed(n, r)
    ensures a != b ==> At(n, r, a) == Block(At(n, g, b).color, At(n, g, a).swaps + 1)
    ensures At(n, r, b) == Block(At(n, g, a).color, At(n, g, b).swaps + 1)
    ensures forall p :: ValidIndex(n, p) && p != a && p != b ==> At(n, r, p) == At(n, g, p)
    ensures TotalSwaps(r) == TotalSwaps(g) + (if a == b then 1 else 2)
  {
    var x, y := At(n, g, a), At(n, g, b);
    var g1 := Put(n, g, a, Block(y.color, x.swaps + 1));
    PutTotal(n, g, a, Block(y.color, x.swaps + 1));
    var r := Put(n, g1, b, Block(x.color, y.swaps + 1));
    PutTotal(n, g1, b, Block(x.color, y.swaps + 1));
    r
  }

  /** Two well-formed grids that agree on every valid index are equal. */
  lemma GridExtensional(n: nat, g: Grid, h: Grid)
    requires WellFormed(n, g) && WellFormed(n, h)
    requires forall p :: ValidIndex(n, p) ==> At(n, g, p) == At(n, h, p)
    ensures g == h
  {
    forall i | 0 <= i < n ensures g[i] == h[i] {
      forall j | 0 <= j < n ensures g[i][j] == h[i][j] {
        assert At(n, g, Index(i, j)) == At(n, h, Index(i, j));
      }
    }
  }

  /** unswap(a, b) right after swap(a, b) restores the grid. */
  lemma UnswapUndoesSwap(n: nat, g: Grid, a: Index, b: Index)
    requires WellFormed(n, g) && ValidSwap(n, g, a, b)
    ensures UnswapGrid(n, SwapGrid(n, g, a, b), a, b) == g
  {
    GridExtensional(n, UnswapGrid(n, SwapGrid(n, g, a, b), a, b), g);
  }

  /** swap(a, b) right after unswap(a, b) restores the grid, when a and b are in line. */
  lemma SwapUndoesUnswap(n: nat, g: Grid, a: Index, b: Index)
    requires WellFormed(n, g) && IndicesInLine(n, a, b) && a != b
    ensures ValidSwap(n, UnswapGrid(n, g, a, b), a, b)
    ensures SwapGrid(n, UnswapGrid(n, g, a, b), a, b) == g
  {
    GridExtensional(n, SwapGrid(n, UnswapGrid(n, g, a, b), a, b), g);
  }

  /**
   * As written, a block is a valid swap partner of itself when it has swaps
   * left, and the documented update then uses up one swap, not two: moves_left,
   * lowered by 2, no longer equals the total (e.g. the block (0, 1) of the
   * 2-by-2 game of tests.py, with one swap).
   */
  lemma SelfSwapBreaksCounter(n: nat, g: Grid, a: Index)
    requires WellFormed(n, g) && ValidIndex(n, a) && At(n, g, a).swaps > 0
    ensures ValidSwapAsWritten(n, g, a, a)
    ensures TotalSwaps(SwapGrid(n, g, a, a)) == TotalSwaps(g) - 1
    ensures !ValidSwap(n, g, a, a)
  {
  }

  /** Every valid swap uses up exactly two swaps. */
  lemma ValidSwapKeepsCounter(n: nat, g: Grid, a: Index, b: Index)
    requires WellFormed(n, g) && ValidSwap(n, g, a, b)
    ensures TotalSwaps(SwapGrid(n, g, a, b)) + 2 == TotalSwaps(g)
  {
  }

  // ---------------------------------------------------------------------------
  // Sequences of swaps
  // ---------------------------------------------------------------------------

  /** The grid after the moves, in order, or None if one of them is not a valid swap. */
  function ApplyMoves(n: nat, g: Grid, moves: seq<Move>): (r: Option<Grid>)
    requires WellFormed(n, g)
    ensures r.Some? ==> WellFormed(n, r.value) && TotalSwaps(r.value) + 2 * |moves| == TotalSwaps(g)
    decreases |moves|
  {
    if moves == [] then Some(g)
    else if !ValidSwap(n, g, moves[0].a, moves[0].b) then None
    else ApplyMoves(n, SwapGrid(n, g, moves[0].a, moves[0].b), moves[1..])
  }

  /**
   * has_swaps_left is what it takes to finish the game: if some non-empty
   * sequence of valid swaps solves it, the count of swaps left is even and
   * above zero, and then it is twice the number of those swaps.
   */
  lemma SolvingNeedsSwapsLeft(n: nat, g: Grid, moves: seq<Move>)
    requires WellFormed(n, g)
    requires ApplyMoves(n, g, moves).Some?
    requires GameSolved(n, ApplyMoves(n, g, moves).value)
    ensures TotalSwaps(g) == 2 * |moves|
    ensures moves != [] ==> HasSwapsLeft(TotalSwaps(g))
  {
    var solved := ApplyMoves(n, g, moves).value;
    TotalSwapsZero(n, solved);
    assert TotalSwaps(solved) == 0;
    var total := TotalSwaps(g);
    assert total == 2 * |moves|;
    assert total % 2 == 0;
  }

  // ---------------------------------------------------------------------------
  // The game state, updated in place
  // ---------------------------------------------------------------------------

  /**
   * The grid of one game: side length n, the blocks, and moves_left, the
   * number of swaps left, kept so that the end of the game is an O(1) test.
   */
  class Harmony {
    const n: nat
    var grid: Grid
    var movesLeft: int

    /** The grid is n by n and moves_left is the sum of the blocks' swap counts. */
    ghost predicate Valid()
      reads this
    {
      WellFormed(n, grid) && movesLeft == TotalSwaps(grid)
    }

    /**
     * Builds n rows of n blocks (color, swaps), taking the row-major lists
     * left to right, top to bottom. With no colors or no swaps the game has
     * size 0. moves_left counts the swaps of the blocks in the grid.
     */
    constructor (n: nat, colors: seq<int>, swaps: seq<nat>)
      requires colors != [] && swaps != [] ==> |colors| >= n * n && |swaps| >= n * n
      ensures this.n == GameSize(n, colors, swaps)
      ensures grid == InitialGrid(this.n, colors, swaps)
      ensures movesLeft == InitialMovesLeft(this.n, swaps)
      ensures Valid()
    {
      var m := if colors == [] || swaps == [] then 0 else n;
      assert |colors| >= m * m && |swaps| >= m * m;
      ghost var G := InitialGrid(m, colors, swaps);
      var g: Grid := [];
      for i := 0 to m
        invariant |g| == i
        invariant forall r :: 0 <= r < i ==> g[r] == G[r]
      {
        var row: seq<Block> := [];
        for j := 0 to m
          invariant |row| == j
          invariant forall c :: 0 <= c < j ==> row[c] == G[i][c]
        {
          var k := GridToListIndex(m, i, j);
          row := row + [Block(colors[k], swaps[k])];
        }
        assert row == G[i];
        g := g + [row];
      }
      assert g == G;
      this.n := m;
      grid := g;
      movesLeft := Sum(swaps[..m * m]);
      InitialTotal(m, colors, swaps);
    }

    /**
     * swap: if a and b form a valid swap, exchanges their colors and uses up
     * one swap of each and two of moves_left; otherwise changes nothing.
     */
    method Swap(a: Index, b: Index)
      requires Valid()
      modifies this
      ensures Valid()
      ensures old(ValidSwap(n, grid, a, b)) ==>
                grid == SwapGrid(n, old(grid), a, b) && movesLeft == old(movesLeft) - 2
      ensures !old(ValidSwap(n, grid, a, b)) ==> grid == old(grid) && movesLeft == old(movesLeft)
    {
      if ValidSwap(n, grid, a, b) {
        var x, y := At(n, grid, a), At(n, grid, b);
        PutTotal(n, grid, a, Block(y.color, x.swaps - 1));
        grid := Put(n, grid, a, Block(y.color, x.swaps - 1));
        PutTotal(n, grid, b, Block(x.color, y.swaps - 1));
        grid := Put(n, grid, b, Block(x.color, y.swaps - 1));
        movesLeft := movesLeft - 2;
      }
    }

    /**
     * unswap: undoes swap(a, b), which the caller has made before: exchanges
     * the colors back and gives one swap back to each block and two to
     * moves_left.
     */
    method Unswap(a: Index, b: Index)
      requires Valid()
      requires IndicesInLine(n, a, b) && a != b
      modifies this
      ensures Valid()
      ensures grid == UnswapGrid(n, old(grid), a, b)
      ensures movesLeft == old(movesLeft) + 2
    {
      var x, y := At(n, grid, a), At(n, grid, b);
      PutTotal(n, grid, a, Block(y.color, x.swaps + 1));
      grid := Put(n, grid, a, Block(y.color, x.swaps + 1));
      PutTotal(n, grid, b, Block(x.color, y.swaps + 1));
      grid := Put(n, grid, b, Block(x.color, y.swaps + 1));
      movesLeft := movesLeft + 2;
    }
  }
}
