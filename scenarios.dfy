/**
 * Concrete games: the 2-by-2 game of the unit tests (colors [0, 1, 1, 0],
 * swaps [0, 1, 0, 1]) and clients of the Harmony class that use only its
 * contracts.
 */
module HarmonyScenarios {
  import opened GridIndex
  import opened HarmonyGame

  const SmallColors: seq<int> := [0, 1, 1, 0]
  const SmallSwaps: seq<nat> := [0, 1, 0, 1]

  /** The index arithmetic of a 2-by-2 grid: position 3 is (1, 1), position 2 is (1, 0). */
  lemma SmallIndexArithmetic()
    ensures ListToGridIndex(2, 3) == Index(1, 1) && ListToGridIndex(2, 2) == Index(1, 0)
    ensures GridToListIndex(2, 1, 0) == 2 && GridToListIndex(2, 1, 1) == 3
  {
  }

  /** The blocks of the small game, row by row. */
  lemma SmallGrid()
    ensures InitialGrid(2, SmallColors, SmallSwaps)
         == [[Block(0, 0), Block(1, 1)], [Block(1, 0), Block(0, 1)]]
  {
    var g := InitialGrid(2, SmallColors, SmallSwaps);
    InitialBlock(2, SmallColors, SmallSwaps, 0, 0);
    InitialBlock(2, SmallColors, SmallSwaps, 0, 1);
    InitialBlock(2, SmallColors, SmallSwaps, 1, 0);
    InitialBlock(2, SmallColors, SmallSwaps, 1, 1);
    assert g[0] == [Block(0, 0), Block(1, 1)];
    assert g[1] == [Block(1, 0), Block(0, 1)];
  }

  /** The starting points of the small game are the two blocks with a swap left. */
  lemma SmallStartingPoints()
    ensures StartingPoints(2, InitialGrid(2, SmallColors, SmallSwaps)) == {Index(0, 1), Index(1, 1)}
  {
    SmallGrid();
    var r := StartingPoints(2, InitialGrid(2, SmallColors, SmallSwaps));
    assert Index(0, 0) !in r && Index(1, 0) !in r;
    forall p | p in r ensures p == Index(0, 1) || p == Index(1, 1) {
      assert ValidIndex(2, p);
    }
  }

  /** With all swap counts zero there are no starting points. */
  lemma NoSwapsNoStartingPoints()
    ensures StartingPoints(2, InitialGrid(2, SmallColors, [0, 0, 0, 0])) == {}
  {
    var g := InitialGrid(2, SmallColors, [0, 0, 0, 0]);
    forall p | p in StartingPoints(2, g) ensures false {
      InitialBlock(2, SmallColors, [0, 0, 0, 0], p.i, p.j);
    }
  }

  /** The one swap of the small game, (0, 1) with (1, 1), solves it. */
  lemma SmallGameSolvedByOneSwap()
    ensures ValidSwap(2, InitialGrid(2, SmallColors, SmallSwaps), Index(0, 1), Index(1, 1))
    ensures GameSolved(2, SwapGrid(2, InitialGrid(2, SmallColors, SmallSwaps), Index(0, 1), Index(1, 1)))
  {
    SmallGrid();
    var r := SwapGrid(2, InitialGrid(2, SmallColors, SmallSwaps), Index(0, 1), Index(1, 1));
    assert At(2, r, Index(0, 0)) == Block(0, 0) && At(2, r, Index(1, 0)) == Block(1, 0);
  }

  /** The small game, played through the class: build it, swap once, undo, swap again. */
  method SmallGame()
  {
    var h := new Harmony(2, SmallColors, SmallSwaps);
    SmallGrid();
    assert h.n == 2 && |h.grid| == 2 && |h.grid[0]| == 2;
    assert SmallSwaps[..4] == SmallSwaps && SmallSwaps[1..][1..][1..] == [1];
    assert h.movesLeft == 2;
    SmallGameSolvedByOneSwap();
    h.Swap(Index(0, 1), Index(1, 1));
    assert GameSolved(h.n, h.grid) && h.movesLeft == 0;
    h.Swap(Index(0, 1), Index(1, 1));
    assert h.movesLeft == 0;
    h.Unswap(Index(0, 1), Index(1, 1));
    UnswapUndoesSwap(2, InitialGrid(2, SmallColors, SmallSwaps), Index(0, 1), Index(1, 1));
    assert h.grid == InitialGrid(2, SmallColors, SmallSwaps) && h.movesLeft == 2;
  }

  /**
   * A swap followed by its undo leaves the game as it was. The undo is made
   * only when the swap took effect; after a rejected swap there is nothing to
   * undo.
   */
  method SwapThenUnswap(h: Harmony, a: Index, b: Index)
    requires h.Valid()
    modifies h
    ensures h.Valid() && h.grid == old(h.grid) && h.movesLeft == old(h.movesLeft)
  {
    var valid := ValidSwap(h.n, h.grid, a, b);
    ghost var before := h.grid;
    h.Swap(a, b);
    if valid {
      h.Unswap(a, b);
      UnswapUndoesSwap(h.n, before, a, b);
    }
  }
}
