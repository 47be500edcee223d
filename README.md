# Harmony 3 grid state, in Dafny

This project models the `Harmony` class of a solver for the puzzle game
Harmony 3. The game is an n-by-n grid of blocks, indexed (0, 0) at the
top-left corner. Each block holds a pair (color, swaps): its color, and the
number of swaps it must still take part in. Two blocks may be swapped only when
they lie in the same row or the same column and both still have swaps left. A
swap exchanges their colors and uses up one swap of each. The game is solved
when every block has used up its swaps and row i holds only color i.

Files:

- `grid_index.dfy`, module `GridIndex`: grid coordinates `Index(i, j)`.
  It holds `valid_index`, the row-major translation between list positions and
  grid coordinates (`list_to_grid_index`, `grid_to_list_index`) and
  `indices_in_line`.
- `harmony.dfy`, module `HarmonyGame`: the blocks, the grid and the rules.
  The rules are `valid_swap`, `has_swaps_left`, `game_solved`, `valid_moves`
  and the starting points. They are written as functions of the state they
  read: `n`, the grid and `moves_left`. The class `Harmony` holds that state
  and updates it in place:
  - the constructor builds the grid row by row with nested loops;
  - `Swap` and `Unswap` replace two blocks and adjust `movesLeft`.

  Its invariant `Valid()` says that the grid is n by n and that `movesLeft`
  equals the sum of the blocks' swap counts. The pure functions `SwapGrid` and
  `UnswapGrid` specify the two methods. The lemmas about them give the effect
  on the colors, the swap counts and the total, and show that each one undoes
  the other.
- `scenarios.dfy`, module `HarmonyScenarios`: the 2-by-2 game of the unit
  tests (colors `[0, 1, 1, 0]`, swaps `[0, 1, 0, 1]`) and two clients of the
  class that rely only on its contracts.

Most of `harmony.py` is stubs with documented contracts. The model implements
each stub after its documentation and proves those contracts, with two
departures, both explained under "## Findings":

- `ValidSwap` also requires two different blocks. The documented rule
  (harmony.py:151-156) admits a block with itself. `Swap` and `ValidMoves`
  use `ValidSwap`, so they differ from the documented rule in the same way.
- The constructor counts only the swaps of the blocks in the grid,
  `Sum(swaps[..n*n])`. The source counts the whole list, `sum(swaps)`
  (harmony.py:56).

The constructor's text has three slips that would raise `NameError`:

- `row` is never defined (line 63);
- `grid_to_list_index` is called without `self.` (line 66);
- `color` is written for `colors` (line 67).

The model follows the evident intent: it appends row lists of
`(colors[k], swaps[k])` blocks, with `k = i*n + j`.

The constructor's docstring says `0 < color < n`. `solve.py` describes colors
as `0 <= color < n`, and a solved game needs color 0 in row 0, so the second
range is the intended one. Neither file checks colors, and the model does not
check them either.

## Model

| member | source | states |
|---|---|---|
| `GridIndex.ListToGridIndex` | harmony.py:71-74 | a list position below n*n names a grid coordinate inside the grid |
| `GridIndex.GridToListIndex` | harmony.py:76-79 | the list position of a valid grid coordinate lies in [0, n*n) |
| `GridIndex.ListGridRoundTrip` | harmony.py:37-44 | list position to grid coordinates and back gives the same position (row-major order) |
| `GridIndex.GridListRoundTrip` | harmony.py:37-44 | grid coordinates to list position and back gives the same coordinates |
| `GridIndex.ValidIndex` | harmony.py:81-96 | valid_index: 0 <= i < n and 0 <= j < n (a definition; its partner is the next row) |
| `GridIndex.ValidIndexIsListImage` | harmony.py:81-96 | a grid coordinate is valid (0 <= i, j < n) exactly when it is the image of some list position in [0, n*n) |
| `GridIndex.IndicesInLine` | harmony.py:98-133 | indices_in_line: both indices in bounds, and the same row or the same column (a definition; its partners are the next three rows) |
| `GridIndex.InLineSymmetric` | harmony.py:98-133 | being in line does not depend on the order of the two indices |
| `GridIndex.InLineReflexive` | harmony.py:124-133 | as written, a block in bounds is in line with itself, and an out-of-bounds one is not |
| `GridIndex.InLineByListIndex` | harmony.py:119-133 | for list positions, in line means same quotient by n (same row) or same remainder (same column) |
| `HarmonyScenarios.SmallIndexArithmetic` | tests.py:36-88 | for n = 2, position 3 is (1, 1) and position 2 is (1, 0), and back |
| `HarmonyGame.GameSize` | harmony.py:47-52 | the side length of the game: 0 when colors or swaps are missing, n otherwise (a definition) |
| `HarmonyGame.InitialGrid` | harmony.py:61-69 | the grid the constructor builds: n rows of n blocks, (colors[k], swaps[k]) at k = i*n + j (its properties are the next rows) |
| `HarmonyGame.EmptyGameIffListMissing` | harmony.py:47-52 | the grid built has no blocks exactly when colors or swaps is missing or n is 0, and otherwise has n rows |
| `HarmonyGame.InitialBlock` | harmony.py:61-69 | the block at row i, column j of the built grid is (colors[i*n+j], swaps[i*n+j]) |
| `HarmonyGame.InitialGridRowMajor` | harmony.py:37-44 | list position k of colors and swaps lands at grid coordinates ListToGridIndex(k) |
| `HarmonyGame.InitialTotal` | harmony.py:54-56 | the swaps counted at construction (first n*n entries) are the total of the grid built |
| `HarmonyGame.MovesLeftAgreeOnExactInput` | harmony.py:54-56 | with exactly n*n swap counts, the source's sum(swaps) equals the grid's total |
| `HarmonyGame.MovesLeftAsWrittenMismatch` | harmony.py:47-56 | with no colors and swaps [1, 1], the grid is empty but sum(swaps) is 2 |
| `HarmonyGame.Harmony.constructor` | harmony.py:29-69 | n rows of n (color, swaps) blocks in row-major order, size 0 if a list is missing, moves_left equal to the grid's total |
| `HarmonyGame.GameSolved` | harmony.py:172-186 | game_solved: every block's swap count is 0 and every block in row i has color i (a definition; its partner is SolvedByCounter) |
| `HarmonyGame.TotalSwapsZero` | harmony.py:176-184 | the grid's total is 0 exactly when every block's swap count is 0 |
| `HarmonyGame.SolvedByCounter` | harmony.py:172-186 | with moves_left kept equal to the total, game_solved holds exactly when moves_left is 0 and row i holds color i |
| `HarmonyGame.StartingPoints` | tests.py:130-153 | a block is a starting point exactly when it is in bounds and has swaps left |
| `HarmonyGame.NoStartingPointsIffSpent` | tests.py:130-143 | there are no starting points exactly when no swaps are left |
| `HarmonyScenarios.SmallGrid` | tests.py:28-31 | the 2-by-2 test game's grid is [[(0,0), (1,1)], [(1,0), (0,1)]] |
| `HarmonyScenarios.SmallStartingPoints` | tests.py:145-153 | the starting points of the test game are exactly (0, 1) and (1, 1) |
| `HarmonyScenarios.NoSwapsNoStartingPoints` | tests.py:130-143 | with all swaps 0 there are no starting points |
| `HarmonyGame.ValidSwap` | harmony.py:138-157 | valid_swap: the two indices are in line, different, and both blocks have swaps left (a definition; the difference from the documented rule is the second finding) |
| `HarmonyGame.ValidSwapCorrection` | harmony.py:151-156 | valid_swap holds exactly when the documented rule (in line, both blocks with swaps left) holds for two different blocks |
| `HarmonyGame.ValidSwapSymmetric` | harmony.py:138-157 | valid_swap does not depend on the order of the two indices |
| `HarmonyGame.SelfSwapBreaksCounter` | harmony.py:151-156 | the documented rule admits a block with itself, and that swap uses up one swap of the total instead of two |
| `HarmonyGame.ValidSwapKeepsCounter` | harmony.py:215-219 | every valid swap lowers the grid's total by exactly 2 |
| `HarmonyGame.MovesInRow` | harmony.py:191-206 | the row candidates listed are exactly the valid swap partners in that row, left to right |
| `HarmonyGame.MovesInColumn` | harmony.py:191-206 | the column candidates listed are exactly the valid swap partners in that column, top to bottom |
| `HarmonyGame.ValidMoves` | harmony.py:191-206 | an index is listed exactly when it is a valid swap with the given index, and none is listed twice |
| `HarmonyGame.NoMovesWhenSpent` | harmony.py:191-206 | when no swaps are left, no block has a move |
| `HarmonyGame.HasSwapsLeft` | harmony.py:159-170 | has_swaps_left: moves_left is even and above 0 (a definition; its partner is the next row) |
| `HarmonyGame.SolvingNeedsSwapsLeft` | harmony.py:159-170 | if a non-empty sequence of valid swaps solves the game, the swaps left are even and above 0 (twice the number of swaps) |
| `HarmonyGame.ApplyMoves` | harmony.py:215-219 | after k valid swaps the grid's total is lower by 2k |
| `HarmonyGame.SwapGrid` | harmony.py:208-221 | colors at a and b exchanged, their swap counts each lower by 1, every other block unchanged, total lower by 2 for two different blocks |
| `HarmonyGame.UnswapGrid` | harmony.py:223-241 | colors at a and b exchanged back, their swap counts each higher by 1, every other block unchanged, total higher by 2 for two different blocks |
| `HarmonyGame.UnswapUndoesSwap` | harmony.py:223-241 | unswap right after a valid swap of the same pair restores the grid |
| `HarmonyGame.SwapUndoesUnswap` | harmony.py:223-241 | swap right after unswap of an in-line pair is valid and restores the grid |
| `HarmonyScenarios.SmallGameSolvedByOneSwap` | harmony.py:172-186 | in the test game, swapping (0, 1) with (1, 1) is valid and solves the game |
| `HarmonyGame.Harmony.Swap` | harmony.py:208-221 | on a valid pair, the grid becomes SwapGrid of the old grid and moves_left drops by 2; otherwise nothing changes; the invariant is kept |
| `HarmonyGame.Harmony.Unswap` | harmony.py:223-241 | the grid becomes UnswapGrid of the old grid and moves_left rises by 2; the invariant is kept |
| `HarmonyScenarios.SwapThenUnswap` | harmony.py:223-241 | swap followed by unswap of the same pair leaves grid and moves_left as they were |

## Findings

| source | as written | input that shows it | evidently intended | confidence | as-written member | corrected member |
|---|---|---|---|---|---|---|
| harmony.py:47-56 | when colors or swaps is missing, n becomes 0 and the grid is empty, but moves_left is still sum(swaps); entries beyond n*n are counted too | n = 2, colors = [] (or None), swaps = [1, 1]: empty grid, moves_left = 2, so has_swaps_left is true and the game can never be solved | moves_left is the sum of the swaps of the blocks in the grid (line 54's comment: it replaces an O(n^2) scan) | medium, not executed | `HarmonyGame.InitialMovesLeftAsWritten`, `HarmonyGame.MovesLeftAsWrittenMismatch` | `HarmonyGame.InitialMovesLeft`, `HarmonyGame.InitialTotal` |
| harmony.py:151-156 | valid_swap is documented as "colinear and both blocks have > 0 swaps"; indices_in_line is true of a block with itself, so a block is a valid swap with itself | the 2-by-2 test game, index1 = index2 = (0, 1) with one swap: the swap is valid. The stub's documented update can be read two ways. Written as two block updates, the second overwriting the first (the reading `SwapGrid` models), the blocks lose 1 swap while moves_left drops by 2. Read as two decrements of the same block, the block goes from 1 to -1 swaps. Neither is a game move | a swap takes two different blocks | medium, not executed | `HarmonyGame.ValidSwapAsWritten`, `HarmonyGame.SelfSwapBreaksCounter` | `HarmonyGame.ValidSwap`, `HarmonyGame.ValidSwapKeepsCounter` |

## Left out

- solve.py: the command-line entry point and the file reader (`sys.argv`, `open`, `sys.exit`) are I/O, and `get_harmony_text` is an unfinished stub.
- The search for a solution is only announced in harmony.py's header ("BFS solver"). No code for it exists, so none of it is modelled: forced moves, backtracking, memoization of paths.
- No pruning of blocks with one swap left is modelled, since `valid_swap`'s documentation does not ask for any.
- tests_cases.py: its assertions depend on puzzle files and on a `get_path` function that are not part of this model.
- The grid expected at tests.py:108-111 contradicts the constructor's `(color, swaps)` blocks for the given input, so it is not modelled. `SmallGrid` states the grid the constructor builds.
- tests.py:128 reads a `swaps_left` attribute. The model has one counter, `movesLeft` (harmony.py:56).
- tests.py reads `starting_points` as an attribute, but harmony.py never defines one. The model has the function `StartingPoints` of the grid instead.
- Missing lists: `None` and the empty list are both falsy in the source, and the model represents both as the empty sequence. `sum(None)` raises `TypeError` in the source when `swaps` is `None`; that crash is not modelled.
- Lists shorter than n*n make the source raise `IndexError`. The constructor instead requires at least n*n entries whenever both lists are present.
- A negative n is not modelled: n is a natural number.
- Swap counts are natural numbers, as the constructor's docstring demands. Colors are unchecked integers, as in the source.
- `HarmonyGame.Harmony.Unswap`: requires only that the two indices be different and in line. The source's precondition that `swap(a, b)` was made before is left to the caller, as in the source. The round trip is stated by `UnswapUndoesSwap` and `SwapThenUnswap`.
- `HarmonyGame.SolvingNeedsSwapsLeft`: proves only that `has_swaps_left` is necessary to finish the game. Whether enough swaps are left to actually solve it is the job of the search, which is not modelled.
- `HarmonyGame.ValidMoves`: the source does not fix an order. The model lists row partners left to right, then column partners top to bottom.
- Python integers are unbounded, as Dafny's are; no wrap-around is involved.
