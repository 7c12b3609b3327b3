# Minesweeper board and game rules in Dafny

This project models the core of a small Python minesweeper. It has three parts:

- **The mine board** (`board.py`). A width-by-height grid whose cells are bombs or the number of bombs among their up-to-eight neighbours on the board. The constructor writes those numbers in place with a nested loop.
- **The game state machine of the package** (`minesweeper/game.py`). It holds the revealed grid, the flags, a cached bomb index, the revealed and move counters, and the `finished`/`won` flags. Its rules cover clicking, flagging, the iterative flood fill `_fill_click` and the win test `_check_win`.
- **The older top-level variant of that game** (`game.py`). Its `click` has no guard against repeated clicks and never reveals the bomb it hits.

Modules:

- `MineBoard` (`board.dfy`): the `Board` class, its constructor's count pass, and the pure queries `Cell`, `IsBomb`, `Width`, `Height`, `NumCells` and `CellTuples`. It also holds the specification functions that state what the count pass computes.
- `FloodFill` (`flood_fill.dfy`): the `_fill_click` loop, which is the same in both game files.
  - It is written as `FloodReveal`: a `while` loop over a set worklist. The worklist's pop is a nondeterministic choice.
  - It works on the revealed grid and the revealed counter, and returns both.
  - It is proved against `Flooded`, a specification of the region a fill reveals. The lemmas about `Flooded` cover uniqueness, no bombs, and closure of revealed zero cells.
- `GameSetup` (`game_setup.dfy`): what both games' `__init__` builds. This is the all-hidden revealed grid, and the bomb index that is cached from the board's cell triples and proved equal to the board's bombs.
- `MineSweeper` (`minesweeper_game.dfy`): the packaged `MineSweeperGame` class.
  - Its invariant `Playing` says:
    - the revealed counter equals the number of revealed cells;
    - every neighbour of a revealed zero cell is revealed;
    - a revealed bomb means the game is finished;
    - a won game with no revealed bomb has every safe cell revealed.
  - Each branch of `click` has a lemma that carries the invariant across it.
- `LegacyMineSweeper` (`legacy_game.dfy`): the older `MineSweeperGame` class.
  - Its invariant `LegacyPlaying` keeps only "the counter is at least the number of revealed cells", because a numbered cell can be counted twice.
  - It also keeps "no bomb is ever revealed".

Coordinates are `(x, y)`, where x is the column and y the row, and cells are stored as `cells[y][x]`. The source's docstrings call x the row (`minesweeper/game.py:67`), but the code indexes `state[y][x]` and bounds x by the width. The model follows the code.

The Python placeholders become typed values:

- **Board cells.** `Bomb` or `Count(n)`. The source's `None` placeholder for a cell that is not a bomb (board.py:11) becomes `Count(0)` until the count pass overwrites it.
- **Lookups.** A lookup off the board is `None` in an `Option`.
- **Revealed grid.** The source stores `None` or `True` in `state`. The model uses `bool`.
- **`cell_revealed`.** It answers `false` where the source returns `None`.
- **The game's view of a cell.** `View`: `Flagged`, `Hidden` or `Shown(cell)`.

## Model

| member | source | states |
|---|---|---|
| MineBoard.Board.constructor | board.py:9-26 | The built board is valid: every cell is a bomb or holds the number of bombs among its eight neighbours. Width and height are `w` and `h`. The bombs are exactly the layout's coordinates on the board. The grid equals `Counted(mines, w, h)`. |
| MineBoard.Board.CountStep | board.py:15-26 | One step of the nested loop: a bomb is skipped. Any other cell gets the sum of its eight `is_bomb` flags, which is the finished grid's value. The cells already visited stay final. |
| MineBoard.Board.CountPassDone | board.py:15-26 | Once both loops finish, the grid is the finished grid and satisfies the adjacency invariant. The bombs are those of the layout. |
| MineBoard.Board.CountIsAdjacentBombs | board.py:22-26 | A non-bomb cell on a valid board holds the number of bombs among its neighbours, which is at most 8. |
| MineBoard.Board.ZeroHasNoBombNeighbour | board.py:22-26 | No neighbour of a cell numbered 0 is a bomb. |
| MineBoard.BombCountIsCardinality | board.py:22-26 | Summing the eight neighbour flags counts the set of adjacent bombs, which is at most 8. |
| MineBoard.SumIsCardinality | board.py:26 | Summing membership flags over distinct coordinates gives the size of the member set. |
| MineBoard.Placed | board.py:11-13 | After placement, an on-board cell is `Bomb` exactly where the layout puts a bomb, and every other cell holds the not-yet-counted placeholder `Count(0)`. |
| MineBoard.Board.Adjacency | board.py:22-24 | The eight `is_bomb` flags: entry i says whether the i-th neighbour is a bomb of the board. |
| MineBoard.Neighbours | board.py:22-24 | The eight coordinates of the `adjacent` list are distinct and are exactly the cells adjacent to p. |
| MineBoard.BombFlags | board.py:22-24 | Entry i says whether the i-th neighbour is a bomb. |
| MineBoard.Board.Cell | board.py:32-39 | `None` exactly off the board. On the board, the value is `Bomb` exactly at the board's bombs. |
| MineBoard.Board.IsBomb | board.py:28-30 | True exactly at the board's bombs, so it is false off the board. |
| MineBoard.Board.NumCells | board.py:47-48 | The number of cells is the number of coordinates on the board. |
| MineBoard.GridSize | board.py:47-48 | A w-by-h board has w·h coordinates. |
| MineBoard.Board.RowTuples | board.py:51-52 | Entry i of row y is `(i, y, cell(i, y))`. |
| MineBoard.Board.RowsTuples | board.py:51-53 | The first m rows' triples: in row-major order, each with its cell value, covering every coordinate of those rows. |
| MineBoard.Board.CellTuples | board.py:50-54 | Length `num_cells()`. Every triple is on the board with its cell value. The triples are strictly in row-major order, so each coordinate appears once, and every coordinate appears. |
| FloodFill.FloodReveal | minesweeper/game.py:98-135 | The fill terminates. The newly revealed region is the `Flooded` region for the start cell. The counter grows by exactly the number of newly revealed cells. The grid keeps its shape. |
| FloodFill.FillingStart | minesweeper/game.py:109 | The loop invariant holds with only the start cell in the worklist. |
| FloodFill.FillingSkip | minesweeper/game.py:114-120 | Popping an off-board or already revealed cell keeps the loop invariant. |
| FloodFill.FillingReveal | minesweeper/game.py:122-135 | Revealing a popped hidden cell, and pushing its eight neighbours when it is zero, keeps the loop invariant. |
| FloodFill.FillingDone | minesweeper/game.py:111 | With the worklist empty, the revealed region is the `Flooded` region. |
| FloodFill.RevealOne | minesweeper/game.py:123 | Setting a hidden cell adds exactly that coordinate to the revealed set. |
| FloodFill.RevealStep | minesweeper/game.py:123-124 | A reveal adds one to the new cells and removes one from the hidden cells, which is the loop's termination measure. |
| FloodFill.PopShrinks | minesweeper/game.py:112 | Popping a member of the worklist shrinks it. |
| FloodFill.ZeroTest | minesweeper/game.py:127 | "Not a bomb and numbered 0" is the zero-cell test of the model. |
| FloodFill.Around | minesweeper/game.py:128-135 | The eight pushed coordinates are exactly the cells adjacent to the popped one. |
| FloodFill.TallyIsRevealedCount | minesweeper/game.py:123-124 | Counting the `True` entries row by row gives the number of revealed cells. |
| FloodFill.RowRevealedCount | minesweeper/game.py:123-124 | Within one row, the count of `True` entries is the size of that row's revealed set. |
| FloodFill.RevealedBelowCount | minesweeper/game.py:123-124 | Over the first k rows, the count of `True` entries is the size of their revealed set. |
| FloodFill.OrderCovered | minesweeper/game.py:111-135 | Every cell revealed by one fill lies in any region that contains the earlier revealed cells and the start cell and holds every on-board neighbour of its newly revealed zero cells. |
| FloodFill.FloodIsLeast | minesweeper/game.py:111-135 | A fill reveals the least such region: every region closed in that way from the same start contains what the fill reveals. |
| FloodFill.FloodDeterministic | minesweeper/game.py:111-112 | The region a fill reveals does not depend on the order in which the set pops. |
| FloodFill.FloodRevealsNoBomb | minesweeper/game.py:127-135 | On a valid board, a fill started from a non-bomb reveals no bomb. |
| FloodFill.FloodKeepsZeroClosed | minesweeper/game.py:126-135 | If every neighbour of a revealed zero cell was revealed before the fill, that still holds after it. |
| FloodFill.FloodFromRevealedIsEmpty | game.py:85-87 | A fill from an already revealed cell, or from off the board, reveals nothing. |
| GameSetup.BombIndex | minesweeper/game.py:27 | The bomb index built from the cell triples is exactly the board's set of bombs. |
| GameSetup.BombsInTriples | minesweeper/game.py:27 | Every bomb of the board is in the bomb index. |
| GameSetup.TriplesAreBombs | minesweeper/game.py:27 | Every coordinate in the bomb index is a bomb. |
| GameSetup.Unrevealed | minesweeper/game.py:21-23 | The initial grid has h rows of w cells, none of them revealed. |
| GameSetup.NothingRevealed | minesweeper/game.py:21-23 | A grid with no `True` entry has no revealed cell. |
| MineSweeper.NewGamePlaying | minesweeper/game.py:20-32 | The initial fields satisfy the game invariant with nothing revealed. |
| MineSweeper.MineSweeperGame.constructor | minesweeper/game.py:13-32 | A new game satisfies the invariant: nothing revealed or flagged, both counters 0, not finished, not won. |
| MineSweeper.MineSweeperGame.CellRevealed | minesweeper/game.py:43-51 | True exactly for revealed coordinates; false off the board. |
| MineSweeper.MineSweeperGame.ToggleFlag | minesweeper/game.py:53-61 | Flips `(x, y)` in the flags for any coordinate and adds one move. The grid and the counter are unchanged. `finished`/`won` become true only through the win test and are never cleared. |
| MineSweeper.ToggleFlagTwice | minesweeper/game.py:53-61 | Toggling twice restores the flags and adds two moves. |
| MineSweeper.MineSweeperGame.Click | minesweeper/game.py:63-96 | On a revealed or flagged cell, nothing changes, including `moves`. Otherwise it adds one move, then: on a bomb, reveals it, counts it, finishes and loses; on a numbered cell, reveals and counts exactly that cell; on a zero cell, floods and counts each new cell, with no bomb among them. The win test follows in the last two cases. `finished` is never cleared, and the invariant holds. |
| MineSweeper.MineSweeperGame.RevealBomb | minesweeper/game.py:79-84 | Reveals and counts the bomb, and ends the game lost. |
| MineSweeper.BombClickPlaying | minesweeper/game.py:79-84 | The invariant survives revealing a hidden bomb with `finished` set and `won` cleared. |
| MineSweeper.MineSweeperGame.RevealNumber | minesweeper/game.py:86-89 | Reveals exactly the clicked numbered cell and adds one to the counter. |
| MineSweeper.NumberClickPlaying | minesweeper/game.py:86-89 | The invariant survives revealing one hidden numbered cell with the counter plus one. |
| MineSweeper.MineSweeperGame.FillClick | minesweeper/game.py:91-93 | Floods from the hidden zero cell. The new cells are the `Flooded` region, none of them is a bomb, and the counter grows by their number. |
| MineSweeper.FloodClickPlaying | minesweeper/game.py:91-93 | The invariant survives a fill from a hidden zero cell, with the counter grown by the number of new cells. |
| MineSweeper.HiddenSafeCellNotWon | minesweeper/game.py:161-170 | Under the invariant's win clause, a hidden safe cell means a won game has revealed a bomb. |
| MineSweeper.WinMeansAllSafeRevealed | minesweeper/game.py:161-170 | A bomb-free revealed set as large as the number of safe cells is exactly the safe cells. |
| MineSweeper.WinPlaying | minesweeper/game.py:161-170 | When the counter equals `num_cells - len(bomb_index)`, setting `finished` and `won` keeps the invariant. |
| MineSweeper.MineSweeperGame.CheckWin | minesweeper/game.py:161-170 | `finished` and `won` become true exactly when the flags equal the bomb index and the counter equals the number of safe cells. Otherwise they are unchanged. |
| MineSweeper.MineSweeperGame.Cell | minesweeper/game.py:143-152 | `Flagged` exactly when flagged. `Hidden` exactly when unflagged and unrevealed. A shown view carries the board's value. |
| MineSweeper.MineSweeperGame.RevealedRow | minesweeper/game.py:155-156 | The revealed cells of one row, left to right, each with its view, all of them. |
| MineSweeper.MineSweeperGame.RevealedRows | minesweeper/game.py:155-158 | The revealed cells of the first m rows, in row-major order, each with its view, all of them. |
| MineSweeper.MineSweeperGame.RevealedCellTuples | minesweeper/game.py:154-159 | Exactly the revealed coordinates, each once in row-major order, with the game's view of each. |
| MineBoard.NextToCornerBomb | board.py:22-26 | On a board whose only bomb is (left, row), the cell (left + 1, row), when on the board, is not a bomb and not numbered 0. |
| MineSweeper.ClickTwice | minesweeper/game.py:71-74 | Clicking a hidden, unflagged numbered cell twice reveals it, counts it once and adds one move. |
| MineSweeper.ReplayNoSpuriousWin | minesweeper/game.py:71-74 | On a 3×1 board whose bomb is at (0, 0): click (1, 0) twice, then flag (0, 0). The game is not won. |
| LegacyMineSweeper.NewLegacyPlaying | game.py:8-22 | The initial fields satisfy the older game's invariant. |
| LegacyMineSweeper.MineSweeperGame.constructor | game.py:8-22 | A new game satisfies the invariant: nothing revealed or flagged, both counters 0, not finished, not won. |
| LegacyMineSweeper.MineSweeperGame.CellRevealed | game.py:29-37 | True exactly for revealed coordinates; false off the board. |
| LegacyMineSweeper.MineSweeperGame.ToggleFlag | game.py:39-47 | Flips `(x, y)` in the flags and adds one move. `finished`/`won` change only through the win test. |
| LegacyMineSweeper.ToggleFlagTwice | game.py:39-47 | Toggling twice restores the flags and adds two moves. |
| LegacyMineSweeper.MineSweeperGame.Click | game.py:49-68 | Every click adds one move. A bomb finishes and loses the game, leaving the grid and the counter unchanged. A numbered cell is marked revealed and counted, whether or not it was revealed already. A zero cell floods and counts each new cell. The win test follows, and the invariant holds. |
| LegacyMineSweeper.MineSweeperGame.RevealNumber | game.py:58-61 | Marks the numbered cell revealed and adds one to the counter, even if the cell was already revealed. |
| LegacyMineSweeper.LegacyNumberStep | game.py:58-61 | The counter stays at least the number of revealed cells. On an already revealed cell, the grid is unchanged. |
| LegacyMineSweeper.MineSweeperGame.FillClick | game.py:63-65 | Floods from the zero cell. The new cells are the `Flooded` region, none of them is a bomb, and the counter grows by their number. |
| LegacyMineSweeper.LegacyFloodStep | game.py:63-65 | A fill keeps the older invariant: it reveals no bomb and adds exactly the number of new cells. |
| LegacyMineSweeper.MineSweeperGame.CheckWin | game.py:104-113 | `finished` and `won` become true exactly when the flags equal the bomb index and the counter equals the number of safe cells. |
| LegacyMineSweeper.ClickTwice | game.py:49-61 | Clicking a numbered cell twice marks it revealed once but adds two to the counter. |
| LegacyMineSweeper.ReplaySpuriousWin | game.py:58-61 | On a 3×1 board whose bomb is at (0, 0): click (1, 0) twice, then flag (0, 0). The game is won while the safe cell (2, 0) is hidden. |
| LegacyMineSweeper.SpuriousWin | game.py:104-113 | The same scenario on the board the constructor builds for the layout {(0, 0)}. |

## Left out

- Random bomb placement and the `density` parameter (`board.py:11-13`). The bomb layout is a set of coordinates passed to the constructor.
- MineBoard.Board.constructor: requires a height of at least 1. In the source, `Board(w, 0)` raises `IndexError` in `width()` (board.py:42, reached from board.py:15); the model has no board of height 0 and does not model that error.
- MineBoard.Board.constructor: takes the width as a `nat`. In the source, a negative width makes `range` build empty rows, which is a board of width 0; the model does not accept a negative width.
- MineBoard.Board.Width, MineBoard.Board.Height: no contract of their own. The constructor's postcondition states that they equal `w` and `h`.
- MineBoard.Sum: its own contract only bounds the sum by the length. Its meaning is stated by `SumIsCardinality`.
- MineSweeper.MineSweeperGame.CellFlagged, LegacyMineSweeper.MineSweeperGame.CellFlagged: plain set membership, written as predicates without a contract.
- `board_width` and `board_height` (`minesweeper/game.py:137-141`) forward to the board. They are not modelled separately.
- Clicking off the board raises in Python, because `None > 0` is a `TypeError`. Both `Click` methods therefore require a coordinate on the board. The package version also accepts a flagged coordinate, which its guard ignores.
- The return value `False` of `_check_win` is not used by any caller and is not modelled.
- A loss is not terminal: neither `click` nor `toggle_flag` checks `finished`, so the model promises only that `finished` is never cleared.
- The rendering, the pygame event loop, the command-line drivers and the AI stub (`render.py`, `minesweeper/render.py`, `ms.py`, `minesweeper/__init__.py`, `ai.py`) are not part of this model.
- The packaged game imports its own `.board` module (minesweeper/game.py:7). The model uses the `Board` of the top-level `board.py` in its place.
- Aliasing between several games that share one board object is not modelled. The games never write to the board.

## Findings

| source | as written | input that shows it | evidently intended | confidence | as-written member | corrected member |
|---|---|---|---|---|---|---|
| game.py:58-61 | A click on a numbered cell that is already revealed sets it again and adds 1 to `revealed_count` again. `_check_win` (game.py:104-113) then compares that counter with the number of safe cells. | 3×1 board, only bomb at (0, 0): click (1, 0) twice, then flag (0, 0). The counter is 2 = 3 − 1 and the flags equal the bomb index, so the game is won with the safe cell (2, 0) still hidden. | The counter counts distinct revealed cells, so a win requires every safe cell to be revealed. The packaged `click` guards against repeated clicks (minesweeper/game.py:71-74). | not executed | LegacyMineSweeper.SpuriousWin | MineSweeper.MineSweeperGame.Click |
