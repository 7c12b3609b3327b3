/** The game of minesweeper/game.py: the revealed grid, the flags, the cached bomb index,
    the revealed-cell and move counters and the finished/won flags, with the click,
    flag and win rules. */
module MineSweeper {
  import opened MineBoard
  import opened FloodFill
  import opened GameSetup

  /** The game's view of a cell: flagged, not yet revealed, or the board's value. */
  datatype View = Flagged | Hidden | Shown(cell: Cell)

  /** Once flags name exactly the bombs and as many cells are revealed as there are safe
      cells, a revealed set that holds no bomb is exactly the safe cells. */
  lemma WinMeansAllSafeRevealed(R: set<Coord>, G: set<Coord>, B: set<Coord>)
    requires R <= G && B <= G && R * B == {} && |R| == |G| - |B|
    ensures R == G - B
  {
    assert R <= G - B;
    assert |G - B| == |G| - |B|;
    var missing := (G - B) - R;
    assert |missing| == |G - B| - |R|;
    assert missing == {};
  }

  /** The game invariant over the game's fields: the board is consistent, the revealed grid
      has its shape, the bomb index is its bombs, the revealed count counts the revealed
      cells, revealed zero cells have all their neighbours revealed, a revealed bomb means
      the game is over, a win finishes the game, and a win with no bomb revealed has every
      safe cell revealed. */
  ghost predicate Playing(board: Board, st: seq<seq<bool>>, bombIndex: set<Coord>, revealedCount: int,
                          finished: bool, won: bool)
    reads board
  {
    board.Valid() && Fits(board, st) && bombIndex == board.Bombs() &&
    revealedCount == Tally(st) &&
    ZeroClosed(board, Revealed(board, st)) &&
    (Revealed(board, st) * board.Bombs() != {} ==> finished) &&
    (won ==> finished) &&
    (won && Revealed(board, st) * board.Bombs() == {} ==> SafeCellsShown(board, st))
  }

  /** Every cell of the board that holds no bomb is revealed. */
  ghost predicate SafeCellsShown(board: Board, st: seq<seq<bool>>)
    reads board
    requires Fits(board, st)
  {
    forall x, y :: 0 <= x < board.Width() && 0 <= y < board.Height() && (x, y) !in board.Bombs() ==> st[y][x]
  }

  /** A new game satisfies the invariant. */
  lemma NewGamePlaying(board: Board, st: seq<seq<bool>>)
    requires board.Valid() && Fits(board, st)
    requires forall y, x :: 0 <= y < |st| && 0 <= x < |st[y]| ==> !st[y][x]
    ensures Playing(board, st, board.Bombs(), 0, false, false)
    ensures Revealed(board, st) == {}
  {
    NothingRevealed(board, st);
    TallyIsRevealedCount(board, st);
  }

  /** Clicking a hidden bomb reveals it, counts it and ends the game lost. */
  lemma BombClickPlaying(board: Board, st: seq<seq<bool>>, bombIndex: set<Coord>, revealedCount: int,
                         finished: bool, won: bool, x: int, y: int)
    requires Playing(board, st, bombIndex, revealedCount, finished, won)
    requires board.InGrid(x, y) && !st[y][x] && board.IsBomb(x, y)
    ensures Playing(board, st[y := st[y][x := true]], bombIndex, revealedCount + 1, true, false)
    ensures Revealed(board, st[y := st[y][x := true]]) == Revealed(board, st) + {(x, y)}
  {
    RevealOne(board, st, x, y);
    TallyIsRevealedCount(board, st);
    TallyIsRevealedCount(board, st[y := st[y][x := true]]);
    var R' := Revealed(board, st[y := st[y][x := true]]);
    assert (x, y) in R' * board.Bombs();
  }

  /** Clicking a hidden cell with bombs around it reveals it and counts it. */
  lemma NumberClickPlaying(board: Board, st: seq<seq<bool>>, bombIndex: set<Coord>, revealedCount: int,
                           finished: bool, won: bool, x: int, y: int)
    requires Playing(board, st, bombIndex, revealedCount, finished, won)
    requires board.InGrid(x, y) && !st[y][x] && !board.IsBomb(x, y) && !IsZero(board, (x, y))
    ensures Playing(board, st[y := st[y][x := true]], bombIndex, revealedCount + 1, finished, won)
    ensures Revealed(board, st[y := st[y][x := true]]) == Revealed(board, st) + {(x, y)}
  {
    RevealOne(board, st, x, y);
    TallyIsRevealedCount(board, st);
    TallyIsRevealedCount(board, st[y := st[y][x := true]]);
    var R, R' := Revealed(board, st), Revealed(board, st[y := st[y][x := true]]);
    assert R' * board.Bombs() == R * board.Bombs();
    HiddenSafeCellNotWon(board, st, won, x, y);
  }

  /** Flooding from a hidden zero cell keeps the invariant, counting every cell it reveals. */
  lemma FloodClickPlaying(board: Board, st: seq<seq<bool>>, bombIndex: set<Coord>, revealedCount: int,
                          finished: bool, won: bool, x: int, y: int, st': seq<seq<bool>>, revealedCount': int)
    requires Playing(board, st, bombIndex, revealedCount, finished, won)
    requires board.InGrid(x, y) && !st[y][x] && IsZero(board, (x, y)) && Fits(board, st')
    requires Flooded(board, Revealed(board, st), Revealed(board, st'), (x, y))
    requires revealedCount' == revealedCount + |Revealed(board, st') - Revealed(board, st)|
    ensures Playing(board, st', bombIndex, revealedCount', finished, won)
    ensures (Revealed(board, st') - Revealed(board, st)) !! board.Bombs()
  {
    var R, R' := Revealed(board, st), Revealed(board, st');
    TallyIsRevealedCount(board, st);
    TallyIsRevealedCount(board, st');
    FloodRevealsNoBomb(board, R, R', (x, y));
    FloodKeepsZeroClosed(board, R, R', (x, y));
    var order: seq<Coord> :| FloodedBy(board, R, R', (x, y), order);
    assert R <= R';
    assert |R'| == |R| + |R' - R|;
    assert R' * board.Bombs() == R * board.Bombs();
    HiddenSafeCellNotWon(board, st, won, x, y);
  }

  /** While a safe cell on the board is hidden, a win means some bomb has been revealed. */
  lemma HiddenSafeCellNotWon(board: Board, st: seq<seq<bool>>, won: bool, x: int, y: int)
    requires board.Shaped() && Fits(board, st) && board.InGrid(x, y) && !st[y][x] && !board.IsBomb(x, y)
    requires won && Revealed(board, st) * board.Bombs() == {} ==> SafeCellsShown(board, st)
    ensures won ==> Revealed(board, st) * board.Bombs() != {}
  {
  }

  /** Setting both terminal flags when the win test passes keeps the invariant. */
  lemma WinPlaying(board: Board, st: seq<seq<bool>>, bombIndex: set<Coord>, revealedCount: int,
                   finished: bool, won: bool)
    requires Playing(board, st, bombIndex, revealedCount, finished, won)
    requires revealedCount == board.NumCells() - |bombIndex|
    ensures Playing(board, st, bombIndex, revealedCount, true, true)
  {
    var R, G, B := Revealed(board, st), Grid(board.Width(), board.Height()), board.Bombs();
    TallyIsRevealedCount(board, st);
    if R * B == {} {
      WinMeansAllSafeRevealed(R, G, B);
      forall x, y | 0 <= x < board.Width() && 0 <= y < board.Height() && (x, y) !in B
        ensures st[y][x]
      {
        assert (x, y) in G - B;
      }
    }
  }

  class MineSweeperGame {
    const board: Board
    /** state[y][x]: has the cell been revealed? (None in the source until revealed.) */
    var state: seq<seq<bool>>
    var flags: set<Coord>
    /** The bombs, cached from the board at construction. */
    const bombIndex: set<Coord>
    var revealedCount: int
    var moves: nat
    var finished: bool
    var won: bool

    /** The test of `_check_win`: the flags are exactly the bombs and the revealed count is
        the number of safe cells. */
    ghost predicate WinCondition()
      reads this`flags, this`revealedCount, board
      requires board.Shaped()
    {
      flags == bombIndex && revealedCount == board.NumCells() - |bombIndex|
    }

    ghost predicate Valid()
      reads this, board
    {
      Playing(board, state, bombIndex, revealedCount, finished, won)
    }

    /** A new game on `board`: nothing revealed or flagged, no moves, not finished. */
    constructor (board: Board)
      requires board.Valid()
      ensures Valid() && this.board == board
      ensures Revealed(board, state) == {} && flags == {} && revealedCount == 0 && moves == 0
      ensures !finished && !won
    {
      this.board := board;
      state := Unrevealed(board.Width(), board.Height());
      flags := {};
      bombIndex := BombIndex(board);
      revealedCount := 0;
      moves := 0;
      finished := false;
      won := false;
      new;
      NewGamePlaying(board, state);
    }

    /** Has (x, y) been flagged? */
    predicate CellFlagged(x: int, y: int)
      reads this
    {
      (x, y) in flags
    }

    /** Has (x, y) been revealed? False off the board. */
    function CellRevealed(x: int, y: int): (r: bool)
      reads this, board
      requires Fits(board, state)
      ensures r <==> (x, y) in Revealed(board, state)
    {
      if x < 0 || x >= |state[0]| then false
      else if y < 0 || y >= |state| then false
      else state[y][x]
    }

    /** `toggle_flag`: counts a move, flips the flag on (x, y) (any coordinate) and checks for a win. */
    method ToggleFlag(x: int, y: int)
      requires Valid()
      modifies this`flags, this`moves, this`finished, this`won
      ensures Valid()
      ensures flags == if (x, y) in old(flags) then old(flags) - {(x, y)} else old(flags) + {(x, y)}
      ensures moves == old(moves) + 1
      ensures state == old(state) && revealedCount == old(revealedCount)
      ensures finished == (old(finished) || WinCondition()) && won == (old(won) || WinCondition())
    {
      moves := moves + 1;
      if CellFlagged(x, y) {
        flags := flags - {(x, y)};
      } else {
        flags := flags + {(x, y)};
      }
      CheckWin();
    }

    /** `click`: ignored on a revealed or flagged cell; otherwise a move that reveals the
        cell and loses on a bomb, reveals just the cell when bombs are around it, and floods
        from it when none are, then checks for a win. Off the board only a flagged
        coordinate may be clicked (the source raises for any other). */
    method Click(x: int, y: int)
      requires Valid() && (board.InGrid(x, y) || (x, y) in flags)
      modifies this`state, this`revealedCount, this`moves, this`finished, this`won
      ensures Valid()
      ensures old(finished) ==> finished
      ensures old(CellRevealed(x, y) || CellFlagged(x, y)) ==>
        state == old(state) && revealedCount == old(revealedCount) && moves == old(moves) &&
        finished == old(finished) && won == old(won)
      ensures !old(CellRevealed(x, y) || CellFlagged(x, y)) ==> moves == old(moves) + 1
      ensures !old(CellRevealed(x, y) || CellFlagged(x, y)) && board.IsBomb(x, y) ==>
        state == old(state)[y := old(state)[y][x := true]] &&
        revealedCount == old(revealedCount) + 1 && finished && !won
      ensures !old(CellRevealed(x, y) || CellFlagged(x, y)) && !board.IsBomb(x, y) &&
              board.Cell(x, y) != Some(Count(0)) ==>
        state == old(state)[y := old(state)[y][x := true]] &&
        revealedCount == old(revealedCount) + 1 &&
        finished == (old(finished) || WinCondition()) && won == (old(won) || WinCondition())
      ensures !old(CellRevealed(x, y) || CellFlagged(x, y)) && board.Cell(x, y) == Some(Count(0)) ==>
        Flooded(board, old(Revealed(board, state)), Revealed(board, state), (x, y)) &&
        (Revealed(board, state) - old(Revealed(board, state))) !! board.Bombs() &&
        revealedCount == old(revealedCount) + |Revealed(board, state) - old(Revealed(board, state))| &&
        finished == (old(finished) || WinCondition()) && won == (old(won) || WinCondition())
    {
      // Don't permit actions over and over on the same cell
      if CellRevealed(x, y) || CellFlagged(x, y) {
        return;
      }
      moves := moves + 1;
      // Lose if clicking on a bomb
      if board.IsBomb(x, y) {
        RevealBomb(x, y);
        return;
      }
      if board.Cell(x, y).value.n > 0 {
        RevealNumber(x, y);
      } else {
        FillClick(x, y);
      }
      CheckWin();
    }

    /** The bomb branch of `click`: reveals and counts the bomb and ends the game lost. */
    method RevealBomb(x: int, y: int)
      requires Valid() && board.InGrid(x, y) && !state[y][x] && board.IsBomb(x, y)
      modifies this`state, this`revealedCount, this`finished, this`won
      ensures Valid()
      ensures state == old(state)[y := old(state)[y][x := true]]
      ensures Revealed(board, state) == old(Revealed(board, state)) + {(x, y)}
      ensures revealedCount == old(revealedCount) + 1 && finished && !won
    {
      ghost var st0, count0, finished0, won0 := state, revealedCount, finished, won;
      state := state[y := state[y][x := true]];
      revealedCount := revealedCount + 1;
      finished := true;
      won := false;
      BombClickPlaying(board, st0, bombIndex, count0, finished0, won0, x, y);
    }

    /** The branch of `click` for a cell with bombs around it: reveals and counts it alone. */
    method RevealNumber(x: int, y: int)
      requires Valid() && board.InGrid(x, y) && !state[y][x] && !board.IsBomb(x, y)
      requires board.Cell(x, y) != Some(Count(0))
      modifies this`state, this`revealedCount
      ensures Valid()
      ensures state == old(state)[y := old(state)[y][x := true]]
      ensures Revealed(board, state) == old(Revealed(board, state)) + {(x, y)}
      ensures revealedCount == old(revealedCount) + 1
    {
      ghost var st0, count0 := state, revealedCount;
      state := state[y := state[y][x := true]];
      revealedCount := revealedCount + 1;
      NumberClickPlaying(board, st0, bombIndex, count0, finished, won, x, y);
    }

    /** `_fill_click`: reveals the connected region of zero cells around the hidden zero cell
        (x, y) and its border, counting each newly revealed cell; none of them is a bomb. */
    method FillClick(x: int, y: int)
      requires Valid() && board.InGrid(x, y) && !state[y][x] && board.Cell(x, y) == Some(Count(0))
      modifies this`state, this`revealedCount
      ensures Valid()
      ensures Flooded(board, old(Revealed(board, state)), Revealed(board, state), (x, y))
      ensures (Revealed(board, state) - old(Revealed(board, state))) !! board.Bombs()
      ensures revealedCount == old(revealedCount) + |Revealed(board, state) - old(Revealed(board, state))|
    {
      ghost var st0, count0 := state, revealedCount;
      state, revealedCount := FloodReveal(board, state, revealedCount, (x, y));
      FloodClickPlaying(board, st0, bombIndex, count0, finished, won, x, y, state, revealedCount);
    }

    /** `_check_win`: finishes and wins the game when the flags are exactly the bombs and
        every safe cell is counted as revealed. */
    method CheckWin()
      requires Valid()
      modifies this`finished, this`won
      ensures Valid()
      ensures finished == (old(finished) || WinCondition()) && won == (old(won) || WinCondition())
    {
      if flags != bombIndex {
        return;
      }
      if revealedCount == board.NumCells() - |bombIndex| {
        WinPlaying(board, state, bombIndex, revealedCount, finished, won);
        finished := true;
        won := true;
      }
    }

    /** `cell`: the game's view of (x, y): flagged first, then hidden, then the board value. */
    function Cell(x: int, y: int): (r: View)
      reads this, board
      requires Fits(board, state)
      ensures r == Flagged <==> (x, y) in flags
      ensures r == Hidden <==> (x, y) !in flags && (x, y) !in Revealed(board, state)
      ensures r.Shown? ==> board.Cell(x, y) == Some(r.cell)
    {
      if CellFlagged(x, y) then Flagged
      else if !CellRevealed(x, y) then Hidden
      else Shown(board.Cell(x, y).value)
    }

    /** The revealed cells among the first n of row y, with their views, left to right. */
    function RevealedRow(y: int, n: nat): (r: seq<(int, int, View)>)
      reads this, board
      requires Fits(board, state) && n <= board.Width()
      ensures forall i :: 0 <= i < |r| ==>
        0 <= r[i].0 < n && r[i].1 == y && CellRevealed(r[i].0, y) && r[i].2 == Cell(r[i].0, y)
      ensures forall i, j :: 0 <= i < j < |r| ==> r[i].0 < r[j].0
      ensures forall x :: 0 <= x < n && CellRevealed(x, y) ==> (x, y, Cell(x, y)) in r
    {
      if n == 0 then []
      else
        var before := RevealedRow(y, n - 1);
        if CellRevealed(n - 1, y) then before + [(n - 1, y, Cell(n - 1, y))] else before
    }

    /** The revealed cells of rows 0 .. m-1, row after row. */
    function RevealedRows(m: nat): (r: seq<(int, int, View)>)
      reads this, board
      requires Fits(board, state) && m <= board.Height()
      ensures forall i :: 0 <= i < |r| ==>
        0 <= r[i].0 < board.Width() && 0 <= r[i].1 < m && CellRevealed(r[i].0, r[i].1) &&
        r[i].2 == Cell(r[i].0, r[i].1)
      ensures forall i, j :: 0 <= i < j < |r| ==> RowMajorBefore((r[i].0, r[i].1), (r[j].0, r[j].1))
      ensures forall x, y :: 0 <= x < board.Width() && 0 <= y < m && CellRevealed(x, y) ==>
        (x, y, Cell(x, y)) in r
    {
      if m == 0 then []
      else
        var before, row := RevealedRows(m - 1), RevealedRow(m - 1, board.Width());
        before + row
    }

    /** `revealed_cell_tuples`: exactly the revealed cells, each once, in row-major order,
        with the game's view of each. */
    function RevealedCellTuples(): (r: seq<(int, int, View)>)
      reads this, board
      requires Fits(board, state)
      ensures forall i :: 0 <= i < |r| ==>
        (r[i].0, r[i].1) in Revealed(board, state) && r[i].2 == Cell(r[i].0, r[i].1)
      ensures forall i, j :: 0 <= i < j < |r| ==> RowMajorBefore((r[i].0, r[i].1), (r[j].0, r[j].1))
      ensures forall p :: p in Revealed(board, state) ==> (p.0, p.1, Cell(p.0, p.1)) in r
    {
      RevealedRows(board.Height())
    }
  }

  /** Toggling the same flag twice restores the flags and counts two moves. */
  method ToggleFlagTwice(game: MineSweeperGame, x: int, y: int)
    requires game.Valid()
    modifies game`flags, game`moves, game`finished, game`won
    ensures game.Valid()
    ensures game.flags == old(game.flags) && game.moves == old(game.moves) + 2
  {
    game.ToggleFlag(x, y);
    game.ToggleFlag(x, y);
  }

  /** Clicking the same hidden, unflagged numbered cell twice reveals and counts it once:
      the second click is ignored. */
  method ClickTwice(game: MineSweeperGame, x: int, y: int)
    requires game.Valid() && game.board.InGrid(x, y) && !game.board.IsBomb(x, y)
    requires game.board.Cell(x, y) != Some(Count(0)) && !game.CellRevealed(x, y) && (x, y) !in game.flags
    modifies game`state, game`revealedCount, game`moves, game`finished, game`won
    ensures game.Valid()
    ensures game.state == old(game.state)[y := old(game.state)[y][x := true]]
    ensures game.revealedCount == old(game.revealedCount) + 1
    ensures game.moves == old(game.moves) + 1
  {
    game.Click(x, y);
    assert game.CellRevealed(x, y);
    game.Click(x, y);
  }

  /** The moves that win the older game on a row of three cells with its only bomb first
      (click the middle cell twice, flag the bomb) do not win this one: the third cell, which
      is safe, is still hidden. */
  method ReplayNoSpuriousWin(board: Board) returns (won: bool)
    requires board.Valid() && board.Width() == 3 && board.Height() == 1 && board.Bombs() == {(0, 0)}
    ensures !won
  {
    var game := new MineSweeperGame(board);
    NextToCornerBomb(board, 0, 1, 0);
    assert game.bombIndex == {(0, 0)} && game.flags == {} && !game.CellRevealed(1, 0);
    ClickTwice(game, 1, 0);
    assert game.revealedCount == 1 && !game.won;
    game.ToggleFlag(0, 0);
    won := game.won;
  }
}
