/** The older, top-level game variant (game.py). It differs from the packaged one in its
    `click`: there is no guard against clicking a revealed or flagged cell, a bomb click ends
    the game without revealing the bomb, and a numbered cell is counted again each time it is
    clicked. Its `_fill_click` is the same as the packaged one and is modelled by
    FloodFill.FloodReveal. */
module LegacyMineSweeper {
  import opened MineBoard
  import opened FloodFill
  import opened GameSetup

  /** No bomb has ever been revealed: the older click never reveals the bomb it hits. */
  ghost predicate NoBombShown(board: Board, st: seq<seq<bool>>)
    reads board
    requires Fits(board, st)
  {
    forall x, y :: 0 <= x < board.Width() && 0 <= y < board.Height() && st[y][x] ==> (x, y) !in board.Bombs()
  }

  /** The invariant of the older game: the board is consistent, the revealed grid has its
      shape, the bomb index is its bombs, the revealed count is at least the number of
      revealed cells (it can count a cell twice), revealed zero cells have all their
      neighbours revealed, no bomb is revealed and a win finishes the game. */
  ghost predicate LegacyPlaying(board: Board, st: seq<seq<bool>>, bombIndex: set<Coord>, revealedCount: int,
                                finished: bool, won: bool)
    reads board
  {
    board.Valid() && Fits(board, st) && bombIndex == board.Bombs() &&
    revealedCount >= Tally(st) &&
    ZeroClosed(board, Revealed(board, st)) &&
    NoBombShown(board, st) &&
    (won ==> finished)
  }

  /** A new game satisfies the invariant. */
  lemma NewLegacyPlaying(board: Board, st: seq<seq<bool>>)
    requires board.Valid() && Fits(board, st)
    requires forall y, x :: 0 <= y < |st| && 0 <= x < |st[y]| ==> !st[y][x]
    ensures LegacyPlaying(board, st, board.Bombs(), 0, false, false)
  {
    NothingRevealed(board, st);
    TallyIsRevealedCount(board, st);
  }

  /** Clicking a numbered cell, hidden or not, marks it revealed and counts one more cell:
      the count still bounds the revealed cells from above. */
  lemma LegacyNumberStep(board: Board, st: seq<seq<bool>>, bombIndex: set<Coord>, revealedCount: int,
                         finished: bool, won: bool, x: int, y: int)
    requires LegacyPlaying(board, st, bombIndex, revealedCount, finished, won)
    requires board.InGrid(x, y) && !board.IsBomb(x, y) && !IsZero(board, (x, y))
    ensures LegacyPlaying(board, st[y := st[y][x := true]], bombIndex, revealedCount + 1, finished, won)
    ensures st[y][x] ==> st[y := st[y][x := true]] == st
  {
    var st' := st[y := st[y][x := true]];
    if st[y][x] {
      assert st[y][x := true] == st[y];
      assert st' == st;
    } else {
      RevealOne(board, st, x, y);
      TallyIsRevealedCount(board, st);
      TallyIsRevealedCount(board, st');
      var R, R' := Revealed(board, st), Revealed(board, st');
      forall p, q | p in R' && IsZero(board, p) && Adjacent(p, q) && board.InGrid(q.0, q.1)
        ensures q in R'
      {
        assert p in R;
      }
    }
  }

  /** Flooding from a zero cell keeps the invariant: it reveals no bomb and counts each cell
      it reveals once. */
  lemma LegacyFloodStep(board: Board, st: seq<seq<bool>>, bombIndex: set<Coord>, revealedCount: int,
                        finished: bool, won: bool, x: int, y: int, st': seq<seq<bool>>, revealedCount': int)
    requires LegacyPlaying(board, st, bombIndex, revealedCount, finished, won)
    requires board.InGrid(x, y) && IsZero(board, (x, y)) && Fits(board, st')
    requires Flooded(board, Revealed(board, st), Revealed(board, st'), (x, y))
    requires revealedCount' == revealedCount + |Revealed(board, st') - Revealed(board, st)|
    ensures LegacyPlaying(board, st', bombIndex, revealedCount', finished, won)
    ensures (Revealed(board, st') - Revealed(board, st)) !! board.Bombs()
  {
    var R, R' := Revealed(board, st), Revealed(board, st');
    TallyIsRevealedCount(board, st);
    TallyIsRevealedCount(board, st');
    FloodRevealsNoBomb(board, R, R', (x, y));
    FloodKeepsZeroClosed(board, R, R', (x, y));
    var order: seq<Coord> :| FloodedBy(board, R, R', (x, y), order);
    assert R <= R';
    assert |R'| == |R| + |R' - R|;
    forall i, j | 0 <= i < board.Width() && 0 <= j < board.Height() && st'[j][i]
      ensures (i, j) !in board.Bombs()
    {
      assert (i, j) in R';
      if (i, j) in R {
        assert st[j][i];
      }
    }
  }

  class MineSweeperGame {
    const board: Board
    /** state[y][x]: has the cell been revealed? (None in the source until revealed.) */
    var state: seq<seq<bool>>
    var flags: set<Coord>
    /** The bombs, cached from the board at construction. */
    const bombIndex: set<Coord>
    var revealedCount: int
    var moves: nat
    var finished: bool
    var won: bool

    /** The test of `_check_win`: the flags are exactly the bombs and the revealed count is
        the number of safe cells. */
    ghost predicate WinCondition()
      reads this`flags, this`revealedCount, board
      requires board.Shaped()
    {
      flags == bombIndex && revealedCount == board.NumCells() - |bombIndex|
    }

    ghost predicate Valid()
      reads this, board
    {
      LegacyPlaying(board, state, bombIndex, revealedCount, finished, won)
    }

    /** A new game on `board`: nothing revealed or flagged, no moves, not finished. */
    constructor (board: Board)
      requires board.Valid()
      ensures Valid() && this.board == board
      ensures forall y, x :: 0 <= y < |state| && 0 <= x < |state[y]| ==> !state[y][x]
      ensures flags == {} && revealedCount == 0 && moves == 0 && !finished && !won
    {
      this.board := board;
      state := Unrevealed(board.Width(), board.Height());
      flags := {};
      bombIndex := BombIndex(board);
      revealedCount := 0;
      moves := 0;
      finished := false;
      won := false;
      new;
      NewLegacyPlaying(board, state);
    }

    /** Has (x, y) been flagged? */
    predicate CellFlagged(x: int, y: int)
      reads this
    {
      (x, y) in flags
    }

    /** Has (x, y) been revealed? False off the board. */
    function CellRevealed(x: int, y: int): (r: bool)
      reads this, board
      requires Fits(board, state)
      ensures r <==> (x, y) in Revealed(board, state)
    {
      if x < 0 || x >= |state[0]| then false
      else if y < 0 || y >= |state| then false
      else state[y][x]
    }

    /** `toggle_flag`: counts a move, flips the flag on (x, y) and checks for a win. */
    method ToggleFlag(x: int, y: int)
      requires Valid()
      modifies this`flags, this`moves, this`finished, this`won
      ensures Valid()
      ensures flags == if (x, y) in old(flags) then old(flags) - {(x, y)} else old(flags) + {(x, y)}
      ensures moves == old(moves) + 1
      ensures finished == (old(finished) || WinCondition()) && won == (old(won) || WinCondition())
    {
      moves := moves + 1;
      if CellFlagged(x, y) {
        flags := flags - {(x, y)};
      } else {
        flags := flags + {(x, y)};
      }
      CheckWin();
    }

    /** `click` of the older game: always a move; a bomb ends the game lost without being
        revealed; a numbered cell is marked revealed and counted, even when it already was;
        a zero cell floods. The source raises for coordinates off the board. */
    method Click(x: int, y: int)
      requires Valid() && board.InGrid(x, y)
      modifies this`state, this`revealedCount, this`moves, this`finished, this`won
      ensures Valid()
      ensures moves == old(moves) + 1
      ensures board.IsBomb(x, y) ==>
        state == old(state) && revealedCount == old(revealedCount) && finished && !won
      ensures !board.IsBomb(x, y) && board.Cell(x, y) != Some(Count(0)) ==>
        state == old(state)[y := old(state)[y][x := true]] &&
        revealedCount == old(revealedCount) + 1 &&
        finished == (old(finished) || WinCondition()) && won == (old(won) || WinCondition())
      ensures board.Cell(x, y) == Some(Count(0)) ==>
        Flooded(board, old(Revealed(board, state)), Revealed(board, state), (x, y)) &&
        revealedCount == old(revealedCount) + |Revealed(board, state) - old(Revealed(board, state))| &&
        finished == (old(finished) || WinCondition()) && won == (old(won) || WinCondition())
    {
      moves := moves + 1;
      // Lose if clicking on a bomb
      if board.IsBomb(x, y) {
        finished := true;
        won := false;
        return;
      }
      if board.Cell(x, y).value.n > 0 {
        RevealNumber(x, y);
      } else {
        FillClick(x, y);
      }
      CheckWin();
    }

    /** The branch of `click` for a cell with bombs around it: marks it revealed and counts
        it, whether or not it was revealed before. */
    method RevealNumber(x: int, y: int)
      requires Valid() && board.InGrid(x, y) && !board.IsBomb(x, y) && board.Cell(x, y) != Some(Count(0))
      modifies this`state, this`revealedCount
      ensures Valid()
      ensures state == old(state)[y := old(state)[y][x := true]]
      ensures revealedCount == old(revealedCount) + 1
    {
      ghost var st0, count0 := state, revealedCount;
      state := state[y := state[y][x := true]];
      revealedCount := revealedCount + 1;
      LegacyNumberStep(board, st0, bombIndex, count0, finished, won, x, y);
    }

    /** `_fill_click`: reveals the connected region of zero cells around the zero cell (x, y)
        and its border, counting each newly revealed cell; none of them is a bomb. */
    method FillClick(x: int, y: int)
      requires Valid() && board.InGrid(x, y) && board.Cell(x, y) == Some(Count(0))
      modifies this`state, this`revealedCount
      ensures Valid()
      ensures Flooded(board, old(Revealed(board, state)), Revealed(board, state), (x, y))
      ensures (Revealed(board, state) - old(Revealed(board, state))) !! board.Bombs()
      ensures revealedCount == old(revealedCount) + |Revealed(board, state) - old(Revealed(board, state))|
    {
      ghost var st0, count0 := state, revealedCount;
      state, revealedCount := FloodReveal(board, state, revealedCount, (x, y));
      LegacyFloodStep(board, st0, bombIndex, count0, finished, won, x, y, state, revealedCount);
    }

    /** `_check_win`: finishes and wins the game when the flags are exactly the bombs and
        the revealed count is the number of safe cells. */
    method CheckWin()
      requires Valid()
      modifies this`finished, this`won
      ensures Valid()
      ensures finished == (old(finished) || WinCondition()) && won == (old(won) || WinCondition())
    {
      if flags != bombIndex {
        return;
      }
      if revealedCount == board.NumCells() - |bombIndex| {
        finished := true;
        won := true;
      }
    }
  }

  /** Toggling the same flag twice restores the flags and counts two moves. */
  method ToggleFlagTwice(game: MineSweeperGame, x: int, y: int)
    requires game.Valid()
    modifies game`flags, game`moves, game`finished, game`won
    ensures game.Valid()
    ensures game.flags == old(game.flags) && game.moves == old(game.moves) + 2
  {
    game.ToggleFlag(x, y);
    game.ToggleFlag(x, y);
  }

  /** Clicking the same numbered cell twice marks it revealed once but counts it twice. */
  method ClickTwice(game: MineSweeperGame, x: int, y: int)
    requires game.Valid() && game.board.InGrid(x, y) && !game.board.IsBomb(x, y)
    requires game.board.Cell(x, y) != Some(Count(0))
    modifies game`state, game`revealedCount, game`moves, game`finished, game`won
    ensures game.Valid()
    ensures game.state == old(game.state)[y := old(game.state)[y][x := true]]
    ensures game.revealedCount == old(game.revealedCount) + 2
  {
    ghost var s0 := game.state;
    game.Click(x, y);
    ghost var s1 := game.state;
    assert s1 == s0[y := s0[y][x := true]];
    assert s1[y][x := true] == s1[y];
    assert s1[y := s1[y][x := true]] == s1;
    game.Click(x, y);
  }

  /** On a row of three cells whose only bomb is the first, clicking the middle cell twice
      and flagging the bomb wins the older game although the safe third cell is still
      hidden: the second click counts the middle cell again. */
  method ReplaySpuriousWin(board: Board) returns (won: bool, hiddenSafe: bool)
    requires board.Valid() && board.Width() == 3 && board.Height() == 1 && board.Bombs() == {(0, 0)}
    ensures won && hiddenSafe
  {
    var game := new MineSweeperGame(board);
    NextToCornerBomb(board, 0, 1, 0);
    assert game.bombIndex == {(0, 0)} && game.flags == {};
    ClickTwice(game, 1, 0);
    assert !game.state[0][2] && game.revealedCount == 2;
    game.ToggleFlag(0, 0);
    assert game.flags == game.bombIndex;
    won := game.won;
    hiddenSafe := !board.IsBomb(2, 0) && !game.state[0][2];
  }

  /** The same moves on the board built with its only bomb at (0, 0). */
  method SpuriousWin() returns (won: bool, hiddenSafe: bool)
    ensures won && hiddenSafe
  {
    var board := new Board(3, 1, {(0, 0)});
    assert board.Bombs() == {(0, 0)} by {
      assert (0, 0) in Grid(3, 1);
    }
    won, hiddenSafe := ReplaySpuriousWin(board);
  }
}
