/** What both game variants start from: the all-hidden revealed grid and the bomb index
    that `__init__` caches from the board's cell triples. */
module GameSetup {
  import opened MineBoard
  import opened FloodFill

  /** A fully revealed grid of the board's shape with every flag false. */
  lemma NothingRevealed(board: Board, st: seq<seq<bool>>)
    requires Fits(board, st) && forall y, x :: 0 <= y < |st| && 0 <= x < |st[y]| ==> !st[y][x]
    ensures Revealed(board, st) == {}
  {
    forall x, y | 0 <= x < board.Width() && 0 <= y < board.Height() ensures (x, y) !in Revealed(board, st) {
      assert !st[y][x];
    }
  }

  /** Every bomb of the board shows up as a bomb triple. */
  lemma BombsInTriples(board: Board)
    requires board.Shaped()
    ensures board.Bombs() <= (set t | t in board.CellTuples() && t.2 == Some(Bomb) :: (t.0, t.1))
  {
    var tuples := board.CellTuples();
    forall p | p in board.Bombs() ensures p in (set t | t in board.CellTuples() && t.2 == Some(Bomb) :: (t.0, t.1)) {
      var (x, y) := p;
      var t := (x, y, board.Cell(x, y));
      assert t in tuples && t.2 == Some(Bomb);
    }
  }

  /** Every bomb triple names a bomb of the board. */
  lemma TriplesAreBombs(board: Board)
    requires board.Shaped()
    ensures (set t | t in board.CellTuples() && t.2 == Some(Bomb) :: (t.0, t.1)) <= board.Bombs()
  {
    var tuples := board.CellTuples();
    forall p | p in (set t | t in board.CellTuples() && t.2 == Some(Bomb) :: (t.0, t.1)) ensures p in board.Bombs() {
      var t :| t in tuples && t.2 == Some(Bomb) && p == (t.0, t.1);
      var i :| 0 <= i < |tuples| && tuples[i] == t;
      assert board.InGrid(t.0, t.1) && board.Cell(t.0, t.1) == Some(Bomb);
    }
  }

  /** The bomb index of `__init__`: the coordinates of the cell triples holding a bomb. */
  function BombIndex(board: Board): (r: set<Coord>)
    reads board
    requires board.Shaped()
    ensures r == board.Bombs()
  {
    BombsInTriples(board);
    TriplesAreBombs(board);
    set t | t in board.CellTuples() && t.2 == Some(Bomb) :: (t.0, t.1)
  }

  /** The revealed grid of a new game: h rows of w cells, none revealed. */
  function Unrevealed(w: nat, h: nat): (r: seq<seq<bool>>)
    ensures |r| == h && forall y :: 0 <= y < h ==> |r[y]| == w
    ensures forall y, x :: 0 <= y < |r| && 0 <= x < |r[y]| ==> !r[y][x]
  {
    seq(h, _ => seq(w, _ => false))
  }
}
