/** The revealed grid of a game and the flood fill (`_fill_click`) that both game
    versions run when a cell with no bombs around it is clicked. */
module FloodFill {
  import opened MineBoard

  /** A revealed grid has the board's shape: one row of flags per board row. */
  ghost predicate Fits(board: Board, st: seq<seq<bool>>)
    reads board
  {
    board.Shaped() && |st| == board.Height() && forall y :: 0 <= y < |st| ==> |st[y]| == board.Width()
  }

  /** The coordinates whose revealed flag is set. */
  ghost function Revealed(board: Board, st: seq<seq<bool>>): (r: set<Coord>)
    reads board
    requires Fits(board, st)
    ensures r <= Grid(board.Width(), board.Height())
  {
    set x, y | 0 <= x < board.Width() && 0 <= y < board.Height() && st[y][x] :: (x, y)
  }

  /** p is on the board and has no bomb around it (not a bomb, count 0). */
  ghost predicate IsZero(board: Board, p: Coord)
    reads board
    requires board.Shaped()
  {
    board.InGrid(p.0, p.1) && board.cells[p.1][p.0] == Count(0)
  }

  /** The fill's test "not a bomb and numbered 0" is IsZero. */
  lemma ZeroTest(board: Board, x: int, y: int)
    requires board.Shaped()
    ensures (!board.IsBomb(x, y) && board.Cell(x, y) == Some(Count(0))) == IsZero(board, (x, y))
  {
  }

  /** Every in-bounds neighbour of a zero cell of R is in R. */
  ghost predicate ZeroClosed(board: Board, R: set<Coord>)
    reads board
    requires board.Shaped()
  {
    forall p, q :: p in R && IsZero(board, p) && Adjacent(p, q) && board.InGrid(q.0, q.1) ==> q in R
  }

  /** Filling from init turned the revealed set R0 into R1, and `order` lists the newly
      revealed cells in the order they were revealed: the first is init, each later one is a
      neighbour of an earlier zero cell, and every zero cell revealed has all its in-bounds
      neighbours revealed. */
  ghost predicate FloodedBy(board: Board, R0: set<Coord>, R1: set<Coord>, init: Coord, order: seq<Coord>)
    reads board
    requires board.Shaped()
  {
    R0 <= R1 <= Grid(board.Width(), board.Height()) &&
    (forall q :: q in R1 - R0 <==> q in order) &&
    Chain(board, init, order) &&
    (board.InGrid(init.0, init.1) ==> init in R1) &&
    (forall p, q :: p in R1 - R0 && IsZero(board, p) && Adjacent(p, q) && board.InGrid(q.0, q.1) ==> q in R1)
  }

  /** R1 is what filling from init reveals, starting from R0. */
  ghost predicate Flooded(board: Board, R0: set<Coord>, R1: set<Coord>, init: Coord)
    reads board
    requires board.Shaped()
  {
    exists order :: FloodedBy(board, R0, R1, init, order)
  }

  /** Setting the revealed flag of a hidden in-bounds cell adds exactly that cell. */
  lemma RevealOne(board: Board, st: seq<seq<bool>>, x: int, y: int)
    requires Fits(board, st) && board.InGrid(x, y) && !st[y][x]
    ensures Fits(board, st[y := st[y][x := true]])
    ensures (x, y) !in Revealed(board, st)
    ensures Revealed(board, st[y := st[y][x := true]]) == Revealed(board, st) + {(x, y)}
  {
    var st' := st[y := st[y][x := true]];
    assert Fits(board, st');
    var R, R' := Revealed(board, st), Revealed(board, st');
    forall p | p in R' ensures p in R + {(x, y)} {
      var (i, j) := p;
      if (i, j) != (x, y) {
        assert st'[j][i] == st[j][i];
      }
    }
    forall p | p in R + {(x, y)} ensures p in R' {
      var (i, j) := p;
      assert st'[j][i];
    }
  }

  /** One reveal step of the fill: the counters the loop keeps move by exactly one. */
  lemma RevealStep(board: Board, st: seq<seq<bool>>, R0: set<Coord>, x: int, y: int)
    requires Fits(board, st) && board.InGrid(x, y) && !st[y][x] && R0 <= Revealed(board, st)
    ensures Fits(board, st[y := st[y][x := true]])
    ensures Revealed(board, st[y := st[y][x := true]]) == Revealed(board, st) + {(x, y)}
    ensures |Revealed(board, st[y := st[y][x := true]]) - R0| == |Revealed(board, st) - R0| + 1
    ensures |Grid(board.Width(), board.Height()) - Revealed(board, st[y := st[y][x := true]])|
          < |Grid(board.Width(), board.Height()) - Revealed(board, st)|
  {
    RevealOne(board, st, x, y);
    var R, R' := Revealed(board, st), Revealed(board, st[y := st[y][x := true]]);
    var G := Grid(board.Width(), board.Height());
    assert R' - R0 == (R - R0) + {(x, y)};
    assert (x, y) in G;
    assert G - R == (G - R') + {(x, y)};
  }

  /** The number of revealed cells in a row. */
  function RowTally(row: seq<bool>): (n: nat)
    ensures n <= |row|
  {
    if |row| == 0 then 0 else RowTally(row[..|row| - 1]) + (if row[|row| - 1] then 1 else 0)
  }

  /** The number of revealed cells in the grid, counted row by row. */
  function Tally(st: seq<seq<bool>>): nat
  {
    if |st| == 0 then 0 else Tally(st[..|st| - 1]) + RowTally(st[|st| - 1])
  }

  /** The revealed cells among the first n cells of row y. */
  ghost function RowRevealed(row: seq<bool>, y: int, n: int): set<Coord>
    requires 0 <= n <= |row|
  {
    set x | 0 <= x < n && row[x] :: (x, y)
  }

  /** The revealed cells among the first k rows, each of width w. */
  ghost function RevealedBelow(st: seq<seq<bool>>, w: int, k: int): set<Coord>
    requires 0 <= k <= |st| && forall y :: 0 <= y < |st| ==> |st[y]| == w
  {
    set x, y | 0 <= x < w && 0 <= y < k && st[y][x] :: (x, y)
  }

  lemma {:induction false} RowRevealedCount(row: seq<bool>, y: int, n: nat)
    requires n <= |row|
    ensures |RowRevealed(row, y, n)| == RowTally(row[..n])
    decreases n
  {
    if n > 0 {
      RowRevealedCount(row, y, n - 1);
      assert row[..n][..n - 1] == row[..n - 1];
      var before, after := RowRevealed(row, y, n - 1), RowRevealed(row, y, n);
      assert (n - 1, y) !in before;
      if row[n - 1] {
        assert after == before + {(n - 1, y)};
      } else {
        assert after == before;
      }
    }
  }

  lemma {:induction false} RevealedBelowCount(st: seq<seq<bool>>, w: int, k: nat)
    requires k <= |st| && forall y :: 0 <= y < |st| ==> |st[y]| == w
    ensures |RevealedBelow(st, w, k)| == Tally(st[..k])
    decreases k
  {
    if k > 0 {
      RevealedBelowCount(st, w, k - 1);
      assert st[..k][..k - 1] == st[..k - 1];
      var before, after, row := RevealedBelow(st, w, k - 1), RevealedBelow(st, w, k), RowRevealed(st[k - 1], k - 1, w);
      RowRevealedCount(st[k - 1], k - 1, w);
      assert st[k - 1][..w] == st[k - 1];
      assert after == before + row;
      assert before * row == {} by {
        forall p | p in row ensures p !in before {
        }
      }
    }
  }

  /** Counting the revealed flags row by row gives the number of revealed cells. */
  lemma TallyIsRevealedCount(board: Board, st: seq<seq<bool>>)
    requires Fits(board, st)
    ensures Tally(st) == |Revealed(board, st)|
  {
    RevealedBelowCount(st, board.Width(), |st|);
    assert st[..|st|] == st;
    assert RevealedBelow(st, board.Width(), |st|) == Revealed(board, st);
  }

  /** The cells pushed around a revealed zero cell p: its eight neighbours. */
  function Around(p: Coord): (r: set<Coord>)
    ensures forall q :: q in r <==> Adjacent(p, q)
  {
    set q | q in Neighbours(p)
  }

  /** q is a neighbour of a zero cell among the first n cells of `order`. */
  ghost predicate NextToZero(board: Board, order: seq<Coord>, n: int, q: Coord)
    reads board
    requires board.Shaped()
  {
    exists j :: 0 <= j < n && j < |order| && IsZero(board, order[j]) && Adjacent(order[j], q)
  }

  /** The revealed cells in the order the fill revealed them: the first is init, each
      later one is a neighbour of an earlier zero cell. */
  ghost predicate Chain(board: Board, init: Coord, order: seq<Coord>)
    reads board
    requires board.Shaped()
  {
    (|order| > 0 ==> order[0] == init) &&
    forall k {:trigger NextToZero(board, order, k, order[k])} :: 0 < k < |order| ==> NextToZero(board, order, k, order[k])
  }

  /** Every cell on the worklist is init (before anything is revealed) or a neighbour of a
      revealed zero cell. */
  ghost predicate Pushed(board: Board, init: Coord, stack: set<Coord>, order: seq<Coord>)
    reads board
    requires board.Shaped()
  {
    forall q :: q in stack ==> (|order| == 0 && q == init) || NextToZero(board, order, |order|, q)
  }

  /** Every in-bounds neighbour of a zero cell of `order` is revealed or on the worklist. */
  ghost predicate Covered(board: Board, R: set<Coord>, stack: set<Coord>, order: seq<Coord>)
    reads board
    requires board.Shaped()
  {
    forall p, q :: p in order && IsZero(board, p) && Adjacent(p, q) && board.InGrid(q.0, q.1) ==>
      q in R || q in stack
  }

  /** The loop invariant of the fill: the cells revealed so far are R0 plus `order`, which
      forms a chain from init, the worklist holds only pushed cells, and the revealed zero
      cells are covered. */
  ghost predicate Filling(board: Board, R0: set<Coord>, init: Coord, st: seq<seq<bool>>,
                          stack: set<Coord>, order: seq<Coord>)
    reads board
  {
    Fits(board, st) && R0 <= Revealed(board, st) &&
    (forall q :: q in Revealed(board, st) - R0 <==> q in order) &&
    Chain(board, init, order) && Pushed(board, init, stack, order) &&
    (board.InGrid(init.0, init.1) ==> init in Revealed(board, st) || init in stack) &&
    Covered(board, Revealed(board, st), stack, order)
  }

  /** Popping a cell that is off the board or already revealed keeps the invariant. */
  lemma FillingSkip(board: Board, R0: set<Coord>, init: Coord, st: seq<seq<bool>>,
                    stack: set<Coord>, order: seq<Coord>, p: Coord)
    requires Filling(board, R0, init, st, stack, order) && p in stack
    requires !board.InGrid(p.0, p.1) || st[p.1][p.0]
    ensures Filling(board, R0, init, st, stack - {p}, order)
  {
    if board.InGrid(p.0, p.1) {
      assert p in Revealed(board, st);
    }
  }

  /** Appending a popped worklist cell keeps the chain. */
  lemma ChainExtend(board: Board, init: Coord, stack: set<Coord>, order: seq<Coord>, p: Coord)
    requires board.Shaped() && Chain(board, init, order) && Pushed(board, init, stack, order) && p in stack
    ensures Chain(board, init, order + [p])
  {
    var order' := order + [p];
    forall k | 0 < k < |order'| ensures NextToZero(board, order', k, order'[k]) {
      if k < |order| {
        assert NextToZero(board, order, k, order[k]);
        var j :| 0 <= j < k && j < |order| && IsZero(board, order[j]) && Adjacent(order[j], order[k]);
        assert order'[j] == order[j] && order'[k] == order[k];
      } else {
        assert NextToZero(board, order, |order|, p);
        var j :| 0 <= j < |order| && IsZero(board, order[j]) && Adjacent(order[j], p);
        assert order'[j] == order[j] && order'[k] == p;
      }
    }
  }

  /** After popping p and pushing its neighbours when it is a zero cell, the worklist
      holds only pushed cells. */
  lemma PushedExtend(board: Board, init: Coord, stack: set<Coord>, order: seq<Coord>, p: Coord, stack': set<Coord>)
    requires board.Shaped() && Pushed(board, init, stack, order) && p in stack
    requires IsZero(board, p) ==> stack' == (stack - {p}) + Around(p)
    requires !IsZero(board, p) ==> stack' == stack - {p}
    ensures Pushed(board, init, stack', order + [p])
  {
    var order' := order + [p];
    forall q | q in stack' ensures NextToZero(board, order', |order'|, q) {
      if q in stack - {p} {
        if |order| == 0 {
          assert false;
        }
        var j :| 0 <= j < |order| && j < |order| && IsZero(board, order[j]) && Adjacent(order[j], q);
        assert order'[j] == order[j];
      } else {
        assert order'[|order|] == p;
      }
    }
  }

  /** Revealing p and pushing its neighbours when it is a zero cell keeps the zero cells covered. */
  lemma CoveredExtend(board: Board, R: set<Coord>, stack: set<Coord>, order: seq<Coord>, p: Coord,
                      R': set<Coord>, stack': set<Coord>)
    requires board.Shaped() && Covered(board, R, stack, order) && R' == R + {p}
    requires IsZero(board, p) ==> stack' == (stack - {p}) + Around(p)
    requires !IsZero(board, p) ==> stack' == stack - {p}
    ensures Covered(board, R', stack', order + [p])
  {
    forall a, q | a in order + [p] && IsZero(board, a) && Adjacent(a, q) && board.InGrid(q.0, q.1)
      ensures q in R' || q in stack'
    {
      if a != p {
        assert a in order;
      }
    }
  }

  /** Popping a hidden in-bounds cell, revealing it and pushing its neighbours when it is a
      zero cell keeps the invariant, with the cell appended to `order`. */
  lemma FillingReveal(board: Board, R0: set<Coord>, init: Coord, st: seq<seq<bool>>,
                      stack: set<Coord>, order: seq<Coord>, p: Coord,
                      st': seq<seq<bool>>, stack': set<Coord>, order': seq<Coord>)
    requires Filling(board, R0, init, st, stack, order) && p in stack
    requires board.InGrid(p.0, p.1) && !st[p.1][p.0]
    requires st' == st[p.1 := st[p.1][p.0 := true]] && order' == order + [p]
    requires IsZero(board, p) ==> stack' == (stack - {p}) + Around(p)
    requires !IsZero(board, p) ==> stack' == stack - {p}
    ensures Filling(board, R0, init, st', stack', order')
  {
    RevealOne(board, st, p.0, p.1);
    var R, R' := Revealed(board, st), Revealed(board, st');
    forall q | q in R' - R0 ensures q in order' {
      if q != p {
        assert q in R - R0;
      }
    }
    forall q | q in order' ensures q in R' - R0 {
      if q != p {
        assert q in order;
      }
    }
    ChainExtend(board, init, stack, order, p);
    PushedExtend(board, init, stack, order, p, stack');
    CoveredExtend(board, R, stack, order, p, R', stack');
  }

  /** `_fill_click`: pops cells off a set worklist in an arbitrary order, skips cells off
      the board and cells already revealed, reveals the rest (adding one to the revealed
      count each time) and pushes the eight neighbours of every zero cell it reveals.
      It returns the new revealed grid and count. */
  method FloodReveal(board: Board, st0: seq<seq<bool>>, count0: int, init: Coord)
    returns (st: seq<seq<bool>>, count: int)
    requires Fits(board, st0)
    ensures Fits(board, st)
    ensures Flooded(board, Revealed(board, st0), Revealed(board, st), init)
    ensures count == count0 + |Revealed(board, st) - Revealed(board, st0)|
  {
    ghost var R0 := Revealed(board, st0);
    ghost var order: seq<Coord> := [];
    st, count := st0, count0;
    var stack := {init};
    FillingStart(board, init, st);
    while |stack| > 0
      invariant Filling(board, R0, init, st, stack, order)
      invariant count == count0 + |Revealed(board, st) - R0|
      decreases |Grid(board.Width(), board.Height()) - Revealed(board, st)|, |stack|
    {
      ghost var hidden := |Grid(board.Width(), board.Height()) - Revealed(board, st)|;
      var p :| p in stack;
      var (x, y) := p;
      // Skip cells off the board and cells already revealed
      if 0 <= x < board.Width() && 0 <= y < board.Height() && !st[y][x] {
        ghost var stPrev, stackPrev, orderPrev := st, stack, order;
        RevealStep(board, st, R0, x, y);
        st := st[y := st[y][x := true]];
        count := count + 1;
        order := order + [p];
        // A zero cell pushes its eight neighbours
        var zero := !board.IsBomb(x, y) && board.Cell(x, y) == Some(Count(0));
        ZeroTest(board, x, y);
        stack := stack - {p};
        if zero {
          stack := stack + Around(p);
        }
        FillingReveal(board, R0, init, stPrev, stackPrev, orderPrev, p, st, stack, order);
        assert |Grid(board.Width(), board.Height()) - Revealed(board, st)| < hidden;
      } else {
        FillingSkip(board, R0, init, st, stack, order, p);
        PopShrinks(stack, p);
        stack := stack - {p};
        assert |Grid(board.Width(), board.Height()) - Revealed(board, st)| == hidden;
      }
    }
    FillingDone(board, R0, init, st, order);
  }

  lemma PopShrinks(stack: set<Coord>, p: Coord)
    requires p in stack
    ensures |stack - {p}| < |stack|
  {
  }

  /** Before the loop: nothing revealed yet, only init on the worklist. */
  lemma FillingStart(board: Board, init: Coord, st: seq<seq<bool>>)
    requires Fits(board, st)
    ensures Filling(board, Revealed(board, st), init, st, {init}, [])
    ensures |Revealed(board, st) - Revealed(board, st)| == 0
  {
    assert Revealed(board, st) - Revealed(board, st) == {};
  }

  /** With the worklist empty, the invariant is the fill's specification. */
  lemma FillingDone(board: Board, R0: set<Coord>, init: Coord, st: seq<seq<bool>>, order: seq<Coord>)
    requires Filling(board, R0, init, st, {}, order)
    ensures Flooded(board, R0, Revealed(board, st), init)
  {
    var R1 := Revealed(board, st);
    forall p, q | p in R1 - R0 && IsZero(board, p) && Adjacent(p, q) && board.InGrid(q.0, q.1)
      ensures q in R1
    {
      assert p in order;
    }
    assert FloodedBy(board, R0, R1, init, order);
  }

  /** R2 contains R0 and the start cell (when it is on the board), and every in-bounds
      neighbour of a zero cell that R2 adds to R0 is in R2. */
  ghost predicate ClosedFrom(board: Board, R0: set<Coord>, R2: set<Coord>, init: Coord)
    reads board
    requires board.Shaped()
  {
    R0 <= R2 && (board.InGrid(init.0, init.1) ==> init in R2) &&
    forall p, q :: p in R2 - R0 && IsZero(board, p) && Adjacent(p, q) && board.InGrid(q.0, q.1) ==> q in R2
  }

  /** Every cell of a fill's order lies in any region closed from the same start. */
  lemma {:induction false} OrderCovered(board: Board, R0: set<Coord>, R1: set<Coord>, R2: set<Coord>,
                                        init: Coord, order: seq<Coord>, k: nat)
    requires board.Shaped() && FloodedBy(board, R0, R1, init, order) && ClosedFrom(board, R0, R2, init)
    requires k < |order|
    ensures order[k] in R2
  {
    assert order[k] in R1 - R0;
    if k == 0 {
      assert order[0] in Grid(board.Width(), board.Height());
    } else {
      assert NextToZero(board, order, k, order[k]);
      var j :| 0 <= j < k && j < |order| && IsZero(board, order[j]) && Adjacent(order[j], order[k]);
      OrderCovered(board, R0, R1, R2, init, order, j);
      assert order[j] in R1 - R0;
      assert order[j] in R2 - R0;
      assert order[k] in Grid(board.Width(), board.Height());
    }
  }

  /** A fill reveals the least region closed from its start: any region that contains the
      revealed set and the start cell and has every neighbour of its new zero cells contains
      the fill. */
  lemma FloodIsLeast(board: Board, R0: set<Coord>, R1: set<Coord>, R2: set<Coord>, init: Coord)
    requires board.Shaped() && Flooded(board, R0, R1, init) && ClosedFrom(board, R0, R2, init)
    ensures R1 <= R2
  {
    var order: seq<Coord> :| FloodedBy(board, R0, R1, init, order);
    forall q | q in R1 ensures q in R2 {
      if q !in R0 {
        assert q in order;
        var k :| 0 <= k < |order| && order[k] == q;
        OrderCovered(board, R0, R1, R2, init, order, k);
      }
    }
  }

  /** What a fill reveals does not depend on the order the worklist is popped in: two fills
      from the same revealed set and start reveal the same cells. */
  lemma FloodDeterministic(board: Board, R0: set<Coord>, R1: set<Coord>, R2: set<Coord>, init: Coord)
    requires board.Shaped() && Flooded(board, R0, R1, init) && Flooded(board, R0, R2, init)
    ensures R1 == R2
  {
    var o1: seq<Coord> :| FloodedBy(board, R0, R1, init, o1);
    var o2: seq<Coord> :| FloodedBy(board, R0, R2, init, o2);
    assert ClosedFrom(board, R0, R1, init);
    assert ClosedFrom(board, R0, R2, init);
    FloodIsLeast(board, R0, R1, R2, init);
    FloodIsLeast(board, R0, R2, R1, init);
  }

  /** On a valid board a fill started from a cell that is not a bomb reveals no bomb: every
      other cell it reveals is a neighbour of a zero cell. */
  lemma FloodRevealsNoBomb(board: Board, R0: set<Coord>, R1: set<Coord>, init: Coord)
    requires board.Valid() && Flooded(board, R0, R1, init) && !board.IsBomb(init.0, init.1)
    ensures (R1 - R0) !! board.Bombs()
  {
    var order: seq<Coord> :| FloodedBy(board, R0, R1, init, order);
    forall q | q in R1 - R0 ensures !board.IsBomb(q.0, q.1) {
      var k :| 0 <= k < |order| && order[k] == q;
      if k > 0 {
        assert NextToZero(board, order, k, order[k]);
        var j :| 0 <= j < k && j < |order| && IsZero(board, order[j]) && Adjacent(order[j], order[k]);
        board.ZeroHasNoBombNeighbour(order[j].0, order[j].1, q);
      }
    }
  }

  /** A fill keeps the revealed set closed around zero cells. */
  lemma FloodKeepsZeroClosed(board: Board, R0: set<Coord>, R1: set<Coord>, init: Coord)
    requires board.Shaped() && ZeroClosed(board, R0) && Flooded(board, R0, R1, init)
    ensures ZeroClosed(board, R1)
  {
    var order: seq<Coord> :| FloodedBy(board, R0, R1, init, order);
  }

  /** A fill started from a revealed cell or a cell off the board reveals nothing. */
  lemma FloodFromRevealedIsEmpty(board: Board, R0: set<Coord>, R1: set<Coord>, init: Coord)
    requires board.Shaped() && Flooded(board, R0, R1, init)
    requires init in R0 || !board.InGrid(init.0, init.1)
    ensures R1 == R0
  {
    var order: seq<Coord> :| FloodedBy(board, R0, R1, init, order);
    assert init !in R1 - R0;
    assert |order| == 0;
    forall q | q in R1 ensures q in R0 {
      assert q !in order;
    }
  }
}
