/** The mine board of board.py: a width-by-height grid whose cells are bombs
    or the number of bombs among their (up to eight) in-bounds neighbours. */
module MineBoard {

  /** A coordinate (x, y): x is the column, y the row; cells are stored as cells[y][x]. */
  type Coord = (int, int)

  /** A cell of a built board: a bomb, or the count of neighbouring bombs. */
  datatype Cell = Bomb | Count(n: nat)

  /** Python's None-or-value results. */
  datatype Option<T> = None | Some(value: T)

  /** q is one of the eight cells around p. */
  predicate Adjacent(p: Coord, q: Coord)
  {
    p != q && -1 <= q.0 - p.0 <= 1 && -1 <= q.1 - p.1 <= 1
  }

  /** The eight neighbours of p, in the order the source lists them. */
  function Neighbours(p: Coord): (r: seq<Coord>)
    ensures |r| == 8
    ensures forall q :: q in r <==> Adjacent(p, q)
    ensures forall i, j :: 0 <= i < j < |r| ==> r[i] != r[j]
  {
    var (x, y) := p;
    [(x - 1, y - 1), (x, y - 1), (x + 1, y - 1),
     (x - 1, y),                 (x + 1, y),
     (x - 1, y + 1), (x, y + 1), (x + 1, y + 1)]
  }

  /** Python's sum over a list of booleans: the number of true entries. */
  function Sum(bs: seq<bool>): (n: nat)
    ensures n <= |bs|
  {
    if bs == [] then 0 else (if bs[0] then 1 else 0) + Sum(bs[1..])
  }

  /** For each of the eight neighbours of p, in order, whether it lies in bombs. */
  function BombFlags(p: Coord, bombs: set<Coord>): (r: seq<bool>)
    ensures |r| == 8
    ensures forall i :: 0 <= i < 8 ==> r[i] == (Neighbours(p)[i] in bombs)
  {
    var (x, y) := p;
    [(x - 1, y - 1) in bombs, (x, y - 1) in bombs, (x + 1, y - 1) in bombs,
     (x - 1, y) in bombs,                          (x + 1, y) in bombs,
     (x - 1, y + 1) in bombs, (x, y + 1) in bombs, (x + 1, y + 1) in bombs]
  }

  /** Summing the flags "ps[i] is a bomb" over distinct ps gives the size of the set of bombs among ps. */
  lemma {:induction false} SumIsCardinality(bs: seq<bool>, ps: seq<Coord>, bombs: set<Coord>)
    requires |bs| == |ps|
    requires forall i :: 0 <= i < |bs| ==> bs[i] == (ps[i] in bombs)
    requires forall i, j :: 0 <= i < j < |ps| ==> ps[i] != ps[j]
    ensures Sum(bs) == |set q | q in ps && q in bombs|
  {
    if ps == [] {
      assert (set q | q in ps && q in bombs) == {};
    } else {
      var rest := set q | q in ps[1..] && q in bombs;
      SumIsCardinality(bs[1..], ps[1..], bombs);
      assert ps[0] !in ps[1..] by {
        forall i | 0 <= i < |ps[1..]| ensures ps[1..][i] != ps[0] {
          assert ps[1..][i] == ps[i + 1];
        }
      }
      if ps[0] in bombs {
        assert (set q | q in ps && q in bombs) == rest + {ps[0]};
      } else {
        assert (set q | q in ps && q in bombs) == rest;
      }
    }
  }

  /** A sum of zero means no flag is set. */
  lemma {:induction false} ZeroSum(bs: seq<bool>)
    requires Sum(bs) == 0
    ensures forall i :: 0 <= i < |bs| ==> !bs[i]
  {
    if bs != [] {
      ZeroSum(bs[1..]);
      assert forall i :: 1 <= i < |bs| ==> bs[i] == bs[1..][i - 1];
    }
  }

  /** The number of bombs around p: the bombs among its in-bounds neighbours, at most 8. */
  lemma BombCountIsCardinality(p: Coord, bombs: set<Coord>)
    ensures Sum(BombFlags(p, bombs)) == |set q | Adjacent(p, q) && q in bombs|
    ensures Sum(BombFlags(p, bombs)) <= 8
  {
    var ns := Neighbours(p);
    SumIsCardinality(BombFlags(p, bombs), ns, bombs);
    assert (set q | q in ns && q in bombs) == (set q | Adjacent(p, q) && q in bombs);
  }

  /** No neighbour of a cell with no bombs around it is a bomb. */
  lemma NoBombAround(p: Coord, bombs: set<Coord>, q: Coord)
    requires Sum(BombFlags(p, bombs)) == 0 && Adjacent(p, q)
    ensures q !in bombs
  {
    ZeroSum(BombFlags(p, bombs));
    var ns := Neighbours(p);
    assert q in ns;
    var i :| 0 <= i < 8 && ns[i] == q;
  }

  /** All coordinates of a width-by-height board. */
  ghost function Grid(w: int, h: int): set<Coord>
  {
    set x, y | 0 <= x < w && 0 <= y < h :: (x, y)
  }

  /** The coordinates of row y. */
  ghost function Row(w: int, y: int): set<Coord>
  {
    set x | 0 <= x < w :: (x, y)
  }

  lemma {:induction false} RowSize(w: nat, y: int)
    ensures |Row(w, y)| == w
  {
    if w > 0 {
      RowSize(w - 1, y);
      assert Row(w, y) == Row(w - 1, y) + {(w - 1, y)};
    } else {
      assert Row(w, y) == {};
    }
  }

  /** A width-by-height board has width * height coordinates. */
  lemma {:induction false} GridSize(w: nat, h: nat)
    ensures |Grid(w, h)| == w * h
  {
    if h > 0 {
      GridSize(w, h - 1);
      RowSize(w, h - 1);
      GridSplit(w, h);
      var g, r := Grid(w, h - 1), Row(w, h - 1);
      assert g * r == {};
      assert |g + r| == |g| + |r|;
      MulStep(w, h);
    } else {
      assert Grid(w, h) == {};
    }
  }

  lemma MulStep(w: nat, h: nat)
    requires h > 0
    ensures w * (h - 1) + w == w * h
  {
  }

  lemma GridSplit(w: nat, h: nat)
    requires h > 0
    ensures Grid(w, h) == Grid(w, h - 1) + Row(w, h - 1)
    ensures Grid(w, h - 1) !! Row(w, h - 1)
  {
    forall p | p in Grid(w, h) ensures p in Grid(w, h - 1) || p in Row(w, h - 1) {
      var (x, y) := p;
      if y < h - 1 {
        assert (x, y) in Grid(w, h - 1);
      } else {
        assert (x, y) in Row(w, h - 1);
      }
    }
    forall p | p in Grid(w, h - 1) + Row(w, h - 1) ensures p in Grid(w, h) {
      var (x, y) := p;
      assert (x, y) in Grid(w, h);
    }
  }

  /** The number of bombs of the layout `mines` around p, counting only cells on the board. */
  ghost function MinesAround(mines: set<Coord>, w: int, h: int, p: Coord): nat
  {
    Sum(BombFlags(p, mines * Grid(w, h)))
  }

  /** The grid after bomb placement: bombs from the layout, every other cell not yet counted
      (Python's `None` placeholder, written here as a count of 0). */
  function Placed(mines: set<Coord>, w: nat, h: nat): (g: seq<seq<Cell>>)
    ensures |g| == h && forall y :: 0 <= y < h ==> |g[y]| == w
    ensures forall y, x :: 0 <= y < h && 0 <= x < w ==> (g[y][x] == Bomb <==> (x, y) in mines)
    ensures forall y, x :: 0 <= y < h && 0 <= x < w && g[y][x] != Bomb ==> g[y][x] == Count(0)
  {
    seq(h, y => seq(w, x => if (x, y) in mines then Bomb else Count(0)))
  }

  /** The finished grid: bombs from the layout, every other cell the number of layout bombs around it. */
  ghost function Counted(mines: set<Coord>, w: nat, h: nat): (g: seq<seq<Cell>>)
    ensures |g| == h && forall y :: 0 <= y < h ==> |g[y]| == w
  {
    seq(h, y => seq(w, x => if (x, y) in mines then Bomb else Count(MinesAround(mines, w, h, (x, y)))))
  }

  /** The count pass has finished every column before x and the first y cells of column x:
      those hold the finished grid's value, the others the value bomb placement gave them. */
  ghost predicate CountedUpTo(g: seq<seq<Cell>>, mines: set<Coord>, w: nat, h: nat, x: int, y: int)
  {
    |g| == h && (forall j :: 0 <= j < h ==> |g[j]| == w) &&
    forall i, j {:trigger g[j][i]} :: 0 <= i < w && 0 <= j < h ==>
      g[j][i] == if i < x || (i == x && j < y) then Counted(mines, w, h)[j][i] else Placed(mines, w, h)[j][i]
  }

  /** Bombs stay where the layout put them throughout the count pass. */
  lemma CountedUpToBombs(g: seq<seq<Cell>>, mines: set<Coord>, w: nat, h: nat, x: int, y: int)
    requires CountedUpTo(g, mines, w, h, x, y)
    ensures forall i, j {:trigger g[j][i]} :: 0 <= i < w && 0 <= j < h ==> (g[j][i] == Bomb <==> (i, j) in mines)
  {
  }

  lemma CountedUpToWrite(g: seq<seq<Cell>>, mines: set<Coord>, w: nat, h: nat, x: int, y: int)
    requires CountedUpTo(g, mines, w, h, x, y) && 0 <= x < w && 0 <= y < h
    ensures CountedUpTo(g[y := g[y][x := Counted(mines, w, h)[y][x]]], mines, w, h, x, y + 1)
  {
    var g' := g[y := g[y][x := Counted(mines, w, h)[y][x]]];
    forall i, j | 0 <= i < w && 0 <= j < h
      ensures g'[j][i] == if i < x || (i == x && j < y + 1) then Counted(mines, w, h)[j][i] else Placed(mines, w, h)[j][i]
    {
      if (i, j) != (x, y) {
        assert g'[j][i] == g[j][i];
      }
    }
  }

  lemma CountedUpToSkip(g: seq<seq<Cell>>, mines: set<Coord>, w: nat, h: nat, x: int, y: int)
    requires CountedUpTo(g, mines, w, h, x, y) && 0 <= x < w && 0 <= y < h && (x, y) in mines
    ensures CountedUpTo(g, mines, w, h, x, y + 1)
  {
    assert Counted(mines, w, h)[y][x] == Placed(mines, w, h)[y][x];
  }

  lemma CountedUpToDone(g: seq<seq<Cell>>, mines: set<Coord>, w: nat, h: nat)
    requires CountedUpTo(g, mines, w, h, w, 0)
    ensures g == Counted(mines, w, h)
  {
    var counted := Counted(mines, w, h);
    forall j | 0 <= j < h ensures g[j] == counted[j] {
      assert forall i :: 0 <= i < w ==> g[j][i] == counted[j][i];
    }
  }

  /** a comes before b in row-major order (row y first, then column x). */
  predicate RowMajorBefore(a: Coord, b: Coord)
  {
    a.1 < b.1 || (a.1 == b.1 && a.0 < b.0)
  }

  class Board {
    /** The grid, row by row: cells[y][x]. */
    var cells: seq<seq<Cell>>

    /** At least one row (width() reads cells[0]) and all rows of one length. */
    ghost predicate Shaped()
      reads this
    {
      |cells| >= 1 && forall y :: 0 <= y < |cells| ==> |cells[y]| == |cells[0]|
    }

    /** The adjacency invariant: every non-bomb cell holds the number of bombs around it. */
    ghost predicate Valid()
      reads this
    {
      Shaped() && forall x, y :: 0 <= x < Width() && 0 <= y < Height() ==> Counts(x, y)
    }

    /** The cell at (x, y) is a bomb or the number of bombs among its eight neighbours. */
    ghost predicate Counts(x: int, y: int)
      reads this
      requires Shaped() && 0 <= x < Width() && 0 <= y < Height()
    {
      cells[y][x] == Bomb || cells[y][x] == Count(Sum(BombFlags((x, y), Bombs())))
    }

    /** Builds the board for the bomb layout `mines` (those of its coordinates on the board):
        places the bombs, then writes each non-bomb cell's neighbour count in place. */
    constructor (w: nat, h: nat, mines: set<Coord>)
      requires h >= 1
      ensures Valid() && Width() == w && Height() == h
      ensures Bombs() == mines * Grid(w, h)
      ensures cells == Counted(mines, w, h)
    {
      cells := Placed(mines, w, h);
      new;
      for x := 0 to Width()
        invariant CountedUpTo(cells, mines, w, h, x, 0)
      {
        for y := 0 to Height()
          invariant CountedUpTo(cells, mines, w, h, x, y)
        {
          CountStep(mines, w, h, x, y);
          // Skip bombs
          if !IsBomb(x, y) {
            var adjacent := Adjacency(x, y);
            cells := cells[y := cells[y][x := Count(Sum(adjacent))]];
          }
        }
      }
      CountPassDone(mines, w, h);
    }

    /** One step of the count pass at (x, y): a bomb is skipped, any other cell gets the
        number of bombs around it, which is the finished grid's value there. */
    lemma CountStep(mines: set<Coord>, w: nat, h: nat, x: int, y: int)
      requires CountedUpTo(cells, mines, w, h, x, y) && 0 <= x < w && 0 <= y < h
      ensures Shaped() && Width() == w && Height() == h
      ensures IsBomb(x, y) ==> CountedUpTo(cells, mines, w, h, x, y + 1)
      ensures !IsBomb(x, y) ==>
        CountedUpTo(cells[y := cells[y][x := Count(Sum(Adjacency(x, y)))]], mines, w, h, x, y + 1)
    {
      CountedUpToBombs(cells, mines, w, h, x, y);
      if IsBomb(x, y) {
        CountedUpToSkip(cells, mines, w, h, x, y);
      } else {
        BombsMatchLayout(mines, w, h);
        CountedUpToWrite(cells, mines, w, h, x, y);
      }
    }

    /** After the last column the board holds the finished grid and satisfies the adjacency invariant. */
    lemma CountPassDone(mines: set<Coord>, w: nat, h: nat)
      requires h >= 1 && CountedUpTo(cells, mines, w, h, w, 0)
      ensures Valid() && Width() == w && Height() == h
      ensures Bombs() == mines * Grid(w, h)
      ensures cells == Counted(mines, w, h)
    {
      CountedUpToDone(cells, mines, w, h);
      CountedUpToBombs(cells, mines, w, h, w, 0);
      BombsMatchLayout(mines, w, h);
      CountedIsValid(mines, w, h);
    }

    /** While every bomb sits where the layout puts it, the bomb set is the layout on the board. */
    lemma BombsMatchLayout(mines: set<Coord>, w: nat, h: nat)
      requires Shaped() && Width() == w && Height() == h
      requires forall i, j {:trigger cells[j][i]} :: 0 <= i < w && 0 <= j < h ==> (cells[j][i] == Bomb <==> (i, j) in mines)
      ensures Bombs() == mines * Grid(w, h)
    {
    }

    /** A board holding the finished grid of a layout satisfies the adjacency invariant. */
    lemma CountedIsValid(mines: set<Coord>, w: nat, h: nat)
      requires h >= 1 && cells == Counted(mines, w, h)
      requires Bombs() == mines * Grid(w, h)
      ensures Valid() && Width() == w && Height() == h
    {
      var counted := Counted(mines, w, h);
      forall x, y | 0 <= x < w && 0 <= y < h
        ensures Counts(x, y)
      {
        assert cells[y][x] == counted[y][x];
        if (x, y) !in mines {
          assert counted[y][x] == Count(MinesAround(mines, w, h, (x, y)));
        }
      }
    }

    /** The list of eight is_bomb flags of the neighbours of (x, y), in the order of Neighbours. */
    function Adjacency(x: int, y: int): (r: seq<bool>)
      reads this
      requires Shaped()
      ensures r == BombFlags((x, y), Bombs())
    {
      [IsBomb(x - 1, y - 1), IsBomb(x, y - 1), IsBomb(x + 1, y - 1),
       IsBomb(x - 1, y),                      IsBomb(x + 1, y),
       IsBomb(x - 1, y + 1), IsBomb(x, y + 1), IsBomb(x + 1, y + 1)]
    }

    function Width(): nat
      reads this
      requires Shaped()
    {
      |cells[0]|
    }

    function Height(): nat
      reads this
      requires Shaped()
    {
      |cells|
    }

    predicate InGrid(x: int, y: int)
      reads this
      requires Shaped()
    {
      0 <= x < Width() && 0 <= y < Height()
    }

    /** The coordinates of all bombs on the board. */
    ghost function Bombs(): (b: set<Coord>)
      reads this
      requires Shaped()
      ensures b <= Grid(Width(), Height())
    {
      set x, y | 0 <= x < Width() && 0 <= y < Height() && cells[y][x] == Bomb :: (x, y)
    }

    /** The cell at (x, y), or None off the board. */
    function Cell(x: int, y: int): (r: Option<Cell>)
      reads this
      requires Shaped()
      ensures r.None? <==> !InGrid(x, y)
      ensures r.Some? ==> (r.value == Bomb <==> (x, y) in Bombs())
    {
      if x < 0 || x >= |cells[0]| then None
      else if y < 0 || y >= |cells| then None
      else Some(cells[y][x])
    }

    /** Is (x, y) a bomb? False off the board. */
    function IsBomb(x: int, y: int): (r: bool)
      reads this
      requires Shaped()
      ensures r <==> (x, y) in Bombs()
    {
      Cell(x, y) == Some(Bomb)
    }

    /** The number of cells: the number of coordinates on the board. */
    function NumCells(): (r: nat)
      reads this
      requires Shaped()
      ensures r == |Grid(Width(), Height())|
    {
      GridSize(Width(), Height());
      Width() * Height()
    }

    /** The first n cells of row y, as (x, y, cell) triples. */
    function RowTuples(y: int, n: nat): (r: seq<(int, int, Option<Cell>)>)
      reads this
      requires Shaped() && n <= Width()
      ensures |r| == n
      ensures forall i :: 0 <= i < n ==> r[i] == (i, y, Cell(i, y))
    {
      if n == 0 then [] else RowTuples(y, n - 1) + [(n - 1, y, Cell(n - 1, y))]
    }

    /** The triples of rows 0 .. m-1, row after row. */
    function RowsTuples(m: nat): (r: seq<(int, int, Option<Cell>)>)
      reads this
      requires Shaped() && m <= Height()
      ensures |r| == m * Width()
      ensures forall i :: 0 <= i < |r| ==>
        0 <= r[i].0 < Width() && 0 <= r[i].1 < m && r[i].2 == Cell(r[i].0, r[i].1)
      ensures forall i, j :: 0 <= i < j < |r| ==> RowMajorBefore((r[i].0, r[i].1), (r[j].0, r[j].1))
      ensures forall x, y :: 0 <= x < Width() && 0 <= y < m ==> (x, y, Cell(x, y)) in r
    {
      if m == 0 then []
      else
        var before, row := RowsTuples(m - 1), RowTuples(m - 1, Width());
        assert forall x :: 0 <= x < Width() ==> row[x] == (x, m - 1, Cell(x, m - 1));
        before + row
    }

    /** Every cell as an (x, y, cell) triple, in row-major order. */
    function CellTuples(): (r: seq<(int, int, Option<Cell>)>)
      reads this
      requires Shaped()
      ensures |r| == NumCells()
      ensures forall i :: 0 <= i < |r| ==> InGrid(r[i].0, r[i].1) && r[i].2 == Cell(r[i].0, r[i].1)
      ensures forall i, j :: 0 <= i < j < |r| ==> RowMajorBefore((r[i].0, r[i].1), (r[j].0, r[j].1))
      ensures forall x, y :: InGrid(x, y) ==> (x, y, Cell(x, y)) in r
    {
      RowsTuples(Height())
    }

    /** A non-bomb cell holds the number of bombs among its in-bounds neighbours, at most 8. */
    lemma CountIsAdjacentBombs(x: int, y: int)
      requires Valid() && InGrid(x, y) && !IsBomb(x, y)
      ensures Cell(x, y) == Some(Count(|set q | Adjacent((x, y), q) && q in Bombs()|))
      ensures Cell(x, y).value.n <= 8
    {
      assert Counts(x, y);
      BombCountIsCardinality((x, y), Bombs());
    }

    /** No neighbour of a zero cell is a bomb. */
    lemma ZeroHasNoBombNeighbour(x: int, y: int, q: Coord)
      requires Valid() && Cell(x, y) == Some(Count(0)) && Adjacent((x, y), q)
      ensures !IsBomb(q.0, q.1)
    {
      assert Counts(x, y);
      NoBombAround((x, y), Bombs(), q);
    }
  }

  /** On a board whose only bomb is (left, row), the cell (left + 1, row), when on the
      board, is not a bomb and not numbered 0. */
  lemma NextToCornerBomb(board: Board, left: int, mid: int, row: int)
    requires board.Valid() && board.InGrid(mid, row) && mid == left + 1 && board.Bombs() == {(left, row)}
    ensures !board.IsBomb(mid, row) && board.Cell(mid, row) != Some(Count(0))
  {
    board.CountIsAdjacentBombs(mid, row);
    var around := set q | Adjacent((mid, row), q) && q in board.Bombs();
    assert (left, row) in around;
  }
}
