/** Positions on an R x C board, the neighbour rule shared by both engines
    (a tile's neighbours are the in-bounds cells at Chebyshev distance 1),
    neighbour-mine counting, the cascade's closure property and the win condition. */
module Board {

  datatype Pos = Pos(r: int, c: int)

  predicate InBounds(p: Pos, rows: int, cols: int)
  {
    0 <= p.r < rows && 0 <= p.c < cols
  }

  /** q is a neighbour of p on a rows x cols board: in bounds, not p itself,
      and at most one row and one column away. */
  predicate IsNeighbour(p: Pos, q: Pos, rows: int, cols: int)
  {
    InBounds(q, rows, cols) && q != p &&
    -1 <= q.r - p.r <= 1 && -1 <= q.c - p.c <= 1
  }

  /** Row-major order: top-left to bottom-right. */
  predicate RowMajorBefore(a: Pos, b: Pos)
  {
    a.r < b.r || (a.r == b.r && a.c < b.c)
  }

  // ---------------------------------------------------------------------------
  // The neighbour scan
  // ---------------------------------------------------------------------------

  /** The m-th cell (0 <= m < 9) of the 3x3 window around p, in row-major order. */
  function WindowCell(p: Pos, m: int): Pos
  {
    Pos(p.r - 1 + WindowRow(m), p.c - 1 + m - 3 * WindowRow(m))
  }

  /** The row offset of the m-th window cell: m / 3 for 0 <= m < 9, written without division. */
  function WindowRow(m: int): int
  {
    if m < 3 then 0 else if m < 6 then 1 else 2
  }

  /** Whether the scan keeps the m-th window cell: not p itself and inside the board. */
  predicate Kept(p: Pos, rows: int, cols: int, m: int)
  {
    WindowCell(p, m) != p && InBounds(WindowCell(p, m), rows, cols)
  }

  /** What the scan has collected after visiting the first k cells of the window. */
  function Window(p: Pos, rows: int, cols: int, k: nat): seq<Pos>
    requires k <= 9
  {
    if k == 0 then []
    else Window(p, rows, cols, k - 1) + (if Kept(p, rows, cols, k - 1) then [WindowCell(p, k - 1)] else [])
  }

  /** The neighbours of p, as the scan of the whole window lists them. */
  function Neighbours(p: Pos, rows: int, cols: int): seq<Pos>
  {
    Window(p, rows, cols, 9)
  }

  /** The neighbour enumeration: two nested loops over the 3x3 window around (row, col),
      skipping the tile itself and every cell outside the board. */
  method GetNeighbourTiles(row: int, col: int, numRows: int, numCols: int) returns (neighbours: seq<Pos>)
    ensures neighbours == Neighbours(Pos(row, col), numRows, numCols)
  {
    ghost var p := Pos(row, col);
    neighbours := [];
    for i := row - 1 to row + 2
      invariant neighbours == Window(p, numRows, numCols, 3 * (i - row + 1))
    {
      for j := col - 1 to col + 2
        invariant neighbours == Window(p, numRows, numCols, 3 * (i - row + 1) + (j - col + 1))
      {
        WindowCellAt(p, i - row + 1, j - col + 1);
        if i == row && j == col {
          continue;
        }
        if i < 0 || i >= numRows || j < 0 || j >= numCols {
          continue;
        }
        neighbours := neighbours + [Pos(i, j)];
      }
    }
  }

  /** The cell at row offset a and column offset b of the window is its (3a + b)-th. */
  lemma WindowCellAt(p: Pos, a: int, b: int)
    requires 0 <= a < 3 && 0 <= b < 3
    ensures WindowCell(p, 3 * a + b) == Pos(p.r - 1 + a, p.c - 1 + b)
  {
  }

  lemma {:induction false} WindowMembers(p: Pos, rows: int, cols: int, k: nat, q: Pos)
    requires k <= 9
    ensures q in Window(p, rows, cols, k) <==>
            exists m :: 0 <= m < k && Kept(p, rows, cols, m) && WindowCell(p, m) == q
  {
    if k > 0 {
      WindowMembers(p, rows, cols, k - 1, q);
      var last := if Kept(p, rows, cols, k - 1) then [WindowCell(p, k - 1)] else [];
      assert Window(p, rows, cols, k) == Window(p, rows, cols, k - 1) + last;
      if q in last {
        assert Kept(p, rows, cols, k - 1) && WindowCell(p, k - 1) == q;
      }
      if exists m :: 0 <= m < k && Kept(p, rows, cols, m) && WindowCell(p, m) == q {
        var m :| 0 <= m < k && Kept(p, rows, cols, m) && WindowCell(p, m) == q;
        if m == k - 1 {
          assert q in last;
        }
      }
    }
  }

  /** The scan lists exactly the neighbours of p. */
  lemma NeighboursAreAdjacent(p: Pos, rows: int, cols: int, q: Pos)
    ensures q in Neighbours(p, rows, cols) <==> IsNeighbour(p, q, rows, cols)
  {
    WindowMembers(p, rows, cols, 9, q);
    if IsNeighbour(p, q, rows, cols) {
      var m := 3 * (q.r - p.r + 1) + (q.c - p.c + 1);
      assert WindowCell(p, m) == q;
    }
  }

  /** Every listed neighbour is on the board and is not the tile itself. */
  lemma NeighboursInBounds(p: Pos, rows: int, cols: int)
    ensures forall q :: q in Neighbours(p, rows, cols) ==> InBounds(q, rows, cols) && q != p
  {
    forall q | q in Neighbours(p, rows, cols)
      ensures InBounds(q, rows, cols) && q != p
    {
      NeighboursAreAdjacent(p, rows, cols, q);
    }
  }

  lemma WindowCellOrder(p: Pos, m: int, n: int)
    requires 0 <= m < n
    ensures RowMajorBefore(WindowCell(p, m), WindowCell(p, n))
  {
  }

  lemma {:induction false} WindowSorted(p: Pos, rows: int, cols: int, k: nat)
    requires k <= 9
    ensures forall x, y :: 0 <= x < y < |Window(p, rows, cols, k)| ==>
              RowMajorBefore(Window(p, rows, cols, k)[x], Window(p, rows, cols, k)[y])
    ensures forall x :: 0 <= x < |Window(p, rows, cols, k)| ==>
              RowMajorBefore(Window(p, rows, cols, k)[x], WindowCell(p, k))
  {
    if k > 0 {
      WindowSorted(p, rows, cols, k - 1);
      WindowCellOrder(p, k - 1, k);
    }
  }

  /** The neighbours come in strict row-major order, so none is listed twice. */
  lemma NeighboursRowMajor(p: Pos, rows: int, cols: int)
    ensures forall x, y :: 0 <= x < y < |Neighbours(p, rows, cols)| ==>
              RowMajorBefore(Neighbours(p, rows, cols)[x], Neighbours(p, rows, cols)[y])
    ensures forall x, y :: 0 <= x < y < |Neighbours(p, rows, cols)| ==>
              Neighbours(p, rows, cols)[x] != Neighbours(p, rows, cols)[y]
  {
    WindowSorted(p, rows, cols, 9);
  }

  /** The neighbour relation is symmetric. */
  lemma NeighbourSymmetric(a: Pos, b: Pos, rows: int, cols: int)
    requires InBounds(a, rows, cols) && InBounds(b, rows, cols)
    ensures b in Neighbours(a, rows, cols) <==> a in Neighbours(b, rows, cols)
  {
    NeighboursAreAdjacent(a, rows, cols, b);
    NeighboursAreAdjacent(b, rows, cols, a);
  }

  /** How many of the rows (or columns) x-1, x, x+1 lie inside 0..n-1, for 0 <= x < n. */
  function Span(x: int, n: int): int
  {
    (if x - 1 >= 0 then 1 else 0) + 1 + (if x + 1 < n then 1 else 0)
  }

  function KeptCount(p: Pos, rows: int, cols: int, m: int): int
  {
    if Kept(p, rows, cols, m) then 1 else 0
  }

  lemma {:induction false} WindowLength(p: Pos, rows: int, cols: int, k: nat)
    requires k <= 9
    ensures |Window(p, rows, cols, k)| ==
            if k == 0 then 0 else |Window(p, rows, cols, k - 1)| + KeptCount(p, rows, cols, k - 1)
  {
  }

  function Inside(x: int, n: int): int
  {
    if 0 <= x < n then 1 else 0
  }

  lemma KeptCounts(p: Pos, rows: int, cols: int)
    requires InBounds(p, rows, cols)
    ensures KeptCount(p, rows, cols, 0) == Inside(p.r - 1, rows) * Inside(p.c - 1, cols)
    ensures KeptCount(p, rows, cols, 1) == Inside(p.r - 1, rows)
    ensures KeptCount(p, rows, cols, 2) == Inside(p.r - 1, rows) * Inside(p.c + 1, cols)
    ensures KeptCount(p, rows, cols, 3) == Inside(p.c - 1, cols)
    ensures KeptCount(p, rows, cols, 4) == 0
    ensures KeptCount(p, rows, cols, 5) == Inside(p.c + 1, cols)
    ensures KeptCount(p, rows, cols, 6) == Inside(p.r + 1, rows) * Inside(p.c - 1, cols)
    ensures KeptCount(p, rows, cols, 7) == Inside(p.r + 1, rows)
    ensures KeptCount(p, rows, cols, 8) == Inside(p.r + 1, rows) * Inside(p.c + 1, cols)
  {
    assert WindowCell(p, 0) == Pos(p.r - 1, p.c - 1);
    assert WindowCell(p, 1) == Pos(p.r - 1, p.c);
    assert WindowCell(p, 2) == Pos(p.r - 1, p.c + 1);
    assert WindowCell(p, 3) == Pos(p.r, p.c - 1);
    assert WindowCell(p, 4) == p;
    assert WindowCell(p, 5) == Pos(p.r, p.c + 1);
    assert WindowCell(p, 6) == Pos(p.r + 1, p.c - 1);
    assert WindowCell(p, 7) == Pos(p.r + 1, p.c);
    assert WindowCell(p, 8) == Pos(p.r + 1, p.c + 1);
  }

  /** A tile has (rows in range) x (columns in range) - 1 neighbours. */
  lemma NeighbourCount(p: Pos, rows: int, cols: int)
    requires InBounds(p, rows, cols)
    ensures |Neighbours(p, rows, cols)| == Span(p.r, rows) * Span(p.c, cols) - 1
  {
    KeptCounts(p, rows, cols);
    WindowLength(p, rows, cols, 1);
    WindowLength(p, rows, cols, 2);
    WindowLength(p, rows, cols, 3);
    WindowLength(p, rows, cols, 4);
    WindowLength(p, rows, cols, 5);
    WindowLength(p, rows, cols, 6);
    WindowLength(p, rows, cols, 7);
    WindowLength(p, rows, cols, 8);
    WindowLength(p, rows, cols, 9);
    var top, bottom := Inside(p.r - 1, rows), Inside(p.r + 1, rows);
    var left, right := Inside(p.c - 1, cols), Inside(p.c + 1, cols);
    assert |Window(p, rows, cols, 3)| == top * left + top + top * right;
    assert |Window(p, rows, cols, 6)| == |Window(p, rows, cols, 3)| + left + right;
    assert |Window(p, rows, cols, 9)| == |Window(p, rows, cols, 6)| + bottom * left + bottom + bottom * right;
    assert Span(p.r, rows) == top + 1 + bottom;
    assert Span(p.c, cols) == left + 1 + right;
    Expand(top, bottom, left, right);
  }

  lemma Expand(a: int, b: int, c: int, d: int)
    ensures (a + 1 + b) * (c + 1 + d) == a * c + a + a * d + c + 1 + d + b * c + b + b * d
  {
  }

  /** On a board of at least 2 x 2: 8 neighbours inside, 5 on an edge, 3 in a corner. */
  lemma NeighbourCountByPlace(p: Pos, rows: int, cols: int)
    requires rows >= 2 && cols >= 2 && InBounds(p, rows, cols)
    ensures 0 < p.r < rows - 1 && 0 < p.c < cols - 1 ==> |Neighbours(p, rows, cols)| == 8
    ensures (p.r == 0 || p.r == rows - 1) != (p.c == 0 || p.c == cols - 1) ==> |Neighbours(p, rows, cols)| == 5
    ensures (p.r == 0 || p.r == rows - 1) && (p.c == 0 || p.c == cols - 1) ==> |Neighbours(p, rows, cols)| == 3
  {
    NeighbourCount(p, rows, cols);
  }

  /** No tile has more than 8 neighbours. */
  lemma NeighboursAtMostEight(p: Pos, rows: int, cols: int)
    ensures |Neighbours(p, rows, cols)| <= 8
  {
    var m := 0;
    while m < 9
      invariant 0 <= m <= 9
      invariant |Window(p, rows, cols, m)| <= m - (if m > 4 then 1 else 0)
    {
      WindowLength(p, rows, cols, m + 1);
      assert WindowCell(p, 4) == p;
      m := m + 1;
    }
  }

  // ---------------------------------------------------------------------------
  // Counting the mines around a tile
  // ---------------------------------------------------------------------------

  /** One tile's share of a mine count: 1 for a mine, 0 otherwise. */
  function CountMine(p: Pos, mines: set<Pos>): (n: nat)
    ensures n <= 1
    ensures n == 1 <==> p in mines
  {
    if p in mines then 1 else 0
  }

  /** The running total of CountMine over a list of tiles, left to right. */
  function CountIn(ns: seq<Pos>, mines: set<Pos>): nat
  {
    if |ns| == 0 then 0 else CountIn(ns[..|ns| - 1], mines) + CountMine(ns[|ns| - 1], mines)
  }

  /** The loop that sums the mines among a list of tiles. */
  method CountMinesAmong(ns: seq<Pos>, mines: set<Pos>) returns (minesFound: nat)
    ensures minesFound == CountIn(ns, mines)
  {
    minesFound := 0;
    for i := 0 to |ns|
      invariant minesFound == CountIn(ns[..i], mines)
    {
      assert ns[..i + 1][..i] == ns[..i];
      minesFound := minesFound + CountMine(ns[i], mines);
    }
    assert ns[..|ns|] == ns;
  }

  /** The number of mines among the distinct tiles listed is the size of the set of mines listed. */
  lemma {:induction false} CountInIsSetSize(ns: seq<Pos>, mines: set<Pos>)
    requires forall x, y :: 0 <= x < y < |ns| ==> ns[x] != ns[y]
    ensures CountIn(ns, mines) == |set q | q in mines && q in ns|
  {
    var all := set q | q in mines && q in ns;
    if |ns| == 0 {
      assert all == {};
    } else {
      var init, last := ns[..|ns| - 1], ns[|ns| - 1];
      CountInIsSetSize(init, mines);
      var before := set q | q in mines && q in init;
      assert last !in init;
      if last in mines {
        assert all == before + {last};
      } else {
        assert all == before;
      }
    }
  }

  /** A list of tiles holds no mine exactly when its count is 0. */
  lemma {:induction false} CountInZero(ns: seq<Pos>, mines: set<Pos>)
    ensures CountIn(ns, mines) == 0 <==> forall q :: q in ns ==> q !in mines
  {
    if |ns| > 0 {
      var init := ns[..|ns| - 1];
      CountInZero(init, mines);
      assert ns == init + [ns[|ns| - 1]];
    }
  }

  /** The number a revealed tile shows: the mines among its neighbours. */
  function AdjacentMines(p: Pos, mines: set<Pos>, rows: int, cols: int): nat
  {
    CountIn(Neighbours(p, rows, cols), mines)
  }

  /** The mines next to p, defined directly from the neighbour rule. */
  function NeighbourMines(p: Pos, mines: set<Pos>, rows: int, cols: int): set<Pos>
  {
    set q | q in mines && IsNeighbour(p, q, rows, cols)
  }

  /** The count is the number of mines at Chebyshev distance 1, and lies in 0..8. */
  lemma AdjacentMinesCount(p: Pos, mines: set<Pos>, rows: int, cols: int)
    ensures AdjacentMines(p, mines, rows, cols) == |NeighbourMines(p, mines, rows, cols)|
    ensures AdjacentMines(p, mines, rows, cols) <= 8
  {
    var ns := Neighbours(p, rows, cols);
    NeighboursRowMajor(p, rows, cols);
    CountInIsSetSize(ns, mines);
    forall q
      ensures (q in mines && q in ns) <==> q in NeighbourMines(p, mines, rows, cols)
    {
      NeighboursAreAdjacent(p, rows, cols, q);
    }
    assert (set q | q in mines && q in ns) == NeighbourMines(p, mines, rows, cols);
    NeighboursAtMostEight(p, rows, cols);
    CountInAtMostLength(ns, mines);
  }

  lemma {:induction false} CountInAtMostLength(ns: seq<Pos>, mines: set<Pos>)
    ensures CountIn(ns, mines) <= |ns|
  {
    if |ns| > 0 {
      CountInAtMostLength(ns[..|ns| - 1], mines);
    }
  }

  /** A tile counts 0 exactly when none of its neighbours is a mine. */
  lemma ZeroMeansNoMineNeighbour(p: Pos, mines: set<Pos>, rows: int, cols: int)
    ensures AdjacentMines(p, mines, rows, cols) == 0 <==>
            forall q :: IsNeighbour(p, q, rows, cols) ==> q !in mines
  {
    CountInZero(Neighbours(p, rows, cols), mines);
    forall q {
      NeighboursAreAdjacent(p, rows, cols, q);
    }
  }

  // ---------------------------------------------------------------------------
  // The board's cells, the cascade's closure and the win condition
  // ---------------------------------------------------------------------------

  function AllPositions(rows: int, cols: int): set<Pos>
  {
    set i, j | 0 <= i < rows && 0 <= j < cols :: Pos(i, j)
  }

  lemma AllPositionsInBounds(rows: int, cols: int, p: Pos)
    ensures p in AllPositions(rows, cols) <==> InBounds(p, rows, cols)
  {
    if InBounds(p, rows, cols) {
      assert Pos(p.r, p.c) in AllPositions(rows, cols);
    }
  }

  function RowPositions(i: int, cols: int): set<Pos>
  {
    set j | 0 <= j < cols :: Pos(i, j)
  }

  lemma {:induction false} RowPositionsSize(i: int, cols: nat)
    ensures |RowPositions(i, cols)| == cols
  {
    if cols > 0 {
      RowPositionsSize(i, cols - 1);
      forall q
        ensures q in RowPositions(i, cols) <==> q in RowPositions(i, cols - 1) + {Pos(i, cols - 1)}
      {
        if q.r == i && 0 <= q.c < cols {
          assert q == Pos(i, q.c);
        }
      }
      assert RowPositions(i, cols) == RowPositions(i, cols - 1) + {Pos(i, cols - 1)};
    } else {
      assert RowPositions(i, cols) == {};
    }
  }

  /** The cells of an R x C board are those of its first R - 1 rows and those of its last row. */
  lemma AllPositionsSplit(rows: nat, cols: nat)
    requires rows > 0
    ensures AllPositions(rows, cols) == AllPositions(rows - 1, cols) + RowPositions(rows - 1, cols)
    ensures AllPositions(rows - 1, cols) !! RowPositions(rows - 1, cols)
  {
    forall q
      ensures q in AllPositions(rows, cols) <==> q in AllPositions(rows - 1, cols) + RowPositions(rows - 1, cols)
    {
      AllPositionsInBounds(rows, cols, q);
      AllPositionsInBounds(rows - 1, cols, q);
      if q.r == rows - 1 && 0 <= q.c < cols {
        assert q == Pos(rows - 1, q.c);
      }
    }
  }

  /** An R x C board has R * C cells. */
  lemma {:induction false} AllPositionsSize(rows: nat, cols: nat)
    ensures |AllPositions(rows, cols)| == rows * cols
  {
    if rows > 0 {
      AllPositionsSize(rows - 1, cols);
      RowPositionsSize(rows - 1, cols);
      AllPositionsSplit(rows, cols);
      var upper, last := AllPositions(rows - 1, cols), RowPositions(rows - 1, cols);
      assert |upper + last| == |upper| + |last|;
      assert (rows - 1) * cols + cols == rows * cols;
    } else {
      assert AllPositions(rows, cols) == {};
    }
  }

  lemma SubsetSize<T>(a: set<T>, b: set<T>)
    requires a <= b
    ensures |a| <= |b|
    ensures |a| == |b| ==> a == b
  {
    assert b == a + (b - a);
  }

  /** Every position listed is in the revealed set. */
  predicate AllRevealed(ns: seq<Pos>, revealed: set<Pos>)
  {
    forall x :: 0 <= x < |ns| ==> ns[x] in revealed
  }

  /** Revealing one more listed position, while the revealed set only grows, extends the prefix. */
  lemma AllRevealedStep(ns: seq<Pos>, k: nat, revealed: set<Pos>, revealed': set<Pos>)
    requires k < |ns| && AllRevealed(ns[..k], revealed)
    requires revealed <= revealed' && ns[k] in revealed'
    ensures AllRevealed(ns[..k + 1], revealed')
  {
  }

  /** The cells without a mine. */
  function SafePositions(rows: int, cols: int, mines: set<Pos>): set<Pos>
  {
    AllPositions(rows, cols) - mines
  }

  /** With the mines on the board, R * C - |mines| cells are safe. */
  lemma SafePositionsSize(rows: nat, cols: nat, mines: set<Pos>)
    requires mines <= AllPositions(rows, cols)
    ensures |SafePositions(rows, cols, mines)| == rows * cols - |mines|
  {
    AllPositionsSize(rows, cols);
    assert AllPositions(rows, cols) == SafePositions(rows, cols, mines) + mines;
  }

  /** Revealing only safe cells, the count never passes R * C - |mines|, and reaching it
      means every safe cell is revealed. */
  lemma WinMeansAllSafeRevealed(rows: nat, cols: nat, mines: set<Pos>, revealed: set<Pos>)
    requires mines <= AllPositions(rows, cols)
    requires revealed <= SafePositions(rows, cols, mines)
    ensures |revealed| <= rows * cols - |mines|
    ensures |revealed| == rows * cols - |mines| <==> revealed == SafePositions(rows, cols, mines)
  {
    SafePositionsSize(rows, cols, mines);
    SubsetSize(revealed, SafePositions(rows, cols, mines));
  }

  /** The cascade's closure: every revealed tile that counts 0, except those in `pending`
      (the tiles whose cascade is still running), has all its neighbours revealed. */
  predicate ClosedExcept(revealed: set<Pos>, mines: set<Pos>, rows: int, cols: int, pending: set<Pos>)
  {
    forall q :: q in revealed && q !in pending && AdjacentMines(q, mines, rows, cols) == 0 ==>
      forall n :: n in Neighbours(q, rows, cols) ==> n in revealed
  }

  /** A board whose safe cells are all revealed is closed. */
  lemma ClearedBoardIsClosed(rows: int, cols: int, mines: set<Pos>)
    ensures ClosedExcept(SafePositions(rows, cols, mines), mines, rows, cols, {})
  {
    var safe := SafePositions(rows, cols, mines);
    forall q, n | q in safe && AdjacentMines(q, mines, rows, cols) == 0 && n in Neighbours(q, rows, cols)
      ensures n in safe
    {
      NeighboursAreAdjacent(q, rows, cols, n);
      ZeroMeansNoMineNeighbour(q, mines, rows, cols);
      AllPositionsInBounds(rows, cols, n);
    }
  }

  /** Revealing more tiles keeps the board closed, provided each new tile either counts
      more than 0 or has its cascade still pending. */
  lemma ClosedExtend(revealed: set<Pos>, revealed': set<Pos>, mines: set<Pos>, rows: int, cols: int, pending: set<Pos>)
    requires ClosedExcept(revealed, mines, rows, cols, pending)
    requires revealed <= revealed'
    requires forall q :: q in revealed' - revealed ==> q in pending || AdjacentMines(q, mines, rows, cols) != 0
    ensures ClosedExcept(revealed', mines, rows, cols, pending)
  {
  }

  /** Once all of p's neighbours are revealed, p's cascade no longer needs to be pending. */
  lemma ClosedRelease(revealed: set<Pos>, mines: set<Pos>, rows: int, cols: int, pending: set<Pos>, p: Pos)
    requires ClosedExcept(revealed, mines, rows, cols, pending + {p})
    requires forall n :: n in Neighbours(p, rows, cols) ==> n in revealed
    ensures ClosedExcept(revealed, mines, rows, cols, pending)
  {
  }

  /** A win reached with only safe cells revealed has revealed every safe cell, so the
      board is closed however many cascades were still pending. */
  lemma SafeWinIsClosed(rows: nat, cols: nat, mines: set<Pos>, revealed: set<Pos>, pending: set<Pos>)
    requires mines <= AllPositions(rows, cols) && revealed <= SafePositions(rows, cols, mines)
    requires |revealed| == rows * cols - |mines|
    ensures ClosedExcept(revealed, mines, rows, cols, pending)
  {
    WinMeansAllSafeRevealed(rows, cols, mines, revealed);
    ClearedBoardIsClosed(rows, cols, mines);
  }

  /** Revealing p and cells that are not mines keeps the revealed cells safe. */
  lemma StaysSafe(before: set<Pos>, after: set<Pos>, p: Pos, mines: set<Pos>, rows: int, cols: int)
    requires before <= SafePositions(rows, cols, mines) && after <= AllPositions(rows, cols)
    requires p !in mines
    requires forall q :: q in after - before && q != p ==> q !in mines
    ensures after <= SafePositions(rows, cols, mines)
  {
  }

  /** q is one of the seeds, or a neighbour of a cell in `added` that counts 0. */
  predicate Reached(q: Pos, added: set<Pos>, seeds: seq<Pos>, mines: set<Pos>, rows: int, cols: int)
  {
    q in seeds ||
    exists z :: z in added && AdjacentMines(z, mines, rows, cols) == 0 && IsNeighbour(z, q, rows, cols)
  }

  /** What a cascade started from `seeds` may reveal: each cell in `added` is a seed or a
      neighbour of a cell in `added` that counts 0. */
  predicate Spread(added: set<Pos>, seeds: seq<Pos>, mines: set<Pos>, rows: int, cols: int)
  {
    forall q {:trigger Reached(q, added, seeds, mines, rows, cols)} ::
      q in added ==> Reached(q, added, seeds, mines, rows, cols)
  }

  /** A cascade from ns[k] run after one from the first k cells of ns: together they
      spread from the first k + 1 cells. */
  lemma SpreadStep(before: set<Pos>, mid: set<Pos>, after: set<Pos>, ns: seq<Pos>, k: nat,
                   mines: set<Pos>, rows: int, cols: int)
    requires k < |ns| && before <= mid <= after
    requires Spread(mid - before, ns[..k], mines, rows, cols)
    requires Spread(after - mid, [ns[k]], mines, rows, cols)
    ensures Spread(after - before, ns[..k + 1], mines, rows, cols)
  {
    forall q | q in after - before
      ensures Reached(q, after - before, ns[..k + 1], mines, rows, cols)
    {
      if q in mid - before {
        assert Reached(q, mid - before, ns[..k], mines, rows, cols);
        if q in ns[..k] {
          var x :| 0 <= x < k && ns[x] == q;
          assert ns[..k + 1][x] == q;
        } else {
          var z :| z in mid - before && AdjacentMines(z, mines, rows, cols) == 0 && IsNeighbour(z, q, rows, cols);
          assert z in after - before;
        }
      } else {
        assert q in after - mid;
        assert Reached(q, after - mid, [ns[k]], mines, rows, cols);
        if q == ns[k] {
          assert ns[..k + 1][k] == q;
        } else {
          var z :| z in after - mid && AdjacentMines(z, mines, rows, cols) == 0 && IsNeighbour(z, q, rows, cols);
          assert z in after - before;
        }
      }
    }
  }

  /** Revealing a tile p that counts 0 and then cascading over its neighbours spreads from p. */
  lemma SpreadFromZero(before: set<Pos>, after: set<Pos>, p: Pos, mines: set<Pos>, rows: int, cols: int)
    requires p !in before && before + {p} <= after
    requires AdjacentMines(p, mines, rows, cols) == 0
    requires Spread(after - (before + {p}), Neighbours(p, rows, cols), mines, rows, cols)
    ensures Spread(after - before, [p], mines, rows, cols)
  {
    forall q | q in after - before
      ensures Reached(q, after - before, [p], mines, rows, cols)
    {
      if q != p {
        assert q in after - (before + {p});
        assert Reached(q, after - (before + {p}), Neighbours(p, rows, cols), mines, rows, cols);
        if q in Neighbours(p, rows, cols) {
          NeighboursAreAdjacent(p, rows, cols, q);
          assert p in after - before;
        } else {
          var z :| z in after - (before + {p}) && AdjacentMines(z, mines, rows, cols) == 0 && IsNeighbour(z, q, rows, cols);
          assert z in after - before;
        }
      }
    }
  }
}
