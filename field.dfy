/** The current engine: a MineField owns the grid of tiles, the set of mine positions,
    the count of revealed tiles and the game-over flag. It places mines, runs the
    cascading reveal with its win check, shows the mines and resets the board. */
module Field {
  import opened Board
  import opened Tile

  class MineField {
    const numRows: int
    const numCols: int
    const mineCount: int
    const board: array2<MineTile>
    /** The tiles of the board, the objects the engine may change. */
    ghost const Repr: set<MineTile>

    var mineList: set<Pos>
    var tilesRevealed: int
    var gameOver: bool
    /** The positions of the tiles revealed (disabled) so far. */
    ghost var revealedSet: set<Pos>

    /** How many mines setMines places: mineCount, or none when it is not positive. */
    function MineQuota(): nat
    {
      if mineCount > 0 then mineCount else 0
    }

    /** The fixed shape of the board: its size, and each tile at its own position. */
    ghost predicate Shape()
      reads board
    {
      0 <= numRows && 0 <= numCols && mineCount <= numRows * numCols &&
      board.Length0 == numRows && board.Length1 == numCols &&
      (forall i, j :: 0 <= i < numRows && 0 <= j < numCols ==>
         board[i, j] in Repr && board[i, j].row == i && board[i, j].col == j) &&
      (forall t :: t in Repr ==>
         0 <= t.row < numRows && 0 <= t.col < numCols && board[t.row, t.col] == t)
    }

    /** The position of a tile of this board. */
    function At(t: MineTile): Pos
    {
      Pos(t.row, t.col)
    }

    /** The board's state invariant, the cascade's closure aside. */
    ghost predicate WellFormed()
      reads this, board, Repr
    {
      Shape() &&
      mineList <= AllPositions(numRows, numCols) &&
      |mineList| == MineQuota() &&
      revealedSet <= AllPositions(numRows, numCols) &&
      tilesRevealed == |revealedSet| &&
      (forall t :: t in Repr ==>
         (At(t) in revealedSet <==> !t.enabled) &&
         t.revealed == !t.enabled &&
         (!t.enabled ==> t.displayText == CountLabel(AdjacentMines(At(t), mineList, numRows, numCols))))
    }

    /** The invariant between moves: well formed, and unless the game is over every
        revealed tile that counts 0 has all its neighbours revealed. */
    ghost predicate Valid()
      reads this, board, Repr
    {
      WellFormed() &&
      (gameOver || ClosedExcept(revealedSet, mineList, numRows, numCols, {}))
    }

    /** A fresh field: every tile covered, nothing revealed, then the mines placed. */
    constructor (rows: int, cols: int, mines: int)
      requires 0 <= rows && 0 <= cols && mines <= rows * cols
      ensures Valid() && fresh(Repr)
      ensures numRows == rows && numCols == cols && mineCount == mines
      ensures tilesRevealed == 0 && !gameOver && revealedSet == {}
      ensures forall t :: t in Repr ==>
                t.enabled && t.text == Empty && !t.revealed && t.displayText == Empty
    {
      numRows := rows;
      numCols := cols;
      mineCount := mines;
      var tiles := InitializeBoard(rows, cols);
      board := tiles;
      ghost var tileSet := set i, j | 0 <= i < rows && 0 <= j < cols :: tiles[i, j];
      forall t | t in tileSet
        ensures 0 <= t.row < rows && 0 <= t.col < cols && tiles[t.row, t.col] == t
      {
        var i, j :| 0 <= i < rows && 0 <= j < cols && t == tiles[i, j];
      }
      Repr := tileSet;
      mineList := {};
      tilesRevealed := 0;
      gameOver := false;
      revealedSet := {};
      new;
      SetMines();
    }

    /** Fills a new rows x cols grid with new blank tiles, each carrying its own row and column. */
    static method InitializeBoard(rows: int, cols: int) returns (tiles: array2<MineTile>)
      requires 0 <= rows && 0 <= cols
      ensures fresh(tiles) && tiles.Length0 == rows && tiles.Length1 == cols
      ensures forall i, j :: 0 <= i < rows && 0 <= j < cols ==>
                fresh(tiles[i, j]) && tiles[i, j].row == i && tiles[i, j].col == j &&
                tiles[i, j].enabled && tiles[i, j].text == Empty &&
                !tiles[i, j].revealed && tiles[i, j].displayText == Empty
    {
      var filler := new MineTile(0, 0);
      tiles := new MineTile[rows, cols]((i, j) => filler);
      for r := 0 to rows
        invariant forall i, j :: 0 <= i < r && 0 <= j < cols ==>
                    fresh(tiles[i, j]) && tiles[i, j].row == i && tiles[i, j].col == j &&
                    tiles[i, j].enabled && tiles[i, j].text == Empty &&
                    !tiles[i, j].revealed && tiles[i, j].displayText == Empty
      {
        for c := 0 to cols
          invariant forall i, j :: 0 <= i < r && 0 <= j < cols ==>
                      fresh(tiles[i, j]) && tiles[i, j].row == i && tiles[i, j].col == j &&
                      tiles[i, j].enabled && tiles[i, j].text == Empty &&
                      !tiles[i, j].revealed && tiles[i, j].displayText == Empty
          invariant forall j :: 0 <= j < c ==>
                      fresh(tiles[r, j]) && tiles[r, j].row == r && tiles[r, j].col == j &&
                      tiles[r, j].enabled && tiles[r, j].text == Empty &&
                      !tiles[r, j].revealed && tiles[r, j].displayText == Empty
        {
          tiles[r, c] := new MineTile(r, c);
        }
      }
    }

    /** Places mines until the list holds mineCount distinct positions. Each round draws a
        position that is not a mine yet (a draw that hits a mine changes nothing). */
    method SetMines()
      requires 0 <= numRows && 0 <= numCols && mineCount <= numRows * numCols
      requires mineList <= AllPositions(numRows, numCols)
      modifies this`mineList
      ensures old(mineList) <= mineList <= AllPositions(numRows, numCols)
      ensures |mineList| == if |old(mineList)| < mineCount then mineCount else |old(mineList)|
    {
      while |mineList| < mineCount
        invariant old(mineList) <= mineList <= AllPositions(numRows, numCols)
        invariant |mineList| == if |old(mineList)| < mineCount then
                                  (if |mineList| < mineCount then |mineList| else mineCount)
                                else |old(mineList)|
        decreases mineCount - |mineList|
      {
        SafePositionsSize(numRows, numCols, mineList);
        var tile :| tile in SafePositions(numRows, numCols, mineList);
        mineList := mineList + {tile};
      }
    }

    /** Shows every mine with the bomb glyph and ends the game. */
    method RevealMines()
      requires WellFormed()
      modifies this`gameOver, Repr`text
      ensures WellFormed() && gameOver
      ensures forall t :: t in Repr ==> t.text == if At(t) in mineList then Bomb else old(t.text)
    {
      var rest := mineList;
      while rest != {}
        invariant rest <= mineList
        invariant WellFormed()
        invariant forall t :: t in Repr ==> t.text == if At(t) in mineList - rest then Bomb else old(t.text)
        decreases |rest|
      {
        var m :| m in rest;
        AllPositionsInBounds(numRows, numCols, m);
        board[m.r, m.c].text := Bomb;
        rest := rest - {m};
      }
      gameOver := true;
    }

    /** Whether the board's tile at the given tile's position is a mine: exactly when that
        cell is not a safe cell. */
    function IsMine(tile: MineTile): (b: bool)
      requires Shape() && InBounds(Pos(tile.row, tile.col), numRows, numCols)
      reads this, board
      ensures b <==> Pos(tile.row, tile.col) !in SafePositions(numRows, numCols, mineList)
    {
      AllPositionsInBounds(numRows, numCols, Pos(tile.row, tile.col));
      At(board[tile.row, tile.col]) in mineList
    }

    /** The revealed count never exceeds the number of tiles. */
    lemma RevealedAtMostTiles()
      requires WellFormed()
      ensures 0 <= tilesRevealed <= numRows * numCols
    {
      AllPositionsSize(numRows, numCols);
      SubsetSize(revealedSet, AllPositions(numRows, numCols));
    }

    /** The first half of checkMine on a covered tile: disable it, count it as revealed,
        count the mines around it and show that number (nothing for 0). */
    method Uncover(tile: MineTile) returns (minesFound: nat)
      requires WellFormed() && InBounds(Pos(tile.row, tile.col), numRows, numCols)
      requires board[tile.row, tile.col] == tile && tile.enabled
      modifies this`tilesRevealed, this`revealedSet, tile`enabled, tile`revealed, tile`displayText
      ensures WellFormed()
      ensures revealedSet == old(revealedSet) + {Pos(tile.row, tile.col)}
      ensures minesFound == AdjacentMines(Pos(tile.row, tile.col), mineList, numRows, numCols)
    {
      assert tile in Repr && At(tile) !in revealedSet;
      assert forall t :: t in Repr && t != tile ==> At(t) != At(tile);
      AllPositionsInBounds(numRows, numCols, At(tile));
      tile.enabled := false;
      tilesRevealed := tilesRevealed + 1;
      revealedSet := revealedSet + {Pos(tile.row, tile.col)};

      var ns := GetNeighbourTiles(tile.row, tile.col, numRows, numCols);
      minesFound := CountMinesAmong(ns, mineList);
      if minesFound > 0 {
        tile.Reveal(Number(minesFound));
      } else {
        tile.Reveal(Empty);
      }
      assert tile.displayText == CountLabel(minesFound);
      forall t | t in Repr
        ensures (At(t) in revealedSet <==> !t.enabled) && t.revealed == !t.enabled
        ensures !t.enabled ==> t.displayText == CountLabel(AdjacentMines(At(t), mineList, numRows, numCols))
      {
        if t != tile {
          assert At(t) in revealedSet <==> At(t) in old(revealedSet);
        }
      }
    }

    /** Reveals the tile at p and, when no mine is around it, its neighbours in turn;
        then declares the game won once tilesRevealed reaches numRows * numCols - |mineList|.
        `pending` holds the zero tiles whose cascades are still running further up. */
    method CheckMine(p: Pos, ghost pending: set<Pos>) returns (won: bool)
      requires WellFormed() && InBounds(p, numRows, numCols)
      requires gameOver || ClosedExcept(revealedSet, mineList, numRows, numCols, pending)
      modifies this`tilesRevealed, this`gameOver, this`revealedSet
      modifies Repr`enabled, Repr`revealed, Repr`displayText, Repr`text
      decreases numRows * numCols - tilesRevealed, 1
      ensures WellFormed()
      ensures gameOver || ClosedExcept(revealedSet, mineList, numRows, numCols, pending)
      // a win reached without uncovering a mine leaves the board closed as well
      ensures !old(gameOver) && old(revealedSet) <= SafePositions(numRows, numCols, mineList) && p !in mineList ==>
                ClosedExcept(revealedSet, mineList, numRows, numCols, pending)
      // a finished game or an already revealed tile: nothing happens
      ensures old(gameOver) || p in old(revealedSet) ==> !won && unchanged(this) && unchanged(Repr)
      ensures old(revealedSet) <= revealedSet
      ensures !old(gameOver) ==> p in revealedSet
      // the cascade never uncovers a mine
      ensures forall q :: q in revealedSet - old(revealedSet) && q != p ==> q !in mineList
      // what it reveals: p, and the neighbours of revealed tiles that count 0
      ensures Spread(revealedSet - old(revealedSet), [p], mineList, numRows, numCols)
      ensures !old(gameOver) && p !in old(revealedSet) && AdjacentMines(p, mineList, numRows, numCols) > 0 ==>
                revealedSet == old(revealedSet) + {p}
      // the win check
      ensures won <==> !old(gameOver) && p !in old(revealedSet) &&
                       tilesRevealed == numRows * numCols - |mineList|
      ensures gameOver <==> old(gameOver) || won
      ensures forall t :: t in Repr ==> t.text == if won && At(t) in mineList then Bomb else old(t.text)
      ensures forall t :: t in Repr && At(t) !in revealedSet ==> t.displayText == old(t.displayText)
    {
      if gameOver {
        return false;
      }
      var tile := board[p.r, p.c];
      if !tile.enabled {
        return false;
      }
      ghost var before := revealedSet;
      var minesFound := Uncover(tile);
      if minesFound > 0 {
        ClosedExtend(before, revealedSet, mineList, numRows, numCols, pending);
      } else {
        ClosedExtend(before, revealedSet, mineList, numRows, numCols, pending + {p});
        RevealedAtMostTiles();
        Cascade(tile, pending, numRows * numCols - old(tilesRevealed));
        SpreadFromZero(before, revealedSet, p, mineList, numRows, numCols);
        if !gameOver {
          ClosedRelease(revealedSet, mineList, numRows, numCols, pending, p);
        }
      }

      if tilesRevealed == numRows * numCols - |mineList| {
        if before <= SafePositions(numRows, numCols, mineList) && p !in mineList {
          StaysSafe(before, revealedSet, p, mineList, numRows, numCols);
          SafeWinIsClosed(numRows, numCols, mineList, revealedSet, pending);
        }
        // revealMines sets gameOver itself, so the assignment just before it is not repeated
        RevealMines();
        return true;
      }
      return false;
    }

    /** The second half of checkMine on a tile with no mine around it: checkMine on each
        neighbour in turn. The recursion ends because every call that does not return at
        once reveals one more tile, and at most numRows * numCols tiles can be revealed;
        `bound` is the calling checkMine's count of tiles still covered. */
    method Cascade(tile: MineTile, ghost pending: set<Pos>, ghost bound: int)
      requires WellFormed() && InBounds(Pos(tile.row, tile.col), numRows, numCols)
      requires board[tile.row, tile.col] == tile && Pos(tile.row, tile.col) in revealedSet
      requires AdjacentMines(Pos(tile.row, tile.col), mineList, numRows, numCols) == 0
      requires !gameOver && ClosedExcept(revealedSet, mineList, numRows, numCols, pending + {Pos(tile.row, tile.col)})
      requires numRows * numCols - tilesRevealed < bound
      modifies this`tilesRevealed, this`gameOver, this`revealedSet
      modifies Repr`enabled, Repr`revealed, Repr`displayText, Repr`text
      decreases bound, 0
      ensures WellFormed()
      ensures gameOver || ClosedExcept(revealedSet, mineList, numRows, numCols, pending + {Pos(tile.row, tile.col)})
      ensures !gameOver ==> forall n :: n in Neighbours(Pos(tile.row, tile.col), numRows, numCols) ==> n in revealedSet
      ensures old(revealedSet) <= revealedSet
      ensures forall q :: q in revealedSet - old(revealedSet) ==> q !in mineList
      ensures Spread(revealedSet - old(revealedSet), Neighbours(Pos(tile.row, tile.col), numRows, numCols),
                     mineList, numRows, numCols)
      ensures gameOver ==> tilesRevealed == numRows * numCols - |mineList|
      ensures forall t :: t in Repr ==> t.text == if gameOver && At(t) in mineList then Bomb else old(t.text)
      ensures forall t :: t in Repr && At(t) !in revealedSet ==> t.displayText == old(t.displayText)
    {
      ghost var p := Pos(tile.row, tile.col);
      CountInZero(Neighbours(p, numRows, numCols), mineList);
      NeighboursInBounds(p, numRows, numCols);
      var neighbours := GetNeighbourTiles(tile.row, tile.col, numRows, numCols);
      for k := 0 to |neighbours|
        invariant WellFormed()
        invariant gameOver || ClosedExcept(revealedSet, mineList, numRows, numCols, pending + {p})
        invariant old(revealedSet) <= revealedSet
        invariant !gameOver ==> AllRevealed(neighbours[..k], revealedSet)
        invariant forall q :: q in revealedSet - old(revealedSet) ==> q !in mineList
        invariant Spread(revealedSet - old(revealedSet), neighbours[..k], mineList, numRows, numCols)
        invariant gameOver ==> tilesRevealed == numRows * numCols - |mineList|
        invariant forall t :: t in Repr ==> t.text == if gameOver && At(t) in mineList then Bomb else old(t.text)
        invariant forall t :: t in Repr && At(t) !in revealedSet ==> t.displayText == old(t.displayText)
      {
        SubsetSize(old(revealedSet), revealedSet);
        RevealedAtMostTiles();
        ghost var before := revealedSet;
        var _ := CheckMine(neighbours[k], pending + {p});
        if !gameOver {
          AllRevealedStep(neighbours, k, before, revealedSet);
        }
        SpreadStep(old(revealedSet), before, revealedSet, neighbours, k, mineList, numRows, numCols);
      }
      assert neighbours[..|neighbours|] == neighbours;
    }

    /** Starts a new game on the same board: every tile covered and blank, nothing
        revealed, the game running, and a fresh set of mines placed. */
    method ResetField()
      requires WellFormed()
      modifies this`tilesRevealed, this`gameOver, this`mineList, this`revealedSet
      modifies Repr`enabled, Repr`text, Repr`revealed, Repr`displayText
      ensures Valid()
      ensures tilesRevealed == 0 && !gameOver && revealedSet == {}
      ensures |mineList| == MineQuota()
      ensures forall t :: t in Repr ==>
                t.enabled && t.text == Empty && !t.revealed && t.displayText == Empty
    {
      assert Shape();
      tilesRevealed := 0;
      gameOver := false;
      mineList := {};
      revealedSet := {};
      for r := 0 to numRows
        invariant tilesRevealed == 0 && !gameOver && mineList == {} && revealedSet == {}
        invariant forall i, j :: 0 <= i < r && 0 <= j < numCols ==>
                    board[i, j].enabled && board[i, j].text == Empty &&
                    !board[i, j].revealed && board[i, j].displayText == Empty
      {
        for c := 0 to numCols
          invariant tilesRevealed == 0 && !gameOver && mineList == {} && revealedSet == {}
          invariant forall i, j :: 0 <= i < r && 0 <= j < numCols ==>
                      board[i, j].enabled && board[i, j].text == Empty &&
                      !board[i, j].revealed && board[i, j].displayText == Empty
          invariant forall j :: 0 <= j < c ==>
                      board[r, j].enabled && board[r, j].text == Empty &&
                      !board[r, j].revealed && board[r, j].displayText == Empty
        {
          var tile := board[r, c];
          tile.enabled := true;
          tile.text := Empty;
          tile.revealed := false;
          tile.displayText := Empty;
        }
      }
      SetMines();
    }
  }
}
