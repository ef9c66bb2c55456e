/** The older single-class engine: a fixed 8 x 8 board with 5 mines, tiles that are
    plain buttons, mouse handlers that flag and reveal, and a cascade without a
    game-over guard whose win check runs at the end of every call. */
module Legacy {
  import opened Board
  import opened Tile

  /** A flag click: an enabled blank tile gets the flag, a flagged tile loses it,
      any other tile keeps its text. */
  function ToggleFlag(text: Label, enabled: bool): Label
  {
    if text == Empty && enabled then Flag
    else if text == Flag then Empty
    else text
  }

  /** Flagging a covered tile twice gives back what it showed. */
  lemma FlagTwiceRestores(text: Label, enabled: bool)
    requires enabled && (text == Empty || text == Flag)
    ensures ToggleFlag(text, enabled) != text
    ensures ToggleFlag(ToggleFlag(text, enabled), enabled) == text
  {
  }

  /** A flag click never changes a revealed tile or a bomb. */
  lemma FlagLeavesRevealed(text: Label, enabled: bool)
    requires (!enabled && text != Flag) || text == Bomb
    ensures ToggleFlag(text, enabled) == text
  {
  }

  /** The older engine's own tile: a button that knows its position. */
  class MineTile {
    const row: int
    const col: int
    var enabled: bool
    var text: Label

    constructor (row: int, col: int)
      ensures this.row == row && this.col == col
      ensures enabled && text == Empty
    {
      this.row := row;
      this.col := col;
      enabled := true;
      text := Empty;
    }
  }

  class Minesweeper {
    const numRows: int := 8
    const numCols: int := 8
    const mineCount: int := 5
    const board: array2<MineTile>
    /** The tiles of the board, the objects the engine may change. */
    ghost const Repr: set<MineTile>

    var mineList: set<Pos>
    var tilesRevealed: int
    var gameOver: bool
    /** The positions of the tiles revealed (disabled) so far. */
    ghost var revealedSet: set<Pos>

    /** The fixed shape of the board: each tile at its own position. */
    ghost predicate Shape()
      reads board
    {
      board.Length0 == numRows && board.Length1 == numCols &&
      (forall i, j :: 0 <= i < numRows && 0 <= j < numCols ==>
         board[i, j] in Repr && board[i, j].row == i && board[i, j].col == j) &&
      (forall t :: t in Repr ==>
         0 <= t.row < numRows && 0 <= t.col < numCols && board[t.row, t.col] == t)
    }

    /** The position of a tile of this board. */
    function At(t: MineTile): Pos
    {
      Pos(t.row, t.col)
    }

    /** The tile stored at an on-board position belongs to the board and sits at that position. */
    lemma TileAt(n: Pos)
      requires Shape() && InBounds(n, numRows, numCols)
      ensures board[n.r, n.c] in Repr && At(board[n.r, n.c]) == n
    {
    }

    /** The number of safe tiles, which is the count a win needs. */
    function Target(): int
      reads this
    {
      numRows * numCols - |mineList|
    }

    /** The board's state invariant, the cascade's closure aside: no mine is ever
        revealed, a revealed tile shows its count, a covered tile shows nothing or a
        flag (or a bomb once the game is over), and every mine shows a bomb then. */
    ghost predicate WellFormed()
      reads this, board, Repr
    {
      Shape() &&
      mineList <= AllPositions(numRows, numCols) &&
      |mineList| == mineCount &&
      revealedSet <= SafePositions(numRows, numCols, mineList) &&
      tilesRevealed == |revealedSet| &&
      (forall t :: t in Repr ==>
         (At(t) in revealedSet <==> !t.enabled) &&
         (!t.enabled ==> t.text == CountLabel(AdjacentMines(At(t), mineList, numRows, numCols))) &&
         (t.enabled ==> t.text == Empty || t.text == Flag || (t.text == Bomb && gameOver && At(t) in mineList)) &&
         (gameOver && At(t) in mineList ==> t.text == Bomb))
    }

    /** The invariant between clicks: well formed, every revealed tile that counts 0 has
        all its neighbours revealed, and a game with every safe tile revealed is over. */
    ghost predicate Valid()
      reads this, board, Repr
    {
      WellFormed() &&
      ClosedExcept(revealedSet, mineList, numRows, numCols, {}) &&
      (tilesRevealed == Target() ==> gameOver)
    }

    /** The game window: an 8 x 8 board of blank enabled tiles, nothing revealed, then
        five mines placed. */
    constructor ()
      ensures Valid() && fresh(Repr)
      ensures tilesRevealed == 0 && !gameOver && revealedSet == {}
      ensures forall t :: t in Repr ==> t.enabled && t.text == Empty
    {
      var tiles := InitializeBoard();
      board := tiles;
      ghost var tileSet := set i, j | 0 <= i < 8 && 0 <= j < 8 :: tiles[i, j];
      forall t | t in tileSet
        ensures 0 <= t.row < 8 && 0 <= t.col < 8 && tiles[t.row, t.col] == t
      {
        var i, j :| 0 <= i < 8 && 0 <= j < 8 && t == tiles[i, j];
      }
      Repr := tileSet;
      mineList := {};
      tilesRevealed := 0;
      gameOver := false;
      revealedSet := {};
      new;
      SetMines();
      SafePositionsSize(numRows, numCols, mineList);
    }

    /** The board of the game window: an 8 x 8 grid of new blank tiles, each carrying
        its own row and column. */
    static method InitializeBoard() returns (tiles: array2<MineTile>)
      ensures fresh(tiles) && tiles.Length0 == 8 && tiles.Length1 == 8
      ensures forall i, j :: 0 <= i < 8 && 0 <= j < 8 ==>
                fresh(tiles[i, j]) && tiles[i, j].row == i && tiles[i, j].col == j &&
                tiles[i, j].enabled && tiles[i, j].text == Empty
    {
      var filler := new MineTile(0, 0);
      tiles := new MineTile[8, 8]((i, j) => filler);
      for r := 0 to 8
        invariant forall i, j :: 0 <= i < r && 0 <= j < 8 ==>
                    fresh(tiles[i, j]) && tiles[i, j].row == i && tiles[i, j].col == j &&
                    tiles[i, j].enabled && tiles[i, j].text == Empty
      {
        for c := 0 to 8
          invariant forall i, j :: 0 <= i < r && 0 <= j < 8 ==>
                      fresh(tiles[i, j]) && tiles[i, j].row == i && tiles[i, j].col == j &&
                      tiles[i, j].enabled && tiles[i, j].text == Empty
          invariant forall j :: 0 <= j < c ==>
                      fresh(tiles[r, j]) && tiles[r, j].row == r && tiles[r, j].col == j &&
                      tiles[r, j].enabled && tiles[r, j].text == Empty
        {
          tiles[r, c] := new MineTile(r, c);
        }
      }
    }

    /** Starts an empty mine list and adds mines until mineCount distinct positions are
        mines. Each round draws a position that is not a mine yet (a draw that hits a
        mine changes nothing). */
    method SetMines()
      modifies this`mineList
      ensures mineList <= AllPositions(numRows, numCols)
      ensures |mineList| == mineCount
    {
      mineList := {};
      var minesLeft := mineCount;
      while minesLeft > 0
        invariant 0 <= minesLeft && |mineList| + minesLeft == mineCount
        invariant mineList <= AllPositions(numRows, numCols)
      {
        SafePositionsSize(numRows, numCols, mineList);
        var tile :| tile in SafePositions(numRows, numCols, mineList);
        mineList := mineList + {tile};
        minesLeft := minesLeft - 1;
      }
    }

    /** Shows every mine with the bomb glyph; no other tile changes. */
    method RevealMines()
      requires Shape() && mineList <= AllPositions(numRows, numCols)
      modifies Repr`text
      ensures forall t :: t in Repr ==> t.text == if At(t) in mineList then Bomb else old(t.text)
    {
      var rest := mineList;
      while rest != {}
        invariant rest <= mineList
        invariant forall t :: t in Repr ==> t.text == if At(t) in mineList - rest then Bomb else old(t.text)
        decreases |rest|
      {
        var m :| m in rest;
        AllPositionsInBounds(numRows, numCols, m);
        board[m.r, m.c].text := Bomb;
        rest := rest - {m};
      }
    }

    /** A mine was clicked: show all mines and end the game. */
    method GameLost()
      requires WellFormed()
      modifies this`gameOver, Repr`text
      ensures WellFormed() && gameOver
      ensures forall t :: t in Repr ==> t.text == if At(t) in mineList then Bomb else old(t.text)
    {
      RevealMines();
      gameOver := true;
    }

    /** The end of checkMine once every safe tile is revealed, written inline there:
        end the game and show all mines. */
    method GameWon()
      requires WellFormed()
      modifies this`gameOver, Repr`text
      ensures WellFormed() && gameOver
      ensures forall t :: t in Repr ==> t.text == if At(t) in mineList then Bomb else old(t.text)
    {
      gameOver := true;
      RevealMines();
    }

    /** The revealed count never exceeds the number of safe tiles. */
    lemma RevealedAtMostSafe()
      requires WellFormed()
      ensures 0 <= tilesRevealed <= Target()
      ensures tilesRevealed == Target() <==> revealedSet == SafePositions(numRows, numCols, mineList)
    {
      WinMeansAllSafeRevealed(numRows, numCols, mineList, revealedSet);
    }

    /** The first half of checkMine on a covered safe tile: disable it, count it as
        revealed, add up countMine over its neighbours and write that number as its
        text (nothing for 0), whatever it showed before. */
    method Uncover(tile: MineTile) returns (minesFound: nat)
      requires WellFormed() && tile in Repr && tile.enabled && At(tile) !in mineList
      modifies this`tilesRevealed, this`revealedSet, tile`enabled, tile`text
      ensures WellFormed()
      ensures revealedSet == old(revealedSet) + {At(tile)}
      ensures minesFound == AdjacentMines(At(tile), mineList, numRows, numCols)
    {
      assert At(tile) !in revealedSet;
      assert forall t :: t in Repr && t != tile ==> At(t) != At(tile);
      AllPositionsInBounds(numRows, numCols, At(tile));
      tile.enabled := false;
      tilesRevealed := tilesRevealed + 1;
      revealedSet := revealedSet + {At(tile)};

      var ns := GetNeighbourTiles(tile.row, tile.col, numRows, numCols);
      minesFound := CountMinesAmong(ns, mineList);
      tile.text := CountLabel(minesFound);
      assert At(tile) in SafePositions(numRows, numCols, mineList);
      forall t | t in Repr
        ensures (At(t) in revealedSet <==> !t.enabled)
        ensures !t.enabled ==> t.text == CountLabel(AdjacentMines(At(t), mineList, numRows, numCols))
      {
        if t != tile {
          assert At(t) in revealedSet <==> At(t) in old(revealedSet);
        }
      }
    }

    /** Reveals the tile and, when no mine is around it, its neighbours in turn; then
        ends the game as won if tilesRevealed has reached the number of safe tiles.
        `pending` holds the zero tiles whose cascades are still running further up. */
    method CheckMine(mt: MineTile, ghost pending: set<Pos>)
      requires WellFormed() && mt in Repr && At(mt) !in mineList
      requires ClosedExcept(revealedSet, mineList, numRows, numCols, pending)
      modifies this`tilesRevealed, this`gameOver, this`revealedSet, Repr`enabled, Repr`text
      decreases numRows * numCols - tilesRevealed, 1
      ensures WellFormed()
      ensures ClosedExcept(revealedSet, mineList, numRows, numCols, pending)
      ensures old(revealedSet) <= revealedSet && At(mt) in revealedSet
      // an already revealed tile: nothing happens
      ensures At(mt) in old(revealedSet) ==> unchanged(this) && unchanged(Repr)
      // every tile the call reveals shows its count, even one that showed a flag
      ensures forall t :: t in Repr && At(t) in revealedSet - old(revealedSet) ==>
                !t.enabled && t.text == CountLabel(AdjacentMines(At(t), mineList, numRows, numCols))
      // what it reveals: the tile, and the neighbours of revealed tiles that count 0
      ensures Spread(revealedSet - old(revealedSet), [At(mt)], mineList, numRows, numCols)
      ensures At(mt) !in old(revealedSet) && AdjacentMines(At(mt), mineList, numRows, numCols) > 0 ==>
                revealedSet == old(revealedSet) + {At(mt)}
      // the win check
      ensures old(gameOver) ==> gameOver
      ensures At(mt) !in old(revealedSet) ==> (gameOver <==> old(gameOver) || tilesRevealed == Target())
      ensures gameOver ==> old(gameOver) || tilesRevealed == Target()
      // covered tiles keep their text, except that mines show a bomb once the game is over
      ensures forall t :: t in Repr && t.enabled ==>
                t.text == if gameOver && At(t) in mineList then Bomb else old(t.text)
    {
      var tile := board[mt.row, mt.col];
      if !tile.enabled {
        return;
      }
      ghost var before := revealedSet;
      var minesFound := Uncover(tile);
      if minesFound > 0 {
        ClosedExtend(before, revealedSet, mineList, numRows, numCols, pending);
      } else {
        ClosedExtend(before, revealedSet, mineList, numRows, numCols, pending + {At(tile)});
        RevealedAtMostSafe();
        Cascade(tile, pending, numRows * numCols - old(tilesRevealed));
        SpreadFromZero(before, revealedSet, At(tile), mineList, numRows, numCols);
        ClosedRelease(revealedSet, mineList, numRows, numCols, pending, At(tile));
      }

      if tilesRevealed == Target() {
        GameWon();
      }
    }

    /** The second half of checkMine on a tile with no mine around it: checkMine on each
        neighbour in turn, with no check of gameOver in between. `bound` is the calling
        checkMine's count of tiles still covered, which every nested call lowers. */
    method Cascade(tile: MineTile, ghost pending: set<Pos>, ghost bound: int)
      requires WellFormed() && tile in Repr && At(tile) in revealedSet
      requires AdjacentMines(At(tile), mineList, numRows, numCols) == 0
      requires ClosedExcept(revealedSet, mineList, numRows, numCols, pending + {At(tile)})
      requires numRows * numCols - tilesRevealed < bound
      modifies this`tilesRevealed, this`gameOver, this`revealedSet, Repr`enabled, Repr`text
      decreases bound, 0
      ensures WellFormed()
      ensures ClosedExcept(revealedSet, mineList, numRows, numCols, pending + {At(tile)})
      ensures forall n :: n in Neighbours(At(tile), numRows, numCols) ==> n in revealedSet
      ensures old(revealedSet) <= revealedSet
      ensures Spread(revealedSet - old(revealedSet), Neighbours(At(tile), numRows, numCols),
                     mineList, numRows, numCols)
      ensures old(gameOver) ==> gameOver
      ensures gameOver ==> old(gameOver) || tilesRevealed == Target()
      ensures forall t :: t in Repr && t.enabled ==>
                t.text == if gameOver && At(t) in mineList then Bomb else old(t.text)
    {
      ghost var p := At(tile);
      CountInZero(Neighbours(p, numRows, numCols), mineList);
      NeighboursInBounds(p, numRows, numCols);
      var neighbours := GetNeighbourTiles(tile.row, tile.col, numRows, numCols);
      for k := 0 to |neighbours|
        invariant WellFormed()
        invariant ClosedExcept(revealedSet, mineList, numRows, numCols, pending + {p})
        invariant old(revealedSet) <= revealedSet
        invariant AllRevealed(neighbours[..k], revealedSet)
        invariant Spread(revealedSet - old(revealedSet), neighbours[..k], mineList, numRows, numCols)
        invariant old(gameOver) ==> gameOver
        invariant gameOver ==> old(gameOver) || tilesRevealed == Target()
        invariant forall t :: t in Repr && t.enabled ==>
                    t.text == if gameOver && At(t) in mineList then Bomb else old(t.text)
      {
        SubsetSize(old(revealedSet), revealedSet);
        RevealedAtMostSafe();
        var n := neighbours[k];
        assert n in Neighbours(p, numRows, numCols);
        TileAt(n);
        ghost var before := revealedSet;
        CheckMine(board[n.r, n.c], pending + {p});
        AllRevealedStep(neighbours, k, before, revealedSet);
        SpreadStep(old(revealedSet), before, revealedSet, neighbours, k, mineList, numRows, numCols);
      }
      assert neighbours[..|neighbours|] == neighbours;
    }

    /** A left click on a running game: only a tile showing nothing reacts; a mine
        loses the game, any other tile is checked. */
    method LeftClick(tile: MineTile)
      requires Valid() && tile in Repr
      modifies this`tilesRevealed, this`gameOver, this`revealedSet, Repr`enabled, Repr`text
      ensures Valid()
      // a finished game, a flag, a number or a bomb, or a revealed blank tile: nothing happens
      ensures old(gameOver) || old(tile.text) != Empty ==> unchanged(this) && unchanged(Repr)
      ensures At(tile) in old(revealedSet) ==> unchanged(this) && unchanged(Repr)
      // covered tiles keep their text, except that mines show a bomb once the game is over
      ensures forall t :: t in Repr && t.enabled ==>
                t.text == if gameOver && At(t) in mineList then Bomb else old(t.text)
      // a mine: the game is lost, nothing is revealed and every mine shows a bomb
      ensures !old(gameOver) && old(tile.text) == Empty && At(tile) in mineList ==>
                gameOver && revealedSet == old(revealedSet) &&
                revealedSet != SafePositions(numRows, numCols, mineList) &&
                forall t :: t in Repr ==> t.text == if At(t) in mineList then Bomb else old(t.text)
      // a safe tile: it is revealed, and the game ends exactly when every safe tile is;
      // besides it, only neighbours of revealed tiles that count 0 are revealed
      ensures !old(gameOver) && old(tile.text) == Empty && At(tile) !in mineList ==>
                old(revealedSet) <= revealedSet && At(tile) in revealedSet &&
                (gameOver <==> revealedSet == SafePositions(numRows, numCols, mineList)) &&
                Spread(revealedSet - old(revealedSet), [At(tile)], mineList, numRows, numCols) &&
                (AdjacentMines(At(tile), mineList, numRows, numCols) > 0 ==> revealedSet == old(revealedSet) + {At(tile)})
    {
      if gameOver {
        return;
      }
      if tile.text == Empty {
        RevealedAtMostSafe();
        if At(tile) in mineList {
          GameLost();
        } else {
          CheckMine(tile, {});
          RevealedAtMostSafe();
        }
      }
    }

    /** A right click on a running game toggles the flag on the tile; nothing else changes. */
    method RightClick(tile: MineTile)
      requires Valid() && tile in Repr
      modifies tile`text
      ensures Valid()
      ensures tile.text == if old(gameOver) then old(tile.text) else ToggleFlag(old(tile.text), tile.enabled)
    {
      if gameOver {
        return;
      }
      if tile.text == Empty && tile.enabled {
        tile.text := Flag;
      } else if tile.text == Flag {
        tile.text := Empty;
      }
    }
  }
}
