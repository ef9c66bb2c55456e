# Minesweeper board engine

A Dafny model of the board engine of a Java Swing Minesweeper game, in its two revisions:

- the current engine, `MineField` with its `MineTile` buttons: an R x C grid of tiles, the
  list of mines, the count of revealed tiles and the game-over flag; mine placement by
  rejection sampling, the recursive cascading reveal with its neighbour-mine count and win
  check, showing the mines, and resetting the board;
- the older single-class engine, `Minesweeper`, on a fixed 8 x 8 board with 5 mines, whose
  mouse handler holds the click rules: reveal or lose on a left click, flag toggle on a
  right click.

Layout:

- `board.dfy`, module `Board`: positions, the neighbour scan of `getNeighbourTiles` (a loop
  proved equal to a specification function `Neighbours`), mine counting, the board's cells,
  the safe cells, and the cascade's closure property `ClosedExcept`.
- `tile.dfy`, module `Tile`: the texts a tile shows (`Label`) and the current engine's tile
  class with its `reveal`.
- `field.dfy`, module `Field`: the class `MineField`.
- `legacy.dfy`, module `Legacy`: the class `Minesweeper` and its own tile class.

Both engines keep tiles as objects in a two-dimensional array, each tile carrying its own
row and column. Mines are a set of positions, which is what the source's reference-equality
lookups in its mine list amount to. A ghost set `revealedSet` records which tiles have
been disabled, so that the invariant can tie `tilesRevealed` to it. `java.util.Random` is
replaced by a nondeterministic choice of a position that is not a mine yet. A draw that hits
an existing mine changes nothing, so it is not modelled. Tile texts are the datatype
`Label`: nothing, a flag, a number or a bomb.

The cascade keeps a closure invariant: every revealed tile with no mine around it has all
its neighbours revealed. While recursive calls are still running, the zero tiles on the
call stack are exempt. The cascade is also bounded from above: besides the clicked tile,
it reveals only neighbours of revealed tiles that count 0 (`Spread`), so a tile that
counts more than 0 is revealed on its own. `Spread` is a local check: it does not exclude
a zero region that is unconnected to the clicked tile, where adjacent zero tiles justify
each other.

The current engine's `checkMine` does not check whether its tile is a mine. Called on a
mine, it counts the mine as revealed, and the win count can then be reached while a safe
tile next to a revealed zero tile is still covered. Its invariant is therefore "the game is
over, or the revealed set is closed". A win reached with only safe tiles revealed has
revealed every safe tile, and `CheckMine` promises closure in that case as well. The older
engine never calls `checkMine` on a mine, and its `checkMine` has no game-over guard, so
its cascade always completes and its board is always closed.

Where the code departs from the usual rules of Minesweeper, the model follows the code:

- A mine clicked in the older engine is not counted in `tilesRevealed` and not disabled;
  only its text becomes a bomb.
- The older engine's cascade reveals a flagged neighbour and overwrites the flag.
- There is no flag budget anywhere in the engine code.

## Model

| member | source | states |
|---|---|---|
| Board.GetNeighbourTiles | src/main/java/MineTile.java:84-94 | the two nested loops over the 3 x 3 window, skipping the tile itself and off-board cells, return exactly the list `Neighbours(p)` |
| Board.WindowMembers | src/main/java/MineTile.java:86-92 | a position is in the first k cells collected by the scan iff it is one of the kept window cells before k |
| Board.NeighboursAreAdjacent | src/main/java/MineTile.java:86-92 | q is in the neighbour list iff q is on the board, differs from p, and is at most one row and one column away |
| Board.NeighboursInBounds | src/main/java/MineTile.java:88-89 | every listed neighbour is inside the board and is not the tile itself |
| Board.WindowSorted | src/main/java/MineTile.java:86-92 | the cells collected so far are strictly increasing in row-major order and precede the next window cell |
| Board.NeighboursRowMajor | src/main/java/MineTile.java:86-93 | the neighbour list is in strict row-major order, so it has no duplicates |
| Board.NeighbourSymmetric | src/main/java/MineTile.java:86-92 | for two on-board tiles, b is a neighbour of a iff a is a neighbour of b |
| Board.WindowLength | src/main/java/MineTile.java:86-92 | the collected list grows by one exactly when the next window cell is kept |
| Board.KeptCounts | src/main/java/MineTile.java:88-89 | each of the nine window cells is kept iff its row and column are on the board, the centre never |
| Board.NeighbourCount | src/main/java/MineTile.java:86-92 | an on-board tile has (rows spanned) x (columns spanned) - 1 neighbours, where a span is 3 clipped by the board's edges |
| Board.NeighbourCountByPlace | src/main/java/MineTile.java:86-92 | on a board of at least 2 x 2, an interior tile has 8 neighbours, an edge tile 5 and a corner tile 3 |
| Board.NeighboursAtMostEight | src/main/java/MineTile.java:86-93 | any tile has at most 8 neighbours |
| Board.CountMine | src/main/java/Minesweeper.java:187-193 | the count for one tile is 1 if its position is a mine and 0 otherwise |
| Board.CountMinesAmong | src/main/java/MineField.java:170-173 | the loop summing 1 per mine over a neighbour list computes `CountIn` of that list |
| Board.CountInIsSetSize | src/main/java/Minesweeper.java:163-167 | over a list without duplicates, the summed count is the number of distinct mines in the list |
| Board.CountInZero | src/main/java/MineField.java:170-175 | the sum is 0 iff no listed tile is a mine |
| Board.CountInAtMostLength | src/main/java/Minesweeper.java:163-167 | the sum never exceeds the length of the list |
| Board.AdjacentMinesCount | src/main/java/MineField.java:170-173 | a tile's count equals the number of mines adjacent to it and lies in 0..8 |
| Board.ZeroMeansNoMineNeighbour | src/main/java/MineField.java:175-181 | a tile counts 0 iff none of its neighbours is a mine, so the cascade meets no mine |
| Board.AllPositionsInBounds | src/main/java/MineField.java:121-123 | the board's cells are exactly the in-bounds positions |
| Board.RowPositionsSize | src/main/java/MineField.java:68-72 | one row of a board with C columns has C cells |
| Board.AllPositionsSplit | src/main/java/MineField.java:68-72 | the cells of an R x C board are those of the first R - 1 rows plus the disjoint last row |
| Board.AllPositionsSize | src/main/java/MineField.java:68-72 | an R x C board has R * C cells |
| Board.SafePositionsSize | src/main/java/MineField.java:184 | with all mines on the board, R * C minus the number of mines cells are safe |
| Board.WinMeansAllSafeRevealed | src/main/java/MineField.java:184 | if only safe cells are revealed, at most R * C minus the number of mines are, and the win count is reached iff every safe cell is revealed |
| Board.ClearedBoardIsClosed | src/main/java/MineField.java:175-181 | revealing every safe cell satisfies the cascade's closure property |
| Board.ClosedExtend | src/main/java/MineField.java:175-176 | revealing tiles that count more than 0, or whose cascade is still pending, keeps the closure property |
| Board.SafeWinIsClosed | src/main/java/MineField.java:184-187 | when only safe cells are revealed and the win count is reached, the board is closed whatever cascades are pending |
| Board.StaysSafe | src/main/java/MineField.java:161-181 | revealing the tile itself, when it is not a mine, and cells that are not mines keeps every revealed cell safe |
| Board.SpreadStep | src/main/java/MineField.java:179-181 | a cascade from the k-th neighbour run after those from the first k neighbours: together they reveal only the first k + 1 neighbours and neighbours of revealed zero tiles |
| Board.SpreadFromZero | src/main/java/MineField.java:177-181 | revealing a zero tile and then cascading over its neighbours reveals only that tile and neighbours of revealed zero tiles |
| Board.ClosedRelease | src/main/java/MineField.java:179-181 | once all neighbours of a pending zero tile are revealed, it need no longer be exempt |
| Tile.CountLabel | src/main/java/MineField.java:175-178 | a revealed tile's text is its count k when k > 0 and nothing when k is 0; never a flag or a bomb |
| Tile.CountLabelInjective | src/main/java/MineField.java:175-178 | two different counts show different texts |
| Tile.MineTile.constructor | src/main/java/MineTile.java:48-55 | a new tile has its position, is enabled, blank and not revealed |
| Tile.MineTile.Reveal | src/main/java/MineTile.java:66-71 | `reveal` sets the revealed bit and the display text and changes nothing else |
| Field.MineField.constructor | src/main/java/MineField.java:55-73 | a new field has R x C fresh blank tiles, each at its own position, nothing revealed, the game running, `MineQuota()` mines placed (`mineCount`, or none when it is not positive), and satisfies the invariant |
| Field.MineField.InitializeBoard | src/main/java/MineField.java:67-73 | the grid has the requested size and every cell holds a new tile carrying that cell's row and column, enabled, blank and unrevealed |
| Field.MineField.SetMines | src/main/java/MineField.java:119-128 | mines are only added, all on the board, until the mine set has `mineCount` distinct positions |
| Field.MineField.RevealMines | src/main/java/MineField.java:134-139 | every mine tile shows a bomb, every other tile keeps its text, and the game is over |
| Field.MineField.IsMine | src/main/java/MineField.java:146-148 | for a tile whose position is on the board, looks up the board tile there and answers true iff that cell is not a safe cell |
| Field.MineField.RevealedAtMostTiles | src/main/java/MineField.java:165-168 | `tilesRevealed` stays between 0 and R * C |
| Field.MineField.Uncover | src/main/java/MineField.java:167-178 | a covered tile is disabled, counted once, marked revealed, and shows its exact neighbour-mine count |
| Field.MineField.CheckMine | src/main/java/MineField.java:161-191 | no change when the game is over or the tile is revealed; otherwise the tile is revealed with its count; a tile that counts more than 0 is the only one revealed; the cascade reveals no mine, nothing but neighbours of revealed zero tiles, and leaves every zero tile's neighbours revealed, also after a win reached without a mine; and the result is true, the game over and every mine shown exactly when `tilesRevealed` reaches R * C minus the number of mines |
| Field.MineField.Cascade | src/main/java/MineField.java:179-181 | after checking each neighbour of a zero tile, all its neighbours are revealed unless the game was won; nothing revealed is a mine, and everything revealed is a neighbour of the tile or of a revealed zero tile |
| Field.MineField.ResetField | src/main/java/MineField.java:97-113 | every tile is enabled, blank and unrevealed, the counter is 0, the game runs, and a fresh set of `mineCount` mines is placed |
| Legacy.ToggleFlag | src/main/java/Minesweeper.java:108-114 | the text a right click leaves on a tile: a flag on an enabled blank tile, nothing on a flagged one, otherwise unchanged |
| Legacy.FlagTwiceRestores | src/main/java/Minesweeper.java:108-114 | a right click changes a covered tile's blank or flag, and a second one restores it |
| Legacy.FlagLeavesRevealed | src/main/java/Minesweeper.java:109-113 | a right click leaves a revealed tile or a bomb unchanged |
| Legacy.MineTile.constructor | src/main/java/Minesweeper.java:24-27 | a new tile has its position, is enabled and blank |
| Legacy.Minesweeper.constructor | src/main/java/Minesweeper.java:80-123 | an 8 x 8 board of fresh blank tiles, nothing revealed, the game running, 5 mines placed, and the invariant holds |
| Legacy.Minesweeper.InitializeBoard | src/main/java/Minesweeper.java:80-83 | the grid is 8 x 8 and every cell holds a new tile carrying that cell's row and column, enabled and blank |
| Legacy.Minesweeper.SetMines | src/main/java/Minesweeper.java:138-152 | starting from an empty list, exactly `mineCount` distinct on-board mines are placed |
| Legacy.Minesweeper.RevealMines | src/main/java/Minesweeper.java:126-130 | every mine tile shows a bomb and every other tile keeps its text |
| Legacy.Minesweeper.GameLost | src/main/java/Minesweeper.java:132-136 | all mines show a bomb and the game is over |
| Legacy.Minesweeper.GameWon | src/main/java/Minesweeper.java:180-183 | the win branch of checkMine: the game is over, every mine shows a bomb, every other tile keeps its text, and the tile invariant `WellFormed` is kept |
| Legacy.Minesweeper.RevealedAtMostSafe | src/main/java/Minesweeper.java:180 | `tilesRevealed` never exceeds the number of safe tiles and equals it iff every safe tile is revealed |
| Legacy.Minesweeper.Uncover | src/main/java/Minesweeper.java:160-173 | a covered safe tile is disabled, counted once, and shows its exact neighbour-mine count, whatever it showed before |
| Legacy.Minesweeper.CheckMine | src/main/java/Minesweeper.java:154-185 | no change on a revealed tile; otherwise the tile is revealed, alone when it counts more than 0 and otherwise with only neighbours of revealed zero tiles, flags on newly revealed tiles are overwritten by counts, every zero tile's neighbours end up revealed, covered tiles keep their text, and the game ends exactly when `tilesRevealed` reaches the number of safe tiles, with every mine shown |
| Legacy.Minesweeper.Cascade | src/main/java/Minesweeper.java:174-177 | after checking each neighbour of a zero tile, without any game-over test, all its neighbours are revealed, everything revealed is a neighbour of the tile or of a revealed zero tile, and covered tiles keep their text except mines once the game is over |
| Legacy.Minesweeper.LeftClick | src/main/java/Minesweeper.java:91-106 | ignored when the game is over, when the tile shows anything, or when it is a revealed blank tile; covered tiles keep their text except that mines show a bomb once the game is over; on a mine the game is lost with nothing revealed and all mines shown; otherwise the tile is revealed, alone when it counts more than 0 and otherwise with only neighbours of revealed zero tiles, and the game ends iff every safe tile is revealed |
| Legacy.Minesweeper.RightClick | src/main/java/Minesweeper.java:91-114 | ignored when the game is over; otherwise the tile's text becomes `ToggleFlag` of its text, and nothing else changes |

## Left out

- Swing and AWT: painting, fonts, colours, backgrounds, `setForeground`, the frame and panel
  layout, the status label's texts and `getColorForNumber`; they only draw.
- The dialogs (`GameMenuDialog`, `SettingsDialog`) and the mouse-event plumbing: the click
  handler's branches are the two methods `LeftClick` and `RightClick`.
- `java.util.Random`: the model picks any position that is not a mine yet and makes no claim
  about the distribution.
- `getBoard` and `isGameOver`: plain getters of fields the model exposes directly.
- Field.MineField.constructor: requires `0 <= rows`, `0 <= cols` and `mines <= rows * cols`;
  Java throws on a negative size, and `setMines` never returns when there are more mines
  than tiles.
- Field.MineField.CheckMine: takes the tile's position rather than the tile object; the
  source uses only the tile's row and column.
- Field.MineField.CheckMine: the closure property is promised while the game runs, or after
  a win reached with only safe tiles revealed; called on a mine, a win can leave a covered
  tile next to a revealed zero tile.
- Field.MineField.CheckMine: what it reveals is bounded by `Spread` (which does not exclude
  a zero region unconnected to the tile) and shown closed, but is not proved to be the
  smallest closed set containing the tile.
- Field.MineField.Cascade: bounded by `Spread` (which does not exclude a zero region
  unconnected to the tile) from the tile's neighbours, not proved to be the smallest such
  set.
- Legacy.Minesweeper.CheckMine: bounded by `Spread` (which does not exclude a zero region
  unconnected to the tile) and shown closed, not proved to be the smallest closed set
  containing the tile.
- Legacy.Minesweeper.Cascade: bounded by `Spread` (which does not exclude a zero region
  unconnected to the tile) from the tile's neighbours, not proved to be the smallest such
  set.
- Legacy.Minesweeper.LeftClick: on a safe tile, bounded by `Spread` (which does not exclude
  a zero region unconnected to the tile) and shown closed, not proved to be the smallest
  closed set containing the tile.
- Field.MineField.IsMine: requires the tile's position to be on the board; Java throws an
  index exception otherwise.
- Field.MineField.CheckMine: the assignment `gameOver = true` just before `revealMines()` is
  not repeated, because `revealMines` sets `gameOver` itself.
- The current engine's flag handling lives in the GUI class, which is not part of this
  model.
