/** One square of the board: its fixed position, the button state it inherits
    (enabled, text) and the revealed state it draws (revealed, displayText). */
module Tile {

  /** What a tile can show: nothing, a flag, a neighbour-mine count or a bomb. */
  datatype Label = Empty | Flag | Number(n: int) | Bomb

  /** The text of a revealed tile with k mines around it: the number, or nothing for 0. */
  function CountLabel(k: int): (l: Label)
    ensures l == Empty <==> k <= 0
    ensures l != Flag && l != Bomb
    ensures l.Number? ==> l.n == k
  {
    if k > 0 then Number(k) else Empty
  }

  /** Two counts that differ show differently, so a player reads the exact count back. */
  lemma CountLabelInjective(k: nat, k': nat)
    requires CountLabel(k) == CountLabel(k')
    ensures k == k'
  {
    if k > 0 {
      assert CountLabel(k').n == k;
    }
  }

  class MineTile {
    const row: int
    const col: int
    /** Cleared once the tile has been uncovered; the button then takes no more clicks. */
    var enabled: bool
    /** The button's own text: empty, the flag glyph or the bomb glyph. */
    var text: Label
    var revealed: bool
    var displayText: Label

    constructor (row: int, col: int)
      ensures this.row == row && this.col == col
      ensures enabled && text == Empty && !revealed && displayText == Empty
    {
      this.row := row;
      this.col := col;
      enabled := true;
      text := Empty;
      revealed := false;
      displayText := Empty;
    }

    /** Marks the tile revealed with the given text; position, button state and text stay. */
    method Reveal(t: Label)
      modifies this`revealed, this`displayText
      ensures revealed && displayText == t
    {
      revealed := true;
      displayText := t;
    }
  }
}
