/** The fixed sizes and marker codes of the game. */
module Constants {
  /** Number of pegs in a secret, a guess and a hint row. */
  const Cols: int := 4
  /** Number of attempts, and so of board rows. */
  const Rows: int := 9
  /** Number of playable colours (codes 3..10). */
  const ColorSymbolsNo: int := 8
  /** Hint marker: a shared colour in the wrong spot. */
  const RightColorNum: int := 1
  /** Hint marker: the right colour in the right spot. */
  const RightSpotNum: int := 2
  /** The zero value of a Go int: an empty board cell, an empty hint, an unknown symbol. */
  const Empty: int := 0
}
