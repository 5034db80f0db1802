/**
 * The game board: a matrix of Rows rows of Cols cells, one row per attempt.
 * The game keeps two of them, one for the guesses and one for the hints.
 * Attempt n (counted from 1) is written to row Rows - n, so the rows fill
 * from the bottom of the board upwards.
 */
module Board {
  import opened Constants

  /** A fresh board: Rows rows of Cols empty cells. */
  method InitMatrix() returns (matrix: array2<int>)
    ensures fresh(matrix)
    ensures matrix.Length0 == Rows && matrix.Length1 == Cols
    ensures forall r, c :: 0 <= r < Rows && 0 <= c < Cols ==> matrix[r, c] == Empty
  {
    matrix := new int[Rows, Cols];
    for i := 0 to Rows
      invariant forall r, c :: 0 <= r < i && 0 <= c < Cols ==> matrix[r, c] == Empty
    {
      for j := 0 to Cols
        invariant forall r, c :: 0 <= r < i && 0 <= c < Cols ==> matrix[r, c] == Empty
        invariant forall c :: 0 <= c < j ==> matrix[i, c] == Empty
      {
        matrix[i, j] := Empty;
      }
    }
  }

  /**
   * Records tab as the row of the given attempt: cell c of row Rows - attempt
   * takes tab[c] for every c < |tab|; every other cell keeps its value. An
   * attempt outside 1..Rows or a row longer than Cols would index past the
   * board, which the requires rules out.
   */
  method UpdateMatrix(matrix: array2<int>, tab: seq<int>, attempt: int)
    requires matrix.Length0 == Rows && matrix.Length1 == Cols
    requires 1 <= attempt <= Rows && |tab| <= Cols
    modifies matrix
    ensures forall r, c :: 0 <= r < Rows && 0 <= c < Cols ==>
      matrix[r, c] == if r == Rows - attempt && c < |tab| then tab[c] else old(matrix[r, c])
  {
    var row := Rows - attempt;
    for i := 0 to |tab|
      invariant forall r, c :: 0 <= r < Rows && 0 <= c < Cols ==>
        matrix[r, c] == if r == row && c < i then tab[c] else old(matrix[r, c])
    {
      matrix[row, i] := tab[i];
    }
  }
}
