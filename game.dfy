/**
 * The turn loop of the game. The player's console lines are given as a
 * sequence of token lists (each line already trimmed and split at '-');
 * running out of lines stands for the failed console read that ends the
 * program. The draws of the random source are a parameter.
 */
module Game {
  import opened Constants
  import opened Codec
  import opened Scoring
  import opened Board

  /** The guess row the player's n-th line (counted from 0) stands for. */
  function GuessAt(symbols2nums: map<string, int>, inputs: seq<seq<string>>, n: nat): (guess: seq<int>)
    requires n < |inputs|
    ensures |guess| == Cols
  {
    Decode(symbols2nums, inputs[n])
  }

  /** The first colour code: the codes below it are the empty cell and the two hint markers. */
  function ScopeStart(): (start: int)
    ensures start == 3
    ensures forall k :: start <= k < start + ColorSymbolsNo <==> k in Num2Symbol && k != Empty && k != RightColorNum && k != RightSpotNum
  {
    SymbolTableInjective();
    SymbolTableSize();
    |Num2Symbol| - ColorSymbolsNo
  }

  /**
   * Draws the secret: Cols codes, each the scope start plus a draw in
   * 0..ColorSymbolsNo - 1. The draws of the random source are the parameter.
   */
  method InitSecret(draws: seq<int>) returns (secret: seq<int>)
    requires |draws| == Cols && forall i :: 0 <= i < Cols ==> 0 <= draws[i] < ColorSymbolsNo
    ensures |secret| == Cols
    ensures forall i :: 0 <= i < Cols ==> secret[i] == ScopeStart() + draws[i]
    ensures forall i :: 0 <= i < Cols ==> secret[i] in Num2Symbol && 3 <= secret[i] <= 10
    ensures Empty !in secret
  {
    var row := seq(Cols, _ => Empty);
    var scopeStart := ScopeStart();
    for i := 0 to Cols
      invariant |row| == Cols
      invariant forall k :: 0 <= k < i ==> row[k] == scopeStart + draws[k]
    {
      var symbolNum := draws[i] + scopeStart;
      row := row[i := symbolNum];
    }
    secret := row;
  }

  /**
   * The record the two boards hold after the first k attempts: attempt n
   * (from 0) shows its guess row in row Rows - 1 - n of the board and its
   * hint row in the same row of the hint board; every row above is empty.
   */
  ghost predicate Shows(board: array2<int>, hints: array2<int>,
                        symbols2nums: map<string, int>, secret: seq<int>, inputs: seq<seq<string>>, k: nat)
    requires |secret| == Cols && k <= |inputs|
    reads board, hints
  {
    board.Length0 == Rows && board.Length1 == Cols
    && hints.Length0 == Rows && hints.Length1 == Cols
    && k <= Rows
    && (forall r, c :: 0 <= r < Rows && 0 <= c < Cols ==>
          board[r, c] == if Rows - k <= r then GuessAt(symbols2nums, inputs, Rows - 1 - r)[c] else Empty)
    && (forall r, c :: 0 <= r < Rows && 0 <= c < Cols ==>
          hints[r, c] == if Rows - k <= r then Score(secret, GuessAt(symbols2nums, inputs, Rows - 1 - r))[c] else Empty)
  }

  /**
   * One turn of the loop: read line attempt, record its guess row and hint
   * row as attempt attempt + 1, and check the hint row for a win. The hint
   * row is the score of the guess, as the board now shows.
   */
  method PlayTurn(symbols2nums: map<string, int>, secret: seq<int>, inputs: seq<seq<string>>,
                  board: array2<int>, hints: array2<int>, attempt: nat)
    returns (guesses: seq<int>, guessed: bool)
    requires |secret| == Cols && attempt < Rows && attempt < |inputs| && |inputs[attempt]| <= Cols
    requires board != hints
    requires Shows(board, hints, symbols2nums, secret, inputs, attempt)
    modifies board, hints
    ensures guesses == GuessAt(symbols2nums, inputs, attempt)
    ensures guessed <==> guesses == secret
    ensures Shows(board, hints, symbols2nums, secret, inputs, attempt + 1)
  {
    var symbols := inputs[attempt];
    guesses := Symbols2Nums(symbols2nums, symbols);
    UpdateMatrix(board, guesses, attempt + 1);
    var currentHints := AnalyzeGuessesAndGetHints(secret, guesses);
    UpdateMatrix(hints, currentHints, attempt + 1);
    guessed := CheckWin(currentHints);
    WinIffGuessed(secret, guesses);
  }

  /**
   * How a game ended after attempt attempts: no earlier line guessed the
   * secret; guessed tells whether the last one did; aborted tells that the
   * program stopped while the game was still on, because the lines ran out
   * (the failed console read) or the next line had more than Cols tokens
   * (the conversion indexes past its fixed-size row).
   */
  predicate Ended(symbols2nums: map<string, int>, secret: seq<int>, inputs: seq<seq<string>>,
                  guessed: bool, attempt: nat, aborted: bool)
  {
    attempt <= Rows && attempt <= |inputs|
    && (forall n :: 0 <= n < attempt ==> |inputs[n]| <= Cols)
    && (forall n :: 0 <= n < attempt - 1 ==> GuessAt(symbols2nums, inputs, n) != secret)
    && (guessed <==> 0 < attempt && GuessAt(symbols2nums, inputs, attempt - 1) == secret)
    && (aborted <==> !guessed && attempt < Rows)
    && (aborted ==> attempt == |inputs| || |inputs[attempt]| > Cols)
  }

  /**
   * The turn loop: attempt n (from 1) reads line n - 1, records the guess and
   * its hint row in row Rows - n of the two boards, and ends the game when
   * the hint row is a win; after Rows attempts the game is lost.
   */
  method RunAttempts(symbols2nums: map<string, int>, secret: seq<int>, inputs: seq<seq<string>>)
    returns (guessed: bool, attempt: nat, aborted: bool, board: array2<int>, hints: array2<int>)
    requires |secret| == Cols
    ensures fresh(board) && fresh(hints)
    ensures Ended(symbols2nums, secret, inputs, guessed, attempt, aborted)
    ensures Shows(board, hints, symbols2nums, secret, inputs, attempt)
  {
    board := InitMatrix();
    hints := InitMatrix();
    attempt := 0;
    guessed := false;
    aborted := false;
    while !guessed && attempt < Rows
      invariant attempt <= Rows && attempt <= |inputs|
      invariant forall n :: 0 <= n < attempt - 1 ==> GuessAt(symbols2nums, inputs, n) != secret
      invariant guessed <==> 0 < attempt && GuessAt(symbols2nums, inputs, attempt - 1) == secret
      invariant forall n :: 0 <= n < attempt ==> |inputs[n]| <= Cols
      invariant !aborted
      invariant Shows(board, hints, symbols2nums, secret, inputs, attempt)
      decreases Rows - attempt
    {
      if attempt == |inputs| || |inputs[attempt]| > Cols {
        aborted := true;
        break;
      }
      assert forall n :: 0 <= n < attempt ==> GuessAt(symbols2nums, inputs, n) != secret;
      assert forall n :: 0 <= n <= attempt ==> |inputs[n]| <= Cols;
      var guesses;
      guesses, guessed := PlayTurn(symbols2nums, secret, inputs, board, hints, attempt);
      ghost var played := GuessAt(symbols2nums, inputs, attempt);
      attempt := attempt + 1;
      assert GuessAt(symbols2nums, inputs, attempt - 1) == played;
    }
  }

  /**
   * Plays one game: the symbol reader is the inverse of the symbol table,
   * the secret is drawn from draws, then the turn loop runs.
   */
  method PlayGame(draws: seq<int>, inputs: seq<seq<string>>)
    returns (symbols2nums: map<string, int>, secret: seq<int>,
             guessed: bool, attempt: nat, aborted: bool, board: array2<int>, hints: array2<int>)
    requires |draws| == Cols && forall i :: 0 <= i < Cols ==> 0 <= draws[i] < ColorSymbolsNo
    ensures Inverts(symbols2nums, Num2Symbol)
    ensures |secret| == Cols && forall i :: 0 <= i < Cols ==> secret[i] == ScopeStart() + draws[i]
    ensures fresh(board) && fresh(hints)
    ensures Ended(symbols2nums, secret, inputs, guessed, attempt, aborted)
    ensures Shows(board, hints, symbols2nums, secret, inputs, attempt)
  {
    symbols2nums := ReverseMapping(Num2Symbol);
    secret := InitSecret(draws);
    guessed, attempt, aborted, board, hints := RunAttempts(symbols2nums, secret, inputs);
  }

  /** A game whose first line spells out the secret is won at the first attempt. */
  method PlayPerfectGame(draws: seq<int>) returns (guessed: bool, attempt: nat)
    requires |draws| == Cols && forall i :: 0 <= i < Cols ==> 0 <= draws[i] < ColorSymbolsNo
    ensures guessed && attempt == 1
  {
    var start := ScopeStart();
    var row := seq(Cols, i requires 0 <= i < Cols => start + draws[i]);
    var line := Encode(row);
    var symbols2nums, secret, aborted, board, hints;
    symbols2nums, secret, guessed, attempt, aborted, board, hints := PlayGame(draws, [line]);
    assert row == secret;
    DecodeEncode(symbols2nums, secret);
    assert GuessAt(symbols2nums, [line], 0) == secret;
  }
}
