/**
 * The scoring engine: comparing a guess with the secret and producing the row
 * of hint markers, and the win check on such a row.
 *
 * The model accepts any integer codes. The source uses the code 0 (the zero
 * value of a Go int) as the "not yet consumed" mark of a guess slot, so a
 * guess slot holding 0 counts as consumed from the start and a 0 in the
 * secret never finds a colour match; the specification below says so
 * explicitly by leaving 0 out of the shared colours.
 */
module Scoring {
  import opened Constants

  /** Number of positions at which the secret and the guess hold the same code. */
  function ExactCount(secret: seq<int>, guess: seq<int>): (n: nat)
    requires |secret| == |guess|
    ensures n <= |secret|
    decreases |secret|
  {
    if |secret| == 0 then 0
    else
      ExactCount(secret[..|secret| - 1], guess[..|guess| - 1])
      + (if secret[|secret| - 1] == guess[|guess| - 1] then 1 else 0)
  }

  /**
   * Number of colours the secret and the guess share, counted with
   * multiplicity (every peg on either side is matched at most once), the
   * empty code excluded: the size of the multiset intersection.
   */
  function SharedCount(secret: seq<int>, guess: seq<int>): (n: nat)
    ensures n <= |secret| && n <= |guess|
  {
    var common := multiset(secret) * multiset(guess);
    SubMultisetSize(common[Empty := 0], multiset(secret));
    SubMultisetSize(common[Empty := 0], multiset(guess));
    |common[Empty := 0]|
  }

  /**
   * The hint row the engine is meant to produce: one exact-spot marker per
   * exact match, then one colour marker per shared colour not already counted
   * as exact, then empty cells.
   */
  function Score(secret: seq<int>, guess: seq<int>): (hint: seq<int>)
    requires |secret| == Cols && |guess| == Cols
    ensures |hint| == Cols
  {
    var spots := ExactCount(secret, guess);
    var colours := SharedCount(secret, guess) - spots;
    seq(Cols, k => if k < spots then RightSpotNum
                   else if k < spots + colours then RightColorNum
                   else Empty)
  }

  /** Whether a hint row shows Cols exact-spot markers. */
  predicate IsWin(hint: seq<int>)
  {
    multiset(hint)[RightSpotNum] == Cols
  }

  /**
   * The codes of the guess slots that the colour matching has not consumed
   * yet: slot j is consumed when processed[j] holds the guessed code itself.
   */
  function Pending(guess: seq<int>, processed: seq<int>): multiset<int>
    requires |guess| == |processed|
  {
    if |guess| == 0 then multiset{}
    else
      (if processed[0] == guess[0] then multiset{} else multiset{guess[0]})
      + Pending(guess[1..], processed[1..])
  }

  /**
   * The inner loop of the colour matching: the secret peg secretElement
   * consumes the first guess slot that holds its colour and is not consumed
   * yet, or, when there is none, nothing changes.
   */
  method MatchColour(secretElement: int, guesses: seq<int>, processedColors: seq<int>)
    returns (processed: seq<int>, matched: bool)
    requires |guesses| == |processedColors|
    ensures |processed| == |guesses|
    ensures matched ==> exists j :: 0 <= j < |guesses| && FirstFree(secretElement, guesses, processedColors, j)
                                   && processed == processedColors[j := guesses[j]]
    ensures !matched ==> processed == processedColors
    ensures !matched ==> forall k :: 0 <= k < |guesses| ==> processedColors[k] == guesses[k] || guesses[k] != secretElement
  {
    processed := processedColors;
    matched := false;
    for j := 0 to |guesses|
      invariant processed == processedColors
      invariant forall k :: 0 <= k < j ==> processedColors[k] == guesses[k] || guesses[k] != secretElement
    {
      var guess := guesses[j];
      if processed[j] == guess {
        continue;
      }
      if secretElement == guess {
        processed := processed[j := guess];
        matched := true;
        assert FirstFree(secretElement, guesses, processedColors, j);
        break;
      }
    }
  }

  /**
   * The counting loop: the number of exact-spot matches, and the number of
   * colour matches found by the greedy consume-once matching, which is the
   * size of the multiset intersection.
   */
  method CountMatches(secret: seq<int>, guesses: seq<int>) returns (guessedColors: nat, guessedSpots: nat)
    requires |secret| == |guesses|
    ensures guessedSpots == ExactCount(secret, guesses)
    ensures guessedColors == SharedCount(secret, guesses)
  {
    guessedColors := 0;
    guessedSpots := 0;
    var processedColors := seq(|guesses|, _ => Empty);
    MatchStart(secret, guesses, processedColors);
    for i := 0 to |secret|
      invariant |processedColors| == |guesses|
      invariant guessedSpots == ExactCount(secret[..i], guesses[..i])
      invariant guessedColors + |multiset(secret[i..]) * Pending(guesses, processedColors)|
                == SharedCount(secret, guesses)
    {
      var secretElement := secret[i];
      ExactStep(secret, guesses, i);
      if secretElement == guesses[i] {
        guessedSpots := guessedSpots + 1;
      }
      var processed, matched := MatchColour(secretElement, guesses, processedColors);
      if matched {
        ghost var j :| 0 <= j < |guesses| && FirstFree(secretElement, guesses, processedColors, j)
                       && processed == processedColors[j := guesses[j]];
        MatchHit(secret, i, guesses, processedColors, j);
        guessedColors := guessedColors + 1;
      } else {
        MatchMiss(secret, i, guesses, processedColors);
      }
      processedColors := processed;
    }
    MatchEnd(secret, guesses, processedColors);
  }

  /**
   * Scores a guess against the secret: the exact-spot markers first, then
   * the colour markers, then empty cells, as Score specifies.
   */
  method AnalyzeGuessesAndGetHints(secret: seq<int>, guesses: seq<int>) returns (hints: seq<int>)
    requires |secret| == Cols && |guesses| == Cols
    ensures hints == Score(secret, guesses)
  {
    var guessedColors, guessedSpots := CountMatches(secret, guesses);
    ghost var spec := Score(secret, guesses);

    var hintRow := seq(Cols, _ => Empty);
    for i := 0 to guessedSpots
      invariant |hintRow| == Cols
      invariant forall k :: 0 <= k < i ==> hintRow[k] == RightSpotNum
      invariant forall k :: i <= k < Cols ==> hintRow[k] == Empty
    {
      hintRow := hintRow[i := RightSpotNum];
    }
    if Cols == guessedSpots {
      assert forall k :: 0 <= k < Cols ==> hintRow[k] == spec[k];
      hints := hintRow;
      return;
    }
    var colorsCountToMark := guessedColors - guessedSpots;
    var i := guessedSpots;
    while i < guessedSpots + colorsCountToMark
      invariant |hintRow| == Cols
      invariant guessedSpots <= i <= Cols
      invariant i == guessedSpots || i <= guessedColors
      invariant forall k :: 0 <= k < guessedSpots ==> hintRow[k] == RightSpotNum
      invariant forall k :: guessedSpots <= k < i ==> hintRow[k] == RightColorNum
      invariant forall k :: i <= k < Cols ==> hintRow[k] == Empty
    {
      hintRow := hintRow[i := RightColorNum];
      i := i + 1;
    }
    assert forall k :: 0 <= k < Cols ==> hintRow[k] == spec[k];
    hints := hintRow;
  }

  /** Checks whether a hint row is a win: it holds exactly Cols exact-spot markers. */
  method CheckWin(hints: seq<int>) returns (won: bool)
    ensures won <==> IsWin(hints)
  {
    var rightSpotCount := 0;
    for i := 0 to |hints|
      invariant rightSpotCount == multiset(hints[..i])[RightSpotNum]
    {
      assert hints[..i + 1] == hints[..i] + [hints[i]];
      if hints[i] == RightSpotNum {
        rightSpotCount := rightSpotCount + 1;
      }
    }
    assert hints[..|hints|] == hints;
    won := Cols == rightSpotCount;
  }

  // ---------------------------------------------------------------------
  // Properties of the hint row

  /**
   * A hint row has Cols cells, each a marker code, with every exact-spot
   * marker before every colour marker and every colour marker before every
   * empty cell.
   */
  lemma HintShape(secret: seq<int>, guess: seq<int>)
    requires |secret| == Cols && |guess| == Cols
    ensures var hint := Score(secret, guess);
      |hint| == Cols
      && (forall k :: 0 <= k < Cols ==> hint[k] in {Empty, RightColorNum, RightSpotNum})
      && (forall i, j :: 0 <= i <= j < Cols ==> hint[i] >= hint[j])
  {
  }

  /** The hint row holds one exact-spot marker per position where secret and guess agree. */
  lemma ExactMarkers(secret: seq<int>, guess: seq<int>)
    requires |secret| == Cols && |guess| == Cols
    ensures multiset(Score(secret, guess))[RightSpotNum] == ExactCount(secret, guess)
  {
    var hint := Score(secret, guess);
    assert hint == [hint[0], hint[1], hint[2], hint[3]];
  }

  /**
   * When the secret holds no empty code (every secret the game draws is in
   * 3..10), exact matches are shared colours too, so exact <= shared <= Cols,
   * and the hint row holds shared - exact colour markers.
   */
  lemma ColourMarkers(secret: seq<int>, guess: seq<int>)
    requires |secret| == Cols && |guess| == Cols
    requires Empty !in secret
    ensures ExactCount(secret, guess) <= SharedCount(secret, guess) <= Cols
    ensures multiset(Score(secret, guess))[RightColorNum]
            == SharedCount(secret, guess) - ExactCount(secret, guess)
  {
    ExactAtMostShared(secret, guess);
    var hint := Score(secret, guess);
    assert hint == [hint[0], hint[1], hint[2], hint[3]];
  }

  /** A hint row is a win exactly when the guess is the secret. */
  lemma WinIffGuessed(secret: seq<int>, guess: seq<int>)
    requires |secret| == Cols && |guess| == Cols
    ensures IsWin(Score(secret, guess)) <==> secret == guess
  {
    ExactMarkers(secret, guess);
    ExactAll(secret, guess);
  }

  /** Guessing the secret gives four exact-spot markers. */
  lemma PerfectGuess(secret: seq<int>)
    requires |secret| == Cols
    ensures Score(secret, secret) == [RightSpotNum, RightSpotNum, RightSpotNum, RightSpotNum]
  {
    ExactAll(secret, secret);
  }

  /**
   * Repeated colours: the second 7 of the secret finds the only 7 of the
   * guess already consumed, so the row is two colour markers (and not the
   * exact-spot marker and colour marker that mastermind_test.go expects).
   */
  lemma RepeatedColours()
    ensures Score([3, 5, 7, 7], [7, 8, 8, 5]) == [RightColorNum, RightColorNum, Empty, Empty]
  {
    var secret, guess := [3, 5, 7, 7], [7, 8, 8, 5];
    ExactCountOfRow(secret, guess);
    assert (multiset(secret) * multiset(guess))[Empty := 0] == multiset{5, 7};
    var hint := Score(secret, guess);
    assert hint == [hint[0], hint[1], hint[2], hint[3]];
  }

  /** G-Y-B-K against Y-G-B-R: B in its spot, G and Y swapped. */
  lemma SwappedColours()
    ensures Score([3, 5, 6, 7], [5, 3, 6, 8]) == [RightSpotNum, RightColorNum, RightColorNum, Empty]
  {
    var secret, guess := [3, 5, 6, 7], [5, 3, 6, 8];
    ExactCountOfRow(secret, guess);
    assert (multiset(secret) * multiset(guess))[Empty := 0] == multiset{3, 5, 6};
    var hint := Score(secret, guess);
    assert hint == [hint[0], hint[1], hint[2], hint[3]];
  }

  /**
   * G-G-Y-B against G-Y-Y-Y: G and Y both sit in their spots (positions 0
   * and 2) and are the only shared colours, so no colour marker is left.
   */
  lemma RepeatedGuessColour()
    ensures Score([3, 3, 5, 6], [3, 5, 5, 5]) == [RightSpotNum, RightSpotNum, Empty, Empty]
  {
    var secret, guess := [3, 3, 5, 6], [3, 5, 5, 5];
    ExactCountOfRow(secret, guess);
    assert (multiset(secret) * multiset(guess))[Empty := 0] == multiset{3, 5};
    var hint := Score(secret, guess);
    assert hint == [hint[0], hint[1], hint[2], hint[3]];
  }

  /** The exact count of a row of Cols pegs, position by position. */
  lemma ExactCountOfRow(secret: seq<int>, guess: seq<int>)
    requires |secret| == Cols && |guess| == Cols
    ensures ExactCount(secret, guess)
            == (if secret[0] == guess[0] then 1 else 0) + (if secret[1] == guess[1] then 1 else 0)
             + (if secret[2] == guess[2] then 1 else 0) + (if secret[3] == guess[3] then 1 else 0)
  {
    assert secret[..4] == secret && guess[..4] == guess;
    forall n | 1 <= n <= 4
      ensures ExactCount(secret[..n], guess[..n])
              == ExactCount(secret[..n - 1], guess[..n - 1]) + (if secret[n - 1] == guess[n - 1] then 1 else 0)
    {
      assert secret[..n][..n - 1] == secret[..n - 1] && guess[..n][..n - 1] == guess[..n - 1];
    }
  }

  /** All positions agree exactly when the two rows are equal. */
  lemma {:induction false} ExactAll(secret: seq<int>, guess: seq<int>)
    requires |secret| == |guess|
    ensures ExactCount(secret, guess) == |secret| <==> secret == guess
  {
    if |secret| > 0 {
      var n := |secret| - 1;
      ExactAll(secret[..n], guess[..n]);
      assert secret == secret[..n] + [secret[n]];
      assert guess == guess[..n] + [guess[n]];
    }
  }

  /** Without the empty code in the secret, every exact match is a shared colour. */
  lemma {:induction false} ExactAtMostShared(secret: seq<int>, guess: seq<int>)
    requires |secret| == |guess|
    requires Empty !in secret
    ensures ExactCount(secret, guess) <= SharedCount(secret, guess)
  {
    if |secret| > 0 {
      var n := |secret| - 1;
      var a, b := secret[n], guess[n];
      assert secret == secret[..n] + [a];
      assert guess == guess[..n] + [b];
      assert Empty !in secret[..n];
      ExactAtMostShared(secret[..n], guess[..n]);
      var before := (multiset(secret[..n]) * multiset(guess[..n]))[Empty := 0];
      var after := (multiset(secret) * multiset(guess))[Empty := 0];
      assert multiset(secret) == multiset(secret[..n]) + multiset{a};
      assert multiset(guess) == multiset(guess[..n]) + multiset{b};
      if a == b {
        assert after == before + multiset{a};
      } else {
        SubMultisetSize(before, after);
      }
    }
  }

  // ---------------------------------------------------------------------
  // Helper lemmas on multisets and on the pending guess slots

  lemma SubMultisetSize(small: multiset<int>, large: multiset<int>)
    requires small <= large
    ensures |small| <= |large|
  {
    assert large == small + (large - small);
  }

  lemma IntersectStep(a: int, rest: multiset<int>, pool: multiset<int>)
    ensures a in pool ==> |(multiset{a} + rest) * pool| == 1 + |rest * (pool - multiset{a})|
    ensures a !in pool ==> |(multiset{a} + rest) * pool| == |rest * pool|
  {
    if a in pool {
      assert (multiset{a} + rest) * pool == multiset{a} + rest * (pool - multiset{a});
    } else {
      assert (multiset{a} + rest) * pool == rest * pool;
    }
  }

  /** Guess slot j is the first unconsumed slot that holds the colour a. */
  predicate FirstFree(a: int, guess: seq<int>, processed: seq<int>, j: int)
    requires |guess| == |processed|
  {
    0 <= j < |guess| && processed[j] != guess[j] && guess[j] == a
    && forall k :: 0 <= k < j ==> processed[k] == guess[k] || guess[k] != a
  }

  lemma MatchStart(secret: seq<int>, guess: seq<int>, processed: seq<int>)
    requires |guess| == |processed|
    requires forall k :: 0 <= k < |processed| ==> processed[k] == Empty
    ensures |multiset(secret[0..]) * Pending(guess, processed)| == SharedCount(secret, guess)
  {
    InitiallyPending(guess, processed);
    assert multiset(secret) * multiset(guess)[Empty := 0]
        == (multiset(secret) * multiset(guess))[Empty := 0];
    assert secret[0..] == secret;
  }

  lemma MatchEnd(secret: seq<int>, guess: seq<int>, processed: seq<int>)
    requires |secret| == |guess| == |processed|
    ensures ExactCount(secret[..|secret|], guess[..|secret|]) == ExactCount(secret, guess)
    ensures |multiset(secret[|secret|..]) * Pending(guess, processed)| == 0
  {
    assert secret[..|secret|] == secret && guess[..|secret|] == guess;
    assert secret[|secret|..] == [];
  }

  lemma ExactStep(secret: seq<int>, guess: seq<int>, i: nat)
    requires |secret| == |guess| && i < |secret|
    ensures ExactCount(secret[..i + 1], guess[..i + 1])
            == ExactCount(secret[..i], guess[..i]) + (if secret[i] == guess[i] then 1 else 0)
  {
    assert secret[..i + 1][..i] == secret[..i];
    assert guess[..i + 1][..i] == guess[..i];
  }

  /** The secret peg i consumed guess slot j: one more shared colour is counted. */
  lemma MatchHit(secret: seq<int>, i: nat, guess: seq<int>, before: seq<int>, j: nat)
    requires i < |secret| && |guess| == |before|
    requires j < |guess| && before[j] != guess[j] && guess[j] == secret[i]
    ensures |multiset(secret[i..]) * Pending(guess, before)|
            == 1 + |multiset(secret[i + 1..]) * Pending(guess, before[j := guess[j]])|
  {
    var a, rest := secret[i], secret[i + 1..];
    assert secret[i..] == [a] + rest;
    assert multiset([a] + rest) == multiset{a} + multiset(rest);
    PendingConsume(guess, before, j);
    IntersectStep(a, multiset(rest), Pending(guess, before));
  }

  /** The secret peg i found no unconsumed slot of its colour: nothing is counted. */
  lemma MatchMiss(secret: seq<int>, i: nat, guess: seq<int>, before: seq<int>)
    requires i < |secret| && |guess| == |before|
    requires forall k :: 0 <= k < |guess| ==> before[k] == guess[k] || guess[k] != secret[i]
    ensures |multiset(secret[i..]) * Pending(guess, before)|
            == |multiset(secret[i + 1..]) * Pending(guess, before)|
  {
    var a, rest := secret[i], secret[i + 1..];
    assert secret[i..] == [a] + rest;
    assert multiset([a] + rest) == multiset{a} + multiset(rest);
    if a in Pending(guess, before) {
      var k := PendingWitness(guess, before, a);
      assert false;
    }
    IntersectStep(a, multiset(rest), Pending(guess, before));
  }

  lemma {:induction false} InitiallyPending(guess: seq<int>, processed: seq<int>)
    requires |guess| == |processed|
    requires forall k :: 0 <= k < |processed| ==> processed[k] == Empty
    ensures Pending(guess, processed) == multiset(guess)[Empty := 0]
  {
    if |guess| > 0 {
      InitiallyPending(guess[1..], processed[1..]);
      assert guess == [guess[0]] + guess[1..];
    }
  }

  lemma {:induction false} PendingWitness(guess: seq<int>, processed: seq<int>, a: int) returns (k: nat)
    requires |guess| == |processed|
    requires a in Pending(guess, processed)
    ensures k < |guess| && processed[k] != guess[k] && guess[k] == a
  {
    if processed[0] != guess[0] && guess[0] == a {
      k := 0;
    } else {
      var k' := PendingWitness(guess[1..], processed[1..], a);
      k := k' + 1;
    }
  }

  lemma {:induction false} PendingConsume(guess: seq<int>, processed: seq<int>, j: nat)
    requires |guess| == |processed| && j < |guess| && processed[j] != guess[j]
    ensures guess[j] in Pending(guess, processed)
    ensures Pending(guess, processed[j := guess[j]]) == Pending(guess, processed) - multiset{guess[j]}
  {
    var after := processed[j := guess[j]];
    if j == 0 {
      assert after[1..] == processed[1..];
    } else {
      PendingConsume(guess[1..], processed[1..], j - 1);
      assert after[1..] == processed[1..][j - 1 := guess[j]];
    }
  }
}
