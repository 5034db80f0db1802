# Mastermind in Dafny

A model of the console Mastermind game in `mastermind/mastermind.go`.
The game draws a secret row of four pegs from eight colours. The player
gets up to nine attempts to guess it. Each guess is a line of colour
symbols separated by `-`. The program records every guess on a 9×4 board
and its hint row on a second board. The bottom row holds the first attempt.

The hint row has three kinds of cell:

- one exact-spot marker (code 2) per position where the guess and the secret
  agree;
- then one colour marker (code 1) per colour the two rows share, counted
  with multiplicity, that is not already an exact match;
- then empty cells (code 0).

The game ends when a hint row holds four exact-spot markers, or after nine
attempts.

The project has five modules, one per file:

- `Constants` (`constants.dfy`): the board size, the number of colours and
  the marker codes.
- `Codec` (`codec.dfy`):
  - the code-to-symbol table and its inverse, built by `ReverseMapping`;
  - the conversion of a player's tokens into codes (`Symbols2Nums`,
    specified by `Decode`);
  - the display conversion back to symbols (`Encode`).
- `Scoring` (`scoring.dfy`):
  - the hint engine `AnalyzeGuessesAndGetHints` and the win check
    `CheckWin`;
  - both are proved against the specification functions `ExactCount`,
    `SharedCount` and `Score`, and against `IsWin`;
  - the specification is the multiset intersection of the two rows, with
    the empty code left out. The engine's greedy consume-once matching is
    proved to compute exactly that.
- `Board` (`board.dfy`): the two 9×4 matrices, as `array2<int>`, with
  `InitMatrix` and `UpdateMatrix`.
- `Game` (`game.dfy`):
  - the drawing of the secret (`InitSecret`) and one turn (`PlayTurn`);
  - the turn loop (`RunAttempts`) and the whole program (`PlayGame`);
  - the predicate `Shows` states what the two boards hold after k attempts;
  - the predicate `Ended` states how the game ended.

Scoring accepts any integer codes. The engine uses the code 0 as the "not
yet consumed" mark of a guess slot. So a guess slot holding 0, which is what
an unknown token decodes to, is treated as consumed from the start. A 0 in
the secret never finds a colour match. The specification says the same by
leaving 0 out of the shared colours. The secrets the game draws use only
codes 3..10.

The test in `mastermind/mastermind_test.go` expects `{2, 1, 0, 0}` for the
secret `3-5-7-7` against the guess `7-8-8-5`. Its failure condition is
inverted: it reports an error only when the result equals that
expectation. `Scoring.RepeatedColours` proves that the engine returns
`[1, 1, 0, 0]`. The 5 and the first 7 each earn a colour marker, and no
position agrees. So the test would pass, but only because two mistakes
cancel out.

## Model

| member | source | states |
|---|---|---|
| Scoring.AnalyzeGuessesAndGetHints | mastermind/mastermind.go:121-156 | the hint row is `Score(secret, guesses)`: ExactCount exact-spot markers, then SharedCount − ExactCount colour markers, then empty cells; when all four spots match it returns right after the exact-spot markers |
| Scoring.CountMatches | mastermind/mastermind.go:122-139 | guessedSpots is the number of equal positions, and guessedColors, found by consuming each guess slot at most once, is the size of the multiset intersection of secret and guess without the empty code |
| Scoring.MatchColour | mastermind/mastermind.go:129-138 | a secret peg consumes the first unconsumed guess slot of its colour and reports a match; when every slot of its colour is consumed it reports no match and changes nothing |
| Scoring.CheckWin | mastermind/mastermind.go:103-111 | true exactly when the hint row holds Cols exact-spot markers |
| Scoring.HintShape | mastermind/mastermind.go:141-155 | a hint row has Cols cells, each an empty, colour or exact-spot code, in non-increasing order: exact-spot markers first, then colour markers, then empty cells |
| Scoring.ExactMarkers | mastermind/mastermind.go:125-145 | the number of exact-spot markers in the hint row is the number of positions where secret and guess agree |
| Scoring.ColourMarkers | mastermind/mastermind.go:151-154 | for a secret without the empty code: exact ≤ shared ≤ Cols, so the colour count is never negative and the fill never writes past the row; the row holds shared − exact colour markers |
| Scoring.ExactAtMostShared | mastermind/mastermind.go:125-138 | for a secret without the empty code, every exact match is also a shared colour |
| Scoring.ExactAll | mastermind/mastermind.go:125-128 | all positions agree exactly when the two rows are equal |
| Scoring.WinIffGuessed | mastermind/mastermind.go:103-111 | the hint row of a guess is a win exactly when the guess equals the secret |
| Scoring.PerfectGuess | mastermind/mastermind.go:143-149 | guessing the secret gives four exact-spot markers |
| Scoring.RepeatedColours | mastermind/mastermind_test.go:5-13 | the engine scores secret 3-5-7-7 against guess 7-8-8-5 as [1, 1, 0, 0]: the second 7 finds the guess's only 7 already consumed |
| Scoring.SwappedColours | mastermind/mastermind.go:121-156 | G-Y-B-K against Y-G-B-R scores [2, 1, 1, 0] |
| Scoring.RepeatedGuessColour | mastermind/mastermind.go:121-156 | G-G-Y-B against G-Y-Y-Y scores [2, 2, 0, 0]: positions 0 and 2 agree, and the repeated guess colour earns no extra marker |
| Codec.ReverseMapping | mastermind/mastermind.go:68-74 | the built table maps every symbol of the code table back to its code, and holds no other symbol, whatever order the entries are visited in |
| Codec.Symbols2Nums | mastermind/mastermind.go:95-101 | the row is `Decode`: token i becomes its code, an unknown token becomes the empty code, and slots past the last token stay empty |
| Codec.SymbolTableInjective | mastermind/mastermind.go:22-34 | no two codes share a display symbol, and the table covers exactly the codes 0..10 |
| Codec.SymbolTableSize | mastermind/mastermind.go:22-34 | the table has eleven entries |
| Codec.SymbolRoundTrip | mastermind/mastermind.go:35 | with the inverse table, every code reads back from its symbol, and every symbol the inverse knows reads as a code in 0..10 that displays as that symbol |
| Codec.Encode | mastermind/mastermind.go:188-191 | each code becomes its one-character display symbol, and two cells show the same symbol exactly when they hold the same code; it is defined only for codes in the table, which holds every code the board, the hints and the secret can contain (the same lookup as lines 162 and 166) |
| Codec.DecodeEncode | mastermind/mastermind.go:188-191 | converting a row of codes to display symbols and reading them back with the inverse table gives the row back |
| Codec.DecodedCodes | mastermind/mastermind.go:95-101 | every decoded code is in 0..10, and a token that no code displays as becomes the empty code |
| Board.InitMatrix | mastermind/mastermind.go:87-93 | a fresh Rows × Cols board of empty cells |
| Board.UpdateMatrix | mastermind/mastermind.go:113-119 | row Rows − attempt takes the row's values in its first cells, and every other cell keeps its value |
| Game.ScopeStart | mastermind/mastermind.go:79 | the first colour code is 3, and the eight codes from it are exactly the table's colour codes, none of them the empty code or a marker |
| Game.InitSecret | mastermind/mastermind.go:76-85 | the secret has Cols pegs, peg i is the scope start plus draw i, each peg is a colour code in 3..10, and the secret holds no empty code |
| Game.PlayTurn | mastermind/mastermind.go:50-62 | the guess is line attempt decoded; after the turn both boards show attempt + 1 attempts, with the new guess row and its score row at the new attempt's row; guessed holds exactly when the guess equals the secret |
| Game.RunAttempts | mastermind/mastermind.go:40-64 | the boards show every attempt made; no attempt before the last guessed the secret; guessed tells whether the last one did; the game stops after a win, after Rows attempts, or aborted when the lines run out or a line has more than Cols tokens |
| Game.PlayGame | mastermind/mastermind.go:35-66 | the inverse table inverts the symbol table, the secret is drawn from the draws, and the turn loop's outcome and boards are as RunAttempts states |
| Game.PlayPerfectGame | mastermind/mastermind.go:47-64 | a game whose first line spells out the secret is won at the first attempt |

## Left out

- `printBoard`, `printInstructions` and `printResult` only write to the console. `Codec.Encode` models the code-to-symbol conversion they do.
- The console read is not modelled. This covers `bufio.Reader`, `strings.TrimSpace` and `strings.Split` on `-`. The lines arrive already split into tokens. This assumes one line per attempt. That holds only for line-at-a-time (terminal) input: each turn builds a new `bufio.Reader`, so with piped input the lines an earlier reader buffered are lost, and a later read may hit EOF and end in `log.Fatal`.
- A failed read ends the program through `log.Fatal`. The model represents this as `aborted` when the lines run out.
- The time-seeded random source is not modelled. `InitSecret` takes the draws of `rand.Intn(8)` as a parameter.
- Go's map iteration order in `reverseMapping` is modelled as an arbitrary choice among the remaining entries.
- Codec.Symbols2Nums: requires at most Cols tokens. The Go function panics on the fifth token by indexing past its fixed-size array. `Game.RunAttempts` models that panic as `aborted`, before the call.
- Board.UpdateMatrix: requires an attempt in 1..Rows and a row of at most Cols values. Outside these the Go code panics, and the game never calls it that way.
- The `[][]int` boards are a single `array2<int>` each. The Go rows are separately allocated slices that never alias, so every cell is still updated in place.
- The local slices `processedColors`, `hints`, `nums` and `secret` are `seq` values updated by index assignment. They are local to their function, so updating them in place is not observable.
- `AnalyzeGuessesAndGetHints` is split into three methods: the inner matching loop (`MatchColour`), the counting loop (`CountMatches`) and the hint fill. This keeps each proof small; together they run the source's steps in the same order.
- Game.RunAttempts: `aborted` covers both ways the program can stop mid-game (the fatal read error and the index-out-of-range panic). The model does not tell them apart.
- The helper `isEqual` and the test in `mastermind/mastermind_test.go` are not part of this model. The result the test checks is stated as `Scoring.RepeatedColours`.
