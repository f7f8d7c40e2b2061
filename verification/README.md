# Nonogram engine of `pixel.py`, modelled in Dafny

`pixel.py` is a tkinter nonogram (picross) player. A puzzle gives each row and
column a clue: the lengths of its blocks of filled cells, in order. The player
marks cells with the left button (fill) and the right button (a "possible" or
"blank" marker, switched with the mouse wheel). After every click the game
re-evaluates every row and column. A line is shown as solved when its filled
cells, read as a bit pattern, are one of the legal patterns that the
`possibles` enumerator lists for its clue. When every line is solved, the
game collapses the grid to filled and empty cells and stops taking clicks.

This project models that engine and proves what it computes.

- `compositions.dfy` (`Compositions`): sums and the weak compositions of a
  number. These are the ways the free blanks of a line can be spread over its
  gaps. They are listed by a ranked enumeration (`Count`, `Unrank`, `Rank`).
  The module proves that the list holds each composition exactly once and
  that its length is a binomial coefficient.
- `bits.dfy` (`Bits`): lines as `seq<bool>` and their patterns as `nat`.
  The first cell is the most significant bit, so bit `b` is cell
  `L - 1 - b`. The module defines `Encode` and `Decode`, `<<`, and popcount.
- `lines.dfy` (`Lines`): `Runs` reads a clue off a line. `Layout` builds a
  line from a clue and gap sizes, and `Decompose` recovers the gaps. Each is
  the inverse of the other.
- `engine.dfy` (`Engine`): `possibles`.
  - `Possibles` lists one pattern per distribution of the floating blanks.
  - `Place` is the source's placement loop.
  - `ComputePossibles` is the whole enumerator.
  - The main theorem is that a number is listed exactly when it is the
    pattern of a line whose runs are the clue.
- `marks.dfy` (`Marks`): the mark tables, the selector, `value` and the
  solve-collapse map.
- `evaluation.dfy` (`Evaluation`): the `reduce`-based count and pattern of a
  line, and the solved/normal decision of `update`.
- `puzzles.dfy` (`Puzzles`): the three shipped puzzles, each proved
  well-formed. Every clue is non-empty, has positive parts and fits its line.
- `board.dfy` (`Board`): the game state: puzzle, grid, selector, and a
  `locked` flag for "the cells' click bindings are absent". It covers
  `check_solved`, `complete`, `start`, `reset`, clicks and the wheel.

## Model

| member | source | states |
|---|---|---|
| Compositions.CompositionsMembership | pixel.py:483-494 | a gap distribution is listed exactly when it has m+1 non-negative parts summing to the floating blanks (what the partitions, zero padding and permutations produce together) |
| Compositions.CompositionsDistinct | pixel.py:494 | no distribution is listed twice (the `set` de-duplication) |
| Compositions.CountIsBinomial | pixel.py:489-494 | there are C(n+k-1, k-1) distributions of n blanks over k >= 1 gaps |
| Compositions.RankUnrank | pixel.py:489-494 | the position of the distribution listed at position i is i, so positions identify distributions |
| Compositions.UnrankRank | pixel.py:489-494 | every distribution of n blanks over k gaps is the one listed at its own position |
| Compositions.CompositionIndex | pixel.py:489-494 | every distribution of n blanks over k gaps has a position in the list |
| Bits.DecodeBit | pixel.py:461 | cell i of a line of length L is bit L-1-i of its pattern |
| Bits.EncodeDecode | pixel.py:461-463 | every number below 2^L is the pattern of exactly the line decoded from it |
| Bits.EncodeOnes | pixel.py:510 | a block of c filled cells has pattern 2^c - 1, which is what `int('1' * c, 2)` gives for the positive block lengths of a well-formed clue |
| Lines.RunsOfLayout | pixel.py:500-511 | blocks placed with at least one blank between neighbours have exactly the clue as their runs |
| Lines.LayoutOfDecompose | pixel.py:496-505 | every line is the layout of its own runs with its own gaps, so each line arises from some gap vector |
| Lines.LayoutInjective | pixel.py:504-512 | different separated gap vectors give different lines |
| Engine.MandatoryBlanks | pixel.py:498-500 | the mandatory gaps are m+1 entries, 0 at both ends and 1 inside, summing to m-1 |
| Engine.Gaps | pixel.py:505 | mandatory plus floating blanks give separated gaps whose sum is m-1 plus the floating blanks |
| Engine.GapsInjective | pixel.py:505 | different floating distributions give different gap vectors |
| Engine.Place | pixel.py:502-511 | the offset loop over the reversed clue and the gaps g[m]..g[1] computes the pattern of the laid-out line |
| Engine.ComputePossibles | pixel.py:482-513 | the enumerator's list contains p exactly when p < 2^L and the runs of p's line are the clue |
| Engine.PlaceAll | pixel.py:502-512 | the outer loop yields, position by position, the pattern of each distribution it is given |
| Engine.PatternSound | pixel.py:502-511 | the pattern placed from any distribution is below 2^L and its line has exactly the clue as runs |
| Engine.PatternListed | pixel.py:489-512 | the pattern placed from any distribution of the floating blanks is in the list |
| Engine.PatternInjective | pixel.py:502-511 | two distributions of the same blanks that place the same pattern are the same distribution |
| Engine.PatternsOfDistinct | pixel.py:502-512 | placing a list of distinct distributions gives a list of distinct patterns |
| Engine.FloatingOfLine | pixel.py:496-505 | the floating blanks read off any line with the clue as runs are a distribution of the right size whose placed pattern is that line's pattern |
| Engine.PlaceStepValue | pixel.py:508-511 | one loop step puts c ones above the gap above the cells placed so far: the pattern grows by (2^c - 1) << (offset + gap) |
| Engine.PossiblesSound | pixel.py:496-513 | every listed pattern is below 2^L and its runs are exactly the clue |
| Engine.PossiblesComplete | pixel.py:483-505 | every line whose runs are the clue has its pattern listed |
| Engine.PossiblesExact | pixel.py:482-513 | p is listed if and only if p < 2^L and its line's runs are the clue |
| Engine.LineInPossibles | pixel.py:465 | a line's pattern is listed if and only if its runs are the clue |
| Engine.PossiblesDistinct | pixel.py:489-512 | no pattern is listed twice |
| Engine.PossiblesCount | pixel.py:496-499 | a clue of m >= 1 blocks has C(slack+m, m) patterns, slack = L - sum(clue) - (m-1) |
| Engine.TightClue | pixel.py:496-500 | a clue with no slack, and the empty clue, have exactly one pattern |
| Engine.PossiblesPopCount | pixel.py:508-511 | every listed pattern has exactly sum(clue) set bits |
| Marks.Change | pixel.py:150-165 | a click leaves a cell Empty, or gives it the applied mark, or leaves it unchanged |
| Marks.ChangeRule | pixel.py:150-165 | a Filled or Blank click clears a Filled or Blank cell and otherwise writes its mark; a Possible click leaves those cells alone and toggles Empty and Possible |
| Marks.PrimaryFills | pixel.py:151-155 | the left button fills exactly Empty and Possible cells and empties every other cell |
| Marks.PrimaryTwice | pixel.py:151-155 | two left clicks restore exactly the Empty and Filled cells |
| Marks.SecondaryNeverFills | pixel.py:156-165 | the right button yields Filled only on a Filled cell under the Possible selector; under Blank it empties a Filled cell |
| Marks.SecondaryPossibleTwice | pixel.py:156-160 | two right clicks with the Possible selector restore any cell |
| Marks.Switch | pixel.py:146-148 | switching always changes the selector |
| Marks.SwitchTwice | pixel.py:146-148 | switching twice gives back the selector |
| Marks.Value | pixel.py:172-176 | a cell's value is 0 or 1 |
| Marks.Collapse | pixel.py:178-182 | a collapsed cell is Empty or Filled |
| Marks.CollapseKeepsValue | pixel.py:172-182 | collapsing keeps the value, is idempotent, and yields Filled exactly for value 1 |
| Evaluation.FilledCountIsPopCount | pixel.py:462 | `not_empty` is the number of Filled cells |
| Evaluation.ValuePrefix | pixel.py:463 | after k cells the `reduce` accumulator, shifted by its own shift, is the pattern of those cells shifted past the rest; the shift is L-1 after one cell and 0 after that |
| Evaluation.LineValueIsEncode | pixel.py:463 | `value` is the pattern of the Filled cells, cell i at bit L-1-i, also for L = 1 |
| Evaluation.LineValueIsWeightedSum | pixel.py:463 | `value` is the sum of value(cell i) << (L-1-i) |
| Evaluation.EvaluateSolved | pixel.py:465-468 | a line is marked solved if and only if the runs of its Filled cells are its clue |
| Evaluation.CountGuardRedundant | pixel.py:465 | the count test never rejects a line the membership test accepts |
| Evaluation.EvaluateDependsOnMask | pixel.py:461-465 | lines with the same Filled cells get the same status |
| Puzzles.KiwiRows | pixel.py:12-26 | Kiwi has 15 row clues, each non-empty, positive and fitting 15 cells |
| Puzzles.KiwiCols | pixel.py:27-41 | Kiwi has 15 column clues, each non-empty, positive and fitting 15 cells |
| Puzzles.Kiwi | pixel.py:9-41 | the Kiwi puzzle is well-formed |
| Puzzles.MonkRows | pixel.py:46-55 | Monk has 10 row clues, each fitting 10 cells |
| Puzzles.MonkCols | pixel.py:56-65 | Monk has 10 column clues, each fitting 10 cells |
| Puzzles.Monk | pixel.py:43-65 | the Monk puzzle is well-formed |
| Puzzles.CandleRows | pixel.py:70-74 | Candle has 5 row clues, each fitting 5 cells |
| Puzzles.CandleCols | pixel.py:75-79 | Candle has 5 column clues, each fitting 5 cells |
| Puzzles.Candle | pixel.py:67-79 | the Candle puzzle is well-formed |
| Board.RowSolved | pixel.py:460-468 | row r is solved if and only if the runs of its Filled cells are its clue |
| Board.ColSolved | pixel.py:470-478 | column c is solved if and only if the runs of its Filled cells are its clue |
| Board.AllSolvedIffSolution | pixel.py:527-529 | the board completes if and only if the Filled cells solve every row and column clue |
| Board.CollapseKeepsStatus | pixel.py:535-537 | collapsing the grid changes no row's or column's status |
| Board.CollapseKeepsComplete | pixel.py:535-537 | a collapsed grid is complete if and only if the grid was |
| Board.Update | pixel.py:459-480 | after `update` and `check_solved`, a complete game is locked and its grid becomes the collapse of the old grid (`set_solved` on every cell), and it is still complete; an incomplete one is unchanged |
| Board.NewGame | pixel.py:398-403 | a new game has every cell Empty and no click bindings |
| Board.Start | pixel.py:560-564 | `start` binds the clicks, which stay bound unless the grid already completes the puzzle |
| Board.ClickPrimary | pixel.py:282-284 | a left click keeps the puzzle, the grid shape and the selector |
| Board.ClickSecondary | pixel.py:286-288 | a right click keeps the puzzle, the grid shape and the selector |
| Board.SwitchSelector | pixel.py:543-544 | the wheel changes the selector and nothing else, in every state |
| Board.Reset | pixel.py:572-578 | `reset` keeps the puzzle, the grid shape and the selector |
| Board.EmptyNotSolved | pixel.py:465-468 | every row and column of an all-Empty grid is Normal, since every clue of a well-formed puzzle has a block; so the empty grid never completes |
| Board.ResetClears | pixel.py:572-578 | after `reset` every cell is Empty, every row and column is Normal and the cells take clicks; resetting twice equals resetting once |
| Board.StartNewGame | pixel.py:553-564 | starting a new game leaves every cell Empty with the clicks bound |
| Board.OperationsKeepConsistent | pixel.py:282-311 | every operation keeps the game consistent: the clicks are bound, or every cell is Empty, or every line is solved and every cell collapsed |
| Board.CompletionIsTerminal | pixel.py:535-540 | once complete, the game ignores both buttons and stays complete |
| Board.ClickChangesOneCell | pixel.py:282-284 | an accepted left click changes only the clicked cell, apart from the completion collapse |
| Board.SecondaryChangesOneCell | pixel.py:286-288 | an accepted right click changes only the clicked cell, which gets the selector's mark for its old state, apart from the completion collapse |
| Board.BlankClearsFilled | pixel.py:161-165 | with the Blank selector, a right click on a Filled cell leaves it Empty, even when the game then completes |

## Left out

- Widgets, layout, fonts, cell borders and clue-label styling: these are rendering only, with no logic.
- Mark texts: `MARK_TEXT_MAP`, `get_mark_text` and `get_state_text` only produce label text.
- Timer, elapsed-time formatting and `messagebox` prompts: these are I/O and the clock.
- `clean_exit` destroys the window when the puzzle completes and when the start prompt is declined. The model keeps the completed game in its locked state instead.
- The partition generator, zero padding and `set(permutations(...))` are not modelled step by step.
  - The model enumerates the same distributions directly, each exactly once, by composition rank.
  - The order of the list is therefore not the source's, which depends on set iteration.
  - The source only tests membership in the list, so the order does not matter.
- A clue that does not fit its line (negative slack) is excluded by `Fits`.
  - In that case the source produces a negative gap, and a negative shift makes Python raise `ValueError`.
  - Every shipped clue fits, and `Puzzles` proves it.
- `Fits` also requires every block length to be positive. On a block of length 0 the source raises `ValueError` at pixel.py:510, because `int('', 2)` is not a number. No shipped clue has such a block, and `Puzzles` proves it.
- The empty clue is modelled: its only pattern is 0. No shipped puzzle has one.
- Python's `reduce` without an initial value fails on an empty line. The model requires lines of at least one cell, which every well-formed puzzle has.
- Clue statuses are derived, not stored.
  - The source keeps a solved/normal state in each clue frame and recomputes all of them on every `update`.
  - The model computes them from the grid (`RowStatus`, `ColStatus`).
  - Completion does not re-run `update` after collapsing, and `CollapseKeepsStatus` shows the stored statuses still agree with the grid.
- `pixel.py` performs no validation of clues. The model proves the shipped data well-formed instead.
- Event binding is reduced to the `locked` flag.
  - The mouse wheel is bound to the window and never unbound, so `SwitchSelector` works even after completion.
- The shipped puzzles are proved well-formed, not solvable. A solution grid for each is not part of this model.
- Board.ClickPrimary states only that the game keeps its shape. The effect of a left click on the cells is stated by `ClickChangesOneCell`, the mark rule by `Marks.PrimaryFills`, and completion by `Update`.
- Board.ClickSecondary states only that the game keeps its shape. The effect of a right click on the cells is stated by `SecondaryChangesOneCell` and `BlankClearsFilled`, the mark rules by the `Marks` lemmas, and completion by `Update`.
