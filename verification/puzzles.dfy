/**
 * The shipped puzzles and the shape every puzzle must have: one clue per
 * row and per column, each clue a non-empty list of positive block lengths
 * that fits in its line.
 */
module Puzzles {
  import opened Engine

  datatype Puzzle = Puzzle(height: nat, width: nat, rowClues: seq<seq<nat>>, colClues: seq<seq<nat>>)

  /** A clue the line-possibility engine accepts for a line of `length` cells. */
  predicate ClueFits(clue: seq<nat>, length: nat)
  {
    |clue| >= 1 && Fits(clue, length)
  }

  /** A puzzle the game can be played on. */
  predicate WellFormed(p: Puzzle)
  {
    && p.height >= 1 && p.width >= 1
    && |p.rowClues| == p.height && |p.colClues| == p.width
    && (forall r :: 0 <= r < p.height ==> ClueFits(p.rowClues[r], p.width))
    && (forall c :: 0 <= c < p.width ==> ClueFits(p.colClues[c], p.height))
  }

  /** The row clues of `GameData.Kiwi`, top to bottom. */
  function KiwiRows(): (clues: seq<seq<nat>>)
    ensures |clues| == 15 && forall r :: 0 <= r < |clues| ==> ClueFits(clues[r], 15)
  {
    [[1, 1], [1, 1], [2, 1, 1, 2], [3, 3], [4, 3, 1], [2, 1, 4], [4, 1, 2], [5, 1, 1],
     [8], [1, 6], [1, 3], [3, 2], [2, 1], [3, 1], [2, 1, 1, 1]]
  }

  /** The column clues of `GameData.Kiwi`, left to right. */
  function KiwiCols(): (clues: seq<seq<nat>>)
    ensures |clues| == 15 && forall c :: 0 <= c < |clues| ==> ClueFits(clues[c], 15)
  {
    [[1], [1], [1], [1, 1], [1, 3], [2], [1, 4], [1, 4, 1], [4, 1, 1], [1, 4, 1, 1],
     [2, 2, 3, 4], [5, 2, 3], [3, 4, 1], [1, 2, 6], [1, 6, 1]]
  }

  /** `GameData.Kiwi`: 15 rows of 15 cells. */
  function Kiwi(): (p: Puzzle)
    ensures WellFormed(p)
  {
    Puzzle(15, 15, KiwiRows(), KiwiCols())
  }

  /** The row clues of `GameData.Monk`, top to bottom. */
  function MonkRows(): (clues: seq<seq<nat>>)
    ensures |clues| == 10 && forall r :: 0 <= r < |clues| ==> ClueFits(clues[r], 10)
  {
    [[7], [3, 1, 1], [2, 1, 1, 1], [1, 1, 3], [1, 4, 1], [3, 2], [3, 3], [6, 1], [2, 2], [5, 2, 1]]
  }

  /** The column clues of `GameData.Monk`, left to right. */
  function MonkCols(): (clues: seq<seq<nat>>)
    ensures |clues| == 10 && forall c :: 0 <= c < |clues| ==> ClueFits(clues[c], 10)
  {
    [[1, 2, 1], [8, 1], [3, 5], [1, 1, 3], [1, 1, 1, 1, 1], [2, 2, 1], [1, 1, 1, 1, 1], [1, 1, 2, 2], [8], [1, 1, 1]]
  }

  /** `GameData.Monk`: 10 rows of 10 cells. */
  function Monk(): (p: Puzzle)
    ensures WellFormed(p)
  {
    Puzzle(10, 10, MonkRows(), MonkCols())
  }

  /** The row clues of `GameData.Candle`, top to bottom. */
  function CandleRows(): (clues: seq<seq<nat>>)
    ensures |clues| == 5 && forall r :: 0 <= r < |clues| ==> ClueFits(clues[r], 5)
  {
    [[1, 1], [1, 1, 1], [5], [1], [3]]
  }

  /** The column clues of `GameData.Candle`, left to right. */
  function CandleCols(): (clues: seq<seq<nat>>)
    ensures |clues| == 5 && forall c :: 0 <= c < |clues| ==> ClueFits(clues[c], 5)
  {
    [[3], [1, 1], [5], [1, 1], [2]]
  }

  /** `GameData.Candle`: 5 rows of 5 cells. */
  function Candle(): (p: Puzzle)
    ensures WellFormed(p)
  {
    Puzzle(5, 5, CandleRows(), CandleCols())
  }
}
