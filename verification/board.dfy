/**
 * The game: a puzzle, the grid of marks, the right-button selector and
 * whether the cells accept clicks. Every click re-evaluates all rows and
 * columns; once they are all solved the grid collapses and clicks stop.
 */
module Board {
  import opened Bits
  import opened Lines
  import opened Engine
  import opened Marks
  import opened Evaluation
  import opened Puzzles

  type Grid = seq<seq<Mark>>

  /**
   * `locked` is true while the cells' click bindings are absent: before the
   * game starts and after it is complete.
   */
  datatype Game = Game(puzzle: Puzzle, grid: Grid, selector: Selector, locked: bool)

  /** The grid has one row of `width` cells per puzzle row. */
  predicate Shaped(p: Puzzle, grid: Grid)
  {
    |grid| == p.height && forall r :: 0 <= r < |grid| ==> |grid[r]| == p.width
  }

  predicate Valid(game: Game)
  {
    WellFormed(game.puzzle) && Shaped(game.puzzle, game.grid)
  }

  /** Column `c` of the grid, top to bottom. */
  function Column(grid: Grid, c: nat): (line: seq<Mark>)
    requires forall r :: 0 <= r < |grid| ==> c < |grid[r]|
    ensures |line| == |grid| && forall r :: 0 <= r < |grid| ==> line[r] == grid[r][c]
  {
    seq(|grid|, r requires 0 <= r < |grid| => grid[r][c])
  }

  /** The status `update` gives row `r`. */
  function RowStatus(p: Puzzle, grid: Grid, r: nat): LineStatus
    requires WellFormed(p) && Shaped(p, grid) && r < p.height
  {
    Evaluate(p.rowClues[r], grid[r])
  }

  /** The status `update` gives column `c`. */
  function ColStatus(p: Puzzle, grid: Grid, c: nat): LineStatus
    requires WellFormed(p) && Shaped(p, grid) && c < p.width
  {
    Evaluate(p.colClues[c], Column(grid, c))
  }

  /** `check_solved`: every row and every column is solved. */
  predicate AllSolved(p: Puzzle, grid: Grid)
    requires WellFormed(p) && Shaped(p, grid)
  {
    && (forall r :: 0 <= r < p.height ==> RowStatus(p, grid, r) == Solved)
    && (forall c :: 0 <= c < p.width ==> ColStatus(p, grid, c) == Solved)
  }

  /** The game's puzzle is complete. */
  predicate Complete(game: Game)
    requires Valid(game)
  {
    AllSolved(game.puzzle, game.grid)
  }

  /** The Filled cells of the grid solve the puzzle: every row's and column's runs are its clue. */
  predicate IsSolution(p: Puzzle, grid: Grid)
    requires Shaped(p, grid) && |p.rowClues| == p.height && |p.colClues| == p.width
  {
    && (forall r :: 0 <= r < p.height ==> Runs(Mask(grid[r])) == p.rowClues[r])
    && (forall c :: 0 <= c < p.width ==> Runs(Mask(Column(grid, c))) == p.colClues[c])
  }

  lemma RowSolved(p: Puzzle, grid: Grid, r: nat)
    requires WellFormed(p) && Shaped(p, grid) && r < p.height
    ensures RowStatus(p, grid, r) == Solved <==> Runs(Mask(grid[r])) == p.rowClues[r]
  {
    EvaluateSolved(p.rowClues[r], grid[r]);
  }

  lemma ColSolved(p: Puzzle, grid: Grid, c: nat)
    requires WellFormed(p) && Shaped(p, grid) && c < p.width
    ensures ColStatus(p, grid, c) == Solved <==> Runs(Mask(Column(grid, c))) == p.colClues[c]
  {
    EvaluateSolved(p.colClues[c], Column(grid, c));
  }

  /** The game declares the puzzle complete exactly when the grid is a solution. */
  lemma AllSolvedIffSolution(p: Puzzle, grid: Grid)
    requires WellFormed(p) && Shaped(p, grid)
    ensures AllSolved(p, grid) <==> IsSolution(p, grid)
  {
    forall r | 0 <= r < p.height
      ensures RowStatus(p, grid, r) == Solved <==> Runs(Mask(grid[r])) == p.rowClues[r]
    {
      RowSolved(p, grid, r);
    }
    forall c | 0 <= c < p.width
      ensures ColStatus(p, grid, c) == Solved <==> Runs(Mask(Column(grid, c))) == p.colClues[c]
    {
      ColSolved(p, grid, c);
    }
  }

  /** A grid of `height` rows of `width` Empty cells. */
  function EmptyGrid(height: nat, width: nat): (grid: Grid)
    ensures |grid| == height
    ensures forall r :: 0 <= r < height ==> |grid[r]| == width && forall c :: 0 <= c < width ==> grid[r][c] == Empty
  {
    seq(height, _ => seq(width, _ => Empty))
  }

  /** `set_solved` on every cell. */
  function CollapseGrid(grid: Grid): (result: Grid)
    ensures |result| == |grid|
    ensures forall r :: 0 <= r < |grid| ==>
      |result[r]| == |grid[r]| && forall c :: 0 <= c < |grid[r]| ==> result[r][c] == Collapse(grid[r][c])
  {
    seq(|grid|, r requires 0 <= r < |grid| => seq(|grid[r]|, c requires 0 <= c < |grid[r]| => Collapse(grid[r][c])))
  }

  /** The grid with cell (`r`, `c`) replaced by `m`. */
  function SetCell(grid: Grid, r: nat, c: nat, m: Mark): (result: Grid)
    requires r < |grid| && c < |grid[r]|
    ensures |result| == |grid|
    ensures forall i :: 0 <= i < |grid| ==> |result[i]| == |grid[i]|
    ensures forall i, j :: 0 <= i < |grid| && 0 <= j < |grid[i]| ==>
      result[i][j] == if i == r && j == c then m else grid[i][j]
  {
    grid[r := grid[r][c := m]]
  }

  /** Every cell is Empty. */
  predicate AllEmpty(grid: Grid)
  {
    forall r, c :: 0 <= r < |grid| && 0 <= c < |grid[r]| ==> grid[r][c] == Empty
  }

  /** Every cell is Empty or Filled, as after a collapse. */
  predicate Collapsed(grid: Grid)
  {
    forall r, c :: 0 <= r < |grid| && 0 <= c < |grid[r]| ==> grid[r][c] == Empty || grid[r][c] == Filled
  }

  /** Collapsing the grid changes no row's or column's status. */
  lemma CollapseKeepsStatus(p: Puzzle, grid: Grid)
    requires WellFormed(p) && Shaped(p, grid)
    ensures Shaped(p, CollapseGrid(grid))
    ensures forall r :: 0 <= r < p.height ==> RowStatus(p, CollapseGrid(grid), r) == RowStatus(p, grid, r)
    ensures forall c :: 0 <= c < p.width ==> ColStatus(p, CollapseGrid(grid), c) == ColStatus(p, grid, c)
  {
    var after := CollapseGrid(grid);
    forall r, c | 0 <= r < |grid| && 0 <= c < |grid[r]|
      ensures (after[r][c] == Filled) == (grid[r][c] == Filled)
    {
      CollapseKeepsValue(grid[r][c]);
    }
    forall r | 0 <= r < p.height
      ensures RowStatus(p, after, r) == RowStatus(p, grid, r)
    {
      assert Mask(after[r]) == Mask(grid[r]);
      EvaluateDependsOnMask(p.rowClues[r], after[r], grid[r]);
    }
    forall c | 0 <= c < p.width
      ensures ColStatus(p, after, c) == ColStatus(p, grid, c)
    {
      assert Mask(Column(after, c)) == Mask(Column(grid, c));
      EvaluateDependsOnMask(p.colClues[c], Column(after, c), Column(grid, c));
    }
  }

  /** A collapsed grid is complete exactly when the grid was. */
  lemma CollapseKeepsComplete(p: Puzzle, grid: Grid)
    requires WellFormed(p) && Shaped(p, grid)
    ensures Shaped(p, CollapseGrid(grid))
    ensures AllSolved(p, CollapseGrid(grid)) <==> AllSolved(p, grid)
  {
    CollapseKeepsStatus(p, grid);
  }

  /**
   * `update` followed by `check_solved`: when every line is solved the game
   * completes, collapsing every cell and unbinding the clicks; otherwise
   * nothing changes beyond the (derived) line statuses.
   */
  function Update(game: Game): (result: Game)
    requires Valid(game)
    ensures Valid(result) && result.puzzle == game.puzzle && result.selector == game.selector
    ensures Complete(game) ==> result.locked && Collapsed(result.grid) && Complete(result)
    ensures Complete(game) ==> result == Game(game.puzzle, CollapseGrid(game.grid), game.selector, true)
    ensures !Complete(game) ==> result == game
  {
    if Complete(game) then
      CollapseKeepsComplete(game.puzzle, game.grid);
      Game(game.puzzle, CollapseGrid(game.grid), game.selector, true)
    else
      game
  }

  /** A freshly built game: every cell Empty and unbound, the selector at Possible. */
  function NewGame(p: Puzzle): (game: Game)
    requires WellFormed(p)
    ensures Valid(game) && game.locked && AllEmpty(game.grid)
  {
    Game(p, EmptyGrid(p.height, p.width), InitialSelector, true)
  }

  /** `start`: bind the clicks, then `update`. */
  function Start(game: Game): (result: Game)
    requires Valid(game)
    ensures Valid(result) && result.puzzle == game.puzzle && result.selector == game.selector
    ensures result.locked <==> Complete(game)
  {
    Update(game.(locked := false))
  }

  /** `mark_filled` on cell (`r`, `c`), which has no effect while the clicks are unbound. */
  function ClickPrimary(game: Game, r: nat, c: nat): (result: Game)
    requires Valid(game) && r < game.puzzle.height && c < game.puzzle.width
    ensures Valid(result) && result.puzzle == game.puzzle && result.selector == game.selector
  {
    if game.locked then game
    else Update(game.(grid := SetCell(game.grid, r, c, Primary(game.grid[r][c]))))
  }

  /** `mark_dynamic` on cell (`r`, `c`) with the current selector; no effect while the clicks are unbound. */
  function ClickSecondary(game: Game, r: nat, c: nat): (result: Game)
    requires Valid(game) && r < game.puzzle.height && c < game.puzzle.width
    ensures Valid(result) && result.puzzle == game.puzzle && result.selector == game.selector
  {
    if game.locked then game
    else Update(game.(grid := SetCell(game.grid, r, c, Secondary(game.selector, game.grid[r][c]))))
  }

  /** `switch_mark`: the mouse wheel is bound to the window, so it works in every state of the game. */
  function SwitchSelector(game: Game): (result: Game)
    ensures result.puzzle == game.puzzle && result.grid == game.grid && result.locked == game.locked
    ensures result.selector != game.selector
  {
    game.(selector := Switch(game.selector))
  }

  /** `reset`: every cell back to Empty and unbound, then `start`. */
  function Reset(game: Game): (result: Game)
    requires Valid(game)
    ensures Valid(result) && result.puzzle == game.puzzle && result.selector == game.selector
  {
    Start(game.(grid := EmptyGrid(game.puzzle.height, game.puzzle.width)))
  }

  /**
   * On an all-Empty grid every row and column is Normal: no line has a block,
   * but every clue of a well-formed puzzle has one. So the empty grid never
   * completes.
   */
  lemma EmptyNotSolved(p: Puzzle, grid: Grid)
    requires WellFormed(p) && Shaped(p, grid) && AllEmpty(grid)
    ensures forall r :: 0 <= r < p.height ==> RowStatus(p, grid, r) == Normal
    ensures forall c :: 0 <= c < p.width ==> ColStatus(p, grid, c) == Normal
    ensures !AllSolved(p, grid)
  {
    forall r | 0 <= r < p.height
      ensures RowStatus(p, grid, r) == Normal
    {
      assert Mask(grid[r]) == Zeros(|grid[r]|);
      NoRuns(Mask(grid[r]));
      RowSolved(p, grid, r);
    }
    forall c | 0 <= c < p.width
      ensures ColStatus(p, grid, c) == Normal
    {
      assert Mask(Column(grid, c)) == Zeros(|grid|);
      NoRuns(Mask(Column(grid, c)));
      ColSolved(p, grid, c);
    }
    assert RowStatus(p, grid, 0) == Normal;
  }

  /** After a reset every cell is Empty, every line is Normal and the cells take clicks again; resetting twice is resetting once. */
  lemma ResetClears(game: Game)
    requires Valid(game)
    ensures AllEmpty(Reset(game).grid) && !Reset(game).locked
    ensures forall r :: 0 <= r < game.puzzle.height ==> RowStatus(game.puzzle, Reset(game).grid, r) == Normal
    ensures forall c :: 0 <= c < game.puzzle.width ==> ColStatus(game.puzzle, Reset(game).grid, c) == Normal
    ensures Reset(Reset(game)) == Reset(game)
  {
    EmptyNotSolved(game.puzzle, EmptyGrid(game.puzzle.height, game.puzzle.width));
  }

  /** Starting a new game leaves every cell Empty and accepting clicks. */
  lemma StartNewGame(p: Puzzle)
    requires WellFormed(p)
    ensures Start(NewGame(p)) == NewGame(p).(locked := false)
  {
    EmptyNotSolved(p, NewGame(p).grid);
  }

  /**
   * What every reachable game satisfies: either the clicks are bound, or
   * the game has not started (all cells Empty), or it is complete (every
   * line solved and every cell collapsed).
   */
  predicate Consistent(game: Game)
  {
    Valid(game) && (game.locked ==> AllEmpty(game.grid) || (Complete(game) && Collapsed(game.grid)))
  }

  /** A new game is consistent, and every operation keeps a game consistent. */
  lemma OperationsKeepConsistent(game: Game, r: nat, c: nat)
    requires Consistent(game) && r < game.puzzle.height && c < game.puzzle.width
    ensures Consistent(NewGame(game.puzzle))
    ensures Consistent(Start(game))
    ensures Consistent(ClickPrimary(game, r, c))
    ensures Consistent(ClickSecondary(game, r, c))
    ensures Consistent(SwitchSelector(game))
    ensures Consistent(Reset(game))
  {
  }

  /** Once complete, the game ignores every click: completion is terminal. */
  lemma CompletionIsTerminal(game: Game, r: nat, c: nat)
    requires Valid(game) && Complete(game) && r < game.puzzle.height && c < game.puzzle.width
    ensures var done := Update(game);
      ClickPrimary(done, r, c) == done && ClickSecondary(done, r, c) == done && Complete(done)
  {
  }

  /** An unlocked click changes only the clicked cell before the completion test. */
  lemma ClickChangesOneCell(game: Game, r: nat, c: nat, i: nat, j: nat)
    requires Valid(game) && !game.locked && r < game.puzzle.height && c < game.puzzle.width
    requires i < game.puzzle.height && j < game.puzzle.width && (i, j) != (r, c)
    ensures var after := ClickPrimary(game, r, c);
      after.grid[i][j] == game.grid[i][j] || (after.locked && after.grid[i][j] == Collapse(game.grid[i][j]))
    ensures var after := ClickPrimary(game, r, c);
      after.grid[r][c] == Primary(game.grid[r][c]) || (after.locked && after.grid[r][c] == Collapse(Primary(game.grid[r][c])))
  {
  }

  /** An unlocked right click changes only the clicked cell, by the selector's mark, before the completion test. */
  lemma SecondaryChangesOneCell(game: Game, r: nat, c: nat, i: nat, j: nat)
    requires Valid(game) && !game.locked && r < game.puzzle.height && c < game.puzzle.width
    requires i < game.puzzle.height && j < game.puzzle.width && (i, j) != (r, c)
    ensures var after := ClickSecondary(game, r, c);
      after.grid[i][j] == game.grid[i][j] || (after.locked && after.grid[i][j] == Collapse(game.grid[i][j]))
    ensures var after, m := ClickSecondary(game, r, c), Secondary(game.selector, game.grid[r][c]);
      after.grid[r][c] == m || (after.locked && after.grid[r][c] == Collapse(m))
  {
  }

  /** With the Blank selector, a right click on a Filled cell leaves it Empty, whether or not the game then completes. */
  lemma BlankClearsFilled(game: Game, r: nat, c: nat)
    requires Valid(game) && !game.locked && r < game.puzzle.height && c < game.puzzle.width
    requires game.selector == Blank && game.grid[r][c] == Filled
    ensures ClickSecondary(game, r, c).grid[r][c] == Empty
  {
  }
}
