/**
 * The marks a cell can carry and the tables that drive them: what a click
 * does to a cell, the right-button selector, the value a mark contributes
 * to its line, and the collapse applied when the puzzle is complete.
 */
module Marks {

  /** The four cell states (the colours white, black, grey and red). */
  datatype Mark = Empty | Filled | Possible | Blank

  /** The marks a click applies: Filled from the left button, the selector from the right. */
  type Action = m: Mark | m != Empty witness Filled

  /** The mark the right button applies: Possible or Blank. */
  type Selector = m: Mark | m == Possible || m == Blank witness Possible

  /** The selector a new game starts with. */
  const InitialSelector: Selector := Possible

  /** The transition table: the state a cell in `state` moves to when `action` is applied to it. */
  function Change(action: Action, state: Mark): (r: Mark)
    ensures r == Empty || r == action || r == state
  {
    match action
    case Filled =>
      (match state
       case Empty => Filled
       case Filled => Empty
       case Possible => Filled
       case Blank => Empty)
    case Possible =>
      (match state
       case Empty => Possible
       case Filled => Filled
       case Possible => Empty
       case Blank => Blank)
    case Blank =>
      (match state
       case Empty => Blank
       case Filled => Empty
       case Possible => Blank
       case Blank => Empty)
  }

  /** A cell whose content has been decided: filled, or marked blank. */
  predicate Decided(m: Mark)
  {
    m == Filled || m == Blank
  }

  /**
   * The table read as a rule: a deciding mark clears a decided cell and is
   * written over any other one; the Possible mark toggles an undecided cell
   * and leaves a decided one alone.
   */
  lemma ChangeRule(action: Action, state: Mark)
    ensures Decided(action) ==> Change(action, state) == if Decided(state) then Empty else action
    ensures action == Possible ==>
      Change(action, state) == if Decided(state) then state else if state == Empty then Possible else Empty
  {
  }

  /** The left button: `mark_filled`. */
  function Primary(state: Mark): Mark
  {
    Change(Filled, state)
  }

  /** The right button: `mark_dynamic` with the current selector. */
  function Secondary(selector: Selector, state: Mark): Mark
  {
    Change(selector, state)
  }

  /** The left button fills exactly the cells that are Empty or Possible, and clears the rest. */
  lemma PrimaryFills(state: Mark)
    ensures Primary(state) == Filled <==> state == Empty || state == Possible
    ensures Primary(state) != Filled ==> Primary(state) == Empty
  {
  }

  /** Clicking the left button twice restores an Empty or Filled cell. */
  lemma PrimaryTwice(state: Mark)
    ensures Primary(Primary(state)) == state <==> state == Empty || state == Filled
  {
  }

  /** The right button never fills a cell: a Filled cell is kept by Possible and cleared by Blank. */
  lemma SecondaryNeverFills(selector: Selector, state: Mark)
    ensures Secondary(selector, state) == Filled <==> state == Filled && selector == Possible
    ensures state == Filled && selector == Blank ==> Secondary(selector, state) == Empty
  {
  }

  /** With the Possible selector the right button is its own undo, for every cell. */
  lemma SecondaryPossibleTwice(state: Mark)
    ensures Secondary(Possible, Secondary(Possible, state)) == state
  {
  }

  /** The mouse wheel: the selector flips between Possible and Blank. */
  function Switch(selector: Selector): (r: Selector)
    ensures r != selector
  {
    if selector == Possible then Blank else Possible
  }

  /** Switching twice gives back the selector. */
  lemma SwitchTwice(selector: Selector)
    ensures Switch(Switch(selector)) == selector
  {
  }

  /** A cell's contribution to its line: 1 for Filled, 0 otherwise. */
  function Value(m: Mark): (v: nat)
    ensures v <= 1
  {
    if m == Filled then 1 else 0
  }

  /** The mark a cell shows once the puzzle is complete: Filled stays, every other mark is wiped. */
  function Collapse(m: Mark): (r: Mark)
    ensures r == Empty || r == Filled
  {
    match m
    case Empty => Empty
    case Filled => Filled
    case Possible => Empty
    case Blank => Empty
  }

  /** Collapsing keeps a cell's value, is idempotent, and a collapsed cell is Filled exactly when its value is 1. */
  lemma CollapseKeepsValue(m: Mark)
    ensures Value(Collapse(m)) == Value(m)
    ensures Collapse(Collapse(m)) == Collapse(m)
    ensures Collapse(m) == Filled <==> Value(m) == 1
  {
  }
}
