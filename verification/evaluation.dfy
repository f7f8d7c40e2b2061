/**
 * Line evaluation: how the game turns a row or column of marks into a count
 * of filled cells and a bit pattern (two `reduce` folds over the line's
 * (value, shift) pairs), and decides from them whether the line's clue is
 * satisfied.
 */
module Evaluation {
  import opened Compositions
  import opened Bits
  import opened Lines
  import opened Engine
  import opened Marks

  /** Python's `functools.reduce(f, s)` without an initial value: a left fold seeded with the first element. */
  function Reduce<T>(f: (T, T) -> T, s: seq<T>): T
    requires |s| >= 1
  {
    if |s| == 1 then s[0] else f(Reduce(f, s[..|s| - 1]), s[|s| - 1])
  }

  /** The pair a cell contributes: its value, and the shift that puts it at its bit. */
  type Entry = (nat, nat)

  /** `[(value, L - (i + 1)) for i in range(L)]`. */
  function Entries(line: seq<Mark>): (es: seq<Entry>)
    ensures |es| == |line|
    ensures forall i :: 0 <= i < |line| ==> es[i] == (Value(line[i]), |line| - (i + 1))
  {
    seq(|line|, i requires 0 <= i < |line| => (Value(line[i]), |line| - (i + 1)))
  }

  /** The fold step of the count: `lambda a, b: (a[0] + b[0], 0)`. */
  function CountStep(a: Entry, b: Entry): Entry
  {
    (a.0 + b.0, 0)
  }

  /** The fold step of the pattern: `lambda a, b: ((a[0] << a[1]) + (b[0] << b[1]), 0)`. */
  function ValueStep(a: Entry, b: Entry): Entry
  {
    (ShiftLeft(a.0, a.1) + ShiftLeft(b.0, b.1), 0)
  }

  /** `not_empty`: the first component of the count fold. */
  function FilledCount(line: seq<Mark>): nat
    requires |line| >= 1
  {
    Reduce(CountStep, Entries(line)).0
  }

  /** `value`: the first component of the pattern fold. */
  function LineValue(line: seq<Mark>): nat
    requires |line| >= 1
  {
    Reduce(ValueStep, Entries(line)).0
  }

  /** The line as cells: filled or not. */
  function Mask(line: seq<Mark>): (s: seq<bool>)
    ensures |s| == |line|
    ensures forall i :: 0 <= i < |line| ==> (s[i] <==> line[i] == Filled)
  {
    seq(|line|, i requires 0 <= i < |line| => line[i] == Filled)
  }

  lemma MaskPrefix(line: seq<Mark>, k: nat)
    requires 1 <= k <= |line|
    ensures Mask(line)[..k][..k - 1] == Mask(line)[..k - 1]
    ensures Entries(line)[..k][..k - 1] == Entries(line)[..k - 1]
    ensures BitValue(Mask(line)[..k][k - 1]) == Value(line[k - 1])
  {
  }

  /** The count fold over the first `k` cells counts the filled ones among them. */
  lemma {:induction false} CountPrefix(line: seq<Mark>, k: nat)
    requires 1 <= k <= |line|
    ensures Reduce(CountStep, Entries(line)[..k]).0 == PopCount(Mask(line)[..k])
    decreases k
  {
    MaskPrefix(line, k);
    if k > 1 {
      CountPrefix(line, k - 1);
    } else {
      assert Mask(line)[..1][..0] == [];
    }
  }

  /** `not_empty` is the number of Filled cells of the line. */
  lemma FilledCountIsPopCount(line: seq<Mark>)
    requires |line| >= 1
    ensures FilledCount(line) == PopCount(Mask(line))
  {
    CountPrefix(line, |line|);
    assert Entries(line)[..|line|] == Entries(line);
    assert Mask(line)[..|line|] == Mask(line);
  }

  lemma PowStep(e: nat, v: nat, n: nat)
    ensures e * Pow2(n + 1) + v * Pow2(n) == (2 * e + v) * Pow2(n)
  {
    MulDouble(e, Pow2(n));
  }

  /** One step of the pattern fold appends the cell's bit below the accumulated pattern. */
  lemma ValueStepShift(a: Entry, b: Entry, e: nat, n: nat)
    requires ShiftLeft(a.0, a.1) == e * Pow2(n + 1) && b.1 == n
    ensures var r := ValueStep(a, b); r.1 == 0 && ShiftLeft(r.0, r.1) == (2 * e + b.0) * Pow2(n)
  {
    PowStep(e, b.0, n);
  }

  /**
   * The pattern fold over the first `k` cells: the accumulated pair, shifted
   * by its own shift, is the pattern of those cells shifted up past the
   * remaining ones; the shift is `L - 1` after the first cell and 0 after.
   */
  lemma {:induction false} ValuePrefix(line: seq<Mark>, k: nat)
    requires 1 <= k <= |line|
    ensures var a := Reduce(ValueStep, Entries(line)[..k]);
      a.1 == (if k == 1 then |line| - 1 else 0) &&
      ShiftLeft(a.0, a.1) == Encode(Mask(line)[..k]) * Pow2(|line| - k)
    decreases k
  {
    if k > 1 {
      ValuePrefix(line, k - 1);
      ValuePrefixStep(line, k);
    } else {
      ValuePrefixFirst(line);
    }
  }

  /** The fold over the first cell alone. */
  lemma ValuePrefixFirst(line: seq<Mark>)
    requires 1 <= |line|
    ensures var a := Reduce(ValueStep, Entries(line)[..1]);
      a.1 == |line| - 1 && ShiftLeft(a.0, a.1) == Encode(Mask(line)[..1]) * Pow2(|line| - 1)
  {
    MaskPrefix(line, 1);
    assert Mask(line)[..1][..0] == [];
  }

  /** One more cell of the pattern fold, given the fold over the cells before it. */
  lemma ValuePrefixStep(line: seq<Mark>, k: nat)
    requires 1 < k <= |line|
    requires var a := Reduce(ValueStep, Entries(line)[..k - 1]);
      ShiftLeft(a.0, a.1) == Encode(Mask(line)[..k - 1]) * Pow2(|line| - (k - 1))
    ensures var a := Reduce(ValueStep, Entries(line)[..k]);
      a.1 == 0 && ShiftLeft(a.0, a.1) == Encode(Mask(line)[..k]) * Pow2(|line| - k)
  {
    MaskPrefix(line, k);
    var es := Entries(line);
    var prev := Reduce(ValueStep, es[..k - 1]);
    assert Reduce(ValueStep, es[..k]) == ValueStep(prev, es[k - 1]);
    ValueStepShift(prev, es[k - 1], Encode(Mask(line)[..k - 1]), |line| - k);
  }

  /** `value` is the pattern of the line's Filled cells: cell `i` at bit `L - 1 - i`. */
  lemma LineValueIsEncode(line: seq<Mark>)
    requires |line| >= 1
    ensures LineValue(line) == Encode(Mask(line))
  {
    ValuePrefix(line, |line|);
    assert Entries(line)[..|line|] == Entries(line);
    assert Mask(line)[..|line|] == Mask(line);
  }

  /** `value` as the sum of each cell's value shifted to its bit. */
  lemma LineValueIsWeightedSum(line: seq<Mark>)
    requires |line| >= 1
    ensures LineValue(line) == WeightedSum(Mask(line))
  {
    LineValueIsEncode(line);
    EncodeIsWeightedSum(Mask(line));
  }

  /** The display state of a row's or column's clues. */
  datatype LineStatus = Normal | Solved

  /** `update` for one line: solved when the count matches and the pattern is a legal filling. */
  function Evaluate(clue: seq<nat>, line: seq<Mark>): LineStatus
    requires |line| >= 1 && Fits(clue, |line|)
  {
    if FilledCount(line) == Sum(clue) && LineValue(line) in Possibles(clue, |line|) then Solved else Normal
  }

  /** A line is marked solved exactly when the runs of its Filled cells are its clue. */
  lemma EvaluateSolved(clue: seq<nat>, line: seq<Mark>)
    requires |line| >= 1 && Fits(clue, |line|)
    ensures Evaluate(clue, line) == Solved <==> Runs(Mask(line)) == clue
  {
    FilledCountIsPopCount(line);
    LineValueIsEncode(line);
    LineInPossibles(clue, Mask(line));
    PopCountIsSumOfRuns(Mask(line));
  }

  /** The count test never rejects a line the membership test accepts. */
  lemma CountGuardRedundant(clue: seq<nat>, line: seq<Mark>)
    requires |line| >= 1 && Fits(clue, |line|)
    requires LineValue(line) in Possibles(clue, |line|)
    ensures FilledCount(line) == Sum(clue)
  {
    FilledCountIsPopCount(line);
    LineValueIsEncode(line);
    LineInPossibles(clue, Mask(line));
    PopCountIsSumOfRuns(Mask(line));
  }

  /** Only the Filled cells matter: lines with the same Filled cells get the same status. */
  lemma EvaluateDependsOnMask(clue: seq<nat>, a: seq<Mark>, b: seq<Mark>)
    requires |a| >= 1 && |a| == |b| && Fits(clue, |a|) && Mask(a) == Mask(b)
    ensures Evaluate(clue, a) == Evaluate(clue, b)
  {
    EvaluateSolved(clue, a);
    EvaluateSolved(clue, b);
  }
}
