/**
 * The line-possibility engine: for a clue and a line length, the pattern of
 * every legal filling of the line.
 *
 * A clue of `m` blocks splits a line into the blocks and `m + 1` gaps. The
 * gaps between two blocks hold one mandatory blank each; the remaining
 * "floating" blanks are distributed over all `m + 1` gaps in every possible
 * way, that is, by every composition of their number into `m + 1` parts.
 * An empty clue has the single pattern 0, the all-blank line.
 */
module Engine {
  import opened Compositions
  import opened Bits
  import opened Lines

  /** The shortest line a clue fits in: its blocks with one blank between neighbours. */
  function MinLength(clue: seq<nat>): nat
  {
    if |clue| == 0 then 0 else Sum(clue) + |clue| - 1
  }

  /** The clues the engine is called with: positive blocks that fit in the line. */
  predicate Fits(clue: seq<nat>, length: nat)
  {
    Positive(clue) && MinLength(clue) <= length
  }

  /** The blanks left over once the blocks and the mandatory separators are placed. */
  function FloatingBlanks(clue: seq<nat>, length: nat): nat
    requires |clue| >= 1 && Fits(clue, length)
  {
    length - Sum(clue) - (|clue| - 1)
  }

  /** `(0,) + (1,) * (m - 1) + (0,)`: one mandatory blank in each inner gap. */
  function MandatoryBlanks(m: nat): (r: seq<nat>)
    requires m >= 1
    ensures |r| == m + 1
    ensures r[0] == 0 && r[m] == 0
    ensures forall i :: 0 < i < m ==> r[i] == 1
    ensures Sum(r) == m - 1
  {
    var ones := seq(m - 1, _ => 1);
    SumConstant(m - 1, 1);
    SumAppend([0] + ones, [0]);
    SumCons(0, ones);
    SumCons(0, []);
    [0] + ones + [0]
  }

  /** Pointwise sum of two gap vectors (`map(lambda x, y: x + y, ...)`). */
  function AddBlanks(a: seq<nat>, b: seq<nat>): (r: seq<nat>)
    requires |a| == |b|
    ensures |r| == |a| && Sum(r) == Sum(a) + Sum(b)
    ensures forall i :: 0 <= i < |a| ==> r[i] == a[i] + b[i]
  {
    SumPointwise(a, b);
    seq(|a|, i requires 0 <= i < |a| => a[i] + b[i])
  }

  /** The gap sizes for one distribution of the floating blanks: never two blocks without a blank between them. */
  function Gaps(m: nat, floating: seq<nat>): (gaps: seq<nat>)
    requires m >= 1 && |floating| == m + 1
    ensures |gaps| == m + 1 && Separated(gaps)
    ensures Sum(gaps) == m - 1 + Sum(floating)
  {
    AddBlanks(MandatoryBlanks(m), floating)
  }

  /** Different distributions of the floating blanks give different gaps. */
  lemma GapsInjective(m: nat, f1: seq<nat>, f2: seq<nat>)
    requires m >= 1 && |f1| == m + 1 && |f2| == m + 1
    requires Gaps(m, f1) == Gaps(m, f2)
    ensures f1 == f2
  {
    forall k | 0 <= k < m + 1
      ensures f1[k] == f2[k]
    {
      assert Gaps(m, f1)[k] == Gaps(m, f2)[k];
    }
  }

  /** Every separated gap vector comes from exactly one distribution of floating blanks. */
  function Floating(m: nat, gaps: seq<nat>): (floating: seq<nat>)
    requires m >= 1 && |gaps| == m + 1 && Separated(gaps)
    ensures |floating| == m + 1 && Gaps(m, floating) == gaps
  {
    var mandatory := MandatoryBlanks(m);
    var floating := seq(m + 1, i requires 0 <= i < m + 1 => gaps[i] - mandatory[i]);
    assert Gaps(m, floating) == gaps;
    floating
  }

  /** The pattern of the line laid out with the blocks of `clue` and the gaps of one distribution. */
  function Pattern(clue: seq<nat>, floating: seq<nat>): nat
    requires |clue| >= 1 && |floating| == |clue| + 1
  {
    Encode(Layout(clue, Gaps(|clue|, floating)))
  }

  /** All legal patterns of a line of `length` cells for `clue`, one per distribution of the floating blanks. */
  function Possibles(clue: seq<nat>, length: nat): (ps: seq<nat>)
    requires Fits(clue, length)
  {
    if |clue| == 0 then [0]
    else
      PatternsOf(clue, AllCompositions(FloatingBlanks(clue, length), |clue| + 1))
  }

  /** The pattern of each distribution of the floating blanks, in the order given. */
  function PatternsOf(clue: seq<nat>, dists: seq<seq<nat>>): (ps: seq<nat>)
    requires |clue| >= 1 && forall i :: 0 <= i < |dists| ==> |dists[i]| == |clue| + 1
    ensures |ps| == |dists|
  {
    seq(|dists|, i requires 0 <= i < |dists| => Pattern(clue, dists[i]))
  }

  /** Position `i` of the list holds the pattern of distribution `i`. */
  lemma PatternsOfAt(clue: seq<nat>, dists: seq<seq<nat>>, i: nat)
    requires |clue| >= 1 && forall i :: 0 <= i < |dists| ==> |dists[i]| == |clue| + 1
    requires i < |dists|
    ensures PatternsOf(clue, dists)[i] == Pattern(clue, dists[i])
  {
  }

  /** A listed pattern is the pattern of one of the distributions. */
  lemma PatternsOfIndex(clue: seq<nat>, dists: seq<seq<nat>>, p: nat) returns (i: nat)
    requires |clue| >= 1 && forall i :: 0 <= i < |dists| ==> |dists[i]| == |clue| + 1
    requires p in PatternsOf(clue, dists)
    ensures i < |dists| && Pattern(clue, dists[i]) == p
  {
    i :| 0 <= i < |dists| && PatternsOf(clue, dists)[i] == p;
    PatternsOfAt(clue, dists, i);
  }

  /** The line laid out for one distribution has the full line length. */
  lemma LayoutLength(clue: seq<nat>, length: nat, floating: seq<nat>)
    requires |clue| >= 1 && Fits(clue, length) && |floating| == |clue| + 1
    requires Sum(floating) == FloatingBlanks(clue, length)
    ensures |Layout(clue, Gaps(|clue|, floating))| == length
  {
  }

  /** A line has no blocks exactly when all its cells are blank. */
  lemma NoRuns(s: seq<bool>)
    ensures Runs(s) == [] <==> s == Zeros(|s|)
  {
    if Runs(s) == [] {
      LayoutOfDecompose(s);
    }
    RunsZerosPrefix(|s|, []);
    assert Zeros(|s|) + [] == Zeros(|s|);
  }

  /** The all-blank line is the one with pattern 0. */
  lemma DecodeZero(length: nat)
    ensures Decode(0, length) == Zeros(length)
  {
    EncodeZeros(length);
    DecodeEncode(Zeros(length));
  }

  /** Every listed pattern fits in the line and its runs are exactly the clue. */
  lemma PossiblesSound(clue: seq<nat>, length: nat, p: nat)
    requires Fits(clue, length) && p in Possibles(clue, length)
    ensures p < Pow2(length)
    ensures Runs(Decode(p, length)) == clue
  {
    if |clue| == 0 {
      DecodeZero(length);
      NoRuns(Zeros(length));
    } else {
      var n, k := FloatingBlanks(clue, length), |clue| + 1;
      PossiblesUnfold(clue, length);
      var i := PatternsOfIndex(clue, AllCompositions(n, k), p);
      PatternSound(clue, length, AllCompositions(n, k)[i]);
    }
  }

  /** The pattern of a distribution of the floating blanks fits in the line and has the clue as its runs. */
  lemma PatternSound(clue: seq<nat>, length: nat, floating: seq<nat>)
    requires |clue| >= 1 && Fits(clue, length)
    requires |floating| == |clue| + 1 && Sum(floating) == FloatingBlanks(clue, length)
    ensures Pattern(clue, floating) < Pow2(length)
    ensures Runs(Decode(Pattern(clue, floating), length)) == clue
  {
    var line := Layout(clue, Gaps(|clue|, floating));
    LayoutLength(clue, length, floating);
    DecodeEncode(line);
    RunsOfLayout(clue, Gaps(|clue|, floating));
  }

  /** The distribution of floating blanks read off a line whose runs are the clue lays the line out again. */
  lemma FloatingOfLine(clue: seq<nat>, line: seq<bool>)
    requires |clue| >= 1 && Fits(clue, |line|) && Runs(line) == clue
    ensures |Decompose(line)| == |clue| + 1 && Separated(Decompose(line))
    ensures var floating := Floating(|clue|, Decompose(line));
      Sum(floating) == FloatingBlanks(clue, |line|) && Pattern(clue, floating) == Encode(line)
  {
    LayoutOfDecompose(line);
    DecomposeShape(line);
  }

  /** Every line whose runs are the clue has its pattern listed. */
  lemma PossiblesComplete(clue: seq<nat>, line: seq<bool>)
    requires Fits(clue, |line|) && Runs(line) == clue
    ensures Encode(line) in Possibles(clue, |line|)
  {
    var m := |clue|;
    if m == 0 {
      NoRuns(line);
      EncodeZeros(|line|);
    } else {
      FloatingOfLine(clue, line);
      PatternListed(clue, |line|, Floating(m, Decompose(line)));
    }
  }

  /** The pattern of every distribution of the floating blanks is listed. */
  lemma PatternListed(clue: seq<nat>, length: nat, floating: seq<nat>)
    requires |clue| >= 1 && Fits(clue, length)
    requires |floating| == |clue| + 1 && Sum(floating) == FloatingBlanks(clue, length)
    ensures Pattern(clue, floating) in Possibles(clue, length)
  {
    var n, k := FloatingBlanks(clue, length), |clue| + 1;
    PossiblesUnfold(clue, length);
    var i := CompositionIndex(n, k, floating);
    PatternsOfAt(clue, AllCompositions(n, k), i);
  }

  /** For a non-empty clue, the list is the pattern of each distribution of the floating blanks. */
  lemma PossiblesUnfold(clue: seq<nat>, length: nat)
    requires |clue| >= 1 && Fits(clue, length)
    ensures Possibles(clue, length) == PatternsOf(clue, AllCompositions(FloatingBlanks(clue, length), |clue| + 1))
  {
  }

  /** A number is listed exactly when it is the pattern of a line of `length` cells whose runs are the clue. */
  lemma PossiblesExact(clue: seq<nat>, length: nat, p: nat)
    requires Fits(clue, length)
    ensures p in Possibles(clue, length) <==> p < Pow2(length) && Runs(Decode(p, length)) == clue
  {
    if p in Possibles(clue, length) {
      PossiblesSound(clue, length, p);
    } else if p < Pow2(length) && Runs(Decode(p, length)) == clue {
      EncodeDecode(p, length);
      PossiblesComplete(clue, Decode(p, length));
    }
  }

  /** A line's pattern is listed exactly when the line's runs are the clue. */
  lemma LineInPossibles(clue: seq<nat>, line: seq<bool>)
    requires Fits(clue, |line|)
    ensures Encode(line) in Possibles(clue, |line|) <==> Runs(line) == clue
  {
    PossiblesExact(clue, |line|, Encode(line));
    DecodeEncode(line);
  }

  /** No pattern is listed twice. */
  lemma PossiblesDistinct(clue: seq<nat>, length: nat)
    requires Fits(clue, length)
    ensures Distinct(Possibles(clue, length))
  {
    if |clue| >= 1 {
      var n, k := FloatingBlanks(clue, length), |clue| + 1;
      PossiblesUnfold(clue, length);
      CompositionsDistinct(n, k);
      PatternsOfDistinct(clue, AllCompositions(n, k), n);
    }
  }

  /** Distinct distributions of the same number of floating blanks have distinct patterns. */
  lemma PatternsOfDistinct(clue: seq<nat>, dists: seq<seq<nat>>, n: nat)
    requires |clue| >= 1 && Positive(clue) && Distinct(dists)
    requires forall i :: 0 <= i < |dists| ==> |dists[i]| == |clue| + 1 && Sum(dists[i]) == n
    ensures Distinct(PatternsOf(clue, dists))
  {
    var ps := PatternsOf(clue, dists);
    forall i, j | 0 <= i < j < |ps|
      ensures ps[i] != ps[j]
    {
      PatternsOfAt(clue, dists, i);
      PatternsOfAt(clue, dists, j);
      if ps[i] == ps[j] {
        PatternInjective(clue, dists[i], dists[j]);
      }
    }
  }

  /** Two distributions of the same number of floating blanks with the same pattern are the same distribution. */
  lemma PatternInjective(clue: seq<nat>, f1: seq<nat>, f2: seq<nat>)
    requires |clue| >= 1 && Positive(clue)
    requires |f1| == |clue| + 1 && |f2| == |clue| + 1 && Sum(f1) == Sum(f2)
    requires Pattern(clue, f1) == Pattern(clue, f2)
    ensures f1 == f2
  {
    var g1, g2 := Gaps(|clue|, f1), Gaps(|clue|, f2);
    EncodeInjective(Layout(clue, g1), Layout(clue, g2));
    LayoutInjective(clue, g1, g2);
    GapsInjective(|clue|, f1, f2);
  }

  /** There are C(floating + m, m) legal patterns for a clue of `m >= 1` blocks. */
  lemma PossiblesCount(clue: seq<nat>, length: nat)
    requires |clue| >= 1 && Fits(clue, length)
    ensures |Possibles(clue, length)| == Binomial(FloatingBlanks(clue, length) + |clue|, |clue|)
  {
    var n, m := FloatingBlanks(clue, length), |clue|;
    PossiblesUnfold(clue, length);
    CompositionsCount(n, m);
    assert |Possibles(clue, length)| == |AllCompositions(n, m + 1)|;
  }

  /** A clue that fills its line exactly, and the empty clue, have a single legal pattern. */
  lemma TightClue(clue: seq<nat>, length: nat)
    requires Fits(clue, length) && (|clue| == 0 || MinLength(clue) == length)
    ensures |Possibles(clue, length)| == 1
  {
    if |clue| >= 1 {
      PossiblesUnfold(clue, length);
      assert FloatingBlanks(clue, length) == 0;
      CountNothing(|clue| + 1);
    }
  }

  /** Every listed pattern fills exactly `sum(clue)` cells. */
  lemma PossiblesPopCount(clue: seq<nat>, length: nat, p: nat)
    requires Fits(clue, length) && p in Possibles(clue, length)
    ensures PopCount(Decode(p, length)) == Sum(clue)
  {
    PossiblesSound(clue, length, p);
    PopCountIsSumOfRuns(Decode(p, length));
  }

  /** The reversed sequence (`s[::-1]`). */
  function Reverse<T>(s: seq<T>): (r: seq<T>)
    ensures |r| == |s|
    ensures forall i :: 0 <= i < |s| ==> r[i] == s[|s| - 1 - i]
  {
    seq(|s|, i requires 0 <= i < |s| => s[|s| - 1 - i])
  }

  /**
   * The low-order cells placed after `e` steps of the placement loop: the
   * last `e` blocks with the gaps after them, but not the gap before them.
   */
  function Placed(clue: seq<nat>, gaps: seq<nat>, e: nat): seq<bool>
    requires |gaps| == |clue| + 1 && e <= |clue|
  {
    Layout(clue[|clue| - e..], [0] + gaps[|clue| - e + 1..])
  }

  /** One step of the placement loop puts one more block, and the gap after it, in front of the placed cells. */
  lemma PlacedStep(clue: seq<nat>, gaps: seq<nat>, e: nat)
    requires |gaps| == |clue| + 1 && e < |clue|
    ensures Placed(clue, gaps, e + 1) == Ones(clue[|clue| - e - 1]) + (Zeros(gaps[|clue| - e]) + Placed(clue, gaps, e))
  {
    var m := |clue|;
    var c := clue[m - e - 1..];
    var g := [0] + gaps[m - e..];
    assert c[1..] == clue[m - e..] && g[1..] == gaps[m - e..];
    assert Zeros(0) + Ones(c[0]) == Ones(c[0]);
    LayoutFirstGap(clue[m - e..], gaps[m - e..]);
    assert gaps[m - e..][1..] == gaps[m - e + 1..];
  }

  /** The arithmetic of one step of the placement loop: the new block's ones land above the gap above the placed cells. */
  lemma PlaceStepValue(clue: seq<nat>, gaps: seq<nat>, e: nat)
    requires |gaps| == |clue| + 1 && e < |clue|
    ensures var c, g, before := clue[|clue| - e - 1], gaps[|clue| - e], Placed(clue, gaps, e);
      |Placed(clue, gaps, e + 1)| == |before| + g + c &&
      Encode(Placed(clue, gaps, e + 1)) == Encode(before) + ShiftLeft(Pow2(c) - 1, |before| + g)
  {
    var c, g, before := clue[|clue| - e - 1], gaps[|clue| - e], Placed(clue, gaps, e);
    PlacedStep(clue, gaps, e);
    EncodeAppend(Ones(c), Zeros(g) + before);
    EncodeZerosPrefix(g, before);
    EncodeOnes(c);
  }

  /** Once every block is placed, only the first gap is missing, and leading blanks do not change a pattern. */
  lemma PlacedAll(clue: seq<nat>, gaps: seq<nat>)
    requires |gaps| == |clue| + 1
    ensures Encode(Placed(clue, gaps, |clue|)) == Encode(Layout(clue, gaps))
  {
    assert clue[0..] == clue;
    LayoutFirstGap(clue, gaps);
    EncodeZerosPrefix(gaps[0], Placed(clue, gaps, |clue|));
  }

  /** `PossiblesExact` for every number at once. */
  lemma PossiblesMembership(clue: seq<nat>, length: nat)
    requires Fits(clue, length)
    ensures forall p: nat :: p in Possibles(clue, length) <==> p < Pow2(length) && Runs(Decode(p, length)) == clue
  {
    forall p: nat
      ensures p in Possibles(clue, length) <==> p < Pow2(length) && Runs(Decode(p, length)) == clue
    {
      PossiblesExact(clue, length, p);
    }
  }

  /**
   * The placement loop: the clue is walked from its last block to its first,
   * each block going `blank` positions above the previous one as the binary
   * number of `c` ones shifted left by the running offset.
   */
  method Place(clue: seq<nat>, floating: seq<nat>) returns (possible: nat)
    requires |clue| >= 1 && |floating| == |clue| + 1
    ensures possible == Pattern(clue, floating)
  {
    var m := |clue|;
    var gaps := Gaps(m, floating);
    var reversed := Reverse(clue);
    var blanks := seq(m, i requires 0 <= i < m => gaps[m - i]);
    var offset := 0;
    possible := 0;
    var e := 0;
    while e < m
      invariant 0 <= e <= m
      invariant offset == |Placed(clue, gaps, e)|
      invariant possible == Encode(Placed(clue, gaps, e))
    {
      var blank, c := blanks[e], reversed[e];
      assert blank == gaps[m - e] && c == clue[m - e - 1];
      PlaceStepValue(clue, gaps, e);
      offset := offset + blank;
      possible := possible + ShiftLeft(Pow2(c) - 1, offset);
      offset := offset + c;
      e := e + 1;
    }
    PlacedAll(clue, gaps);
  }

  /** The outer loop: the placement of each distribution, in the order given. */
  method PlaceAll(clue: seq<nat>, dists: seq<seq<nat>>) returns (ps: seq<nat>)
    requires |clue| >= 1
    requires forall i :: 0 <= i < |dists| ==> |dists[i]| == |clue| + 1
    ensures ps == PatternsOf(clue, dists)
  {
    ps := [];
    var i := 0;
    while i < |dists|
      invariant 0 <= i <= |dists| && |ps| == i
      invariant forall j :: 0 <= j < i ==> ps[j] == PatternsOf(clue, dists)[j]
    {
      var possible := Place(clue, dists[i]);
      PatternsOfAt(clue, dists, i);
      ps := ps + [possible];
      i := i + 1;
    }
  }

  /** The engine's list: one placement per distribution of the floating blanks. */
  method ComputePossibles(clue: seq<nat>, length: nat) returns (ps: seq<nat>)
    requires Fits(clue, length)
    ensures ps == Possibles(clue, length)
    ensures forall p: nat :: p in ps <==> p < Pow2(length) && Runs(Decode(p, length)) == clue
  {
    if |clue| == 0 {
      ps := [0];
    } else {
      ps := PlaceAll(clue, AllCompositions(FloatingBlanks(clue, length), |clue| + 1));
    }
    PossiblesMembership(clue, length);
  }
}
