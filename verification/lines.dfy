/**
 * The meaning of a clue. A clue lists, in order, the lengths of the maximal
 * blocks of filled cells of a line; `Runs` reads those lengths off a line.
 * `Layout` builds a line from a clue and the sizes of the gaps around its
 * blocks, and `Decompose` recovers the gap sizes from a line, so that every
 * line is the layout of its own runs.
 */
module Lines {
  import opened Compositions
  import opened Bits

  /** Every block length of the clue is positive. */
  predicate Positive(clue: seq<nat>)
  {
    forall i :: 0 <= i < |clue| ==> clue[i] >= 1
  }

  /** The length of the maximal block of filled cells at the start of `s`. */
  function LeadingOnes(s: seq<bool>): (k: nat)
    ensures k <= |s|
    ensures forall i :: 0 <= i < k ==> s[i]
    ensures k < |s| ==> !s[k]
  {
    if |s| == 0 || !s[0] then 0 else 1 + LeadingOnes(s[1..])
  }

  /** The lengths of the maximal blocks of filled cells of `s`, from first to last cell. */
  function Runs(s: seq<bool>): seq<nat>
    decreases |s|
  {
    if |s| == 0 then []
    else if !s[0] then Runs(s[1..])
    else [LeadingOnes(s)] + Runs(s[LeadingOnes(s)..])
  }

  /** The line with `gaps[0]` blanks, block `clue[0]`, `gaps[1]` blanks, ..., block `clue[m-1]`, `gaps[m]` blanks. */
  function Layout(clue: seq<nat>, gaps: seq<nat>): (s: seq<bool>)
    requires |gaps| == |clue| + 1
    ensures |s| == Sum(clue) + Sum(gaps)
    decreases |clue|
  {
    if |clue| == 0 then
      Zeros(gaps[0])
    else
      SumCons(clue[0], clue[1..]);
      SumCons(gaps[0], gaps[1..]);
      assert clue == [clue[0]] + clue[1..];
      assert gaps == [gaps[0]] + gaps[1..];
      Zeros(gaps[0]) + Ones(clue[0]) + Layout(clue[1..], gaps[1..])
  }

  /** The gaps strictly between two blocks are non-empty, so consecutive blocks do not merge. */
  predicate Separated(gaps: seq<nat>)
  {
    forall i :: 0 < i < |gaps| - 1 ==> gaps[i] >= 1
  }

  /** The sizes of the blank gaps of `s` before, between and after its blocks. */
  function Decompose(s: seq<bool>): (gaps: seq<nat>)
    ensures |gaps| >= 1
    decreases |s|
  {
    if |s| == 0 then [0]
    else if !s[0] then
      var d := Decompose(s[1..]);
      [d[0] + 1] + d[1..]
    else
      [0] + Decompose(s[LeadingOnes(s)..])
  }

  lemma {:induction false} RunsZerosPrefix(n: nat, t: seq<bool>)
    ensures Runs(Zeros(n) + t) == Runs(t)
    decreases n
  {
    if n > 0 {
      var s := Zeros(n) + t;
      assert |s| > 0 && !s[0];
      assert s[1..] == Zeros(n - 1) + t;
      assert Runs(s) == Runs(s[1..]);
      RunsZerosPrefix(n - 1, t);
    } else {
      assert Zeros(n) + t == t;
    }
  }

  /** A block followed by a blank (or by the end of the line) is a maximal block. */
  lemma LeadingOnesBlock(c: nat, t: seq<bool>)
    requires |t| == 0 || !t[0]
    ensures LeadingOnes(Ones(c) + t) == c
    ensures (Ones(c) + t)[c..] == t
  {
  }

  lemma RunsBlock(c: nat, t: seq<bool>)
    requires c >= 1
    requires |t| == 0 || !t[0]
    ensures Runs(Ones(c) + t) == [c] + Runs(t)
  {
    LeadingOnesBlock(c, t);
  }

  /** The layout of the blocks after the first starts with a blank or is empty. */
  lemma LayoutTailBlank(clue: seq<nat>, gaps: seq<nat>)
    requires |gaps| == |clue| + 1 && |clue| >= 1 && Separated(gaps)
    ensures var rest := Layout(clue[1..], gaps[1..]); |rest| == 0 || !rest[0]
  {
    if |clue| > 1 {
      LayoutStartsBlank(clue[1..], gaps[1..]);
    }
  }

  lemma LayoutStartsBlank(clue: seq<nat>, gaps: seq<nat>)
    requires |gaps| == |clue| + 1 && gaps[0] >= 1
    ensures !Layout(clue, gaps)[0]
  {
  }

  /** A layout with separated gaps has exactly the clue as its runs. */
  lemma {:induction false} RunsOfLayout(clue: seq<nat>, gaps: seq<nat>)
    requires |gaps| == |clue| + 1 && Positive(clue) && Separated(gaps)
    ensures Runs(Layout(clue, gaps)) == clue
    decreases |clue|
  {
    if |clue| == 0 {
      RunsZerosPrefix(gaps[0], []);
      assert Zeros(gaps[0]) + [] == Zeros(gaps[0]);
    } else {
      var rest := Layout(clue[1..], gaps[1..]);
      assert Layout(clue, gaps) == Zeros(gaps[0]) + (Ones(clue[0]) + rest);
      RunsZerosPrefix(gaps[0], Ones(clue[0]) + rest);
      LayoutTailBlank(clue, gaps);
      RunsBlock(clue[0], rest);
      RunsOfLayout(clue[1..], gaps[1..]);
      assert clue == [clue[0]] + clue[1..];
    }
  }

  /** The gaps of a line are one more than its runs, and the inner ones are non-empty. */
  lemma {:induction false} DecomposeShape(s: seq<bool>)
    ensures |Decompose(s)| == |Runs(s)| + 1
    ensures Separated(Decompose(s))
    ensures |s| > 0 && !s[0] ==> Decompose(s)[0] >= 1
    decreases |s|
  {
    if |s| > 0 {
      if !s[0] {
        DecomposeShape(s[1..]);
      } else {
        var k := LeadingOnes(s);
        DecomposeShape(s[k..]);
      }
    }
  }

  lemma LayoutShift(clue: seq<nat>, gaps: seq<nat>)
    requires |gaps| == |clue| + 1
    ensures Layout(clue, [gaps[0] + 1] + gaps[1..]) == [false] + Layout(clue, gaps)
  {
    var g := [gaps[0] + 1] + gaps[1..];
    assert g[1..] == gaps[1..];
    assert Zeros(gaps[0] + 1) == [false] + Zeros(gaps[0]);
  }

  /** Every line is the layout of its own runs and gaps. */
  lemma {:induction false} LayoutOfDecompose(s: seq<bool>)
    ensures |Decompose(s)| == |Runs(s)| + 1
    ensures Layout(Runs(s), Decompose(s)) == s
    decreases |s|
  {
    DecomposeShape(s);
    if |s| > 0 {
      if !s[0] {
        var d := Decompose(s[1..]);
        LayoutOfDecompose(s[1..]);
        LayoutShift(Runs(s[1..]), d);
        assert [false] + s[1..] == s;
      } else {
        var k := LeadingOnes(s);
        var t := s[k..];
        LayoutOfDecompose(t);
        var r := Runs(s);
        assert r[1..] == Runs(t);
        assert Decompose(s)[1..] == Decompose(t);
        assert s[..k] == Ones(k);
        assert s == Zeros(0) + Ones(k) + t;
      }
    }
  }

  lemma {:induction false} DecomposeZerosPrefix(n: nat, t: seq<bool>)
    ensures Decompose(Zeros(n) + t) == [n + Decompose(t)[0]] + Decompose(t)[1..]
    decreases n
  {
    if n > 0 {
      assert (Zeros(n) + t)[1..] == Zeros(n - 1) + t;
      DecomposeZerosPrefix(n - 1, t);
    } else {
      assert Zeros(n) + t == t;
    }
  }

  /** The gaps of a layout with separated gaps are the gaps it was built from. */
  lemma {:induction false} DecomposeOfLayout(clue: seq<nat>, gaps: seq<nat>)
    requires |gaps| == |clue| + 1 && Positive(clue) && Separated(gaps)
    ensures Decompose(Layout(clue, gaps)) == gaps
    decreases |clue|
  {
    if |clue| == 0 {
      DecomposeZerosPrefix(gaps[0], []);
      assert Zeros(gaps[0]) + [] == Zeros(gaps[0]);
    } else {
      var rest := Layout(clue[1..], gaps[1..]);
      var block := Ones(clue[0]) + rest;
      assert Layout(clue, gaps) == Zeros(gaps[0]) + block;
      LayoutTailBlank(clue, gaps);
      DecomposeOfLayout(clue[1..], gaps[1..]);
      DecomposeBlock(clue[0], rest);
      DecomposeZerosPrefix(gaps[0], block);
      assert ([0] + gaps[1..])[1..] == gaps[1..];
      assert gaps == [gaps[0]] + gaps[1..];
    }
  }

  /** A maximal block at the start of a line adds an empty first gap. */
  lemma DecomposeBlock(c: nat, t: seq<bool>)
    requires c >= 1 && (|t| == 0 || !t[0])
    ensures Decompose(Ones(c) + t) == [0] + Decompose(t)
  {
    LeadingOnesBlock(c, t);
  }

  /** Two layouts of one clue with separated gaps are equal only if their gaps are. */
  lemma LayoutInjective(clue: seq<nat>, g1: seq<nat>, g2: seq<nat>)
    requires |g1| == |clue| + 1 && |g2| == |clue| + 1 && Positive(clue)
    requires Separated(g1) && Separated(g2)
    requires Layout(clue, g1) == Layout(clue, g2)
    ensures g1 == g2
  {
    DecomposeOfLayout(clue, g1);
    DecomposeOfLayout(clue, g2);
  }

  /** The filled cells of a line are the sum of its runs. */
  lemma {:induction false} PopCountIsSumOfRuns(s: seq<bool>)
    ensures PopCount(s) == Sum(Runs(s))
    decreases |s|
  {
    if |s| > 0 {
      if !s[0] {
        assert s == [s[0]] + s[1..];
        PopCountAppend([s[0]], s[1..]);
        assert PopCount([s[0]]) == 0 by { assert [s[0]][..0] == []; }
        PopCountIsSumOfRuns(s[1..]);
      } else {
        var k := LeadingOnes(s);
        assert s == s[..k] + s[k..];
        assert s[..k] == Ones(k);
        PopCountAppend(s[..k], s[k..]);
        PopCountOnes(k);
        PopCountIsSumOfRuns(s[k..]);
        SumCons(k, Runs(s[k..]));
      }
    }
  }

  lemma AppendAssoc<T>(a: seq<T>, b: seq<T>, c: seq<T>)
    ensures a + b + c == a + (b + c)
  {
  }

  /** Splitting off the first gap of a layout. */
  lemma LayoutFirstGap(clue: seq<nat>, gaps: seq<nat>)
    requires |gaps| == |clue| + 1
    ensures Layout(clue, gaps) == Zeros(gaps[0]) + Layout(clue, [0] + gaps[1..])
  {
    if |clue| == 0 {
      assert Zeros(gaps[0]) + Zeros(0) == Zeros(gaps[0]);
    } else {
      var shifted := [0] + gaps[1..];
      var block := Ones(clue[0]);
      var rest := Layout(clue[1..], gaps[1..]);
      assert shifted[1..] == gaps[1..];
      assert Zeros(0) + block == block;
      AppendAssoc(Zeros(gaps[0]), block, rest);
    }
  }
}
