/**
 * Sums of natural-number sequences and the weak compositions of a number:
 * the ways of writing `n` as an ordered sum of `k` non-negative parts.
 * The line-possibility engine distributes the free blanks of a line over its
 * gaps with exactly these compositions.
 *
 * The compositions are listed in a fixed order: those whose first part is 0
 * come first (ordered as the compositions of `n` into `k - 1` parts), then
 * those whose first part is positive (ordered as the compositions of `n - 1`
 * into `k` parts, with the first part raised by one). `Unrank` gives the
 * composition at a position of this list and `Rank` gives the position of a
 * composition; the two are inverse to each other.
 */
module Compositions {

  /** Sum of a sequence of naturals (Python's `sum`). */
  function Sum(s: seq<nat>): nat
  {
    if |s| == 0 then 0 else s[0] + Sum(s[1..])
  }

  lemma SumCons(h: nat, t: seq<nat>)
    ensures Sum([h] + t) == h + Sum(t)
  {
    assert ([h] + t)[1..] == t;
  }

  lemma {:induction false} SumAppend(a: seq<nat>, b: seq<nat>)
    ensures Sum(a + b) == Sum(a) + Sum(b)
    decreases |a|
  {
    if |a| == 0 {
      assert a + b == b;
    } else {
      assert (a + b)[1..] == a[1..] + b;
      SumAppend(a[1..], b);
    }
  }

  /** A constant sequence `c, c, ..., c` of length `n` sums to `n * c`. */
  lemma {:induction false} SumConstant(n: nat, c: nat)
    ensures Sum(seq(n, _ => c)) == n * c
    decreases n
  {
    if n > 0 {
      assert seq(n, _ => c)[1..] == seq(n - 1, _ => c);
      SumConstant(n - 1, c);
    }
  }

  /** Summing a pointwise sum of two equally long sequences. */
  lemma {:induction false} SumPointwise(a: seq<nat>, b: seq<nat>)
    requires |a| == |b|
    ensures Sum(seq(|a|, i requires 0 <= i < |a| => a[i] + b[i])) == Sum(a) + Sum(b)
    decreases |a|
  {
    var s := seq(|a|, i requires 0 <= i < |a| => a[i] + b[i]);
    if |a| > 0 {
      assert s[1..] == seq(|a[1..]|, i requires 0 <= i < |a[1..]| => a[1..][i] + b[1..][i]);
      SumPointwise(a[1..], b[1..]);
    }
  }

  /** True when no element of `s` occurs twice. */
  predicate Distinct<T(==)>(s: seq<T>)
  {
    forall i, j :: 0 <= i < j < |s| ==> s[i] != s[j]
  }

  /** The number of compositions of `n` into `k` parts, by the case split on the first part. */
  function Count(n: nat, k: nat): nat
    decreases n + k
  {
    if k == 0 then (if n == 0 then 1 else 0)
    else Count(n, k - 1) + (if n == 0 then 0 else Count(n - 1, k))
  }

  /** Raises the first part of a non-empty sequence by one. */
  function IncHead(x: seq<nat>): (r: seq<nat>)
    requires |x| >= 1
    ensures |r| == |x| && r[0] == x[0] + 1 && r[1..] == x[1..]
    ensures Sum(r) == Sum(x) + 1
  {
    SumCons(x[0] + 1, x[1..]);
    SumCons(x[0], x[1..]);
    assert x == [x[0]] + x[1..];
    [x[0] + 1] + x[1..]
  }

  /** Lowers the first part of a sequence by one; `IncHead` undoes it. */
  function DecHead(x: seq<nat>): (r: seq<nat>)
    requires |x| >= 1 && x[0] >= 1
    ensures |r| == |x| && r[0] == x[0] - 1 && r[1..] == x[1..]
    ensures Sum(r) + 1 == Sum(x) && IncHead(r) == x
  {
    SumCons(x[0] - 1, x[1..]);
    SumCons(x[0], x[1..]);
    assert x == [x[0]] + x[1..];
    [x[0] - 1] + x[1..]
  }

  /** The composition at position `i` of the listing of compositions of `n` into `k` parts. */
  function Unrank(n: nat, k: nat, i: nat): (x: seq<nat>)
    requires i < Count(n, k)
    ensures |x| == k && Sum(x) == n
    decreases n + k
  {
    if k == 0 then []
    else if i < Count(n, k - 1) then
      SumCons(0, Unrank(n, k - 1, i));
      [0] + Unrank(n, k - 1, i)
    else
      IncHead(Unrank(n - 1, k, i - Count(n, k - 1)))
  }

  /** The position of composition `x` in the listing of compositions of `n` into `k` parts. */
  function Rank(n: nat, k: nat, x: seq<nat>): (i: nat)
    requires |x| == k && Sum(x) == n
    ensures i < Count(n, k)
    decreases n + k
  {
    if k == 0 then 0
    else if x[0] == 0 then
      SumCons(x[0], x[1..]);
      assert x == [x[0]] + x[1..];
      Rank(n, k - 1, x[1..])
    else
      Count(n, k - 1) + Rank(n - 1, k, DecHead(x))
  }

  /** Ranking the composition at position `i` gives back `i`. */
  lemma {:induction false} RankUnrank(n: nat, k: nat, i: nat)
    requires i < Count(n, k)
    ensures Rank(n, k, Unrank(n, k, i)) == i
    decreases n + k
  {
    var x := Unrank(n, k, i);
    if k > 0 {
      if i < Count(n, k - 1) {
        assert x[1..] == Unrank(n, k - 1, i);
        RankUnrank(n, k - 1, i);
      } else {
        var y := Unrank(n - 1, k, i - Count(n, k - 1));
        assert DecHead(x) == y;
        RankUnrank(n - 1, k, i - Count(n, k - 1));
      }
    }
  }

  /** Unranking the position of `x` gives back `x`. */
  lemma {:induction false} UnrankRank(n: nat, k: nat, x: seq<nat>)
    requires |x| == k && Sum(x) == n
    ensures Unrank(n, k, Rank(n, k, x)) == x
    decreases n + k
  {
    if k > 0 {
      if x[0] == 0 {
        UnrankRank(n, k - 1, x[1..]);
        UnrankZeroHead(n, k, x);
      } else {
        UnrankRank(n - 1, k, DecHead(x));
        UnrankPositiveHead(n, k, x);
      }
    }
  }

  /** The step of `UnrankRank` for a composition whose first part is 0. */
  lemma UnrankZeroHead(n: nat, k: nat, x: seq<nat>)
    requires k > 0 && |x| == k && Sum(x) == n && x[0] == 0 && Sum(x[1..]) == n
    requires Unrank(n, k - 1, Rank(n, k - 1, x[1..])) == x[1..]
    ensures Unrank(n, k, Rank(n, k, x)) == x
  {
    assert x == [x[0]] + x[1..];
  }

  /** The step of `UnrankRank` for a composition whose first part is positive. */
  lemma UnrankPositiveHead(n: nat, k: nat, x: seq<nat>)
    requires k > 0 && |x| == k && Sum(x) == n && x[0] > 0
    requires Unrank(n - 1, k, Rank(n - 1, k, DecHead(x))) == DecHead(x)
    ensures Unrank(n, k, Rank(n, k, x)) == x
  {
  }

  /**
   * Every sequence of `k` naturals summing to `n`, each exactly once (see
   * `CompositionsMembership` and `CompositionsDistinct`).
   */
  function AllCompositions(n: nat, k: nat): (r: seq<seq<nat>>)
    ensures |r| == Count(n, k)
    ensures forall i :: 0 <= i < |r| ==> |r[i]| == k && Sum(r[i]) == n
  {
    seq(Count(n, k), i requires 0 <= i < Count(n, k) => Unrank(n, k, i))
  }

  /** A sequence is listed exactly when it has `k` parts summing to `n`. */
  lemma CompositionsMembership(n: nat, k: nat, x: seq<nat>)
    ensures x in AllCompositions(n, k) <==> |x| == k && Sum(x) == n
  {
    if |x| == k && Sum(x) == n {
      UnrankRank(n, k, x);
      assert AllCompositions(n, k)[Rank(n, k, x)] == x;
    }
  }

  /** The position at which a composition is listed. */
  lemma CompositionIndex(n: nat, k: nat, x: seq<nat>) returns (i: nat)
    requires |x| == k && Sum(x) == n
    ensures i < |AllCompositions(n, k)| && AllCompositions(n, k)[i] == x
  {
    i := Rank(n, k, x);
    UnrankRank(n, k, x);
  }

  /** No composition is listed twice. */
  lemma CompositionsDistinct(n: nat, k: nat)
    ensures Distinct(AllCompositions(n, k))
  {
    var r := AllCompositions(n, k);
    forall i, j | 0 <= i < j < |r|
      ensures r[i] != r[j]
    {
      RankUnrank(n, k, i);
      RankUnrank(n, k, j);
    }
  }

  /** There are C(n + m, m) compositions of `n` into `m + 1` parts. */
  lemma CompositionsCount(n: nat, m: nat)
    ensures |AllCompositions(n, m + 1)| == Binomial(n + m, m)
  {
    CountIsBinomial(n, m + 1);
  }

  /** Zero has exactly one composition into any number of parts: all parts 0. */
  lemma {:induction false} CountNothing(k: nat)
    ensures Count(0, k) == 1
    decreases k
  {
    if k > 0 {
      CountNothing(k - 1);
    }
  }

  /** Binomial coefficients by Pascal's rule. */
  function Binomial(a: nat, b: nat): nat
  {
    if b == 0 then 1
    else if a == 0 then 0
    else Binomial(a - 1, b - 1) + Binomial(a - 1, b)
  }

  lemma {:induction false} BinomialAbove(a: nat, b: nat)
    requires b > a
    ensures Binomial(a, b) == 0
    decreases a
  {
    if a > 0 {
      BinomialAbove(a - 1, b - 1);
      BinomialAbove(a - 1, b);
    }
  }

  lemma {:induction false} BinomialDiagonal(a: nat)
    ensures Binomial(a, a) == 1
    decreases a
  {
    if a > 0 {
      BinomialDiagonal(a - 1);
      BinomialAbove(a - 1, a);
    }
  }

  /** There are C(n + k - 1, k - 1) compositions of `n` into `k >= 1` parts. */
  lemma {:induction false} CountIsBinomial(n: nat, k: nat)
    requires k >= 1
    ensures Count(n, k) == Binomial(n + k - 1, k - 1)
    decreases n + k
  {
    if k == 1 {
      if n > 0 {
        CountIsBinomial(n - 1, k);
      }
    } else if n == 0 {
      CountIsBinomial(n, k - 1);
      BinomialDiagonal(k - 2);
      BinomialDiagonal(k - 1);
    } else {
      CountIsBinomial(n, k - 1);
      CountIsBinomial(n - 1, k);
    }
  }
}
