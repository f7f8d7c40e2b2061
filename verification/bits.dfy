/**
 * Lines of cells as bit patterns. A line is a `seq<bool>` (true = filled);
 * its pattern is the natural number whose binary digits are the cells, the
 * first cell being the most significant one, so that bit `b` of a pattern
 * of length `len` is the cell at offset `len - 1 - b`.
 */
module Bits {

  function Pow2(n: nat): (r: nat)
    ensures r >= 1
  {
    if n == 0 then 1 else 2 * Pow2(n - 1)
  }

  /** Python's `x << n` on non-negative integers. */
  function ShiftLeft(x: nat, n: nat): nat
  {
    x * Pow2(n)
  }

  /** `n` unfilled cells. */
  function Zeros(n: nat): (s: seq<bool>)
    ensures |s| == n && forall i :: 0 <= i < n ==> !s[i]
  {
    seq(n, _ => false)
  }

  /** `n` filled cells. */
  function Ones(n: nat): (s: seq<bool>)
    ensures |s| == n && forall i :: 0 <= i < n ==> s[i]
  {
    seq(n, _ => true)
  }

  function BitValue(b: bool): nat
  {
    if b then 1 else 0
  }

  /** The pattern of a line: its cells read as a binary numeral, first cell most significant. */
  function Encode(s: seq<bool>): (p: nat)
    ensures p < Pow2(|s|)
  {
    if |s| == 0 then 0 else 2 * Encode(s[..|s| - 1]) + BitValue(s[|s| - 1])
  }

  /** The line of length `len` whose pattern is `p` modulo 2^len. */
  function Decode(p: nat, len: nat): (s: seq<bool>)
    ensures |s| == len
  {
    if len == 0 then [] else Decode(p / 2, len - 1) + [p % 2 == 1]
  }

  /** Bit `b` of `p`, counting from the least significant bit. */
  function Bit(p: nat, b: nat): bool
  {
    if b == 0 then p % 2 == 1 else Bit(p / 2, b - 1)
  }

  /** Cell `i` of a decoded line is bit `len - 1 - i` of the pattern. */
  lemma {:induction false} DecodeBit(p: nat, len: nat, i: nat)
    requires i < len
    ensures Decode(p, len)[i] == Bit(p, len - 1 - i)
    decreases len
  {
    if i < len - 1 {
      DecodeBit(p / 2, len - 1, i);
    }
  }

  lemma {:induction false} DecodeEncode(s: seq<bool>)
    ensures Decode(Encode(s), |s|) == s
    decreases |s|
  {
    if |s| > 0 {
      var front := s[..|s| - 1];
      DecodeEncode(front);
      assert Encode(s) / 2 == Encode(front);
      assert s == front + [s[|s| - 1]];
    }
  }

  lemma {:induction false} EncodeDecode(p: nat, len: nat)
    requires p < Pow2(len)
    ensures Encode(Decode(p, len)) == p
    decreases len
  {
    if len > 0 {
      var s := Decode(p, len);
      assert s[..len - 1] == Decode(p / 2, len - 1);
      EncodeDecode(p / 2, len - 1);
    }
  }

  /** Two lines of the same length with the same pattern are the same line. */
  lemma EncodeInjective(a: seq<bool>, b: seq<bool>)
    requires |a| == |b| && Encode(a) == Encode(b)
    ensures a == b
  {
    DecodeEncode(a);
    DecodeEncode(b);
  }

  lemma {:induction false} EncodeAppend(a: seq<bool>, b: seq<bool>)
    ensures Encode(a + b) == Encode(a) * Pow2(|b|) + Encode(b)
    decreases |b|
  {
    if |b| == 0 {
      assert a + b == a;
    } else {
      var b' := b[..|b| - 1];
      var x := BitValue(b[|b| - 1]);
      assert (a + b)[..|a + b| - 1] == a + b';
      EncodeAppend(a, b');
      var e, q, f := Encode(a), Pow2(|b'|), Encode(b');
      assert Encode(a + b) == 2 * Encode(a + b') + x;
      assert Encode(b) == 2 * f + x;
      assert Pow2(|b|) == 2 * q;
      MulDouble(e, q);
    }
  }

  lemma MulDouble(e: nat, q: nat)
    ensures 2 * (e * q) == e * (2 * q)
  {
  }

  /** A block of `n` filled cells encodes as 2^n - 1 (Python's `int('1' * n, 2)`). */
  lemma {:induction false} EncodeOnes(n: nat)
    ensures Encode(Ones(n)) == Pow2(n) - 1
    decreases n
  {
    if n > 0 {
      assert Ones(n)[..n - 1] == Ones(n - 1);
      EncodeOnes(n - 1);
    }
  }

  /** Leading unfilled cells do not change a pattern. */
  lemma EncodeZerosPrefix(n: nat, s: seq<bool>)
    ensures Encode(Zeros(n) + s) == Encode(s)
  {
    EncodeAppend(Zeros(n), s);
    EncodeZeros(n);
  }

  lemma {:induction false} EncodeZeros(n: nat)
    ensures Encode(Zeros(n)) == 0
    decreases n
  {
    if n > 0 {
      assert Zeros(n)[..n - 1] == Zeros(n - 1);
      EncodeZeros(n - 1);
    }
  }

  /** The number of filled cells. */
  function PopCount(s: seq<bool>): nat
  {
    if |s| == 0 then 0 else PopCount(s[..|s| - 1]) + BitValue(s[|s| - 1])
  }

  lemma {:induction false} PopCountAppend(a: seq<bool>, b: seq<bool>)
    ensures PopCount(a + b) == PopCount(a) + PopCount(b)
    decreases |b|
  {
    if |b| == 0 {
      assert a + b == a;
    } else {
      assert (a + b)[..|a + b| - 1] == a + b[..|b| - 1];
      PopCountAppend(a, b[..|b| - 1]);
    }
  }

  lemma {:induction false} PopCountOnes(n: nat)
    ensures PopCount(Ones(n)) == n
    decreases n
  {
    if n > 0 {
      assert Ones(n)[..n - 1] == Ones(n - 1);
      PopCountOnes(n - 1);
    }
  }

  /** The sum over the cells of `value(cell) << (len - 1 - i)`. */
  function WeightedSum(s: seq<bool>): nat
  {
    if |s| == 0 then 0 else BitValue(s[0]) * Pow2(|s| - 1) + WeightedSum(s[1..])
  }

  /** The pattern of a line is the weighted sum of its cells. */
  lemma {:induction false} EncodeIsWeightedSum(s: seq<bool>)
    ensures Encode(s) == WeightedSum(s)
    decreases |s|
  {
    if |s| > 0 {
      assert s == [s[0]] + s[1..];
      EncodeAppend([s[0]], s[1..]);
      assert Encode([s[0]]) == BitValue(s[0]) by {
        assert [s[0]][..0] == [];
      }
      EncodeIsWeightedSum(s[1..]);
    }
  }
}
