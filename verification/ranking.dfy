/**
 * `sort_pairs` and `avg_freq`: pairs are ordered by the average count of
 * their French words divided by the number of French words, highest first,
 * with ties kept in input order. Scores are exact rationals.
 */
module Ranking {
  import opened Counters
  import opened Sorting
  import opened Loader

  /** `sum(tbl[w] for w in words)`. */
  function WordsSum(words: seq<string>, tbl: Counter): nat
  {
    if |words| == 0 then 0 else Get(tbl, words[0]) + WordsSum(words[1..], tbl)
  }

  /**
   * `avg_freq(words, tbl)`: the mean count of the words, which is never
   * negative and is the common count when all the words count the same.
   */
  function AvgFreq(words: seq<string>, tbl: Counter): (r: real)
    requires |words| > 0
    ensures r >= 0.0
    ensures (forall w :: w in words ==> Get(tbl, w) == Get(tbl, words[0])) ==> r == Get(tbl, words[0]) as real
  {
    var c := Get(tbl, words[0]);
    var avg := WordsSum(words, tbl) as real / |words| as real;
    assert (forall w :: w in words ==> Get(tbl, w) == c) ==> avg == c as real by {
      if forall w :: w in words ==> Get(tbl, w) == c {
        WordsSumBounds(words, tbl, c, c);
        AvgBetween(WordsSum(words, tbl), |words|, c, c);
      }
    }
    avg
  }

  /** The mean is the sum of the words' counts divided by their number. */
  lemma {:induction false} AvgFreqValue(words: seq<string>, tbl: Counter)
    requires |words| > 0
    ensures AvgFreq(words, tbl) * |words| as real == WordsSum(words, tbl) as real
  {
    DivMul(AvgFreq(words, tbl), WordsSum(words, tbl) as real, |words| as real);
  }

  /** A quotient times its divisor gives the dividend back. */
  lemma DivMul(q: real, s: real, n: real)
    requires n > 0.0 && q == s / n
    ensures q * n == s
  {
  }

  lemma {:induction false} WordsSumBounds(words: seq<string>, tbl: Counter, lo: nat, hi: nat)
    requires forall w :: w in words ==> lo <= Get(tbl, w) <= hi
    ensures lo * |words| <= WordsSum(words, tbl) <= hi * |words|
  {
    if |words| > 0 {
      var m := |words| - 1;
      var first := Get(tbl, words[0]);
      var rest := WordsSum(words[1..], tbl);
      assert words[0] in words;
      assert forall w :: w in words[1..] ==> w in words;
      WordsSumBounds(words[1..], tbl, lo, hi);
      StepBounds(lo, hi, m, first, rest);
    }
  }

  /** One more summand between `lo` and `hi` keeps the running bounds. */
  lemma StepBounds(lo: nat, hi: nat, m: nat, x: nat, sum: nat)
    requires lo <= x <= hi
    requires lo * m <= sum <= hi * m
    ensures lo * (m + 1) <= x + sum <= hi * (m + 1)
  {
    assert lo * (m + 1) == lo * m + lo;
    assert hi * (m + 1) == hi * m + hi;
  }

  /** The average lies between the smallest and the largest count. */
  lemma AvgFreqBounds(words: seq<string>, tbl: Counter, lo: nat, hi: nat)
    requires |words| > 0
    requires forall w :: w in words ==> lo <= Get(tbl, w) <= hi
    ensures lo as real <= AvgFreq(words, tbl) <= hi as real
  {
    WordsSumBounds(words, tbl, lo, hi);
    AvgBetween(WordsSum(words, tbl), |words|, lo, hi);
  }

  /** Integer bounds on a sum carry over to the exact average. */
  lemma AvgBetween(s: nat, n: nat, lo: nat, hi: nat)
    requires n > 0 && lo * n <= s <= hi * n
    ensures lo as real <= s as real / n as real <= hi as real
  {
    var ln, hn := lo * n, hi * n;
    IntMulToReal(lo, n);
    IntMulToReal(hi, n);
    assert ln as real <= s as real <= hn as real;
    DivBounds(s as real, n as real, lo as real, hi as real);
  }

  lemma {:induction false} IntMulToReal(a: int, b: nat)
    ensures (a * b) as real == a as real * b as real
  {
    if b > 0 {
      IntMulToReal(a, b - 1);
      assert a * b == a * (b - 1) + a;
      assert a as real * b as real == a as real * (b - 1) as real + a as real;
    }
  }

  lemma DivBounds(s: real, n: real, lo: real, hi: real)
    requires n > 0.0 && lo * n <= s <= hi * n
    ensures lo <= s / n <= hi
  {
    var q := s / n;
    assert q * n == s;
    MulMonotone(lo, q, n);
    MulMonotone(q, hi, n);
  }

  /**
   * The key of `sort_pairs`, `avg_freq(p.fra_words, tbl) / len(p.fra_words)`,
   * computed as the sum over the squared length.
   */
  function Score(p: Pair, tbl: Counter): (r: real)
    requires |p.fraWords| > 0
    ensures r >= 0.0
    ensures r == AvgFreq(p.fraWords, tbl) / |p.fraWords| as real
  {
    var n := |p.fraWords|;
    var s := WordsSum(p.fraWords, tbl) as real;
    IntMulToReal(n, n);
    DivTwice(s, n as real, Square(n) as real);
    s / Square(n) as real
  }

  lemma DivTwice(s: real, n: real, sq: real)
    requires n > 0.0 && sq > 0.0 && sq == n * n
    ensures s / n / n == s / sq
  {
  }

  /** `Score` as a total key; the fallback is never used by `SortPairs`. */
  function RankKey(tbl: Counter): Pair -> real
  {
    (p: Pair) => if |p.fraWords| == 0 then 0.0 else Score(p, tbl)
  }

  /**
   * Comparing scores is comparing integers: `p` ranks no higher than `q`
   * exactly when sum(p) * len(q)^2 <= sum(q) * len(p)^2.
   */
  lemma ScoreCrossMultiplied(p: Pair, q: Pair, tbl: Counter)
    requires |p.fraWords| > 0 && |q.fraWords| > 0
    ensures Score(p, tbl) <= Score(q, tbl)
        <==> WordsSum(p.fraWords, tbl) * Square(|q.fraWords|) <= WordsSum(q.fraWords, tbl) * Square(|p.fraWords|)
  {
    CrossScores(WordsSum(p.fraWords, tbl), Square(|p.fraWords|), WordsSum(q.fraWords, tbl), Square(|q.fraWords|));
  }

  /** Two quotients of naturals compare as their cross products do. */
  lemma CrossScores(sp: nat, np: nat, sq: nat, nq: nat)
    requires np > 0 && nq > 0
    ensures sp as real / np as real <= sq as real / nq as real <==> sp * nq <= sq * np
  {
    var a, b := sp as real / np as real, sq as real / nq as real;
    assert a * (np as real) == sp as real;
    assert b * (nq as real) == sq as real;
    CrossMultiplyInt(a, b, np, nq, sp, sq);
  }

  function Square(n: nat): (r: nat)
    ensures n > 0 ==> r > 0
    ensures r == n * n
  {
    n * n
  }

  lemma CrossMultiplyInt(a: real, b: real, np: nat, nq: nat, sp: nat, sq: nat)
    requires np > 0 && nq > 0
    requires a * (np as real) == sp as real && b * (nq as real) == sq as real
    ensures a <= b <==> sp * nq <= sq * np
  {
    CrossMultiply(a, b, np as real, nq as real, sp as real, sq as real);
    IntMulToReal(sp, nq);
    IntMulToReal(sq, np);
  }

  lemma CrossMultiply(a: real, b: real, x: real, y: real, sa: real, sb: real)
    requires x > 0.0 && y > 0.0
    requires a * x == sa && b * y == sb
    ensures a <= b <==> sa * y <= sb * x
  {
    assert sa * y == a * (x * y);
    assert sb * x == b * (x * y);
    MulMonotone(a, b, x * y);
  }

  lemma MulMonotone(a: real, b: real, c: real)
    requires c > 0.0
    ensures a <= b <==> a * c <= b * c
  {
    if a <= b {
      assert (b - a) * c >= 0.0;
    } else {
      assert (a - b) * c > 0.0;
    }
  }

  /**
   * `sort_pairs`: a permutation of the input in non-increasing score order.
   * Every French word list must be non-empty, as the division by its length
   * demands.
   */
  function SortPairs(pairs: seq<Pair>, tbl: Counter): (r: seq<Pair>)
    requires forall p :: p in pairs ==> |p.fraWords| > 0
    ensures multiset(r) == multiset(pairs)
    ensures forall p :: p in r ==> |p.fraWords| > 0
    ensures forall i, j :: 0 <= i < j < |r| ==> Score(r[i], tbl) >= Score(r[j], tbl)
  {
    var r := SortDesc(pairs, RankKey(tbl));
    assert forall p :: p in r ==> p in multiset(pairs);
    assert forall i, j :: 0 <= i < j < |r| ==> RankKey(tbl)(r[i]) >= RankKey(tbl)(r[j]);
    r
  }

  /** Pairs with equal scores leave the sort in the order they entered it. */
  lemma SortPairsStable(pairs: seq<Pair>, tbl: Counter, v: real)
    requires forall p :: p in pairs ==> |p.fraWords| > 0
    ensures WithKey(SortPairs(pairs, tbl), RankKey(tbl), v) == WithKey(pairs, RankKey(tbl), v)
  {
    SortDescStable(pairs, RankKey(tbl), v);
  }
}
