/**
 * The frequency model of script.py: per-language word counts
 * (`language_frequency_table`), the most and least common word it reports,
 * and the top-K common-word cutoff (`most_common_words`).
 */
module Frequency {
  import opened Wrappers
  import opened Seqs
  import opened Counters
  import opened Extremes
  import opened Sorting

  /** `MOST_COMMON_WORDS_CUTOFF`. */
  const MostCommonWordsCutoff: nat := 5000

  /** The counting loop of `language_frequency_table`, from table `t` on. */
  function BuildFrom(t: Counter, sentences: seq<seq<string>>): (r: Counter)
    requires Valid(t)
    ensures Valid(r)
    decreases |sentences|
  {
    if |sentences| == 0 then t else BuildFrom(Update(t, sentences[0]), sentences[1..])
  }

  lemma {:induction false} BuildFromCounts(t: Counter, sentences: seq<seq<string>>, w: string)
    requires Valid(t)
    ensures Get(BuildFrom(t, sentences), w) == Get(t, w) + multiset(Flatten(sentences))[w]
    ensures w in BuildFrom(t, sentences).counts <==> w in t.counts || w in Flatten(sentences)
    decreases |sentences|
  {
    if |sentences| > 0 {
      var t' := Update(t, sentences[0]);
      UpdateCounts(t, sentences[0], w);
      UpdateKeys(t, sentences[0], w);
      BuildFromCounts(t', sentences[1..], w);
    }
  }

  /**
   * The word table of a list of tokenized sentences: each word maps to its
   * number of occurrences over all sentences, and only words that occur are
   * keys.
   */
  function BuildTable(sentences: seq<seq<string>>): (t: Counter)
    ensures Valid(t)
    ensures forall w :: Get(t, w) == multiset(Flatten(sentences))[w]
    ensures forall w :: w in t.counts <==> w in Flatten(sentences)
  {
    var t := BuildFrom(Empty, sentences);
    forall w
      ensures Get(t, w) == multiset(Flatten(sentences))[w]
      ensures w in t.counts <==> w in Flatten(sentences)
    {
      BuildFromCounts(Empty, sentences, w);
    }
    t
  }

  /** The counts do not depend on the order of the sentences. */
  lemma BuildTableOrderInvariant(a: seq<seq<string>>, b: seq<seq<string>>)
    requires multiset(a) == multiset(b)
    ensures BuildTable(a).counts == BuildTable(b).counts
  {
    FlattenPermutation(a, b);
    var ta, tb := BuildTable(a), BuildTable(b);
    forall w
      ensures w in ta.counts <==> w in tb.counts
      ensures w in ta.counts ==> ta.counts[w] == tb.counts[w]
    {
      assert Get(ta, w) == Get(tb, w);
    }
    assert ta.counts.Keys == tb.counts.Keys;
  }

  /**
   * `most_common(c)`, i.e. `c.most_common(1)[0][0]`: the first key, in
   * insertion order, with the largest count. `None` where the script fails
   * with an IndexError on an empty table.
   */
  function MostCommon(t: Counter): (r: Option<string>)
    requires Valid(t)
    ensures r.None? <==> |t.keys| == 0
    ensures r.Some? ==> r.value in t.counts
    ensures r.Some? ==> forall w :: w in t.counts ==> Get(t, w) <= Get(t, r.value)
    ensures r.Some? ==> exists k :: 0 <= k < |t.keys| && t.keys[k] == r.value
                          && forall j :: 0 <= j < k ==> Get(t, t.keys[j]) < Get(t, r.value)
  {
    if |t.keys| == 0 then None
    else
      var k := ArgMin(t.keys, NegCount(t));
      assert forall w :: w in t.counts ==> exists j :: 0 <= j < |t.keys| && t.keys[j] == w;
      Some(t.keys[k])
  }

  /**
   * `least_common(c)`: the first key, in insertion order, with the smallest
   * count. `None` where `min` of the empty value list raises.
   */
  function LeastCommon(t: Counter): (r: Option<string>)
    requires Valid(t)
    ensures r.None? <==> |t.keys| == 0
    ensures r.Some? ==> r.value in t.counts
    ensures r.Some? ==> forall w :: w in t.counts ==> Get(t, r.value) <= Get(t, w)
    ensures r.Some? ==> exists k :: 0 <= k < |t.keys| && t.keys[k] == r.value
                          && forall j :: 0 <= j < k ==> Get(t, r.value) < Get(t, t.keys[j])
  {
    if |t.keys| == 0 then None
    else
      var k := ArgMin(t.keys, Count(t));
      assert forall w :: w in t.counts ==> exists j :: 0 <= j < |t.keys| && t.keys[j] == w;
      Some(t.keys[k])
  }

  /**
   * `language_frequency_table`: the table, or `None` where reporting its most
   * and least common word fails because no word was seen.
   */
  function LanguageFrequencyTable(sentences: seq<seq<string>>): (r: Option<Counter>)
    ensures r.None? <==> Flatten(sentences) == []
    ensures r.Some? ==> Valid(r.value)
    ensures r.Some? ==> forall w :: Get(r.value, w) == multiset(Flatten(sentences))[w]
  {
    var t := BuildTable(sentences);
    if Flatten(sentences) != [] then
      assert Flatten(sentences)[0] in t.counts;
      assert |t.keys| > 0;
      match (MostCommon(t), LeastCommon(t))
      case (Some(_), Some(_)) => Some(t)
    else
      assert |t.keys| > 0 ==> t.keys[0] in t.counts;
      None
  }

  function Min(a: nat, b: nat): nat
  {
    if a < b then a else b
  }

  /**
   * `most_common_words(c)` with cutoff `n`: the first `n` keys of the table
   * sorted by count, highest first, ties in insertion order
   * (`Counter.most_common(n)` is `sorted(..., reverse=True)[:n]`).
   */
  function MostCommonWords(t: Counter, n: nat): (r: set<string>)
    requires Valid(t)
    ensures |r| == Min(n, |t.keys|)
    ensures r <= t.counts.Keys
    ensures forall w, v :: w in r && v in t.counts && v !in r ==> Get(t, v) <= Get(t, w)
  {
    var ranked := SortDesc(t.keys, CountKey(t));
    var m := Min(n, |ranked|);
    TopPrefix(t, ranked, m);
    Elements(ranked[..m])
  }

  lemma TopPrefix(t: Counter, ranked: seq<string>, m: nat)
    requires Valid(t)
    requires multiset(ranked) == multiset(t.keys)
    requires SortedDesc(ranked, CountKey(t))
    requires m <= |ranked|
    ensures |Elements(ranked[..m])| == m
    ensures Elements(ranked[..m]) <= t.counts.Keys
    ensures forall w, v :: w in Elements(ranked[..m]) && v in t.counts && v !in Elements(ranked[..m])
                           ==> Get(t, v) <= Get(t, w)
  {
    var top := Elements(ranked[..m]);
    PermutationDistinct(t.keys, ranked);
    assert Distinct(ranked[..m]);
    DistinctElements(ranked[..m]);
    forall w | w in top
      ensures w in t.counts
    {
      assert w in multiset(ranked);
    }
    forall w, v | w in top && v in t.counts && v !in top
      ensures Get(t, v) <= Get(t, w)
    {
      var i :| 0 <= i < m && ranked[i] == w;
      assert v in multiset(t.keys);
      var j :| 0 <= j < |ranked| && ranked[j] == v;
      assert forall i :: 0 <= i < m ==> ranked[..m][i] == ranked[i];
      assert CountKey(t)(ranked[i]) >= CountKey(t)(ranked[j]);
    }
  }
}
