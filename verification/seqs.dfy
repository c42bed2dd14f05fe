/** Generic sequence vocabulary: concatenation of chunks, filtering, subsequences. */
module Seqs {

  /** Concatenation of all chunks, left to right. */
  function Flatten<T>(ss: seq<seq<T>>): seq<T>
  {
    if |ss| == 0 then [] else ss[0] + Flatten(ss[1..])
  }

  lemma {:induction false} FlattenAppend<T>(a: seq<seq<T>>, b: seq<seq<T>>)
    ensures Flatten(a + b) == Flatten(a) + Flatten(b)
  {
    if |a| == 0 {
      assert a + b == b;
    } else {
      assert (a + b)[1..] == a[1..] + b;
      FlattenAppend(a[1..], b);
    }
  }

  /** Reordering the chunks does not change the multiset of their elements. */
  lemma {:induction false} FlattenPermutation<T>(a: seq<seq<T>>, b: seq<seq<T>>)
    requires multiset(a) == multiset(b)
    ensures multiset(Flatten(a)) == multiset(Flatten(b))
  {
    if |a| == 0 {
      assert |multiset(b)| == 0;
      assert b == [];
    } else {
      assert a[0] in multiset(b);
      var j :| 0 <= j < |b| && b[j] == a[0];
      var rest := b[..j] + b[j + 1..];
      RemoveMatched(a, b, j);
      FlattenPermutation(a[1..], rest);
      FlattenRemove(b, j);
      assert a == [a[0]] + a[1..];
    }
  }

  /** Taking the same element out of two permutations leaves permutations. */
  lemma RemoveMatched<T>(a: seq<T>, b: seq<T>, j: nat)
    requires multiset(a) == multiset(b) && |a| > 0
    requires j < |b| && b[j] == a[0]
    ensures multiset(a[1..]) == multiset(b[..j] + b[j + 1..])
  {
    var x, pre, post := a[0], b[..j], b[j + 1..];
    assert b == pre + [x] + post;
    assert a == [x] + a[1..];
    var l, r := multiset(a[1..]), multiset(pre + post);
    calc {
      l + multiset{x};
      multiset(a);
      multiset(b);
      multiset(pre) + multiset{x} + multiset(post);
      r + multiset{x};
    }
    assert forall y :: l[y] == (l + multiset{x})[y] - multiset{x}[y];
  }

  /** Flattening with one chunk taken out loses exactly that chunk's elements. */
  lemma FlattenRemove<T>(b: seq<seq<T>>, j: nat)
    requires j < |b|
    ensures multiset(Flatten(b)) == multiset(b[j]) + multiset(Flatten(b[..j] + b[j + 1..]))
  {
    var pre, x, post := b[..j], b[j], b[j + 1..];
    assert b[j..] == [x] + post;
    assert b == pre + b[j..];
    FlattenAppend(pre, [x] + post);
    FlattenAppend([x], post);
    FlattenAppend(pre, post);
    assert Flatten([x]) == x by {
      assert [x][1..] == [];
    }
    var fp, fq := Flatten(pre), Flatten(post);
    assert Flatten(b) == fp + (x + fq);
    assert Flatten(pre + post) == fp + fq;
    assert multiset(fp + (x + fq)) == multiset(x) + multiset(fp + fq);
  }

  /** The elements of `s` that satisfy `p`, in their original order. */
  function Filter<T>(s: seq<T>, p: T -> bool): (r: seq<T>)
    ensures |r| <= |s|
    ensures forall x :: x in r ==> x in s && p(x)
    ensures forall x :: x in s && p(x) ==> x in r
  {
    if |s| == 0 then []
    else (if p(s[0]) then [s[0]] else []) + Filter(s[1..], p)
  }

  /** `f` applied to every element, order kept. */
  function Map<T, U>(s: seq<T>, f: T -> U): (r: seq<U>)
    ensures |r| == |s|
    ensures forall i :: 0 <= i < |s| ==> r[i] == f(s[i])
  {
    seq(|s|, i requires 0 <= i < |s| => f(s[i]))
  }

  lemma MapSnoc<T, U>(s: seq<T>, f: T -> U)
    requires |s| > 0
    ensures Map(s, f) == Map(s[..|s| - 1], f) + [f(s[|s| - 1])]
  {
  }

  /** `idx` lists strictly increasing positions of `b` that spell out `a`. */
  ghost predicate Embeds<T>(idx: seq<nat>, a: seq<T>, b: seq<T>)
  {
    && |idx| == |a|
    && (forall k :: 0 <= k < |idx| ==> idx[k] < |b| && a[k] == b[idx[k]])
    && (forall k, l :: 0 <= k < l < |idx| ==> idx[k] < idx[l])
  }

  /** `a` is obtained from `b` by deleting elements: relative order is kept. */
  ghost predicate IsSubseq<T>(a: seq<T>, b: seq<T>)
  {
    exists idx :: Embeds(idx, a, b)
  }

  /** An embedding of `a` into `b` is one of `a + [x]` into `b + [x]`. */
  lemma EmbedsSnoc<T>(idx: seq<nat>, a: seq<T>, b: seq<T>, x: T)
    requires Embeds(idx, a, b)
    ensures Embeds(idx + [|b|], a + [x], b + [x])
  {
  }

  /** An embedding into `b` is still one into `b + [x]`. */
  lemma EmbedsExtend<T>(idx: seq<nat>, a: seq<T>, b: seq<T>, x: T)
    requires Embeds(idx, a, b)
    ensures Embeds(idx, a, b + [x])
  {
  }

  /** Every position moved one place to the right. */
  function Shift(idx: seq<nat>): (r: seq<nat>)
    ensures |r| == |idx| && forall k :: 0 <= k < |idx| ==> r[k] == idx[k] + 1
  {
    seq(|idx|, k requires 0 <= k < |idx| => idx[k] + 1)
  }

  /** An embedding into the tail of `s` is, shifted, one into `s`. */
  lemma EmbedsTail<T>(idx: seq<nat>, a: seq<T>, s: seq<T>)
    requires |s| > 0 && Embeds(idx, a, s[1..])
    ensures Embeds(Shift(idx), a, s)
  {
    forall k | 0 <= k < |idx|
      ensures Shift(idx)[k] < |s| && a[k] == s[Shift(idx)[k]]
    {
      assert a[k] == s[1..][idx[k]];
    }
  }

  /** An embedding into the tail of `s`, shifted, with the head in front, is one of `[s[0]] + a`. */
  lemma EmbedsCons<T>(idx: seq<nat>, a: seq<T>, s: seq<T>)
    requires |s| > 0 && Embeds(idx, a, s[1..])
    ensures Embeds([0] + Shift(idx), [s[0]] + a, s)
  {
    EmbedsTail(idx, a, s);
  }

  /** `Filter` keeps the order of the elements it retains. */
  lemma {:induction false} FilterIsSubseq<T>(s: seq<T>, p: T -> bool) returns (idx: seq<nat>)
    ensures Embeds(idx, Filter(s, p), s)
  {
    if |s| == 0 {
      idx := [];
    } else {
      var rest := FilterIsSubseq(s[1..], p);
      var tail := Filter(s[1..], p);
      if p(s[0]) {
        EmbedsCons(rest, tail, s);
        idx := [0] + Shift(rest);
        assert Filter(s, p) == [s[0]] + tail;
      } else {
        EmbedsTail(rest, tail, s);
        idx := Shift(rest);
        assert Filter(s, p) == tail;
      }
    }
  }

  lemma {:induction false} FilterAppend<T>(a: seq<T>, b: seq<T>, p: T -> bool)
    ensures Filter(a + b, p) == Filter(a, p) + Filter(b, p)
  {
    if |a| == 0 {
      assert a + b == b;
    } else {
      assert (a + b)[1..] == a[1..] + b;
      FilterAppend(a[1..], b, p);
    }
  }

  /** No element occurs twice. */
  predicate Distinct<T(==)>(s: seq<T>)
  {
    forall i, j :: 0 <= i < j < |s| ==> s[i] != s[j]
  }

  /** The elements of `s` as a set. */
  function Elements<T>(s: seq<T>): set<T>
  {
    set x | x in s
  }

  lemma {:induction false} DistinctElements<T>(s: seq<T>)
    requires Distinct(s)
    ensures |Elements(s)| == |s|
  {
    if |s| > 0 {
      var init := s[..|s| - 1];
      var last := s[|s| - 1];
      assert Distinct(init);
      DistinctElements(init);
      assert Elements(s) == Elements(init) + {last};
      assert last !in Elements(init);
    } else {
      assert Elements(s) == {};
    }
  }

  /** A permutation of a sequence without repetitions has no repetitions. */
  lemma PermutationDistinct<T>(a: seq<T>, b: seq<T>)
    requires multiset(a) == multiset(b)
    requires Distinct(a)
    ensures Distinct(b)
  {
    forall i, j | 0 <= i < j < |b|
      ensures b[i] != b[j]
    {
      if b[i] == b[j] {
        assert b == b[..i] + [b[i]] + b[i + 1..j] + [b[j]] + b[j + 1..];
        assert multiset(b)[b[i]] >= 2;
        DistinctMultiplicity(a, b[i]);
        assert false;
      }
    }
  }

  lemma {:induction false} DistinctMultiplicity<T>(s: seq<T>, x: T)
    requires Distinct(s)
    ensures multiset(s)[x] <= 1
  {
    if |s| > 0 {
      assert s == [s[0]] + s[1..];
      assert Distinct(s[1..]);
      DistinctMultiplicity(s[1..], x);
      if s[0] == x {
        assert x !in s[1..];
      }
    }
  }

  /** Embeddings compose: a subsequence of a subsequence is a subsequence. */
  lemma EmbedsCompose<T>(i1: seq<nat>, a: seq<T>, b: seq<T>, i2: seq<nat>, c: seq<T>)
    returns (idx: seq<nat>)
    requires Embeds(i1, a, b) && Embeds(i2, b, c)
    ensures Embeds(idx, a, c)
  {
    idx := seq(|i1|, k requires 0 <= k < |i1| => i2[i1[k]]);
  }

  /** Filtering by `p` first is redundant when `q` already implies `p`. */
  lemma {:induction false} FilterFilter<T>(s: seq<T>, p: T -> bool, q: T -> bool)
    requires forall x :: q(x) ==> p(x)
    ensures Filter(Filter(s, p), q) == Filter(s, q)
  {
    if |s| > 0 {
      FilterFilter(s[1..], p, q);
      var tail := Filter(s[1..], p);
      if p(s[0]) {
        assert Filter(s, p) == [s[0]] + tail;
        assert ([s[0]] + tail)[1..] == tail;
      } else {
        assert Filter(s, p) == tail;
      }
    }
  }

  /** Filtering by `p` and then by `q` is filtering by their conjunction `pq`. */
  lemma {:induction false} FilterBoth<T>(s: seq<T>, p: T -> bool, q: T -> bool, pq: T -> bool)
    requires forall x :: pq(x) == (p(x) && q(x))
    ensures Filter(Filter(s, p), q) == Filter(s, pq)
  {
    if |s| > 0 {
      FilterBoth(s[1..], p, q, pq);
      var tail := Filter(s[1..], p);
      if p(s[0]) {
        assert Filter(s, p) == [s[0]] + tail;
        assert ([s[0]] + tail)[1..] == tail;
      } else {
        assert Filter(s, p) == tail;
      }
    }
  }

  /** A prefix of a prefix of `u` is a prefix of `u`. */
  lemma PrefixOfPrefix<T>(u: seq<T>, b: seq<T>, a: seq<T>)
    requires |a| <= |b| <= |u| && u[..|b|] == b && b[..|a|] == a
    ensures u[..|a|] == a
  {
    assert u[..|a|] == u[..|b|][..|a|];
  }

  /** Nothing survives a filter that every element fails. */
  lemma {:induction false} FilterNone<T>(s: seq<T>, p: T -> bool)
    requires forall k :: 0 <= k < |s| ==> !p(s[k])
    ensures Filter(s, p) == []
  {
    if |s| > 0 {
      FilterNone(s[1..], p);
    }
  }
}
