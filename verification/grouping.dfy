/**
 * `group(lst, n)`: consecutive slices `lst[i:i + n]` for `i` in
 * `range(0, len(lst), n)`; `dump_clozes` uses it to cut the clozes into
 * units of 100.
 */
module Grouping {
  import opened Wrappers
  import opened Seqs

  /** The unit size `dump_clozes` passes to `group`. */
  const UnitSize: nat := 100

  /** The slices for a positive step. */
  function Chunks<T>(s: seq<T>, n: nat): (r: seq<seq<T>>)
    requires n > 0
    ensures forall k :: 0 <= k < |r| ==> 0 < |r[k]| <= n
    ensures forall k :: 0 <= k < |r| - 1 ==> |r[k]| == n
    decreases |s|
  {
    if |s| == 0 then []
    else if |s| <= n then [s]
    else [s[..n]] + Chunks(s[n..], n)
  }

  /** The slices, concatenated, give the list back. */
  lemma {:induction false} ChunksFlatten<T>(s: seq<T>, n: nat)
    requires n > 0
    ensures Flatten(Chunks(s, n)) == s
    decreases |s|
  {
    if 0 < |s| <= n {
      assert Flatten([s]) == s + Flatten([s][1..]);
    } else if |s| > n {
      var rest := Chunks(s[n..], n);
      ChunksFlatten(s[n..], n);
      assert ([s[..n]] + rest)[1..] == rest;
      assert s == s[..n] + s[n..];
    }
  }

  /**
   * `group(lst, n)`. A step of 0 makes `range` raise, which is `None` here;
   * a negative step gives an empty range and so no slices.
   */
  function Group<T>(s: seq<T>, n: int): (r: Option<seq<seq<T>>>)
    ensures r.None? <==> n == 0
    ensures n < 0 ==> r == Some([])
    ensures n > 0 ==> r.Some? && Flatten(r.value) == s
    ensures n > 0 ==> r.Some? && forall k :: 0 <= k < |r.value| ==> 0 < |r.value[k]| <= n
  {
    if n == 0 then None
    else if n < 0 then Some([])
    else ChunksFlatten(s, n); Some(Chunks(s, n))
  }

  /** There are `ceil(len(lst) / n)` slices. */
  lemma ChunksCount<T>(s: seq<T>, n: nat)
    requires n > 0
    ensures |Chunks(s, n)| == (|s| + n - 1) / n
  {
    var c := |Chunks(s, n)|;
    ChunksBounds(s, n);
    if c > 0 {
      assert c * n == (c - 1) * n + n;
    }
    DivUnique(|s| + n - 1, n, c);
  }

  /** The slices cover the list, and one slice fewer would not. */
  lemma {:induction false} ChunksBounds<T>(s: seq<T>, n: nat)
    requires n > 0
    ensures |s| <= |Chunks(s, n)| * n
    ensures |Chunks(s, n)| > 0 ==> (|Chunks(s, n)| - 1) * n < |s|
    decreases |s|
  {
    if |s| > n {
      ChunksBounds(s[n..], n);
      assert |Chunks(s, n)| == |Chunks(s[n..], n)| + 1;
      BoundsStep(|s|, |s[n..]|, |Chunks(s[n..], n)|, n);
    }
  }

  lemma BoundsStep(len: nat, restLen: nat, c: nat, n: nat)
    requires n > 0 && len == restLen + n
    requires restLen <= c * n
    requires c > 0 ==> (c - 1) * n < restLen
    ensures len <= (c + 1) * n && c * n < len
  {
    MulSucc(c, n);
    if c > 0 {
      MulSucc(c - 1, n);
    }
  }

  lemma MulSucc(c: nat, n: nat)
    ensures (c + 1) * n == c * n + n
  {
  }

  lemma {:induction false} MulMono(x: nat, y: nat, n: nat)
    requires x <= y
    ensures x * n <= y * n
    decreases y - x
  {
    if x < y {
      MulMono(x, y - 1, n);
      assert y * n == (y - 1) * n + n;
    }
  }

  lemma MulLess(x: nat, y: nat, n: nat)
    requires n > 0
    ensures x * n < y * n <==> x < y
  {
    if x < y {
      MulMono(x + 1, y, n);
      assert (x + 1) * n == x * n + n;
    } else {
      MulMono(y, x, n);
    }
  }

  /** Euclidean division has only one quotient. */
  lemma DivUnique(a: nat, n: nat, q: nat)
    requires n > 0 && q * n <= a < q * n + n
    ensures a / n == q
  {
    var d := a / n;
    var m := a % n;
    assert a == d * n + m && m < n;
    assert (d + 1) * n == d * n + n;
    assert (q + 1) * n == q * n + n;
    MulLess(q, d + 1, n);
    MulLess(d, q + 1, n);
  }

  /** Where the slice starting at `start` ends: `n` further on, or at the end of the list. */
  function SliceEnd(len: nat, start: nat, n: nat): nat
  {
    if start + n <= len then start + n else len
  }

  /** One unfolding of `Chunks` for a list longer than the step. */
  lemma ChunksUnfold<T>(s: seq<T>, n: nat)
    requires n > 0 && |s| > n
    ensures Chunks(s, n) == [s[..n]] + Chunks(s[n..], n)
  {
  }

  /** A list no longer than the step is a single slice, or none when empty. */
  lemma ChunksShort<T>(s: seq<T>, n: nat)
    requires n > 0 && |s| <= n
    ensures Chunks(s, n) == if |s| == 0 then [] else [s]
  {
  }

  /** Slice `k` is `lst[k * n : k * n + n]`, cut short at the end of the list. */
  lemma ChunkIsSlice<T>(s: seq<T>, n: nat, k: nat)
    requires n > 0 && k < |Chunks(s, n)|
    ensures k * n < |s|
    ensures Chunks(s, n)[k] == s[k * n .. SliceEnd(|s|, k * n, n)]
  {
    ChunkAt(s, n, k);
    StartIsProduct(k, n);
  }

  /** `k * n`, counted up one step at a time. */
  function Start(k: nat, n: nat): nat
  {
    if k == 0 then 0 else Start(k - 1, n) + n
  }

  lemma {:induction false} StartIsProduct(k: nat, n: nat)
    ensures Start(k, n) == k * n
  {
    if k > 0 {
      StartIsProduct(k - 1, n);
      MulSucc(k - 1, n);
    }
  }

  lemma {:induction false} ChunkAt<T>(s: seq<T>, n: nat, k: nat)
    requires n > 0 && k < |Chunks(s, n)|
    ensures Start(k, n) < |s|
    ensures Chunks(s, n)[k] == s[Start(k, n) .. SliceEnd(|s|, Start(k, n), n)]
    decreases |s|
  {
    if |s| <= n {
      ChunksShort(s, n);
      assert k == 0;
    } else {
      ChunksUnfold(s, n);
      if k > 0 {
        var rest := s[n..];
        var tail := Chunks(rest, n);
        var j := Start(k - 1, n);
        assert 0 < k <= |tail|;
        ChunkAt(rest, n, k - 1);
        assert j < |s| - n;
        assert tail[k - 1] == rest[j .. SliceEnd(|rest|, j, n)];
        SliceStep(s, n, s[..n], tail, k, j);
      }
    }
  }

  /** Slice `k` of `s` is slice `k - 1` of `s[n..]`, moved `n` places on. */
  lemma SliceStep<T>(s: seq<T>, n: nat, head: seq<T>, tail: seq<seq<T>>, k: nat, j: nat)
    requires n <= |s| && 0 < k <= |tail| && j < |s| - n
    requires tail[k - 1] == s[n..][j .. SliceEnd(|s[n..]|, j, n)]
    ensures ([head] + tail)[k] == s[j + n .. SliceEnd(|s|, j + n, n)]
  {
    SliceShift(s, n, j);
  }

  /** A slice of `s[n..]` is the slice of `s` shifted by `n`. */
  lemma SliceShift<T>(s: seq<T>, n: nat, j: nat)
    requires n <= |s| && j < |s| - n
    ensures s[n..][j .. SliceEnd(|s[n..]|, j, n)] == s[j + n .. SliceEnd(|s|, j + n, n)]
  {
  }
}
