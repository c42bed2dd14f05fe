/**
 * `sorted(xs, key=..., reverse=True)`: a stable sort into non-increasing key
 * order, written as an insertion sort over a real-valued key.
 */
module Sorting {

  ghost predicate SortedDesc<T>(s: seq<T>, key: T -> real)
  {
    forall i, j :: 0 <= i < j < |s| ==> key(s[i]) >= key(s[j])
  }

  /** The elements of `s` whose key is `v`, in their order in `s`. */
  function WithKey<T>(s: seq<T>, key: T -> real, v: real): seq<T>
  {
    if |s| == 0 then []
    else (if key(s[0]) == v then [s[0]] else []) + WithKey(s[1..], key, v)
  }

  /** Puts `x` after every element with a strictly larger key, before the rest. */
  function Insert<T(==)>(x: T, s: seq<T>, key: T -> real): (r: seq<T>)
    ensures multiset(r) == multiset(s) + multiset{x}
    ensures SortedDesc(s, key) ==> SortedDesc(r, key)
  {
    if |s| == 0 then [x]
    else if key(s[0]) > key(x) then
      var tail := Insert(x, s[1..], key);
      InsertSorted(x, s, key, tail);
      [s[0]] + tail
    else
      [x] + s
  }

  /** Putting the head back in front of the tail with `x` inserted keeps the promises of `Insert`. */
  lemma InsertSorted<T>(x: T, s: seq<T>, key: T -> real, tail: seq<T>)
    requires |s| > 0 && key(s[0]) > key(x)
    requires multiset(tail) == multiset(s[1..]) + multiset{x}
    requires SortedDesc(s[1..], key) ==> SortedDesc(tail, key)
    ensures multiset([s[0]] + tail) == multiset(s) + multiset{x}
    ensures SortedDesc(s, key) ==> SortedDesc([s[0]] + tail, key)
  {
    assert s == [s[0]] + s[1..];
    if SortedDesc(s, key) {
      var r := [s[0]] + tail;
      forall j | 0 < j < |r|
        ensures key(r[0]) >= key(r[j])
      {
        assert r[j] == tail[j - 1];
        assert tail[j - 1] in multiset(tail);
        if r[j] != x {
          assert r[j] in multiset(s[1..]);
          var m :| 0 <= m < |s[1..]| && s[1..][m] == r[j];
          assert s[m + 1] == r[j];
        }
      }
      assert SortedDesc(s[1..], key);
    }
  }

  /** Stable sort into non-increasing key order. */
  function SortDesc<T(==)>(s: seq<T>, key: T -> real): (r: seq<T>)
    ensures multiset(r) == multiset(s)
    ensures SortedDesc(r, key)
  {
    if |s| == 0 then []
    else
      assert s == [s[0]] + s[1..];
      Insert(s[0], SortDesc(s[1..], key), key)
  }

  /** `x` joins the elements of its key in front of them; other keys are untouched. */
  lemma {:induction false} InsertWithKey<T>(x: T, s: seq<T>, key: T -> real, v: real)
    ensures WithKey(Insert(x, s, key), key, v)
         == (if key(x) == v then [x] else []) + WithKey(s, key, v)
  {
    if |s| > 0 && key(s[0]) > key(x) {
      var tail := Insert(x, s[1..], key);
      InsertWithKey(x, s[1..], key, v);
      assert ([s[0]] + tail)[1..] == tail;
      if key(x) == v {
        assert key(s[0]) != v;
      }
    } else {
      assert ([x] + s)[1..] == s;
    }
  }

  /**
   * Stability: for every key value, the elements carrying it come out in the
   * order they went in.
   */
  lemma {:induction false} SortDescStable<T>(s: seq<T>, key: T -> real, v: real)
    ensures WithKey(SortDesc(s, key), key, v) == WithKey(s, key, v)
  {
    if |s| > 0 {
      SortDescStable(s[1..], key, v);
      InsertWithKey(s[0], SortDesc(s[1..], key), key, v);
    }
  }
}
