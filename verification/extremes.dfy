/** `minimize` of script.py: the first element whose key is smallest. */
module Extremes {

  /**
   * The scan of `minimize` from index `i` on, `best` being the index kept so
   * far; an element replaces it only when its key is strictly smaller.
   */
  function ArgMinFrom<T>(s: seq<T>, f: T -> int, i: nat, best: nat): (k: nat)
    requires best < i <= |s|
    requires forall j :: 0 <= j < i ==> f(s[best]) <= f(s[j])
    requires forall j :: 0 <= j < best ==> f(s[best]) < f(s[j])
    ensures k < |s|
    ensures forall j :: 0 <= j < |s| ==> f(s[k]) <= f(s[j])
    ensures forall j :: 0 <= j < k ==> f(s[k]) < f(s[j])
    decreases |s| - i
  {
    if i == |s| then best
    else if f(s[i]) < f(s[best]) then ArgMinFrom(s, f, i + 1, i)
    else ArgMinFrom(s, f, i + 1, best)
  }

  /**
   * The index `minimize` settles on. Its running minimum starts at infinity,
   * so index 0 is always taken first and the scan continues from 1.
   */
  function ArgMin<T>(s: seq<T>, f: T -> int): (k: nat)
    requires |s| > 0
    ensures k < |s|
    ensures forall j :: 0 <= j < |s| ==> f(s[k]) <= f(s[j])
    ensures forall j :: 0 <= j < k ==> f(s[k]) < f(s[j])
  {
    ArgMinFrom(s, f, 1, 0)
  }

  /** `minimize(s, f)`: the first element of `s` with the least `f`. */
  function Minimize<T>(s: seq<T>, f: T -> int): (r: T)
    requires |s| > 0
    ensures r in s
    ensures forall x :: x in s ==> f(r) <= f(x)
    ensures exists k :: 0 <= k < |s| && s[k] == r && forall j :: 0 <= j < k ==> f(r) < f(s[j])
  {
    var k := ArgMin(s, f);
    assert s[k] in s;
    s[k]
  }

  /** The index is the only one that is minimal with every earlier key larger. */
  lemma ArgMinUnique<T>(s: seq<T>, f: T -> int, m: nat)
    requires m < |s|
    requires forall j :: 0 <= j < |s| ==> f(s[m]) <= f(s[j])
    requires forall j :: 0 <= j < m ==> f(s[m]) < f(s[j])
    ensures ArgMin(s, f) == m
  {
  }
}
