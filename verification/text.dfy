/**
 * Character classes and the string operations the script borrows from
 * Python's `str`: `strip`, `lower` (ASCII part), `replace`, and a whole-word
 * variant of `replace` used by the corrected cloze marking.
 */
module Text {
  import opened Wrappers
  import opened Seqs

  /** Python's `str.isspace`, which is also what the regex class `\s` matches. */
  predicate IsSpace(c: char)
  {
    || c == ' ' || c == '\t' || c == '\n' || c == '\U{000B}' || c == '\U{000C}' || c == '\r'
    || ('\U{001C}' <= c <= '\U{001F}')
    || c == '\U{0085}' || c == '\U{00A0}' || c == '\U{1680}'
    || ('\U{2000}' <= c <= '\U{200A}')
    || c == '\U{2028}' || c == '\U{2029}' || c == '\U{202F}' || c == '\U{205F}' || c == '\U{3000}'
  }

  /** The word-boundary class `[\s,\.!?"]` of script.py. */
  predicate IsBoundary(c: char)
  {
    IsSpace(c) || c == ',' || c == '.' || c == '!' || c == '?' || c == '"'
  }

  predicate NotBoundary(c: char)
  {
    !IsBoundary(c)
  }

  predicate IsDigit(c: char)
  {
    '0' <= c <= '9'
  }

  /** `str.isdigit`: at least one character, and every character a digit. */
  predicate IsNumber(s: string)
  {
    |s| > 0 && forall k :: 0 <= k < |s| ==> IsDigit(s[k])
  }

  predicate NoSpace(s: string)
  {
    forall k :: 0 <= k < |s| ==> !IsSpace(s[k])
  }

  /** Leading whitespace removed; nothing else is touched. */
  function TrimLeft(s: string): (r: string)
    ensures |r| <= |s| && r == s[|s| - |r|..]
    ensures forall k :: 0 <= k < |s| - |r| ==> IsSpace(s[k])
    ensures |r| > 0 ==> !IsSpace(r[0])
  {
    if |s| > 0 && IsSpace(s[0]) then TrimLeft(s[1..]) else s
  }

  /** Trailing whitespace removed; nothing else is touched. */
  function TrimRight(s: string): (r: string)
    ensures |r| <= |s| && r == s[..|r|]
    ensures forall k :: |r| <= k < |s| ==> IsSpace(s[k])
    ensures |r| > 0 ==> !IsSpace(r[|r| - 1])
  {
    if |s| > 0 && IsSpace(s[|s| - 1]) then TrimRight(s[..|s| - 1]) else s
  }

  /** Python's `str.strip()` with no argument. */
  function Strip(s: string): (r: string)
    ensures |r| <= |s|
    ensures |r| > 0 ==> !IsSpace(r[0]) && !IsSpace(r[|r| - 1])
  {
    TrimRight(TrimLeft(s))
  }

  /** `r` is `s[i..]` cut short, with only whitespace cut off on either side. */
  ghost predicate IsTrimAt(r: string, s: string, i: nat)
  {
    && i + |r| <= |s|
    && r == s[i..i + |r|]
    && (forall k :: 0 <= k < i ==> IsSpace(s[k]))
    && (forall k :: i + |r| <= k < |s| ==> IsSpace(s[k]))
  }

  /**
   * `Strip(s)` is the slice of `s` left after removing whitespace from both
   * ends, and it neither starts nor ends with whitespace.
   */
  lemma StripIsMaximalTrim(s: string)
    ensures exists i :: IsTrimAt(Strip(s), s, i)
    ensures var r := Strip(s); |r| > 0 ==> !IsSpace(r[0]) && !IsSpace(r[|r| - 1])
  {
    var l := TrimLeft(s);
    var r := TrimRight(l);
    var i: nat := |s| - |l|;
    assert r == Strip(s);
    TrimBoth(s, l, r, i);
  }

  /** A left trim followed by a right trim is a trim of both ends. */
  lemma TrimBoth(s: string, l: string, r: string, i: nat)
    requires i + |l| == |s| && l == s[i..] && forall k :: 0 <= k < i ==> IsSpace(s[k])
    requires |r| <= |l| && r == l[..|r|] && forall k :: |r| <= k < |l| ==> IsSpace(l[k])
    ensures IsTrimAt(r, s, i)
  {
    forall k | i + |r| <= k < |s|
      ensures IsSpace(s[k])
    {
      assert s[k] == l[k - i];
    }
  }

  lemma StripKeepsCharacters(s: string)
    ensures forall c :: c in Strip(s) ==> c in s
  {
    var l := TrimLeft(s);
    assert forall c :: c in TrimRight(l) ==> c in l;
    assert forall c :: c in l ==> c in s;
  }

  /** A string with no whitespace is its own strip. */
  lemma StripNoSpace(s: string)
    requires NoSpace(s)
    ensures Strip(s) == s
  {
  }

  lemma StripIdempotent(s: string)
    ensures Strip(Strip(s)) == Strip(s)
  {
    StripIsMaximalTrim(s);
  }

  predicate IsUpper(c: char)
  {
    'A' <= c <= 'Z'
  }

  function LowerChar(c: char): char
  {
    if IsUpper(c) then (c as int + 32) as char else c
  }

  /** `str.lower()` restricted to ASCII letters. */
  function Lower(s: string): (r: string)
    ensures |r| == |s|
    ensures forall k :: 0 <= k < |r| ==> !IsUpper(r[k])
    ensures forall k :: 0 <= k < |s| && !IsUpper(s[k]) ==> r[k] == s[k]
    ensures forall k :: 0 <= k < |s| && IsUpper(s[k]) ==> r[k] as int == s[k] as int + 32
  {
    seq(|s|, k requires 0 <= k < |s| => LowerChar(s[k]))
  }

  /** `w` occurs in `s` starting at index `i`. */
  predicate OccursAt(s: string, i: nat, w: string)
  {
    i + |w| <= |s| && s[i..i + |w|] == w
  }

  /** `repl` before, between and after every character: `s.replace("", repl)`. */
  function Interleave(s: string, repl: string): string
  {
    if |s| == 0 then repl else repl + [s[0]] + Interleave(s[1..], repl)
  }

  /** The characters that are not in `cs`. */
  function NoneOf(cs: string): char -> bool
  {
    d => d !in cs
  }

  /**
   * Python's `s.replace(pat, repl)`: every non-overlapping occurrence of `pat`,
   * scanning left to right, is replaced, whether or not it is a whole word.
   * Deleting a single character keeps exactly the other characters, in order;
   * replacing a string by itself changes nothing.
   */
  function ReplaceAll(s: string, pat: string, repl: string): (r: string)
    ensures |pat| > 0 && repl == pat ==> r == s
    decreases |s|
  {
    if |pat| == 0 then Interleave(s, repl)
    else if |s| == 0 then []
    else if OccursAt(s, 0, pat) then
      assert repl == pat ==> repl + s[|pat|..] == s by {
        assert s == s[..|pat|] + s[|pat|..];
      }
      repl + ReplaceAll(s[|pat|..], pat, repl)
    else [s[0]] + ReplaceAll(s[1..], pat, repl)
  }

  lemma OccursShift(s: string, i: nat, w: string)
    requires |s| > 0 && OccursAt(s[1..], i, w)
    ensures OccursAt(s, i + 1, w)
  {
    assert s[i + 1..i + 1 + |w|] == s[1..][i..i + |w|];
  }

  /** Replacing a non-empty string that does not occur changes nothing. */
  lemma {:induction false} ReplaceAllNoMatch(s: string, pat: string, repl: string)
    requires |pat| > 0
    requires forall i :: 0 <= i <= |s| ==> !OccursAt(s, i, pat)
    ensures ReplaceAll(s, pat, repl) == s
    decreases |s|
  {
    if |s| > 0 {
      assert !OccursAt(s, 0, pat);
      forall i | 0 <= i <= |s[1..]|
        ensures !OccursAt(s[1..], i, pat)
      {
        if OccursAt(s[1..], i, pat) {
          OccursShift(s, i, pat);
        }
      }
      ReplaceAllNoMatch(s[1..], pat, repl);
    }
  }

  /**
   * The scan copies the text up to the first occurrence of `pat`, puts
   * `repl` in its place, and carries on after it.
   */
  lemma ReplaceAllFirst(s: string, pat: string, repl: string, i: nat)
    requires |pat| > 0 && OccursAt(s, i, pat)
    requires forall j :: 0 <= j < i ==> !OccursAt(s, j, pat)
    ensures ReplaceAll(s, pat, repl) == s[..i] + repl + ReplaceAll(s[i + |pat|..], pat, repl)
  {
    ReplaceAllCopies(s, pat, repl, i);
    var u := s[i..];
    assert OccursAt(u, 0, pat) by {
      assert u[0..|pat|] == s[i..i + |pat|];
    }
    ReplaceAllHit(u, pat, repl);
    assert u[|pat|..] == s[i + |pat|..];
    Regroup(s[..i], repl, ReplaceAll(s, pat, repl), ReplaceAll(u, pat, repl), ReplaceAll(u[|pat|..], pat, repl));
  }

  /** `whole == a + (b + c)` regrouped as `(a + b) + c`. */
  lemma Regroup(a: string, b: string, whole: string, mid: string, c: string)
    requires whole == a + mid && mid == b + c
    ensures whole == a + b + c
  {
  }

  /** Up to the first occurrence of `pat`, the scan copies the text unchanged. */
  lemma {:induction false} ReplaceAllCopies(s: string, pat: string, repl: string, i: nat)
    requires |pat| > 0 && i <= |s|
    requires forall j :: 0 <= j < i ==> !OccursAt(s, j, pat)
    ensures ReplaceAll(s, pat, repl) == s[..i] + ReplaceAll(s[i..], pat, repl)
    decreases i
  {
    if i > 0 {
      ReplaceAllCopies(s, pat, repl, i - 1);
      var u := s[i - 1..];
      assert !OccursAt(u, 0, pat) by {
        assert !OccursAt(s, i - 1, pat);
        if |pat| <= |u| {
          assert u[0..|pat|] == s[i - 1..i - 1 + |pat|];
        }
      }
      ReplaceAllSkip(u, pat, repl);
      assert u[1..] == s[i..];
      CopyOne(s, i, ReplaceAll(s, pat, repl), ReplaceAll(u, pat, repl), ReplaceAll(s[i..], pat, repl));
    } else {
      assert s[..0] + ReplaceAll(s[0..], pat, repl) == ReplaceAll(s, pat, repl) by {
        assert s[0..] == s;
      }
    }
  }

  /** One more copied character moves from the rest of the scan into the prefix. */
  lemma CopyOne(s: string, i: nat, whole: string, mid: string, rest: string)
    requires 0 < i <= |s|
    requires whole == s[..i - 1] + mid
    requires mid == [s[i - 1]] + rest
    ensures whole == s[..i] + rest
  {
    assert s[..i] == s[..i - 1] + [s[i - 1]];
  }

  /** Where `pat` starts, the scan puts `repl` in its place and moves past it. */
  lemma ReplaceAllHit(s: string, pat: string, repl: string)
    requires |pat| > 0 && OccursAt(s, 0, pat)
    ensures ReplaceAll(s, pat, repl) == repl + ReplaceAll(s[|pat|..], pat, repl)
  {
  }

  /** Where `pat` does not start, the scan copies one character and moves on. */
  lemma ReplaceAllSkip(s: string, pat: string, repl: string)
    requires |pat| > 0 && |s| > 0 && !OccursAt(s, 0, pat)
    ensures ReplaceAll(s, pat, repl) == [s[0]] + ReplaceAll(s[1..], pat, repl)
  {
  }

  /** `s.replace(c, "")` deletes every `c` and keeps every other character. */
  lemma {:induction false} ReplaceAllDeletesChar(s: string, c: char)
    ensures ReplaceAll(s, [c], "") == Filter(s, NoneOf([c]))
    ensures c !in ReplaceAll(s, [c], "")
    ensures forall d :: d in ReplaceAll(s, [c], "") ==> d in s
    ensures forall d :: d in s && d != c ==> d in ReplaceAll(s, [c], "")
    decreases |s|
  {
    if |s| > 0 {
      ReplaceAllDeletesChar(s[1..], c);
      if s[0] == c {
        assert OccursAt(s, 0, [c]);
      } else {
        assert !OccursAt(s, 0, [c]);
      }
    }
    assert !NoneOf([c])(c);
  }

  /** Replacing a single character distributes over concatenation. */
  lemma {:induction false} ReplaceCharAppend(a: string, b: string, c: char, repl: string)
    ensures ReplaceAll(a + b, [c], repl) == ReplaceAll(a, [c], repl) + ReplaceAll(b, [c], repl)
    decreases |a|
  {
    if |a| == 0 {
      assert a + b == b;
    } else {
      assert (a + b)[0] == a[0];
      assert (a + b)[1..] == a[1..] + b;
      ReplaceCharAppend(a[1..], b, c, repl);
    }
  }

  /** `w` occurs at `i` as a whole word: boundaries or the ends on both sides. */
  predicate IsWordAt(s: string, i: nat, w: string)
  {
    && OccursAt(s, i, w)
    && (i == 0 || IsBoundary(s[i - 1]))
    && (i + |w| == |s| || IsBoundary(s[i + |w|]))
  }

  /** The first whole-word occurrence of `w` at or after `from`. */
  function FindWord(s: string, w: string, from: nat): (r: Option<nat>)
    requires from <= |s|
    ensures r.Some? ==> from <= r.value <= |s| && IsWordAt(s, r.value, w)
    ensures r.Some? ==> forall j :: from <= j < r.value ==> !IsWordAt(s, j, w)
    ensures r.None? ==> forall j :: from <= j <= |s| ==> !IsWordAt(s, j, w)
    decreases |s| - from
  {
    if IsWordAt(s, from, w) then Some(from)
    else if from == |s| then None
    else FindWord(s, w, from + 1)
  }

  /**
   * Replaces only the first whole-word occurrence of `w` by `repl`; the text
   * is returned unchanged when `w` is not a word of it.
   */
  function ReplaceFirstWord(s: string, w: string, repl: string): string
  {
    match FindWord(s, w, 0)
    case None => s
    case Some(i) => s[..i] + repl + s[i + |w|..]
  }

  /** When `w` occurs first as a whole word at `i`, that occurrence alone is replaced. */
  lemma ReplaceFirstWordAt(s: string, w: string, repl: string, i: nat)
    requires i <= |s| && IsWordAt(s, i, w)
    requires forall j :: 0 <= j < i ==> !IsWordAt(s, j, w)
    ensures ReplaceFirstWord(s, w, repl) == s[..i] + repl + s[i + |w|..]
  {
    var found := FindWord(s, w, 0);
    assert found == Some(i);
  }

  /** A text without `w` as a whole word is left unchanged. */
  lemma ReplaceFirstWordAbsent(s: string, w: string, repl: string)
    requires forall j :: 0 <= j <= |s| ==> !IsWordAt(s, j, w)
    ensures ReplaceFirstWord(s, w, repl) == s
  {
    assert FindWord(s, w, 0).None?;
  }
}
