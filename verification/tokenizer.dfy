/**
 * The tokenizer `words` of script.py: split at every boundary character, strip
 * the pieces, drop empty pieces, then drop pieces made only of digits.
 */
module Tokenizer {
  import opened Seqs
  import opened Text

  /**
   * `re.split(WORD_BOUNDARY, s)`: the pieces between single boundary
   * characters, including the empty pieces between adjacent boundaries and
   * at either end.
   */
  function Split(s: string): (r: seq<string>)
    ensures |r| >= 1
  {
    if |s| == 0 then [""]
    else
      var rest := Split(s[1..]);
      if IsBoundary(s[0]) then [""] + rest
      else [[s[0]] + rest[0]] + rest[1..]
  }

  /** A piece with no boundary character in it. */
  predicate Unbroken(w: string)
  {
    forall k :: 0 <= k < |w| ==> !IsBoundary(w[k])
  }

  predicate NonEmpty(w: string)
  {
    |w| > 0
  }

  predicate NotNumber(w: string)
  {
    !IsNumber(w)
  }

  /** The characters a token can carry: neither a boundary nor a digit. */
  predicate IsContent(c: char)
  {
    !IsBoundary(c) && !IsDigit(c)
  }

  function Content(s: string): string
  {
    Filter(s, IsContent)
  }

  /** No piece contains a boundary character. */
  lemma {:induction false} SplitPiecesUnbroken(s: string)
    ensures forall f :: f in Split(s) ==> Unbroken(f)
  {
    if |s| > 0 {
      SplitPiecesUnbroken(s[1..]);
      var rest := Split(s[1..]);
      if !IsBoundary(s[0]) {
        var head := [s[0]] + rest[0];
        assert rest[0] in rest;
        assert Unbroken(head);
        assert forall f :: f in rest[1..] ==> f in rest;
      }
    }
  }

  /** Gluing the pieces back together gives the input minus its boundaries. */
  lemma {:induction false} SplitFlatten(s: string)
    ensures Flatten(Split(s)) == Filter(s, NotBoundary)
  {
    if |s| > 0 {
      SplitFlatten(s[1..]);
      var rest := Split(s[1..]);
      assert rest == [rest[0]] + rest[1..];
      assert Flatten(rest) == rest[0] + Flatten(rest[1..]);
      if IsBoundary(s[0]) {
        assert Flatten([""] + rest) == "" + Flatten(rest);
      } else {
        var r := [[s[0]] + rest[0]] + rest[1..];
        assert r[1..] == rest[1..];
        assert Flatten(r) == [s[0]] + rest[0] + Flatten(rest[1..]);
      }
    }
  }

  /** There is one more piece than there are boundary characters. */
  lemma {:induction false} SplitCount(s: string)
    ensures |Split(s)| == |Filter(s, IsBoundary)| + 1
  {
    if |s| > 0 {
      SplitCount(s[1..]);
    }
  }

  /** The pieces with the separators put back between them, one between each two. */
  function Join(pieces: seq<string>, seps: string): string
    requires |pieces| == |seps| + 1
    decreases |seps|
  {
    if |seps| == 0 then pieces[0] else pieces[0] + [seps[0]] + Join(pieces[1..], seps[1..])
  }

  /** Growing the first piece at its front grows the join at its front. */
  lemma JoinGrowFirst(pieces: seq<string>, seps: string, x: string)
    requires |pieces| == |seps| + 1
    ensures Join([x + pieces[0]] + pieces[1..], seps) == x + Join(pieces, seps)
  {
    var grown := [x + pieces[0]] + pieces[1..];
    if |seps| > 0 {
      assert grown[1..] == pieces[1..];
    }
  }

  /**
   * The pieces, with the boundary characters of `s` put back between them,
   * give `s` again: the cuts fall exactly at the boundaries.
   */
  lemma {:induction false} SplitJoin(s: string)
    ensures |Split(s)| == |Filter(s, IsBoundary)| + 1
    ensures Join(Split(s), Filter(s, IsBoundary)) == s
  {
    if |s| > 0 {
      var t := s[1..];
      SplitJoin(t);
      var rest := Split(t);
      var seps := Filter(t, IsBoundary);
      assert s == [s[0]] + t;
      if IsBoundary(s[0]) {
        var r := [""] + rest;
        assert Split(s) == r && Filter(s, IsBoundary) == [s[0]] + seps;
        assert r[1..] == rest;
        assert Join(r, [s[0]] + seps) == "" + [s[0]] + Join(rest, seps);
      } else {
        var r := [[s[0]] + rest[0]] + rest[1..];
        assert Split(s) == r;
        assert Filter(s, IsBoundary) == seps by {
          assert Filter(s, IsBoundary) == [] + Filter(t, IsBoundary);
        }
        JoinGrowFirst(rest, seps, [s[0]]);
        assert Join(r, seps) == [s[0]] + Join(rest, seps);
      }
    }
  }

  /**
   * `Split(s)` is the only way to write `s` as pieces free of boundary
   * characters, joined by single boundary characters.
   */
  lemma {:induction false} SplitUnique(s: string, pieces: seq<string>, seps: string)
    requires |pieces| == |seps| + 1
    requires forall k :: 0 <= k < |pieces| ==> Unbroken(pieces[k])
    requires forall k :: 0 <= k < |seps| ==> IsBoundary(seps[k])
    requires Join(pieces, seps) == s
    ensures pieces == Split(s)
    decreases |s|
  {
    if |pieces[0]| > 0 {
      var head := pieces[0];
      var shorter := [head[1..]] + pieces[1..];
      assert head == [head[0]] + head[1..];
      JoinGrowFirst(shorter, seps, [head[0]]);
      assert [[head[0]] + shorter[0]] + shorter[1..] == pieces;
      assert s[0] == head[0] && s[1..] == Join(shorter, seps);
      forall k | 0 <= k < |shorter|
        ensures Unbroken(shorter[k])
      {
        if k == 0 {
          assert forall j :: 0 <= j < |head[1..]| ==> head[1..][j] == head[j + 1];
        } else {
          assert shorter[k] == pieces[k];
        }
      }
      SplitUnique(s[1..], shorter, seps);
      assert !IsBoundary(head[0]);
    } else if |seps| > 0 {
      var tail := pieces[1..];
      assert s == [seps[0]] + Join(tail, seps[1..]);
      assert forall k :: 0 <= k < |tail| ==> tail[k] == pieces[k + 1];
      SplitUnique(s[1..], tail, seps[1..]);
      assert pieces == [""] + tail;
    }
  }

  /** `f` is a whole word of `s` at some index, which is 0 exactly when `first`. */
  ghost predicate PlacedAt(s: string, f: string, first: bool)
  {
    exists i: nat :: IsWordAt(s, i, f) && (first <==> i == 0)
  }

  /**
   * Every piece sits in `s` between boundaries (or the ends of `s`); the
   * first piece starts at 0 and no other piece does.
   */
  lemma {:induction false} SplitPiecesAreWords(s: string)
    ensures forall k :: 0 <= k < |Split(s)| ==> PlacedAt(s, Split(s)[k], k == 0)
  {
    if |s| == 0 {
      assert IsWordAt(s, 0, Split(s)[0]);
      assert PlacedAt(s, Split(s)[0], true);
    } else {
      SplitPiecesAreWords(s[1..]);
      if IsBoundary(s[0]) {
        PiecesAfterBoundary(s);
      } else {
        PiecesAfterContent(s);
      }
    }
  }

  /** After a leading boundary: an empty first piece, then the pieces of the tail, shifted. */
  lemma PiecesAfterBoundary(s: string)
    requires |s| > 0 && IsBoundary(s[0])
    requires forall k :: 0 <= k < |Split(s[1..])| ==> PlacedAt(s[1..], Split(s[1..])[k], k == 0)
    ensures forall k :: 0 <= k < |Split(s)| ==> PlacedAt(s, Split(s)[k], k == 0)
  {
    var t := s[1..];
    var rest := Split(t);
    var r := Split(s);
    assert r == [""] + rest;
    forall k | 0 <= k < |r|
      ensures PlacedAt(s, r[k], k == 0)
    {
      if k == 0 {
        assert IsWordAt(s, 0, r[0]);
      } else {
        assert r[k] == rest[k - 1];
        ShiftPlaced(s, rest[k - 1], k - 1 == 0);
      }
    }
  }

  /** After a leading content character: it joins the first piece; the others shift. */
  lemma PiecesAfterContent(s: string)
    requires |s| > 0 && !IsBoundary(s[0])
    requires forall k :: 0 <= k < |Split(s[1..])| ==> PlacedAt(s[1..], Split(s[1..])[k], k == 0)
    ensures forall k :: 0 <= k < |Split(s)| ==> PlacedAt(s, Split(s)[k], k == 0)
  {
    var t := s[1..];
    var rest := Split(t);
    var r := Split(s);
    assert r == [[s[0]] + rest[0]] + rest[1..];
    forall k | 0 <= k < |r|
      ensures PlacedAt(s, r[k], k == 0)
    {
      if k == 0 {
        ExtendPlacedFirst(s, rest[0]);
      } else {
        SplitAfterContent(s, k);
        ShiftPlaced(s, rest[k], false);
      }
    }
  }

  /** After a leading content character, every piece but the first is a piece of the tail. */
  lemma SplitAfterContent(s: string, k: nat)
    requires |s| > 0 && !IsBoundary(s[0]) && 0 < k < |Split(s)|
    ensures |Split(s[1..])| == |Split(s)| && Split(s)[k] == Split(s[1..])[k]
  {
  }

  /** A piece placed in `s[1..]` is placed in `s`, and not first, one index further on. */
  lemma ShiftPlaced(s: string, w: string, wasFirst: bool)
    requires |s| > 0 && PlacedAt(s[1..], w, wasFirst)
    requires wasFirst ==> IsBoundary(s[0])
    ensures PlacedAt(s, w, false)
  {
    var j: nat :| IsWordAt(s[1..], j, w) && (wasFirst <==> j == 0);
    ShiftWord(s, j, w);
    Place(s, w, j + 1, false);
  }

  /** The first piece of `s[1..]`, after a non-boundary, is the tail of the first piece of `s`. */
  lemma ExtendPlacedFirst(s: string, w: string)
    requires |s| > 0 && !IsBoundary(s[0]) && PlacedAt(s[1..], w, true)
    ensures PlacedAt(s, [s[0]] + w, true)
  {
    var j: nat :| IsWordAt(s[1..], j, w) && j == 0;
    ExtendFirstWord(s, w);
    Place(s, [s[0]] + w, 0, true);
  }

  lemma Place(s: string, f: string, i: nat, first: bool)
    requires IsWordAt(s, i, f) && (first <==> i == 0)
    ensures PlacedAt(s, f, first)
  {
  }

  /** A word at the start of `s[1..]`, preceded by a non-boundary, grows by one character. */
  lemma ExtendFirstWord(s: string, w: string)
    requires |s| > 0 && !IsBoundary(s[0]) && IsWordAt(s[1..], 0, w)
    ensures IsWordAt(s, 0, [s[0]] + w)
  {
    assert s[0..1 + |w|] == [s[0]] + s[1..][0..|w|];
    if 1 + |w| < |s| {
      assert s[1 + |w|] == s[1..][|w|];
    }
  }

  /** A word of `s[1..]` not at its start is a word of `s`, one place later. */
  lemma ShiftWord(s: string, j: nat, w: string)
    requires |s| > 0 && IsWordAt(s[1..], j, w)
    requires j > 0 || IsBoundary(s[0])
    ensures IsWordAt(s, j + 1, w) && j + 1 != 0
  {
    assert s[j + 1..j + 1 + |w|] == s[1..][j..j + |w|];
    if j > 0 {
      assert s[j] == s[1..][j - 1];
    }
    if j + 1 + |w| < |s| {
      assert s[j + 1 + |w|] == s[1..][j + |w|];
    }
  }

  /** Splitting leaves no whitespace in the pieces, so stripping them is a no-op. */
  lemma StripPieces(s: string)
    ensures Map(Split(s), Strip) == Split(s)
  {
    SplitPiecesUnbroken(s);
    var pieces := Split(s);
    forall k | 0 <= k < |pieces|
      ensures Strip(pieces[k]) == pieces[k]
    {
      assert pieces[k] in pieces;
      StripNoSpace(pieces[k]);
    }
  }

  /**
   * `words(line)`: the non-empty, non-numeric pieces of `line`, in order.
   * No case folding happens here.
   */
  function Words(line: string): (r: seq<string>)
    ensures forall w :: w in r ==> NonEmpty(w) && NotNumber(w) && Unbroken(w)
  {
    StripPieces(line);
    SplitPiecesUnbroken(line);
    Filter(Filter(Map(Split(line), Strip), NonEmpty), NotNumber)
  }

  /** The tokens are the pieces that survive, in their left-to-right order. */
  lemma WordsInOrder(line: string)
    ensures IsSubseq(Words(line), Split(line))
  {
    StripPieces(line);
    var pieces := Split(line);
    var kept := Filter(pieces, NonEmpty);
    var i1 := FilterIsSubseq(pieces, NonEmpty);
    var i2 := FilterIsSubseq(kept, NotNumber);
    var idx := EmbedsCompose(i2, Words(line), kept, i1, pieces);
  }

  /** A piece is kept exactly when it is non-empty and not a number. */
  lemma WordsComplete(line: string, w: string)
    ensures w in Words(line) <==> w in Split(line) && NonEmpty(w) && NotNumber(w)
  {
    StripPieces(line);
    var pieces := Split(line);
    var kept := Filter(pieces, NonEmpty);
    assert Words(line) == Filter(kept, NotNumber);
    assert w in Words(line) <==> w in kept && NotNumber(w);
    assert w in kept <==> w in pieces && NonEmpty(w);
  }

  /** Every token is a whole word of the line it came from. */
  lemma WordsAreWordsOfLine(line: string, w: string)
    requires w in Words(line)
    ensures exists i: nat :: IsWordAt(line, i, w)
  {
    WordsComplete(line, w);
    SplitPiecesAreWords(line);
    var pieces := Split(line);
    var k :| 0 <= k < |pieces| && pieces[k] == w;
    assert PlacedAt(line, pieces[k], k == 0);
  }

  /** Dropping pieces without content leaves the content of the whole unchanged. */
  lemma {:induction false} ContentOfKept(ss: seq<string>, p: string -> bool)
    requires forall x :: x in ss && !p(x) ==> Content(x) == []
    ensures Content(Flatten(Filter(ss, p))) == Content(Flatten(ss))
  {
    if |ss| > 0 {
      ContentOfKept(ss[1..], p);
      FilterAppend(ss[0], Flatten(ss[1..]), IsContent);
      var tail := Filter(ss[1..], p);
      if p(ss[0]) {
        assert Filter(ss, p) == [ss[0]] + tail;
        assert ([ss[0]] + tail)[1..] == tail;
        FilterAppend(ss[0], Flatten(tail), IsContent);
      } else {
        assert Filter(ss, p) == tail;
      }
    }
  }

  /**
   * No letter is lost: the tokens, glued together, carry exactly the
   * characters of the line that are neither boundaries nor digits, in order.
   */
  lemma WordsKeepContent(line: string)
    ensures Content(Flatten(Words(line))) == Content(line)
  {
    StripPieces(line);
    var pieces := Split(line);
    var kept := Filter(pieces, NonEmpty);
    forall x | x in pieces && !NonEmpty(x)
      ensures Content(x) == []
    {
      assert x == [];
    }
    ContentOfKept(pieces, NonEmpty);
    forall x | x in kept && !NotNumber(x)
      ensures Content(x) == []
    {
      FilterNone(x, IsContent);
    }
    ContentOfKept(kept, NotNumber);
    SplitFlatten(line);
    FilterFilter(line, NotBoundary, IsContent);
  }
}
