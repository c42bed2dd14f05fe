/**
 * `remove_duplicates`: pairs are compared by their texts with `!`, `.` and `,`
 * deleted and surrounding whitespace stripped; a pair whose English or French
 * key was already seen is skipped. The function as written computes the
 * filtered list and then returns its input unchanged.
 */
module Dedup {
  import opened Seqs
  import opened Text
  import opened Loader

  /** The characters the key drops. */
  const Punctuation: string := "!.,"

  /**
   * `s.replace("!", "").replace(".", "").replace(",", "")`: the text with its
   * punctuation deleted and every other character kept, in order.
   */
  function Unpunctuate(s: string): (r: string)
    ensures r == Filter(s, NoneOf(Punctuation))
    ensures '!' !in r && '.' !in r && ',' !in r
    ensures forall c :: c in r ==> c in s
    ensures forall c :: c in s && c != '!' && c != '.' && c != ',' ==> c in r
  {
    var a := ReplaceAll(s, "!", "");
    var b := ReplaceAll(a, ".", "");
    ReplaceAllDeletesChar(s, '!');
    ReplaceAllDeletesChar(a, '.');
    ReplaceAllDeletesChar(b, ',');
    FilterBoth(s, NoneOf("!"), NoneOf("."), NoneOf("!."));
    FilterBoth(s, NoneOf("!."), NoneOf(","), NoneOf(Punctuation));
    ReplaceAll(b, ",", "")
  }

  /** The comparison key of a text: its punctuation deleted, then stripped. */
  function Normalize(s: string): (r: string)
    ensures r == Strip(Filter(s, NoneOf(Punctuation)))
    ensures '!' !in r && '.' !in r && ',' !in r
    ensures forall c :: c in r ==> c in s
  {
    StripKeepsCharacters(Unpunctuate(s));
    Strip(Unpunctuate(s))
  }

  /** Deleting one character from a text that lacks it changes nothing. */
  lemma DeleteAbsentChar(s: string, c: char)
    requires c !in s
    ensures ReplaceAll(s, [c], "") == s
  {
    forall i | 0 <= i <= |s|
      ensures !OccursAt(s, i, [c])
    {
      if i < |s| {
        assert s[i] in s;
        assert s[i..i + 1] == [s[i]];
      }
    }
    ReplaceAllNoMatch(s, [c], "");
  }

  /** A key is its own key. */
  lemma NormalizeIdempotent(s: string)
    ensures Normalize(Normalize(s)) == Normalize(s)
  {
    var r := Normalize(s);
    DeleteAbsentChar(r, '!');
    DeleteAbsentChar(r, '.');
    DeleteAbsentChar(r, ',');
    assert Unpunctuate(r) == r;
    StripIdempotent(Unpunctuate(s));
  }

  lemma {:induction false} UnpunctuateAppend(a: string, b: string)
    ensures Unpunctuate(a + b) == Unpunctuate(a) + Unpunctuate(b)
  {
    ReplaceCharAppend(a, b, '!', "");
    var a1, b1 := ReplaceAll(a, "!", ""), ReplaceAll(b, "!", "");
    ReplaceCharAppend(a1, b1, '.', "");
    var a2, b2 := ReplaceAll(a1, ".", ""), ReplaceAll(b1, ".", "");
    ReplaceCharAppend(a2, b2, ',', "");
  }

  /** Deleting a character from the one-character text made of it leaves nothing. */
  lemma DeleteOnly(c: char)
    ensures ReplaceAll([c], [c], "") == []
  {
    assert OccursAt([c], 0, [c]);
    assert [c][1..] == [];
  }

  lemma UnpunctuateMark(c: char)
    requires c == '!' || c == '.' || c == ','
    ensures Unpunctuate([c]) == []
  {
    DeleteOnly(c);
    if c == '!' {
      assert ReplaceAll([], ".", "") == [];
      assert ReplaceAll([], ",", "") == [];
    } else if c == '.' {
      DeleteAbsentChar([c], '!');
      assert ReplaceAll([], ",", "") == [];
    } else {
      DeleteAbsentChar([c], '!');
      DeleteAbsentChar([c], '.');
    }
  }

  /** A trailing `!`, `.` or `,` does not change the key. */
  lemma NormalizeIgnoresTrailingPunctuation(s: string, c: char)
    requires c == '!' || c == '.' || c == ','
    ensures Normalize(s + [c]) == Normalize(s)
  {
    UnpunctuateAppend(s, [c]);
    UnpunctuateMark(c);
    assert Unpunctuate(s) + [] == Unpunctuate(s);
  }

  /** The keys of a list of pairs under `key`, one set per language. */
  function EngKeys(ps: seq<Pair>, key: string -> string): set<string>
  {
    set p | p in ps :: key(p.eng)
  }

  function FraKeys(ps: seq<Pair>, key: string -> string): set<string>
  {
    set p | p in ps :: key(p.fra)
  }

  lemma KeysSnoc(ps: seq<Pair>, p: Pair, key: string -> string)
    ensures EngKeys(ps + [p], key) == EngKeys(ps, key) + {key(p.eng)}
    ensures FraKeys(ps + [p], key) == FraKeys(ps, key) + {key(p.fra)}
  {
    assert forall q :: q in ps + [p] <==> q in ps || q == p;
  }

  lemma KeysMember(ps: seq<Pair>, i: nat, key: string -> string)
    requires i < |ps|
    ensures key(ps[i].eng) in EngKeys(ps, key) && key(ps[i].fra) in FraKeys(ps, key)
  {
    assert ps[i] in ps;
  }

  /** No two pairs share an English key, and no two share a French key. */
  predicate UniqueKeys(ps: seq<Pair>, key: string -> string)
  {
    forall i, j :: 0 <= i < j < |ps| ==>
      key(ps[i].eng) != key(ps[j].eng) && key(ps[i].fra) != key(ps[j].fra)
  }

  /** The loop's variables: `result`, `seen_eng`, `seen_fra`, `skipped`. */
  datatype Seen = Seen(kept: seq<Pair>, seenEng: set<string>, seenFra: set<string>, skipped: nat)

  /** One iteration of the loop, comparing texts by `key`. */
  function Step(st: Seen, p: Pair, key: string -> string): Seen
  {
    var e := key(p.eng);
    var f := key(p.fra);
    if e in st.seenEng then st.(skipped := st.skipped + 1)
    else if f in st.seenFra then st.(skipped := st.skipped + 1)
    else Seen(st.kept + [p], st.seenEng + {e}, st.seenFra + {f}, st.skipped)
  }

  /**
   * The loop over all of `pairs`: every pair is either kept or counted as
   * skipped, the seen sets hold exactly the keys of the kept pairs, and no
   * two kept pairs share a key.
   */
  function Scan(pairs: seq<Pair>, key: string -> string): (st: Seen)
    ensures |st.kept| + st.skipped == |pairs|
    ensures st.seenEng == EngKeys(st.kept, key) && st.seenFra == FraKeys(st.kept, key)
    ensures UniqueKeys(st.kept, key)
  {
    if |pairs| == 0 then Seen([], {}, {}, 0)
    else
      var prev := Scan(pairs[..|pairs| - 1], key);
      StepInvariant(prev, pairs[|pairs| - 1], key);
      Step(prev, pairs[|pairs| - 1], key)
  }

  /** The seen sets are the keys of the kept pairs: one more step keeps it so. */
  ghost predicate Tracks(st: Seen, key: string -> string)
  {
    && st.seenEng == EngKeys(st.kept, key)
    && st.seenFra == FraKeys(st.kept, key)
    && UniqueKeys(st.kept, key)
  }

  lemma StepInvariant(st: Seen, p: Pair, key: string -> string)
    requires Tracks(st, key)
    ensures Tracks(Step(st, p, key), key)
    ensures |Step(st, p, key).kept| + Step(st, p, key).skipped == |st.kept| + st.skipped + 1
  {
    KeysSnoc(st.kept, p, key);
    forall i | 0 <= i < |st.kept|
      ensures key(st.kept[i].eng) in st.seenEng && key(st.kept[i].fra) in st.seenFra
    {
      KeysMember(st.kept, i, key);
    }
  }

  /** The kept pairs appear in the input, in input order. */
  lemma {:induction false} ScanIsSubseq(pairs: seq<Pair>, key: string -> string) returns (idx: seq<nat>)
    ensures Embeds(idx, Scan(pairs, key).kept, pairs)
  {
    if |pairs| == 0 {
      idx := [];
    } else {
      var init := pairs[..|pairs| - 1];
      var p := pairs[|pairs| - 1];
      var prev := ScanIsSubseq(init, key);
      assert pairs == init + [p];
      assert Scan(pairs, key) == Step(Scan(init, key), p, key);
      if |Scan(pairs, key).kept| == |Scan(init, key).kept| {
        EmbedsExtend(prev, Scan(init, key).kept, init, p);
        idx := prev;
      } else {
        EmbedsSnoc(prev, Scan(init, key).kept, init, p);
        idx := prev + [|init|];
      }
    }
  }

  lemma {:induction false} ScanKeepsSubmultiset(pairs: seq<Pair>, key: string -> string)
    ensures multiset(Scan(pairs, key).kept) <= multiset(pairs)
  {
    if |pairs| > 0 {
      var init := pairs[..|pairs| - 1];
      var p := pairs[|pairs| - 1];
      ScanKeepsSubmultiset(init, key);
      assert pairs == init + [p];
      assert Scan(pairs, key) == Step(Scan(init, key), p, key);
    }
  }

  /** The seen sets only grow from one prefix to the next. */
  lemma {:induction false} ScanGrows(pairs: seq<Pair>, k: nat, key: string -> string)
    requires k <= |pairs|
    ensures Scan(pairs[..k], key).seenEng <= Scan(pairs, key).seenEng
    ensures Scan(pairs[..k], key).seenFra <= Scan(pairs, key).seenFra
    decreases |pairs| - k
  {
    if k < |pairs| {
      var init := pairs[..|pairs| - 1];
      assert init[..k] == pairs[..k];
      ScanGrows(init, k, key);
    } else {
      assert pairs[..k] == pairs;
    }
  }

  /** The pairs kept from a prefix of the input stay at the front of the pairs kept from all of it. */
  lemma {:induction false} ScanPrefix(pairs: seq<Pair>, k: nat, key: string -> string)
    requires k <= |pairs|
    ensures |Scan(pairs[..k], key).kept| <= |Scan(pairs, key).kept|
    ensures Scan(pairs, key).kept[..|Scan(pairs[..k], key).kept|] == Scan(pairs[..k], key).kept
    decreases |pairs| - k
  {
    if k < |pairs| {
      var init := pairs[..|pairs| - 1];
      assert init[..k] == pairs[..k];
      ScanPrefix(init, k, key);
      var before, mid, after := Scan(pairs[..k], key).kept, Scan(init, key).kept, Scan(pairs, key).kept;
      assert after[..|mid|] == mid;
      PrefixOfPrefix(after, mid, before);
    } else {
      assert pairs[..k] == pairs;
    }
  }

  /**
   * What the loop does with `pairs[k]`: if neither of its keys was seen among
   * the pairs kept before it, it is kept right after them; otherwise nothing
   * is kept for it.
   */
  lemma ScanDecides(pairs: seq<Pair>, k: nat, key: string -> string)
    requires k < |pairs|
    ensures var before := Scan(pairs[..k], key).kept;
            var isNew := key(pairs[k].eng) !in EngKeys(before, key) && key(pairs[k].fra) !in FraKeys(before, key);
            && (isNew ==> |before| < |Scan(pairs, key).kept| && Scan(pairs, key).kept[|before|] == pairs[k])
            && (!isNew ==> Scan(pairs[..k + 1], key).kept == before)
  {
    ScanLast(pairs, k, key);
    ScanPrefix(pairs, k + 1, key);
  }

  /** The scan of `pairs[..k + 1]` is one step after the scan of `pairs[..k]`. */
  lemma ScanLast(pairs: seq<Pair>, k: nat, key: string -> string)
    requires k < |pairs|
    ensures Scan(pairs[..k + 1], key) == Step(Scan(pairs[..k], key), pairs[k], key)
  {
    var pre := pairs[..k + 1];
    assert pre[..k] == pairs[..k];
    assert pre[k] == pairs[k];
  }

  /**
   * Every input pair is covered by a pair kept no later than itself: its
   * English or French key is the key of a pair kept from `pairs[..k + 1]`,
   * and those pairs stay the first ones kept.
   */
  lemma ScanCovers(pairs: seq<Pair>, k: nat, key: string -> string)
    requires k < |pairs|
    ensures key(pairs[k].eng) in EngKeys(Scan(pairs[..k + 1], key).kept, key)
         || key(pairs[k].fra) in FraKeys(Scan(pairs[..k + 1], key).kept, key)
    ensures key(pairs[k].eng) in EngKeys(Scan(pairs, key).kept, key)
         || key(pairs[k].fra) in FraKeys(Scan(pairs, key).kept, key)
  {
    ScanLast(pairs, k, key);
    var last := Scan(pairs[..k + 1], key);
    assert key(pairs[k].eng) in last.seenEng || key(pairs[k].fra) in last.seenFra;
    ScanGrows(pairs, k + 1, key);
  }

  /** The first pair is always kept, in first position. */
  lemma {:induction false} ScanKeepsFirst(pairs: seq<Pair>, key: string -> string)
    requires |pairs| > 0
    ensures |Scan(pairs, key).kept| > 0 && Scan(pairs, key).kept[0] == pairs[0]
  {
    if |pairs| == 1 {
      assert pairs[..0] == [];
    } else {
      var init := pairs[..|pairs| - 1];
      ScanKeepsFirst(init, key);
      assert init[0] == pairs[0];
    }
  }

  /** Which list `remove_duplicates` hands back. */
  datatype DedupRule = ReturnInput | ReturnKept

  /**
   * `remove_duplicates`, comparing texts by `Normalize`. With `ReturnInput` it
   * returns `pairs` itself, as the script's final `return pairs` does; with
   * `ReturnKept` it returns the list the loop builds.
   */
  function RemoveDuplicates(pairs: seq<Pair>, rule: DedupRule): (r: seq<Pair>)
    ensures rule == ReturnInput ==> r == pairs
    ensures rule == ReturnKept ==> UniqueKeys(r, Normalize)
    ensures multiset(r) <= multiset(pairs)
    ensures |pairs| > 0 ==> |r| > 0 && r[0] == pairs[0]
    ensures |r| <= |pairs|
  {
    match rule
    case ReturnInput => pairs
    case ReturnKept =>
      ScanKeepsSubmultiset(pairs, Normalize);
      if |pairs| > 0 then ScanKeepsFirst(pairs, Normalize); Scan(pairs, Normalize).kept
      else Scan(pairs, Normalize).kept
  }

  /**
   * As written, a sentence pair that differs from an earlier one only by a
   * final full stop survives `remove_duplicates`, although the loop marks it
   * as a duplicate and drops it from the list it builds.
   */
  lemma AsWrittenKeepsDuplicate(p: Pair)
    ensures var q := p.(eng := p.eng + ".");
            && RemoveDuplicates([p, q], ReturnInput) == [p, q]
            && Normalize(q.eng) == Normalize(p.eng)
            && RemoveDuplicates([p, q], ReturnKept) == [p]
  {
    var q := p.(eng := p.eng + ".");
    NormalizeIgnoresTrailingPunctuation(p.eng, '.');
    ScanDropsSecond(p, q, Normalize);
  }

  /** Of two pairs with the same English key, the loop keeps only the first. */
  lemma ScanDropsSecond(p: Pair, q: Pair, key: string -> string)
    requires key(q.eng) == key(p.eng)
    ensures Scan([p, q], key).kept == [p]
  {
    assert [p, q][..1] == [p];
    assert [p][..0] == [];
    assert Scan([p, q], key) == Step(Scan([p], key), q, key);
  }
}
