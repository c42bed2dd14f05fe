/**
 * The filtering body of `parse_sentences`: each record's English and French
 * text is stripped and lowered, tokenized, and the pair is kept only if its
 * French text is not on the skip list, it has at most `WORD_LIMIT` French
 * words, and neither side is left without words.
 */
module Loader {
  import opened Seqs
  import opened Text
  import opened Tokenizer

  /** `WORD_LIMIT`. */
  const WordLimit: nat := 10

  /** `SKIP_LIST`, as written: a Portuguese sentence filed as French. */
  const SkipList: seq<string> := ["Eu cheguei ontem."]

  /** The same entry in the form the lowered French text actually takes. */
  const CorrectedSkipList: seq<string> := ["eu cheguei ontem."]

  /** The two fields of a row that the script reads: `row[1]` and `row[3]`. */
  datatype Record = Record(eng: string, fra: string)

  /** `Pair`: both texts and their tokens. */
  datatype Pair = Pair(eng: string, engWords: seq<string>, fra: string, fraWords: seq<string>)

  /**
   * The pair the loop builds from a record, before any filter; its tokens
   * are taken from its texts, which `CandidateCleaned` describes.
   */
  function Candidate(r: Record): (p: Pair)
    ensures p.engWords == Words(p.eng) && p.fraWords == Words(p.fra)
  {
    var eng := Lower(Strip(r.eng));
    var fra := Lower(Strip(r.fra));
    Pair(eng, Words(eng), fra, Words(fra))
  }

  /**
   * `t` is a trimmed, lowered form of `raw`: no longer than it, with no
   * whitespace at either end and no upper-case letter.
   */
  predicate Cleaned(t: string, raw: string)
  {
    && |t| <= |raw|
    && (|t| > 0 ==> !IsSpace(t[0]) && !IsSpace(t[|t| - 1]))
    && forall k :: 0 <= k < |t| ==> !IsUpper(t[k])
  }

  /**
   * Both texts of a candidate are the record's texts, trimmed and lowered:
   * each is the lowered form of a slice of the record's text with only
   * whitespace cut off on either side.
   */
  lemma CandidateCleaned(r: Record)
    ensures Cleaned(Candidate(r).eng, r.eng) && Cleaned(Candidate(r).fra, r.fra)
    ensures exists i, t :: IsMaximalTrim(t, r.eng, i) && Candidate(r).eng == Lower(t)
    ensures exists i, t :: IsMaximalTrim(t, r.fra, i) && Candidate(r).fra == Lower(t)
  {
    LowerStripCleans(r.eng);
    LowerStripCleans(r.fra);
    TrimmedLowered(r.eng);
    TrimmedLowered(r.fra);
  }

  /** `t` is `raw` with all of its leading and trailing whitespace cut off, from index `i`. */
  ghost predicate IsMaximalTrim(t: string, raw: string, i: nat)
  {
    IsTrimAt(t, raw, i) && (|t| > 0 ==> !IsSpace(t[0]) && !IsSpace(t[|t| - 1]))
  }

  lemma TrimmedLowered(raw: string)
    ensures exists i, t :: IsMaximalTrim(t, raw, i) && Lower(Strip(raw)) == Lower(t)
  {
    StripIsMaximalTrim(raw);
    var i :| IsTrimAt(Strip(raw), raw, i);
    assert IsMaximalTrim(Strip(raw), raw, i) && Lower(Strip(raw)) == Lower(Strip(raw));
  }

  lemma LowerStripCleans(raw: string)
    ensures Cleaned(Lower(Strip(raw)), raw)
  {
    var s := Strip(raw);
    var t := Lower(s);
    if |t| > 0 {
      LowerCharKeepsSpace(s[0]);
      LowerCharKeepsSpace(s[|s| - 1]);
    }
  }

  lemma LowerCharKeepsSpace(c: char)
    ensures IsSpace(LowerChar(c)) == IsSpace(c)
  {
  }

  /** What every retained pair satisfies. */
  predicate WellFormed(p: Pair, wordLimit: nat)
  {
    && p.engWords == Words(p.eng)
    && p.fraWords == Words(p.fra)
    && 1 <= |p.fraWords| <= wordLimit
    && |p.engWords| >= 1
  }

  /** The three `continue` tests of the loop, negated. */
  predicate Keep(p: Pair, skipList: seq<string>, wordLimit: nat)
  {
    && p.fra !in skipList
    && |p.fraWords| <= wordLimit
    && |p.engWords| > 0
    && |p.fraWords| > 0
  }

  function KeepFor(skipList: seq<string>, wordLimit: nat): Pair -> bool
  {
    p => Keep(p, skipList, wordLimit)
  }

  /** `parse_sentences` over already-extracted records. */
  function ParseSentences(records: seq<Record>, skipList: seq<string>, wordLimit: nat): (pairs: seq<Pair>)
    ensures forall p :: p in pairs ==> WellFormed(p, wordLimit) && p.fra !in skipList
    ensures |pairs| <= |records|
  {
    if |records| == 0 then []
    else
      var init := ParseSentences(records[..|records| - 1], skipList, wordLimit);
      var p := Candidate(records[|records| - 1]);
      if Keep(p, skipList, wordLimit) then
        KeptIsWellFormed(records[|records| - 1], skipList, wordLimit);
        AppendKeeps(init, p, skipList, wordLimit);
        init + [p]
      else init
  }

  lemma KeptIsWellFormed(r: Record, skipList: seq<string>, wordLimit: nat)
    requires Keep(Candidate(r), skipList, wordLimit)
    ensures WellFormed(Candidate(r), wordLimit)
  {
  }

  lemma AppendKeeps(init: seq<Pair>, p: Pair, skipList: seq<string>, wordLimit: nat)
    requires forall q :: q in init ==> WellFormed(q, wordLimit) && q.fra !in skipList
    requires WellFormed(p, wordLimit) && p.fra !in skipList
    ensures forall q :: q in init + [p] ==> WellFormed(q, wordLimit) && q.fra !in skipList
  {
    forall q | q in init + [p]
      ensures WellFormed(q, wordLimit) && q.fra !in skipList
    {
      if q !in init {
        assert q == p;
      }
    }
  }

  /**
   * The loop is a filter: the retained pairs are exactly the candidates that
   * pass the tests, in record order.
   */
  lemma {:induction false} ParseIsFilter(records: seq<Record>, skipList: seq<string>, wordLimit: nat)
    ensures ParseSentences(records, skipList, wordLimit)
         == Filter(Map(records, Candidate), KeepFor(skipList, wordLimit))
  {
    if |records| > 0 {
      var init := records[..|records| - 1];
      var last := records[|records| - 1];
      var keep := KeepFor(skipList, wordLimit);
      var c := Candidate(last);
      ParseIsFilter(init, skipList, wordLimit);
      MapSnoc(records, Candidate);
      FilterAppend(Map(init, Candidate), [c], keep);
      assert Filter([c], keep) == if keep(c) then [c] else [];
      assert ParseSentences(records, skipList, wordLimit)
          == ParseSentences(init, skipList, wordLimit) + (if keep(c) then [c] else []);
    }
  }

  /**
   * Retained pairs keep the relative order of their records, and every
   * record whose candidate passes the tests is retained.
   */
  lemma ParseKeepsOrder(records: seq<Record>, skipList: seq<string>, wordLimit: nat)
    ensures IsSubseq(ParseSentences(records, skipList, wordLimit), Map(records, Candidate))
    ensures forall i :: 0 <= i < |records| && Keep(Candidate(records[i]), skipList, wordLimit)
                        ==> Candidate(records[i]) in ParseSentences(records, skipList, wordLimit)
  {
    ParseIsFilter(records, skipList, wordLimit);
    var cands := Map(records, Candidate);
    var idx := FilterIsSubseq(cands, KeepFor(skipList, wordLimit));
    forall i | 0 <= i < |records| && Keep(Candidate(records[i]), skipList, wordLimit)
      ensures Candidate(records[i]) in ParseSentences(records, skipList, wordLimit)
    {
      assert cands[i] in cands;
    }
  }

  /**
   * As written, the skip list never fires: the French text is lowered before
   * the test and the entry starts with an upper-case letter, so filtering
   * with it is the same as filtering with no skip list at all.
   */
  lemma {:induction false} SkipListNeverMatches(records: seq<Record>, wordLimit: nat)
    ensures ParseSentences(records, SkipList, wordLimit) == ParseSentences(records, [], wordLimit)
  {
    if |records| > 0 {
      SkipListNeverMatches(records[..|records| - 1], wordLimit);
      LoweredNotInSkipList(Strip(records[|records| - 1].fra));
    }
  }

  lemma LoweredNotInSkipList(s: string)
    ensures Lower(s) !in SkipList
  {
    var l := Lower(s);
    assert SkipList[0][0] == 'E';
    assert |l| > 0 ==> !IsUpper(l[0]);
  }

  /**
   * With the entry written in lowered form, a record whose French text is
   * that sentence (in any case, with any surrounding whitespace) is dropped.
   */
  lemma CorrectedSkipListDrops(r: Record, wordLimit: nat)
    requires Lower(Strip(r.fra)) == CorrectedSkipList[0]
    ensures ParseSentences([r], CorrectedSkipList, wordLimit) == []
  {
    assert [r][..0] == [];
  }
}
