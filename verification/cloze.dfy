/**
 * `build_clozes`: for every pair, the rarest English word and the rarest
 * French word (by corpus count, first on ties) are each turned into a cloze,
 * unless that word already has `CLOZE_LIMIT` clozes or is not among the
 * common words of its language.
 */
module Cloze {
  import opened Wrappers
  import opened Seqs
  import opened Tokenizer
  import opened Text
  import opened Counters
  import opened Extremes
  import opened Frequency
  import opened Loader

  /** `CLOZE_LIMIT`. */
  const ClozeLimit: nat := 3

  /** `Cloze`: the two texts of a flashcard, one of them carrying a gap. */
  datatype Cloze = Cloze(eng: string, fra: string)

  datatype Side = English | French

  function Other(side: Side): Side
  {
    if side == English then French else English
  }

  /**
   * Which word of which pair a cloze hides. The script's `Cloze` does not
   * store it; the model keeps it beside each cloze so the per-word limit can
   * be stated.
   */
  datatype Mark = Mark(origin: nat, side: Side, target: string)

  /**
   * How the gap is put into the text: `EveryOccurrence` is `str.replace`, as
   * the script does it; `FirstWholeWord` marks only the first occurrence that
   * stands as a whole word.
   */
  datatype MarkRule = EveryOccurrence | FirstWholeWord

  /** `"{{1::" + w + "}}"`. */
  function Marker(w: string): string
  {
    "{{1::" + w + "}}"
  }

  function MarkText(rule: MarkRule, text: string, w: string): string
  {
    match rule
    case EveryOccurrence => ReplaceAll(text, w, Marker(w))
    case FirstWholeWord => ReplaceFirstWord(text, w, Marker(w))
  }

  /** The arguments of `build_clozes` other than the pairs, plus the limit and marking rule. */
  datatype Env = Env(engFreq: Counter, fraFreq: Counter, engCommon: set<string>, fraCommon: set<string>,
                     limit: nat, rule: MarkRule)

  function SideWords(p: Pair, side: Side): seq<string>
  {
    if side == English then p.engWords else p.fraWords
  }

  function Freq(env: Env, side: Side): Counter
  {
    if side == English then env.engFreq else env.fraFreq
  }

  function Common(env: Env, side: Side): set<string>
  {
    if side == English then env.engCommon else env.fraCommon
  }

  /** What `minimize` needs of a pair: words on both sides. */
  predicate Clozable(p: Pair)
  {
    |p.engWords| > 0 && |p.fraWords| > 0
  }

  /**
   * `minimize(words, lambda w: freq[w])`: a word of the sentence with the
   * smallest corpus count, the first such word when several tie.
   */
  function Rarest(p: Pair, env: Env, side: Side): (w: string)
    requires Clozable(p)
    ensures w in SideWords(p, side)
    ensures forall v :: v in SideWords(p, side) ==> Get(Freq(env, side), w) <= Get(Freq(env, side), v)
  {
    Minimize(SideWords(p, side), Count(Freq(env, side)))
  }

  /** The cloze for `p` with `w` marked on `side`; the other text is kept as is. */
  function ClozeFor(p: Pair, side: Side, w: string, rule: MarkRule): (c: Cloze)
    ensures side == English ==> c.fra == p.fra
    ensures side == French ==> c.eng == p.eng
  {
    if side == English then Cloze(MarkText(rule, p.eng, w), p.fra)
    else Cloze(p.eng, MarkText(rule, p.fra, w))
  }

  /**
   * The loop's variables: the clozes made so far (with their marks), the
   * two per-word cloze counters, and the two skip counts.
   */
  datatype State = State(clozes: seq<Cloze>, marks: seq<Mark>, usedEng: Counter, usedFra: Counter,
                         skippedLimit: nat, skippedFreq: nat)

  const Start: State := State([], [], Empty, Empty, 0, 0)

  function Used(st: State, side: Side): Counter
  {
    if side == English then st.usedEng else st.usedFra
  }

  /**
   * One half of an iteration: the word is skipped if its counter already
   * equals the limit, else skipped if it is not common, else clozed and
   * counted.
   */
  function SideStep(st: State, env: Env, p: Pair, i: nat, side: Side): (r: State)
    requires Clozable(p) && Valid(st.usedEng) && Valid(st.usedFra)
    ensures Valid(r.usedEng) && Valid(r.usedFra)
    ensures Used(r, Other(side)) == Used(st, Other(side))
    ensures forall v :: v != Rarest(p, env, side) ==> Get(Used(r, side), v) == Get(Used(st, side), v)
    ensures |r.clozes| - |st.clozes| == |r.marks| - |st.marks|
    ensures r.marks == st.marks || r.marks == st.marks + [Mark(i, side, Rarest(p, env, side))]
    ensures r.marks == st.marks ==> r.clozes == st.clozes && r.usedEng == st.usedEng && r.usedFra == st.usedFra
    ensures r.marks != st.marks ==> Rarest(p, env, side) in Common(env, side)
    ensures r.marks != st.marks ==> r.clozes == st.clozes + [ClozeFor(p, side, Rarest(p, env, side), env.rule)]
    ensures r.marks != st.marks ==> Get(Used(r, side), Rarest(p, env, side)) == Get(Used(st, side), Rarest(p, env, side)) + 1
    ensures |r.clozes| + r.skippedLimit + r.skippedFreq == |st.clozes| + st.skippedLimit + st.skippedFreq + 1
  {
    var w := Rarest(p, env, side);
    var used := Used(st, side);
    if Get(used, w) == env.limit then st.(skippedLimit := st.skippedLimit + 1)
    else if w !in Common(env, side) then st.(skippedFreq := st.skippedFreq + 1)
    else
      var made := st.(clozes := st.clozes + [ClozeFor(p, side, w, env.rule)],
                      marks := st.marks + [Mark(i, side, w)]);
      if side == English then made.(usedEng := Add(st.usedEng, w))
      else made.(usedFra := Add(st.usedFra, w))
  }

  /** Both halves of the iteration for pair number `i`: English first, then French. */
  function PairStep(st: State, env: Env, p: Pair, i: nat): (r: State)
    requires Clozable(p) && Valid(st.usedEng) && Valid(st.usedFra)
    ensures Valid(r.usedEng) && Valid(r.usedFra)
    ensures |r.clozes| - |st.clozes| == |r.marks| - |st.marks|
    ensures |r.clozes| + r.skippedLimit + r.skippedFreq == |st.clozes| + st.skippedLimit + st.skippedFreq + 2
  {
    SideStep(SideStep(st, env, p, i, English), env, p, i, French)
  }

  /**
   * The loop of `build_clozes` over `pairs`: each pair contributes two
   * decisions, each either a cloze or one of the two skips.
   */
  function Build(pairs: seq<Pair>, env: Env): (st: State)
    requires forall p :: p in pairs ==> Clozable(p)
    ensures Valid(st.usedEng) && Valid(st.usedFra)
    ensures |st.clozes| == |st.marks|
    ensures |st.clozes| + st.skippedLimit + st.skippedFreq == 2 * |pairs|
  {
    if |pairs| == 0 then Start
    else
      var i := |pairs| - 1;
      PairStep(Build(pairs[..i], env), env, pairs[i], i)
  }

  /** `build_clozes`: the clozes, in the order the loop appends them. */
  function BuildClozes(pairs: seq<Pair>, env: Env): (r: seq<Cloze>)
    requires forall p :: p in pairs ==> Clozable(p)
    ensures |r| <= 2 * |pairs|
    ensures forall c :: c in r ==> FromSomePair(c, pairs, env)
  {
    BuildFromPairs(pairs, env);
    Build(pairs, env).clozes
  }

  /** `c` clozes the rarest word, a common one, of one side of some pair. */
  ghost predicate FromSomePair(c: Cloze, pairs: seq<Pair>, env: Env)
    requires forall p :: p in pairs ==> Clozable(p)
  {
    exists i, side :: 0 <= i < |pairs| && Rarest(pairs[i], env, side) in Common(env, side)
                      && c == ClozeFor(pairs[i], side, Rarest(pairs[i], env, side), env.rule)
  }

  lemma BuildFromPairs(pairs: seq<Pair>, env: Env)
    requires forall p :: p in pairs ==> Clozable(p)
    ensures forall c :: c in Build(pairs, env).clozes ==> FromSomePair(c, pairs, env)
  {
    BuildTraced(pairs, env);
    TracedFromPairs(Build(pairs, env), pairs, env);
  }

  lemma TracedFromPairs(st: State, pairs: seq<Pair>, env: Env)
    requires forall p :: p in pairs ==> Clozable(p)
    requires Traced(st, pairs, env)
    ensures forall c :: c in st.clozes ==> FromSomePair(c, pairs, env)
  {
    forall c | c in st.clozes
      ensures FromSomePair(c, pairs, env)
    {
      var k :| 0 <= k < |st.clozes| && st.clozes[k] == c;
      var m := st.marks[k];
      assert 0 <= m.origin < |pairs| && Rarest(pairs[m.origin], env, m.side) in Common(env, m.side)
             && c == ClozeFor(pairs[m.origin], m.side, Rarest(pairs[m.origin], env, m.side), env.rule);
    }
  }

  /**
   * Every cloze comes from the pair its mark names: that pair's rarest word
   * on the marked side, a common word, marked in that side's text while the
   * other text is copied unchanged.
   */
  ghost predicate Traced(st: State, pairs: seq<Pair>, env: Env)
    requires forall p :: p in pairs ==> Clozable(p)
  {
    && |st.clozes| == |st.marks|
    && forall k :: 0 <= k < |st.marks| ==>
         var m := st.marks[k];
         && m.origin < |pairs|
         && m.target == Rarest(pairs[m.origin], env, m.side)
         && m.target in Common(env, m.side)
         && st.clozes[k] == ClozeFor(pairs[m.origin], m.side, m.target, env.rule)
  }

  lemma SideStepTraced(st: State, env: Env, pairs: seq<Pair>, i: nat, side: Side)
    requires forall p :: p in pairs ==> Clozable(p)
    requires i < |pairs| && Valid(st.usedEng) && Valid(st.usedFra)
    requires Traced(st, pairs, env)
    ensures Traced(SideStep(st, env, pairs[i], i, side), pairs, env)
  {
    assert pairs[i] in pairs;
    var r := SideStep(st, env, pairs[i], i, side);
    if r.marks != st.marks {
      TracedSnoc(st, r.clozes, r.marks, pairs, env, i, side);
    }
  }

  /** Appending one traced cloze for pair `i` keeps the clozes traced. */
  lemma TracedSnoc(st: State, clozes: seq<Cloze>, marks: seq<Mark>, pairs: seq<Pair>, env: Env, i: nat, side: Side)
    requires forall p :: p in pairs ==> Clozable(p)
    requires i < |pairs| && Traced(st, pairs, env)
    requires Rarest(pairs[i], env, side) in Common(env, side)
    requires marks == st.marks + [Mark(i, side, Rarest(pairs[i], env, side))]
    requires clozes == st.clozes + [ClozeFor(pairs[i], side, Rarest(pairs[i], env, side), env.rule)]
    ensures Traced(st.(clozes := clozes, marks := marks), pairs, env)
  {
    var n := |st.marks|;
    forall k | 0 <= k < |marks|
      ensures var m := marks[k];
              && m.origin < |pairs|
              && m.target == Rarest(pairs[m.origin], env, m.side)
              && m.target in Common(env, m.side)
              && clozes[k] == ClozeFor(pairs[m.origin], m.side, m.target, env.rule)
    {
      if k < n {
        assert marks[k] == st.marks[k] && clozes[k] == st.clozes[k];
      }
    }
  }

  /** Tracing into a prefix of the pairs is tracing into the pairs. */
  lemma TracedExtend(st: State, init: seq<Pair>, pairs: seq<Pair>, env: Env)
    requires forall p :: p in pairs ==> Clozable(p)
    requires |init| <= |pairs| && init == pairs[..|init|]
    requires forall p :: p in init ==> Clozable(p)
    requires Traced(st, init, env)
    ensures Traced(st, pairs, env)
  {
    forall k | 0 <= k < |st.marks|
      ensures pairs[st.marks[k].origin] == init[st.marks[k].origin]
    {
    }
  }

  lemma {:induction false} BuildTraced(pairs: seq<Pair>, env: Env)
    requires forall p :: p in pairs ==> Clozable(p)
    ensures Traced(Build(pairs, env), pairs, env)
  {
    if |pairs| > 0 {
      var i := |pairs| - 1;
      var init := pairs[..i];
      assert forall p :: p in init ==> p in pairs;
      BuildTraced(init, env);
      var prev := Build(init, env);
      TracedExtend(prev, init, pairs, env);
      SideStepTraced(prev, env, pairs, i, English);
      SideStepTraced(SideStep(prev, env, pairs[i], i, English), env, pairs, i, French);
    }
  }

  /**
   * Clozes follow the pairs: a later cloze never comes from an earlier pair,
   * and the two clozes of one pair are its English one, then its French one.
   */
  ghost predicate InPairOrder(marks: seq<Mark>)
  {
    forall k, l :: 0 <= k < l < |marks| ==>
      marks[k].origin < marks[l].origin
      || (marks[k].origin == marks[l].origin && marks[k].side == English && marks[l].side == French)
  }

  /** Every mark names a pair before `n`. */
  ghost predicate OriginsBelow(marks: seq<Mark>, n: nat)
  {
    forall k :: 0 <= k < |marks| ==> marks[k].origin < n
  }

  /** Appending the marks of pair `i` keeps the order. */
  lemma AppendInOrder(marks: seq<Mark>, extra: seq<Mark>, i: nat)
    requires OriginsBelow(marks, i) && InPairOrder(marks)
    requires forall k :: 0 <= k < |extra| ==> extra[k].origin == i
    requires forall k, l :: 0 <= k < l < |extra| ==> extra[k].side == English && extra[l].side == French
    ensures OriginsBelow(marks + extra, i + 1) && InPairOrder(marks + extra)
  {
  }

  /** The marks one pair can add: none, its English one, its French one, or both in that order. */
  lemma TwoStepsInOrder(a: seq<Mark>, b: seq<Mark>, c: seq<Mark>, e: Mark, f: Mark, i: nat)
    requires OriginsBelow(a, i) && InPairOrder(a)
    requires e.origin == i && e.side == English && f.origin == i && f.side == French
    requires b == a || b == a + [e]
    requires c == b || c == b + [f]
    ensures OriginsBelow(c, i + 1) && InPairOrder(c)
  {
    if b == a {
      if c == b {
        AppendInOrder(a, [], i);
        assert a + [] == a;
      } else {
        AppendInOrder(a, [f], i);
      }
    } else {
      if c == b {
        AppendInOrder(a, [e], i);
      } else {
        AppendInOrder(a, [e, f], i);
        assert c == a + [e, f];
      }
    }
  }

  lemma PairStepInOrder(st: State, env: Env, p: Pair, i: nat)
    requires Clozable(p) && Valid(st.usedEng) && Valid(st.usedFra)
    requires OriginsBelow(st.marks, i) && InPairOrder(st.marks)
    ensures OriginsBelow(PairStep(st, env, p, i).marks, i + 1) && InPairOrder(PairStep(st, env, p, i).marks)
  {
    var mid := SideStep(st, env, p, i, English);
    TwoStepsInOrder(st.marks, mid.marks, SideStep(mid, env, p, i, French).marks,
                    Mark(i, English, Rarest(p, env, English)), Mark(i, French, Rarest(p, env, French)), i);
  }

  lemma {:induction false} BuildInPairOrder(pairs: seq<Pair>, env: Env)
    requires forall p :: p in pairs ==> Clozable(p)
    ensures OriginsBelow(Build(pairs, env).marks, |pairs|)
    ensures InPairOrder(Build(pairs, env).marks)
  {
    if |pairs| > 0 {
      var i := |pairs| - 1;
      var init := pairs[..i];
      assert forall p :: p in init ==> p in pairs;
      assert pairs[i] in pairs;
      BuildInPairOrder(init, env);
      assert |init| == i;
      var prev := Build(init, env);
      assert Build(pairs, env) == PairStep(prev, env, pairs[i], i);
      PairStepInOrder(prev, env, pairs[i], i);
    }
  }

  /** How many marks hide `w` on `side`. */
  function CountMarks(marks: seq<Mark>, side: Side, w: string): nat
  {
    if |marks| == 0 then 0
    else
      var m := marks[|marks| - 1];
      CountMarks(marks[..|marks| - 1], side, w) + (if m.side == side && m.target == w then 1 else 0)
  }

  /** How many of the pairs have `w` as their rarest word on `side`. */
  function Chosen(pairs: seq<Pair>, env: Env, side: Side, w: string): nat
    requires forall p :: p in pairs ==> Clozable(p)
  {
    if |pairs| == 0 then 0
    else
      var i := |pairs| - 1;
      assert pairs[i] in pairs;
      Chosen(pairs[..i], env, side, w) + (if Rarest(pairs[i], env, side) == w then 1 else 0)
  }

  lemma ChosenSnoc(pairs: seq<Pair>, init: seq<Pair>, i: nat, env: Env, side: Side, w: string)
    requires i < |pairs| == i + 1 && init == pairs[..i]
    requires forall p :: p in pairs ==> Clozable(p)
    ensures forall p :: p in init ==> Clozable(p)
    ensures Clozable(pairs[i])
    ensures Chosen(pairs, env, side, w)
         == Chosen(init, env, side, w) + (if Rarest(pairs[i], env, side) == w then 1 else 0)
  {
    assert forall p :: p in init ==> p in pairs;
    assert pairs[i] in pairs;
  }

  lemma SideStepCounts(st: State, env: Env, p: Pair, i: nat, side: Side, s: Side, w: string)
    requires Clozable(p) && Valid(st.usedEng) && Valid(st.usedFra)
    requires Get(Used(st, s), w) == CountMarks(st.marks, s, w)
    ensures var r := SideStep(st, env, p, i, side);
            Get(Used(r, s), w) == CountMarks(r.marks, s, w)
  {
    var r := SideStep(st, env, p, i, side);
    var m := Mark(i, side, Rarest(p, env, side));
    if r.marks != st.marks {
      CountMarksSnoc(st.marks, m, s, w);
      if s != side {
        assert s == Other(side);
      }
    }
  }

  lemma CountMarksSnoc(marks: seq<Mark>, m: Mark, side: Side, w: string)
    ensures CountMarks(marks + [m], side, w)
         == CountMarks(marks, side, w) + (if m.side == side && m.target == w then 1 else 0)
  {
    assert (marks + [m])[..|marks|] == marks;
  }

  /** The counters of `build_clozes` count exactly the clozes made for each word. */
  lemma {:induction false} BuildCountsMarks(pairs: seq<Pair>, env: Env, side: Side, w: string)
    requires forall p :: p in pairs ==> Clozable(p)
    ensures Get(Used(Build(pairs, env), side), w) == CountMarks(Build(pairs, env).marks, side, w)
  {
    if |pairs| > 0 {
      var i := |pairs| - 1;
      var init := pairs[..i];
      assert forall p :: p in init ==> p in pairs;
      assert pairs[i] in pairs;
      BuildCountsMarks(init, env, side, w);
      var prev := Build(init, env);
      SideStepCounts(prev, env, pairs[i], i, English, side, w);
      SideStepCounts(SideStep(prev, env, pairs[i], i, English), env, pairs[i], i, French, side, w);
    }
  }

  /** The cloze count a word should have after `n` pairs chose it: capped, and 0 if not common. */
  function Expected(env: Env, side: Side, w: string, n: nat): nat
  {
    if w in Common(env, side) then Min(env.limit, n) else 0
  }

  /** One decision on `side` moves the counter of `w` as the exact count below requires. */
  lemma SideStepExact(st: State, env: Env, p: Pair, i: nat, side: Side, w: string, before: nat, after: nat)
    requires Clozable(p) && Valid(st.usedEng) && Valid(st.usedFra)
    requires after == before + (if Rarest(p, env, side) == w then 1 else 0)
    requires Get(Used(st, side), w) == Expected(env, side, w, before)
    ensures Get(Used(SideStep(st, env, p, i, side), side), w) == Expected(env, side, w, after)
  {
  }

  /**
   * The exact number of clozes per word: a common word gets one cloze per
   * pair in which it is the rarest word, up to the limit; any other word
   * gets none.
   */
  lemma {:induction false} BuildExactCount(pairs: seq<Pair>, env: Env, side: Side, w: string)
    requires forall p :: p in pairs ==> Clozable(p)
    ensures CountMarks(Build(pairs, env).marks, side, w)
         == if w in Common(env, side) then Min(env.limit, Chosen(pairs, env, side, w)) else 0
  {
    BuildCountsMarks(pairs, env, side, w);
    BuildUsedExact(pairs, env, side, w);
  }

  lemma {:induction false} BuildUsedExact(pairs: seq<Pair>, env: Env, side: Side, w: string)
    requires forall p :: p in pairs ==> Clozable(p)
    ensures Get(Used(Build(pairs, env), side), w) == Expected(env, side, w, Chosen(pairs, env, side, w))
  {
    if |pairs| > 0 {
      var init := pairs[..|pairs| - 1];
      assert forall p :: p in init ==> p in pairs;
      BuildUsedExact(init, env, side, w);
      BuildUsedStep(pairs, init, env, side, w);
    }
  }

  /** The exact count survives one more pair. */
  lemma BuildUsedStep(pairs: seq<Pair>, init: seq<Pair>, env: Env, side: Side, w: string)
    requires |pairs| > 0 && init == pairs[..|pairs| - 1]
    requires forall p :: p in pairs ==> Clozable(p)
    requires forall p :: p in init ==> Clozable(p)
    requires Get(Used(Build(init, env), side), w) == Expected(env, side, w, Chosen(init, env, side, w))
    ensures Get(Used(Build(pairs, env), side), w) == Expected(env, side, w, Chosen(pairs, env, side, w))
  {
    var i := |pairs| - 1;
    ChosenSnoc(pairs, init, i, env, side, w);
    var prev := Build(init, env);
    PairStepExact(prev, env, pairs[i], i, side, w, Chosen(init, env, side, w), Chosen(pairs, env, side, w));
    assert Build(pairs, env) == PairStep(prev, env, pairs[i], i);
  }

  /** Both decisions for one pair move the counter of `w` on `side` as the exact count requires. */
  lemma PairStepExact(st: State, env: Env, p: Pair, i: nat, side: Side, w: string, before: nat, after: nat)
    requires Clozable(p) && Valid(st.usedEng) && Valid(st.usedFra)
    requires after == before + (if Rarest(p, env, side) == w then 1 else 0)
    requires Get(Used(st, side), w) == Expected(env, side, w, before)
    ensures Get(Used(PairStep(st, env, p, i), side), w) == Expected(env, side, w, after)
  {
    var mid := SideStep(st, env, p, i, English);
    if side == English {
      SideStepExact(st, env, p, i, English, w, before, after);
      assert Used(SideStep(mid, env, p, i, French), English) == Used(mid, English) by {
        assert Other(French) == English;
      }
    } else {
      assert Used(mid, French) == Used(st, French) by {
        assert Other(English) == French;
      }
      SideStepExact(mid, env, p, i, French, w, before, after);
    }
  }

  /** No word gets more clozes than the limit on either side. */
  lemma BuildWithinLimit(pairs: seq<Pair>, env: Env, side: Side, w: string)
    requires forall p :: p in pairs ==> Clozable(p)
    ensures CountMarks(Build(pairs, env).marks, side, w) <= env.limit
  {
    BuildExactCount(pairs, env, side, w);
  }

  /**
   * The limit test is `==`, not `>=`: since a counter never passes the limit,
   * the two tests agree on every counter the loop reaches.
   */
  lemma CapTestIsAtLeast(pairs: seq<Pair>, env: Env, side: Side, w: string)
    requires forall p :: p in pairs ==> Clozable(p)
    ensures var n := Get(Used(Build(pairs, env), side), w);
            n <= env.limit && (n == env.limit <==> n >= env.limit)
  {
    BuildUsedExact(pairs, env, side, w);
  }

  /**
   * As written, marking by `str.replace` also marks the target inside other
   * words: in "a cat" the article "a" is marked twice, once inside "cat".
   * Marking the first whole word marks only the article.
   */
  lemma EveryOccurrenceMarksInsideWords()
    ensures MarkText(EveryOccurrence, "a cat", "a") == Marker("a") + " c" + Marker("a") + "t"
    ensures MarkText(FirstWholeWord, "a cat", "a") == Marker("a") + " cat"
  {
    var m := Marker("a");
    assert ReplaceAll("t", "a", m) == "t" by {
      assert !OccursAt("t", 0, "a");
      assert "t"[1..] == "";
    }
    assert ReplaceAll("at", "a", m) == m + "t" by {
      assert OccursAt("at", 0, "a");
      assert "at"[1..] == "t";
    }
    assert ReplaceAll("cat", "a", m) == "c" + m + "t" by {
      assert !OccursAt("cat", 0, "a");
      assert "cat"[1..] == "at";
    }
    assert ReplaceAll(" cat", "a", m) == " c" + m + "t" by {
      assert !OccursAt(" cat", 0, "a");
      assert " cat"[1..] == "cat";
    }
    assert ReplaceAll("a cat", "a", m) == m + " c" + m + "t" by {
      assert OccursAt("a cat", 0, "a");
      assert "a cat"[1..] == " cat";
    }
    assert IsWordAt("a cat", 0, "a");
    assert FindWord("a cat", "a", 0) == Some(0);
  }

  /**
   * With whole-word marking, the rarest word of a sentence is always found in
   * its text: exactly one whole-word occurrence, the first, becomes the gap.
   */
  lemma FirstWholeWordMarksToken(text: string, w: string)
    requires w in Words(text)
    ensures exists i: nat :: IsWordAt(text, i, w)
                        && (forall j :: 0 <= j < i ==> !IsWordAt(text, j, w))
                        && MarkText(FirstWholeWord, text, w) == text[..i] + Marker(w) + text[i + |w|..]
  {
    WordsAreWordsOfLine(text, w);
    MarkFirstWord(text, w);
  }

  lemma MarkFirstWord(text: string, w: string)
    requires exists i: nat :: IsWordAt(text, i, w)
    ensures exists i: nat :: IsWordAt(text, i, w)
                        && (forall j :: 0 <= j < i ==> !IsWordAt(text, j, w))
                        && MarkText(FirstWholeWord, text, w) == text[..i] + Marker(w) + text[i + |w|..]
  {
    var i: nat :| IsWordAt(text, i, w);
    var j := FindWord(text, w, 0).value;
    ReplaceFirstWordAt(text, w, Marker(w), j);
  }
}
