/**
 * `main`: parse, count words per language, pick the common words, sort,
 * remove duplicates, build the clozes and cut them into units. Reading the
 * corpus and writing the unit files are left to the caller: the records
 * come in as a parameter and the units go out as the result.
 */
module Pipeline {
  import opened Wrappers
  import opened Seqs
  import opened Counters
  import opened Frequency
  import opened Loader
  import opened Ranking
  import opened Dedup
  import opened Cloze
  import opened Grouping

  /** The constants `main` runs with, and the two behaviours the model can switch. */
  datatype Config = Config(wordLimit: nat, skipList: seq<string>, cutoff: nat, clozeLimit: nat,
                           unitSize: int, rule: MarkRule, dedup: DedupRule)

  /** The script as written. */
  const SourceConfig: Config :=
    Config(WordLimit, SkipList, MostCommonWordsCutoff, ClozeLimit, UnitSize, EveryOccurrence, ReturnInput)

  /** The script with its three defects repaired. */
  const CorrectedConfig: Config :=
    Config(WordLimit, CorrectedSkipList, MostCommonWordsCutoff, ClozeLimit, UnitSize, FirstWholeWord, ReturnKept)

  /** Why `main` stops before writing anything. */
  datatype PipelineError =
    | EmptyCorpus    // no pair survives parsing: reporting the frequency table fails
    | ZeroUnitSize   // `range` with a step of 0

  function EngWordsOf(p: Pair): seq<string>
  {
    p.engWords
  }

  function FraWordsOf(p: Pair): seq<string>
  {
    p.fraWords
  }

  /** The pairs ready for `build_clozes`, and its other arguments. */
  datatype Prepared = Prepared(pairs: seq<Pair>, env: Env)

  /** A list whose first pair has words on its English side has some word. */
  lemma FirstWordsFlatten(pairs: seq<Pair>, f: Pair -> seq<string>)
    requires |pairs| > 0 && |f(pairs[0])| > 0
    ensures Flatten(Map(pairs, f)) != []
  {
    assert Map(pairs, f)[0] == f(pairs[0]);
  }

  /**
   * The two frequency tables `main` builds, from the English and from the
   * French word lists. `None` when there are no pairs, where
   * `language_frequency_table` fails.
   */
  function FrequencyTables(parsed: seq<Pair>, wordLimit: nat): (r: Option<(Counter, Counter)>)
    requires forall p :: p in parsed ==> WellFormed(p, wordLimit)
    ensures r.None? <==> parsed == []
    ensures r.Some? ==> Valid(r.value.0) && Valid(r.value.1)
    ensures r.Some? ==> forall w :: Get(r.value.0, w) == multiset(Flatten(Map(parsed, EngWordsOf)))[w]
    ensures r.Some? ==> forall w :: Get(r.value.1, w) == multiset(Flatten(Map(parsed, FraWordsOf)))[w]
  {
    if parsed == [] then
      assert Flatten(Map(parsed, EngWordsOf)) == [];
      None
    else
      assert parsed[0] in parsed;
      assert WellFormed(parsed[0], wordLimit);
      assert EngWordsOf(parsed[0]) == parsed[0].engWords && FraWordsOf(parsed[0]) == parsed[0].fraWords;
      FirstWordsFlatten(parsed, EngWordsOf);
      FirstWordsFlatten(parsed, FraWordsOf);
      var eng := LanguageFrequencyTable(Map(parsed, EngWordsOf));
      var fra := LanguageFrequencyTable(Map(parsed, FraWordsOf));
      Some((eng.value, fra.value))
  }

  /** Everything `main` does before `build_clozes`. */
  function Prepare(cfg: Config, records: seq<Record>): (r: Option<Prepared>)
    ensures r.None? <==> ParseSentences(records, cfg.skipList, cfg.wordLimit) == []
    ensures r.Some? ==> forall p :: p in r.value.pairs ==> Clozable(p)
    ensures r.Some? ==> 0 < |r.value.pairs| <= |ParseSentences(records, cfg.skipList, cfg.wordLimit)|
    ensures r.Some? ==> r.value.env.limit == cfg.clozeLimit && r.value.env.rule == cfg.rule
    ensures r.Some? ==> |r.value.env.engCommon| <= cfg.cutoff && |r.value.env.fraCommon| <= cfg.cutoff
    ensures r.Some? ==> Valid(r.value.env.engFreq) && Valid(r.value.env.fraFreq)
  {
    var parsed := ParseSentences(records, cfg.skipList, cfg.wordLimit);
    match FrequencyTables(parsed, cfg.wordLimit)
    case None => None
    case Some((engFreq, fraFreq)) => Some(Arrange(cfg, parsed, engFreq, fraFreq))
  }

  /**
   * The cut-off sets, `sort_pairs` and `remove_duplicates`, once the
   * frequency tables exist.
   */
  function Arrange(cfg: Config, parsed: seq<Pair>, engFreq: Counter, fraFreq: Counter): (r: Prepared)
    requires parsed != [] && forall p :: p in parsed ==> WellFormed(p, cfg.wordLimit)
    requires Valid(engFreq) && Valid(fraFreq)
    ensures forall p :: p in r.pairs ==> Clozable(p)
    ensures 0 < |r.pairs| <= |parsed|
    ensures r.env.limit == cfg.clozeLimit && r.env.rule == cfg.rule
    ensures |r.env.engCommon| <= cfg.cutoff && |r.env.fraCommon| <= cfg.cutoff
    ensures r.env.engFreq == engFreq && r.env.fraFreq == fraFreq
  {
    var engCommon := MostCommonWords(engFreq, cfg.cutoff);
    var fraCommon := MostCommonWords(fraFreq, cfg.cutoff);
    WellFormedRankable(parsed, cfg.wordLimit);
    var sorted := SortPairs(parsed, fraFreq);
    PermutationLength(sorted, parsed);
    var pairs := RemoveDuplicates(sorted, cfg.dedup);
    PreparedClozable(parsed, sorted, pairs, cfg.wordLimit);
    Prepared(pairs, Env(engFreq, fraFreq, engCommon, fraCommon, cfg.clozeLimit, cfg.rule))
  }

  lemma WellFormedRankable(parsed: seq<Pair>, wordLimit: nat)
    requires forall p :: p in parsed ==> WellFormed(p, wordLimit)
    ensures forall p :: p in parsed ==> |p.fraWords| > 0
  {
  }

  lemma PermutationLength<T>(a: seq<T>, b: seq<T>)
    requires multiset(a) == multiset(b)
    ensures |a| == |b|
  {
    assert |a| == |multiset(a)| && |b| == |multiset(b)|;
  }

  lemma PreparedClozable(parsed: seq<Pair>, sorted: seq<Pair>, pairs: seq<Pair>, wordLimit: nat)
    requires forall p :: p in parsed ==> WellFormed(p, wordLimit)
    requires multiset(sorted) == multiset(parsed)
    requires multiset(pairs) <= multiset(sorted)
    ensures forall p :: p in pairs ==> Clozable(p)
  {
    forall p | p in pairs
      ensures Clozable(p)
    {
      assert p in multiset(pairs);
      assert p in multiset(parsed);
      assert p in parsed;
      assert WellFormed(p, wordLimit);
    }
  }

  /**
   * `main` on already-read records: the units `dump_clozes` would write, in
   * order, or the reason the script stops first.
   */
  function Run(cfg: Config, records: seq<Record>): (r: Result<seq<seq<Cloze>>, PipelineError>)
    ensures r == Failure(EmptyCorpus) <==> ParseSentences(records, cfg.skipList, cfg.wordLimit) == []
    ensures r == Failure(ZeroUnitSize) <==> ParseSentences(records, cfg.skipList, cfg.wordLimit) != [] && cfg.unitSize == 0
    ensures r.Success? ==> forall u :: u in r.value ==> 0 < |u| <= cfg.unitSize
    ensures r.Success? ==> |Flatten(r.value)| <= 2 * |records|
    ensures r.Success? && cfg.unitSize < 0 ==> r.value == []
  {
    match Prepare(cfg, records)
    case None => Failure(EmptyCorpus)
    case Some(prep) =>
      assert |prep.pairs| <= |records|;
      Finish(prep, cfg.unitSize)
  }

  /** `build_clozes` and the grouping of `dump_clozes`, once the pairs are prepared. */
  function Finish(prep: Prepared, unitSize: int): (r: Result<seq<seq<Cloze>>, PipelineError>)
    requires forall p :: p in prep.pairs ==> Clozable(p)
    ensures r.Failure? <==> unitSize == 0
    ensures r.Failure? ==> r.error == ZeroUnitSize
    ensures r.Success? ==> forall u :: u in r.value ==> 0 < |u| <= unitSize
    ensures r.Success? ==> |Flatten(r.value)| <= 2 * |prep.pairs|
    ensures unitSize < 0 ==> r == Success([])
    ensures unitSize > 0 ==> r.Success? && Flatten(r.value) == BuildClozes(prep.pairs, prep.env)
  {
    var clozes := BuildClozes(prep.pairs, prep.env);
    match Group(clozes, unitSize)
    case None => Failure(ZeroUnitSize)
    case Some(units) =>
      UnitsBounded(units, unitSize);
      Success(units)
  }

  lemma UnitsBounded<T>(units: seq<seq<T>>, n: int)
    requires forall k :: 0 <= k < |units| ==> 0 < |units[k]| <= n
    ensures forall u :: u in units ==> 0 < |u| <= n
  {
  }

  /** Every word of one language in the parsed pairs, in order. */
  function CorpusWords(parsed: seq<Pair>, side: Side): seq<string>
  {
    if side == English then Flatten(Map(parsed, EngWordsOf)) else Flatten(Map(parsed, FraWordsOf))
  }

  /**
   * The tables and common-word sets `main` hands to `build_clozes` are those
   * of the parsed corpus: each table counts every word of its language, and
   * each common set is `most_common_words` of its table.
   */
  lemma PrepareEnv(cfg: Config, records: seq<Record>)
    requires Prepare(cfg, records).Some?
    ensures var env := Prepare(cfg, records).value.env;
            var parsed := ParseSentences(records, cfg.skipList, cfg.wordLimit);
            && (forall w :: Get(env.engFreq, w) == multiset(CorpusWords(parsed, English))[w])
            && (forall w :: Get(env.fraFreq, w) == multiset(CorpusWords(parsed, French))[w])
            && env.engCommon == MostCommonWords(env.engFreq, cfg.cutoff)
            && env.fraCommon == MostCommonWords(env.fraFreq, cfg.cutoff)
  {
    var parsed := ParseSentences(records, cfg.skipList, cfg.wordLimit);
    var tables := FrequencyTables(parsed, cfg.wordLimit).value;
    assert Prepare(cfg, records) == Some(Arrange(cfg, parsed, tables.0, tables.1));
    ArrangeEnv(cfg, parsed, tables.0, tables.1);
    TablesCountCorpus(parsed, cfg.wordLimit);
  }

  lemma ArrangeEnv(cfg: Config, parsed: seq<Pair>, engFreq: Counter, fraFreq: Counter)
    requires parsed != [] && forall p :: p in parsed ==> WellFormed(p, cfg.wordLimit)
    requires Valid(engFreq) && Valid(fraFreq)
    ensures var env := Arrange(cfg, parsed, engFreq, fraFreq).env;
            && env.engFreq == engFreq && env.fraFreq == fraFreq
            && env.engCommon == MostCommonWords(engFreq, cfg.cutoff)
            && env.fraCommon == MostCommonWords(fraFreq, cfg.cutoff)
  {
  }

  lemma TablesCountCorpus(parsed: seq<Pair>, wordLimit: nat)
    requires parsed != [] && forall p :: p in parsed ==> WellFormed(p, wordLimit)
    ensures var tables := FrequencyTables(parsed, wordLimit).value;
            && (forall w :: Get(tables.0, w) == multiset(CorpusWords(parsed, English))[w])
            && (forall w :: Get(tables.1, w) == multiset(CorpusWords(parsed, French))[w])
  {
  }

  /**
   * As written, the pairs handed to `build_clozes` are all the parsed pairs,
   * in `sort_pairs` order, and the French table counts every French word.
   */
  lemma PrepareAsWritten(cfg: Config, records: seq<Record>)
    requires cfg.dedup == ReturnInput && Prepare(cfg, records).Some?
    ensures var prep := Prepare(cfg, records).value;
            var parsed := ParseSentences(records, cfg.skipList, cfg.wordLimit);
            && multiset(prep.pairs) == multiset(parsed)
            && (forall i, j :: 0 <= i < j < |prep.pairs| ==>
                  Score(prep.pairs[i], prep.env.fraFreq) >= Score(prep.pairs[j], prep.env.fraFreq))
            && forall w :: Get(prep.env.fraFreq, w) == multiset(Flatten(Map(parsed, FraWordsOf)))[w]
  {
    var parsed := ParseSentences(records, cfg.skipList, cfg.wordLimit);
    var fraFreq := FrequencyTables(parsed, cfg.wordLimit).value.1;
    WellFormedRankable(parsed, cfg.wordLimit);
    var sorted := SortPairs(parsed, fraFreq);
    assert Prepare(cfg, records).value.pairs == sorted;
  }

  /**
   * With the corrected `remove_duplicates`, the pairs handed on are drawn
   * from the parsed pairs and no two share a normalised text.
   */
  lemma PrepareCorrected(cfg: Config, records: seq<Record>)
    requires cfg.dedup == ReturnKept && Prepare(cfg, records).Some?
    ensures var prep := Prepare(cfg, records).value;
            && multiset(prep.pairs) <= multiset(ParseSentences(records, cfg.skipList, cfg.wordLimit))
            && UniqueKeys(prep.pairs, Normalize)
  {
    var parsed := ParseSentences(records, cfg.skipList, cfg.wordLimit);
    var fraFreq := FrequencyTables(parsed, cfg.wordLimit).value.1;
    WellFormedRankable(parsed, cfg.wordLimit);
    var sorted := SortPairs(parsed, fraFreq);
    assert Prepare(cfg, records).value.pairs == RemoveDuplicates(sorted, ReturnKept);
  }

  /**
   * With a positive unit size the run succeeds, and its units, put back
   * together, are exactly the clozes `build_clozes` makes from the prepared
   * pairs.
   */
  lemma RunIsBuild(cfg: Config, records: seq<Record>)
    requires Prepare(cfg, records).Some? && cfg.unitSize > 0
    ensures var prep := Prepare(cfg, records).value;
            && Run(cfg, records).Success?
            && Flatten(Run(cfg, records).value) == BuildClozes(prep.pairs, prep.env)
  {
  }

  /** No word gets more than `cloze_limit` clozes in a run of the pipeline. */
  lemma RunWithinLimit(cfg: Config, records: seq<Record>, side: Side, w: string)
    requires Prepare(cfg, records).Some?
    ensures var prep := Prepare(cfg, records).value;
            CountMarks(Build(prep.pairs, prep.env).marks, side, w) <= cfg.clozeLimit
  {
    var prep := Prepare(cfg, records).value;
    BuildWithinLimit(prep.pairs, prep.env, side, w);
  }

  /**
   * Every cloze of a run hides one of the `cutoff` most common words of its
   * language in the parsed corpus: no word outside the common set occurs
   * more often in that language than the hidden word.
   */
  lemma RunTargetsCommon(cfg: Config, records: seq<Record>)
    requires Prepare(cfg, records).Some?
    ensures var prep := Prepare(cfg, records).value;
            forall m :: m in Build(prep.pairs, prep.env).marks ==> m.target in Common(prep.env, m.side)
    ensures var prep := Prepare(cfg, records).value;
            var parsed := ParseSentences(records, cfg.skipList, cfg.wordLimit);
            forall m, v :: m in Build(prep.pairs, prep.env).marks && v !in Common(prep.env, m.side) ==>
              multiset(CorpusWords(parsed, m.side))[v] <= multiset(CorpusWords(parsed, m.side))[m.target]
  {
    var prep := Prepare(cfg, records).value;
    var parsed := ParseSentences(records, cfg.skipList, cfg.wordLimit);
    BuildTraced(prep.pairs, prep.env);
    PrepareEnv(cfg, records);
    TargetsOutrank(prep.env, Build(prep.pairs, prep.env).marks, cfg.cutoff, parsed);
  }

  /** Marks whose targets are in the common sets of a corpus's tables. */
  lemma TargetsOutrank(env: Env, marks: seq<Mark>, cutoff: nat, parsed: seq<Pair>)
    requires Valid(env.engFreq) && Valid(env.fraFreq)
    requires env.engCommon == MostCommonWords(env.engFreq, cutoff)
    requires env.fraCommon == MostCommonWords(env.fraFreq, cutoff)
    requires forall w :: Get(env.engFreq, w) == multiset(CorpusWords(parsed, English))[w]
    requires forall w :: Get(env.fraFreq, w) == multiset(CorpusWords(parsed, French))[w]
    requires forall m :: m in marks ==> m.target in Common(env, m.side)
    ensures forall m, v :: m in marks && v !in Common(env, m.side) ==>
              multiset(CorpusWords(parsed, m.side))[v] <= multiset(CorpusWords(parsed, m.side))[m.target]
  {
    forall m, v | m in marks && v !in Common(env, m.side)
      ensures multiset(CorpusWords(parsed, m.side))[v] <= multiset(CorpusWords(parsed, m.side))[m.target]
    {
      SideTable(env, cutoff, parsed, m.side);
      CommonOutranks(Freq(env, m.side), cutoff, m.target, v);
    }
  }

  /** The facts about one language's table and common set, whichever it is. */
  lemma SideTable(env: Env, cutoff: nat, parsed: seq<Pair>, side: Side)
    requires Valid(env.engFreq) && Valid(env.fraFreq)
    requires env.engCommon == MostCommonWords(env.engFreq, cutoff)
    requires env.fraCommon == MostCommonWords(env.fraFreq, cutoff)
    requires forall w :: Get(env.engFreq, w) == multiset(CorpusWords(parsed, English))[w]
    requires forall w :: Get(env.fraFreq, w) == multiset(CorpusWords(parsed, French))[w]
    ensures Valid(Freq(env, side)) && Common(env, side) == MostCommonWords(Freq(env, side), cutoff)
    ensures forall w :: Get(Freq(env, side), w) == multiset(CorpusWords(parsed, side))[w]
  {
  }

  /** A word outside `most_common_words` counts no more than one inside it. */
  lemma CommonOutranks(t: Counter, n: nat, w: string, v: string)
    requires Valid(t) && w in MostCommonWords(t, n) && v !in MostCommonWords(t, n)
    ensures Get(t, v) <= Get(t, w)
  {
  }
}
