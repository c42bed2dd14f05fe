# Cloze flashcards from English–French sentence pairs

A Dafny model of `script.py`. The script turns Tatoeba English/French sentence
pairs into cloze flashcards. The model follows its pipeline step by step:

- **Loading.** Each record's texts are stripped and lowered. Both sides are
  tokenized, and pairs are filtered by the French word limit and the
  non-empty tests (`Loader`, `Tokenizer`, `Text`). The skip-list test is
  modelled too, but as written it never matches (see "Findings").
- **Word counts.** One frequency table is built per language
  (`Frequency`, `Counters`), with the most and least common word.
- **Common words.** The 5000 most common words of each language are picked
  (`Frequency.MostCommonWords`).
- **Ranking.** Pairs are sorted by average French word count divided by the
  French word count, highest first (`Ranking`, `Sorting`).
- **Deduplication.** The loop detects and counts the pairs whose
  punctuation-stripped English or French text was already seen, but as
  written the input is returned unchanged, duplicates included (`Dedup`; see
  "Findings").
- **Cloze building.** For each pair, the rarest English word and the rarest
  French word are each clozed. A word is clozed only while its cloze count is
  below the limit of 3 and only if it is a common word (`Cloze`, `Extremes`).
- **Units.** The clozes are cut into units of 100 (`Grouping`).
- **Whole pipeline.** `Pipeline` runs the steps above in order.

Everything is a pure function over immutable values:

- strings are `seq<char>`;
- `collections.Counter` is an insertion-ordered key list plus a count map;
- scores are exact reals.

Three places where the code does something other than what it evidently
intends are modelled twice, once as written and once corrected (see
"Findings"). `Pipeline.SourceConfig` selects the behaviour as written and
`Pipeline.CorrectedConfig` selects the repairs.

Where the script's documented intent and its code disagree, the model follows the
code:

- `remove_duplicates` returns its input.
- `str.replace` marks every occurrence of the clozed word, not only the first.

## Model

| member | source | states |
|---|---|---|
| Tokenizer.Words | script.py:37-41 | no token is empty, none is made only of digits, and none contains a character of the boundary class (whitespace, `,`, `.`, `!`, `?`, `"`) |
| Tokenizer.WordsInOrder | script.py:38-40 | the tokens are the split pieces with some pieces dropped, in their left-to-right order |
| Tokenizer.WordsComplete | script.py:38-40 | a string is a token exactly when it is a split piece that is non-empty and not a number |
| Tokenizer.WordsKeepContent | script.py:34-41 | glued together, the tokens carry exactly the characters of the line that are neither boundaries nor digits, in order |
| Tokenizer.WordsAreWordsOfLine | script.py:34-38 | every token occurs in its line as a whole word: at the start or after a boundary, and at the end or before one |
| Tokenizer.SplitFlatten | script.py:34-38 | the pieces of `re.split`, concatenated, are the line with its boundary characters removed |
| Tokenizer.SplitCount | script.py:38 | splitting yields one more piece than there are boundary characters |
| Tokenizer.Split | script.py:38 | `re.split` always yields at least one piece; where the cuts fall is stated by `SplitJoin` and `SplitUnique` |
| Tokenizer.SplitJoin | script.py:34-38 | the pieces with the line's boundary characters put back between them, one between each two, give the line again |
| Tokenizer.SplitUnique | script.py:34-38 | any list of boundary-free pieces that, joined by single boundary characters, gives the line is the split of the line |
| Tokenizer.SplitPiecesUnbroken | script.py:34-38 | no piece of the split contains a boundary character |
| Text.StripIsMaximalTrim | script.py:63-64 | `strip()` returns a slice of its input with only whitespace removed before and after it, and the slice neither starts nor ends with whitespace |
| Text.StripIdempotent | script.py:63-64 | stripping twice is stripping once |
| Text.Strip | script.py:63-64 | the result is no longer than the input and, when non-empty, neither starts nor ends with whitespace |
| Text.ReplaceAll | script.py:241 | replacing a non-empty string by itself gives the text back unchanged; the general scan is stated by `ReplaceAllFirst` and `ReplaceAllNoMatch` |
| Text.ReplaceAllFirst | script.py:241 | the text up to the first occurrence of the pattern is copied, that occurrence becomes the replacement, and the scan carries on after it |
| Text.ReplaceAllNoMatch | script.py:241 | a text in which the pattern does not occur is returned unchanged |
| Text.ReplaceFirstWordAt | script.py:241 | corrected marking: when the word first occurs as a whole word at index i, that occurrence alone is replaced |
| Text.ReplaceFirstWordAbsent | script.py:241 | corrected marking: a text in which the word is not a whole word is left unchanged |
| Text.Lower | script.py:63-64 | lowering keeps the length, leaves no upper-case ASCII letter, keeps every other character and maps each upper-case letter to its lower-case form |
| Text.ReplaceAllDeletesChar | script.py:172-175 | `replace(c, "")` is the text with every `c` deleted and every other character kept, in order |
| Loader.ParseSentences | script.py:63-81 | every retained pair has its French text outside the skip list, between 1 and `WORD_LIMIT` French words, at least one English word, and token lists that are the tokenization of its texts; there are no more pairs than records |
| Loader.Candidate | script.py:63-68 | the token lists of a candidate pair are the tokenization of its two texts |
| Loader.CandidateCleaned | script.py:63-64 | each text of a candidate is the lowered form of the record's text with all leading and trailing whitespace cut off; it has no whitespace at either end and no upper-case letter |
| Loader.ParseIsFilter | script.py:59-83 | the retained pairs are exactly the candidate pairs that pass the three tests, in record order |
| Loader.ParseKeepsOrder | script.py:62-81 | the retained pairs appear in the same relative order as their records |
| Loader.SkipListNeverMatches | script.py:53-65 | as written, the skip list removes nothing: no lowered text equals its capitalised entry |
| Loader.CorrectedSkipListDrops | script.py:53-66 | with the entry in lowered form, a record whose French text is that sentence is dropped |
| Counters.Add | script.py:245 | adding one occurrence raises the word's count by one, leaves every other count alone, and appends a new word to the insertion order |
| Counters.UpdateCounts | script.py:96-97 | `update(ws)` raises each word's count by its number of occurrences in `ws` |
| Counters.UpdateKeepsOrder | script.py:96-97 | updating keeps the earlier keys in their places and only appends new keys |
| Counters.Update | script.py:97 | updating keeps the counter well formed: each key listed once, and exactly the keys with a positive count are listed; the per-word effect is stated by `UpdateCounts` |
| Frequency.BuildTable | script.py:95-97 | the table maps every word to its total number of occurrences over all sentences, unseen words read 0, and its keys are exactly the words that occur |
| Frequency.BuildTableOrderInvariant | script.py:95-97 | reordering the sentences does not change any count |
| Frequency.LanguageFrequencyTable | script.py:91-104 | the table is returned unless no word was seen at all, where looking up the most common word fails |
| Frequency.MostCommon | script.py:107-108 | `most_common(1)` gives a word of maximal count, the first such word in insertion order |
| Frequency.LeastCommon | script.py:111-116 | `least_common` gives a word of minimal count, the first such word in insertion order |
| Frequency.MostCommonWords | script.py:130-134 | the cutoff set has `min(K, number of distinct words)` elements, all of them keys of the table, and no word outside it has a higher count than a word inside it |
| Extremes.Minimize | script.py:201-213 | `minimize` returns an element of minimal key, and every element before it has a strictly larger key |
| Extremes.ArgMinUnique | script.py:206-213 | the index `minimize` returns is the only one whose key is minimal and smaller than every earlier key |
| Ranking.AvgFreqBounds | script.py:155-159 | the average count lies between the smallest and the largest count of the words |
| Ranking.AvgFreq | script.py:155-159 | the mean count: the sum of the words' counts divided by their number (`AvgFreqValue`); it is never negative, and it equals the common count when every word has the same count |
| Ranking.AvgFreqValue | script.py:159 | the average times the number of words is the sum of the words' counts in the table |
| Ranking.Score | script.py:148-152 | the ranking key is never negative and is the average count divided once more by the number of French words |
| Ranking.ScoreCrossMultiplied | script.py:148-152 | one pair ranks no higher than another exactly when sum(p)·len(q)² ≤ sum(q)·len(p)² |
| Ranking.SortPairs | script.py:142-152 | the result is a permutation of the input ordered by non-increasing key, for inputs whose French word lists are all non-empty |
| Ranking.SortPairsStable | script.py:148-152 | pairs with equal keys leave the sort in the order they entered it |
| Dedup.Unpunctuate | script.py:171-176 | the three `replace` calls give the text with every `!`, `.` and `,` deleted and every other character kept, in order |
| Dedup.Normalize | script.py:171-176 | the key of a text is the text with every `!`, `.` and `,` deleted, then stripped |
| Dedup.NormalizeIdempotent | script.py:171-176 | a key is its own key |
| Dedup.NormalizeIgnoresTrailingPunctuation | script.py:171-176 | appending `!`, `.` or `,` to a text does not change its key |
| Dedup.Scan | script.py:166-184 | every pair is either kept or counted as skipped, the seen sets hold exactly the keys of the kept pairs, and no two kept pairs share an English or a French key |
| Dedup.ScanIsSubseq | script.py:170-184 | the kept pairs are a subsequence of the input |
| Dedup.ScanCovers | script.py:177-184 | every input pair shares its English or its French key with a pair kept from the input up to and including it, and so with a pair kept overall |
| Dedup.ScanPrefix | script.py:170-184 | the pairs kept from a prefix of the input are a prefix of the pairs kept from the whole input |
| Dedup.ScanDecides | script.py:177-184 | a pair whose English and French keys are both unseen so far is kept, in the next place after the pairs kept before it; a pair with a seen key is dropped |
| Dedup.ScanKeepsFirst | script.py:170-184 | the first pair is always kept, in first position |
| Dedup.RemoveDuplicates | script.py:165-186 | as written the input comes back unchanged; the corrected rule returns pairs without shared keys, drawn from the input, starting with its first pair |
| Dedup.AsWrittenKeepsDuplicate | script.py:186 | as written, a pair that differs from an earlier one only by a final full stop survives, while the loop's own list drops it |
| Cloze.Rarest | script.py:232-233 | the chosen word is a word of the sentence whose corpus count is no larger than that of any other word of it |
| Cloze.SideStep | script.py:235-257 | one decision clozes the rarest word or skips it; only that word's counter on that side can change, and at most one cloze is added |
| Cloze.ClozeFor | script.py:240-255 | a cloze copies the text of the side that is not clozed unchanged |
| Cloze.Build | script.py:223-257 | the counters stay valid and every pair accounts for exactly two decisions: clozes plus both skip counts equal twice the number of pairs |
| Cloze.BuildTraced | script.py:230-257 | every cloze hides the rarest word of the pair it came from, that word is common, the marked side is that pair's text with the word marked, and the other side is copied unchanged |
| Cloze.BuildInPairOrder | script.py:230-257 | clozes appear in pair order, at most two per pair, English before French |
| Cloze.BuildCountsMarks | script.py:226-257 | each counter equals the number of clozes made for that word on that side |
| Cloze.BuildExactCount | script.py:230-257 | a common word gets one cloze per pair in which it is the rarest word, capped at the limit; any other word gets none |
| Cloze.BuildClozes | script.py:216-266 | there are at most two clozes per pair, and every cloze is some pair's cloze of its rarest word on one side, that word being common |
| Cloze.BuildWithinLimit | script.py:235-257 | no word gets more clozes than the limit on either side |
| Cloze.CapTestIsAtLeast | script.py:235-247 | counters never pass the limit, so the `==` test agrees with `>=` |
| Cloze.EveryOccurrenceMarksInsideWords | script.py:240-243 | as written, marking "a" in "a cat" also marks the "a" inside "cat"; whole-word marking marks only the article |
| Cloze.FirstWholeWordMarksToken | script.py:252-255 | with whole-word marking, the rarest word is always found, and its first whole-word occurrence alone becomes the gap |
| Grouping.Chunks | script.py:295-299 | every slice has 1 to n elements, and all but the last have exactly n |
| Grouping.ChunksFlatten | script.py:295-299 | the slices, concatenated, give the input back |
| Grouping.Group | script.py:295-299 | a step of 0 fails, a negative step gives no slices, and a positive step gives slices that concatenate to the input |
| Grouping.ChunksCount | script.py:297 | there are `ceil(len / n)` slices |
| Grouping.ChunkIsSlice | script.py:297-298 | slice k is `lst[k*n : k*n + n]`, cut short at the end of the list |
| Pipeline.Prepare | script.py:309-324 | preparation fails exactly when no pair survives parsing; otherwise the pairs handed to the cloze builder all have words on both sides and are no more than the parsed pairs, and each common-word set has at most the cutoff's size; `PrepareEnv` ties the tables and sets to the corpus |
| Pipeline.PrepareEnv | script.py:312-321 | the English and French tables count every word of their language in the parsed pairs, and each common-word set is `most_common_words` of its table |
| Pipeline.PrepareAsWritten | script.py:309-324 | as written, the pairs handed to `build_clozes` are exactly the parsed pairs, reordered into non-increasing `sort_pairs` key, and the French table counts every French word of them |
| Pipeline.PrepareCorrected | script.py:309-324 | with the corrected `remove_duplicates`, the pairs handed on are drawn from the parsed pairs and no two share a normalised English or French text |
| Pipeline.Run | script.py:307-334 | the run fails exactly when no pair survives parsing or the unit size is 0; otherwise every unit has between 1 and the unit size (100) clozes, there are at most two clozes per record, and a negative unit size gives no units at all, as `range` with a negative step is empty |
| Pipeline.RunIsBuild | script.py:331-334 | with a positive unit size the run succeeds, and its units, put back together, are exactly the clozes `build_clozes` makes from the prepared pairs |
| Pipeline.Finish | script.py:331-334 | the clozes of the prepared pairs are grouped into units: a unit size of 0 is the error `range` raises, a negative one gives no units, and a positive one gives units that put back together are the clozes of the prepared pairs |
| Pipeline.RunWithinLimit | script.py:331-333 | over a whole run, no word gets more than `CLOZE_LIMIT` clozes on either side |
| Pipeline.RunTargetsCommon | script.py:312-333 | over a whole run, every clozed word is among the common words of its language, and no word outside that set occurs more often in that language's parsed pairs than the clozed word |

## Left out

- Reading the TSV file with `csv.reader` is not modelled; records arrive as (English, French) pairs of strings. The `IndexError` on short rows is left out with it.
- Writing the unit files in `dump_clozes` is not modelled: CSV quoting, the header row and `str.capitalize`. The model returns the units instead.
- All `print` reporting and `Pair.dump` are not modelled. Neither is `counter_avg`, which only feeds a printed line.
- `str.lower` and `str.isdigit` are modelled on ASCII only. Unicode case mapping and non-ASCII digits are not modelled.
- The `re` engine is not modelled. The boundary class is written out as a predicate; its `\s` is Python's `str.isspace` set.
- Float division in the sort key is not modelled. Scores are exact rationals, so pairs whose float keys would round to equal values may be ordered differently.
- `Counter.most_common(n)` is modelled as a stable sort by count, highest first, ties in insertion order. That is the order CPython documents; its heap-based selection is not modelled separately.
- Each cloze carries a `Mark` (the pair it came from, the side, the word). The script's `Cloze` has no such fields; the marks exist so the per-word limit and provenance can be stated.
- The unit size, fixed at 100 in `dump_clozes`, is a parameter of the model (`Config.unitSize`). This is so the 0 and negative cases of `group` can be stated.
- `minimize` over an empty list (the script's `assert`) is excluded by precondition, as is `sort_pairs` on a pair without French words. Parsing guarantees both never happen.

## Findings

| source | as written | input that shows it | evidently intended | confidence | as-written member | corrected member |
|---|---|---|---|---|---|---|
| script.py:186 | `remove_duplicates` returns its argument `pairs`, so the duplicates it detects are kept | two pairs whose English texts are `hello` and `hello.` | return the filtered `result` | high; not executed | Dedup.AsWrittenKeepsDuplicate | Dedup.RemoveDuplicates |
| script.py:53 | the skip-list entry `Eu cheguei ontem.` starts with a capital letter, but the French text is lowered before the test, so it never matches | a record whose French text is `Eu cheguei ontem.` | the entry in lowered form, `eu cheguei ontem.` | medium; not executed | Loader.SkipListNeverMatches | Loader.CorrectedSkipListDrops |
| script.py:241 | `str.replace` marks every occurrence of the rarest word, also inside longer words | English text `a cat` with rarest word `a` | mark one whole-word occurrence | medium; not executed | Cloze.EveryOccurrenceMarksInsideWords | Cloze.FirstWholeWordMarksToken |
