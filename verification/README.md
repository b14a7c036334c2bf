# Inverted index: builders, index format and query side

This Dafny project models the inverted-index pipelines of the
hadoop-spark-inverted-index repository, and the query and scoring code
that reads their output.

- **Builders.** Four backends turn documents into postings (term → document → count):
  - the sequential Python builder (`normalize_text`, `process_document`,
    `build_inverted_index`, `format_output`);
  - the Spark job (`tokenize`, then `flatMap`/`reduceByKey`/`groupByKey`);
  - the Hadoop mappers `SimpleMapper` and `InvertedIndexMapper`
    (in-mapper combining), with the `Combiner` and the `InvertedIndexReducer`.
- **Index line format.** `term`, whitespace, then `doc:count` fields.
  Writing and reading it is modelled once, in `IndexFormat` and `Query`.
- **Readers.** Three copies of the reader and of the AND-query
  (`_parse_index_line`, `load_index`, `docs_with_all_terms`):
  - `invertedindex/query_index.py`, with its hand-written suffix stemmer and stop words;
  - `querylib`, with NLTK's stemmer and the same stop words;
  - `hadoop/query_index.py`, with NLTK's stemmer and no stop words.
- **Scorers.** Two copies of `score_documents`: a term-frequency sum,
  +5 when every stem lists the document, +10 when its text holds the
  literal query phrase.

## How the model is organised

| module | models |
|---|---|
| `Chars`, `Strings`, `Numbers`, `Order` | ASCII character classes, `split`/`join`/`trim`, decimal rendering and `int()`, string order and `sorted` |
| `Postings` | count maps: `Merge` (key-by-key sum), `SumMaps`, `Tally`, and the "loop visits every key once" predicate `Enumerates` |
| `Tokenizer` | `normalize_text`/`tokenize` (`isalnum` cleaning) and Java's `split("\\W+")` |
| `IndexFormat` | `doc:count` fields, the field loop of `_parse_index_line`, and the load-time sum |
| `Query` | the reader and the AND-query, generic in the stem function and in whether empty stems are skipped |
| `NonParallel`, `Spark`, `SimpleMapping`, `InMapperCombining`, `Combining`, `Reducing` | the builders, one module per source file |
| `QueryIndex`, `QueryLib`, `HadoopQuery` | the three reader copies, each as an instance of `Query` |
| `MapReduce` | the Hadoop records, the shuffle (`ValuesFor`), mapper equivalence and combiner transparency |
| `Scoring`, `Scorer`, `HadoopScorer` | the two passes of `score_documents`, and its two copies |

How the code becomes Dafny:

- **Loops** become methods with `while`/`for` loops. Each method is proved
  against a specification function, for example
  `index' == AddLine(index, t, p)` or `termCounts == Tally(KeptTokens(...))`.
  What the source promises is then proved about those functions as lemmas.
- **Stateful Java classes** become classes: the two mappers keep `filename`,
  `fileMap`, `counts` and the written records as fields.
- **Dictionary and HashMap iteration.** Java's `HashMap` iterates in an
  unspecified order. Python's `dict` iterates in insertion order. The model
  represents both by picking any remaining key. Where the loop builds
  another map, the order cannot change the result. Where the order shows up
  in the output, a ghost `order` out-parameter names it, and `Enumerates`
  states that it visits every key exactly once. For `HashMap` (the
  in-mapper `cleanup`, the reducer text) this is all the source fixes. For
  the exact-phrase list, Python fixes more than the model states; see
  "Left out".
- **Outside inputs** are parameters:
  - file contents: `read: string -> string` for the builder, where `""`
    means unreadable; `read: string -> Option<string>` for the scorers,
    where `None` means the file is missing;
  - NLTK's stemmer: `porter: string -> string`, deterministic and otherwise unconstrained.

## Model

| member | source | states |
|---|---|---|
| Strings.SplitShape | pythonNonParallel/inverted_index_nonparallel.py:123 | every piece of `split()` is non-empty and separator-free, and the pieces concatenated are the text's non-separator characters in order |
| Strings.SplitJoin | pythonNonParallel/inverted_index_nonparallel.py:225 | splitting words joined by a separator gives the words back |
| Strings.SplitAllSeparators | pythonNonParallel/inverted_index_nonparallel.py:123 | a text made only of separators splits into no pieces |
| Strings.TrimTrailingTab | invertedindex/src/main/java/org/example/inv2/InvertedIndexReducer.java:37 | `trim()` removes exactly the trailing tab from text that starts and ends above `' '` |
| Numbers.IntToStringRoundTrip | invertedindex/query_index.py:44-46 | a count rendered with `f"{n}"` parses back with `int()` to the same count |
| Numbers.IntToStringInjective | pythonNonParallel/inverted_index_nonparallel.py:224 | distinct counts render to distinct strings |
| Order.LessTotal | pythonNonParallel/inverted_index_nonparallel.py:223 | Python's string order is total |
| Order.LessTransitive | pythonNonParallel/inverted_index_nonparallel.py:223 | Python's string order is transitive |
| Order.Sorted | pythonNonParallel/inverted_index_nonparallel.py:223-224 | `sorted(keys)` holds exactly the keys, each once, strictly ascending |
| Postings.MergeCommutative | invertedindex/src/main/java/org/example/inv2/Combiner.java:25-29 | summing two count maps key by key does not depend on their order |
| Postings.MergeAssociative | invertedindex/src/main/java/org/example/inv2/Combiner.java:25-29 | the key-by-key sum is associative |
| Postings.SumMapsAt | invertedindex/src/main/java/org/example/inv2/Combiner.java:20-31 | a file is in the sum iff some value has it, and its count is the sum of the values' counts |
| Postings.SumMapsPermutation | invertedindex/src/main/java/org/example/inv2/Combiner.java:20-31 | the sum of the values does not depend on the order in which they arrive |
| Postings.SumMapsPositive | invertedindex/src/main/java/org/example/inv2/InvertedIndexReducer.java:28 | if every input count is positive, every summed count is positive |
| Postings.TallyCounts | invertedindex/src/main/java/org/example/inv2/InvertedIndexMapper.java:37-40 | the counts map holds exactly the tokens seen, each with its number of occurrences (at least 1) |
| Postings.TallyAppend | invertedindex/src/main/java/org/example/inv2/InvertedIndexMapper.java:37-40 | counting two token lists one after the other is merging their counts |
| Tokenizer.NormalizedShape | pythonNonParallel/inverted_index_nonparallel.py:113-123 | every token is non-empty, lowercase and alphanumeric, and the tokens concatenated are the text's alphanumerics in order |
| Tokenizer.NormalizedNoAlnum | pythonNonParallel/inverted_index_nonparallel.py:116-123 | text without an alphanumeric character gives no tokens |
| Tokenizer.JavaSplitNonEmpty | invertedindex/src/main/java/org/example/inv2/SimpleMapper.java:23-24 | the non-empty pieces of `split("\\W+")` are exactly the maximal runs of word characters (`_` included) |
| Tokenizer.JavaTokensShape | invertedindex/src/main/java/org/example/inv2/SimpleMapper.java:23-24 | every Java token is non-empty, lowercase and made of word characters |
| IndexFormat.FirstColonSpec | invertedindex/query_index.py:44-45 | a field is split at its first `:`, which exists exactly when the field holds a `:` |
| IndexFormat.ParseFieldOfField | invertedindex/query_index.py:44-46 | a field `doc:count` whose doc has no `:` reads back as that doc and count |
| IndexFormat.FieldInjective | pythonNonParallel/inverted_index_nonparallel.py:224 | two equal fields name the same document and count |
| IndexFormat.FieldsPostingsLastWins | invertedindex/query_index.py:42-47 | a doc is in a line's postings iff some well-formed field names it, and the last such field's count wins |
| IndexFormat.FieldsRoundTrip | invertedindex/query_index.py:42-47 | reading the fields written from postings, in any order, gives those postings back |
| IndexFormat.LineSplits | invertedindex/query_index.py:38 | a line of a term, one whitespace character and whitespace-joined fields splits back into the term and the fields |
| IndexFormat.LoadAllSums | invertedindex/query_index.py:50-58 | a term's loaded postings are the sum of the postings of all its lines, and the term is present iff that sum is non-empty |
| IndexFormat.LoadAllDistinct | invertedindex/query_index.py:50-58 | lines with distinct terms and non-empty postings load to exactly those terms and postings |
| MapReduce.OnesShape | invertedindex/src/main/java/org/example/inv2/SimpleMapper.java:23-29 | SimpleMapper writes exactly one record per token, the token with the single entry `filename → 1` |
| MapReduce.OnesSum | invertedindex/src/main/java/org/example/inv2/SimpleMapper.java:23-29 | the 1s written for a token sum to its number of occurrences in the file |
| MapReduce.EmitValues | invertedindex/src/main/java/org/example/inv2/InvertedIndexMapper.java:44-51 | cleanup writes one value per counted term, `{filename: counts[t]}`, and none for other terms |
| MapReduce.MapperEquivalence | invertedindex/src/main/java/org/example/inv2/Driver.java:31-35 | the two mappers deliver the same per-file total for every term, whatever order cleanup visits the counts in |
| MapReduce.CombinerTransparent | invertedindex/src/main/java/org/example/inv2/Driver.java:36-38 | summing the combiner's per-group sums gives the same totals as summing all values directly |
| NonParallel.DefaultStopWordsWider | pythonNonParallel/inverted_index_nonparallel.py:127-139 | the builder's default stop words strictly include the query side's `STOP_WORDS` (e.g. `aren` only in the former) |
| NonParallel.NormalizeText | pythonNonParallel/inverted_index_nonparallel.py:113-123 | the cleaning loop and split give non-empty lowercase alphanumeric tokens, the text's alphanumerics in order |
| NonParallel.KeptTokensCount | pythonNonParallel/inverted_index_nonparallel.py:175-177 | the filter keeps every occurrence of a non-empty non-stop-word token and no other |
| NonParallel.TermCountsSpec | pythonNonParallel/inverted_index_nonparallel.py:164-180 | the term counts hold exactly the non-stop-word tokens, each with its number of occurrences (at least 1) |
| NonParallel.ProcessDocument | pythonNonParallel/inverted_index_nonparallel.py:164-180 | returns those term counts, and `{}` for empty or unreadable content |
| NonParallel.CountTokens | pythonNonParallel/inverted_index_nonparallel.py:172-177 | the counting loop over non-empty content computes the term counts |
| NonParallel.CountKept | pythonNonParallel/inverted_index_nonparallel.py:175-177 | `term_counts[token] += 1` over the tokens counts every kept token |
| NonParallel.AssignCounts | pythonNonParallel/inverted_index_nonparallel.py:203-204 | the inner loop assigns every count of the file under its base name, in any iteration order |
| NonParallel.BuildInvertedIndex | pythonNonParallel/inverted_index_nonparallel.py:183-217 | the loop builds the index of the assignments of every file in order |
| NonParallel.AssignDocPostings | pythonNonParallel/inverted_index_nonparallel.py:203-204 | a file's counts replace, not add to, the entry of its base name under each of its terms |
| NonParallel.AssignDocEmpty | pythonNonParallel/inverted_index_nonparallel.py:199-201 | a file with no term counts leaves the index unchanged |
| NonParallel.AssignAllLastWins | pythonNonParallel/inverted_index_nonparallel.py:195-204 | a doc is under a term iff some file with that base name counts the term, and the last such file's count stands |
| NonParallel.AssignAllKeys | pythonNonParallel/inverted_index_nonparallel.py:195-204 | the terms are exactly those some file counts, none with empty postings |
| NonParallel.BuildIndexSpec | pythonNonParallel/inverted_index_nonparallel.py:183-217 | no indexed term is empty or a stop word; a doc is listed iff a file with that base name has the term; its count is that of the last such file's occurrences |
| NonParallel.OverwriteNotSum | pythonNonParallel/inverted_index_nonparallel.py:196-204 | two files with the same base name: the second file's count replaces the first |
| NonParallel.FieldsOfSpec | pythonNonParallel/inverted_index_nonparallel.py:224 | one `doc:count` field per posting, in ascending doc order, and nothing else |
| NonParallel.FormatOutput | pythonNonParallel/inverted_index_nonparallel.py:220-227 | one line per term |
| NonParallel.FormatOutputOrder | pythonNonParallel/inverted_index_nonparallel.py:220-227 | the lines are those of the terms in strictly ascending order, each `term`, a tab and the sorted fields joined by spaces |
| NonParallel.FormatLineParses | pythonNonParallel/inverted_index_nonparallel.py:225 | a written line reads back as its term and postings when the term is a fixed point of the stemmer and no doc holds `:` or whitespace |
| NonParallel.FormatOutputRoundTrip | pythonNonParallel/inverted_index_nonparallel.py:220-227 | loading the written lines gives the index back, under the same conditions |
| Spark.Tokenize | invertedindex/spark/inverted_index_spark.py:6-10 | the cleaning loop gives the same tokens as `normalize_text`: non-empty, lowercase, alphanumeric |
| Spark.KeptStemsMembers | invertedindex/spark/inverted_index_spark.py:18-22 | a stem is emitted iff some token that is not a stop word has it as a non-empty stem |
| Spark.FilePairsMembers | invertedindex/spark/inverted_index_spark.py:18-22 | a file emits `(t, d)` iff `d` is its base name and some non-stop-word token has non-empty stem `t` |
| Spark.WithDocCount | invertedindex/spark/inverted_index_spark.py:19-20 | a file emits `(t, d)` once per token with stem `t`, and only with its own base name |
| Spark.AllPairsCount | invertedindex/spark/inverted_index_spark.py:17-22 | the number of `(t, d)` pairs is the count over all files with base name `d` |
| Spark.ReducedCount | invertedindex/spark/inverted_index_spark.py:17-24 | `reduceByKey` gives each `(t, d)` that count, at least 1 when present |
| Spark.SparkPostings | invertedindex/spark/inverted_index_spark.py:17-27 | a doc is grouped under `t` iff some token of a file with that base name emits `t`, and its count is the number of such tokens over all those files |
| Spark.SparkTermEmitted | invertedindex/spark/inverted_index_spark.py:17-24 | a term survives `reduceByKey` iff some token of some file emits it |
| Spark.SparkOutputLines | invertedindex/spark/inverted_index_spark.py:25-31 | the job writes a line for exactly the terms some file emits, and those lines, listed in any term order, are the ones `SparkRoundTrip` reads back |
| Spark.FieldSetSpec | invertedindex/spark/inverted_index_spark.py:25-28 | the grouped strings are the term's `doc:count` fields, one per doc |
| Spark.SparkLineParses | invertedindex/spark/inverted_index_spark.py:28-29 | a written line reads back as its term and postings when the term is a stem fixed point and no doc holds `:` or whitespace |
| Spark.SparkRoundTrip | invertedindex/spark/inverted_index_spark.py:26-31 | loading the lines, in whatever order they were saved, gives exactly the reduced terms with their postings |
| Spark.SparkJobRoundTrip | invertedindex/spark/inverted_index_spark.py:16-31 | loading the job's own output lines, in any order, gives exactly the emitted terms, and under each every doc with the number of tokens that emitted it there |
| SimpleMapping.SimpleMapper.constructor | invertedindex/src/main/java/org/example/inv2/SimpleMapper.java:17-19 | `setup` fixes `filename` to the base name of the split's path |
| SimpleMapping.SimpleMapper.Map | invertedindex/src/main/java/org/example/inv2/SimpleMapper.java:22-30 | appends one `(token, {filename: 1})` record per non-empty token of the lowercased line; `filename` is unchanged |
| SimpleMapping.SimpleMapper.WritePieces | invertedindex/src/main/java/org/example/inv2/SimpleMapper.java:23-29 | the loop writes one record per non-empty piece and skips the empty ones |
| SimpleMapping.MapRecords | invertedindex/src/main/java/org/example/inv2/SimpleMapper.java:23-29 | each record's key is the raw lowercased token and its value has exactly one entry, `filename → 1` |
| InMapperCombining.InvertedIndexMapper.constructor | invertedindex/src/main/java/org/example/inv2/InvertedIndexMapper.java:21-25 | `setup` starts with empty counts and the base name of the split |
| InMapperCombining.InvertedIndexMapper.Map | invertedindex/src/main/java/org/example/inv2/InvertedIndexMapper.java:28-41 | merges the line's token counts into `counts` and writes nothing; `counts` stays the tally of all lines seen |
| InMapperCombining.InvertedIndexMapper.Cleanup | invertedindex/src/main/java/org/example/inv2/InvertedIndexMapper.java:44-51 | writes one `(t, {filename: counts[t]})` record per counted term, each term once, in the map's iteration order |
| InMapperCombining.WriteAll | invertedindex/src/main/java/org/example/inv2/InvertedIndexMapper.java:45-50 | the entry loop writes the records of `Emit` for an order visiting every key once, and `fileMap` ends as `{filename: count}` of the last key visited, or unchanged when there is none |
| InMapperCombining.CountPieces | invertedindex/src/main/java/org/example/inv2/InvertedIndexMapper.java:37-40 | `counts.merge(token, 1, Integer::sum)` over the non-empty pieces extends the tally |
| InMapperCombining.CountsStep | invertedindex/src/main/java/org/example/inv2/InvertedIndexMapper.java:37-40 | one more line merges its counts into the totals, all of which stay at least 1 |
| InMapperCombining.CleanupRecords | invertedindex/src/main/java/org/example/inv2/InvertedIndexMapper.java:44-51 | the value cleanup writes for `t` is `{filename: occurrences of t}`, and none when `t` was not seen |
| Combining.Reduce | invertedindex/src/main/java/org/example/inv2/Combiner.java:15-35 | writes the input key with the file-by-file sum of the values (empty for no values) |
| Combining.AddEntries | invertedindex/src/main/java/org/example/inv2/Combiner.java:21-31 | the inner loop adds every entry of one value, in any iteration order |
| Combining.CombineSpec | invertedindex/src/main/java/org/example/inv2/Combiner.java:18-34 | a file is in the output iff some value has it, with the sum of its counts; no values give `{}`; the order of values is irrelevant |
| Reducing.Aggregate | invertedindex/src/main/java/org/example/inv2/InvertedIndexReducer.java:18-30 | the first loop computes the file-by-file sum of the values |
| Reducing.MergeEntries | invertedindex/src/main/java/org/example/inv2/InvertedIndexReducer.java:23-29 | `aggregate.merge(file, count, Integer::sum)` over one value's entries, in any order |
| Reducing.Serialize | invertedindex/src/main/java/org/example/inv2/InvertedIndexReducer.java:32-35 | appends `file:count` and a tab for every file exactly once, in the iteration order |
| Reducing.Reduce | invertedindex/src/main/java/org/example/inv2/InvertedIndexReducer.java:15-41 | writes the key with the trimmed text over the summed postings; no values give `""` |
| Reducing.TerminatedJoin | invertedindex/src/main/java/org/example/inv2/InvertedIndexReducer.java:32-35 | the built text is the fields joined by tabs plus one trailing tab |
| Reducing.ReducerText | invertedindex/src/main/java/org/example/inv2/InvertedIndexReducer.java:32-37 | after `trim()` the text is the fields joined by tabs, without a trailing tab |
| Reducing.ReducerLineParses | invertedindex/src/main/java/org/example/inv2/InvertedIndexReducer.java:32-40 | the written line reads back as the key and the summed postings, whatever the field order |
| Query.StemsOfMembers | invertedindex/query_index.py:62-64 | the stems looked up are exactly the stems of the counted query words |
| Query.StemsOfAll | hadoop/query_index.py:48-49 | without skipping, every query word contributes its stem, in order |
| Query.InAllCounted | invertedindex/query_index.py:60-68 | being listed under every looked-up stem is being listed under the stem of every counted query word |
| Query.ParseIndexLine | invertedindex/query_index.py:37-48 | the field loop computes the parsed line |
| Query.AddPostings | invertedindex/query_index.py:56-57 | `idx[t][d] = idx[t].get(d, 0) + c` over a line's postings, in any order |
| Query.LoadIndex | invertedindex/query_index.py:50-58 | the loop loads the lines in order, skipping empty terms when asked |
| Query.DocsWithAllTerms | invertedindex/query_index.py:60-68 | a doc is returned iff some query word is counted and the doc is listed under every counted word's stem |
| Query.ParsedLineRoundTrip | invertedindex/query_index.py:37-48 | a line written from a stem fixed point and postings without `:` or whitespace in docs reads back as that term and postings |
| Query.KeptParsedAll | invertedindex/query_index.py:53-55 | lines whose terms are all non-empty all reach the index |
| Query.LoadedDistinct | invertedindex/query_index.py:50-58 | lines with distinct non-empty terms and postings load to exactly those |
| Query.LoadedSkipping | invertedindex/query_index.py:53-57 | with skipping, the empty term is never a key and each term holds the sum of its lines' postings |
| QueryIndex.SuffixRules | invertedindex/query_index.py:24-28 | the suffix rules give a prefix of the word, empty only for the empty word |
| QueryIndex.PorterStem | invertedindex/query_index.py:21-28 | `PorterStemmer.stem` returns a prefix of the lowercased word, never longer, and the lowercased word itself for at most two letters |
| QueryIndex.SuffixRulesIdempotent | invertedindex/query_index.py:24-28 | the suffix rules change nothing on their own output |
| QueryIndex.PorterStemIdempotent | invertedindex/query_index.py:21-28 | `PorterStemmer.stem` is idempotent |
| QueryIndex.StemEmpty | invertedindex/query_index.py:32-35 | `stem` is `""` exactly for the empty word and lowercased stop words, and its result is lowercase |
| QueryIndex.StemNotIdempotent | invertedindex/query_index.py:32-35 | `stem` is not idempotent: `ons` stems to `on`, a stop word, which stems to `""` |
| QueryIndex.ParseIndexLine | invertedindex/query_index.py:37-48 | blank lines and stop-word terms give `("", {})`; otherwise the stemmed term and the fields' postings |
| QueryIndex.LoadIndex | invertedindex/query_index.py:50-58 | no empty term; each term holds the sum of the postings of its lines |
| QueryIndex.DocsWithAllTerms | invertedindex/query_index.py:60-68 | the docs listed under the stem of every query word with a non-empty stem; `{}` when there is none |
| QueryLib.StemSpec | invertedindex/deps_build/querylib/__init__.py:18-22 | `""` for a lowercased stop word, otherwise the NLTK stem of the lowercased word |
| QueryLib.ParseIndexLine | invertedindex/deps_build/querylib/__init__.py:24-39 | blank lines and terms with an empty stem give `("", {})`; otherwise the stemmed term and postings |
| QueryLib.LoadIndex | invertedindex/deps_build/querylib/__init__.py:41-50 | no empty term; each term holds the sum of the postings of its lines |
| QueryLib.DocsWithAllTerms | invertedindex/deps_build/querylib/__init__.py:52-62 | the docs listed under the stem of every query word with a non-empty stem; `{}` when there is none |
| HadoopQuery.StemCaseInsensitive | hadoop/query_index.py:8-9 | `stem` sees only the lowercased word |
| HadoopQuery.ParseIndexLine | hadoop/query_index.py:11-32 | a blank line gives `("", {})`; otherwise the stem of the first word (never skipped) and the fields' postings |
| HadoopQuery.KeptParsedKeepsAll | hadoop/query_index.py:37-40 | every parsed line reaches the index, in order |
| HadoopQuery.LoadIndex | hadoop/query_index.py:34-41 | each term holds the sum of its lines' postings, and no term has empty postings |
| HadoopQuery.DocsWithAllTerms | hadoop/query_index.py:43-53 | the docs listed under the stem of every query word, none skipped; `{}` for no words; a subset of each word's docs |
| Scoring.TermFrequencies | invertedindex/document_scorer.py:16-19 | pass 1 sums the postings of the stems, a repeated stem counted each time |
| Scoring.AddCounts | invertedindex/document_scorer.py:18-19 | `scores[doc] += cnt` over one stem's postings, in any order |
| Scoring.TermFrequencySpec | invertedindex/document_scorer.py:16-19 | a doc has a pass-1 score iff some stem lists it, and the score is its term frequency |
| Scoring.TfRepeated | hadoop/document_scorer.py:25-27 | a stem repeated in the query counts the document's postings again |
| Scoring.BonusesOf | invertedindex/document_scorer.py:26-34 | one document's bonuses are added, and it joins the exact list on a phrase hit |
| Scoring.Bonuses | invertedindex/document_scorer.py:24-36 | pass 2 keeps the key set and adds 5 if every stem lists the doc and 10 if its text holds the phrase |
| Scoring.HitsSpec | invertedindex/document_scorer.py:30-34 | the exact list is the scored docs with a phrase hit, each once |
| Scoring.Rank | invertedindex/document_scorer.py:16-38 | scored docs are those some stem lists, each with tf + 5·[all stems] + 10·[phrase]; the exact list is duplicate-free |
| Scoring.ScoreBounds | invertedindex/document_scorer.py:24-36 | the bonus is 0, 5, 10 or 15 |
| Scoring.ScoreExample | invertedindex/document_scorer.py:16-34 | counts 2 and 3 give 5, then 10 with all stems, then 20 with the phrase |
| Scorer.ScorerStemsSpec | invertedindex/document_scorer.py:13 | the scorer's stems are the non-empty stems of the non-stop-word terms, duplicates kept |
| Scorer.ScoreDocuments | invertedindex/document_scorer.py:9-38 | the scores and exact list of `Rank` over the loaded index, the filtered stems and the literal phrase |
| HadoopScorer.HadoopStems | hadoop/document_scorer.py:20 | one stem per query term, unfiltered |
| HadoopScorer.PartialMatchTest | hadoop/document_scorer.py:35 | `stem in index and doc in index[stem]` is the partial-match test |
| HadoopScorer.ScoreDocuments | hadoop/document_scorer.py:12-49 | the scores and exact list of `Rank` over the loaded index, the unfiltered stems and the literal phrase |

## Left out

- Logging, `PerformanceMonitor`, `argparse`/`main`, the benchmark scripts,
  the Flask apps and the Hadoop `Driver` job set-up are not modelled. They
  are timing, process and file-system orchestration. The Drivers only
  motivate `MapperEquivalence` and `CombinerTransparent`.
- File and HDFS I/O. Document contents, index-file lines and raw texts are
  parameters. `glob` order is the order of the `files` sequence.
  `write_output` and `saveAsTextFile` are not modelled; the written lines are.
- Loading stop words from a file in `load_stop_words` is not modelled. The
  builder takes its stop-word set as a parameter. The default set is
  `NonParallel.DefaultStopWords`.
- Characters are ASCII only. Unicode `lower`, `isalnum`, whitespace and
  Java's `\W` are their ASCII cases.
- Python's `int()` is `Numbers.ParseInt`: an optional sign and ASCII
  digits. Surrounding whitespace, underscores and non-ASCII digits are
  rejected, although Python accepts them. A field holding whitespace never
  reaches `int()`, because lines are split on whitespace first.
- Combining.Reduce: Java `int` sums are unbounded here; 32-bit wrap-around is not modelled.
- Reducing.Reduce: Java `int` sums are unbounded here; 32-bit wrap-around is
  not modelled. The field order is the HashMap's iteration order, named but
  not determined.
- InMapperCombining.InvertedIndexMapper.Map: the debug loop that prints the
  whitespace-split tokens is not modelled, because it changes no state.
  Counts are unbounded, as above.
- InMapperCombining.InvertedIndexMapper.Cleanup: the records hold a
  snapshot of each value. The reuse of the one `Text`/`MapWritable` object
  across `write` calls is not modelled, because Hadoop serialises each
  record on `write`.
- Spark.SparkOutput: the output is keyed by term. Which partition file a
  line lands in, the `parts` argument, and the order of lines across
  partitions are not modelled; `SparkRoundTrip` holds for every order.
- The Hadoop shuffle is `MapReduce.ValuesFor`: the values for a key, in
  writing order. Sorting by key and partitioning are not modelled;
  `SumMapsPermutation` shows that the value order does not matter.
- NLTK's Porter stemmer is a parameter. Nothing beyond determinism is
  assumed about it, so no idempotence is claimed for it.
- Scoring.Bonuses: Python's dict keeps insertion order, so pass 2 visits
  the documents in the order pass 1 first scored them: stems in query
  order, then each stem's postings in load order. That order fixes the
  order of `exact_phrase_docs`. The model states `exact` only for an
  `order` that visits every scored document once, not that particular one.
- Scoring.Rank: for the same reason, the order of the returned scores
  dict's keys and of the exact-phrase list is not modelled. Rank states the
  exact list's members and that it holds no duplicate.
- HadoopScorer.ScoreDocuments: the same applies to the Hadoop scorer's
  pass 2, which also iterates over `list(scores)`.
- In the scorers, exceptions other than a missing dataset file (an
  unreadable index file, a decoding error) are not modelled.
