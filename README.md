# SH-file-helper core, modelled in Dafny

This project models three parts of the SH-file-helper tool and proves
properties of them.

- **The TextRank glossary pipeline** (`src/glossary.py`). Input texts are
  joined with newlines and cut into sentences. Each sentence is tokenized
  against a stopword set. An undirected co-occurrence graph is built over a
  sliding token window. Thirty synchronous PageRank rounds (damping 0.85) rank
  its nodes, and the scores are normalised by their maximum. Candidate phrases
  are the maximal runs of non-stopword tokens; each scores the sum of its
  tokens' ranks and keeps its best score. Phrases are sorted by descending
  score (stable) and cut to `top_k`.
- **The sequential task queue** (`src/task_queue.py`). An ordered list of task
  records moves from PENDING to COMPLETED or FAILED as tasks run, with a
  handler table keyed by task id.
- **Slide-text post-processing** (`src/ppt_extract.py`). This covers
  order-preserving deduplication of a slide's lines, numbering slides from 1,
  and rendering a result as `Slide n` headers followed by lines, joined with
  newlines.

Modules:

| file | module | what |
|---|---|---|
| `wrappers.dfy` | `Wrappers` | `Option`, `Result` |
| `strings.dfy` | `Strings` | Python's `str.strip`, `str.lower`, `sep.join`, splitting at one character, integer formatting |
| `seqs.dfy` | `Seqs` | order-preserving deduplication, subsequences |
| `glossary_text.dfy` | `GlossaryText` | stopwords, sentence splitting, tokenization |
| `glossary_graph.dfy` | `GlossaryGraph` | co-occurrence graph |
| `glossary_rank.dfy` | `GlossaryRank` | PageRank |
| `glossary_phrases.dfy` | `GlossaryPhrases` | phrase extraction and scoring |
| `glossary.dfy` | `Glossary` | request, ranking, `generate_glossary` |
| `task_queue.dfy` | `TaskQueue` | task records and the queue (classes) |
| `ppt_extract.dfy` | `PptExtract` | slide numbering, line deduplication, `to_text` |

Each stage that the source writes as a loop is a `method`. The method's
`ensures` ties its result to a specification function of the inputs, and
lemmas prove what the source promises about that function. The task queue and
its records are classes whose methods update fields in place. A record's fields
are compared as a snapshot value (`TaskInfo`) against pure functions
(`Execute`, `RunNextOf`, `RunAllOf`).

Two behaviours of the code that a reader might not expect:

- **Negative `window_size`.** The slice `tokens[index + 1 : min(index +
  window_size, len(tokens))]` has a negative stop when `window_size` is
  negative, and Python counts a negative stop from the end of the list. So
  links do appear. `GlossaryGraph.NegativeWindowLinks` exhibits the links made
  for `["x", "y", "z"]` with window -1. The "no edges" property is proved for
  windows 0 and 1 only (`GlossaryGraph.NarrowWindowLinksNothing`).
- **Negative `top_k`.** `ranked[: top_k]` with a negative `top_k` drops `-top_k`
  entries from the end rather than returning none. `Glossary.SliceTo` models
  this slice.

## Model

| member | source | states |
|---|---|---|
| `Strings.Strip` | src/glossary.py:135 | `str.strip()`: the result is a slice of the input with only whitespace (Python's `isspace` set) removed on either side, and it neither starts nor ends with whitespace |
| `Strings.SplitJoin` | src/ppt_extract.py:35 | joining pieces that contain no `c` with `c` and splitting at `c` gives the pieces back |
| `Strings.NatToStringValue` | src/ppt_extract.py:33 | the decimal digits written for `n` read back as `n` |
| `Seqs.Dedupe` | src/ppt_extract.py:91-99 | the deduplicated list has the same elements as the input and no repeats |
| `Seqs.DedupeIsSubsequence` | src/ppt_extract.py:91-99 | the deduplicated list is the input with elements deleted |
| `Seqs.DedupeKeepsFirstOccurrenceOrder` | src/ppt_extract.py:91-99 | kept elements appear in the order of their first occurrences |
| `Seqs.DedupeOfDistinct` | src/ppt_extract.py:91-99 | a list without repeats is unchanged by deduplication |
| `Seqs.DedupeIdempotent` | src/ppt_extract.py:91-99 | deduplicating twice equals deduplicating once |
| `GlossaryText.WordCharsAreVisible` | src/glossary.py:8-9 | a token character is never whitespace or a sentence separator, and lower-casing keeps it a token character |
| `GlossaryText.LowerEach` | src/glossary.py:129-130 | the lower-cased extra stopwords are exactly the `lower()` of the given words |
| `GlossaryText.BuildStopwords` | src/glossary.py:126-131 | the stopword set holds the lower-cased English list, the Chinese list and every lower-cased extra word, and equals `StopwordSet` |
| `GlossaryText.SplitOnSeps` | src/glossary.py:135 | `re.split` on runs of `.!?。！？\n` gives at least one part and no part contains a separator |
| `GlossaryText.SplitOnSepsKeepsText` | src/glossary.py:135 | the parts of the split put together are the text without its separators |
| `GlossaryText.SplitOnSepsCutsAtRuns` | src/glossary.py:135 | the text is part, separator run, part, …, part: every run is a non-empty run of separators, no part holds a separator, and no part but the first and the last is empty, so each run is a maximal one |
| `GlossaryText.SepLayoutIsSplit` | src/glossary.py:135 | conversely, every such cut of the text is the split: the parts are determined by where the maximal separator runs are |
| `GlossaryText.StrippedNonEmptyAreSentences` | src/glossary.py:135-136 | every kept part is non-empty, stripped and separator-free |
| `GlossaryText.SplitSentencesSpec` | src/glossary.py:134-136 | every sentence is non-empty, stripped and has no separator, no visible character of the text is lost or added, and the sentences are the non-blank pieces between the maximal separator runs, stripped, in order |
| `GlossaryText.WordRuns` | src/glossary.py:141 | every match of the token pattern is a non-empty run of word characters |
| `GlossaryText.WordRunsKeepWordChars` | src/glossary.py:141 | the matches together are exactly the word characters of the text |
| `GlossaryText.WordRunsAreMaximal` | src/glossary.py:141 | the text is gap, match, gap, …, gap: no gap holds a word character and every gap between two matches is non-empty, so each match is a maximal run |
| `GlossaryText.WordLayoutIsWordRuns` | src/glossary.py:141 | conversely, non-empty word runs laid out between such gaps are exactly the matches |
| `GlossaryText.WordRunsOfJoin` | src/glossary.py:209 | tokenizing tokens joined with single spaces gives back the same tokens |
| `GlossaryText.WordRunsLowered` | src/glossary.py:141 | the matches over a lower-cased text are lower case |
| `GlossaryText.FilterOutMembers` | src/glossary.py:143-145 | a token is kept exactly when it occurs and is not a stopword |
| `GlossaryText.FilterOutIsSubsequence` | src/glossary.py:141-146 | the stopword filter keeps the order of the matches |
| `GlossaryText.Tokenize` | src/glossary.py:139-146 | `_tokenize` returns `TokensOf`: an ordered subsequence of the matches whose every token is a lower-case word run and not a stopword |
| `GlossaryGraph.AddNeighbour` | src/glossary.py:157-158 | `graph[a].add(b)` on a defaultdict: adds exactly the edge a→b and key a, keeping every other edge |
| `GlossaryGraph.WindowEnd` | src/glossary.py:152-153 | the normalised stop of the slice `tokens[i + 1 : min(i + w, n)]` lies in 0..n and is at most i + w when that is non-negative |
| `GlossaryGraph.LinkedSymmetric` | src/glossary.py:155-158 | the link relation is symmetric and never links a token to itself |
| `GlossaryGraph.NarrowWindowLinksNothing` | src/glossary.py:152-153 | with window 0 or 1 nothing is linked |
| `GlossaryGraph.NarrowWindowEmptyGraph` | src/glossary.py:149-159 | with window 0 or 1 the built graph is empty |
| `GlossaryGraph.NegativeWindowLinks` | src/glossary.py:152-153 | with window -1 the list `["x","y","z"]` links x and y |
| `GlossaryGraph.LinkedInVocabulary` | src/glossary.py:151-153 | linked tokens are tokens of some sentence |
| `GlossaryGraph.GraphOfUnique` | src/glossary.py:149-159 | a graph whose edges are exactly the links and whose keys all have neighbours is `GraphOf` |
| `GlossaryGraph.BuildGraph` | src/glossary.py:149-159 | `_build_graph`: an edge exists exactly when the two tokens are linked within the window; edges are symmetric with no self-loops; every key has a neighbour; windows 0 and 1 give the empty graph |
| `GlossaryRank.GraphOfClosed` | src/glossary.py:149-159 | every neighbour in the built graph is itself a key |
| `GlossaryRank.Degree` | src/glossary.py:172 | `len(graph[m]) or 1` is at least 1 |
| `GlossaryRank.ContributionPick` | src/glossary.py:170-173 | the neighbour sum does not depend on the order the neighbours are visited |
| `GlossaryRank.ContributionNonNegative` | src/glossary.py:170-173 | the neighbour sum of non-negative scores is non-negative |
| `GlossaryRank.IterateAtLeastBase` | src/glossary.py:164-174 | with damping in [0, 1) every score after any number of rounds is at least 1 - damping |
| `GlossaryRank.NormaliseBounds` | src/glossary.py:176-177 | dividing positive scores by their maximum gives values in (0, 1], with some node at exactly 1 |
| `GlossaryRank.PageRankBounds` | src/glossary.py:162-177 | every normalised PageRank score lies in (0, 1] and, for a non-empty graph, some node scores exactly 1 |
| `GlossaryRank.NeighbourSum` | src/glossary.py:170-173 | the loop's sum equals `Contribution`, the order-independent sum of score/degree over the neighbours |
| `GlossaryRank.RoundScores` | src/glossary.py:165-173 | one round computes every node's new score from the previous round only |
| `GlossaryRank.MaxScore` | src/glossary.py:176 | `max(scores.values(), default=1.0)` |
| `GlossaryRank.PageRank` | src/glossary.py:162-177 | `_pagerank`: same keys as the graph, equals `PageRankOf`, every score in (0, 1], top score 1 |
| `GlossaryPhrases.TokenScoreNonNegative` | src/glossary.py:212 | a phrase's summed score is non-negative when the token scores are |
| `GlossaryPhrases.UpdatePhrase` | src/glossary.py:203-213 | `_update_phrase`: short terms change nothing; otherwise the term's entry becomes the larger of the new score and the previous one (0.0 when absent), and a new term is appended to the key order |
| `GlossaryPhrases.MergeMaxKeepsOthers` | src/glossary.py:213 | the assignment `phrases[term] = max(...)` leaves every other entry as it was and lowers no entry |
| `GlossaryPhrases.UpdatePhraseValid` | src/glossary.py:203-213 | `_update_phrase` keeps every key listed exactly once in the key order |
| `GlossaryPhrases.UpdatePhraseGrows` | src/glossary.py:203-213 | `_update_phrase` never removes or lowers an entry, and leaves a long-enough run's term scoring at least that run |
| `GlossaryPhrases.FoldAppend` | src/glossary.py:186-197 | updating with two lists of runs equals updating with the first, then the second |
| `GlossaryPhrases.RunsFromKeepTokens` | src/glossary.py:186-197 | the runs of one scan put together are the non-stopword tokens in order |
| `GlossaryPhrases.SentenceRunsAreTokens` | src/glossary.py:139-197 | the runs of a sentence put together are exactly what `_tokenize` returns for it |
| `GlossaryPhrases.RunsFromAreGood` | src/glossary.py:186-197 | every emitted run is non-empty and made of non-stopword tokens |
| `GlossaryPhrases.GoodRunTerm` | src/glossary.py:209 | the term of a run is its tokens joined with spaces (the strip removes nothing), and it tokenizes back into the run |
| `GlossaryPhrases.FoldOrder` | src/glossary.py:180-213 | the phrase map lists each key once, in the order its term first reached the minimum length |
| `GlossaryPhrases.FoldBoundsRuns` | src/glossary.py:203-213 | every long-enough run's term is a key scoring at least that run's score |
| `GlossaryPhrases.FoldKeysFromRuns` | src/glossary.py:203-213 | every key is the long-enough term of some run |
| `GlossaryPhrases.FoldScoreAttained` | src/glossary.py:203-213 | each score is non-negative, and unless it is 0.0 it is the score of a run with that term |
| `GlossaryPhrases.PhrasesOfOrder` | src/glossary.py:180-200 | `_extract_phrases`'s dict lists each key once, in first-occurrence order |
| `GlossaryPhrases.PhraseKeysAreGoodTerms` | src/glossary.py:180-213 | every key is at least `min_term_length` long and tokenizes into non-stopword tokens |
| `GlossaryPhrases.FoldScoreIsRunScore` | src/glossary.py:203-213 | with non-negative token scores every score is the score of one of its runs |
| `GlossaryPhrases.PhraseScoresAreBest` | src/glossary.py:180-213 | with non-negative token scores, each term's score is the best score among the runs that produced it (a negative best score would be replaced by the 0.0 default of `phrases.get`) |
| `GlossaryPhrases.ScanSentence` | src/glossary.py:186-197 | one sentence's scan applies `_update_phrase` to its runs in order |
| `GlossaryPhrases.ScanStep` | src/glossary.py:189-196 | a stopword closes the open run and passes it to `_update_phrase` when it is non-empty; any other token extends the run |
| `GlossaryPhrases.ScanEnd` | src/glossary.py:197-198 | at the end of a sentence the open run, if non-empty, is passed to `_update_phrase` |
| `GlossaryPhrases.ExtractPhrases` | src/glossary.py:180-200 | `_extract_phrases` returns `PhrasesOf`, with keys listed once each |
| `Glossary.InsertSorted` | src/glossary.py:118-122 | inserting into a descending list keeps it descending and adds exactly one element |
| `Glossary.SortByScoreSpec` | src/glossary.py:118-122 | the ranking is sorted by descending score and is a permutation of the entries |
| `Glossary.InsertStable` | src/glossary.py:118-122 | an inserted entry goes ahead of the entries with its score |
| `Glossary.SortByScoreStable` | src/glossary.py:118-122 | entries of equal score keep their insertion order (stable sort with `reverse=True`) |
| `Glossary.SliceTo` | src/glossary.py:123 | `xs[:k]` is a prefix of length min(k, n) for k ≥ 0, and of length max(n + k, 0) for k < 0 |
| `Glossary.TokenizeAll` | src/glossary.py:109 | tokenizes every sentence, in order |
| `Glossary.RankedEntries` | src/glossary.py:118-123 | the ranked prefix is sorted, holds at most `top_k` entries for `top_k` ≥ 0, and each entry is a phrase with its own score |
| `Glossary.RankedOfSpec` | src/glossary.py:115-123 | ranked entries are sorted, bounded by `top_k`, long enough and non-negative |
| `Glossary.RankGraph` | src/glossary.py:115-123 | PageRank, extraction, sort and slice give `RankedOf` |
| `Glossary.GlossaryOfSpec` | src/glossary.py:103-123 | fails exactly on an empty text list, with its message; otherwise the entries are sorted by descending score, at most `top_k`, empty for windows 0 and 1, with terms at least `min_term_length` long and non-negative scores |
| `Glossary.GenerateGlossary` | src/glossary.py:103-123 | `generate_glossary` returns `GlossaryOf(request)`, with the same error case and entry properties |
| `TaskQueue.Execute` | src/task_queue.py:65-82 | the task ends COMPLETED or FAILED, never PENDING or RUNNING. With no handler it is FAILED with "Task handler not found." and untouched otherwise. A returning handler gives COMPLETED with the value. A raising handler gives FAILED with the message |
| `TaskQueue.FirstPending` | src/task_queue.py:51-54 | the first PENDING position, or none exactly when no task is pending |
| `TaskQueue.RunNextOf` | src/task_queue.py:50-54 | `run_next` runs the first PENDING task per `Execute` and changes no other task; with none pending nothing changes |
| `TaskQueue.RunNextPending` | src/task_queue.py:50-54 | a `run_next` that runs a task removes exactly the first position from the pending positions |
| `TaskQueue.RunAllOfSpec` | src/task_queue.py:56-63 | `run_all` runs exactly the pending tasks, in list order, leaves none PENDING, and leaves the other tasks as they were |
| `TaskQueue.RunAllOfSome` | src/task_queue.py:56-63 | while a task is PENDING, `run_all` is one `run_next` followed by `run_all` on the result, with one fewer pending task |
| `TaskQueue.RunAllCount` | src/task_queue.py:56-63 | `run_all` returns as many records as were PENDING |
| `TaskQueue.PendingCount` | src/task_queue.py:51-53 | the pending positions are as many as the PENDING tasks |
| `TaskQueue.TaskRecord.constructor` | src/task_queue.py:17-26 | a new record is PENDING, with nothing started, finished, returned or raised |
| `TaskQueue.TaskQueue.constructor` | src/task_queue.py:30-32 | a new queue has no tasks and no handlers |
| `TaskQueue.TaskQueue.Enqueue` | src/task_queue.py:34-39 | appends one fresh PENDING record under the given id, registers the handler under that id, leaves earlier records untouched |
| `TaskQueue.TaskQueue.ListTasks` | src/task_queue.py:41-42 | the records in enqueue order, as a value not aliased to the queue's list |
| `TaskQueue.TaskQueue.GetTask` | src/task_queue.py:44-48 | the first record with the id, or None exactly when no record has it |
| `TaskQueue.TaskQueue.RunTask` | src/task_queue.py:65-82 | updates the record in place to `Execute` of its old fields with its registered handler, taking one or two clock readings |
| `TaskQueue.TaskQueue.RunNext` | src/task_queue.py:50-54 | the records' new fields are `RunNextOf` the old ones; returns None exactly when none was PENDING |
| `TaskQueue.TaskQueue.RunAll` | src/task_queue.py:56-63 | the records' new fields are `RunAllOf` the old ones; returns the records run, in the order they ran |
| `PptExtract.HeaderHasNoNewline` | src/ppt_extract.py:33 | a `Slide n` header contains no line break |
| `PptExtract.SectionsCount` | src/ppt_extract.py:30-35 | `to_text` joins |slides| + Σ|lines| segments |
| `PptExtract.SectionsOfOne` | src/ppt_extract.py:33-34 | one slide contributes its header, then its lines |
| `PptExtract.SectionsHaveNoNewline` | src/ppt_extract.py:31-34 | no section contains a line break when no line does |
| `PptExtract.PptExtractResult.ToText` | src/ppt_extract.py:30-35 | `to_text` is the newline-join of each slide's header followed by its lines |
| `PptExtract.ToTextLayout` | src/ppt_extract.py:30-35 | with at least one slide and no line holding a line break, the text splits back at line breaks into exactly the headers and lines |
| `PptExtract.DedupeLines` | src/ppt_extract.py:91-99 | `_dedupe_lines` returns `Dedupe(lines)`: no repeats, same elements, a subsequence of the input |
| `PptExtract.SlidesOf` | src/ppt_extract.py:51-56 | slide i is numbered first + i and holds its shapes' lines deduplicated |
| `PptExtract.ExtractPptText` | src/ppt_extract.py:42-58 | a missing file and an unreadable file are the two errors; otherwise slides are numbered 1, 2, … in order, each with its shapes' lines deduplicated |

## Left out

- Reading files, the pptx reader and OCR are supplied by external libraries.
  `_extract_shape_text` (src/ppt_extract.py:61-88) and `PptExtractRequest` are
  not modelled. `ExtractPptText` takes whether the file exists, and either the
  lines each shape yields or None when the reader raised.
- `src/conversion.py`, `src/ocr.py`, `src/text_extract.py` and the command-line
  layer are not part of this model.
- Floating point: scores are exact reals. Rounding, and the order in which
  Python adds floats, are not modelled.
- `GlossaryRank.PageRank`: requires damping in [0, 1). The source takes any
  float: it divides by zero when the largest score is 0 (damping 1.0 makes
  every score 0), and flips the sign of every score when the largest one is
  negative (damping above 1). The pipeline always passes 0.85.
- `GlossaryRank.PageRank`: requires every neighbour to be a key. The built
  graph always satisfies this (`GraphOfClosed`) and the source relies on it:
  `scores[neighbor]` raises otherwise.
- Unicode: `\w` is approximated by ASCII letters, digits and `_`, plus the
  range U+4E00–U+9FFF that the token pattern adds. `lower()` folds ASCII
  letters only. `strip()` uses Python's exact whitespace set.
- Task queue handlers are modelled by their outcome: a value returned or an
  exception message. The following are not modelled: side effects of a
  handler, a handler that enqueues into the same queue (which would extend
  the list `run_next` iterates over), and the RUNNING status observed while a
  handler runs.
- `uuid.uuid4().hex` is the `taskId` parameter of `Enqueue`, and freshness is
  not assumed. Enqueueing a second task under an existing id overwrites the
  handler, as the dict does.
- `PptExtract.ToTextLayout` needs every line to be free of line breaks. Shape
  text is split into lines, but a table cell's text is only stripped
  (src/ppt_extract.py:73), so a cell with several paragraphs yields a line
  holding a line break, and `to_text` then splits back into more pieces than
  there are headers and lines. With no slide at all the text is empty, which
  splits into one empty piece.
- `datetime.utcnow()` is a counter (`clock`) that advances by one at each
  reading. Wall-clock values are not modelled, and no order between a
  task's `created_at`, `started_at` and `finished_at` is claimed: the
  counter's readings always increase, while successive `utcnow()` readings
  (task_queue.py:22, 74, 81) may be equal or go backwards.
- `GlossaryResult` entries carry `real` scores. The 4-decimal and JSON
  renderings belong to the CLI layer, which is not part of this model.
