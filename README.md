# jokbodude analysis pipeline in Dafny

jokbodude links past exam papers ("jokbo") to lecture slides ("lessons"). It
asks Gemini to analyse PDF pairs, possibly split into page chunks and spread
over several API keys, and then repairs, validates and merges the JSON answers.
This project models the deterministic core of that pipeline and proves its
properties. It leaves out the model calls, PDF rendering and storage.

- **Credential pool** (`MultiApi`, `KeyRotation`): per-key status counters,
  cooldowns on an integer clock, error classification, round-robin slot
  acquisition with exclusion and a per-key in-use limit, and failover that
  tries each key at most once. `Manager` and `KeyManager` are classes whose
  methods update their fields, and each is proved equal to a value-level
  specification.
- **Chunk planning** (`PdfOperations`, `PdfSplitter`, `Validators`):
  page-range tiling, question indexing and grouping, and the page-number
  validator that turns chunk-relative pages into absolute ones.
- **Response repair** (`JsonParser`, `ResponseParser`, `JsonValues`): the
  brace-balancing scanner, the recovery of page objects from truncated text,
  progressive closing, and record validation. `json.loads` is an abstract
  oracle `decode`.
- **Result merging** (`ResultMerger`, `JokboCentric`, `LessonCentric`,
  `ExamOnly`, `MultiApiAnalysis`, `RecoverChunks`, `LessonAnalysis`,
  `ProcessorHelpers`): page offsets and clamping, de-duplication, stable
  sorting, score filtering with a top-N cap, and reassembly of out-of-order
  results by task index.
- **Retry bookkeeping** (`ChunkRetry`, `ChunkDistribution`): the retry and
  backoff policy, and the distributor's queues and statistics, both as
  classes.
- **Small utilities** (`PathValidator`, `ServerUtils`, `UploadCleanup`):
  filename checks and sanitising, the `Content-Disposition` header of
  section 4.3 of RFC 6266 with the `filename*` form of RFC 5987, and the
  keep/delete decision of the remote-file purge.

`Common` holds the shared vocabulary: `Option`/`Result`, ASCII lower-casing,
substring search and replace, a stable insertion sort by an integer key,
first-per-key de-duplication, grouping and sums. `Records` holds the typed
shapes of the answers: slides, questions, exam pages, lesson slides and
analysis results.

Every loop in the source is a Dafny `method` with its invariants, with two
exceptions written as recursive functions: the `for ch in dangerous_chars`
loop of `sanitize_filename` is `PathValidator.ReplaceEach`, and the chunk
loop of the lesson-centric `_analyze_with_chunks` is
`LessonCentric.ChunkAnalyses`. Each loop method is proved to compute a
specification function, and the properties below are
lemmas about those functions. Source dictionaries passed in and mutated are
modelled as values passed in and returned.

Where the code and the repository's description of it differ, the model
follows the code:
- `record_failure` raises the consecutive-failure count only for
  rate_limit, auth, server and unknown errors.
- `filter_connections_by_score` works on one list of connections, not per
  group.

## Model

| member | source | states |
|---|---|---|
| Common.SortBySpec | pdf_processor/parsers/result_merger.py:113 | sorting by an integer key gives a sorted permutation that keeps the input order among equal keys, as Python's stable `list.sort` does |
| Common.FirstPerKeySpec | pdf_processor/parsers/result_merger.py:95-109 | de-duplication keeps, in order, the first element of each key that passes the filter: distinct keys, covering exactly the keys of the passing elements |
| Common.KeepFirstPerKey | pdf_processor/parsers/result_merger.py:95-109 | the loop with a `seen` set computes FirstPerKey |
| Common.GroupBy | pdf_processor/analyzers/jokbo_centric.py:405-432 | grouping into a dictionary keeps the first element of each key in insertion order, and each key's list is the concatenation, in order, of the values of all elements with that key |
| MultiApi.MarkersSpelledOut | pdf_processor/api/multi_api_manager.py:156-166 | each category's marker list is exactly the substrings the classifier tests for it, and `unknown` has none |
| MultiApi.CategorizeError | pdf_processor/api/multi_api_manager.py:154-167 | the lowercased message contains a marker of the returned category, and of no category checked before it; `unknown` only when nothing earlier matched |
| MultiApi.NewStatus | pdf_processor/api/multi_api_manager.py:24-33 | a new key status is available, has no cooldown, zero counters, no last use and no last error |
| MultiApi.RecordSuccess | pdf_processor/api/multi_api_manager.py:35-40 | one more request, failures unchanged, consecutive failures zeroed, last use now, last error cleared; availability and cooldown untouched |
| MultiApi.RecordFailure | pdf_processor/api/multi_api_manager.py:42-79 | requests and failures both rise by one; consecutive failures rise only for rate_limit/auth/server/unknown; a third key-specific strike sets a 600-second cooldown and unavailability; otherwise a rate limit with positive seconds sets that cooldown and unavailability, and anything else leaves cooldown and availability alone |
| MultiApi.CheckAvailability | pdf_processor/api/multi_api_manager.py:81-93 | the key is reported available exactly when it is ready at `now`; an elapsed cooldown is cleared with the consecutive failures zeroed; before it nothing changes |
| MultiApi.ResetStatus | pdf_processor/api/multi_api_manager.py:417-424 | consecutive failures zero, available, no cooldown; index and totals kept |
| MultiApi.ThreeStrikes | pdf_processor/api/multi_api_manager.py:59-79 | three key-specific failures in a row from a clean status put the key on the 10-minute cooldown, during which it is not available |
| MultiApi.Settled | pdf_processor/api/multi_api_manager.py:325-371 | a success counts one request and clears the error; a failure counts a request and a failure and records the message; a cancellation leaves the status untouched |
| MultiApi.Reserve | pdf_processor/api/multi_api_manager.py:226-228 | reserving a slot raises that key's in-use count by one and no other |
| MultiApi.Unreserve | pdf_processor/api/multi_api_manager.py:240-246 | releasing lowers that key's count by one but never below zero, and no other count changes |
| MultiApi.UnreserveReserve | pdf_processor/api/multi_api_manager.py:226-246 | a release after a reservation gives back the counts as they were |
| MultiApi.ScanFound | pdf_processor/api/multi_api_manager.py:218-229 | a slot the scan returns is free (not excluded, available, below the per-key limit) and every slot visited before it is not |
| MultiApi.ScanNone | pdf_processor/api/multi_api_manager.py:218-231 | a scan that finds nothing means no key is free |
| MultiApi.ScanRun | pdf_processor/api/multi_api_manager.py:218-229 | the scan, run over the statuses with their availability checks applied, returns the same slot and keeps every key's readiness and totals |
| MultiApi.ScanKeys | pdf_processor/api/multi_api_manager.py:218-229 | the round-robin loop returns the slot the scan specifies, never an excluded or out-of-range one, and moves the cursor just past it |
| MultiApi.TryNext | pdf_processor/api/multi_api_manager.py:309-377 | one pass of the failover loop: it picks a key not yet tried and not excluded, records the attempt's outcome on that key and moves the cursor past it |
| MultiApi.StepRecord | pdf_processor/api/multi_api_manager.py:333-371 | after one attempt the error list grows only for a failure, a prompt block is remembered, a success clears block mode and the global tried set, a cancellation leaves both |
| MultiApi.StepTotals | pdf_processor/api/multi_api_manager.py:54-55 | after one attempt exactly the tried key gains a request (unless cancelled) and a failure (only if it failed) |
| MultiApi.RunFailover | pdf_processor/api/multi_api_manager.py:288-391 | the failover loop computes what the failover specification gives, from the same starting state |
| MultiApi.FailoverSpec | pdf_processor/api/multi_api_manager.py:294-391 | the keys tried are distinct, none excluded, at most min(max_retries, #keys); counters change only for tried keys; the call aborts at once exactly when block mode is on and every key was already tried globally; a success is the last key tried, and a failure result lists exactly the failed attempts |
| MultiApi.FailoverPool | pdf_processor/api/multi_api_manager.py:288-391 | the key pool stays well-formed across a failover call |
| MultiApi.SequentialBlocked | pdf_processor/api/multi_api_manager.py:522-537 | once block mode has tried every key, every later task aborts at once and the pool is untouched |
| MultiApi.RunTasks | pdf_processor/api/multi_api_manager.py:522-545 | the sequential branch of distribute_tasks produces, task by task, the failover results the specification gives, one per task |
| MultiApi.SafeWorkers | pdf_processor/api/multi_api_manager.py:449-452 | the worker count is at least 1, at most the number of keys and of tasks (when both are positive), at most a positive requested count, equal to it when it fits, and max(1, min(keys, tasks)) when none is requested |
| MultiApi.Manager.constructor | pdf_processor/api/multi_api_manager.py:105-138 | every key starts with a fresh status; the per-key limit is max(1, setting) or 1; the rate-limit cooldown is max(0, setting) or 30; cursor 0, no slot in use, block mode off |
| MultiApi.Manager.AcquireExcluding | pdf_processor/api/multi_api_manager.py:200-229 | None at once when the exclude set covers all keys; otherwise the slot the round-robin scan gives, never excluded, with its count reserved and the cursor past it; block state untouched |
| MultiApi.Manager.Acquire | pdf_processor/api/multi_api_manager.py:169-187 | the same scan with nothing excluded, reserving the slot it returns |
| MultiApi.Manager.Release | pdf_processor/api/multi_api_manager.py:240-248 | only the in-use counts change, by the release rule |
| MultiApi.Manager.ResetKey | pdf_processor/api/multi_api_manager.py:417-425 | an index in range gets a reset status; any other index changes nothing |
| MultiApi.Manager.ExecuteWithFailover | pdf_processor/api/multi_api_manager.py:274-391 | the result, the keys tried and the new statuses, cursor and block state are those of the failover specification; the in-use counts are as before the call |
| MultiApi.Manager.DistributeTasks | pdf_processor/api/multi_api_manager.py:427-545 | every task before the cancellation point runs in order through the failover specification, one result each, and progress is reported once per task |
| KeyRotation.Refresh | api_key_manager.py:72-76 | a key whose cooldown has elapsed becomes available with no cooldown; a key still cooling down, or without a cooldown, is unchanged; usage is untouched |
| KeyRotation.RefreshTwice | api_key_manager.py:72-76 | re-enabling elapsed cooldowns is idempotent for one key |
| KeyRotation.RefreshAllSpec | api_key_manager.py:70-76 | the refresh of all keys is idempotent and leaves no elapsed cooldown behind |
| KeyRotation.FirstAvailableSpec | api_key_manager.py:78-109 | the round-robin scan finds nothing exactly when no remaining slot is available; otherwise it returns the first available slot in scan order |
| KeyRotation.NoneMeansNoKey | api_key_manager.py:78-113 | a full scan from the cursor finds nothing exactly when no key is available |
| KeyRotation.Used | api_key_manager.py:97-99 | selecting a key raises its usage count by one and records the time, leaving availability and cooldown |
| KeyRotation.SelectSpec | api_key_manager.py:62-113 | after the refresh, no key is returned exactly when none is available, and then the cursor stays; otherwise the key returned sits d slots after the cursor, every slot before it holds an unavailable key, and its usage is counted, and the cursor moves one past it |
| KeyRotation.KeyManager.constructor | api_key_manager.py:24-42 | every key starts available, without cooldown, unused; the cursor is 0 |
| KeyRotation.KeyManager.RefreshCooldowns | api_key_manager.py:70-76 | the loop over the states applies the refresh to every key and to nothing else |
| KeyRotation.KeyManager.GetAvailableApi | api_key_manager.py:62-113 | the returned key, the new states and the cursor are those of the selection specification |
| KeyRotation.KeyManager.MarkRateLimited | api_key_manager.py:115-127 | a known key becomes unavailable with a cooldown of the given minutes from now; an unknown key changes nothing |
| KeyRotation.KeyManager.ResetApiKey | api_key_manager.py:149-155 | a known key becomes available without cooldown; an unknown key changes nothing |
| KeyRotation.CooldownHolds | api_key_manager.py:72-126 | a rate-limited key stays unavailable until its cooldown ends and is available from then on |
| PdfOperations.TilesSpec | pdf_processor/pdf/operations.py:143-146 | the chunks of a large file are consecutive, start at 1, end at the total, span 1 to max pages each and number ceil(total/max) |
| PdfOperations.ContiguousCover | pdf_processor/pdf/operations.py:143-146 | every page of the file lies in exactly one chunk |
| PdfOperations.ChunksIncrease | pdf_processor/pdf/operations.py:143-146 | chunks never overlap: each ends before the next starts |
| PdfOperations.SplitPdfForChunks | pdf_processor/pdf/operations.py:123-149 | a file within the limit is the single chunk (path, 1, total); a larger one is tiled by the loop as above (a zero limit is the `range` error, a negative one gives no chunks); every chunk names the file |
| PdfOperations.ExtractPages | pdf_processor/pdf/operations.py:169-183 | a start outside [1, total] is rejected first, then an end below the start or past the total; otherwise exactly the 0-based pages start-1 .. end-1 are copied, in order |
| PdfOperations.SearchDigitsSplit | pdf_processor/pdf/operations.py:230 | the search finds the first run of digits in the text |
| PdfOperations.SearchNoDigit | pdf_processor/pdf/operations.py:230-231 | the search fails exactly when the text has no digit |
| PdfOperations.ToIntSpec | pdf_processor/pdf/operations.py:223-233 | a bool gives the default, a number itself, a string its first digit run's value, a string without digits or None the default |
| PdfOperations.Dedup | pdf_processor/pdf/operations.py:462-482 | the detected set holds each number once and exactly the numbers found |
| PdfOperations.DetectedSpec | pdf_processor/pdf/operations.py:481-510 | a page's detected numbers are ascending, and are exactly the candidates with 0 < n < 1000 |
| PdfOperations.PagePairs | pdf_processor/pdf/operations.py:524-525 | each detected number of a page becomes the pair (page, number), in order |
| PdfOperations.IndexSpec | pdf_processor/pdf/operations.py:518-533 | the index is strictly increasing by (page, question), so free of duplicates, and holds exactly the detected pairs |
| PdfOperations.IncreasingUnique | pdf_processor/pdf/operations.py:530 | two strictly increasing lists with the same members are equal, so the index is what `sorted(set(out))` gives |
| PdfOperations.IndexQuestions | pdf_processor/pdf/operations.py:513-533 | the page loop builds the index the specification gives |
| PdfOperations.FirstPages | pdf_processor/pdf/operations.py:552-556 | the question map and the list of its questions hold the same numbers |
| PdfOperations.FirstPagesSpec | pdf_processor/pdf/operations.py:552-555 | over the sorted index each question is mapped to the first page it was detected on |
| PdfOperations.MinPage | pdf_processor/pdf/operations.py:580 | there is no start page exactly when no question falls in the block |
| PdfOperations.MinPageSpec | pdf_processor/pdf/operations.py:580 | the start page is the first page of a question of the block, and no question of the block starts earlier |
| PdfOperations.FirstAtLeast | pdf_processor/pdf/operations.py:584-586 | the next block's first question is a question at least the bound, absent exactly when every question is below it |
| PdfOperations.EndPage | pdf_processor/pdf/operations.py:585-592 | the end page is at most the total when the total is known, the page before the next block when that fits, and the start page when neither is known |
| PdfOperations.GroupKeyOrder | pdf_processor/pdf/operations.py:594 | the integer sort key orders groups exactly as the pair (start_page, g_start) does |
| PdfOperations.GroupForSpec | pdf_processor/pdf/operations.py:573-592 | a question's group starts at (q-1)//size*size+1, spans `size` numbers, has a start below 1000 and an end page within the total |
| PdfOperations.BuildGroupsSpec | pdf_processor/pdf/operations.py:571-592 | the group loop succeeds for a positive size; each block index appears once, every question is covered by its block's group, and every end page is clamped to the total |
| PdfOperations.BuildGroupsFail | pdf_processor/pdf/operations.py:577-580 | with a size of 0 or less the block's `min` over no questions fails |
| PdfOperations.SortedGroups | pdf_processor/pdf/operations.py:594 | the sorted groups are a permutation of the built ones, strictly ordered by (start_page, g_start) |
| PdfOperations.QuestionGroupsSpec | pdf_processor/pdf/operations.py:541-595 | an empty index gives the single group (1, max(1, total), 1, size); a non-positive size fails; otherwise the groups have distinct block starts, each aligned to a multiple of the size plus one and spanning size numbers; they cover every detected question, is clamped to the total and is sorted by (start_page, g_start) |
| PdfOperations.RecordFirstPages | pdf_processor/pdf/operations.py:552-556 | the loop builds the first-page map and its key list as specified |
| PdfOperations.BlockGroup | pdf_processor/pdf/operations.py:573-592 | one block's group, computed as specified |
| PdfOperations.WalkGroups | pdf_processor/pdf/operations.py:569-592 | the loop over the sorted questions builds the groups the specification gives |
| PdfOperations.SplitByQuestionGroups | pdf_processor/pdf/operations.py:536-595 | the whole operation returns what the specification gives |
| PdfSplitter.SplitPdfForAnalysis | pdf_processor/pdf/pdf_splitter.py:16-44 | a file within the limit is the single chunk (path, 1, total); a larger one gets chunks starting at 1, 1+max, … with end min(start+max-1, total), each chunk's path being the extracted file for its range |
| PdfSplitter.SplitCoversPages | pdf_processor/pdf/pdf_splitter.py:37-43 | the chunks cover [1, total] with no gap or overlap, number ceil(total/max) and span at most max pages each |
| Validators.ValidateAndAdjustPageNumber | validators.py:47-70 | a page in 1..chunk length is read as chunk-relative and becomes page+start-1; otherwise a page within [start, end] is kept; every other page (inside the file or not) is None |
| Validators.AdjustedPageInChunk | validators.py:24-70 | for a chunk inside the file an accepted page always lands in the chunk and is a valid page of the file |
| Validators.ChunkBoundariesSpec | validators.py:126-132 | with a non-empty file the boundaries satisfy 1 <= start <= end <= total, valid boundaries are kept, and adjusting twice is adjusting once |
| Validators.WithFilename | validators.py:86-88 | every question gets the file's name, nothing else changes |
| Validators.OnValidPagesSpec | validators.py:91-97 | the survivors are questions of the input on a page in [1, total], and every such question survives |
| Validators.FilterValidQuestions | validators.py:85-99 | the loop stamps the file name on every question and keeps, in order, those whose page is valid |
| Validators.FilterValidQuestionsSpec | validators.py:85-99 | every survivor carries the file's name and a valid page, and every question on a valid page survives |
| ResultMerger.AllPagesSpec | pdf_processor/parsers/result_merger.py:63-65 | a page is collected exactly when some chunk result lists it |
| ResultMerger.AllSlidesSpec | pdf_processor/parsers/result_merger.py:89-94 | a slide is collected exactly when some chunk result lists it |
| ResultMerger.CollectPages | pdf_processor/parsers/result_merger.py:63-65 | the loop concatenates every result's pages, in order |
| ResultMerger.CollectSlides | pdf_processor/parsers/result_merger.py:89-94 | the loop concatenates every result's slides, in order |
| ResultMerger.FailedCount | pdf_processor/parsers/result_merger.py:40 | the failed count is at most the number of chunks, and zero exactly when no chunk carries an error |
| ResultMerger.MergeJokboResults | pdf_processor/parsers/result_merger.py:49-83 | the merged pages are all chunks' pages, stably sorted by page number |
| ResultMerger.MergeJokboSpec | pdf_processor/parsers/result_merger.py:63-68 | the merged pages are sorted, a permutation of the collected ones, keep the chunk order among equal page numbers, and are exactly the pages some chunk lists |
| ResultMerger.MergeLessonResults | pdf_processor/parsers/result_merger.py:86-116 | the merged slides are the first slide per (lowercased file name, page) among those with a positive page, stably sorted by page |
| ResultMerger.MergeLessonSpec | pdf_processor/parsers/result_merger.py:96-113 | the output is sorted by page and a permutation of the kept slides; each kept slide has a positive page and is the first with its key; keys are distinct and are exactly the keys of the slides with a positive page |
| ResultMerger.MergeChunkResults | pdf_processor/parsers/result_merger.py:19-46 | no chunks give the empty result; otherwise the mode's merge, with warnings attached from the failed count |
| ResultMerger.MergeChunkWarnings | pdf_processor/parsers/result_merger.py:39-43 | warnings are attached exactly when some chunk has an error, and then record that count and partial=True; nothing else changes |
| ResultMerger.PyPrefix | pdf_processor/parsers/result_merger.py:140 | Python's slice `[:n]`: the first n elements, and for negative n all but the last -n |
| ResultMerger.QualifyingSpec | pdf_processor/parsers/result_merger.py:134 | the qualifying connections are exactly those scoring at least the minimum, a sub-multiset of the input |
| ResultMerger.RankedSpec | pdf_processor/parsers/result_merger.py:134-137 | the ranked list keeps all qualifying connections, in non-increasing score order |
| ResultMerger.FilterPrefix | pdf_processor/parsers/result_merger.py:137-140 | the result is the first max_connections of the ranked list |
| ResultMerger.FilterConnectionsSpec | pdf_processor/parsers/result_merger.py:133-140 | every kept connection scores at least the minimum, they are in non-increasing score order, come from the input, and number min(max_connections, #qualifying) |
| ResultMerger.FilterConnectionsTop | pdf_processor/parsers/result_merger.py:133-140 | a qualifying connection left out scores no higher than any kept one |
| ResultMerger.FilterConnectionsIdempotent | pdf_processor/parsers/result_merger.py:133-140 | filtering twice is filtering once |
| ResultMerger.MergeApiResults | pdf_processor/parsers/result_merger.py:143-212 | no results give the empty result, one result is returned unchanged; several keep the first page per page number (or first slide per raw lesson page), stably sorted |
| ResultMerger.MergeApiJokboSpec | pdf_processor/parsers/result_merger.py:162-191 | in jokbo-centric mode the pages are sorted, page numbers distinct, each page the first with its number, and every collected page number is kept |
| JsonParser.CleanRewrites | pdf_processor/parsers/json_parser.py:41-42 | a quoted digit run followed by `"번"` loses the stray quote, and the rewriting continues after it |
| JsonParser.CleanShortens | pdf_processor/parsers/json_parser.py:42 | cleaning never lengthens the text and strictly shortens any text holding the pattern |
| JsonParser.CleanUnchanged | pdf_processor_helpers.py:22-24 | cleaning (the same rewrite as in json_parser.py) leaves the text unchanged exactly when it holds no quoted-number pattern |
| JsonParser.FirstClose | pdf_processor/parsers/json_parser.py:180-203 | the scan answers -1 or a position after the start and within the search range |
| JsonParser.ObjectEnd | pdf_processor/parsers/json_parser.py:165-203 | the object end is -1 or a position after the start and within min(search_end, length) |
| JsonParser.FindObjectEnd | pdf_processor/parsers/json_parser.py:165-203 | the character loop with its brace count, string flag and escape flag returns the end the specification gives |
| JsonParser.ObjectEndSpec | pdf_processor/parsers/json_parser.py:176-203 | the result is -1 exactly when no closing brace in the range brings the count back to zero outside a string; otherwise it is one past the first such brace |
| JsonParser.ClosesAtSpec | pdf_processor/parsers/json_parser.py:196-201 | a closing position holds `}` and leaves the count at zero outside a string |
| JsonParser.ObjectEndBalanced | pdf_processor/parsers/json_parser.py:176-203 | from an opening brace the count stays at least 1 strictly inside the object and is 0 at its end; with no end, it stays positive throughout the range |
| JsonParser.RFind | pdf_processor/parsers/json_parser.py:133-140 | `rfind` returns -1 or a position before the bound holding the character |
| JsonParser.RFindLast | pdf_processor/parsers/json_parser.py:133-140 | no later position before the bound holds the character |
| JsonParser.SkipSpacesSpec | pdf_processor/parsers/json_parser.py:83 | the `\s*` of the page pattern consumes exactly a run of whitespace |
| JsonParser.SkipDigitsSpec | pdf_processor/parsers/json_parser.py:83 | the `(\d+)` of the page pattern consumes exactly the leading digit run |
| JsonParser.PageRefEnd | pdf_processor/parsers/json_parser.py:83 | a match of `"jokbo_page"\s*:\s*(\d+)` at a position ends after the key and within the text |
| JsonParser.PageStartsBegin | pdf_processor/parsers/json_parser.py:83-84 | every recorded page start is a position where the pattern matches |
| JsonParser.PageStartsIncreasing | pdf_processor/parsers/json_parser.py:83-84 | the page starts are found in increasing order |
| JsonParser.PageStartsNone | pdf_processor/parsers/json_parser.py:83-84 | no page start is found exactly when the pattern matches nowhere |
| JsonParser.PageStartsFirst | pdf_processor/parsers/json_parser.py:83-84 | the first page start is the first match: nothing matches before it |
| JsonParser.KeepCompleteSpec | pdf_processor/parsers/json_parser.py:214-221 | checking the keys fails (a `TypeError` in Python) exactly when some item is a number, bool or null; otherwise the survivors are, in order, exactly the items having question_number, question_text and answer |
| JsonParser.ValidateQuestions | pdf_processor/parsers/json_parser.py:205-221 | the loop returns the questions the specification keeps |
| JsonParser.ValidatedPageShape | pdf_processor/parsers/json_parser.py:153-159 | an accepted page object has jokbo_page, questions replaced by the complete questions (at least one) and every other key unchanged |
| JsonParser.ValidatedPageAccepts | pdf_processor/parsers/json_parser.py:153-159 | a page with both keys and a list of object questions is accepted exactly when one of its questions is complete |
| JsonParser.PageResults | pdf_processor/parsers/json_parser.py:86-89 | one extraction attempt per page start |
| JsonParser.ExtractPageShape | pdf_processor/parsers/json_parser.py:112-163 | an extracted page object is always a recovered page as above |
| JsonParser.RecoveredPagesShape | pdf_processor/parsers/json_parser.py:86-91 | at most one page per page start is recovered, each a recovered page |
| JsonParser.RecoverAll | pdf_processor/parsers/json_parser.py:86-91 | the loop over the page starts keeps the pages the specification keeps |
| JsonParser.ParsePartialJokboCentric | pdf_processor/parsers/json_parser.py:64-110 | the partial jokbo recovery returns what the specification gives |
| JsonParser.PartialJokboSpec | pdf_processor/parsers/json_parser.py:75-106 | a text without `"jokbo_pages"` gives that error; otherwise the answer is an error dict or the recovered pages with partial=True, recovered_pages their count and total_questions_recovered the sum of their question counts |
| JsonParser.JokboAnswerSpec | pdf_processor/parsers/json_parser.py:93-110 | nothing recovered, or an exception, gives an error dict; otherwise the recovered answer |
| JsonParser.TotalQuestionsSpec | pdf_processor/parsers/json_parser.py:98-100 | each recovered page counts its complete questions, so the total is at least the number of pages |
| JsonParser.Repeat | pdf_processor/parsers/json_parser.py:249 | `c * n` is max(0, n) copies of `c` |
| JsonParser.CountOfConcat | pdf_processor/parsers/json_parser.py:245-246 | counting a character is additive over concatenation |
| JsonParser.RepeatCount | pdf_processor/parsers/json_parser.py:249 | a run of `c` holds max(0, n) of `c` and none of another character |
| JsonParser.CandidateBalanced | pdf_processor/parsers/json_parser.py:242-249 | whenever the prefix opens at least as many braces (brackets) as it closes, the padded candidate has them balanced |
| JsonParser.TryCandidates | pdf_processor/parsers/json_parser.py:241-259 | the loop tries the cut points from the full length down in steps of 100, at most 10000 characters back, and returns the first accepted candidate |
| JsonParser.ParsePartialLessonCentric | pdf_processor/parsers/json_parser.py:223-265 | the partial lesson recovery returns what the specification gives |
| JsonParser.AcceptSlidesSpec | pdf_processor/parsers/json_parser.py:253-257 | an accepted candidate is an object with related_slides, partial=True and recovered_slides equal to a positive slide count |
| JsonParser.ProgressiveAccepted | pdf_processor/parsers/json_parser.py:241-259 | whatever the progressive closing returns was accepted by that check |
| JsonParser.ParsePartialJson | pdf_processor/parsers/json_parser.py:45-62 | the mode dispatch returns what the specification gives |
| JsonParser.ParseResponseJson | pdf_processor/parsers/json_parser.py:20-30 | text that decodes after cleaning is returned decoded; otherwise the partial recovery of the raw text |
| JsonParser.PartialJsonFlagged | pdf_processor/parsers/json_parser.py:57-62 | every partial answer is an object with partial=True, and an unknown mode gives the "not implemented" error |
| JsonParser.LessonFlagged | pdf_processor/parsers/json_parser.py:232-265 | every partial lesson answer carries partial=True |
| JsonValues.Lookup | pdf_processor/parsers/response_parser.py:216 | a key is found exactly when the object has it (Python's `in` on a dict) |
| JsonValues.Assign | pdf_processor/parsers/response_parser.py:229 | assigning a key sets that key and leaves every other key as it was |
| JsonValues.InSpec | pdf_processor/parsers/response_parser.py:216-225 | `key in x` fails on a number, bool or null and on an object answers whether it has the key |
| ResponseParser.ExtractJsonObject | pdf_processor/parsers/response_parser.py:145-203 | the brace and bracket scan returns the object the specification gives |
| ResponseParser.JsonObjectAtSpec | pdf_processor/parsers/response_parser.py:158-203 | no `{` before the start, or braces that never balance before next_pos, give None; a returned object is the decoding of a balanced span from the last `{` before the start, scanned no further than next_pos |
| ResponseParser.ValidateJokboPage | pdf_processor/parsers/response_parser.py:206-232 | false unless both keys are present and at least one complete question survives; on true the survivors replace questions in the page, otherwise the page is left unchanged |
| ResponseParser.PageResults | pdf_processor/parsers/response_parser.py:78-85 | one extraction attempt per page start |
| ResponseParser.ParsePartialJokbo | pdf_processor/parsers/response_parser.py:54-99 | the partial jokbo recovery returns what the specification gives |
| ResponseParser.RecoverAll | pdf_processor/parsers/response_parser.py:78-85 | the loop keeps the pages the specification keeps |
| ResponseParser.PageResultShape | pdf_processor/parsers/response_parser.py:79-85 | every kept page object has jokbo_page and only complete questions, at least one |
| ResponseParser.PartialJokboSpec | pdf_processor/parsers/response_parser.py:67-99 | no `"jokbo_pages"` gives that error with partial=True; otherwise an error dict or the recovered pages with recovered_pages = their count and total_questions_recovered = the sum of their question counts |
| ResponseParser.JokboAnswerSpec | pdf_processor/parsers/response_parser.py:88-99 | the answer fails only when the recovery raised; nothing recovered gives an error dict, otherwise the recovered answer |
| ResponseParser.ParsePartialLesson | pdf_processor/parsers/response_parser.py:102-142 | the lesson recovery is the same progressive closing as the JSON parser's |
| ResponseParser.ParseResponse | pdf_processor/parsers/response_parser.py:20-51 | the method returns what the specification gives |
| ResponseParser.ParseResponseSpecProps | pdf_processor/parsers/response_parser.py:34-51 | valid JSON is returned as decoded, with no partial recovery; otherwise the mode's partial recovery, which when it returns carries partial=True |
| ResponseParser.PartialFlagged | pdf_processor/parsers/response_parser.py:42-51 | every partial result returned carries partial=True, so the "complete failure" error is never raised for them |
| ResponseParser.ValidateResponseStructureSpec | pdf_processor/parsers/response_parser.py:246-249 | jokbo-centric mode requires a jokbo_pages list, every other mode a related_slides list |
| ResponseParser.RecoveredAnswerValid | pdf_processor/parsers/response_parser.py:88-99 | a recovered jokbo answer passes the structure check and an error dict fails it |
| ChunkRetry.PowMono | pdf_processor/utils/failed_chunk_retrier.py:58 | the exponential factor never shrinks as the attempt number grows |
| ChunkRetry.GetDelayMonotone | pdf_processor/utils/failed_chunk_retrier.py:47-61 | the backoff delay is non-decreasing in the attempt number and never exceeds max_delay |
| ChunkRetry.DefaultDelays | pdf_processor/utils/failed_chunk_retrier.py:28-61 | with the default strategy every delay lies in 5..60, attempt 0 waits 5, attempt 3 waits 40 and from attempt 4 on the delay is capped at 60 |
| ChunkRetry.AnyOccursIff | pdf_processor/utils/failed_chunk_retrier.py:105-106 | a message matches a pattern list exactly when one of its patterns occurs in it |
| ChunkRetry.FirstMatchingTypeSpec | pdf_processor/utils/failed_chunk_retrier.py:104-109 | the first table entry with a matching pattern wins; Unknown exactly when no entry matches |
| ChunkRetry.CategorizeFailureSpec | pdf_processor/utils/failed_chunk_retrier.py:84-109 | the lower-cased message is classified by the first type, in declared order, one of whose patterns occurs in it, and is Unknown exactly when none does |
| ChunkRetry.ShouldRetrySpec | pdf_processor/utils/failed_chunk_retrier.py:111-145 | never at or above max_retries; below it always for rate limits, timeouts and API errors and for unknown failures; parse errors only on attempt 0; empty responses only below 2 |
| ChunkRetry.ShouldRetryDecision | pdf_processor/utils/failed_chunk_retrier.py:111-145 | on an error message, should_retry as written refuses only at or past max_retries and for a parse error after attempt 0; the intended rule also refuses an empty response from attempt 2 on |
| ChunkRetry.ShouldRetryEmptyResponseDiffers | pdf_processor/utils/failed_chunk_retrier.py:132-145 | the code as written differs from the intended rule exactly for empty responses with 2 <= attempt < max_retries; with the default strategy attempt 2 is retried as written |
| ChunkRetry.RetryDelay | pdf_processor/utils/failed_chunk_retrier.py:171-198 | no history gives base_delay; otherwise at least the backoff for the number of recorded failures, at least 30 after a rate limit, at least 10 after an empty response and exactly the backoff otherwise |
| ChunkRetry.FirstOffered | pdf_processor/utils/failed_chunk_retrier.py:217-224 | a chosen key was offered, is non-empty and not excluded (and untried when untried keys are asked for); None exactly when no offered key qualifies |
| ChunkRetry.SelectFromSpec | pdf_processor/utils/failed_chunk_retrier.py:200-230 | the selected key was offered, is non-empty and not excluded; a tried key is chosen only when every qualifying key was tried; None exactly when no offered key qualifies |
| ChunkRetry.CountRecordsSpec | pdf_processor/utils/failed_chunk_retrier.py:315-317 | counting a history adds to each type's count exactly the number of its records of that type |
| ChunkRetry.CountChunksSpec | pdf_processor/utils/failed_chunk_retrier.py:313-317 | the failure_types map holds a type exactly when some record has it, with the number of such records |
| ChunkRetry.RecordedStats | pdf_processor/utils/failed_chunk_retrier.py:147-167 | recording a failure adds one retry attempt, one retried chunk when the chunk is new, one multiply-retried chunk when it had exactly one record, and one to the count of its failure type |
| ChunkRetry.FailedChunkRetrier.constructor | pdf_processor/utils/failed_chunk_retrier.py:67-90 | the default strategy and an empty history |
| ChunkRetry.FailedChunkRetrier.RecordFailure | pdf_processor/utils/failed_chunk_retrier.py:147-167 | the chunk's history gains one record with the time, key, message and its category; a new chunk is registered |
| ChunkRetry.FailedChunkRetrier.GetRetryDelay | pdf_processor/utils/failed_chunk_retrier.py:171-198 | the delay is the one RetryDelay gives for the chunk's history |
| ChunkRetry.FailedChunkRetrier.SelectRetryApi | pdf_processor/utils/failed_chunk_retrier.py:200-230 | one pass over the offered keys returns the key SelectFrom gives for the chunk's tried keys |
| ChunkRetry.FailedChunkRetrier.GetRetryStatistics | pdf_processor/utils/failed_chunk_retrier.py:302-324 | the statistics are those StatsOf gives for the history |
| ChunkRetry.FailedChunkRetrier.CountInto | pdf_processor/utils/failed_chunk_retrier.py:314-317 | the counting loop computes CountRecords |
| ChunkRetry.FailedChunkRetrier.ClearHistory | pdf_processor/utils/failed_chunk_retrier.py:326-329 | the history is empty afterwards and the strategy is unchanged |
| ChunkDistribution.ChunkIdInjective | pdf_processor/utils/chunk_distributor.py:71-73 | ids of the form "{lesson}_chunk_{idx}" of one lesson are distinct for distinct indices |
| ChunkDistribution.NewTasksSpec | pdf_processor/utils/chunk_distributor.py:17-83 | one pending, unassigned task per chunk, in order, with id "{lesson}_chunk_{idx}", index idx, total len(chunks), the chunk's path and pages, retry_count 0 and max_retries 3; ids pairwise distinct |
| ChunkDistribution.FailTask | pdf_processor/utils/chunk_distributor.py:164-185 | a failure increments retry_count and records the error; below max_retries the chunk task is requeued pending and unassigned, otherwise it is marked failed; no other field changes |
| ChunkDistribution.FailTimesSpec | pdf_processor/utils/chunk_distributor.py:164-171 | after n failures retry_count has grown by n, and the n-th failure requeues exactly when retry_count + n < max_retries |
| ChunkDistribution.CompletedResults | pdf_processor/utils/chunk_distributor.py:285-293 | exactly the truthy results of the completed chunks, each taken from some chunk |
| ChunkDistribution.RedistributeSpec | pdf_processor/utils/chunk_distributor.py:187-218 | every failed chunk either moves to the main queue, reset to pending and unassigned, or stays failed; as many move as keys were offered |
| ChunkDistribution.ChunkDistributor.constructor | pdf_processor/utils/chunk_distributor.py:37-61 | empty queues, no processing chunks and zeroed statistics |
| ChunkDistribution.ChunkDistributor.AddChunks | pdf_processor/utils/chunk_distributor.py:63-84 | the queue gains the new tasks in order and total_chunks becomes len(chunks); afterwards work is pending exactly when it was before or the batch was not empty |
| ChunkDistribution.ChunkDistributor.GetNextChunk | pdf_processor/utils/chunk_distributor.py:86-104 | the failed queue is served first and each such chunk counts as redistributed; then the main queue; None when both are empty, and with no pending work (has_pending_work false) nothing is handed out and none appears |
| ChunkDistribution.ChunkDistributor.AssignChunkToApi | pdf_processor/utils/chunk_distributor.py:106-132 | refuses when no key is available; otherwise marks the chunk processing under the key and records it by id |
| ChunkDistribution.ChunkDistributor.MarkChunkCompleted | pdf_processor/utils/chunk_distributor.py:134-152 | the chunk is completed with its result, leaves the processing map, joins the completed list and completed is incremented; completing the last chunk in progress with both queues empty leaves no pending work |
| ChunkDistribution.ChunkDistributor.MarkChunkFailed | pdf_processor/utils/chunk_distributor.py:154-185 | the chunk leaves the processing map; when requeued it joins the failed queue, retried is incremented and the key failure is reported, so work stays pending; otherwise failed is incremented |
| ChunkDistribution.ChunkDistributor.RedistributeFailedChunks | pdf_processor/utils/chunk_distributor.py:187-218 | the moved chunks are appended to the main queue, the rest stay in the failed queue, and the count returned is the number moved |
| ChunkDistribution.ChunkDistributor.GetProgress | pdf_processor/utils/chunk_distributor.py:220-241 | pending is the queue length, processing the number of chunks in flight, and the counters are the statistics |
| ServerUtils.TrailingAlnum | server/utils.py:20 | the trailing run of ASCII letters and digits, maximal: the character before it is not one |
| ServerUtils.ExtSpec | server/utils.py:20-21 | the extension is non-empty exactly when the name ends in a dot followed by one or more ASCII letters or digits, and is then that suffix |
| ServerUtils.BaseExt | server/utils.py:22 | the base followed by the extension is the original name |
| ServerUtils.SubRunsSpec | server/utils.py:24 | replacing runs of characters outside `[A-Za-z0-9._-]` by `_` leaves only allowed characters, never lengthens the name and leaves an all-allowed name unchanged |
| ServerUtils.StripLeft | server/utils.py:24 | a suffix of the input that does not start with the stripped character |
| ServerUtils.StripRight | server/utils.py:24 | a prefix of the input that does not end with the stripped character |
| ServerUtils.StripSpec | server/utils.py:24 | stripping `_` from both ends keeps only allowed characters and leaves no `_` at either end |
| ServerUtils.FallbackBaseSpec | server/utils.py:24-26 | the fallback base is 1 to 151 allowed characters, never starts with `_`, and ends in `_` only when cut at 150 |
| ServerUtils.FallbackBaseClean | server/utils.py:24-26 | a base that is already clean and at most 150 characters long is kept as it is |
| ServerUtils.Utf8 | server/utils.py:28 | one to four bytes per character, and one exactly for ASCII |
| ServerUtils.HexRoundTrip | server/utils.py:28 | a hex digit reads back as its value |
| ServerUtils.QuoteRoundTrip | server/utils.py:28 | percent-decoding the quoted name gives the name's UTF-8 bytes |
| ServerUtils.QuoteAttrChars | server/utils.py:28 | with no safe characters, the quoted name holds only RFC 5987 attr-chars and `%` |
| ServerUtils.QuoteKeepsSlash | server/utils.py:28 | `quote` with its default safe `/` leaves `a/b` as it is, although `/` is not an attr-char; with no safe characters it gives `a%2Fb` |
| ServerUtils.FallbackSpec | server/utils.py:20-27 | the fallback name has only allowed characters and ends with the extension, or with ".pdf" when there is none |
| ServerUtils.BuildContentDispositionSpec | server/utils.py:18-29 | the header is `attachment; filename="<fallback>"; filename*=UTF-8''<quoted>`; the fallback has no quote or backslash, the quoted part decodes to the name's UTF-8 bytes and holds only attr-chars and `%` |
| PathValidator.DangerousIff | path_validator.py:77 | the dangerous characters are exactly `<>:"\|?*` and NUL |
| PathValidator.ContainsDotDot | path_validator.py:50 | a name contains ".." exactly when it has two adjacent dots |
| PathValidator.ValidatePdfFilenameSpec | path_validator.py:36-61 | a name is accepted exactly when it is non-empty, has no "..", `/` or `\`, ends in ".pdf" ignoring case and has at most 255 characters |
| PathValidator.ReplaceEachSpec | path_validator.py:78-79 | replacing each listed character by `_` keeps the length and changes exactly the listed characters |
| PathValidator.SeparatedSpec | path_validator.py:74 | after the separator and ".." replacements there is no `/`, `\` or "..", and a name ending in another character still ends in it |
| PathValidator.ReplaceDangerousSpec | path_validator.py:76-79 | every dangerous character, and only those, becomes `_` |
| PathValidator.MaskedSafe | path_validator.py:74-79 | masking the dangerous characters of a separator-free name leaves it safe and free of ".." |
| PathValidator.ReplacementsSafe | path_validator.py:73-79 | the replacement chain leaves no separator, "..", or dangerous character, and keeps a final `f` or `F` |
| PathValidator.AppendPdf | path_validator.py:82-83 | appending ".pdf" to a safe name not ending in a dot keeps it safe and gives it the suffix |
| PathValidator.SanitizeFilenameSafe | path_validator.py:63-85 | the sanitized name has no `/`, `\`, ".." or dangerous character, and keeps a ".pdf" suffix the input had |
| PathValidator.ReplaceNoDotDot | path_validator.py:74 | replacing ".." in a name without it changes nothing |
| PathValidator.AcceptedNameUnchanged | path_validator.py:46-85 | a name the validator accepts and that has no dangerous character is left unchanged by sanitizing |
| JokboCentric.ChunkingSplits | pdf_processor/analyzers/jokbo_centric.py:113-117 | a lesson is chunked exactly when it has more than 30 pages, which is exactly when splitting it gives more than one chunk |
| JokboCentric.SkipSeps | pdf_processor/analyzers/jokbo_centric.py:238 | skips a maximal run of whitespace, `_` and `-` |
| JokboCentric.NormalizeDropsPrefix | pdf_processor/analyzers/jokbo_centric.py:238-263 | a name starting with 강의자료, 강의, lesson or lecture (any case) and one or more separators is compared without that prefix, stripped and lower-cased |
| JokboCentric.PrefixWordMatches | pdf_processor/analyzers/jokbo_centric.py:238 | a prefix word followed by a separator is recognised as the prefix |
| Common.StartOffset | pdf_processor/analyzers/jokbo_centric.py:230 | the offset is never negative: start_page - 1 for a start page of at least 1, else 0 (the same expression is exam_only.py line 84) |
| JokboCentric.AdjustSlides | pdf_processor/analyzers/jokbo_centric.py:254-296 | one slide out per slide in |
| JokboCentric.AdjustSlideSpec | pdf_processor/analyzers/jokbo_centric.py:254-296 | only a slide with a positive page that belongs to the lesson is changed: its page moves by the offset, clamped to 1..total when the total is known, and is exact when it fits; filename and score are kept |
| JokboCentric.PostProcessSpec | pdf_processor/analyzers/jokbo_centric.py:219-298 | without chunk info or jokbo_pages the result is returned as is; otherwise only slide pages change and every page, question and slide keeps its place and other fields |
| JokboCentric.OffsetAgreesWithValidator | pdf_processor/analyzers/jokbo_centric.py:283-294 | for a chunk-relative page of the lesson the post-processing agrees with the page validator's chunk adjustment |
| JokboCentric.FirstChunkIdempotent | pdf_processor/analyzers/jokbo_centric.py:283-294 | for the first chunk (offset 0) post-processing a slide twice is the same as once |
| JokboCentric.AdjustSlidesLoop | pdf_processor/analyzers/jokbo_centric.py:265-296 | the loop over a question's slides computes AdjustSlides |
| JokboCentric.AdjustQuestionsLoop | pdf_processor/analyzers/jokbo_centric.py:264-296 | the loop over a page's questions computes AdjustQuestions |
| JokboCentric.AdjustPagesLoop | pdf_processor/analyzers/jokbo_centric.py:263-296 | the loop over the pages computes AdjustPages |
| JokboCentric.PostProcessResults | pdf_processor/analyzers/jokbo_centric.py:219-298 | the method computes PostProcess |
| JokboCentric.IntToString | pdf_processor/analyzers/jokbo_centric.py:412 | `str(n)` is non-empty, has no `_` and starts with `-` exactly for negative n |
| JokboCentric.IntToStringInjective | pdf_processor/analyzers/jokbo_centric.py:412 | distinct integers have distinct decimal strings |
| JokboCentric.QuestionIdInjective | pdf_processor/analyzers/jokbo_centric.py:412 | the id `"{page}_{number}"` is equal for two questions exactly when page and number are, so keying by the pair is the same |
| JokboCentric.EntriesSpec | pdf_processor/analyzers/jokbo_centric.py:405-412 | every question of every error-free result is collected with its page |
| JokboCentric.EntriesFrom | pdf_processor/analyzers/jokbo_centric.py:405-412 | every collected question comes from an error-free result |
| JokboCentric.MergedQuestionSpec | pdf_processor/analyzers/jokbo_centric.py:414-455 | a merged question keeps the data of its first occurrence and gets the slides of every occurrence that score at least min_score, best first, at most two |
| JokboCentric.MergedEntriesSpec | pdf_processor/analyzers/jokbo_centric.py:402-455 | one merged question per distinct (page, number), covering exactly the identifiers collected |
| JokboCentric.PagesOfSpec | pdf_processor/analyzers/jokbo_centric.py:438-458 | one page per distinct page number, each non-empty, holding exactly the questions on that page |
| JokboCentric.MergeLessonSpec | pdf_processor/analyzers/jokbo_centric.py:460-463 | the merged pages are those grouped pages sorted by page number, a permutation of them with distinct page numbers |
| JokboCentric.CollectPageEntries | pdf_processor/analyzers/jokbo_centric.py:408-412 | the loop collects every question of every page, in order |
| JokboCentric.CollectEntries | pdf_processor/analyzers/jokbo_centric.py:405-412 | the loop collects the questions of every error-free result, in order |
| JokboCentric.MergeQuestions | pdf_processor/analyzers/jokbo_centric.py:414-455 | the loop computes MergedEntries |
| JokboCentric.GroupPages | pdf_processor/analyzers/jokbo_centric.py:438-458 | the loop computes PagesOf |
| JokboCentric.MergeLessonResults | pdf_processor/analyzers/jokbo_centric.py:400-466 | the method computes MergedLesson |
| LessonCentric.ChunkedIntoSeveral | pdf_processor/analyzers/lesson_centric.py:106-116 | a lesson is chunked when it has more than 40 pages, and then splitting it gives at least two chunks |
| LessonCentric.ChunkAnalysesDirect | pdf_processor/analyzers/lesson_centric.py:121-131 | each chunk is analysed once, in order, with its own (start, end) as chunk info |
| LessonCentric.AnalysesSpec | pdf_processor/analyzers/lesson_centric.py:75-131 | with chunk info, or for a lesson of at most 40 pages, there is one direct analysis; otherwise one analysis per chunk, each with chunk info, so a chunk is never split again |
| LessonCentric.ShiftSlides | pdf_processor/analyzers/lesson_centric.py:233-238 | one slide out per slide in |
| LessonCentric.PostProcessResults | pdf_processor/analyzers/lesson_centric.py:223-239 | the loop over the related slides computes PostProcess |
| LessonCentric.PostProcessSpec | pdf_processor/analyzers/lesson_centric.py:223-239 | without chunk info or related slides the result is unchanged; otherwise each slide with a lesson_page gains start - 1 and nothing else changes |
| LessonCentric.ShiftComposes | pdf_processor/analyzers/lesson_centric.py:229-236 | shifting by a and then b is shifting by a + b, and shifting by 0 changes nothing |
| LessonCentric.ShiftAgreesWithValidator | pdf_processor/analyzers/lesson_centric.py:229-236 | for a chunk-relative page the shift agrees with the page validator's chunk adjustment |
| ExamOnly.PyIntSpec | pdf_processor/analyzers/exam_only.py:90-98 | `int()` accepts a number and a decimal string padded with whitespace, and raises on null, lists and dicts |
| ExamOnly.DecimalString | pdf_processor/analyzers/exam_only.py:90-98 | a decimal numeral neither starts nor ends with whitespace |
| ExamOnly.StripPadded | pdf_processor/analyzers/exam_only.py:90-98 | stripping removes exactly the whitespace padding around a numeral |
| ExamOnly.ShiftQuestions | pdf_processor/analyzers/exam_only.py:86-102 | one question out per question in |
| ExamOnly.ShiftFieldsSpec | pdf_processor/analyzers/exam_only.py:86-102 | page_start is shifted only when it reads as a positive integer, next_question_start only when present and positive; every other key is unchanged |
| ExamOnly.PostProcessPagesLoop | pdf_processor/analyzers/exam_only.py:74-103 | the loop over the questions computes PostProcessPages |
| ExamOnly.PostProcessPagesSpec | pdf_processor/analyzers/exam_only.py:74-103 | without chunk info, a dict result or a questions list the result is unchanged; otherwise only the questions list changes, each question shifted by the offset |
| ExamOnly.ShiftedPageInChunk | pdf_processor/analyzers/exam_only.py:84-94 | a shifted positive page_start is at least max(1, start); for a chunk starting at page 1 it is unchanged |
| MultiApiAnalysis.ChunkWorkers | pdf_processor/analyzers/multi_api_analyzer.py:170-174 | at least one worker; with tasks and keys, min(#tasks, #keys) |
| MultiApiAnalysis.LessonChunkPageStaysRelative | pdf_processor/analyzers/multi_api_analyzer.py:181-186 | as written, page 1 of the chunk of pages 31-60 stays page 1 in lesson-centric mode, where the page validator gives 31 |
| MultiApiAnalysis.ChunkInfoFor | pdf_processor/analyzers/multi_api_analyzer.py:179-196 | every mode passes the chunk's (start, end) |
| MultiApiAnalysis.ChunkPagesBecomeAbsolute | pdf_processor/analyzers/multi_api_analyzer.py:179-196 | with the chunk info passed, every chunk-relative lesson page becomes the absolute page the validator gives |
| MultiApiAnalysis.Nones | pdf_processor/analyzers/multi_api_analyzer.py:212 | n empty slots |
| MultiApiAnalysis.OrderResults | pdf_processor/analyzers/multi_api_analyzer.py:211-224 | the loop computes Place over n empty slots |
| MultiApiAnalysis.PlaceUntouched | pdf_processor/analyzers/multi_api_analyzer.py:213-224 | a slot no entry targets stays as it was, so out-of-range and malformed entries are ignored |
| MultiApiAnalysis.PlaceLast | pdf_processor/analyzers/multi_api_analyzer.py:213-224 | a slot holds the result of the last entry targeting it |
| MultiApiAnalysis.PlaceDistinct | pdf_processor/analyzers/multi_api_analyzer.py:213-224 | with distinct targets, a slot holds r exactly when some entry delivers r for that index |
| MultiApiAnalysis.PlaceOrderFree | pdf_processor/analyzers/multi_api_analyzer.py:211-224 | with distinct targets the ordered results do not depend on the completion order |
| MultiApiAnalysis.RenameResultSpec | pdf_processor/analyzers/multi_api_analyzer.py:229-239 | every slide's lesson_filename becomes the original name; nothing else changes |
| MultiApiAnalysis.Normalise | pdf_processor/analyzers/multi_api_analyzer.py:229-242 | one slot out per slot in |
| MultiApiAnalysis.Fill | pdf_processor/analyzers/multi_api_analyzer.py:245-247 | one result per slot |
| MultiApiAnalysis.ChunkResultsSpec | pdf_processor/analyzers/multi_api_analyzer.py:211-247 | one result per chunk; a chunk no entry answered becomes {"error": "No result"} and counts as failed; an answered chunk gets its result, renamed in jokbo-centric mode |
| MultiApiAnalysis.NormaliseLoop | pdf_processor/analyzers/multi_api_analyzer.py:229-242 | the loop computes Normalise |
| MultiApiAnalysis.FillLoop | pdf_processor/analyzers/multi_api_analyzer.py:245-247 | the loop computes Fill |
| MultiApiAnalysis.AnalyzeWithChunkRetry | pdf_processor/analyzers/multi_api_analyzer.py:153-250 | the ordered results are ChunkResults, and the merge is the chunk merge of the mode with a warning counting the failed chunks |
| RecoverChunks.LoadValidChunkFiles | recover_from_chunks.py:49-75 | the loop over the chunk files keeps what ValidResults keeps, in order |
| RecoverChunks.ValidResultsSpec | recover_from_chunks.py:56-72 | a result is kept exactly when it was read from some file, has no error and has jokbo_pages; unreadable files are skipped |
| RecoverChunks.AllEntriesOfValid | recover_from_chunks.py:82-85 | on error-free chunks the questions are collected as the jokbo-centric merge collects them |
| RecoverChunks.Connections | recover_from_chunks.py:80-97 | one connection per distinct question number |
| RecoverChunks.CollectAll | recover_from_chunks.py:82-85 | the loop collects every question of every chunk with its page, in order |
| RecoverChunks.MergeChunkResults | recover_from_chunks.py:78-100 | the method computes Connections over the collected questions |
| RecoverChunks.ConnectionsSpec | recover_from_chunks.py:86-97 | one connection per distinct question number, covering exactly the numbers seen, each holding every slide of every occurrence of its number |
| RecoverChunks.RecoverFilterAgrees | recover_from_chunks.py:116-120 | sorting by score, keeping two and then dropping scores below 5 is the result merger's filter with threshold 5 and limit 2 |
| RecoverChunks.RecoverFilterSpec | recover_from_chunks.py:116-120 | the kept slides score at least 5, are in descending score order, are drawn from the input and are as many as qualify, up to two |
| RecoverChunks.FilterConnections | recover_from_chunks.py:110-133 | the loop keeps exactly Kept and counts the kept questions and their slides |
| RecoverChunks.ApplyFilteringAndSorting | recover_from_chunks.py:103-147 | the method computes Recover |
| RecoverChunks.KeptSpec | recover_from_chunks.py:115-131 | a question is kept exactly when its filtered slides are non-empty, and then carries them |
| RecoverChunks.RecoverPagesSpec | recover_from_chunks.py:122-136 | the pages are the kept questions grouped by page, one per page number, sorted by page number and holding exactly that page's kept questions |
| RecoverChunks.QuestionCountSum | recover_from_chunks.py:132 | the question count of the pages is the sum of their question counts |
| RecoverChunks.SlideCountSum | recover_from_chunks.py:133 | the slide count of the questions is the sum of their slide counts |
| RecoverChunks.PagesOfGathered | recover_from_chunks.py:122-133 | each page groups exactly the questions of its page number, one page per number, and every question's page is present |
| RecoverChunks.PagesOfQuestionTotal | recover_from_chunks.py:122-133 | grouping by page neither loses nor adds questions |
| RecoverChunks.PagesOfSlideTotal | recover_from_chunks.py:122-133 | grouping by page neither loses nor adds related slides |
| RecoverChunks.SummaryAgrees | recover_from_chunks.py:140-147 | the summary's totals are the page count, the question count and the slide count of the returned pages |
| ProcessorHelpers.CheckSlides | pdf_processor_helpers.py:50-62 | one slide out per slide in |
| ProcessorHelpers.CheckQuestions | pdf_processor_helpers.py:46-65 | one question out per question in |
| ProcessorHelpers.CheckPages | pdf_processor_helpers.py:45-65 | one page out per page in |
| ProcessorHelpers.CheckSlidesLoop | pdf_processor_helpers.py:50-62 | the loop computes CheckSlides, and reports an invalid page exactly when some slide's page is rejected by the validator |
| ProcessorHelpers.CheckQuestionsLoop | pdf_processor_helpers.py:46-65 | the loop computes CheckQuestions and collects InvalidIn |
| ProcessorHelpers.ValidateQuestionPages | pdf_processor_helpers.py:27-67 | the method computes Validated: the adjusted result, retry_needed and the invalid question numbers |
| ProcessorHelpers.InvalidInSpec | pdf_processor_helpers.py:46-65 | a number is collected exactly when some question with that number has a rejected slide |
| ProcessorHelpers.InvalidNumbersSpec | pdf_processor_helpers.py:44-65 | a number is collected exactly when some question on some page with that number has a rejected slide |
| ProcessorHelpers.ValidatedRetry | pdf_processor_helpers.py:41-67 | without jokbo_pages nothing changes and nothing is flagged; otherwise retry_needed holds exactly when some slide's page is rejected, and the invalid numbers are exactly those of questions with a rejected slide |
| ProcessorHelpers.ValidatedPages | pdf_processor_helpers.py:50-62 | only lesson pages change: an accepted page is replaced by the validator's adjustment, a rejected or missing one is left as it was |
| ProcessorHelpers.RemoveInvalidQuestions | pdf_processor_helpers.py:70-83 | the method computes WithoutInvalid |
| ProcessorHelpers.KeepUnlisted | pdf_processor_helpers.py:80-83 | the loop keeps exactly the questions whose number is not listed, in order |
| ProcessorHelpers.WithoutInvalidSpec | pdf_processor_helpers.py:70-83 | an empty set or a result without jokbo_pages is left unchanged; otherwise each page keeps its number and exactly its questions whose number is not listed |
| ProcessorHelpers.CleanedPagesInChunk | pdf_processor_helpers.py:27-83 | after validating with the page validator and removing the invalid questions, every remaining lesson page lies inside the chunk |
| ProcessorHelpers.SurvivorInChunk | pdf_processor_helpers.py:53-65 | a slide of a question that is not listed as invalid has a lesson page inside the chunk |
| UploadCleanup.AnyPrefix | pdf_processor/api/upload_cleanup.py:67-74 | the loop finds a prefix exactly when the display name starts with one of them |
| UploadCleanup.PurgeKeyFiles | pdf_processor/api/upload_cleanup.py:16-92 | the counts are those Purged gives, and delete is called on exactly DeleteCalls, in order |
| UploadCleanup.PurgeTotals | pdf_processor/api/upload_cleanup.py:40-92 | deleted and skipped are non-negative and add up to the number of listed files |
| UploadCleanup.DeleteCallsSpec | pdf_processor/api/upload_cleanup.py:60-80 | a file is deleted exactly when it was listed, its display name is not kept, and delete_all is set or its name starts with a prefix |
| UploadCleanup.DeletedAreSuccesses | pdf_processor/api/upload_cleanup.py:80-85 | the deleted count is the number of delete calls that succeeded; a failed delete counts as skipped |
| UploadCleanup.PurgeExtremes | pdf_processor/api/upload_cleanup.py:61-78 | with delete_all and nothing kept every listed file is deleted; with no prefixes and no delete_all nothing is |
| LessonAnalysis.HighestSpec | pdf_processor/analyzers/lesson_analyzer.py:258-262 | the running maximum is one of the scores seen and no smaller than any of them |
| LessonAnalysis.GatheredNonEmpty | pdf_processor/analyzers/lesson_analyzer.py:245-262 | every page seen has at least one importance score gathered |
| LessonAnalysis.PageOrder | pdf_processor/analyzers/lesson_analyzer.py:245-251 | one key per distinct lesson page, in order of first appearance |
| LessonAnalysis.Unsorted | pdf_processor/analyzers/lesson_analyzer.py:280-282 | one merged slide per page key |
| LessonAnalysis.PageOrderInKeys | pdf_processor/analyzers/lesson_analyzer.py:245-251 | every key of the dictionary is the page of some slide seen |
| LessonAnalysis.MergeLessonResults | pdf_processor/analyzers/lesson_analyzer.py:229-267 | merging succeeds exactly when every slide has a lesson_page, and then the accumulated dictionary holds the merge of all slides seen so far |
| LessonAnalysis.AddSlide | pdf_processor/analyzers/lesson_analyzer.py:243-267 | absorbing one slide keeps the dictionary equal to the merge of all slides seen |
| LessonAnalysis.OrderAfter | pdf_processor/analyzers/lesson_analyzer.py:245-251 | a slide adds its page to the key order only when the page is new |
| LessonAnalysis.EntryUnchanged | pdf_processor/analyzers/lesson_analyzer.py:243-267 | a slide leaves every other page's entry as it was |
| LessonAnalysis.EntryExtended | pdf_processor/analyzers/lesson_analyzer.py:253-267 | a slide for a known page extends its questions, takes the higher importance and adds its concepts |
| LessonAnalysis.EntryStarted | pdf_processor/analyzers/lesson_analyzer.py:245-267 | a slide for a new page starts an entry with its own importance (default 5) and then absorbs the slide |
| LessonAnalysis.AnswerStep | pdf_processor/analyzers/lesson_analyzer.py:51-67 | one more answer adds its slides, its question count and its key topics |
| LessonAnalysis.AnalyzePdfsForLesson | pdf_processor/analyzers/lesson_analyzer.py:32-80 | the loop over the answers computes Report |
| LessonAnalysis.PrepareFinalSlides | pdf_processor/analyzers/lesson_analyzer.py:269-287 | the final slides are the merged entries sorted by page, with their count, the question total and the topics |
| LessonAnalysis.AllPagedAppend | pdf_processor/analyzers/lesson_analyzer.py:242-243 | every slide of a concatenation has a page exactly when every slide of both parts does |
| LessonAnalysis.AllPagedPrefix | pdf_processor/analyzers/lesson_analyzer.py:242-243 | a slide without a page in an early answer makes the whole analysis fail |
| LessonAnalysis.MergedAtSpec | pdf_processor/analyzers/lesson_analyzer.py:242-267 | a page's merged entry holds exactly the questions and the concepts of the slides on that page, and the highest importance among them |
| LessonAnalysis.FinalSlidesSpec | pdf_processor/analyzers/lesson_analyzer.py:269-287 | one slide per distinct page, in strictly increasing page order, covering exactly the pages seen, each the merged entry of its page |
| LessonAnalysis.UnsortedPages | pdf_processor/analyzers/lesson_analyzer.py:280-282 | the unsorted list follows the dictionary's insertion order of pages |
| LessonAnalysis.FinalSlidesContent | pdf_processor/analyzers/lesson_analyzer.py:280-285 | sorting is a permutation of the merged entries, each the merge of its page |
| LessonAnalysis.FinalSlidesIncreasing | pdf_processor/analyzers/lesson_analyzer.py:285 | the final slides are in strictly increasing page order |
| LessonAnalysis.FinalSlidesCover | pdf_processor/analyzers/lesson_analyzer.py:280-285 | the final slides cover exactly the pages seen |
| LessonAnalysis.ErrorAnswerIgnored | pdf_processor/analyzers/lesson_analyzer.py:55-57 | an answer with an error leaves the report unchanged |
| LessonAnalysis.ReportSpec | pdf_processor/analyzers/lesson_analyzer.py:32-80 | the analysis fails exactly when some slide of an error-free answer has no lesson_page; otherwise total_related_slides is the number of slides, which is the number of distinct pages |

## Left out

- Threads, `threading.Condition` waits and `ThreadPoolExecutor` are not modelled. Every lock-protected update is sequential, and an acquire that finds no free slot returns None at once instead of waiting.
- MultiApi.Manager.DistributeTasks: only the sequential branch is modelled. For the parallel branch only the worker-count rule (`MultiApi.SafeWorkers`) is; its completion order is captured separately by `MultiApiAnalysis.PlaceOrderFree`.
- MultiApi.SafeWorkers: the `except` fallback of the worker count is not modelled, because `len()` of a list cannot raise.
- MultiApi.Manager.ExecuteWithFailover: a cancelled attempt's key is counted among the keys tried. The source re-raises before recording it, so the model's tried set can hold one more key than the source's.
- MultiApi.Manager.DistributeTasks: the cancellation check before each task is a parameter (the index from which tasks are cancelled). The progress callback is modelled as a count: `on_progress` fires once per task, in the `finally` of each task, so the count equals the number of results.
- PdfOperations.ToIntSpec: JSON numbers are integers in this model (`Json.Num` holds an `int`), so `_to_int` of a float (`int(val)`, truncating toward zero) and JSON numbers with a fraction or exponent are not modelled.
- `get_success_rate`, progress percentages and `time.time()` deadlines are left out, because they are floating point and real clocks. Time is an integer number of seconds passed in as `now`.
- KeyRotation.KeyManager.GetAvailableApi: the two `datetime.now()` reads of `get_available_api` are one `now` parameter.
- `json.loads` is not modelled. It is the parameter `decode`, where None stands for a decoding error.
- The regular expressions and string methods are modelled on ASCII: `\s`, `\d`, `.lower()` and `.isalnum()` for non-ASCII characters are not.
- ExamOnly.PyIntSpec: `int()` of strings with underscores, signs, or Unicode digits is not modelled.
- ServerUtils.ExtSpec: Python's `$` also matches before a trailing newline. The model anchors at the very end.
- Items of a list that are not dicts, and values of unexpected types (for instance a non-integer `lesson_page`), are not modelled. Every record has the typed shape of `Records`, except in the JSON scanners, which work on the generic `Json` value.
- The model has no logging, `print`, debug files, `StorageManager` progress counters or Redis mirrors, because they are output only.
- Uploads, deletions and listings on the Gemini side are not modelled. The outcome of a delete is a field of `UploadCleanup.RemoteFile`, and a listing that fails or returns nothing is None.
- RecoverChunks.LoadValidChunkFiles: the directory listing and reading and decoding each file are not modelled. A file that fails to load is `Unreadable`.
- Validators.ValidateAndAdjustPageNumber: the label argument of the page validator only feeds a log message, so the model drops it.
- JokboCentric.MergeLessonResults: questions are keyed by the pair (page, number) rather than the string `"{page}_{number}"`. `JokboCentric.QuestionIdInjective` shows the two keys agree.
- RecoverChunks.MergeChunkResults: a question without `question_number` (keyed "Unknown" in the source) is not modelled, because every question carries a number in `Records`.
- LessonAnalysis.AnalyzePdfsForLesson: `key_concepts` and `key_topics` are sets, because the source's `list(set)` order is unspecified. The constant `study_recommendations` text is not modelled.
- LessonAnalysis.MergeLessonResults: a slide without `lesson_page` raises `KeyError` in the source. The model returns `Err`, and in-place updates to the caller's dictionaries are modelled by returning the new dictionary.
- JokboCentric.PostProcessResults: the total page count, which the source reads lazily from the PDF, is a parameter. A failure to read it counts as 0.
- ChunkDistribution.ChunkDistributor.AssignChunkToApi: the number of available keys comes from the key manager and is a parameter. The per-key upload lists are modelled as a set of key names.
- `wait_for_available_api` and `cleanup_api_uploads` of the chunk distributor, and `retry_chunk` of the retrier, are not modelled. They consist of sleeping and polling, uploads, and callbacks into code outside this model.
- ChunkRetry.FailedChunkRetrier.SelectRetryApi: the keys `get_next_api` hands out are an input sequence, one per call, because they come from the key manager.
- The analyzers' upload, prompt and `analyze` plumbing is not modelled. Chunk analyses are inputs, and only the planning, post-processing and merging around them are modelled.

## Findings

| source | as written | input that shows it | evidently intended | confidence | as-written member | corrected member |
|---|---|---|---|---|---|---|
| server/utils.py:28 | `quote(original_name)` keeps its default safe character `/`, so `filename*` can contain `/`, which RFC 5987 does not allow in an ext-value | the name `a/b` gives `filename*=UTF-8''a/b` | percent-encode every non-attr-char (`quote(name, safe='')`), giving `a%2Fb` | not executed; medium | ServerUtils.QuoteKeepsSlash | ServerUtils.BuildContentDispositionSpec |
| pdf_processor/utils/failed_chunk_retrier.py:132-145 | an empty response at attempt 2 or later falls through to the final `return True` | EmptyResponse at attempt 2 with the default max_retries 3 is retried | retry empty responses only while attempt < 2, as the comment says | not executed; medium | ChunkRetry.ShouldRetryEmptyResponseDiffers | ChunkRetry.ShouldRetrySpec |
| pdf_processor/analyzers/multi_api_analyzer.py:181-186 | the lesson-centric branch calls `analyze` without `chunk_info`, so lesson pages of a chunk stay chunk-relative | page 1 of the chunk of pages 31-60 stays page 1, where the page validator gives 31 | pass `chunk_info=(start_page, end_page)` as the jokbo-centric branch does | not executed; high | MultiApiAnalysis.LessonChunkPageStaysRelative | MultiApiAnalysis.ChunkPagesBecomeAbsolute |
