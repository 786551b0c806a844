# A verified model of the RAG platform's core

This project models the parts of the retrieval-augmented-generation platform whose
correctness spans more than one call, and proves what they promise:

* the **document-change consumer** (`sync-service`): decoding a Kafka record, the
  retry loop, the dead-letter topic, cumulative commits, crashes with redelivery, and
  the index that it drives through `IndexDocument`;
* the **text splitter**: cleaning, recursion over separators, greedy merging with
  carried overlaps, parent and child chunks;
* **hybrid retrieval**: the BM25 index, reciprocal-rank fusion, parent grouping,
  merging, reranking, the knowledge base that keeps chunks, vector rows and keyword
  counters aligned, and how scores decide the answering route;
* **coordination with time**: the gateway's sliding-window limiter and circuit breaker,
  the backend's fixed-window limiter, the token lease lock and the backend's blind one;
* two smaller cores: **saved memories** keyed by scope and memory key, and
  **latency percentiles**.

Code that changes state step by step is modelled by classes and methods with loops,
each proved against a specification function or a step machine; the laws are lemmas
about those. `dafny verify dfyconfig.toml` checks everything.

## How the modules fit together

| files | contents |
|---|---|
| `Options`, `Sequences`, `Text`, `Changes` | optional values, prefixes, strings; decoding and validating change records |
| `DocumentIndex`, `Consumer`, `Redelivery`, `SourceRedelivery`, `SyncService` | meaning of a list of changes; the consumer as a step machine and its commits; what the index holds after any run, as a whole and of each source; the consumer's code, proved to follow the machine |
| `Cleaning`, `CleaningLaws`, `Recleaning`, `Splitter`, `Merging`, `Separators`, `Ingestion` | from page text to numbered parent and child chunks; which texts cleaning cannot tell apart; what becomes of the separators |
| `Tokenizer`, `Ranking`, `Bm25`, `KeywordScores`, `KeywordIndex` | tokens, stable sorting, scores and what they mean in counts and lengths, the BM25 object |
| `VectorIndex`, `Neighbours`, `Fusion`, `HybridSearch` | exact vector search, the neighbours that are kept, rank fusion, and what fusing the answers of the two indexes means |
| `Retrieval`, `SearchMeaning`, `OverviewMeaning`, `Reranking`, `KnowledgeBases`, `Overlap`, `Routing` | search from fused hits to a route, and what its results are in terms of the chunks' fields; the knowledge base and its files |
| `SlidingWindows`, `FixedWindows`, `Leases`, `CircuitBreakers` | limiters, locks, breaker |
| `MemoryCandidates`, `MemoryForms`, `Memories`, `Percentiles` | memories and percentiles |

Floats are exact reals, the logarithm is any increasing function that is 0 at 1, and
`round(x, 4)` is half-to-even on reals. Clocks are integers that do not run backwards.
The vector index answers with exactly the closest rows by inner product, ties in any order.
PDF parsing, embedding, character lowering, the language model's verdicts, the
reranking models' replies and every reply of Kafka, Redis and gRPC are arbitrary inputs.

## Where the code and its documentation differ

* `docs/architecture.md:21-24` and `docs/pitfall.md:3-4` say that an offset is committed
  only after the record was indexed or dead-lettered. After a failed dead-letter write
  the loop goes on to the next record (`sync-service/internal/service.go:127-130`), whose
  cumulative commit covers the failed one. The model follows the code: the guarantee is
  proved exactly when no such commit happens, and a run that loses a record is given.
* Malformed bytes can never reach the dead-letter topic, because the payload is embedded as
  raw JSON (`sync-service/internal/service.go:210`). A record without a value can: it does
  not decode either, but a nil raw message is written as `null`.
* `upsert_pdf` stores a source name as it is, `delete_source` strips it
  (`backend/retriever.py:758`): deleting undoes inserting exactly for stripped names.
* `backend/graph.py:619-620` announces a web search for weak retrieval; the flag that would
  cause it is always reset (`backend/graph.py:411-415`), so it never happens
  (`Routing.GradeDocuments`).
* A restart accepts a saved vector index by its size alone
  (`backend/retriever.py:660-668`), so an interrupted replacement by equally many chunks
  leaves stale rows in place.
* The memory endpoint accepts any status (`backend/schemas/memory.py:13`). A memory created
  as rejected stays active; deleting it later beside a live row, and nothing else, breaks
  the rule of one live row per key (`Memories.HistoriesKeepLiveNewestExactly`).

## Model

| member | source | states |
|---|---|---|
| Changes.ChangeRecord.Validate | sync-service/internal/document.go:94-106 | Normalises the operation even when it then rejects; accepts exactly the acceptable changes and otherwise gives the first applicable reason |
| Changes.ValidateRows | sync-service/internal/document.go:61-83 | The row loop returns all rows normalised, or the rejection of the first bad row |
| Changes.DecodeDocumentChanges | sync-service/internal/document.go:42-83 | Decoding distinguishes compact event, Canal envelope, ignored record and each error as specified |
| Changes.DecodingIsAllOrNothing | sync-service/internal/document.go:39-106 | Decoding succeeds if and only if every candidate is acceptable; what it returns is acceptable, in order, and a fixed point of normalisation |
| Changes.SpellingDoesNotMatter | sync-service/internal/document.go:95 | Whatever the case of its letters and the whitespace around it, an operation is rewritten to its upper-case name |
| Changes.DecodedFields | sync-service/internal/document.go:46-79 | Field by field: one change per row, with the row's own id if it gives no document id and the later time stamp if the first is 0; a compact event is kept but for its operation |
| Consumer.AlwaysTracked | sync-service/internal/service.go:104-139 | On every run each offset between the committed and the read position is applied, dead-lettered, skipped or in hand |
| Consumer.SafetyStep | sync-service/internal/service.go:124-137 | One step keeps commit safety if and only if it is not a commit over a skipped offset |
| Consumer.LossIsForever | sync-service/internal/service.go:135-137 | An offset lost below the committed one stays lost however the run goes on, restarts included |
| Consumer.CommitSafety | sync-service/internal/service.go:104-139 | On every run, all offsets below the committed one are applied, ignored or dead-lettered if and only if no commit overran a failed dead-letter write |
| Consumer.SafeWithoutSkipThenCommit | docs/pitfall.md:3-4 | The documented commit guarantee, for every run in which no failed dead-letter write is followed by a commit before a restart |
| Consumer.MalformedIsNeverAccounted | sync-service/internal/service.go:209-216 | A record of malformed bytes is never applied nor dead-lettered, so safety forbids ever committing past it |
| Consumer.SkippingRunLosesARecord | sync-service/internal/service.go:125-137 | A concrete run: a malformed record, a failed dead-letter write, and an ignored record whose commit loses the first |
| Redelivery.RecoverStep | sync-service/internal/service.go:104-207 | Every step that abandons no record with changes keeps the index recoverable: replaying from the committed offset repairs it, and so does replaying from the cursor while nothing with changes is skipped |
| Redelivery.RedeliveryRepairs | sync-service/internal/service.go:125-130 | At any moment of any run that abandons no record with changes, replaying from the committed offset to the furthest applied change gives the chunks of applying each change once |
| Redelivery.ReplayConvergence | backend/retriever.py:707-712 | Over every such run, with retries, cancelled retries, failed dead letters, lost commits and crashes, the consumer back at its furthest position with nothing skipped holds exactly the chunks that applying each change once in order gives |
| Redelivery.DrainedLogIsIndexedOnce | sync-service/internal/service.go:104-139 | A consumer that has read the whole log, abandoned no record with changes and skips none has indexed it, in order, as if each change had been applied once |
| SourceRedelivery.SourceRecoverStep | sync-service/internal/service.go:104-207 | Every step that abandons no record touching a source keeps that source recoverable from the committed offset, and from the cursor while no such record is skipped |
| SourceRedelivery.SourceConvergence | backend/retriever.py:707-712 | Over every run, at any moment, the chunks of a source none of whose records was abandoned are what the changes before the cursor leave, unless a change that will be met again touches it; abandoned records of other sources do not matter |
| SourceRedelivery.DrainedSourceIsIndexedOnce | sync-service/internal/service.go:104-139 | After the whole log every source none of whose records was abandoned or is skipped holds the chunks that applying each change once leaves it, whatever was dead-lettered for others |
| Redelivery.GivenUpLeavesPrefixes | sync-service/internal/service.go:141-182 | Giving up on a record leaves the index as it was at the fetch, followed by one prefix of the record's changes per attempt: indexing a batch is not all or nothing |
| Redelivery.GivenUpWithoutEffect | sync-service/internal/service.go:141-182 | If no attempt applied anything, giving up leaves the index untouched |
| Redelivery.DeadLetteredBatchMayBeHalfApplied | sync-service/internal/service.go:163-182 | A concrete run: a dead-lettered batch leaves its first change applied |
| SyncService.IndexDocument | rag-service/server.py:101-124 | Dispatch by the upper-cased operation; an unknown one or a missing file changes nothing; success implies the change took effect, and the chunks are the old ones or the change applied; afterwards the source's chunks share a parent id exactly if they have the same parent |
| SyncService.Service.SyncDocument | sync-service/internal/service.go:184-207 | Without the lock nothing changes; success needs lock and reply; favourable conditions succeed; the effect is one step of the machine |
| SyncService.Service.Process | sync-service/internal/service.go:163-182 | Applies a record's changes in order up to the first failure; ignores exactly the ignorable records; fails on a decodable record only if some change met an obstacle |
| SyncService.Service.HandleWithRetry | sync-service/internal/service.go:141-161 | Gives up in the state after attempt number `retries`, or number `cancelAt` if that comes first, and no earlier; a record that decodes succeeds if any attempt up to there meets no obstacle |
| SyncService.Service.SendDLQ | sync-service/internal/service.go:209-216 | Publishes exactly when Kafka accepts and the payload is not malformed; a missing value is published as null |
| SyncService.Service.CommitMessages | sync-service/internal/service.go:135-137 | A successful commit covers everything before the read position, a failed one nothing |
| SyncService.Service.ConsumeOne | sync-service/internal/service.go:107-138 | One round reads at most one record and commits it if Kafka takes every write and the payload is not malformed; a record that decodes and meets no obstacle in one of its attempts is applied and not dead-lettered |
| SyncService.Service.CrashAndRestart | sync-service/internal/service.go:104-116 | A restart resumes at the committed offset, and the run stays a run of the machine |
| SyncService.Service.Consume | sync-service/internal/service.go:104-139 | For any rounds: reads one record per fetch, is commit-safe exactly when no commit overran, has indexed a drained log exactly once if no record with changes was abandoned or is skipped, commits all it reads when Kafka is orderly |
| DocumentIndex.ReplayFactors | backend/retriever.py:716-720 | A list of changes removes the sources it touches and appends text that does not depend on the starting chunks |
| DocumentIndex.ReplayAddsTouched | backend/retriever.py:716-720 | Everything a list of changes adds belongs to a source that it touches |
| DocumentIndex.ReplayAgreesExactly | backend/retriever.py:707-778 | Replaying a list from two states gives the same result if and only if they agree outside the touched sources |
| DocumentIndex.AppliedBeforehand | backend/retriever.py:708-712 | Applying one of its changes beforehand makes no difference to a list of changes |
| DocumentIndex.JumpBack | backend/retriever.py:708-712 | Jumping back in the log and replaying reaches the same chunks as never having jumped |
| DocumentIndex.RedeliveryIsIdempotent | backend/retriever.py:710-711 | A change delivered twice in a row has the effect of one delivery |
| DocumentIndex.LastWriterWins | backend/retriever.py:707-778 | After any list of changes a source holds what its last change left, or its initial chunks if none touched it |
| DocumentIndex.DeleteUndoesInsertExactly | backend/retriever.py:756-766 | Deleting a source after inserting it leaves nothing of it if and only if its name carries no surrounding whitespace |
| Cleaning.CleaningKeepsInk | backend/retriever.py:272-278 | Cleaning never lengthens a text and keeps every character that is not whitespace, hyphen, soft hyphen or separator punctuation, in order |
| Cleaning.CleanTextIsNormal | backend/retriever.py:272-278 | Clean text has no carriage return, soft hyphen or tab, no two blanks and no three newlines in a row, and nothing to strip |
| CleaningLaws.LineEndsAreAlike | backend/retriever.py:273 | A text and the same text with a CRLF or CR written as LF clean alike |
| CleaningLaws.SoftHyphensVanish | backend/retriever.py:274 | A soft hyphen leaves no trace |
| CleaningLaws.BlanksAreAlike | backend/retriever.py:276 | Any blank, and any two in a row, clean like one space: it is neither lost nor doubled |
| CleaningLaws.GapsAreAlike | backend/retriever.py:277 | Three newlines clean like two |
| Recleaning.RecleaningIsIdentity | backend/retriever.py:272-278 | A text in the normal form of cleaning is left as it is if and only if no hyphenated word is broken in it |
| Cleaning.CleaningIsNotIdempotent | backend/retriever.py:275 | A concrete text on which cleaning twice differs from cleaning once |
| Recleaning.CleaningIsIdempotentExactly | backend/retriever.py:272-278 | Cleaning twice is cleaning once if and only if the text, newlines normalised and soft hyphens removed, has no stretch letter, hyphen, newline, letter, hyphen, newline, letter |
| Recleaning.JoinLeavesChains | backend/retriever.py:275 | Joining hyphenated words leaves a broken word behind exactly when two of them shared a letter |
| Splitter.SplitThenJoin | backend/retriever.py:306 | Joining the pieces of a split by the separator gives the text back |
| Splitter.HardSplitText | backend/retriever.py:358-367 | The loop terminates and computes the list of consecutive pieces |
| Splitter.HardSplitPieces | backend/retriever.py:358-367 | The pieces concatenate to the text, and each has between 1 and chunk_size characters |
| Splitter.SplitBySeparatorsInto | backend/retriever.py:298-319 | The recursion over separators terminates and computes the segments that the laws of Separators describe |
| Splitter.SegmentSizes | backend/retriever.py:298-319 | Every segment of a non-empty text has between 1 and chunk_size characters |
| Splitter.SegmentsKeepInk | backend/retriever.py:298-319 | The segments together hold the same ink characters in the same order |
| Separators.LevelKeepsText | backend/retriever.py:306-319 | The segments of one level are the text without the separators that stand at its start or directly behind another one, that is behind an empty piece |
| Separators.SegmentsEndWithSeparator | backend/retriever.py:314 | Every segment of a level but the last ends with its separator, and none is empty |
| Separators.SplitsLevelByLevel | backend/retriever.py:298-319 | Only segments that are too long are split further, by the next separator, and characters are counted off only where no separator is left |
| Separators.SplitKeepsText | backend/retriever.py:298-319 | The segments of all levels, put together, are the text without the separators dropped on the way |
| Separators.SplitIsLosslessExactly | backend/retriever.py:311-314 | They are the text itself if and only if no split on the way yields an empty piece before its last one |
| Separators.SplitTextKeepsMarks | backend/retriever.py:287-295 | Every character but whitespace and hyphens, punctuation included, reaches the chunks in order and once outside overlaps, but for the dropped separators |
| Merging.MergeSegments | backend/retriever.py:322-349 | The merging loop computes its specification; the running length is always that of the joined current parts |
| Merging.MergePacksAll | backend/retriever.py:322-355 | The chunks are the segments in consecutive non-empty groups, each after the previous chunk's tail, packed greedily: none is left out that would have fitted |
| Merging.MergingLosesNothing | backend/retriever.py:322-355 | Dropping each carried tail and joining by spaces gives exactly the cleaned non-empty segments joined by spaces |
| Merging.PackedSizes | backend/retriever.py:332-355 | Every chunk of a packing has between 1 and chunk_size + overlap + 1 characters, at most chunk_size without overlap |
| Merging.ChunksOverlap | backend/retriever.py:352-355 | A chunk longer than the overlap hands on its last characters, without whitespace at their start, and the next chunk begins with them and a space |
| Merging.SplitTextInto | backend/retriever.py:288-295 | The whole splitter computes clean, split and merge |
| Merging.SplitTextSizes | backend/retriever.py:288-355 | The size bounds hold for the chunks of every text |
| Merging.SplitTextKeepsInk | backend/retriever.py:288-355 | Every ink character of the text survives in order, exactly once outside the carried tails |
| Merging.InkyTextIsNotLost | backend/retriever.py:288-295 | A text with any ink yields at least one chunk |
| Merging.FullStopsVanishExactly | backend/retriever.py:311-314 | A text of Chinese full stops alone yields no chunk if and only if it is longer than chunk_size |
| Ingestion.ChunksFromReader | backend/retriever.py:780-817 | The nested loops over pages, parents and children compute the layout of passages |
| Ingestion.LayoutIsNumbered | backend/retriever.py:808 | The i-th passage of a document carries index i, across pages and parents |
| Ingestion.PassageStands | backend/retriever.py:791-814 | Every passage is child v of parent u of its page and carries u and v as its indices |
| Ingestion.ParentsAreIdentified | backend/retriever.py:791-813 | Two passages of a document have the same parent exactly if page and parent index agree |
| Ingestion.PassageSizes | backend/retriever.py:785-799 | Parents keep to the parent size and children to the child size, but for the overlap; a parent without children is its own child |
| Ingestion.PassagesHoldPage | backend/retriever.py:780-817 | Regrouping the passages of a page gives its parent chunks with their children: the layout loses nothing |
| Ingestion.IngestionLosesNoInk | backend/retriever.py:780-817 | Reading a page's passages in order without the tails carried from child to child and from parent to parent gives the page's ink characters, in order and as often as they occur |
| Ranking.SortsStably | backend/retriever.py:485 | Sorting by score orders, permutes, and keeps the order of equal scores |
| Ranking.PositionCountsBetter | backend/retriever.py:485-486 | A hit's position is the number of hits that beat it by score, then by index |
| Ranking.TopKExactly | backend/retriever.py:485-486 | A hit is in the top-k prefix if and only if fewer than k hits beat it |
| Tokenizer.Tokenize | backend/retriever.py:370-389 | The token loops compute words with their parts, then bigrams and trigrams of Chinese phrases |
| Tokenizer.AdjacentCjkIsToken | backend/retriever.py:381-387 | Any two or three adjacent Chinese characters of a text are one of its tokens |
| Tokenizer.ChineseQuerySharesToken | backend/retriever.py:370-389 | An all-Chinese query of length at least 2 that occurs in a text shares a token with it |
| Tokenizer.AsciiRunIsToken | backend/retriever.py:375-379 | Every maximal run of letters and digits of the lowered text is a token, with its percent sign if it has one, wherever in a hyphenated or dotted word it stands |
| Tokenizer.WholeWordIsToken | backend/retriever.py:375-376 | A whole technical term with its joiners and percent sign is a token besides its parts |
| Tokenizer.IsolatedCjkIsToken | backend/retriever.py:382-384 | A Chinese character that stands by itself is a token |
| Tokenizer.ChineseTokenCount | backend/retriever.py:381-387 | A Chinese text of n characters has 2n - 3 tokens, or one if n is 1 or 2 |
| Tokenizer.TokensChars | backend/retriever.py:375-381 | Tokens hold only lower-case letters, digits, joiners, percent signs and Chinese characters |
| Tokenizer.TokensOccur | backend/retriever.py:370-389 | Every token occurs in the lowered text |
| Tokenizer.ChineseGramIsTokenExactly | backend/retriever.py:381-387 | For two or three Chinese characters, being a token and occurring in the lowered text are the same |
| Bm25.CountedScoreIsScore | backend/retriever.py:471-481 | Weighting each distinct query term by its count gives the same score as adding up the query's tokens one by one |
| Bm25.IdfPositive | backend/retriever.py:458-461 | A term's idf is positive exactly when some document contains it, however common it is |
| Bm25.RarerTermsWeighMore | backend/retriever.py:458-461 | Of two indexed terms the one in fewer documents has the strictly higher idf |
| Bm25.SaturationGrows | backend/retriever.py:476-481 | More occurrences never weigh less, and strictly more exactly when the length norm is positive |
| Bm25.SaturationBounds | backend/retriever.py:481 | The weight of any number of occurrences is positive and at most k1 + 1 |
| Bm25.ContributionBounds | backend/retriever.py:477-481 | A term contributes between 0 and idf * (k1 + 1), and more than 0 exactly when the document contains it |
| Bm25.ScoreBounds | backend/retriever.py:473-483 | A document scores above 0 exactly when it shares a query token, and at most the query's tokens at full saturation |
| Bm25.ScoredExactly | backend/retriever.py:472-483 | The scored list holds exactly the documents with positive score, once each, in index order |
| Bm25.SearchIsExhaustive | backend/retriever.py:463-486 | A document is returned if and only if it shares a token with the query and fewer than top_k documents rank before it; results are strictly ranked |
| KeywordScores.TermScore | backend/retriever.py:458-481 | The score of one term from cardinalities: ln((n + 1) / (df + 0.5)) * f (k1 + 1) / (f + k1 (1 + b (length / average - 1))) |
| KeywordScores.ScoreAdds | backend/retriever.py:475-481 | Each further query token adds its own score |
| KeywordScores.AverageIsMean | backend/retriever.py:457 | The average length times the number of documents is the number of tokens of all documents |
| KeywordScores.AverageDocumentScore | backend/retriever.py:476-481 | A document of average length scores a term as idf * f (k1 + 1) / (f + k1) |
| KeywordScores.ShorterScoresHigher | backend/retriever.py:474-481 | Of two documents that hold every query token equally often the strictly shorter scores strictly higher if they hold any, and equally if k1 or b is 0 |
| KeywordIndex.BM25Index.Rebuild | backend/retriever.py:440-461 | From any earlier state the counters afterwards describe exactly the given documents |
| KeywordIndex.BM25Index.CountDocuments | backend/retriever.py:449-455 | The counting loop leaves lengths, term counts and document frequencies of exactly the given texts |
| KeywordIndex.BM25Index.Search | backend/retriever.py:463-486 | Search over the counters returns the exhaustive ranking of the documents |
| KeywordIndex.BM25Index.ScoreOf | backend/retriever.py:474-481 | The inner loop computes the counted score from the stored counters |
| KeywordIndex.ChineseRecall | backend/retriever.py:463-486 | An enabled search with top_k at least the number of chunks returns every chunk that contains the all-Chinese query |
| Fusion.RrfFuse | backend/retriever.py:956-970 | The two loops over the score dictionary compute the fused scores in insertion order |
| Fusion.FuseMeans | backend/retriever.py:956-970 | The fused keys are the union of both lists, each once, and a score is the sum of its reciprocal-rank shares |
| Fusion.ShareByRank | backend/retriever.py:964-968 | In a list without repeats an index's share is its weight over k plus its rank, and 0 if absent |
| Fusion.FusionDominance | backend/retriever.py:956-970 | No worse in both lists and strictly better in one means a strictly higher fused score |
| Fusion.FusionBound | backend/retriever.py:956-970 | No fused score exceeds the weights over k + 1, and exactly the first hit of both lists attains it |
| Retrieval.RoundingIsMonotone | backend/retriever.py:883-884 | Rounding to four decimals is monotone |
| Retrieval.GroupByParent | backend/retriever.py:873-888 | On hits sorted by score the grouping loop, replacement branch included, keeps the first hit of every parent |
| Retrieval.GroupsAreMaxima | backend/retriever.py:873-888 | A parent appears at most once, with the maximum of its children's rounded scores |
| Retrieval.EveryHitParentAppears | backend/retriever.py:873-888 | No parent with a hit in range is left out |
| Retrieval.SecondSortIsIdentity | backend/retriever.py:890 | Sorting the grouped results again changes nothing |
| Retrieval.MergeSearchResults | backend/retriever.py:938-954 | The merging loop returns the first top_k distinct results (one if top_k is below 1) |
| Retrieval.DedupKeepsFirsts | backend/retriever.py:946-951 | A result survives if and only if it is the first with its source, page and opening text |
| Retrieval.DedupIsDistinct | backend/retriever.py:947-950 | No two merged results agree in source, page and opening text |
| Retrieval.OverviewIsNotEmpty | backend/retriever.py:897-936 | A non-empty store has an overview result, and the first one scores at least 1 |
| Neighbours.PassingExactly | backend/retriever.py:861-866 | The filter keeps exactly the neighbours that name a row and score enough, in their order |
| Neighbours.VectorHitsExactly | backend/retriever.py:852-866 | The vector hits are rows with their inner products, each once, none below the minimum score; a row that scores enough is missing only if as many rows at least as close as asked for were found |
| VectorIndex.FlatSearchAnswers | backend/retriever.py:670-678 | Ranking all rows by inner product is one search that the vector index may answer with |
| Retrieval.FuseAndGroup | backend/retriever.py:861-891 | The pipeline of fusion, two sorts, grouping and merging returns the specified results |
| SearchMeaning.SearchMeans | backend/retriever.py:870-891 | Without overview and reranker, in the chunks' fields: at most top_k results, descending; each shows the parent text, source and page of the hit that no hit of the same parent outscores, with its rounded fused score; no two agree in source, page and first 160 characters; a hit's parent is missing only behind a listed result of that kind or a full list |
| SearchMeaning.OverviewSearchMeans | backend/retriever.py:846-892 | With overview results these come first, and the rest are results of hits |
| OverviewMeaning.OverviewScoreExactly | backend/retriever.py:923-936 | What raises the overview score: the first two pages, the first parent of a page, and speaking of abstract, introduction or conclusions |
| OverviewMeaning.OverviewMeans | backend/retriever.py:897-921 | One overview result per parent, by its first chunk, in descending order, and a parent is missing only behind a full list that scores no less |
| Retrieval.RoundingIsNearest | backend/retriever.py:879-882 | Scores are rounded to the nearest ten-thousandth, halves to even |
| Reranking.AnswerIsFirstAccepted | backend/retriever.py:542-565 | A reply is used if and only if it is that of an accepted answer before which every model refused for another reason than 401 or 403; there is at most one |
| Reranking.RankItems | backend/retriever.py:571-592 | The reply loop rescores the entries that point to a result, in the order of the reply |
| Reranking.Rerank | backend/retriever.py:521-531 | Reranks by the first usable reply and otherwise falls back to the given order |
| Reranking.RankedExactly | backend/retriever.py:571-592 | The reranked list follows exactly the reply's entries whose index, their own or else their document's, is in range, in their order: each is that result with the entry's first present score, or its own if that is null |
| Reranking.RerankOnlyRescores | backend/retriever.py:521-531 | Whatever the models answer: at most top_k results, none only if none were given, each one as given or with the score of an entry of the used reply that points to it |
| Reranking.RerankFollowsReply | backend/retriever.py:567-596 | With a usable reply the results are the first top_k of its pointing entries, in the order of the reply |
| Reranking.RerankKeepsDistinctExactly | backend/retriever.py:571-596 | Distinct results stay distinct if and only if the first top_k targets of the reply are distinct |
| Reranking.UnusableReplyChangesNothing | backend/retriever.py:594-596 | Without a usable reply the results pass through, cut to top_k |
| KnowledgeBases.KnowledgeBase.RebuildIndex | backend/retriever.py:670-678 | On success rows are the embeddings of the chunks, file and keyword index agree; a failure says which file it leaves |
| KnowledgeBases.KnowledgeBase.SaveAndRebuild | backend/retriever.py:719-720 | The common tail of mutations aligns chunks, rows and keyword counters from any earlier state |
| KnowledgeBases.KnowledgeBase.AddPdf | backend/retriever.py:687-696 | Appends the parsed chunks; aligned when it completes |
| KnowledgeBases.KnowledgeBase.UpsertPdf | backend/retriever.py:707-720 | Replaces the chunks of a source; aligned when it completes, whatever the state before |
| KnowledgeBases.KnowledgeBase.DeleteSource | backend/retriever.py:756-769 | Removes the chunks of the stripped source and counts them; a blank name does nothing; aligned when it completes |
| KnowledgeBases.KnowledgeBase.RebuildFromUploads | backend/retriever.py:729-745 | Replaces all chunks; aligned when it completes |
| KnowledgeBases.KnowledgeBase.Clear | backend/retriever.py:972-976 | Removes all chunks; aligned when it completes |
| KnowledgeBases.KnowledgeBase.LoadOrRebuildIndex | backend/retriever.py:660-668 | Takes over a saved index exactly when dimension and size fit, and rebuilds otherwise |
| KnowledgeBases.KnowledgeBase.Restart | backend/retriever.py:619-668 | A completed restart is aligned if and only if the saved rows are not as many as the chunks yet different from their embeddings |
| KnowledgeBases.RestoredShowsTheSame | backend/retriever.py:635-652 | A chunk that is read back shows the same text, source and page, and keeps its parent |
| KnowledgeBases.StaleExactly | backend/retriever.py:660-668 | Over rows that a mutation wrote, that is the case exactly when the chunks of that mutation are as many as the saved ones and some text embeds differently |
| KnowledgeBases.InterruptedUpsertStaysMisaligned | backend/retriever.py:716-720 | An upsert whose embedding fails, replacing a source by as many chunks, stays misaligned through a restart |
| KnowledgeBases.KnowledgeBase.AlignedHits | backend/retriever.py:852-866 | On an aligned store every vector hit is a chunk with the inner product of its own text, and the keyword counters are those of the chunks' own texts |
| KnowledgeBases.KnowledgeBase.Search | backend/retriever.py:840-895 | From the index's answer for the query: both hit lists name no chunk twice, on an aligned store with the scores of the chunks' own texts, the results are their fusion, grouping, merging and reranking, and without overview and reranker what SearchMeaning says in the chunks' fields |
| HybridSearch.ListsAreDistinct | backend/retriever.py:852-866 | Neither the vector hits nor the keyword hits of a search name a chunk twice |
| HybridSearch.SearchDominance | backend/retriever.py:852-869 | Over aligned indexes a chunk that is ahead of another by each measure that can find the other (strictly closer, or higher in the keyword ranking) is found whenever the other is and then scores strictly higher once fused, whatever the candidate numbers and the minimum score; searches that one index alone answers are included |
| HybridSearch.SearchBound | backend/retriever.py:956-970 | The fusion bound, and exactly when it is attained, for the lists of a search |
| Routing.GradeDocuments | backend/graph.py:335-430 | Grading computes route and kept documents as specified, and never asks for a web search |
| Routing.GradingKeepsEvidence | backend/graph.py:341-430 | Documents stay unless an automatic question is not confident, and one is dropped only if it was judged useless beside a useful one |
| Routing.FoundScoresBounded | backend/retriever.py:956-970 | Without overview results and reranking no result scores above the rounded fusion bound |
| Routing.OverlapExactly | backend/graph.py:225-235 | There is enough overlap exactly if two different tokens of the question, of two characters or more and none of six stopwords, occur in the lowered first 1200 characters of one of the first three documents, or its only such token does |
| Routing.ConfidentExactly | backend/graph.py:217-235 | Local results are trusted exactly if there are any and one scores at least the threshold or there is such overlap |
| Routing.ConfidenceIsOverlap | backend/graph.py:217-235 | When the fusion bound is below the threshold, that overlap alone decides |
| Routing.DefaultsRouteByOverlap | backend/graph.py:371-395 | With default weights and threshold, no overview results and no reranker, an automatic question is answered locally exactly when two of its telling tokens, or its only one, occur in what the search found |
| Routing.OverviewIsAlwaysConfident | backend/retriever.py:923-936 | Without a reranker and with a threshold of at most 1, an overview search of a non-empty store always passes the score test |
| CircuitBreakers.CircuitBreaker.Allow | gateway/internal/circuit.go:22-34 | Refuses exactly when the history semantics does, and clears the breaker when it lets a probe through |
| CircuitBreakers.CircuitBreaker.Success | gateway/internal/circuit.go:36-41 | Clears the breaker; the fields keep saying what the history says |
| CircuitBreakers.CircuitBreaker.Failure | gateway/internal/circuit.go:43-50 | The opening time is set exactly when the failures have reached the threshold |
| CircuitBreakers.CountIsSinceClearing | gateway/internal/circuit.go:22-50 | The failure count is the number of failures since the last clearing call |
| CircuitBreakers.RefusalExactly | gateway/internal/circuit.go:22-50 | On every history a request is refused if and only if at least the threshold of failures followed the last clearing call and the latest is more recent than the timeout |
| CircuitBreakers.ThresholdOpens | gateway/internal/circuit.go:43-50 | On a new breaker as many failures as the threshold says, and at least one, make it refuse until the timeout after the latest |
| CircuitBreakers.RefusalIsTransparent | gateway/internal/circuit.go:25-33 | A refused request does not change later answers, and the first request after the timeout passes |
| CircuitBreakers.ProbeResetsCount | gateway/internal/circuit.go:28-32 | After a probe the breaker refuses again only once the threshold is reached from scratch |
| SlidingWindows.SpacedBoundsEveryWindow | gateway/internal/server.go:226-232 | If any limit + 1 consecutive admissions span a window, every interval one window long holds at most limit of them |
| SlidingWindows.InWindowExactly | gateway/internal/server.go:228-229 | The count of a window is that of the admissions later than its start and not later than its end |
| SlidingWindows.ExpiryIsConsistent | gateway/internal/server.go:231 | When the key has expired, trimming would have emptied the set as well |
| SlidingWindows.AdmissionIsConsistent | gateway/internal/server.go:229-230 | Admitting into a set below the limit keeps all admissions spaced |
| SlidingWindows.Limiter.RemoveOld | gateway/internal/server.go:228 | Trimming and expiry keep the set equal to the admissions of the last window |
| SlidingWindows.Limiter.Script | gateway/internal/server.go:226-232 | Admits exactly when fewer than limit admissions lie in the last window; every window on the whole run holds at most limit |
| SlidingWindows.Limiter.AllowRate | gateway/internal/server.go:234-242 | Without Redis everything passes; with it a call that fails or is not answered refuses, and a refusal by the script means a full window |
| FixedWindows.WindowsOverlapAtMostTwice | backend/services/cache_service.py:72-82 | Any 2 * limit consecutive admissions of a fixed-window counter span at least a window |
| FixedWindows.AdmissionIsTallied | backend/services/cache_service.py:76-79 | Counting one more admission under the present counter keeps the windows separate |
| FixedWindows.Counter.CheckRateLimit | backend/services/cache_service.py:72-85 | Counts and decides by the counter's own window; every failed call passes, also one that was counted; every interval of one window admits at most 2 * limit - 1 by answers of Redis; the counter never vanishes exactly if its first answer or its expiry was lost, and then refuses for ever once full |
| FixedWindows.BurstReachesTheBound | backend/services/cache_service.py:72-82 | For every limit a run attains 2 * limit - 1 admissions within one window |
| Leases.RefreshIsSound | sync-service/internal/lock.go:26 | Expiry of a key keeps every promise of the lock |
| Leases.AcquireIsSound | sync-service/internal/lock.go:20-34 | A section that starts on a free key keeps mutual exclusion |
| Leases.OwnTokenMeansOwnLease | sync-service/internal/lock.go:12 | A lease found under one's own token protects nobody else's running section |
| Leases.StopIsSoundExactly | sync-service/internal/lock.go:36-38 | Deleting a key while stopping keeps every promise if and only if nobody else runs under it with an unexpired lease |
| Leases.AtMostOneHolder | sync-service/internal/lock.go:20-38 | At any time at most one running section per document holds an unexpired lease |
| Leases.OverlapMeansOutlived | sync-service/internal/service.go:188-198 | Sections of one document overlap only if the earlier one outlived its time to live |
| Leases.LockStore.Acquire | sync-service/internal/lock.go:20-34 | SetNX succeeds exactly on a free or expired key; a lost reply may leave a lease but starts no section |
| Leases.LockStore.Release | sync-service/internal/lock.go:36-38 | Removes only the lease with its own token or an expired one, and keeps mutual exclusion |
| Leases.LockStore.BlindDelete | backend/services/cache_service.py:97-101 | The unconditional delete keeps the lock sound if and only if nobody else was running under the key with an unexpired lease |
| Leases.OutlivedLeaseIsShared | sync-service/internal/service.go:188-198 | For every time to live, a run in which a section that outlives its lease is joined by another |
| Leases.BlindDeleteBreaksALease | docs/pitfall.md:5-6 | A run in which a blind delete lets two sections overlap, both within their time to live |
| MemoryCandidates.NormalKeyIsStable | backend/services/memory_service.py:357-359 | A normal key is not empty, has at most 120 characters of the key alphabet, and is its own normal form |
| MemoryCandidates.NormalMemoryIsStable | backend/services/memory_service.py:362-363 | Normal content is its own normal form |
| MemoryForms.NormalMemoryJoinsWords | backend/services/memory_service.py:362-363 | Normal content is the text's words joined by single spaces |
| MemoryForms.NormalKeyJoinsWords | backend/services/memory_service.py:357-359 | A normal key is the stretches of key characters of the lowered key joined by underscores, cut to 120 characters |
| MemoryForms.NormalKeyIsKept | backend/services/memory_service.py:357-359 | A key already in normal form is left as it is |
| MemoryForms.OfferedExactly | backend/services/memory_service.py:236-244 | Exactly the candidates with 1 to 500 characters of normal content count, in order, each under the normal form of its own key or else of the inferred one |
| MemoryForms.InferredKeys | backend/services/memory_service.py:345-354 | A preference without a key is stored under one of two keys, by whether it says "do not like" |
| MemoryCandidates.WinnerAfter | backend/services/memory_service.py:247-250 | One more candidate changes its key's winner unless an explicit one stands against it, and no other key's |
| MemoryCandidates.Deduplicate | backend/services/memory_service.py:235-251 | The loop keeps, for the first five keys, the last explicit candidate or else the last one; stored under their normal keys no two meet |
| Memories.MemoryTable.FindByKey | backend/services/memory_service.py:404-416 | Finds a newest row under the key, or none if there is none |
| Memories.MemoryTable.Upsert | backend/services/memory_service.py:76-111 | Updates a newest live row or inserts a new one, and keeps each live row the newest under its key, whatever the status |
| Memories.MemoryTable.CreateMemory | backend/services/memory_service.py:72-111 | Stores the normal form of the content under the normal form of the given key, or of the inferred one if none is given, by the upsert |
| Memories.MemoryTable.DeleteMemory | backend/services/memory_service.py:146-153 | Rejects the row if it is in the scope, and keeps each live row the newest under its key exactly if it does not stamp a rejected one beside it |
| Memories.MemoryTable.DeactivateAllMemories | backend/services/memory_service.py:156-162 | Rejects, deactivates and stamps every row of the scope and no other |
| Memories.MemoryTable.RecallMemories | backend/services/memory_service.py:210-217 | Counts the use of exactly the picked rows, and keeps one live row per key |
| Memories.StepKeepsLiveNewestExactly | backend/services/memory_service.py:76-162 | Whatever the status and whichever newest row the database picks, one operation keeps the live row of each key newer than all others if and only if it does not delete a rejected, still active row beside a live one |
| Memories.HistoriesKeepLiveNewestExactly | backend/services/memory_service.py:76-162 | On every history each key has had at most one live row, and that the newest, if and only if no operation so far has deleted a rejected, still active row beside a live one |
| Memories.AtMostOneLive | backend/services/memory_service.py:404-416 | Of two rows under a key at most one is live, and a live one is what a lookup finds |
| Memories.CreateIsAnUpsert | backend/services/memory_service.py:76-111 | After creating, lookups under the key find one row, which holds the new content and no lower scores; it is the only live one, or none is if it was created as rejected; no other row moved |
| Memories.CreatedRow | backend/services/memory_service.py:77-111 | Field by field: a request overwrites what it gives, keeps what it leaves open, never lowers a score nor demotes an active memory; a new row starts unused |
| Memories.DeleteKeepsLiveNewestExactly | backend/services/memory_service.py:146-153 | Deleting keeps each live row the newest under its key if and only if it does not stamp an already rejected, still active row beside a live one |
| Memories.HistoriesAreSound | backend/schemas/memory.py:13 | While no memory is created under the status rejected, no history ever stamps a rejected row again: what is rejected is inactive, and each live row is the newest |
| Memories.RejectedCreateBreaksUniqueness | backend/schemas/memory.py:13 | A run: creating under the status rejected, then deleting that row, leaves two live rows under one key |
| Memories.HistoriesGrow | backend/services/memory_service.py:77-90 | Over every history rows keep their keys, confidence and importance never fall, and a rejected row stays rejected |
| Memories.LifecycleIsOneWay | backend/services/memory_service.py:78-81 | Over every history of the service's own statuses a row only moves from candidate to active to rejected |
| Percentiles.PercentileIsMonotone | tools/ragas_observability_eval.py:125-136 | On [0, 100] a higher percentage never gives a lower value |
| Percentiles.PercentileEnds | tools/ragas_observability_eval.py:125-136 | 0 and 100 give the smallest and the largest finite value |
| Percentiles.PercentileInterpolates | tools/ragas_observability_eval.py:131-136 | Between two neighbouring ranks the value lies on the straight line through the two sorted values |
| Percentiles.FiniteValuesExactly | tools/ragas_observability_eval.py:126 | Exactly the finite values count, each as often as it occurs |
| Percentiles.PercentileSplitsTheList | tools/ragas_observability_eval.py:131-136 | More than (n - 1) * pct / 100 values are at most the result, and fewer than one more than that lie below it |
| Percentiles.PercentileRaisesExactly | tools/ragas_observability_eval.py:125-136 | It raises exactly with two or more finite values and a percentage above 100 or below -100 n / (n - 1) |
| Percentiles.SummarizeLatency | tools/ragas_observability_eval.py:318-323 | The reported p50 is at most p95, which is at most the maximum, and all are missing exactly for no latencies |

## Left out

* FAISS, embedding models, PDF extraction, the language model, Tavily and the HTTP, gRPC, Kafka, Redis and SQL clients: their replies are inputs, and only the semantics that the code relies on is modelled (cumulative commit, SetNX with expiry, sorted set, row update).
* IEEE rounding: scores are exact reals, so ties that rounding would create or break are not modelled.
- Redelivery.ReplayConvergence: assumes that no record with changes was abandoned (dead-lettered, or committed past after a failed dead letter; GivenUpLeavesPrefixes says what is then left, and SourceConvergence what holds of the other sources), that parsing a file always gives the same passages, and one partition read by one consumer; rebalancing is not modelled.
- SyncService.IndexDocument: a failed reply may hide an effect, but not one that happens after the caller has already moved on; an RPC that outlives its five-minute deadline is not modelled.
* File deletion inside `delete_source`, upload names and the uploads directory: the parse oracle ignores them, so a deletion that removes the file of a later insertion is not seen.
* Two processes sharing one data directory, and the in-process lock: operations on the knowledge base are atomic.
- KnowledgeBases.KnowledgeBase.Restart: random ids that stand in for missing ones in old chunk files are not modelled; every stored chunk has an id.
- Splitter.SplitBySeparatorsInto: requires chunk_size of at least 1; below that the source's hard split does not terminate.
- Bm25.ScoreBounds: assumes k1 of at least 0 and b in [0, 1], which the configuration does not enforce.
- Fusion.FusionDominance: assumes positive weights and hit lists without repeated indices; HybridSearch.ListsAreDistinct proves the latter of a search.
- KnowledgeBases.KnowledgeBase.Search: the vector index's answer is specified, not computed, and a number of candidates below 1, at which FAISS raises, is not modelled.
- Reranking.Rerank: a negative top_k, which would slice from the end, is not modelled; the answers' bodies are seen after JSON decoding.
- Tokenizer.Tokenize: lowering works character by character, so context-sensitive lowering such as the Greek final sigma is not modelled.
- Changes.DecodeDocumentChanges: upper-casing is exact for characters whose upper case is an ASCII letter, which is all that can complete an operation name; JSON parsing itself is an input.
- Routing.ConfidenceIsOverlap: speaks of searches without overview results and without a reranker, whose scores are arbitrary.
- FixedWindows.Counter.CheckRateLimit: assumes a limit of at least 1 and one clock for all requests of a client.
- Leases.LockStore.Acquire: assumes that 128-bit random tokens do not repeat.
* The document lock inside the consumer: there it only decides whether a call is made; its safety is proved separately in `Leases`.
* Updating a memory through the endpoint (it may rename keys and revive rejected rows), the regular expressions that extract candidates, and the choice of rows to recall.
- Memories.HistoriesKeepLiveNewestExactly: assumes that distinct transactions have distinct times.
* Message headers, tracing, metrics, logging, configuration, authentication, the frontend and deployment files.
