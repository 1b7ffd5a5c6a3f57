# ThriveBot retrieval core in Dafny

This project models the retrieval pipeline of ThriveBot, a Slack question-answering bot, and proves properties of the model. The pipeline has four parts.

- **`TextChunker`** cuts a document into token-budgeted chunks.
  - It splits the text into paragraphs on blank lines and packs them greedily up to `chunk_size` tokens.
  - When a paragraph does not fit, the accumulated paragraphs become a chunk. The next chunk is seeded with the tail of that chunk's text.
  - A paragraph that alone exceeds the budget is cut into sentences, and the sentences are packed without overlap.
  - Every chunk is numbered densely from 0 and records its own `token_count`.
- **`FAISSVectorStore`** is a flat inner-product index kept in step with a list of document payloads. It supports `add`, `search`, `clear`, `size`, `get_stats`, and `save`/`load` under a name.
- **`RAGRetriever`** embeds a query, searches the store, and keeps the hits that reach the score threshold, in order. It then assembles a context of numbered blocks within a token budget.
- **`helpers`** are small string and list utilities: truncation, filename sanitising, whitespace cleaning, list chunking, the token estimate, the source display and key masking.

## Modules

| module | file | contents |
|---|---|---|
| `Outcomes` | outcomes.dfy | `Option`, `Result`, metadata values |
| `Text` | text.dfy | Python string semantics: `str.isspace`, `strip`, `split`, `join`, slice bounds, `str(n)`, and the `len // 4` token estimate |
| `Segmentation` | segmentation.dfy | the two `re.split` patterns of the chunker, followed by strip-and-drop-blank |
| `Chunker` | chunker.dfy | `TextChunk`, `_create_chunk`, `_get_overlap_text`, sentence packing and the paragraph loop of `chunk_text` |
| `ChunkerProperties` | chunker_properties.dfy | the overlap chain, isolation of oversized paragraphs, and conservation of text without overlap |
| `FlatIndex` | flat_index.dfy | `IndexFlatIP`: vectors, inner products, and the best-first ranking (stable by insertion order) |
| `VectorStore` | vector_store.dfy | the store and its operations, persistence over an abstract disk, and the ranking scenario from the tests |
| `Retriever` | retriever.dfy | `retrieve`, `format_context` and `retrieve_and_format` |
| `Helpers` | helpers.dfy | the helper functions |

### Abstractions

- **Normalisation.** `_normalize` is a parameter `normalize: Vector -> Vector`, because L2 norms need square roots. Lemmas that need it state the property they rely on, for example `KeepsLength`.
- **Embedder.** The embedding service is a parameter `embed: string -> Option<Vector>`. `None` stands for any exception it raises.
- **Score rendering.** `{score:.2f}` and `{score:.0%}` are a parameter `render: real -> string`.
- **Errors.** An operation that raises in the source returns `Failure`. Three cases are covered:
  - the `ValueError` of `add`;
  - FAISS's assertion that a query has the index's width;
  - FAISS's assertion that `k > 0` after clamping.
  - The caller keeps the store it had, which matches the source: each raise happens before any assignment.
- **Persistence.** `save` and `load` work on a `Disk`: two maps from a `(store_path, name)` location to an artifact, which is either intact or unreadable.
- **Token counting.** Only the `len(text) // 4` fallback is modelled, as `Text.EstimateTokens`.

## Model

| member | source | states |
|---|---|---|
| Text.EstimateTokens | app/ingestion/chunker.py:57-62 | the token estimate is `len // 4`: four times it is at most the length and more than the length minus four |
| Text.Strip | app/ingestion/chunker.py:131-141 | `strip` removes the longest leading and trailing runs of the class; the result has none of the class at either end, is a contiguous slice of the input, and is empty exactly when every character is in the class |
| Text.StripOfStripped | app/utils/helpers.py:24-30 | stripping a string that has no class character at either end changes nothing |
| Text.VisibleOfStrip | app/utils/helpers.py:39-45 | stripping whitespace removes no non-whitespace character |
| Text.VisibleOfSpaceJoin | app/ingestion/chunker.py:185 | `" ".join(parts)` holds the same non-whitespace characters as the parts in order |
| Text.PyBound | app/utils/helpers.py:64 | a Python slice bound within the length is itself, a negative one within the length counts from the end, one past the end gives the length and one before the start gives 0 |
| Text.Words | app/utils/helpers.py:39-45 | `str.split()` without arguments: the words are non-empty and hold no whitespace |
| Text.WordsConcatVisible | app/utils/helpers.py:39-45 | the words laid end to end are exactly the non-whitespace characters of the string, in order |
| Text.VisibleSkipBlank | app/utils/helpers.py:42 | leading whitespace adds nothing visible |
| Text.WordsSkipBlank | app/utils/helpers.py:45 | leading whitespace does not change the words |
| Text.WordsDropBlank | app/utils/helpers.py:45 | trailing whitespace does not change the words |
| Text.WordsOfStrip | app/utils/helpers.py:45 | stripping whitespace keeps the words |
| Text.WordsOfCons | app/utils/helpers.py:42 | a non-whitespace character put in front starts a new word before whitespace or the end, and otherwise lengthens the first word |
| Text.JoinWith | app/ingestion/chunker.py:185 | `sep.join(parts)` is empty for no parts and otherwise begins with the first part |
| Text.JoinEndsWithLast | app/ingestion/chunker.py:185 | a non-empty join ends with the last part |
| Text.VisibleOfJoinAppend | app/ingestion/chunker.py:185 | joining one more part with a space adds exactly that part's non-whitespace characters |
| Text.JoinCons | app/ingestion/chunker.py:185 | joining a part in front of a non-empty join puts it and one separator before that join |
| Text.NatToStringInjective | app/ingestion/chunker.py:22-25 | different chunk indices render as different decimal strings |
| Segmentation.SpaceRunEnd | app/ingestion/chunker.py:134 | the `\s*` run is maximal: it stops at the end or at a non-whitespace character |
| Segmentation.MatchAt | app/ingestion/chunker.py:134-140 | a paragraph match is a newline, whitespace, and the last newline of the whitespace run (greedy `\s*`), or none when the run holds no further newline; a sentence match starts exactly after `.`, `!` or `?` at whitespace and runs to the end of the whitespace |
| Segmentation.RegexSplit | app/ingestion/chunker.py:134-140 | `re.split` gives at least one piece, no piece holds a match of the pattern, and the pieces keep every non-whitespace character of the text, in order; SplitWithoutMatch and SplitAtFirstMatch fix the pieces on every input |
| Segmentation.MatchInSlice | app/ingestion/chunker.py:134-140 | a position where the text has no match has none in any slice around it either |
| Segmentation.SplitFromHasNoMatch | app/ingestion/chunker.py:134-140 | the split cuts at every match: no piece it emits contains one |
| Segmentation.StripAndDropHasNoMatch | app/ingestion/chunker.py:135-141 | stripping the pieces and dropping blank ones creates no match |
| Segmentation.Paragraphs | app/ingestion/chunker.py:131-135 | every paragraph is non-empty and stripped; PiecesWithoutMatch and PiecesAtFirstMatch with `BlankLine` fix the paragraphs on every input |
| Segmentation.ParagraphsHaveNoBlankLine | app/ingestion/chunker.py:131-135 | the text is cut at every blank line: no paragraph holds a match of `\n\s*\n` |
| Segmentation.Sentences | app/ingestion/chunker.py:137-141 | every sentence is non-empty and stripped; PiecesWithoutMatch and PiecesAtFirstMatch with `SentenceEnd` fix the sentences on every input |
| Segmentation.SentencesHaveNoSentenceEnd | app/ingestion/chunker.py:137-141 | the text is cut after every sentence end: no sentence holds whitespace after `.`, `!` or `?` |
| Segmentation.MatchInSuffix | app/ingestion/chunker.py:134-140 | after whitespace or at the start, a suffix of the text has the same matches, shifted: `\n\s*\n` reads only what follows, and the look-behind at the cut sees whitespace, never `.`, `!` or `?` |
| Segmentation.SplitFromInSuffix | app/ingestion/chunker.py:134-140 | resuming the scan after a match gives the same pieces as splitting the rest of the text afresh |
| Segmentation.SplitWithoutMatch | app/ingestion/chunker.py:134-140 | text holding no match is not cut: `re.split` returns it whole, so `"hello"` gives `["hello"]` |
| Segmentation.SplitAtFirstMatch | app/ingestion/chunker.py:134-140 | the text is cut only at matches: the first piece is the text before the leftmost match, followed by the split of the text after that match |
| Segmentation.StripAndDropAppend | app/ingestion/chunker.py:135-141 | stripping and dropping blank pieces works piece by piece, so it distributes over concatenation |
| Segmentation.PiecesWithoutMatch | app/ingestion/chunker.py:131-141 | text without a blank line is one stripped paragraph, or none if blank; the same for sentences and sentence ends |
| Segmentation.PiecesAtFirstMatch | app/ingestion/chunker.py:131-141 | the paragraphs (sentences) are the stripped text before the first match, unless blank, followed by the paragraphs (sentences) of the text after the match |
| Segmentation.SplitKeepsVisible | app/ingestion/chunker.py:131-141 | splitting, stripping and dropping blanks keeps every non-whitespace character of the text, in order |
| Segmentation.ParagraphsEmptyIffBlank | app/ingestion/chunker.py:131-135 | the text has no paragraphs exactly when it is empty or whitespace only |
| Segmentation.SentencesEmptyIffBlank | app/ingestion/chunker.py:137-141 | the text has no sentences exactly when it is empty or whitespace only |
| Chunker.IdsDistinct | app/ingestion/chunker.py:22-25 | two chunks of one source with different indices have different ids `source::chunk_i` |
| Chunker.CreateChunk | app/ingestion/chunker.py:177-194 | the content is the parts joined with spaces; the chunk carries the source, every caller metadata key, and `token_count` equal to the estimate of its own content, which overrides a caller key of that name |
| Chunker.CharTail | app/ingestion/chunker.py:209-212 | the tail is a suffix of the text: the whole text when it is at most `4 * chunk_overlap` long, otherwise exactly the last `4 * chunk_overlap` characters, and nothing for a non-positive overlap, which is the corrected behaviour (the source's slice differs there, see Findings) |
| Chunker.OverlapTail | app/ingestion/chunker.py:196-212 | there is no tail without parts; otherwise it is the character tail of the parts joined with spaces, so always a suffix of that text |
| Chunker.OverlapTailAgrees | app/ingestion/chunker.py:209-212 | for every positive overlap, the source's `full_text[-chars:]` and the corrected tail agree |
| Chunker.OverlapTailAsWritten | app/ingestion/chunker.py:196-212 | the source's tail is empty without parts and otherwise a suffix of the parts joined with spaces (what it keeps for a non-positive overlap is stated by NonPositiveOverlapRepeatsChunk) |
| Chunker.NonPositiveOverlapRepeatsChunk | app/ingestion/chunker.py:209-212 | with `chunk_overlap <= 0` the source's slice drops the first `-4 * chunk_overlap` characters of the joined text instead of keeping a tail (all of it with 0, nothing when the text is shorter), while the corrected tail is empty |
| Chunker.SentenceStepKeepsInv | app/ingestion/chunker.py:156-168 | one sentence step keeps the greedy invariant: no sentence lost or reordered, no empty group, multi-sentence groups within budget, and a group closed only when the next sentence overflows it |
| Chunker.PackSentencesKeepsInv | app/ingestion/chunker.py:156-168 | the sentence loop keeps the greedy invariant over all sentences |
| Chunker.PackSentences | app/ingestion/chunker.py:151-175 | the groups concatenate back to the sentences and none is empty; a group of two or more sentences stays within `chunk_size`; each group closed before another exceeds the budget together with the next group's first sentence |
| Chunker.CloseLastGroup | app/ingestion/chunker.py:170-173 | closing the last non-empty group keeps every property of the finished groups |
| Chunker.SplitLargeParagraph | app/ingestion/chunker.py:143-175 | one chunk per sentence group, numbered from the start index, each non-empty and carrying the source and metadata |
| Chunker.Flush | app/ingestion/chunker.py:87-92 | an empty accumulator emits nothing; otherwise one chunk, numbered by its position, is appended after the existing ones |
| Chunker.Renumber | app/ingestion/chunker.py:96-98 | each chunk is renumbered by its position in the output, keeping everything else |
| Chunker.Step | app/ingestion/chunker.py:81-114 | one paragraph step only appends chunks; an oversized paragraph leaves the accumulator empty, and any other paragraph ends up last in it |
| Chunker.PackFrom | app/ingestion/chunker.py:81-114 | the paragraph loop only appends chunks, never changing one already emitted |
| Chunker.OversizedKeepsInv | app/ingestion/chunker.py:85-98 | the oversized branch keeps the dense numbering and chunk descriptions, empties the accumulator and emits at least one chunk |
| Chunker.OverflowKeepsInv | app/ingestion/chunker.py:101-111 | the overflow branch keeps the dense numbering and leaves a non-empty accumulator |
| Chunker.StepKeepsInv | app/ingestion/chunker.py:81-114 | every paragraph step keeps the loop invariant and leaves either a chunk or a non-empty accumulator |
| Chunker.PackFromKeepsInv | app/ingestion/chunker.py:81-114 | the whole paragraph loop keeps the invariant, and a non-empty paragraph list leaves some text behind |
| Chunker.ChunkText | app/ingestion/chunker.py:64-129 | blank text gives no chunks and any other text at least one; chunks are numbered 0..n-1 in order, each non-empty, carrying the source, the caller's metadata and its own `token_count` |
| Chunker.ChunkIdsUnique | tests/test_retrieval.py:99-109 | the ids of the chunks of one call are pairwise distinct |
| ChunkerProperties.SplitLargeParagraphKeepsText | app/ingestion/chunker.py:143-175 | the sentence chunks of a paragraph hold every non-whitespace character of the paragraph, in order |
| ChunkerProperties.OversizedParagraphIsIsolated | app/ingestion/chunker.py:85-98 | an oversized paragraph first flushes the accumulator, then appends its sentence chunks holding exactly its text, and leaves the accumulator empty, so no overlap crosses into or out of sentence packing |
| ChunkerProperties.OverflowFlushesAndSeeds | app/ingestion/chunker.py:101-111 | a paragraph overflowing a non-empty accumulator turns it into the next chunk; the new accumulator begins with that chunk's overlap tail and ends with the paragraph |
| ChunkerProperties.StepKeepsLinked | app/ingestion/chunker.py:101-114 | a paragraph within budget keeps the chain: each chunk begins with the tail of the chunk before it, and the accumulator begins with the tail of the last chunk |
| ChunkerProperties.PackFromKeepsLinked | app/ingestion/chunker.py:81-114 | the chain holds over the whole loop when no paragraph is oversized |
| ChunkerProperties.ChunksBeginWithOverlap | app/ingestion/chunker.py:64-129 | when no paragraph exceeds the budget, every chunk after the first begins with the overlap tail of the chunk before it |
| ChunkerProperties.StepConserves | app/ingestion/chunker.py:81-114 | for the corrected chunker with `chunk_overlap <= 0` (an empty overlap tail), each step keeps the emitted chunks plus the accumulator holding exactly the visible text of the paragraphs seen |
| ChunkerProperties.PackFromConserves | app/ingestion/chunker.py:81-114 | for the corrected chunker with `chunk_overlap <= 0`, the paragraph loop loses and duplicates no text |
| ChunkerProperties.ChunksPartitionTextWithoutOverlap | app/ingestion/chunker.py:64-129 | for the corrected chunker with `chunk_overlap <= 0`, the chunks in order hold every non-whitespace character of the text exactly once |
| FlatIndex.Scores | app/retrieval/vector_store.py:107 | the score of each stored vector is its inner product with the query |
| FlatIndex.Insert | app/retrieval/vector_store.py:107 | placing a position into a ranked list keeps it ranked and adds exactly that position |
| FlatIndex.Ranking | app/retrieval/vector_store.py:107 | every stored position appears once, ranked by descending score, ties by insertion order |
| FlatIndex.RankingIsUnique | app/retrieval/vector_store.py:107 | any ranked list of all positions is the ranking, so the ranking is the unique stable descending sort |
| FlatIndex.TopKAreBest | app/retrieval/vector_store.py:104-107 | the first `k` ranked positions rank ahead of every other position |
| FlatIndex.RankedScoresDescend | app/retrieval/vector_store.py:107-114 | scores along a ranked list never increase |
| VectorStore.New | app/retrieval/vector_store.py:22-46 | a new store has the given dimension and path, an empty index of that dimension and no documents |
| VectorStore.Add | app/retrieval/vector_store.py:48-79 | a count mismatch fails; zero items change nothing; otherwise it succeeds exactly when every normalised row has the index's width, appends the rows and documents in order after the existing ones, and keeps vectors and documents in step |
| VectorStore.AddGrowsSize | app/retrieval/vector_store.py:60-73 | rows of the right width, with a length-keeping normalisation, always add, and the size grows by the number of documents |
| VectorStore.HitsOf | app/retrieval/vector_store.py:109-114 | positions without a document are skipped; the rest give their document and score, best first |
| VectorStore.HitsOfSingle | app/retrieval/vector_store.py:109-114 | a single position gives its document and score when a document sits there, and nothing otherwise |
| VectorStore.HitsOfAppend | app/retrieval/vector_store.py:109-114 | the hits of two ranked runs, the first scoring no lower than the second, are the hits of the first followed by those of the second, so each position is kept or skipped on its own |
| VectorStore.Search | app/retrieval/vector_store.py:81-114 | an empty index answers `[]`; a query of the wrong width fails; otherwise it succeeds exactly when `k > 0` and returns the `min(k, n)` best-ranked documents with their scores, best first, every one a stored document |
| VectorStore.SearchSkipsNothingBetter | app/retrieval/vector_store.py:104-114 | no stored document left out of a search scores higher than any returned one |
| VectorStore.Size | app/retrieval/vector_store.py:177-180 | the size is the document count; it equals the number of indexed vectors exactly when the store is in step |
| VectorStore.Clear | app/retrieval/vector_store.py:171-175 | the store is emptied with its dimension and path kept, and index and documents in step |
| VectorStore.ClearedSearchIsEmpty | app/retrieval/vector_store.py:96-98 | after `clear` every search answers `[]` |
| VectorStore.GetStats | app/retrieval/vector_store.py:182-189 | the statistics report the document count, the number of indexed vectors, the dimension and the path; the two counts are equal exactly when the store is in step |
| VectorStore.StatsFollowOperations | app/retrieval/vector_store.py:171-189 | a successful add raises the document count by the documents and the index size by the rows it adds; after clear both are 0 |
| VectorStore.StatsExposeFailedLoad | app/retrieval/vector_store.py:154-189 | after the source's failed load with a readable index and an unreadable document file, the statistics show the loaded index's size next to the old document count |
| VectorStore.Save | app/retrieval/vector_store.py:123-141 | the index and the documents are written under the name, and no other location changes |
| VectorStore.LoadAsWritten | app/retrieval/vector_store.py:150-152 | a missing artifact leaves the store unchanged and reports failure |
| VectorStore.Load | app/retrieval/vector_store.py:143-169 | success is reported exactly when both artifacts exist and read back, and then the store holds what they hold; on failure the store is unchanged |
| VectorStore.LoadAgreesUnlessDocumentsCorrupt | app/retrieval/vector_store.py:154-169 | the source's load and the corrected load agree except when a readable index sits next to an unreadable document file |
| VectorStore.FailedLoadAsWrittenKeepsIndex | app/retrieval/vector_store.py:154-169 | for every store, with a readable index and an unreadable document file, the source's load reports failure but keeps the read index with the old documents: the store changes exactly when that index differs, and stays in step exactly when its size matches the document count; the corrected load leaves the store as it was |
| VectorStore.FailedLoadAsWrittenChangesStore | app/retrieval/vector_store.py:154-169 | an example: a new one-dimensional store that reads a one-vector index next to an unreadable document file reports failure, is changed and out of step, and every search then answers `[]` although the index holds a vector |
| VectorStore.SaveThenLoad | app/retrieval/vector_store.py:123-169 | loading what was saved restores the saved vectors and documents |
| VectorStore.SaveClearLoadRestores | app/retrieval/vector_store.py:123-175 | save, clear, load gives back exactly the saved store |
| VectorStore.CatsRankFirst | tests/test_retrieval.py:26-55 | in the test's store of three unit vectors, the query `[1, 0.1, 0, 0]` with `top_k = 2` returns cats and then dogs |
| Retriever.EffectiveK | app/retrieval/retriever.py:51 | a missing or zero override falls back to the configured `top_k` |
| Retriever.ToRetrieved | app/retrieval/retriever.py:64-69 | a kept hit keeps its score, with content, source and metadata defaulting to `""`, `"unknown"` and `{}` |
| Retriever.ThresholdFilter | app/retrieval/retriever.py:61-69 | only hits at or above the threshold are kept, every such hit is kept, and a descending input stays descending |
| Retriever.KeptHoldsEveryHit | app/retrieval/retriever.py:62-69 | every hit at or above the threshold has its result among the kept ones |
| Retriever.KeptFollowsOrder | app/retrieval/retriever.py:62-69 | the results kept from descending hits descend and score no higher than the first hit |
| Retriever.FilterAppend | app/retrieval/retriever.py:62-69 | filtering distributes over concatenation, so the kept results keep the search order |
| Retriever.Retrieve | app/retrieval/retriever.py:33-81 | a blank query, a failing embedder or a failing search gives `[]`; otherwise the result is the threshold filter of the search hits, descending, within `k` and the store size |
| Retriever.BlankQueryIgnoresEmbedder | app/retrieval/retriever.py:48-49 | a blank query gives `[]` whatever the embedder and the store |
| Retriever.Block | app/retrieval/retriever.py:110-114 | a block begins and ends with a newline and is longer than its content and source together |
| Retriever.CountWithin | app/retrieval/retriever.py:104-123 | the kept count is a prefix within the budget, and the next block would exceed it |
| Retriever.KeptIsLongestFit | app/retrieval/retriever.py:104-123 | every longer prefix of the blocks exceeds the budget |
| Retriever.IncludedBlocks | app/retrieval/retriever.py:104-123 | the included blocks are a prefix of the results' blocks, within the budget, cut at the first block that would exceed it |
| Retriever.FormatContext | app/retrieval/retriever.py:83-125 | no results give the fixed message; otherwise the context is the included blocks joined with `\n---\n`, and it is empty or begins with a newline |
| Retriever.OverBudgetFirstBlockGivesEmpty | app/retrieval/retriever.py:117-125 | when the first block alone exceeds the budget, the context is empty, not the no-results message |
| Retriever.RetrieveAndFormat | app/retrieval/retriever.py:127-141 | the pair is the formatted context of the retrieved results and the results themselves |
| Helpers.TruncateText | app/utils/helpers.py:17-21 | text within the limit is returned unchanged; longer text is a Python-sliced prefix plus the suffix, of length `max_length` when the limit is at least the suffix length |
| Helpers.TruncateIdempotent | app/utils/helpers.py:17-21 | with a limit no shorter than the suffix the result fits the limit, and truncating again changes nothing |
| Helpers.TruncateBelowSuffixExceedsLimit | app/utils/helpers.py:17-21 | for every text longer than a limit shorter than the suffix, the result is longer than the limit; when the negative slice bound stays within the text the result has `len(text) + max_length` characters, so a positive limit makes it longer than the text |
| Helpers.ReplaceInvalid | app/utils/helpers.py:27 | each character of the invalid set becomes `_`, every other character is kept in place, and no invalid character is left |
| Helpers.SanitizeFilename | app/utils/helpers.py:24-30 | no invalid character is left, no dot or space at either end, and the result is the slice of the replaced name between its leading and trailing runs of dots and spaces |
| Helpers.SanitizeIdempotent | app/utils/helpers.py:24-30 | sanitising a sanitised name changes nothing |
| Helpers.CollapseSpaces | app/utils/helpers.py:42 | every whitespace run becomes one space (`CollapsedFrom`): the result is empty exactly when the input is, single-spaced, starts and ends with whitespace exactly when the input does, so a leading or trailing run survives as one space, and has the same non-whitespace characters and the same words as the input |
| Helpers.CollapsedRun | app/utils/helpers.py:42 | a whitespace run at the front contributes nothing visible and no word; what follows it is empty only when the text ends in whitespace, and otherwise starts visibly and ends where the text ends |
| Helpers.CollapseNewlines | app/utils/helpers.py:44 | text without newlines is unchanged |
| Helpers.SingleSpacedHasNoNewline | app/utils/helpers.py:42-44 | after the first substitution no newline is left, so the second substitution never fires |
| Helpers.SingleSpacedIsJoinedWords | app/utils/helpers.py:42-45 | a single-spaced string with no whitespace at either end is its words joined by single spaces |
| Helpers.CleanText | app/utils/helpers.py:39-45 | the result is the input's words joined by single spaces, `" ".join(text.split())`: no whitespace at either end, only single spaces inside, every non-whitespace character in order |
| Helpers.CleanIdempotent | app/utils/helpers.py:39-45 | cleaning clean text changes nothing |
| Helpers.Pieces | app/utils/helpers.py:48-50 | the pieces concatenate back to the list; every piece but the last has `chunk_size` elements, and the last is non-empty and no longer |
| Helpers.ChunkList | app/utils/helpers.py:48-50 | a zero size fails, a negative size gives no pieces, and a positive size gives the pieces |
| Helpers.PiecesAreUnique | app/utils/helpers.py:48-50 | any split with those shapes is the chunk list |
| Helpers.BaseName | app/utils/helpers.py:66-67 | the part after the last `/`: a suffix of the name with no `/`, preceded by a `/` when shorter than the name |
| Helpers.SourceLines | app/utils/helpers.py:63-69 | one line per source up to the Python-sliced `max_sources`, numbered from 1 |
| Helpers.FormatSourcesForDisplay | app/utils/helpers.py:58-71 | no sources give the fixed message; otherwise the lines joined with newlines |
| Helpers.DisplayStartsWithFirstSource | app/utils/helpers.py:58-71 | with a positive limit the display begins with the first source's line |
| Helpers.MaskApiKey | app/utils/helpers.py:74-78 | the mask is always first; an empty or short key gives the mask alone; otherwise the mask is followed by the last `visible_chars` characters; the key is never shown whole |
| Helpers.MaskAgrees | app/utils/helpers.py:74-78 | for a positive count the source's masking and the corrected one agree |
| Helpers.MaskApiKeyAsWritten | app/utils/helpers.py:74-78 | the source's masking: the mask comes first, an empty or short key gives the mask alone, and what follows the mask is a suffix of the key |
| Helpers.MaskAsWrittenRevealsKey | app/utils/helpers.py:76-78 | for every non-empty key and `visible_chars <= 0` the source's `key[-visible_chars:]` drops the first `-visible_chars` characters and shows the rest (the whole key with 0, nothing when the key is shorter), while the corrected masking shows the mask alone |

## Left out

- The tiktoken path of `count_tokens` and `_get_overlap_text`: a foreign tokenizer. Only the `len // 4` estimate and the character branch are modelled.
- FAISS internals, numpy and floating point: scores are exact `real` inner products. `_normalize` is a parameter, so the norm, the `1e-10` floor and the division are not computed.
- The `.faiss` and pickle formats and the joining of on-disk paths. A location is the pair of the store's directory and the name.
- Write failures in `save`: the model's `save` always writes both artifacts.
- The `mkdir` of the constructor, and the `ImportError` when FAISS is missing.
- Logging, everywhere.
- The embedder, the LLM client, the document loader, the Slack bot, the web app, the demo, configuration and the scripts. These are network, filesystem and user-interface code outside the pipeline.
- `format_timestamp` and `extract_urls`: clock and library-regex behaviour.
- The two-decimal and percentage rendering of scores: a parameter `render`.
- Dictionary-shaped documents: a document has the three optional entries `content`, `source` and `metadata`. Other keys are not carried. A result dictionary without `content` would raise `KeyError` in `format_context`, but a `Retrieved` value always has a content.
- ChunkerProperties.ChunksBeginWithOverlap: states the chain only when no paragraph is oversized. Sentence chunks start fresh, without an overlap tail, so a chain across them does not hold. OverflowFlushesAndSeeds states the step property for every input.
- Retriever.FormatContext: states "empty or begins with a newline" for non-empty results rather than "differs from the no-results message". The two are equivalent, because the message begins with `N`.
- Helpers.Pieces: does not state the number of pieces, `ceil(len / chunk_size)`. It states their shapes, and PiecesAreUnique shows that the shapes determine the pieces.
- Helpers.CollapseNewlines: states only the case without newlines, which is the only one `clean_text` reaches after its first substitution.

## Findings

| source | as written | input that shows it | evidently intended | confidence | as-written member | corrected member |
|---|---|---|---|---|---|---|
| app/ingestion/chunker.py:209-212 | `full_text[-chars:]` with `chars = chunk_overlap * 4` | `chunk_overlap = 0`: `full_text[-0:]` is the whole text, so the next chunk repeats the entire previous chunk; `chunk_overlap = -1` (the setting at app/config.py:33 is an unchecked `int`): `full_text[4:]` drops the first four characters and repeats the rest | no overlap when `chunk_overlap` is 0 or negative | high, not executed | Chunker.OverlapTailAsWritten (NonPositiveOverlapRepeatsChunk) | Chunker.OverlapTail (used by ChunkText) |
| app/utils/helpers.py:74-78 | `f"***{key[-visible_chars:]}"` | `mask_api_key("sk-secret", 0)` gives `***sk-secret`; `mask_api_key("sk-secret", -2)` gives `***-secret` | a count of 0 or less shows nothing of the key | high, not executed | Helpers.MaskApiKeyAsWritten (MaskAsWrittenRevealsKey) | Helpers.MaskApiKey |
| app/retrieval/vector_store.py:154-169 | the index is assigned before the documents are unpickled | a readable `.faiss` file next to an unreadable `.pkl` file: `load` returns `False`, but the store keeps the loaded index with its old documents | a failed load leaves the store unchanged | high, not executed | VectorStore.LoadAsWritten (FailedLoadAsWrittenKeepsIndex, FailedLoadAsWrittenChangesStore) | VectorStore.Load |
