# RAG pipeline of the textbook chatbot, modelled in Dafny

The repository is a Docusaurus textbook with a chatbot. Its retrieval-augmented
generation (RAG) back end lives in `my-book/rag` and has two generations of
scripts:

- **Store pipeline.**
  - `ingest.js` turns the markdown of `docs/` into numbered chunks (`chunks.json`), using the helpers of `utils.js`.
  - `embed.js` embeds every chunk one by one into a vector store (`store.json`).
  - `search.js` loads that store once, scores every chunk by cosine similarity against a query vector, and returns the best `topK`. A query without a vector gets a hashed bag-of-words pseudo-embedding.
  - `server.js` answers `POST /api/chat`. It formats the hits into a context, asks a text-generation model (or a keyword template) for a reply, and lists the sources.
- **Embeddings pipeline.**
  - `ingest.mjs` cleans the markdown line by line and cuts it into word chunks of 500 words, keeping those longer than 50 characters.
  - `embed.mjs` embeds them in batches of 32 into `embeddings.json`.
  - `server.mjs` answers `POST /api/rag` with the top 3 excerpts.
- **A/B analytics.** `analytics.js` logs interactions and experiments, summarises each variant (sample size, average rating, average response time) and picks a winner.

Each script is one Dafny module:

| module | file | models |
|---|---|---|
| `Search` | search.dfy | `search.js` |
| `ChatServer` | chat_server.dfy | `server.js` |
| `RagServer` | rag_server.dfy | `server.mjs` |
| `Utils` | utils.dfy | `utils.js` |
| `IngestScript` | ingest_script.dfy | `ingest.js` |
| `EmbedScript` | embed_script.dfy | `embed.js` |
| `IngestPipeline` | ingest_pipeline.dfy | `ingest.mjs` |
| `EmbedPipeline` | embed_pipeline.dfy | `embed.mjs` |
| `Analytics` | analytics.dfy | `analytics.js` |

Shared modules:

| module | holds |
|---|---|
| `Outcomes` | `Option` and `Result` |
| `Seqs` | `filter`, `map`, slicing into groups, flat-map |
| `JsText` | the JavaScript string built-ins the scripts use: `trim`, `split`, `join`, `substring`, `includes`, `replace`, number printing |
| `Vectors` | dot products and normalisation |
| `Ranking` | the stable descending sort and `slice` |
| `Records` | the JSON records that pass between the scripts |

Where the source keeps mutable state, the model is a class:

| class | models |
|---|---|
| `Search.VectorStoreCache` | the cached `vectorStore` of `search.js` |
| `RagServer.EmbeddingsState` | the `embeddings` global of `server.mjs` |
| `Analytics.AnalyticsLog` | the analytics log |

Loops that fill arrays or lists are methods with loop invariants. Each is proved equal to a specification function, and the properties are proved about those functions:

- `Search.GetQueryEmbedding` and `Ranking.SortInPlace` keep the source's `array`.
- `Utils.ChunkTextLoop`, `IngestPipeline.SplitIntoChunks`, `IngestScript.IngestDocuments` and `EmbedPipeline.EmbedChunks` are the other loops.

Opaque parts of the runtime are parameters of the functions that use them:

- the embedding and generation models;
- `Math.sqrt`, `Math.sin` and `Math.round`;
- `toFixed`, `toLowerCase`;
- the regular-expression cleaning of markdown and the sentence splitter;
- `fs`, `path.relative`, ids and timestamps.

Nothing is assumed about these parameters, except for `sqrt`. The cosine lemmas that need real square roots take `IsSqrt(sqrt)` as a hypothesis.

Points where the behaviour of the code differs from what its comments or documentation suggest. The model follows the code:

- `embed.js` records dimension 384 whenever the first stored embedding is missing **or empty**, because of `|| 384` (`EmbedScript.Dimension`).
- `analytics.js` stores a rating of 0 as `null` (`userRating || null`).
  - A 0 rating therefore never counts towards the average rating.
  - An average of exactly 0 is "falsy"; the winner rule then skips ratings and falls through to response time (`Analytics.WinnerOf`).
- In `server.js`, a message whose lower-cased form starts or ends with whitespace yields an empty keyword. The empty keyword matches every context line (`ChatServer.LeadingSpaceMatchesEverything`, `ChatServer.TrailingSpaceMatchesEverything`). The chat client posts the message untrimmed, so a message ending in a space is enough.
- The cosine of `server.mjs` has no length check.
  - A stored vector shorter than the query gives NaN. The sort order of the hits is then engine-defined (`RagServer.UnspecifiedOrder`).
  - A longer stored vector gets its extra entries counted in its magnitude only (`RagServer.MjsCosine`).
- A failing batch in `embed.mjs` aborts the whole run. A failing chunk in `embed.js` is only skipped. Both are modelled as written.

## Model

| member | source | states |
|---|---|---|
| Search.Cosine | my-book/rag/search.js:30-53 | fails with a dimension error exactly when the vectors differ in length; is 0 when either magnitude is 0 |
| Search.CosineSymmetric | my-book/rag/search.js:30-53 | similarity does not depend on the order of the two vectors |
| Search.CosineZeroVector | my-book/rag/search.js:45-50 | an all-zero vector has similarity 0 with every vector of its length, in both orders |
| Search.CosineFormula | my-book/rag/search.js:39-52 | for vectors of equal length, the magnitudes are non-zero exactly when the sums of squares are; the result is then dot / (magnitude A × magnitude B) |
| Search.CosineSelf | my-book/rag/search.js:30-53 | a non-zero vector has similarity exactly 1 with itself |
| Search.CosineSimilarity | my-book/rag/search.js:30-53 | the accumulating loop returns the value that `Cosine` specifies, including the dimension error |
| Search.ToInt32 | my-book/rag/search.js:69 | `hash & hash` yields a signed 32-bit integer congruent to its input modulo 2^32 |
| Search.ToInt32Congruent | my-book/rag/search.js:68-69 | congruent inputs have the same 32-bit value |
| Search.ToInt32Identity | my-book/rag/search.js:69 | a value already in 32-bit range is unchanged |
| Search.HashStep | my-book/rag/search.js:68-69 | one step of the word hash stays in signed 32-bit range |
| Search.HashStepIs31 | my-book/rag/search.js:68-69 | `(hash << 5) - hash + code`, truncated, equals ToInt32(31·hash + code) |
| Search.Hash | my-book/rag/search.js:66-70 | the hash of a word is a signed 32-bit integer |
| Search.HashIsPolynomial | my-book/rag/search.js:66-70 | the word hash is the 32-bit truncation of the base-31 polynomial of the word's character codes |
| Search.EmptyWordHash | my-book/rag/search.js:64-70 | the empty word produced by leading or trailing whitespace hashes to 0 |
| Search.WordHash | my-book/rag/search.js:66-70 | the character loop computes `Hash` |
| Search.AddWord | my-book/rag/search.js:72-74 | the embedding keeps its length; only entry i gains the word's feature for position i |
| Search.RawEmbedding | my-book/rag/search.js:62-75 | the summed word features have exactly `embeddingDimension` entries |
| Search.Normalize | my-book/rag/search.js:77-83 | defines the normalisation step: divide by the magnitude when it is positive, otherwise leave the vector alone; `Search.QueryEmbeddingShape` proves the outcome is a unit vector or the unscaled raw sums |
| Search.QueryEmbedding | my-book/rag/search.js:59-86 | defines `getQueryEmbedding`: the split of the lower-cased query, the summed word features, then `Normalize`; `Search.QueryEmbeddingShape` states its length and norm, and `Search.GetQueryEmbedding` is the loop proved equal to it |
| Search.QueryEmbeddingShape | my-book/rag/search.js:59-86 | the query embedding has `embeddingDimension` entries; it has unit sum of squares when the raw embedding is non-zero, and it is the raw embedding when that is zero |
| Vectors.ScaleToUnit | my-book/rag/search.js:77-83 | dividing every entry by a non-zero magnitude gives sum of squares 1 |
| Search.AddWordInPlace | my-book/rag/search.js:72-74 | the in-place loop over the array leaves it equal to `AddWord` of its old contents |
| Search.SumOfSquares | my-book/rag/search.js:78 | the reduction returns the dot product of the embedding with itself |
| Search.DivideInPlace | my-book/rag/search.js:79-83 | the in-place division leaves the array equal to the old contents scaled by 1/magnitude |
| Search.GetQueryEmbedding | my-book/rag/search.js:59-86 | returns a fresh array whose contents are `QueryEmbedding` of the query |
| Search.ScoreAll | my-book/rag/search.js:95-98 | scoring fails exactly when some stored embedding differs in length from the query; it keeps every chunk in store order, each with its cosine score |
| Search.Rank | my-book/rag/search.js:94-105 | defines `search` on a loaded store: score every chunk, stable descending sort, keep `topK`; `Search.RankProperties`, `Search.RankDominance` and `Search.RankStable` state its error case, size, order and selection |
| Search.RankProperties | my-book/rag/search.js:91-106 | failure happens exactly on a dimension mismatch; the result has min(topK, n) hits, sorted by descending score, each a stored chunk with its own score; a chunk left out scores no higher than any hit |
| Search.RankDominance | my-book/rag/search.js:101-103 | every chunk left out of the top K scores no higher than every returned hit |
| Search.RankStable | my-book/rag/search.js:101-103 | for every score value, the hits with that score followed by the dropped chunks with it are the scored chunks with it, in store order (the sort is stable) |
| Search.ScoreChunks | my-book/rag/search.js:95-98 | the scoring loop returns `ScoreAll` |
| Search.LoadOutcome | my-book/rag/search.js:14-25 | defines what `loadVectorStore` returns: the cached store when there is one, otherwise the file's parsed store or the not-found / parse error; `Search.CacheIsSticky` and `Search.LoadFailure` state its cases |
| Search.CacheAfter | my-book/rag/search.js:15-21 | defines the module-level `vectorStore` after a load: set by the first successful load and never changed after; `Search.CacheIsSticky` and `Search.LoadFailure` state it |
| Search.CacheIsSticky | my-book/rag/search.js:14-25 | once a store is loaded it is cached and returned on every later call, whatever the file then holds |
| Search.LoadFailure | my-book/rag/search.js:17-21 | with no cached store, loading fails exactly when the file is missing or unparsable; a missing file gives the not-found error; a failed load caches nothing |
| Search.VectorStoreCache.constructor | my-book/rag/search.js:9 | the cache starts empty |
| Search.VectorStoreCache.LoadVectorStore | my-book/rag/search.js:14-25 | returns the load outcome and updates the cache as `LoadOutcome`/`CacheAfter` specify |
| Search.VectorStoreCache.Search | my-book/rag/search.js:91-106 | loads the store, then ranks its chunks against the query vector |
| Search.VectorStoreCache.SearchByText | my-book/rag/search.js:111-115 | builds the pseudo-embedding at the store's dimension, then searches with it |
| Ranking.WithScoreAppend | my-book/rag/search.js:101-102 | selecting the items with a given score distributes over concatenation |
| Ranking.InsertPerm | my-book/rag/search.js:101-102 | inserting into the sorted prefix adds exactly the inserted item |
| Ranking.SortDesc | my-book/rag/search.js:101-102 | defines the stable descending sort the comparator `b.score - a.score` asks for, length-preserving; `Ranking.SortDescPerm`, `Ranking.SortDescSorted`, `Ranking.SortDescStable` and `Ranking.StableSortIsSortDesc` state that it is the one stable sort of its input |
| Ranking.SortDescPerm | my-book/rag/search.js:101-102 | sorting is a permutation |
| Ranking.InsertSorted | my-book/rag/search.js:101-102 | inserting into a descending sequence keeps it descending |
| Ranking.SortDescSorted | my-book/rag/search.js:101-102 | the sorted sequence is in descending score order |
| Ranking.InsertWithScore | my-book/rag/search.js:101-102 | an insertion places the new item after every earlier item of equal score |
| Ranking.SortDescStable | my-book/rag/search.js:101-102 | for every score, the items with that score keep their input order |
| Ranking.FirstIsMax | my-book/rag/search.js:101-102 | the first item of a descending sequence has the largest score present |
| Ranking.SortedUnique | my-book/rag/search.js:101-102 | two descending sequences that agree per score are equal |
| Ranking.StableSortIsSortDesc | my-book/rag/search.js:101-102 | any stable descending sort of the input equals `SortDesc`, so the model fixes the one order `Array.prototype.sort` must produce |
| Ranking.SliceEnd | my-book/rag/search.js:103 | `slice(0, k)` keeps min(k, n) items for k ≥ 0 and drops |k| items from the end for k < 0 |
| Ranking.TopK | my-book/rag/search.js:101-103 | defines sort-then-`slice(0, k)`; `Ranking.TopKProperties` and `Ranking.TopKStable` state its size, order and which items it keeps |
| Ranking.TopKProperties | my-book/rag/search.js:101-103 | the top K has min(K, n) items, is descending, is a sub-multiset of the input, and scores at least as high as every dropped item |
| Ranking.TopKStable | my-book/rag/search.js:101-103 | per score, the kept and dropped items together are the input's items of that score, in input order |
| Ranking.InsertInPlace | my-book/rag/search.js:101-102 | shifting one element into the sorted array prefix gives `Insert` and leaves the rest untouched |
| Ranking.SortInPlace | my-book/rag/search.js:101-102 | the in-place insertion sort leaves the array equal to `SortDesc` of its old contents |
| ChatServer.Block | my-book/rag/server.js:100-104 | a context block starts with `[n] (c% match) ` and contains `[section] title`, a newline and the first 400 characters of the text, and ends with `...` |
| ChatServer.Blocks | my-book/rag/server.js:99-104 | one block per hit, numbered from 1 in hit order |
| ChatServer.FormatContext | my-book/rag/server.js:98-106 | defines `formatContext`: one numbered block per hit, joined by the separator; `ChatServer.FormatContextLength` states its empty case, length and first characters |
| ChatServer.FormatContextLength | my-book/rag/server.js:98-106 | an empty hit list gives an empty context; otherwise the context is the blocks joined by the separator, so its length is their total plus the separators, and it starts with `[1] (` |
| ChatServer.Keywords | my-book/rag/server.js:80 | defines the keyword list `query.toLowerCase().split(/\s+/)`; `ChatServer.LeadingSpaceMatchesEverything` and `ChatServer.TrailingSpaceMatchesEverything` state its empty-keyword cases, `ChatServer.RelevantLines` its use |
| ChatServer.Relevant | my-book/rag/server.js:85 | defines the test `keywords.some(kw => line.toLowerCase().includes(kw))`; `ChatServer.RelevantLines` and `ChatServer.NoMatchingLine` state the lines it selects |
| ChatServer.RelevantLines | my-book/rag/server.js:80-86 | at most 3 lines, each a line of the context that is not blank and contains some keyword of the lower-cased query |
| ChatServer.RelevantLinesEmpty | my-book/rag/server.js:81-88 | no line is relevant exactly when no non-blank context line contains a keyword |
| ChatServer.NoMatchingLine | my-book/rag/server.js:81-88 | filtering the lines for non-blank ones and then for keyword matches keeps nothing exactly when no line is both |
| ChatServer.RelevantInContextOrder | my-book/rag/server.js:84-86 | the relevant lines are the first min(3, all) of the matching lines, in context order |
| ChatServer.LeadingSpaceMatchesEverything | my-book/rag/server.js:80-85 | a query whose lower-cased form starts with whitespace makes every line relevant |
| ChatServer.TrailingSpaceMatchesEverything | my-book/rag/server.js:80-85 | a query whose lower-cased form ends with whitespace makes every line relevant |
| ChatServer.TemplateResponse | my-book/rag/server.js:79-93 | with relevant lines, the reply is the header followed by those lines joined by blank lines; otherwise it is the fallback text plus the first 500 characters of the context and `...` |
| ChatServer.GenerateResponse | my-book/rag/server.js:43-74 | without a model, or when generation throws, the reply is the template response; a generated reply is trimmed |
| ChatServer.GeneratedAfterPrompt | my-book/rag/server.js:63-69 | when the generated text starts with the prompt, the reply is the trimmed continuation after it |
| ChatServer.Sources | my-book/rag/server.js:136-141 | one source per hit, in hit order, with title, section, file and rounded confidence |
| ChatServer.ValidMessage | my-book/rag/server.js:115 | defines the guard `!message \|\| typeof message !== 'string'` negated: a non-empty string; `ChatServer.ChatOutcome` states that the 400 answer comes exactly when it fails |
| ChatServer.ChatOutcome | my-book/rag/server.js:111-155 | a missing or non-string message gives 400; a failing search gives 500 with the apology reply; otherwise the answer is a reply |
| ChatServer.ChatReply | my-book/rag/server.js:119-146 | for a valid message and a successful search of min(4, n) hits: no stored chunks gives the no-match reply with no sources; otherwise the reply is generated from the formatted context and the sources list the hits |
| ChatServer.HandleChat | my-book/rag/server.js:111-155 | the handler returns `ChatOutcome` and touches the store cache only when the message is valid |
| RagServer.MjsCosine | my-book/rag/server.mjs:30-40 | the score is 0 when either magnitude is 0; it is NaN (`None`) exactly when the stored vector is shorter than the query and both magnitudes are non-zero |
| RagServer.MjsCosineAgrees | my-book/rag/server.mjs:30-40 | on vectors of equal length, it equals the cosine of search.js |
| RagServer.Scores | my-book/rag/server.mjs:92-97 | one hit per record in record order, carrying its id, text, source and score |
| RagServer.TopSimilar | my-book/rag/server.mjs:91-104 | defines `findTopSimilar`: score, stable descending sort, `slice(0, k)`, undefined when a score is NaN; `RagServer.TopSimilarProperties`, `RagServer.TopSimilarDominance` and `RagServer.TopSimilarStable` state when it is defined and its size, order and selection |
| RagServer.TopSimilarProperties | my-book/rag/server.mjs:91-104 | the order is unspecified exactly when some score is NaN; otherwise there are min(k, n) hits, in descending order, each the hit of some record, drawn from the scores without repetition (sub-multiset), and every record left out scores no higher than every hit: the hits are the top k |
| RagServer.TopSimilarDominance | my-book/rag/server.mjs:99-103 | every record whose hit is not returned scores no higher than every returned hit |
| RagServer.TopSimilarStable | my-book/rag/server.mjs:100 | for every score value, the hits kept followed by those cut off are the records' hits of that score, in record order (the sort is stable) |
| RagServer.ScoresDefined | my-book/rag/server.mjs:30-40 | stored vectors no shorter than the query give defined scores; on equal lengths these are the search.js cosines |
| RagServer.ExcerptText | my-book/rag/server.mjs:155 | a text of at most 300 characters is kept whole; a longer one is cut to 300 characters plus `...` |
| RagServer.Excerpts | my-book/rag/server.mjs:154-158 | one excerpt per hit, in hit order |
| RagServer.ValidQuery | my-book/rag/server.mjs:131 | defines the guard `!query \|\| typeof query !== 'string' \|\| query.trim().length === 0` negated; `RagServer.RagOutcome` states that the 400 answer comes exactly when it fails |
| RagServer.RagOutcome | my-book/rag/server.mjs:126-168 | 400 exactly for a missing, non-string or blank query; 503 exactly for a valid query with no embeddings; 500 exactly when embedding the query throws; otherwise the query is echoed cut to 100 characters |
| RagServer.ExcerptsFromRecords | my-book/rag/server.mjs:152-158 | every excerpt is the excerpt of some record's text, with that record's source |
| RagServer.RagFound | my-book/rag/server.mjs:146-160 | a successful answer's results are exactly the excerpts of the `TopSimilar` hits for the embedded query with k = 3, in that order; there are min(3, n) of them, each taken from a loaded record |
| RagServer.EmbeddingsState.constructor | my-book/rag/server.mjs:24 | no embeddings are loaded at start |
| RagServer.EmbeddingsState.LoadEmbeddings | my-book/rag/server.mjs:45-55 | succeeds exactly when the file parses to a non-empty list; a parsed file replaces the embeddings, and a failed read keeps the old ones |
| RagServer.EmbeddingsState.FindTopSimilar | my-book/rag/server.mjs:91-104 | the scoring, sort and slice return `TopSimilar` of the loaded embeddings |
| RagServer.EmbeddingsState.HandleRag | my-book/rag/server.mjs:126-168 | the handler answers `RagOutcome` over the loaded embeddings |
| Utils.GlueEmpty | my-book/rag/utils.js:75 | gluing sentences with `currentChunk ? ' ' : ''` gives "" exactly when every sentence is "" |
| Utils.GlueIsJoin | my-book/rag/utils.js:75 | gluing non-empty sentences is joining them with single spaces |
| Utils.ChunkText | my-book/rag/utils.js:64-84 | every chunk is trimmed |
| Utils.ChunkTextPartition | my-book/rag/utils.js:64-84 | the sentence groups, in order, are exactly the input sentences; every chunk is the trimmed glue of one non-empty group, and the last group gives a chunk only when it is not blank |
| Utils.ChunkCount | my-book/rag/utils.js:64-84 | there are never more chunks than sentences |
| Utils.GroupOverBudget | my-book/rag/utils.js:70-76 | a group that fits the budget rule but whose chunk exceeds the size is a single sentence |
| Utils.ChunkOverBudget | my-book/rag/utils.js:64-84 | every chunk longer than `chunkSize` is one whole trimmed sentence |
| Utils.ChunkTextBlank | my-book/rag/utils.js:79-81 | a single blank sentence gives no chunk |
| Utils.StepTexts | my-book/rag/utils.js:71-76 | one sentence either closes the current chunk and starts a new one with it, or is appended to the current chunk |
| Utils.ChunkStep | my-book/rag/utils.js:71-76 | the loop body updates the chunk list and the current chunk as `Step` specifies |
| Utils.ChunkTextLoop | my-book/rag/utils.js:64-84 | the `forEach` loop returns `ChunkText` |
| Utils.FinalPush | my-book/rag/utils.js:79-83 | after the loop, the chunks are `ChunkText` of all sentences: the last chunk is pushed, trimmed, only when it is not blank |
| Utils.Section | my-book/rag/utils.js:91 | the section is one path component |
| Utils.SectionOfComponents | my-book/rag/utils.js:91 | for a path of two or more components, the section is its parent directory name |
| Utils.SectionOfBareName | my-book/rag/utils.js:91 | a path of one component is its own section |
| Utils.Basename | my-book/rag/utils.js:94 | the basename is one path component |
| Utils.LastComponentAfterSlash | my-book/rag/utils.js:94 | the last component of `dir/name` is `name` |
| Utils.BasenameOfMarkdown | my-book/rag/utils.js:94 | `path.basename(dir/name.md, '.md')` is `name` |
| Utils.LeadingDigits | my-book/rag/utils.js:94 | counts exactly the digits at the start of the string |
| Utils.StripNumbered | my-book/rag/utils.js:94 | `replace(/^\d+-/, '')` removes a leading `digits-` prefix |
| Utils.StripUnnumbered | my-book/rag/utils.js:94 | a name that does not start with a digit is unchanged |
| Utils.ReplaceDashes | my-book/rag/utils.js:94 | every dash becomes a space; the length and all other characters are unchanged |
| Utils.FilenameTitleOfNumbered | my-book/rag/utils.js:94 | the filename title of `dir/NN-name.md` is `name` with dashes turned into spaces |
| Utils.TitleAt | my-book/rag/utils.js:95 | a title match at position i starts with `title:` and captures a non-empty text without `"` |
| Utils.FindTitleLeftmost | my-book/rag/utils.js:95 | the title found is the match at the leftmost matching position; no match means no position matches |
| Utils.FindTitleAt | my-book/rag/utils.js:95 | a title that is found is the match at some position, and no earlier position matches |
| Utils.FindTitleNowhere | my-book/rag/utils.js:95 | when no title is found, the pattern matches at no position |
| Utils.ExtractMetadata | my-book/rag/utils.js:89-103 | the section is the parent directory and the file is the path relative to the working directory |
| Utils.TitlePrecedence | my-book/rag/utils.js:95-96 | a `title: "..."` in the content wins; without one the title comes from the filename |
| Utils.TokenCount | my-book/rag/utils.js:108-110 | the count is the ceiling of a quarter of the length |
| Utils.FormatChunk | my-book/rag/utils.js:115-121 | keeps the text and metadata and counts tokens as `ceil(length / 4)` |
| JsText.Trim | my-book/rag/ingest.mjs:58 | the result is trimmed, no longer than the input, empty exactly for an all-whitespace input, and the input itself when already trimmed |
| JsText.TrimIdempotent | my-book/rag/ingest.mjs:58 | trimming twice is trimming once |
| JsText.Split | my-book/rag/ingest.mjs:57 | at least one part; no part contains the separator |
| JsText.SplitWs | my-book/rag/ingest.mjs:70 | `split(/\s+/)` gives at least one part and no part contains whitespace |
| JsText.SplitWsTrailing | my-book/rag/server.js:80 | `split(/\s+/)` of a string ending in whitespace has at least two parts, the last of them empty |
| JsText.JoinSplit | my-book/rag/ingest.mjs:56-60 | joining the parts of a split with its separator gives back the string |
| JsText.SplitJoin | my-book/rag/ingest.mjs:56-60 | splitting a join of separator-free parts gives back the parts |
| JsText.JoinLength | my-book/rag/server.js:105 | a join is as long as its parts plus one separator between each pair |
| JsText.Prefix | my-book/rag/server.mjs:153 | `substring(0, n)` keeps min(n, length) leading characters |
| JsText.IndexOf | my-book/rag/server.js:69 | finds the first occurrence of a pattern at or after a position, or reports none |
| JsText.NatToString | my-book/rag/ingest.js:41 | a decimal numeral is non-empty, all digits, and has two or more digits exactly for n ≥ 10 |
| JsText.NatToStringInjective | my-book/rag/ingest.js:41 | different numbers print differently |
| JsText.IntToString | my-book/rag/server.js:103 | an integer prints with a leading `-` exactly when it is negative |
| IngestScript.DashAtDigits | my-book/rag/ingest.js:41 | in `digits-rest` the first dash follows the digits |
| IngestScript.ChunkId | my-book/rag/ingest.js:41 | defines the id `` `${index}-${chunkIndex}` ``; `IngestScript.ChunkIdInjective` states that it determines both numbers |
| IngestScript.ChunkIdInjective | my-book/rag/ingest.js:41 | the id `${index}-${chunkIndex}` determines both numbers |
| IngestScript.ChunkRecordsUniqueIds | my-book/rag/ingest.js:39-47 | the records one file pushes have pairwise distinct ids |
| IngestScript.ChunkRecords | my-book/rag/ingest.js:39-47 | one record per chunk, in chunk order, with id, text, shared metadata, chunk index and character length |
| IngestScript.SpanSplit | my-book/rag/ingest.js:26-55 | the records of a file range are those of its two halves, in file order |
| IngestScript.SpanSkip | my-book/rag/ingest.js:26-55 | a file that contributes no chunk leaves the records of the files around it as they are |
| IngestScript.Kept | my-book/rag/ingest.js:27-34 | defines which files are chunked: read without throwing and at least 50 cleaned characters long; `IngestScript.SkippedFile` states that the others contribute nothing |
| IngestScript.SkippedFile | my-book/rag/ingest.js:27-34 | a file that cannot be read, or whose cleaned text is shorter than 50 characters, contributes nothing |
| IngestScript.Origin | my-book/rag/ingest.js:26-47 | every record comes from one file of the range and is that file's record for its chunk index |
| IngestScript.SpanIdsUnique | my-book/rag/ingest.js:41 | no two records of a file range share an id |
| IngestScript.AllChunks | my-book/rag/ingest.js:26-47 | defines the records the `forEach` over the files pushes; `IngestScript.AllChunksProperties` and `IngestScript.SkippedFile` state where each record comes from and which files give none |
| IngestScript.AllChunksProperties | my-book/rag/ingest.js:26-55 | every record comes from a file that was read and long enough, and is that file's chunk with its metadata; all ids are distinct |
| IngestScript.SpanAt | my-book/rag/ingest.js:26-47 | the records of a file sit, in chunk order, between those of the files before it and after it |
| IngestScript.KeptFileIncluded | my-book/rag/ingest.js:26-47 | a file that is read and long enough contributes every one of its chunks, with id `i-j`, its metadata, index and length, at its file-then-chunk position |
| IngestScript.PushChunks | my-book/rag/ingest.js:39-47 | the inner loop appends exactly the file's chunk records |
| IngestScript.IngestDocuments | my-book/rag/ingest.js:17-65 | a failing directory walk aborts the run; otherwise the result is `AllChunks` of the listing, and the total equals the number of records |
| EmbedScript.Dimension | my-book/rag/embed.js:85 | the first stored embedding's length, or 384 when there is none or it is empty |
| EmbedScript.MakeStore | my-book/rag/embed.js:82-89 | the store has version `1.0`, the model id, the embedded chunks, their count and `Dimension` |
| EmbedScript.EmbedResult | my-book/rag/embed.js:41-97 | a store is saved exactly when the chunks file parses and the model loads; its chunks are `Embedded` of the input |
| EmbedScript.Embedded | my-book/rag/embed.js:57-77 | defines the chunks the embedding loop keeps; `EmbedScript.EmbeddedIsFilter` and `EmbedScript.EmbeddedVectors` state which chunks and which vectors |
| EmbedScript.EmbeddedIsFilter | my-book/rag/embed.js:60-77 | the stored chunks are the input chunks, in order, without those whose embedding threw |
| EmbedScript.EmbeddedVectors | my-book/rag/embed.js:63-68 | every stored chunk carries the embedding the model gave its text |
| EmbedScript.AllEmbedded | my-book/rag/embed.js:60-77 | when no embedding throws, every chunk is stored |
| EmbedScript.GenerateEmbeddings | my-book/rag/embed.js:41-97 | the script's loop returns `EmbedResult` |
| IngestPipeline.CleanedLines | my-book/rag/ingest.mjs:56-59 | defines the kept lines: split on newlines, trimmed, empty ones dropped; `IngestPipeline.CleanedLinesShape` states their shape |
| IngestPipeline.CleanedLinesShape | my-book/rag/ingest.mjs:56-60 | every kept line is non-empty, trimmed and holds no newline |
| IngestPipeline.CleanLines | my-book/rag/ingest.mjs:56-60 | defines the line pass of `cleanMarkdown`: the kept lines joined by newlines; `IngestPipeline.CleanLinesLines` and `IngestPipeline.CleanLinesIdempotent` state its lines and idempotence |
| IngestPipeline.CleanLinesLines | my-book/rag/ingest.mjs:56-60 | the cleaned text is empty exactly when no line is kept; otherwise its lines are the kept lines, each non-empty and trimmed |
| IngestPipeline.CleanLinesIdempotent | my-book/rag/ingest.mjs:56-60 | cleaning cleaned text changes nothing |
| IngestPipeline.GroupSize | my-book/rag/ingest.mjs:75-83 | the effective group size is `chunkSize` when positive and 1 otherwise (`wordCount >= chunkSize` after one word) |
| IngestPipeline.WordGroups | my-book/rag/ingest.mjs:70-88 | the groups, in order, are exactly the words; each is non-empty; all but the last hold exactly `chunkSize` words |
| IngestPipeline.RawChunks | my-book/rag/ingest.mjs:70-88 | defines the word groups of `splitIntoChunks` before the length filter; `IngestPipeline.RawChunksJoin` states that they rebuild the words, `IngestPipeline.Chunks` that `splitIntoChunks` keeps exactly those longer than 50 characters, and `IngestPipeline.SplitIntoChunks` is the loop proved to produce them |
| IngestPipeline.Chunks | my-book/rag/ingest.mjs:69-91 | the chunks are exactly the raw chunks longer than 50 characters |
| IngestPipeline.JoinGroups | my-book/rag/ingest.mjs:80-87 | joining the joined groups with spaces is joining all words with spaces |
| IngestPipeline.RawChunksJoin | my-book/rag/ingest.mjs:69-88 | the raw chunks joined with spaces rebuild the words joined with spaces: no word is lost or moved |
| IngestPipeline.EmptyTextNoChunks | my-book/rag/ingest.mjs:69-91 | empty text gives no chunk |
| IngestPipeline.SplitIntoChunks | my-book/rag/ingest.mjs:69-91 | the word loop returns `Chunks` |
| IngestPipeline.RecordsOf | my-book/rag/ingest.mjs:118-124 | one record per chunk, in order, with the text, the relative source and the length |
| IngestPipeline.IngestResult | my-book/rag/ingest.mjs:96-145 | a failing directory walk aborts (exit 1); an empty listing writes nothing; otherwise the records of all files are written |
| IngestPipeline.IngestRecords | my-book/rag/ingest.mjs:111-130 | defines the records the file loop of `ingest` collects; `IngestPipeline.IngestRecordsShape`, `IngestPipeline.FailingFileSkipped` and `IngestPipeline.IngestResult` state their shape and the skipping of failing files |
| IngestPipeline.FailingFileSkipped | my-book/rag/ingest.mjs:112-130 | a file whose read throws contributes nothing, and the other files' records are unchanged |
| IngestPipeline.FileRecordsShape | my-book/rag/ingest.mjs:114-124 | a file's records exist only when it was read; each has length equal to its text, longer than 50, with the file's relative path as source |
| IngestPipeline.IngestRecordsShape | my-book/rag/ingest.mjs:110-130 | every written record has length equal to its text, is longer than 50, and has the source of some file that was read |
| IngestPipeline.FileRecordsIncluded | my-book/rag/ingest.mjs:112-124 | every file's records appear in the run, in chunk order, between the records of the files before and after it |
| IngestPipeline.PushRecords | my-book/rag/ingest.mjs:118-124 | the inner loop appends exactly the file's records |
| IngestPipeline.Ingest | my-book/rag/ingest.mjs:96-145 | the script's loop returns `IngestResult` |
| EmbedPipeline.Batches | my-book/rag/embed.mjs:55-57 | the batches, in order, are exactly the chunks, each batch holding 1 to 32 chunks |
| EmbedPipeline.BatchIsSlice | my-book/rag/embed.mjs:55-56 | batch g is `chunks.slice(32g, min(32g + 32, n))` |
| EmbedPipeline.BatchCount | my-book/rag/embed.mjs:55 | there is a batch g exactly when 32g < n |
| EmbedPipeline.ProcessedCount | my-book/rag/embed.mjs:81 | the logged count after batch g is the number of chunks in batches 0..g; it grows with every batch and reaches n at the last |
| EmbedPipeline.BatchVectors | my-book/rag/embed.mjs:61-69 | a batch has vectors exactly when the extractor succeeds and returns at least one result per chunk |
| EmbedPipeline.BatchRecords | my-book/rag/embed.mjs:67-78 | one record per chunk of the batch, with consecutive ids from the offset, the chunk's text, source and length, and its vector |
| EmbedPipeline.EmbedRun | my-book/rag/embed.mjs:55-90 | defines the records of the batch loop, or failure once a batch throws; `EmbedPipeline.EmbedRunFails`, `EmbedPipeline.EmbedRunRecords` and `EmbedPipeline.EmbedRunVectors` state when it fails and what each record holds |
| EmbedPipeline.EmbedRunFails | my-book/rag/embed.mjs:84-87 | the run fails exactly when some batch fails |
| EmbedPipeline.EmbedRunLength | my-book/rag/embed.mjs:55-90 | a successful run has one record per chunk |
| EmbedPipeline.EmbedRunRecords | my-book/rag/embed.mjs:67-78 | record p has id p and the text, source and length of chunk p |
| EmbedPipeline.EmbedRunPrefix | my-book/rag/embed.mjs:55-90 | the records after the first g batches are a prefix of the final records |
| EmbedPipeline.EmbedRunStep | my-book/rag/embed.mjs:55-88 | one more batch appends its records, numbered from the current count |
| EmbedPipeline.EmbedRunVectors | my-book/rag/embed.mjs:67-77 | the vectors of batch g are the extractor's results, in order, at that batch's offset |
| EmbedPipeline.EmbedChunksProperties | my-book/rag/embed.mjs:49-91 | a successful run has one record per chunk; record p has id p and the text, source and length of chunk p |
| EmbedPipeline.PushBatch | my-book/rag/embed.mjs:67-78 | the inner loop appends the batch's records with ids equal to their positions |
| EmbedPipeline.EmbedChunks | my-book/rag/embed.mjs:49-91 | the batch loop returns `EmbedRun` of the batches |
| EmbedPipeline.EmbedOutcome | my-book/rag/embed.mjs:96-130 | an empty chunk list writes nothing; an unreadable chunks file fails; otherwise the run writes the records exactly when the model loads and every batch succeeds |
| EmbedPipeline.Embed | my-book/rag/embed.mjs:96-130 | the script returns `EmbedOutcome` |
| Analytics.OrDefault | my-book/rag/analytics.js:42 | `x \|\| d` on a string: the default replaces a missing or empty value |
| Analytics.NewInteraction | my-book/rag/analytics.js:39-50 | the variant defaults to `A`; missing sources are empty and missing metadata is empty; a rating is kept exactly when it is present and non-zero; the other fields are copied |
| Analytics.NewExperiment | my-book/rag/analytics.js:62-78 | a new experiment is `running`, lasts `7 days` unless told otherwise, and starts with empty tallies for both variants |
| Analytics.AnalyticsLog.constructor | my-book/rag/analytics.js:9-20 | the log starts with no experiments and no interactions |
| Analytics.AnalyticsLog.TrackInteraction | my-book/rag/analytics.js:36-56 | appends exactly one interaction record, leaves the experiments alone and returns its id |
| Analytics.AnalyticsLog.CreateExperiment | my-book/rag/analytics.js:59-87 | appends exactly one experiment, leaves the interactions alone and returns its id |
| Analytics.SumAppend | my-book/rag/analytics.js:137 | the sum of concatenated values is the sum of the sums |
| Analytics.Mean | my-book/rag/analytics.js:136-142 | defines the average `reduce((a, b) => a + b, 0) / length` of a non-empty list; `Analytics.MeanBounds` states that it lies between the smallest and largest value |
| Analytics.MeanBounds | my-book/rag/analytics.js:136-142 | an average lies between the smallest and largest value averaged |
| Analytics.CalculateStats | my-book/rag/analytics.js:119-152 | an empty list gives sample size 0 and null averages; otherwise the ratings are the non-null ratings in order, their count is reported, the average rating exists exactly when there are ratings and is their rounded mean, and the average response time is the rounded mean with missing times as 0 |
| Analytics.Ratings | my-book/rag/analytics.js:130-132 | defines the non-null ratings in log order; `Analytics.RatingsConcat`, `Analytics.RatingsNonZero` and `Analytics.CalculateStats` state how they combine and what they hold |
| Analytics.RatingsConcat | my-book/rag/analytics.js:130-132 | the ratings of concatenated logs are concatenated |
| Analytics.RatingsAppend | my-book/rag/analytics.js:130-132 | one more interaction adds its rating at the end when it has one, and nothing otherwise |
| Analytics.RatingsNonZero | my-book/rag/analytics.js:48 | in a log written by `trackInteraction`, no kept rating is 0 |
| Analytics.MissingResponseTimeIsZero | my-book/rag/analytics.js:134 | a missing response time gives the same statistics as a response time of 0 |
| Analytics.ConfidenceOf | my-book/rag/analytics.js:176-178 | confidence is High exactly when both variants have at least 30 samples |
| Analytics.WinnerOf | my-book/rag/analytics.js:155-198 | fewer than 10 samples on either side gives no winner with the not-enough-data reason; ratings decide exactly when both averages are truthy (A wins exactly when its average is higher); otherwise response times decide exactly when both are truthy (A wins exactly when its time is lower); otherwise no comparable metrics |
| Analytics.DetermineWinner | my-book/rag/analytics.js:155-198 | too few interactions on either side gives no winner; a ratings verdict needs ratings on both sides; confidence follows the sample sizes |
| Analytics.WinnerSwap | my-book/rag/analytics.js:168-195 | swapping the variants flips the winner when the compared values differ; a tie goes to B in both orders |
| Analytics.FindExperiment | my-book/rag/analytics.js:92 | none exactly when no experiment has the id; otherwise the first experiment with that id |
| Analytics.GetExperimentResults | my-book/rag/analytics.js:90-116 | null exactly when no experiment has the id; otherwise the results carry that experiment's name |
| Analytics.ResultsCountMatching | my-book/rag/analytics.js:100-113 | each variant's sample size counts exactly the interactions of that experiment and variant |
| Analytics.UnrelatedInteraction | my-book/rag/analytics.js:100-106 | logging an interaction of another experiment, or of a variant other than A and B, leaves the results unchanged |

## Left out

- Reading and writing files (`chunks.json`, `store.json`, `embeddings.json`, `analytics.json`) and JSON parsing. A file is modelled as the value it yields, or as the way it fails: missing, unparsable or unreadable. A JSON value that parses but is not an array of records is not modelled.
- The directory walks (`getAllMarkdownFiles` in utils.js, `findMarkdownFiles` in ingest.mjs). They are the `listing` parameter, with `None` when the walk throws. Their `.md` / `.mdx` filters are part of the listing.
- The regular-expression cleaning of `cleanMarkdown`: front matter, code fences, HTML comments, headers, links and inline code. In utils.js it is `env.clean`. In ingest.mjs it is the `stripBlocks` parameter, and the line pass after it is modelled exactly.
- The sentence split `split(/(?<=[.!?])\s+/)` of `chunkText`. It is the `sentences` parameter.
- `toLowerCase` is the `lower` parameter, since Unicode case mapping is not modelled.
- Text with characters outside the Basic Multilingual Plane (emoji, say) is not modelled. A Dafny `char` is a Unicode scalar value, so a string here cannot hold the two UTF-16 code units of a surrogate pair; each `char` stands for one BMP code unit. On such text the model and the JavaScript differ in `length`, in the `substring` cuts (400, 300, 100 and 500 characters), in the `> 50` / `>= 50` length filters, in `tokenCount`, and in the `charCodeAt` values that the search.js word hash folds (`Search.Hash`).
- Whitespace for `trim` and `\s` is a fixed set of characters (`JsText.IsSpace`).
- Floating-point arithmetic. Scores and averages are exact reals. `Math.sqrt` and `Math.sin` are parameters. `Math.round`, `toFixed` + `parseFloat` / `Number` and `toFixed(0)` + `parseInt` are the parameters `round`, `fix2`, `fix4` and `fix0`. NaN appears only where the source can produce it from shapes: a too-short vector in server.mjs.
- Search.CosineFormula, Search.CosineSelf, Search.CosineZeroVector, Search.QueryEmbeddingShape, Vectors.ScaleToUnit: hold only for a `sqrt` that is a true square root (`IsSqrt`), not for IEEE rounding.
- RagServer.TopSimilarProperties: when a score is NaN, the order `Array.prototype.sort` then produces is engine-defined and is not modelled (`UnspecifiedOrder`).
- The embedding and text-generation models (`@xenova/transformers`) and their lazy initialisation. They are function parameters; `None` means loading or the call throws. The generation options are not modelled.
- `embed.js`'s `batchSize` of 10 only controls progress output, which is not modelled. The same holds for every `console` message, the percentage log of embed.mjs and the average-chunk-size log of ingest.mjs.
- A failing write of the output file in ingest.mjs / embed.mjs (the `catch` that exits 1 after a successful run). The outcome shows the records that would be written.
- The `/health`, `/api/health` and `/api/stats` endpoints, CORS, Express routing, the port and server start-up and shutdown.
- `timestamp` fields, the `generatedAt` date, `Date.now()` and `Math.random()` ids. They are parameters (analytics) or left out (responses).
- `printResults`, which only prints, and the default-export objects. The `version` and `createdAt` fields of the analytics file, which nothing reads back.
- Analytics.NewInteraction: a rating or response time that is not a number (a string, say) is not modelled. Ratings and times are reals or missing.
- Analytics.WinnerOf: the response-time difference is the integer; the `ms` suffix of the source's string is not modelled.
- ChatServer.Sources: the confidence is `round(score × 100)` through the `round` parameter.
- Utils.Section, Utils.Basename: the path separator is `/` (POSIX `path.sep`). Windows paths and the edge cases of `path.basename` on paths ending in separators beyond the trailing-slash strip are not modelled.
