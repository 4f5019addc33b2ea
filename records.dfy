/**
 * The records that flow between the pipeline stages, as their JSON files
 * hold them.
 *
 * Two pipelines share the book's documents:
 *  - `ingest.js` → `embed.js` → `search.js` (used by `server.js`), through
 *    `chunks.json` and `store.json`;
 *  - `ingest.mjs` → `embed.mjs` → `server.mjs`, through `chunks.json` and
 *    `embeddings.json`.
 */
module Records {

  /** An embedding vector; JavaScript numbers are modelled as reals. */
  type Vector = seq<real>

  /** What `extractMetadata` in utils.js derives from a file path and its content. */
  datatype Metadata = Metadata(section: string, title: string, file: string)

  /** One chunk written by ingest.js. */
  datatype ChunkRecord = ChunkRecord(
    id: string,
    text: string,
    metadata: Metadata,
    chunkIndex: nat,
    charLength: nat)

  /** A chunk of the vector store written by embed.js: the chunk's fields plus `embedding`. */
  datatype EmbeddedChunk = EmbeddedChunk(chunk: ChunkRecord, embedding: Vector)

  /** The vector store file `store.json` (its `generatedAt` timestamp is not modelled). */
  datatype VectorStore = VectorStore(
    version: string,
    modelId: string,
    embeddingDimension: nat,
    totalChunks: nat,
    chunks: seq<EmbeddedChunk>)

  /** A search hit from search.js: the store chunk's fields plus `score`. */
  datatype ScoredChunk = ScoredChunk(item: EmbeddedChunk, score: real)

  /** The score of a search hit, the key search.js sorts by. */
  function ScoreOf(s: ScoredChunk): real { s.score }

  /** One chunk written by ingest.mjs. */
  datatype TextChunk = TextChunk(text: string, source: string, length: nat)

  /** One record of `embeddings.json`, written by embed.mjs. */
  datatype VectorRecord = VectorRecord(id: nat, text: string, source: string, vector: Vector, length: nat)
}
