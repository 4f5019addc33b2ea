/**
 * The embedding script `rag/embed.js`: `generateEmbeddings` embeds every chunk
 * of `chunks.json` one at a time, skips a chunk whose embedding throws, and
 * builds the vector store `store.json`.
 *
 * The embedding model is the parameter `embed` (`None` when the model fails to
 * load; the function yields `None` when embedding a text throws).
 */
module EmbedScript {
  import opened Outcomes
  import opened Seqs
  import opened Records

  const StoreVersion: string := "1.0"
  const ModelId: string := "Xenova/all-MiniLM-L6-v2"
  /** The dimension recorded when the first stored embedding is missing or empty. */
  const DefaultDimension: nat := 384

  /** `chunks.json` as the script finds it. */
  datatype ChunksFile = NoChunksFile | Unparsable | ChunksJson(chunks: seq<ChunkRecord>)

  /** How a run ends: with exit code 1 (missing or unparsable chunks file, model
    * that fails to load), or with the store written. */
  datatype EmbedOutcome = Exited | Saved(store: VectorStore)

  /** The chunks whose embedding succeeds, each with its embedding, in input order. */
  function Embedded(chunks: seq<ChunkRecord>, embed: string -> Option<Vector>): seq<EmbeddedChunk>
  {
    if |chunks| == 0 then []
    else
      var last := chunks[|chunks| - 1];
      Embedded(chunks[..|chunks| - 1], embed)
        + (match embed(last.text) case None => [] case Some(v) => [EmbeddedChunk(last, v)])
  }

  function ChunkOf(e: EmbeddedChunk): ChunkRecord { e.chunk }

  function Succeeds(embed: string -> Option<Vector>): ChunkRecord -> bool
  {
    (c: ChunkRecord) => embed(c.text).Some?
  }

  /** `embeddedChunks[0]?.embedding?.length || 384`. */
  function Dimension(embedded: seq<EmbeddedChunk>): (d: nat)
    ensures |embedded| == 0 ==> d == DefaultDimension
    ensures |embedded| > 0 && |embedded[0].embedding| > 0 ==> d == |embedded[0].embedding|
    ensures |embedded| > 0 && |embedded[0].embedding| == 0 ==> d == DefaultDimension
  {
    if |embedded| > 0 && |embedded[0].embedding| > 0 then |embedded[0].embedding| else DefaultDimension
  }

  /** The store object that `generateEmbeddings` in embed.js writes. */
  function MakeStore(embedded: seq<EmbeddedChunk>): (s: VectorStore)
    ensures s.version == StoreVersion && s.modelId == ModelId
    ensures s.chunks == embedded && s.totalChunks == |s.chunks|
    ensures s.embeddingDimension == Dimension(embedded)
  {
    VectorStore(StoreVersion, ModelId, Dimension(embedded), |embedded|, embedded)
  }

  /** The outcome of `generateEmbeddings`. */
  function EmbedResult(file: ChunksFile, embed: Option<string -> Option<Vector>>): (r: EmbedOutcome)
    ensures r.Saved? <==> file.ChunksJson? && embed.Some?
    ensures r.Saved? ==> r.store == MakeStore(Embedded(file.chunks, embed.value))
  {
    if file.ChunksJson? && embed.Some? then Saved(MakeStore(Embedded(file.chunks, embed.value))) else Exited
  }

  /** The stored chunks are the input chunks in order, minus those whose embedding threw. */
  lemma {:induction false} EmbeddedIsFilter(chunks: seq<ChunkRecord>, embed: string -> Option<Vector>)
    ensures Map(Embedded(chunks, embed), ChunkOf) == Filter(chunks, Succeeds(embed))
    decreases |chunks|
  {
    if |chunks| > 0 {
      var n := |chunks| - 1;
      var init, c := chunks[..n], chunks[n];
      EmbeddedIsFilter(init, embed);
      assert chunks == init + [c];
      FilterAppend(init, [c], Succeeds(embed));
      var tail := match embed(c.text) case None => [] case Some(v) => [EmbeddedChunk(c, v)];
      assert Embedded(chunks, embed) == Embedded(init, embed) + tail;
      MapAppend(Embedded(init, embed), tail, ChunkOf);
      assert [c][1..] == [];
      assert Map(tail, ChunkOf) == Filter([c], Succeeds(embed));
    }
  }

  /** Each stored chunk carries the embedding the model gave its text. */
  lemma {:induction false} EmbeddedVectors(chunks: seq<ChunkRecord>, embed: string -> Option<Vector>)
    ensures forall k :: 0 <= k < |Embedded(chunks, embed)| ==>
      embed(Embedded(chunks, embed)[k].chunk.text) == Some(Embedded(chunks, embed)[k].embedding)
    decreases |chunks|
  {
    if |chunks| > 0 {
      EmbeddedVectors(chunks[..|chunks| - 1], embed);
    }
  }

  /** One failure does not abort the run: when every embedding succeeds, all
    * chunks are stored. */
  lemma AllEmbedded(chunks: seq<ChunkRecord>, embed: string -> Option<Vector>)
    requires forall i :: 0 <= i < |chunks| ==> embed(chunks[i].text).Some?
    ensures Map(Embedded(chunks, embed), ChunkOf) == chunks
    ensures |Embedded(chunks, embed)| == |chunks|
  {
    EmbeddedIsFilter(chunks, embed);
    FilterAll(chunks, Succeeds(embed));
  }

  /** `generateEmbeddings`. */
  method GenerateEmbeddings(file: ChunksFile, embedder: Option<string -> Option<Vector>>) returns (r: EmbedOutcome)
    ensures r == EmbedResult(file, embedder)
  {
    if !file.ChunksJson? || embedder.None? {
      return Exited;
    }
    var chunks := file.chunks;
    var embed := embedder.value;
    var embeddedChunks: seq<EmbeddedChunk> := [];
    for i := 0 to |chunks|
      invariant embeddedChunks == Embedded(chunks[..i], embed)
    {
      assert chunks[..i + 1][..i] == chunks[..i];
      var embedding := embed(chunks[i].text);
      if embedding.Some? {
        embeddedChunks := embeddedChunks + [EmbeddedChunk(chunks[i], embedding.value)];
      }
    }
    assert chunks[..|chunks|] == chunks;
    var dimension := if |embeddedChunks| > 0 && |embeddedChunks[0].embedding| > 0
      then |embeddedChunks[0].embedding| else DefaultDimension;
    return Saved(VectorStore(StoreVersion, ModelId, dimension, |embeddedChunks|, embeddedChunks));
  }
}
