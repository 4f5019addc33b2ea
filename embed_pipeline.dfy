/**
 * The embedding script `rag/embed.mjs`: `embedChunks` sends the chunks to the
 * feature-extraction model in batches of 32 and numbers the vector records by
 * output position; `embed` loads the chunks, returns early when there are
 * none, and aborts the run when any batch fails.
 *
 * The model is the parameter `extract`: it maps a batch of texts to one vector
 * per text, or to `None` when it throws.
 */
module EmbedPipeline {
  import opened Outcomes
  import opened Seqs
  import opened Records

  const BatchSize: nat := 32
  const ModelName: string := "Xenova/all-MiniLM-L6-v2"

  type Extractor = seq<string> -> Option<seq<Vector>>

  function TextOf(c: TextChunk): string { c.text }

  /** The batches `chunks.slice(i, Math.min(i + 32, n))` for `i = 0, 32, 64, ...`. */
  function Batches(chunks: seq<TextChunk>): (r: seq<seq<TextChunk>>)
    ensures Flatten(r) == chunks
    ensures forall g :: 0 <= g < |r| ==> 0 < |r[g]| <= BatchSize
  {
    Groups(chunks, BatchSize)
  }

  /** Batch `g` is the slice starting at `i = 32 * g`. */
  lemma BatchIsSlice(chunks: seq<TextChunk>, g: nat)
    requires g < |Batches(chunks)|
    ensures g * BatchSize < |chunks|
    ensures Batches(chunks)[g] == chunks[g * BatchSize .. Min(g * BatchSize + BatchSize, |chunks|)]
  {
    GroupSlice(chunks, BatchSize, g);
    MulStep(g, BatchSize);
  }

  /** The loop `i < chunks.length` runs exactly once per batch. */
  lemma BatchCount(chunks: seq<TextChunk>, g: nat)
    requires g <= |Batches(chunks)|
    ensures g * BatchSize < |chunks| <==> g < |Batches(chunks)|
  {
    var batches := Batches(chunks);
    if g < |batches| {
      BatchIsSlice(chunks, g);
    } else {
      GroupsPrefix(chunks, BatchSize, g);
      assert batches[..g] == batches;
    }
  }

  /** `Math.min(i + BATCH_SIZE, totalChunks)`, the count logged after a batch. */
  function Processed(i: nat, n: nat): nat { Min(i + BatchSize, n) }

  /** The logged count after batch `g` is the number of chunks in batches `0 .. g`;
    * it grows with every batch and is `n` after the last one. */
  lemma ProcessedCount(chunks: seq<TextChunk>, g: nat)
    requires g < |Batches(chunks)|
    ensures Processed(g * BatchSize, |chunks|) == |Flatten(Batches(chunks)[..g + 1])|
    ensures g + 1 < |Batches(chunks)| ==> Processed(g * BatchSize, |chunks|) < Processed((g + 1) * BatchSize, |chunks|)
    ensures g + 1 == |Batches(chunks)| ==> Processed(g * BatchSize, |chunks|) == |chunks|
  {
    GroupsPrefix(chunks, BatchSize, g + 1);
    MulStep(g, BatchSize);
    if g + 1 < |Batches(chunks)| {
      BatchIsSlice(chunks, g + 1);
    } else {
      assert Batches(chunks)[..g + 1] == Batches(chunks);
    }
  }

  /** The model's vectors for a batch; indexing `results[j]` past the end throws,
    * so too few vectors fail the batch as well. */
  function BatchVectors(batch: seq<TextChunk>, extract: Extractor): (r: Option<seq<Vector>>)
    ensures r.Some? ==> |r.value| >= |batch|
    ensures r.Some? <==> extract(Map(batch, TextOf)).Some? && |extract(Map(batch, TextOf)).value| >= |batch|
  {
    match extract(Map(batch, TextOf))
    case None => None
    case Some(results) => if |results| < |batch| then None else Some(results)
  }

  /** The records the inner loop pushes, numbered on from `offset`. */
  function BatchRecords(offset: nat, batch: seq<TextChunk>, vectors: seq<Vector>): (r: seq<VectorRecord>)
    requires |vectors| >= |batch|
    ensures |r| == |batch|
    ensures forall j :: 0 <= j < |batch| ==>
      r[j] == VectorRecord(offset + j, batch[j].text, batch[j].source, vectors[j], batch[j].length)
  {
    seq(|batch|, j requires 0 <= j < |batch| =>
      VectorRecord(offset + j, batch[j].text, batch[j].source, vectors[j], batch[j].length))
  }

  /** The records of a run over `batches`, or `None` once a batch fails. */
  function EmbedRun(batches: seq<seq<TextChunk>>, extract: Extractor): Option<seq<VectorRecord>>
  {
    if |batches| == 0 then Some([])
    else
      var prev := EmbedRun(batches[..|batches| - 1], extract);
      var last := batches[|batches| - 1];
      var vectors := BatchVectors(last, extract);
      if prev.None? || vectors.None? then None
      else Some(prev.value + BatchRecords(|prev.value|, last, vectors.value))
  }

  /** The run fails exactly when some batch fails. */
  lemma {:induction false} EmbedRunFails(batches: seq<seq<TextChunk>>, extract: Extractor)
    ensures EmbedRun(batches, extract).None? <==>
      exists g :: 0 <= g < |batches| && BatchVectors(batches[g], extract).None?
    decreases |batches|
  {
    if |batches| > 0 {
      var m := |batches| - 1;
      EmbedRunFails(batches[..m], extract);
      if EmbedRun(batches, extract).None? && EmbedRun(batches[..m], extract).None? {
        var g :| 0 <= g < m && BatchVectors(batches[..m][g], extract).None?;
        assert batches[..m][g] == batches[g];
      }
      if exists g :: 0 <= g < |batches| && BatchVectors(batches[g], extract).None? {
        var g :| 0 <= g < |batches| && BatchVectors(batches[g], extract).None?;
        if g < m {
          assert batches[..m][g] == batches[g];
        }
      }
    }
  }

  /** A successful run has one record per chunk. */
  lemma {:induction false} EmbedRunLength(batches: seq<seq<TextChunk>>, extract: Extractor)
    requires EmbedRun(batches, extract).Some?
    ensures |EmbedRun(batches, extract).value| == |Flatten(batches)|
    decreases |batches|
  {
    if |batches| > 0 {
      var m := |batches| - 1;
      var last := batches[m];
      EmbedRunLength(batches[..m], extract);
      assert batches == batches[..m] + [last];
      FlattenAppend(batches[..m], [last]);
      assert Flatten([last]) == last + Flatten([last][1..]);
    }
  }

  /** A successful run has one record per chunk: the record at position `p` has
    * `id == p` and the text, source and length of chunk `p`. */
  lemma {:induction false} EmbedRunRecords(batches: seq<seq<TextChunk>>, extract: Extractor)
    requires EmbedRun(batches, extract).Some?
    ensures |EmbedRun(batches, extract).value| == |Flatten(batches)|
    ensures forall p :: 0 <= p < |Flatten(batches)| ==>
      (EmbedRun(batches, extract).value[p].id == p
       && EmbedRun(batches, extract).value[p].text == Flatten(batches)[p].text
       && EmbedRun(batches, extract).value[p].source == Flatten(batches)[p].source
       && EmbedRun(batches, extract).value[p].length == Flatten(batches)[p].length)
    decreases |batches|
  {
    if |batches| == 0 {
    } else {
      var m := |batches| - 1;
      var prev := EmbedRun(batches[..m], extract).value;
      var last := batches[m];
      EmbedRunRecords(batches[..m], extract);
      assert batches == batches[..m] + [last];
      FlattenAppend(batches[..m], [last]);
      assert Flatten([last]) == last + Flatten([last][1..]);
      assert Flatten(batches) == Flatten(batches[..m]) + last;
      var recs := BatchRecords(|prev|, last, BatchVectors(last, extract).value);
      assert EmbedRun(batches, extract).value == prev + recs;
    }
  }

  /** The run over the first `g` batches is a prefix of the run over all of them. */
  lemma {:induction false} EmbedRunPrefix(batches: seq<seq<TextChunk>>, extract: Extractor, g: nat)
    requires g <= |batches| && EmbedRun(batches, extract).Some?
    ensures EmbedRun(batches[..g], extract).Some?
    ensures |EmbedRun(batches[..g], extract).value| <= |EmbedRun(batches, extract).value|
    ensures EmbedRun(batches[..g], extract).value
         == EmbedRun(batches, extract).value[..|EmbedRun(batches[..g], extract).value|]
    decreases |batches|
  {
    if g == |batches| {
      assert batches[..g] == batches;
    } else {
      var m := |batches| - 1;
      var prev := EmbedRun(batches[..m], extract);
      var last := batches[m];
      assert prev.Some? && BatchVectors(last, extract).Some?;
      var all := prev.value + BatchRecords(|prev.value|, last, BatchVectors(last, extract).value);
      assert EmbedRun(batches, extract).value == all;
      EmbedRunPrefix(batches[..m], extract, g);
      assert batches[..m][..g] == batches[..g];
      var front := EmbedRun(batches[..g], extract).value;
      assert front == prev.value[..|front|];
      assert all[..|front|] == prev.value[..|front|];
    }
  }

  /** Batch `g`'s vectors are stored in order at the positions after the earlier batches' chunks. */
  lemma EmbedRunStep(batches: seq<seq<TextChunk>>, extract: Extractor, g: nat)
    requires g < |batches| && EmbedRun(batches[..g + 1], extract).Some?
    ensures EmbedRun(batches[..g], extract).Some? && BatchVectors(batches[g], extract).Some?
    ensures EmbedRun(batches[..g + 1], extract).value
         == EmbedRun(batches[..g], extract).value
            + BatchRecords(|EmbedRun(batches[..g], extract).value|, batches[g], BatchVectors(batches[g], extract).value)
  {
    var upto := batches[..g + 1];
    assert upto[..g] == batches[..g] && upto[g] == batches[g];
  }

  /** `records[off ..]` carries the vectors of `batch`, in order. */
  ghost predicate VectorsStored(records: seq<VectorRecord>, off: nat, batch: seq<TextChunk>, vectors: seq<Vector>) {
    off + |batch| <= |records| && |batch| <= |vectors| &&
    forall p :: off <= p < off + |batch| ==> records[p].vector == vectors[p - off]
  }

  /** Batch `g`'s vectors are the extractor's results for it, stored in order at the
    * position after the chunks of the earlier batches. */
  lemma {:induction false} EmbedRunVectors(batches: seq<seq<TextChunk>>, extract: Extractor, g: nat, records: seq<VectorRecord>)
    requires g < |batches| && EmbedRun(batches, extract) == Some(records)
    ensures BatchVectors(batches[g], extract).Some?
    ensures VectorsStored(records, |Flatten(batches[..g])|, batches[g], BatchVectors(batches[g], extract).value)
    decreases |batches|
  {
    var m := |batches| - 1;
    var init := batches[..m];
    var prev := EmbedRun(init, extract).value;
    var vectors := BatchVectors(batches[m], extract).value;
    var tail := BatchRecords(|prev|, batches[m], vectors);
    assert records == prev + tail;
    if g == m {
      EmbedRunLength(init, extract);
      assert batches[..g] == init;
      LastVectorsStored(records, prev, batches[m], vectors);
    } else {
      EmbedRunVectors(init, extract, g, prev);
      assert init[..g] == batches[..g] && init[g] == batches[g];
      KeepVectors(records, prev, tail, |Flatten(batches[..g])|, batches[g], BatchVectors(batches[g], extract).value);
    }
  }

  /** The last batch's vectors close the run, after the records of the earlier batches. */
  lemma LastVectorsStored(records: seq<VectorRecord>, prev: seq<VectorRecord>, batch: seq<TextChunk>, vectors: seq<Vector>)
    requires |vectors| >= |batch|
    requires records == prev + BatchRecords(|prev|, batch, vectors)
    ensures VectorsStored(records, |prev|, batch, vectors)
  {
    forall p | |prev| <= p < |prev| + |batch| ensures records[p].vector == vectors[p - |prev|] {
      VectorAt(records, prev, batch, vectors, p - |prev|);
    }
  }

  /** Entries of a prefix keep their values in the whole sequence. */
  lemma KeepVectors(records: seq<VectorRecord>, prev: seq<VectorRecord>, tail: seq<VectorRecord>,
                    off: nat, batch: seq<TextChunk>, vectors: seq<Vector>)
    requires records == prev + tail && VectorsStored(prev, off, batch, vectors)
    ensures VectorsStored(records, off, batch, vectors)
  {
  }

  /** Record `j` of the last batch sits right after the earlier records. */
  lemma VectorAt(records: seq<VectorRecord>, prev: seq<VectorRecord>,
                 batch: seq<TextChunk>, vectors: seq<Vector>, j: nat)
    requires |vectors| >= |batch| && j < |batch|
    requires records == prev + BatchRecords(|prev|, batch, vectors)
    ensures |prev| + j < |records| && records[|prev| + j].vector == vectors[j]
  {
    assert records[|prev| + j] == BatchRecords(|prev|, batch, vectors)[j];
  }

  /** The promises of `embedChunks` on success: one record per chunk, in order,
    * `id` equal to the position, fields copied from the chunk. */
  lemma EmbedChunksProperties(chunks: seq<TextChunk>, extract: Extractor)
    requires EmbedRun(Batches(chunks), extract).Some?
    ensures |EmbedRun(Batches(chunks), extract).value| == |chunks|
    ensures forall p :: 0 <= p < |chunks| ==>
      (EmbedRun(Batches(chunks), extract).value[p].id == p
       && EmbedRun(Batches(chunks), extract).value[p].text == chunks[p].text
       && EmbedRun(Batches(chunks), extract).value[p].source == chunks[p].source
       && EmbedRun(Batches(chunks), extract).value[p].length == chunks[p].length)
  {
    EmbedRunRecords(Batches(chunks), extract);
  }

  /** The inner `for` loop over a batch in `embedChunks` of embed.mjs: the id of each record is the output length
    * at the time it is pushed. */
  method PushBatch(embeddings: seq<VectorRecord>, batch: seq<TextChunk>, results: seq<Vector>)
    returns (r: seq<VectorRecord>)
    requires |results| >= |batch|
    ensures r == embeddings + BatchRecords(|embeddings|, batch, results)
  {
    r := embeddings;
    for j := 0 to |batch|
      invariant |r| == |embeddings| + j && r[..|embeddings|] == embeddings
      invariant forall k :: 0 <= k < j ==>
        r[|embeddings| + k] == VectorRecord(|embeddings| + k, batch[k].text, batch[k].source, results[k], batch[k].length)
    {
      var chunk := batch[j];
      r := r + [VectorRecord(|r|, chunk.text, chunk.source, results[j], chunk.length)];
    }
    assert r == embeddings + BatchRecords(|embeddings|, batch, results);
  }

  /** One more batch: a failing batch fails the whole run, a succeeding one appends its records. */
  lemma EmbedRunNext(batches: seq<seq<TextChunk>>, extract: Extractor, g: nat, records: seq<VectorRecord>)
    requires g < |batches| && EmbedRun(batches[..g], extract) == Some(records)
    ensures BatchVectors(batches[g], extract).None? ==> EmbedRun(batches, extract).None?
    ensures BatchVectors(batches[g], extract).Some? ==>
      EmbedRun(batches[..g + 1], extract)
        == Some(records + BatchRecords(|records|, batches[g], BatchVectors(batches[g], extract).value))
  {
    var upto := batches[..g + 1];
    assert upto[..g] == batches[..g] && upto[g] == batches[g];
    if BatchVectors(batches[g], extract).None? && EmbedRun(batches, extract).Some? {
      EmbedRunPrefix(batches, extract, g + 1);
    }
  }

  /** `embedChunks`: `None` when a batch throws, which the function rethrows. */
  method EmbedChunks(chunks: seq<TextChunk>, extract: Extractor) returns (r: Option<seq<VectorRecord>>)
    ensures r == EmbedRun(Batches(chunks), extract)
  {
    ghost var batches := Batches(chunks);
    ghost var g: nat := 0;
    var embeddings: seq<VectorRecord> := [];
    var i: nat := 0;
    while i < |chunks|
      invariant g <= |batches| && i == g * BatchSize
      invariant i < |chunks| <==> g < |batches|
      invariant EmbedRun(batches[..g], extract) == Some(embeddings)
      decreases |chunks| - i
    {
      BatchIsSlice(chunks, g);
      var batch := chunks[i .. if i + BatchSize < |chunks| then i + BatchSize else |chunks|];
      assert batch == batches[g];
      EmbedRunNext(batches, extract, g, embeddings);
      var results := extract(Map(batch, TextOf));
      if results.None? || |results.value| < |batch| {
        return None;
      }
      embeddings := PushBatch(embeddings, batch, results.value);
      MulStep(g, BatchSize);
      g := g + 1;
      i := i + BatchSize;
      BatchCount(chunks, g);
    }
    assert batches[..g] == batches;
    return Some(embeddings);
  }

  /** How a run of `embed` ends: exit code 1 (the chunks file cannot be read or
    * parsed, the model fails to load, or a batch fails), an early return with
    * nothing written, or the records written to `embeddings.json`. */
  datatype PipelineOutcome = Failed | NoChunks | Written(records: seq<VectorRecord>)

  function EmbedOutcome(loaded: Option<seq<TextChunk>>, extractor: Option<Extractor>): (r: PipelineOutcome)
    ensures r.NoChunks? <==> loaded == Some([])
    ensures loaded.None? ==> r.Failed?
    ensures loaded.Some? && loaded.value != [] ==>
      (r.Written? <==> extractor.Some? && EmbedRun(Batches(loaded.value), extractor.value).Some?)
    ensures r.Written? ==> r.records == EmbedRun(Batches(loaded.value), extractor.value).value
  {
    if loaded.None? then Failed
    else if |loaded.value| == 0 then NoChunks
    else if extractor.None? then Failed
    else match EmbedRun(Batches(loaded.value), extractor.value)
      case None => Failed
      case Some(records) => Written(records)
  }

  /** `embed`. */
  method Embed(loaded: Option<seq<TextChunk>>, extractor: Option<Extractor>) returns (r: PipelineOutcome)
    ensures r == EmbedOutcome(loaded, extractor)
  {
    if loaded.None? {
      return Failed;
    }
    var chunks := loaded.value;
    if |chunks| == 0 {
      return NoChunks;
    }
    if extractor.None? {
      return Failed;
    }
    var embeddings := EmbedChunks(chunks, extractor.value);
    if embeddings.None? {
      return Failed;
    }
    return Written(embeddings.value);
  }
}
