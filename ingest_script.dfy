/**
 * The ingestion script `rag/ingest.js`: `ingestDocuments` walks the markdown
 * files, skips a file whose cleaned text is too short or whose processing
 * throws, and numbers every chunk by file and by position in the file.
 *
 * The file system and the regular-expression helpers of utils.js are the
 * fields of `Environment`.
 */
module IngestScript {
  import opened Outcomes
  import opened Seqs
  import opened JsText
  import opened Records
  import Utils

  /** A file whose cleaned text is shorter than this is skipped. */
  const MinCleanedLength: nat := 50

  /** What the loop reads from outside: `fs.readFileSync` (`None` when it
    * throws), `cleanMarkdown`, the sentence split inside `chunkText`, and
    * `path.relative(process.cwd(), ...)` inside `extractMetadata`. */
  datatype Environment = Environment(
    read: string -> Option<string>,
    clean: string -> string,
    sentences: string -> seq<string>,
    relative: string -> string)

  /** `` `${index}-${chunkIndex}` ``. */
  function ChunkId(index: nat, chunkIndex: nat): string
  {
    NatToString(index) + "-" + NatToString(chunkIndex)
  }

  function DashAt(s: string): (k: nat)
    ensures k <= |s|
    ensures forall i :: 0 <= i < k ==> s[i] != '-'
    ensures k < |s| ==> s[k] == '-'
  {
    if |s| == 0 || s[0] == '-' then 0 else 1 + DashAt(s[1..])
  }

  lemma {:induction false} DashAtDigits(a: string, b: string)
    requires forall i :: 0 <= i < |a| ==> '0' <= a[i] <= '9'
    ensures DashAt(a + "-" + b) == |a|
    decreases |a|
  {
    if |a| > 0 {
      assert (a + "-" + b)[1..] == a[1..] + "-" + b;
      DashAtDigits(a[1..], b);
    }
  }

  /** Different (file, chunk) positions give different ids. */
  lemma ChunkIdInjective(i: nat, j: nat, i': nat, j': nat)
    requires ChunkId(i, j) == ChunkId(i', j')
    ensures i == i' && j == j'
  {
    var a, b := NatToString(i), NatToString(j);
    var a', b' := NatToString(i'), NatToString(j');
    var s := ChunkId(i, j);
    DashAtDigits(a, b);
    DashAtDigits(a', b');
    assert a == s[..|a|] && a' == s[..|a'|];
    assert b == s[|a| + 1..] && b' == s[|a'| + 1..];
    NatToStringInjective(i, i');
    NatToStringInjective(j, j');
  }

  /** The records of one file's chunks: ids `index-0`, `index-1`, ..., shared metadata. */
  function ChunkRecords(index: nat, chunks: seq<string>, metadata: Metadata): (r: seq<ChunkRecord>)
    ensures |r| == |chunks|
    ensures forall j :: 0 <= j < |chunks| ==>
      r[j] == ChunkRecord(ChunkId(index, j), chunks[j], metadata, j, |chunks[j]|)
  {
    seq(|chunks|, j requires 0 <= j < |chunks| => ChunkRecord(ChunkId(index, j), chunks[j], metadata, j, |chunks[j]|))
  }

  /** The chunks of a file that is read and long enough after cleaning. */
  function FileChunks(content: string, env: Environment): seq<string>
  {
    Utils.ChunkText(env.sentences(env.clean(content)), Utils.DefaultChunkSize)
  }

  /** Whether the file at `path` is read and long enough to be chunked. */
  predicate Kept(path: string, env: Environment)
  {
    env.read(path).Some? && |env.clean(env.read(path).value)| >= MinCleanedLength
  }

  /** The chunks file `i` contributes: none when it throws or is too short. */
  function ChunksAt(files: seq<string>, env: Environment): nat -> seq<string>
  {
    (i: nat) => if i < |files| && Kept(files[i], env) then FileChunks(env.read(files[i]).value, env) else []
  }

  /** The metadata `extractMetadata` gives file `i`. */
  function MetadataAt(files: seq<string>, env: Environment): nat -> Metadata
  {
    (i: nat) => if i < |files| && env.read(files[i]).Some?
         then Utils.ExtractMetadata(files[i], env.read(files[i]).value, env.relative)
         else Metadata("", "", "")
  }

  /** The records of files `lo .. hi-1`, in file order, each file's in chunk order. */
  function Span(lo: nat, hi: nat, chunksOf: nat -> seq<string>, metadataOf: nat -> Metadata): seq<ChunkRecord>
    requires lo <= hi
    decreases hi - lo
  {
    if lo == hi then [] else Span(lo, hi - 1, chunksOf, metadataOf) + ChunkRecords(hi - 1, chunksOf(hi - 1), metadataOf(hi - 1))
  }

  /** The records `ingestDocuments` collects. */
  function AllChunks(files: seq<string>, env: Environment): seq<ChunkRecord>
  {
    Span(0, |files|, ChunksAt(files, env), MetadataAt(files, env))
  }

  lemma {:induction false} SpanSplit(lo: nat, mid: nat, hi: nat, chunksOf: nat -> seq<string>, metadataOf: nat -> Metadata)
    requires lo <= mid <= hi
    ensures Span(lo, hi, chunksOf, metadataOf) == Span(lo, mid, chunksOf, metadataOf) + Span(mid, hi, chunksOf, metadataOf)
    decreases hi - mid
  {
    if mid < hi {
      SpanSplit(lo, mid, hi - 1, chunksOf, metadataOf);
    }
  }

  /** A file without chunks adds nothing between its neighbours. */
  lemma SpanSkip(lo: nat, i: nat, hi: nat, chunksOf: nat -> seq<string>, metadataOf: nat -> Metadata)
    requires lo <= i < hi && chunksOf(i) == []
    ensures Span(lo, hi, chunksOf, metadataOf) == Span(lo, i, chunksOf, metadataOf) + Span(i + 1, hi, chunksOf, metadataOf)
  {
    SpanSplit(lo, i + 1, hi, chunksOf, metadataOf);
    assert ChunkRecords(i, chunksOf(i), metadataOf(i)) == [];
    assert Span(lo, i + 1, chunksOf, metadataOf) == Span(lo, i, chunksOf, metadataOf) + [];
  }

  /** A file that throws or is too short contributes no records, and the files
    * around it are still processed. */
  lemma SkippedFile(files: seq<string>, env: Environment, i: nat)
    requires i < |files| && !Kept(files[i], env)
    ensures AllChunks(files, env)
         == Span(0, i, ChunksAt(files, env), MetadataAt(files, env)) + Span(i + 1, |files|, ChunksAt(files, env), MetadataAt(files, env))
  {
    assert ChunksAt(files, env)(i) == [];
    SpanSkip(0, i, |files|, ChunksAt(files, env), MetadataAt(files, env));
  }

  /** Record `rec` is chunk `rec.chunkIndex` of file `i`, with that file's
    * metadata, the id `i-chunkIndex` and its text's length as `charLength`. */
  ghost predicate RecordOf(rec: ChunkRecord, i: nat, chunksOf: nat -> seq<string>, metadataOf: nat -> Metadata)
  {
    rec.chunkIndex < |chunksOf(i)|
    && rec == ChunkRecord(ChunkId(i, rec.chunkIndex), chunksOf(i)[rec.chunkIndex], metadataOf(i),
                          rec.chunkIndex, |chunksOf(i)[rec.chunkIndex]|)
  }

  /** The file that record `k` of files `lo .. hi-1` is a chunk of. */
  ghost function Origin(lo: nat, hi: nat, chunksOf: nat -> seq<string>, metadataOf: nat -> Metadata, k: nat): (i: nat)
    requires lo <= hi && k < |Span(lo, hi, chunksOf, metadataOf)|
    ensures lo <= i < hi
    ensures RecordOf(Span(lo, hi, chunksOf, metadataOf)[k], i, chunksOf, metadataOf)
    decreases hi - lo
  {
    var front := Span(lo, hi - 1, chunksOf, metadataOf);
    var last := ChunkRecords(hi - 1, chunksOf(hi - 1), metadataOf(hi - 1));
    assert Span(lo, hi, chunksOf, metadataOf) == front + last;
    if k < |front| then
      assert Span(lo, hi, chunksOf, metadataOf)[k] == front[k];
      Origin(lo, hi - 1, chunksOf, metadataOf, k)
    else
      assert Span(lo, hi, chunksOf, metadataOf)[k] == last[k - |front|];
      hi - 1
  }

  /** No two records of `s` share an id. */
  ghost predicate UniqueIds(s: seq<ChunkRecord>)
  {
    forall k, l :: 0 <= k < l < |s| ==> s[k].id != s[l].id
  }

  /** Two id-distinct parts with no id in common concatenate to an id-distinct whole. */
  lemma UniqueIdsConcat(all: seq<ChunkRecord>, front: seq<ChunkRecord>, last: seq<ChunkRecord>)
    requires all == front + last && UniqueIds(front) && UniqueIds(last)
    requires forall k, j :: 0 <= k < |front| && 0 <= j < |last| ==> front[k].id != last[j].id
    ensures UniqueIds(all)
  {
    forall k, l | 0 <= k < l < |all|
      ensures all[k].id != all[l].id
    {
      if l < |front| {
        assert all[k] == front[k] && all[l] == front[l];
      } else if k >= |front| {
        assert all[k] == last[k - |front|] && all[l] == last[l - |front|];
      } else {
        assert all[k] == front[k] && all[l] == last[l - |front|];
      }
    }
  }

  /** The records of one file have distinct ids. */
  lemma ChunkRecordsUniqueIds(i: nat, chunks: seq<string>, metadata: Metadata)
    ensures UniqueIds(ChunkRecords(i, chunks, metadata))
  {
    var r := ChunkRecords(i, chunks, metadata);
    forall k, l | 0 <= k < l < |r|
      ensures r[k].id != r[l].id
    {
      if r[k].id == r[l].id {
        ChunkIdInjective(i, k, i, l);
      }
    }
  }

  /** A record of files `lo .. hi-1` never has the id of a chunk of file `hi`. */
  lemma EarlierIdDiffers(lo: nat, hi: nat, chunksOf: nat -> seq<string>, metadataOf: nat -> Metadata, k: nat, j: nat)
    requires lo <= hi && k < |Span(lo, hi, chunksOf, metadataOf)|
    ensures Span(lo, hi, chunksOf, metadataOf)[k].id != ChunkId(hi, j)
  {
    var i := Origin(lo, hi, chunksOf, metadataOf, k);
    var rec := Span(lo, hi, chunksOf, metadataOf)[k];
    assert rec.id == ChunkId(i, rec.chunkIndex);
    if rec.id == ChunkId(hi, j) {
      ChunkIdInjective(i, rec.chunkIndex, hi, j);
    }
  }

  /** No two records of files `lo .. hi-1` share an id. */
  lemma {:induction false} SpanIdsUnique(lo: nat, hi: nat, chunksOf: nat -> seq<string>, metadataOf: nat -> Metadata)
    requires lo <= hi
    ensures forall k, l :: 0 <= k < l < |Span(lo, hi, chunksOf, metadataOf)| ==>
      Span(lo, hi, chunksOf, metadataOf)[k].id != Span(lo, hi, chunksOf, metadataOf)[l].id
    decreases hi - lo
  {
    if lo < hi {
      SpanIdsUnique(lo, hi - 1, chunksOf, metadataOf);
      var front := Span(lo, hi - 1, chunksOf, metadataOf);
      var last := ChunkRecords(hi - 1, chunksOf(hi - 1), metadataOf(hi - 1));
      ChunkRecordsUniqueIds(hi - 1, chunksOf(hi - 1), metadataOf(hi - 1));
      forall k, j | 0 <= k < |front| && 0 <= j < |last|
        ensures front[k].id != last[j].id
      {
        EarlierIdDiffers(lo, hi - 1, chunksOf, metadataOf, k, j);
      }
      UniqueIdsConcat(Span(lo, hi, chunksOf, metadataOf), front, last);
    }
  }

  /** The promises of `ingestDocuments` about its records: each is a chunk of a
    * file that was read and long enough, carries that file's metadata, has the
    * id `fileIndex-chunkIndex` and its text's length as `charLength`, and no
    * two ids coincide. */
  lemma AllChunksProperties(files: seq<string>, env: Environment)
    ensures forall k :: 0 <= k < |AllChunks(files, env)| ==>
      (Origin(0, |files|, ChunksAt(files, env), MetadataAt(files, env), k) < |files|
       && Kept(files[Origin(0, |files|, ChunksAt(files, env), MetadataAt(files, env), k)], env)
       && RecordOf(AllChunks(files, env)[k], Origin(0, |files|, ChunksAt(files, env), MetadataAt(files, env), k),
                   ChunksAt(files, env), MetadataAt(files, env)))
    ensures forall k, l :: 0 <= k < l < |AllChunks(files, env)| ==> AllChunks(files, env)[k].id != AllChunks(files, env)[l].id
  {
    var c, m := ChunksAt(files, env), MetadataAt(files, env);
    SpanIdsUnique(0, |files|, c, m);
    forall k | 0 <= k < |AllChunks(files, env)|
      ensures Kept(files[Origin(0, |files|, c, m, k)], env)
    {
      assert |c(Origin(0, |files|, c, m, k))| > 0;
    }
  }

  /** File `i`'s records sit between those of the files before and after it. */
  lemma SpanAt(lo: nat, i: nat, hi: nat, chunksOf: nat -> seq<string>, metadataOf: nat -> Metadata)
    requires lo <= i < hi
    ensures Span(lo, hi, chunksOf, metadataOf) ==
      Span(lo, i, chunksOf, metadataOf) + ChunkRecords(i, chunksOf(i), metadataOf(i)) + Span(i + 1, hi, chunksOf, metadataOf)
  {
    SpanSplit(lo, i, hi, chunksOf, metadataOf);
    SpanSplit(i, i + 1, hi, chunksOf, metadataOf);
    var recs := ChunkRecords(i, chunksOf(i), metadataOf(i));
    assert Span(i, i + 1, chunksOf, metadataOf) == Span(i, i, chunksOf, metadataOf) + recs;
    assert Span(i, i, chunksOf, metadataOf) == [];
    ConcatMiddle(Span(lo, hi, chunksOf, metadataOf), Span(lo, i, chunksOf, metadataOf),
                 Span(i, hi, chunksOf, metadataOf), Span(i, i + 1, chunksOf, metadataOf), recs,
                 Span(i + 1, hi, chunksOf, metadataOf));
  }

  lemma ConcatMiddle(whole: seq<ChunkRecord>, front: seq<ChunkRecord>, rest: seq<ChunkRecord>,
                     mid: seq<ChunkRecord>, recs: seq<ChunkRecord>, back: seq<ChunkRecord>)
    requires whole == front + rest && rest == mid + back && mid == [] + recs
    ensures whole == front + recs + back
  {
    assert mid == recs;
  }

  /** Conversely, a file that is read and long enough contributes all its chunks, in chunk order,
    * between the records of the files before it and those of the files after it. */
  lemma KeptFileIncluded(files: seq<string>, env: Environment, i: nat)
    requires i < |files| && Kept(files[i], env)
    ensures var chunks := FileChunks(env.read(files[i]).value, env);
      var metadata := Utils.ExtractMetadata(files[i], env.read(files[i]).value, env.relative);
      AllChunks(files, env) ==
        Span(0, i, ChunksAt(files, env), MetadataAt(files, env)) + ChunkRecords(i, chunks, metadata) +
        Span(i + 1, |files|, ChunksAt(files, env), MetadataAt(files, env))
    ensures var chunks := FileChunks(env.read(files[i]).value, env);
      var metadata := Utils.ExtractMetadata(files[i], env.read(files[i]).value, env.relative);
      forall j :: 0 <= j < |chunks| ==>
        ChunkRecord(ChunkId(i, j), chunks[j], metadata, j, |chunks[j]|) in AllChunks(files, env)
  {
    var c, m := ChunksAt(files, env), MetadataAt(files, env);
    assert c(i) == FileChunks(env.read(files[i]).value, env);
    assert m(i) == Utils.ExtractMetadata(files[i], env.read(files[i]).value, env.relative);
    SpanAt(0, i, |files|, c, m);
    MiddleMember(Span(0, i, c, m), ChunkRecords(i, c(i), m(i)), Span(i + 1, |files|, c, m));
  }

  /** What `ingestDocuments` returns, with the logged `totalChunks`; `Aborted`
    * when the directory walk throws (exit code 1). */
  datatype IngestOutcome = Aborted | Ingested(chunks: seq<ChunkRecord>, totalChunks: nat)

  /** The inner `forEach` over a file's chunks in `ingestDocuments` of ingest.js. */
  method PushChunks(allChunks: seq<ChunkRecord>, index: nat, chunks: seq<string>, metadata: Metadata)
    returns (r: seq<ChunkRecord>)
    ensures r == allChunks + ChunkRecords(index, chunks, metadata)
  {
    r := allChunks;
    for chunkIndex := 0 to |chunks|
      invariant |r| == |allChunks| + chunkIndex && r[..|allChunks|] == allChunks
      invariant forall j :: 0 <= j < chunkIndex ==>
        r[|allChunks| + j] == ChunkRecord(ChunkId(index, j), chunks[j], metadata, j, |chunks[j]|)
    {
      r := r + [ChunkRecord(ChunkId(index, chunkIndex), chunks[chunkIndex], metadata, chunkIndex, |chunks[chunkIndex]|)];
    }
    assert r == allChunks + ChunkRecords(index, chunks, metadata);
  }

  /** `ingestDocuments`, given the directory walk (`None` when it throws). */
  method IngestDocuments(listing: Option<seq<string>>, env: Environment) returns (r: IngestOutcome)
    ensures listing.None? <==> r.Aborted?
    ensures r.Ingested? ==> r.chunks == AllChunks(listing.value, env)
    ensures r.Ingested? ==> r.totalChunks == |r.chunks|
  {
    if listing.None? {
      return Aborted;
    }
    var markdownFiles := listing.value;
    var allChunks: seq<ChunkRecord> := [];
    var totalChunks := 0;
    for index := 0 to |markdownFiles|
      invariant allChunks == Span(0, index, ChunksAt(markdownFiles, env), MetadataAt(markdownFiles, env))
      invariant totalChunks == |allChunks|
    {
      var content := env.read(markdownFiles[index]);
      if content.Some? {
        var cleaned := env.clean(content.value);
        if |cleaned| >= MinCleanedLength {
          var metadata := Utils.ExtractMetadata(markdownFiles[index], content.value, env.relative);
          var chunks := Utils.ChunkTextLoop(env.sentences(cleaned), Utils.DefaultChunkSize);
          allChunks := PushChunks(allChunks, index, chunks, metadata);
          totalChunks := totalChunks + |chunks|;
        }
      }
    }
    return Ingested(allChunks, totalChunks);
  }
}
