/**
 * The ingestion script `rag/ingest.mjs`: the line pass of `cleanMarkdown`,
 * the greedy word chunker `splitIntoChunks` and the record-building loop
 * of `ingest`.
 *
 * The three regular-expression replacements that open `cleanMarkdown`
 * (front matter, code fences, HTML comments) are the parameter `stripBlocks`;
 * reading a file is the parameter `read`, which yields `None` when the read
 * throws; `path.relative(PROJECT_ROOT, file)` is the parameter `relative`.
 */
module IngestPipeline {
  import opened Outcomes
  import opened Seqs
  import opened JsText
  import opened Records

  /** The chunk size `ingest` passes to `splitIntoChunks`. */
  const IngestChunkSize: int := 500
  /** Chunks of this many characters or fewer are dropped. */
  const MinChunkLength: nat := 50

  // ---------------------------------------------------------------------
  // The line pass of `cleanMarkdown` in ingest.mjs: split on '\n', trim, drop empty, join.
  // ---------------------------------------------------------------------

  predicate NonEmpty(line: string) { |line| > 0 }

  /** The lines the line pass keeps: every line trimmed, the empty ones dropped. */
  function CleanedLines(text: string): seq<string>
  {
    Filter(Map(Split(text, '\n'), Trim), NonEmpty)
  }

  /** The line pass of `cleanMarkdown`. */
  function CleanLines(text: string): string
  {
    Join(CleanedLines(text), "\n")
  }

  /** `cleanMarkdown`: the block-removing replacements, then the line pass. */
  function CleanMarkdown(content: string, stripBlocks: string -> string): string
  {
    CleanLines(stripBlocks(content))
  }

  /** Every kept line is non-empty, trimmed and free of line breaks. */
  lemma CleanedLinesShape(text: string)
    ensures forall k :: 0 <= k < |CleanedLines(text)| ==>
      (CleanedLines(text)[k] != "" && Trimmed(CleanedLines(text)[k]) && '\n' !in CleanedLines(text)[k])
  {
    var parts := Split(text, '\n');
    var trimmed := Map(parts, Trim);
    var kept := CleanedLines(text);
    forall k | 0 <= k < |kept|
      ensures kept[k] != "" && Trimmed(kept[k]) && '\n' !in kept[k]
    {
      assert kept[k] in trimmed;
      var i :| 0 <= i < |trimmed| && trimmed[i] == kept[k];
      TrimKeepsAbsent(parts[i], '\n');
    }
  }

  /** The result is empty exactly when no line survives; otherwise its lines are
    * exactly the kept lines, so none is empty and none has surrounding whitespace. */
  lemma CleanLinesLines(text: string)
    ensures CleanLines(text) == "" <==> CleanedLines(text) == []
    ensures CleanLines(text) != "" ==> Split(CleanLines(text), '\n') == CleanedLines(text)
    ensures CleanLines(text) != "" ==> forall k :: 0 <= k < |Split(CleanLines(text), '\n')| ==>
      (Split(CleanLines(text), '\n')[k] != "" && Trimmed(Split(CleanLines(text), '\n')[k]))
  {
    var kept := CleanedLines(text);
    CleanedLinesShape(text);
    if kept != [] {
      JoinLength(kept, "\n");
      assert TotalLength(kept) >= |kept[0]|;
      SplitJoin(kept, '\n');
    }
  }

  /** Applying the line pass twice equals applying it once. */
  lemma CleanLinesIdempotent(text: string)
    ensures CleanLines(CleanLines(text)) == CleanLines(text)
  {
    var once := CleanLines(text);
    var kept := CleanedLines(text);
    CleanLinesLines(text);
    if once == "" {
      EmptyTextClean();
    } else {
      CleanedLinesShape(text);
      CleanLinesFixed(kept);
      assert CleanedLines(once) == kept;
    }
  }

  lemma EmptyTextClean()
    ensures CleanLines("") == ""
  {
    assert Split("", '\n') == [""];
    assert Map([""], Trim) == [""];
    assert Filter([""], NonEmpty) == [];
  }

  /** Lines that are already trimmed and non-empty pass the trim-and-filter unchanged. */
  lemma CleanLinesFixed(kept: seq<string>)
    requires forall k :: 0 <= k < |kept| ==> kept[k] != "" && Trimmed(kept[k])
    ensures Filter(Map(kept, Trim), NonEmpty) == kept
  {
    assert Map(kept, Trim) == kept;
    FilterAll(kept, NonEmpty);
  }

  // ---------------------------------------------------------------------
  // `splitIntoChunks` of ingest.mjs.
  // ---------------------------------------------------------------------

  /** A chunk is flushed once it holds `chunkSize` words; with `chunkSize <= 1`
    * every word is flushed on its own. */
  function GroupSize(chunkSize: int): (b: nat)
    ensures b > 0
    ensures chunkSize >= 1 ==> b == chunkSize
  {
    if chunkSize >= 1 then chunkSize else 1
  }

  /** The word groups the loop of `splitIntoChunks` accumulates. */
  function WordGroups(words: seq<string>, chunkSize: int): (r: seq<seq<string>>)
    ensures Flatten(r) == words
    ensures forall g :: 0 <= g < |r| ==> 0 < |r[g]|
    ensures chunkSize >= 1 ==> forall g :: 0 <= g < |r| ==> |r[g]| <= chunkSize
    ensures chunkSize >= 1 ==> forall g :: 0 <= g < |r| - 1 ==> |r[g]| == chunkSize
    ensures chunkSize < 1 ==> forall g :: 0 <= g < |r| ==> |r[g]| == 1
  {
    Groups(words, GroupSize(chunkSize))
  }

  /** `currentChunk.join(' ')`. */
  function JoinWords(words: seq<string>): string { Join(words, " ") }

  predicate LongEnough(chunk: string) { |chunk| > MinChunkLength }

  /** The chunks before the length filter. */
  function RawChunks(words: seq<string>, chunkSize: int): seq<string>
  {
    Map(WordGroups(words, chunkSize), JoinWords)
  }

  /** What `splitIntoChunks(text, chunkSize)` returns: the raw chunks longer than
    * 50 characters, in their original order. */
  function Chunks(text: string, chunkSize: int): (r: seq<string>)
    ensures forall i :: 0 <= i < |r| ==> |r[i]| > MinChunkLength && r[i] in RawChunks(SplitWs(text), chunkSize)
    ensures forall i :: 0 <= i < |RawChunks(SplitWs(text), chunkSize)| && |RawChunks(SplitWs(text), chunkSize)[i]| > MinChunkLength ==>
      RawChunks(SplitWs(text), chunkSize)[i] in r
  {
    Filter(RawChunks(SplitWs(text), chunkSize), LongEnough)
  }

  /** Joining groups of words with spaces, and the results again with spaces,
    * is joining all the words with spaces. */
  lemma {:induction false} JoinGroups(groups: seq<seq<string>>)
    requires forall g :: 0 <= g < |groups| ==> |groups[g]| > 0
    ensures Join(Map(groups, JoinWords), " ") == Join(Flatten(groups), " ")
  {
    if |groups| == 1 {
      assert Flatten(groups) == groups[0] + Flatten(groups[1..]);
      assert Flatten(groups[1..]) == [];
      assert Flatten(groups) == groups[0];
    } else if |groups| > 1 {
      var rest := groups[1..];
      JoinGroups(rest);
      assert Map(groups, JoinWords)[1..] == Map(rest, JoinWords);
      assert Flatten(rest) == rest[0] + Flatten(rest[1..]);
      JoinAppend(groups[0], Flatten(rest), " ");
    }
  }

  /** Joining the pre-filter chunks with a space reproduces the words in order. */
  lemma RawChunksJoin(words: seq<string>, chunkSize: int)
    ensures Join(RawChunks(words, chunkSize), " ") == Join(words, " ")
  {
    JoinGroups(WordGroups(words, chunkSize));
  }

  /** Empty text splits into one empty word, whose chunk is too short to keep. */
  lemma EmptyTextNoChunks(chunkSize: int)
    ensures Chunks("", chunkSize) == []
  {
    assert SplitWs("") == [""];
    assert WordGroups([""], chunkSize) == [[""]];
    assert RawChunks([""], chunkSize) == [""];
  }

  /** A full group closes: it is appended to the groups and its joined words to the raw chunks. */
  lemma FullGroup(done: seq<seq<string>>, currentChunk: seq<string>, raw: seq<string>, size: nat)
    requires forall g :: 0 <= g < |done| ==> |done[g]| == size
    requires |currentChunk| == size
    requires |raw| == |done| && forall g :: 0 <= g < |done| ==> raw[g] == JoinWords(done[g])
    ensures Flatten(done + [currentChunk]) == Flatten(done) + currentChunk
    ensures forall g :: 0 <= g < |done| + 1 ==> |(done + [currentChunk])[g]| == size
    ensures forall g :: 0 <= g < |done| + 1 ==> (raw + [Join(currentChunk, " ")])[g] == JoinWords((done + [currentChunk])[g])
  {
    FlattenAppend(done, [currentChunk]);
    assert Flatten([currentChunk]) == currentChunk + Flatten([currentChunk][1..]);
  }

  /** After the word loop: the pending words, if any, form the last group, and the joined
    * groups are the raw chunks. */
  lemma LastGroup(words: seq<string>, chunkSize: int, done: seq<seq<string>>, currentChunk: seq<string>,
                  raw: seq<string>)
    requires Flatten(done) + currentChunk == words
    requires forall g :: 0 <= g < |done| ==> |done[g]| == GroupSize(chunkSize)
    requires |currentChunk| < GroupSize(chunkSize)
    requires |raw| == |done| && forall g :: 0 <= g < |done| ==> raw[g] == JoinWords(done[g])
    ensures (if |currentChunk| > 0 then raw + [Join(currentChunk, " ")] else raw) == RawChunks(words, chunkSize)
  {
    GroupsUnique(done, currentChunk, GroupSize(chunkSize));
    var all := done + (if |currentChunk| > 0 then [currentChunk] else []);
    assert all == WordGroups(words, chunkSize);
    var r := if |currentChunk| > 0 then raw + [Join(currentChunk, " ")] else raw;
    assert |r| == |all| && forall g :: 0 <= g < |all| ==> r[g] == JoinWords(all[g]);
  }

  /** `splitIntoChunks`. */
  method SplitIntoChunks(text: string, chunkSize: int) returns (chunks: seq<string>)
    ensures chunks == Chunks(text, chunkSize)
  {
    var words := SplitWs(text);
    ghost var size := GroupSize(chunkSize);
    ghost var done: seq<seq<string>> := [];
    var raw: seq<string> := [];
    var currentChunk: seq<string> := [];
    var wordCount := 0;
    for i := 0 to |words|
      invariant Flatten(done) + currentChunk == words[..i]
      invariant forall g :: 0 <= g < |done| ==> |done[g]| == size
      invariant wordCount == |currentChunk| < size
      invariant |raw| == |done|
      invariant forall g :: 0 <= g < |done| ==> raw[g] == JoinWords(done[g])
    {
      currentChunk := currentChunk + [words[i]];
      wordCount := wordCount + 1;
      if wordCount >= chunkSize {
        FullGroup(done, currentChunk, raw, size);
        raw := raw + [Join(currentChunk, " ")];
        done := done + [currentChunk];
        currentChunk := [];
        wordCount := 0;
      }
    }
    assert words[..|words|] == words;
    LastGroup(words, chunkSize, done, currentChunk, raw);
    if |currentChunk| > 0 {
      raw := raw + [Join(currentChunk, " ")];
    }
    chunks := Filter(raw, LongEnough);
  }

  // ---------------------------------------------------------------------
  // `ingest` of ingest.mjs.
  // ---------------------------------------------------------------------

  /** How a run of `ingest` ends: the directory walk throws (exit code 1), no
    * markdown file is found (nothing is written), or the records are written. */
  datatype IngestOutcome = Aborted | NoFiles | Written(records: seq<TextChunk>)

  /** One record per chunk, each carrying the file's relative path and the chunk's length. */
  function RecordsOf(chunks: seq<string>, source: string): (r: seq<TextChunk>)
    ensures |r| == |chunks|
    ensures forall i :: 0 <= i < |chunks| ==> r[i] == TextChunk(chunks[i], source, |chunks[i]|)
  {
    if |chunks| == 0 then [] else [TextChunk(chunks[0], source, |chunks[0]|)] + RecordsOf(chunks[1..], source)
  }

  /** The records one file adds; a file whose read throws adds none. */
  function FileRecords(file: string, read: string -> Option<string>, stripBlocks: string -> string,
                       relative: string -> string): seq<TextChunk>
  {
    match read(file)
    case None => []
    case Some(content) => RecordsOf(Chunks(CleanMarkdown(content, stripBlocks), IngestChunkSize), relative(file))
  }

  function FileRecordsOf(read: string -> Option<string>, stripBlocks: string -> string,
                         relative: string -> string): string -> seq<TextChunk>
  {
    file => FileRecords(file, read, stripBlocks, relative)
  }

  /** All records, file after file, each file's in chunk order. */
  function IngestRecords(files: seq<string>, read: string -> Option<string>, stripBlocks: string -> string,
                         relative: string -> string): seq<TextChunk>
  {
    FlatMap(files, FileRecordsOf(read, stripBlocks, relative))
  }

  /** The outcome of `ingest`, given the directory walk (`None` when it throws). */
  function IngestResult(listing: Option<seq<string>>, read: string -> Option<string>, stripBlocks: string -> string,
                        relative: string -> string): (r: IngestOutcome)
    ensures r.Aborted? <==> listing.None?
    ensures r.NoFiles? <==> listing == Some([])
    ensures r.Written? ==> r.records == IngestRecords(listing.value, read, stripBlocks, relative)
  {
    match listing
    case None => Aborted
    case Some(files) => if |files| == 0 then NoFiles else Written(IngestRecords(files, read, stripBlocks, relative))
  }

  /** A file whose read throws is skipped; the files before and after it are processed as usual. */
  lemma FailingFileSkipped(before: seq<string>, file: string, after: seq<string>, read: string -> Option<string>,
                           stripBlocks: string -> string, relative: string -> string)
    requires read(file).None?
    ensures IngestRecords(before + [file] + after, read, stripBlocks, relative)
         == IngestRecords(before, read, stripBlocks, relative) + IngestRecords(after, read, stripBlocks, relative)
  {
    var f := FileRecordsOf(read, stripBlocks, relative);
    assert f(file) == [];
    assert [file][..0] == [];
    assert FlatMap([file], f) == [];
    FlatMapAppend(before, [file], f);
    var front := FlatMap(before + [file], f);
    assert front == FlatMap(before, f);
    FlatMapAppend(before + [file], after, f);
    assert FlatMap(before + [file] + after, f) == front + FlatMap(after, f);
  }

  /** Each record of one file has `length == text.length`, more than 50
    * characters, and the file's relative path as its source. */
  lemma FileRecordsShape(file: string, read: string -> Option<string>, stripBlocks: string -> string,
                         relative: string -> string, rec: TextChunk)
    requires rec in FileRecords(file, read, stripBlocks, relative)
    ensures read(file).Some?
    ensures rec.length == |rec.text| && |rec.text| > MinChunkLength && rec.source == relative(file)
  {
    var chunks := Chunks(CleanMarkdown(read(file).value, stripBlocks), IngestChunkSize);
    var j :| 0 <= j < |chunks| && FileRecords(file, read, stripBlocks, relative)[j] == rec;
  }

  /** Every record of a run has `length == text.length`, more than 50 characters,
    * and the relative path of a file that was read as its source. */
  lemma IngestRecordsShape(files: seq<string>, read: string -> Option<string>,
                           stripBlocks: string -> string, relative: string -> string)
    ensures forall k :: 0 <= k < |IngestRecords(files, read, stripBlocks, relative)| ==>
      (IngestRecords(files, read, stripBlocks, relative)[k].length == |IngestRecords(files, read, stripBlocks, relative)[k].text|
       && |IngestRecords(files, read, stripBlocks, relative)[k].text| > MinChunkLength
       && exists i :: 0 <= i < |files| && read(files[i]).Some?
            && IngestRecords(files, read, stripBlocks, relative)[k].source == relative(files[i]))
  {
    var f := FileRecordsOf(read, stripBlocks, relative);
    var all := IngestRecords(files, read, stripBlocks, relative);
    forall k | 0 <= k < |all|
      ensures all[k].length == |all[k].text| && |all[k].text| > MinChunkLength
      ensures exists i :: 0 <= i < |files| && read(files[i]).Some? && all[k].source == relative(files[i])
    {
      FlatMapMember(files, f, k);
      var i :| 0 <= i < |files| && all[k] in f(files[i]);
      FileRecordsShape(files[i], read, stripBlocks, relative, all[k]);
    }
  }

  /** Conversely, every file's records appear in the run, in chunk order, between those of the
    * files before it and those of the files after it. */
  lemma FileRecordsIncluded(files: seq<string>, i: nat, read: string -> Option<string>,
                            stripBlocks: string -> string, relative: string -> string)
    requires i < |files|
    ensures IngestRecords(files, read, stripBlocks, relative)
         == IngestRecords(files[..i], read, stripBlocks, relative) + FileRecords(files[i], read, stripBlocks, relative)
            + IngestRecords(files[i + 1..], read, stripBlocks, relative)
    ensures forall rec :: rec in FileRecords(files[i], read, stripBlocks, relative) ==>
      rec in IngestRecords(files, read, stripBlocks, relative)
  {
    var f := FileRecordsOf(read, stripBlocks, relative);
    assert files == files[..i] + [files[i]] + files[i + 1..];
    assert [files[i]][..0] == [];
    assert FlatMap([files[i]], f) == f(files[i]);
    FlatMapAppend(files[..i], [files[i]], f);
    FlatMapAppend(files[..i] + [files[i]], files[i + 1..], f);
  }

  /** The inner loop over a file's chunks in `ingest`: one record per chunk, appended in chunk order. */
  method PushRecords(allChunks: seq<TextChunk>, chunks: seq<string>, source: string) returns (r: seq<TextChunk>)
    ensures r == allChunks + RecordsOf(chunks, source)
  {
    r := allChunks;
    for c := 0 to |chunks|
      invariant |r| == |allChunks| + c && r[..|allChunks|] == allChunks
      invariant forall i :: 0 <= i < c ==> r[|allChunks| + i] == TextChunk(chunks[i], source, |chunks[i]|)
    {
      r := r + [TextChunk(chunks[c], source, |chunks[c]|)];
    }
    assert r == allChunks + RecordsOf(chunks, source);
  }

  /** `ingest`. */
  method Ingest(listing: Option<seq<string>>, read: string -> Option<string>, stripBlocks: string -> string,
                relative: string -> string) returns (r: IngestOutcome)
    ensures r == IngestResult(listing, read, stripBlocks, relative)
  {
    if listing.None? {
      return Aborted;
    }
    var files := listing.value;
    if |files| == 0 {
      return NoFiles;
    }
    var allChunks: seq<TextChunk> := [];
    for f := 0 to |files|
      invariant allChunks == IngestRecords(files[..f], read, stripBlocks, relative)
    {
      assert files[..f + 1][..f] == files[..f];
      assert IngestRecords(files[..f + 1], read, stripBlocks, relative)
          == allChunks + FileRecords(files[f], read, stripBlocks, relative);
      var content := read(files[f]);
      if content.Some? {
        var cleaned := CleanMarkdown(content.value, stripBlocks);
        var chunks := SplitIntoChunks(cleaned, IngestChunkSize);
        var source := relative(files[f]);
        allChunks := PushRecords(allChunks, chunks, source);
      }
    }
    assert files[..|files|] == files;
    return Written(allChunks);
  }
}
