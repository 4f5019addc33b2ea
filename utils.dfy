/**
 * utils.js: the sentence chunker, metadata extraction from a path and its
 * content, and the token estimate. Paths use the POSIX separator `/`.
 */
module Utils {
  import opened Outcomes
  import opened Seqs
  import opened JsText
  import opened Records

  // ---------------------------------------------------------------------------
  // chunkText
  // ---------------------------------------------------------------------------

  /** The default `chunkSize` of `chunkText`. */
  const DefaultChunkSize: int := 2000

  /** The text `currentChunk` holds after the sentences of `g` were appended to an empty chunk:
    * each one is preceded by a space unless the chunk is still empty. */
  function Glue(g: seq<string>): string
    decreases |g|
  {
    if |g| == 0 then ""
    else
      var front := Glue(g[..|g| - 1]);
      front + (if front != "" then " " else "") + g[|g| - 1]
  }

  /** The glued text is empty exactly when every sentence is empty. */
  lemma {:induction false} GlueEmpty(g: seq<string>)
    ensures Glue(g) == "" <==> forall i :: 0 <= i < |g| ==> g[i] == ""
    decreases |g|
  {
    if |g| > 0 {
      var init := g[..|g| - 1];
      GlueEmpty(init);
      assert forall i :: 0 <= i < |init| ==> init[i] == g[i];
    }
  }

  /** Empty sentences before the last one leave no trace. */
  lemma GlueLast(g: seq<string>)
    requires |g| > 0
    requires forall i :: 0 <= i < |g| - 1 ==> g[i] == ""
    ensures Glue(g) == g[|g| - 1]
  {
    var init := g[..|g| - 1];
    assert forall i :: 0 <= i < |init| ==> init[i] == "";
    GlueEmpty(init);
  }

  /** With no empty sentence, gluing is joining with single spaces. */
  lemma {:induction false} GlueIsJoin(g: seq<string>)
    requires forall i :: 0 <= i < |g| ==> g[i] != ""
    ensures Glue(g) == Join(g, " ")
    decreases |g|
  {
    if |g| > 1 {
      var init := g[..|g| - 1];
      GlueIsJoin(init);
      GlueEmpty(init);
      assert init[0] != "";
      JoinAppend(init, [g[|g| - 1]], " ");
      assert init + [g[|g| - 1]] == g;
    }
  }

  /** The chunk under construction fits the budget, or only its last sentence is non-empty. */
  predicate Fits(g: seq<string>, size: int) {
    |Glue(g)| <= size || forall i :: 0 <= i < |g| - 1 ==> g[i] == ""
  }

  /** The sentences already flushed as chunks, grouped per chunk, and those of `currentChunk`. */
  datatype ChunkerState = ChunkerState(done: seq<seq<string>>, current: seq<string>)

  /** One iteration of the `forEach` of `chunkText`. */
  function Step(st: ChunkerState, sentence: string, size: int): ChunkerState
  {
    var cur := Glue(st.current);
    if |cur + " " + sentence| > size && |cur| > 0 then ChunkerState(st.done + [st.current], [sentence])
    else ChunkerState(st.done, st.current + [sentence])
  }

  function Run(sentences: seq<string>, size: int): ChunkerState
    decreases |sentences|
  {
    if |sentences| == 0 then ChunkerState([], [])
    else Step(Run(sentences[..|sentences| - 1], size), sentences[|sentences| - 1], size)
  }

  function TrimGlue(g: seq<string>): string { Trim(Glue(g)) }

  /** `chunkText(text, chunkSize)` on the sentences `text.split(/(?<=[.!?])\s+/)` gave. */
  function ChunkText(sentences: seq<string>, size: int): (r: seq<string>)
    ensures forall k :: 0 <= k < |r| ==> Trimmed(r[k])
  {
    var st := Run(sentences, size);
    var last := TrimGlue(st.current);
    var r := Map(st.done, TrimGlue) + (if last != "" then [last] else []);
    PiecesTrimmed(Map(st.done, TrimGlue), last, r);
    r
  }

  lemma PiecesTrimmed(flushed: seq<string>, last: string, r: seq<string>)
    requires forall k :: 0 <= k < |flushed| ==> Trimmed(flushed[k])
    requires Trimmed(last) && r == flushed + (if last != "" then [last] else [])
    ensures forall k :: 0 <= k < |r| ==> Trimmed(r[k])
  {
  }

  /** Every element of a piece is an element of the concatenation. */
  lemma {:induction false} FlattenMember<T>(ss: seq<seq<T>>, g: nat, j: nat)
    requires g < |ss| && j < |ss[g]|
    ensures ss[g][j] in Flatten(ss)
  {
    if g > 0 {
      FlattenMember(ss[1..], g - 1, j);
    }
  }

  /** Concatenating non-empty pieces gives at least as many elements as there are pieces. */
  lemma {:induction false} FlattenLength<T>(ss: seq<seq<T>>)
    requires forall g :: 0 <= g < |ss| ==> |ss[g]| > 0
    ensures |Flatten(ss)| >= |ss|
  {
    if |ss| > 0 {
      FlattenLength(ss[1..]);
    }
  }

  /** The chunker's invariant: the groups and the current chunk partition the sentences seen
    * so far in order, flushed groups are non-empty, and every group fits or is a single sentence. */
  predicate Shaped(st: ChunkerState, seen: seq<string>, size: int) {
    Flatten(st.done) + st.current == seen &&
    (forall g :: 0 <= g < |st.done| ==> |st.done[g]| > 0 && Fits(st.done[g], size)) &&
    Fits(st.current, size)
  }

  /** One step of the loop keeps the invariant. */
  lemma StepShape(st: ChunkerState, seen: seq<string>, s: string, size: int)
    requires Shaped(st, seen, size)
    ensures Shaped(Step(st, s, size), seen + [s], size)
  {
    var cur := Glue(st.current);
    if |cur + " " + s| > size && |cur| > 0 {
      FlattenAppend(st.done, [st.current]);
      assert Flatten([st.current]) == st.current;
      assert |st.current| > 0;
    } else {
      var next := st.current + [s];
      assert next[..|next| - 1] == st.current;
      if |cur| == 0 {
        GlueEmpty(st.current);
      }
    }
  }

  lemma {:induction false} RunShape(sentences: seq<string>, size: int)
    ensures Shaped(Run(sentences, size), sentences, size)
    decreases |sentences|
  {
    if |sentences| > 0 {
      var init := sentences[..|sentences| - 1];
      RunShape(init, size);
      StepShape(Run(init, size), init, sentences[|sentences| - 1], size);
      assert init + [sentences[|sentences| - 1]] == sentences;
    }
  }

  /** `chunkText` never splits a sentence: each chunk is the trimmed glue of a non-empty run of
    * consecutive whole sentences, and the runs, with the sentences of the last chunk, cover the
    * sentences in order. */
  lemma ChunkTextPartition(sentences: seq<string>, size: int)
    ensures var st := Run(sentences, size);
      var chunks := ChunkText(sentences, size);
      Flatten(st.done + [st.current]) == sentences &&
      |chunks| == |st.done| + (if TrimGlue(st.current) != "" then 1 else 0) &&
      (forall k :: 0 <= k < |st.done| ==> |st.done[k]| > 0 && chunks[k] == Trim(Glue(st.done[k]))) &&
      (TrimGlue(st.current) != "" ==> chunks[|chunks| - 1] == Trim(Glue(st.current)))
  {
    var st := Run(sentences, size);
    RunShape(sentences, size);
    FlattenAppend(st.done, [st.current]);
    assert Flatten([st.current]) == st.current;
  }

  /** There are never more chunks than sentences. */
  lemma ChunkCount(sentences: seq<string>, size: int)
    ensures |ChunkText(sentences, size)| <= |sentences|
  {
    var st := Run(sentences, size);
    RunShape(sentences, size);
    FlattenLength(st.done);
    if TrimGlue(st.current) != "" {
      assert Glue(st.current) != "";
      assert |st.current| > 0;
    }
  }

  /** A group whose chunk is over budget is one sentence after empty ones. */
  lemma GroupOverBudget(g: seq<string>, size: int)
    requires |g| > 0 && Fits(g, size) && |Trim(Glue(g))| > size
    ensures Trim(Glue(g)) == Trim(g[|g| - 1])
  {
    GlueLast(g);
  }

  /** A chunk longer than `chunkSize` is a single sentence, trimmed. */
  lemma ChunkOverBudget(sentences: seq<string>, size: int)
    ensures forall k :: 0 <= k < |ChunkText(sentences, size)| && |ChunkText(sentences, size)[k]| > size ==>
      exists i :: 0 <= i < |sentences| && ChunkText(sentences, size)[k] == Trim(sentences[i])
  {
    var st := Run(sentences, size);
    var chunks := ChunkText(sentences, size);
    RunShape(sentences, size);
    ChunkTextPartition(sentences, size);
    var groups := st.done + [st.current];
    forall k | 0 <= k < |chunks| && |chunks[k]| > size
      ensures exists i :: 0 <= i < |sentences| && chunks[k] == Trim(sentences[i])
    {
      var g: nat := if k < |st.done| then k else |st.done|;
      var grp := groups[g];
      if k < |st.done| {
        assert grp == st.done[k];
        assert chunks[k] == Trim(Glue(grp));
        assert |grp| > 0 && Fits(grp, size);
      } else {
        assert grp == st.current;
        assert chunks[k] == Trim(Glue(grp));
        assert Glue(grp) != "";
        assert |grp| > 0 && Fits(grp, size);
      }
      GroupOverBudget(grp, size);
      FlattenMember(groups, g, |grp| - 1);
      assert grp[|grp| - 1] in sentences;
    }
  }

  /** Empty or white-space-only text is one blank sentence and gives no chunk. */
  lemma ChunkTextBlank(sentences: seq<string>, size: int)
    requires |sentences| == 1 && Trim(sentences[0]) == ""
    ensures ChunkText(sentences, size) == []
  {
    assert sentences[..0] == [];
    var st := Run(sentences, size);
    assert Run(sentences[..0], size) == ChunkerState([], []);
    assert st == Step(ChunkerState([], []), sentences[0], size);
    assert Glue([sentences[0]]) == sentences[0];
    assert st == ChunkerState([], [sentences[0]]);
    assert Map(st.done, TrimGlue) == [];
  }

  /** What one step does to the texts the loop keeps: the flushed chunks and `currentChunk`. */
  lemma StepTexts(st: ChunkerState, sentence: string, size: int)
    ensures var next := Step(st, sentence, size);
      var cur := Glue(st.current);
      if |cur + " " + sentence| > size && |cur| > 0 then
        Glue(next.current) == sentence && Map(next.done, TrimGlue) == Map(st.done, TrimGlue) + [Trim(cur)]
      else
        Glue(next.current) == cur + (if cur != "" then " " else "") + sentence &&
        Map(next.done, TrimGlue) == Map(st.done, TrimGlue)
  {
    var cur := Glue(st.current);
    if |cur + " " + sentence| > size && |cur| > 0 {
      FlushTexts(st.done, st.current, sentence);
    } else {
      AppendTexts(st.current, sentence);
    }
  }

  lemma FlushTexts(done: seq<seq<string>>, current: seq<string>, sentence: string)
    ensures Glue([sentence]) == sentence
    ensures Map(done + [current], TrimGlue) == Map(done, TrimGlue) + [Trim(Glue(current))]
  {
    GlueSingle(sentence);
    MapAppend(done, [current], TrimGlue);
    MapSingle(current, TrimGlue);
  }

  lemma GlueSingle(sentence: string)
    ensures Glue([sentence]) == sentence
  {
    assert [sentence][..0] == [];
  }

  lemma AppendTexts(current: seq<string>, sentence: string)
    ensures var cur := Glue(current);
      Glue(current + [sentence]) == cur + (if cur != "" then " " else "") + sentence
  {
    assert (current + [sentence])[..|current|] == current;
  }

  /** The `forEach` callback of `chunkText`: flush the current chunk before a sentence that would
    * overflow it, or append the sentence to it. */
  method ChunkStep(chunks: seq<string>, currentChunk: string, sentence: string, chunkSize: int,
                   ghost st: ChunkerState)
    returns (chunks': seq<string>, currentChunk': string)
    requires currentChunk == Glue(st.current) && chunks == Map(st.done, TrimGlue)
    ensures currentChunk' == Glue(Step(st, sentence, chunkSize).current)
    ensures chunks' == Map(Step(st, sentence, chunkSize).done, TrimGlue)
  {
    StepTexts(st, sentence, chunkSize);
    if |currentChunk + " " + sentence| > chunkSize && |currentChunk| > 0 {
      chunks' := chunks + [Trim(currentChunk)];
      currentChunk' := sentence;
    } else {
      chunks' := chunks;
      currentChunk' := currentChunk + (if currentChunk != "" then " " else "") + sentence;
    }
  }

  lemma RunNext(sentences: seq<string>, i: nat, size: int)
    requires i < |sentences|
    ensures Run(sentences[..i + 1], size) == Step(Run(sentences[..i], size), sentences[i], size)
  {
    assert sentences[..i + 1][..i] == sentences[..i];
  }

  /** The `forEach` loop of `chunkText` and its final push. */
  method ChunkTextLoop(sentences: seq<string>, chunkSize: int) returns (chunks: seq<string>)
    ensures chunks == ChunkText(sentences, chunkSize)
  {
    chunks := [];
    var currentChunk := "";
    ghost var st := ChunkerState([], []);
    var i := 0;
    while i < |sentences|
      invariant 0 <= i <= |sentences|
      invariant st == Run(sentences[..i], chunkSize)
      invariant currentChunk == Glue(st.current)
      invariant chunks == Map(st.done, TrimGlue)
    {
      chunks, currentChunk := ChunkStep(chunks, currentChunk, sentences[i], chunkSize, st);
      RunNext(sentences, i, chunkSize);
      st := Step(st, sentences[i], chunkSize);
      i := i + 1;
    }
    assert sentences[..i] == sentences;
    chunks := FinalPush(sentences, chunkSize, chunks, currentChunk, st);
  }

  /** The push after the loop: the last chunk, trimmed, when it is not blank. */
  method FinalPush(sentences: seq<string>, chunkSize: int, chunks: seq<string>, currentChunk: string,
                   ghost st: ChunkerState) returns (r: seq<string>)
    requires st == Run(sentences, chunkSize)
    requires currentChunk == Glue(st.current) && chunks == Map(st.done, TrimGlue)
    ensures r == ChunkText(sentences, chunkSize)
  {
    r := chunks;
    if Trim(currentChunk) != "" {
      r := chunks + [Trim(currentChunk)];
    }
  }

  // ---------------------------------------------------------------------------
  // extractMetadata
  // ---------------------------------------------------------------------------

  /** `filePath.split(path.sep).slice(-2)[0]`: the next-to-last component, or the whole path
    * when it has no separator. */
  function Section(path: string): (r: string)
    ensures '/' !in r
  {
    var parts := Split(path, '/');
    parts[if |parts| >= 2 then |parts| - 2 else 0]
  }

  /** For a path built from separator-free components, the section is the directory holding the file. */
  lemma SectionOfComponents(parts: seq<string>)
    requires |parts| >= 2
    requires forall k :: 0 <= k < |parts| ==> '/' !in parts[k]
    ensures Section(Join(parts, "/")) == parts[|parts| - 2]
  {
    var path := Join(parts, "/");
    assert "/" == ['/'];
    SplitJoin(parts, '/');
    SectionOfSplit(path, parts);
  }

  lemma SectionOfSplit(path: string, parts: seq<string>)
    requires |parts| >= 2 && Split(path, '/') == parts
    ensures Section(path) == parts[|parts| - 2]
  {
  }

  /** A path without a separator is its own section. */
  lemma SectionOfBareName(name: string)
    requires '/' !in name
    ensures Section(name) == name
  {
    SplitNoSep(name, '/');
  }

  function StripTrailingSlashes(p: string): (r: string)
    ensures |r| <= |p| && r == p[..|r|]
    ensures |r| == 0 || r[|r| - 1] != '/'
  {
    if |p| > 0 && p[|p| - 1] == '/' then StripTrailingSlashes(p[..|p| - 1]) else p
  }

  /** The text after the last separator. */
  function LastComponent(p: string): (r: string)
    ensures '/' !in r
    ensures |r| <= |p| && r == p[|p| - |r|..]
  {
    if |p| == 0 || p[|p| - 1] == '/' then "" else LastComponent(p[..|p| - 1]) + [p[|p| - 1]]
  }

  const Markdown: string := ".md"

  predicate EndsWith(s: string, suffix: string) {
    |suffix| <= |s| && s[|s| - |suffix|..] == suffix
  }

  /** `path.basename(filePath, '.md')`: the last component (trailing separators ignored), without
    * a `.md` ending unless the component is exactly `.md`; the path `.md` itself gives "". */
  function Basename(path: string): (r: string)
    ensures '/' !in r
  {
    if path == Markdown then ""
    else
      var c := LastComponent(StripTrailingSlashes(path));
      if |c| > |Markdown| && EndsWith(c, Markdown) then c[..|c| - |Markdown|] else c
  }

  lemma LastComponentAfterSlash(dir: string, name: string)
    requires '/' !in name
    ensures LastComponent(dir + "/" + name) == name
  {
    var p := dir + "/" + name;
    assert p[|p| - |name| - 1] == '/';
    assert forall i :: |p| - |name| <= i < |p| ==> p[i] == name[i - (|p| - |name|)];
    LastComponentOfTail(p, |name|);
    assert p[|p| - |name|..] == name;
  }

  /** The component after a slash followed by `n` non-slash characters is those characters. */
  lemma {:induction false} LastComponentOfTail(p: string, n: nat)
    requires n < |p| && p[|p| - n - 1] == '/'
    requires forall i :: |p| - n <= i < |p| ==> p[i] != '/'
    ensures LastComponent(p) == p[|p| - n..]
    decreases n
  {
    if n == 0 {
      assert p[|p| - 1] == '/';
    } else {
      var q := p[..|p| - 1];
      assert q[|q| - (n - 1) - 1] == '/';
      LastComponentOfTail(q, n - 1);
      assert p[|p| - n..] == q[|q| - (n - 1)..] + [p[|p| - 1]];
    }
  }

  /** The basename of `dir/name.md` is `name`. */
  lemma BasenameOfMarkdown(dir: string, name: string)
    requires '/' !in name && |name| > 0
    ensures Basename(dir + "/" + name + Markdown) == name
  {
    var p := dir + "/" + name + Markdown;
    assert p == dir + "/" + (name + Markdown);
    assert StripTrailingSlashes(p) == p;
    LastComponentAfterSlash(dir, name + Markdown);
    var c := name + Markdown;
    assert c[..|c| - |Markdown|] == name;
    assert |p| > |Markdown|;
  }

  predicate IsDigit(c: char) { '0' <= c <= '9' }

  /** The number of ASCII digits `s` starts with. */
  function LeadingDigits(s: string): (k: nat)
    ensures k <= |s|
    ensures forall i :: 0 <= i < k ==> IsDigit(s[i])
    ensures k < |s| ==> !IsDigit(s[k])
  {
    if |s| > 0 && IsDigit(s[0]) then 1 + LeadingDigits(s[1..]) else 0
  }

  /** `.replace(/^\d+-/, '')`: one leading run of digits and the dash after it removed. */
  function StripNumberPrefix(s: string): string
  {
    var k := LeadingDigits(s);
    if 0 < k < |s| && s[k] == '-' then s[k + 1..] else s
  }

  lemma {:induction false} LeadingDigitsOf(d: string, rest: string)
    requires forall i :: 0 <= i < |d| ==> IsDigit(d[i])
    ensures LeadingDigits(d + "-" + rest) == |d|
    decreases |d|
  {
    if |d| > 0 {
      assert (d + "-" + rest)[1..] == d[1..] + "-" + rest;
      LeadingDigitsOf(d[1..], rest);
    }
  }

  /** The number prefix `digits-` is removed, and only it. */
  lemma StripNumbered(d: string, rest: string)
    requires |d| > 0 && forall i :: 0 <= i < |d| ==> IsDigit(d[i])
    ensures StripNumberPrefix(d + "-" + rest) == rest
  {
    LeadingDigitsOf(d, rest);
    assert (d + "-" + rest)[|d| + 1..] == rest;
  }

  /** A name that does not start with digits and a dash is kept. */
  lemma StripUnnumbered(s: string)
    requires |s| == 0 || !IsDigit(s[0])
    ensures StripNumberPrefix(s) == s
  {
  }

  /** `.replace(/-/g, ' ')`. */
  function ReplaceDashes(s: string): (r: string)
    ensures |r| == |s| && '-' !in r
    ensures forall i :: 0 <= i < |s| && s[i] != '-' ==> r[i] == s[i]
  {
    seq(|s|, i requires 0 <= i < |s| => if s[i] == '-' then ' ' else s[i])
  }

  /** The title derived from the file name. */
  function FilenameTitle(path: string): string
  {
    ReplaceDashes(StripNumberPrefix(Basename(path)))
  }

  /** For `dir/NN-some-name.md` the filename title is `some name`. */
  lemma FilenameTitleOfNumbered(dir: string, d: string, name: string)
    requires |d| > 0 && forall i :: 0 <= i < |d| ==> IsDigit(d[i])
    requires '/' !in name
    ensures FilenameTitle(dir + "/" + d + "-" + name + Markdown) == ReplaceDashes(name)
  {
    var base := d + "-" + name;
    assert '/' !in base by {
      forall i | 0 <= i < |base| ensures base[i] != '/' {
        if i < |d| { assert IsDigit(d[i]); } else if i > |d| { assert base[i] == name[i - |d| - 1]; }
      }
    }
    assert dir + "/" + d + "-" + name + Markdown == dir + "/" + base + Markdown;
    BasenameOfMarkdown(dir, base);
    StripNumbered(d, name);
  }

  const TitleKey: string := "title:"

  /** The match of `/title:\s*"([^"]+)"/` at index `i`, as its captured group: the key, as much
    * white space as there is, a quote, one or more non-quote characters, a quote. */
  function TitleAt(content: string, i: nat): (r: Option<string>)
    ensures r.Some? ==> |r.value| > 0 && '"' !in r.value
    ensures r.Some? ==> MatchAt(content, TitleKey, i)
  {
    if !MatchAt(content, TitleKey, i) then None
    else
      var v := TrimStart(content[i + |TitleKey|..]);
      if |v| > 0 && v[0] == '"' then
        match IndexOf(v[1..], "\"")
        case Some(k) => if k > 0 then NoQuoteBefore(v[1..], k); Some(v[1..][..k]) else None
        case None => None
      else None
  }

  /** No quote comes before the first quote. */
  lemma NoQuoteBefore(s: string, k: nat)
    requires k <= |s|
    requires forall i: nat :: i < k ==> !MatchAt(s, "\"", i)
    ensures '"' !in s[..k]
  {
    forall i | 0 <= i < k ensures s[i] != '"' {
      assert !MatchAt(s, "\"", i);
      assert s[i..i + 1] == [s[i]];
    }
  }

  /** The first `Some` that `f` gives at an index from `from` to `end`. */
  function FirstSome<T>(f: nat -> Option<T>, from: nat, end: nat): Option<T>
    requires from <= end
    decreases end - from
  {
    if f(from).Some? then f(from)
    else if from == end then None
    else FirstSome(f, from + 1, end)
  }

  /** The index where `FirstSome` stops: the first one where `f` gives `Some`, or `end`. */
  ghost function FirstIndex<T>(f: nat -> Option<T>, from: nat, end: nat): (i: nat)
    requires from <= end
    ensures from <= i <= end
    decreases end - from
  {
    if f(from).Some? || from == end then from else FirstIndex(f, from + 1, end)
  }

  /** `FirstSome` gives what `f` gives at `FirstIndex`, and `f` gives `None` at every index before it. */
  lemma {:induction false} FirstSomeAtIndex<T>(f: nat -> Option<T>, from: nat, end: nat)
    requires from <= end
    ensures FirstSome(f, from, end) == f(FirstIndex(f, from, end))
    ensures forall j :: from <= j < FirstIndex(f, from, end) ==> f(j).None?
    decreases end - from
  {
    if f(from).None? && from < end {
      FirstSomeAtIndex(f, from + 1, end);
    }
  }

  /** `FirstSome` gives `None` only when `f` gives `None` everywhere in the range. */
  lemma {:induction false} FirstSomeNone<T>(f: nat -> Option<T>, from: nat, end: nat)
    requires from <= end
    requires FirstSome(f, from, end).None?
    ensures forall i :: from <= i <= end ==> f(i).None?
    decreases end - from
  {
    if from < end {
      FirstSomeNone(f, from + 1, end);
    }
  }

  function TitleMatcher(content: string): nat -> Option<string>
  {
    (i: nat) => TitleAt(content, i)
  }

  /** `content.match(...)`: the leftmost match at or after `from`. */
  function FindTitle(content: string, from: nat): Option<string>
    requires from <= |content|
  {
    FirstSome(TitleMatcher(content), from, |content|)
  }

  /** The match found is the one at the leftmost index where the pattern matches; none is found
    * exactly when it matches nowhere. */
  lemma FindTitleLeftmost(content: string, from: nat)
    requires from <= |content|
    ensures FindTitle(content, from).Some? ==>
      exists i :: from <= i <= |content| && TitleAt(content, i) == FindTitle(content, from) &&
        (forall j :: from <= j < i ==> TitleAt(content, j).None?)
    ensures FindTitle(content, from).None? ==> forall i :: from <= i <= |content| ==> TitleAt(content, i).None?
  {
    if FindTitle(content, from).Some? {
      FindTitleAt(content, from);
    } else {
      FindTitleNowhere(content, from);
    }
  }

  lemma FindTitleAt(content: string, from: nat)
    requires from <= |content| && FindTitle(content, from).Some?
    ensures exists i :: from <= i <= |content| && TitleAt(content, i) == FindTitle(content, from) &&
                        (forall j :: from <= j < i ==> TitleAt(content, j).None?)
  {
    var f := TitleMatcher(content);
    FirstSomeAtIndex(f, from, |content|);
    var k := FirstIndex(f, from, |content|);
    assert TitleAt(content, k) == f(k);
    assert forall j :: from <= j < k ==> TitleAt(content, j) == f(j);
  }

  lemma FindTitleNowhere(content: string, from: nat)
    requires from <= |content| && FindTitle(content, from).None?
    ensures forall i :: from <= i <= |content| ==> TitleAt(content, i).None?
  {
    var f := TitleMatcher(content);
    FirstSomeNone(f, from, |content|);
    assert forall i :: from <= i <= |content| ==> TitleAt(content, i) == f(i);
  }

  /** `extractMetadata(filePath, content)`; `relative` stands for `path.relative(process.cwd(), ·)`. */
  function ExtractMetadata(path: string, content: string, relative: string -> string): (r: Metadata)
    ensures r.section == Section(path)
    ensures r.file == relative(path)
  {
    var title := match FindTitle(content, 0)
      case Some(t) => t
      case None => FilenameTitle(path);
    Metadata(Section(path), title, relative(path))
  }

  /** A `title: "..."` in the content overrides the file name: the title is the value of the
    * leftmost such line. Without one, the title comes from the file name. */
  lemma TitlePrecedence(path: string, content: string, relative: string -> string)
    ensures (exists i :: 0 <= i <= |content| && TitleAt(content, i).Some?) ==>
      exists i :: 0 <= i <= |content| && TitleAt(content, i) == Some(ExtractMetadata(path, content, relative).title)
    ensures (forall i :: 0 <= i <= |content| ==> TitleAt(content, i).None?) ==>
      ExtractMetadata(path, content, relative).title == FilenameTitle(path)
  {
    FindTitleLeftmost(content, 0);
  }

  // ---------------------------------------------------------------------------
  // tokenCount and formatChunk
  // ---------------------------------------------------------------------------

  /** `Math.ceil(text.length / 4)`: the least `n` with `4n >= |text|`. */
  function TokenCount(text: string): (n: nat)
    ensures 4 * n >= |text|
    ensures 4 * (n - 1) < |text| || n == 0
  {
    (|text| + 3) / 4
  }

  datatype FormattedChunk = FormattedChunk(text: string, metadata: Metadata, tokens: nat)

  /** `formatChunk(chunk, metadata)`: the text and metadata unchanged, with its token estimate. */
  function FormatChunk(chunk: string, metadata: Metadata): (r: FormattedChunk)
    ensures r.text == chunk && r.metadata == metadata
    ensures 4 * r.tokens >= |chunk| && (r.tokens == 0 || 4 * (r.tokens - 1) < |chunk|)
  {
    FormattedChunk(chunk, metadata, TokenCount(chunk))
  }
}
