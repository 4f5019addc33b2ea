/**
 * server.js: the `/api/chat` server over the search.js vector store: context
 * assembly, the generation step with its keyword-line template fallback, and
 * the handler's branches.
 */
module ChatServer {
  import opened Outcomes
  import opened Seqs
  import opened JsText
  import opened Records
  import Ranking
  import Search

  /** The number of hits `/api/chat` asks `searchByText` for. */
  const ChatHits: int := 4

  const BlockSeparator: string := "\n\n---\n\n"
  const ContextExcerpt: nat := 400
  const FallbackExcerpt: nat := 500
  const MaxRelevantLines: nat := 3

  const TemplateHeader: string := "Based on the textbook:\n\n"
  const TemplateFallback: string :=
    "I found relevant information in the textbook, but I cannot generate a detailed response without the full generation model. Here's the context:\n\n"
  const NoMatchReply: string := "I couldn't find relevant information in the textbook to answer your question."
  const ErrorReply: string := "Sorry, there was an error processing your question."

  // ---------------------------------------------------------------------------
  // formatContext
  // ---------------------------------------------------------------------------

  /** `[${section}] ${title}`. */
  function SourceLabel(m: Metadata): string
  {
    "[" + m.section + "] " + m.title
  }

  /** One context block for the hit numbered `n`; `round` is `Math.round`. */
  function Block(c: ScoredChunk, n: nat, round: real -> int): (r: string)
    ensures StartsWith(r, "[" + NatToString(n) + "] (" + IntToString(round(c.score * 100.0)) + "% match) ")
    ensures Includes(r, SourceLabel(c.item.chunk.metadata) + "\n" + Prefix(c.item.chunk.text, ContextExcerpt) + "...")
    ensures |r| >= 3 && r[|r| - 3..] == "..."
  {
    var head := "[" + NatToString(n) + "] (" + IntToString(round(c.score * 100.0)) + "% match) ";
    var tail := SourceLabel(c.item.chunk.metadata) + "\n" + Prefix(c.item.chunk.text, ContextExcerpt) + "...";
    IncludesSuffix(head, tail);
    head + tail
  }

  /** A string occurs at the end of any string it is appended to. */
  lemma {:induction false} IncludesSuffix(a: string, b: string)
    ensures Includes(a + b, b)
    decreases |a|
  {
    if |a| == 0 {
      assert (a + b)[..|b|] == b;
    } else {
      assert (a + b)[1..] == a[1..] + b;
      IncludesSuffix(a[1..], b);
    }
  }

  /** The blocks of `formatContext`, numbered from 1 in result order. */
  function Blocks(chunks: seq<ScoredChunk>, round: real -> int): (r: seq<string>)
    ensures |r| == |chunks|
    ensures forall i :: 0 <= i < |chunks| ==> r[i] == Block(chunks[i], i + 1, round)
  {
    seq(|chunks|, i requires 0 <= i < |chunks| => Block(chunks[i], i + 1, round))
  }

  /** `formatContext(chunks)`: the blocks joined with `'\n\n---\n\n'`. */
  function FormatContext(chunks: seq<ScoredChunk>, round: real -> int): string
  {
    Join(Blocks(chunks, round), BlockSeparator)
  }

  /** No hits give the empty context; `n > 0` hits give the blocks with exactly `n - 1`
    * separators between them. */
  lemma FormatContextLength(chunks: seq<ScoredChunk>, round: real -> int)
    ensures |chunks| == 0 ==> FormatContext(chunks, round) == ""
    ensures |chunks| > 0 ==>
      |FormatContext(chunks, round)| == TotalLength(Blocks(chunks, round)) + (|chunks| - 1) * |BlockSeparator|
    ensures |chunks| > 0 ==> StartsWith(FormatContext(chunks, round), "[1] (")
  {
    if |chunks| > 0 {
      var b := Blocks(chunks, round);
      JoinLength(b, BlockSeparator);
      FirstBlock(chunks[0], round);
      JoinStartsWith(b, BlockSeparator);
      StartsWithTrans(Join(b, BlockSeparator), b[0], "[1] (");
    }
  }

  /** The first block is numbered 1. */
  lemma FirstBlock(c: ScoredChunk, round: real -> int)
    ensures StartsWith(Block(c, 1, round), "[1] (")
  {
    var percent := IntToString(round(c.score * 100.0));
    var head := "[" + NatToString(1) + "] (" + percent + "% match) ";
    assert NatToString(1) == "1";
    HeadOfFirst(NatToString(1), percent);
    StartsWithTrans(Block(c, 1, round), head, "[1] (");
  }

  lemma HeadOfFirst(one: string, percent: string)
    requires one == "1"
    ensures StartsWith("[" + one + "] (" + percent + "% match) ", "[1] (")
  {
    var head := "[" + one + "] (" + percent + "% match) ";
    assert head[..5] == "[1] (";
  }

  /** A join begins with its first part. */
  lemma JoinStartsWith(parts: seq<string>, sep: string)
    requires |parts| > 0
    ensures StartsWith(Join(parts, sep), parts[0])
  {
    if |parts| > 1 {
      assert (parts[0] + sep + Join(parts[1..], sep))[..|parts[0]|] == parts[0];
    }
  }

  // ---------------------------------------------------------------------------
  // generateTemplateResponse
  // ---------------------------------------------------------------------------

  /** `query.toLowerCase().split(/\s+/)`. */
  function Keywords(query: string, lower: string -> string): seq<string>
  {
    SplitWs(lower(query))
  }

  /** `l.trim()` is truthy. */
  predicate NonBlank(line: string) { Trim(line) != "" }

  /** `keywords.some(kw => line.toLowerCase().includes(kw))`. */
  predicate Relevant(line: string, keywords: seq<string>, lower: string -> string) {
    exists k :: 0 <= k < |keywords| && Includes(lower(line), keywords[k])
  }

  function RelevantTo(keywords: seq<string>, lower: string -> string): string -> bool
  {
    line => Relevant(line, keywords, lower)
  }

  /** The non-blank lines of the context. */
  function ContextLines(context: string): seq<string>
  {
    Filter(Split(context, '\n'), NonBlank)
  }

  /** The first three non-blank context lines that contain some keyword: at most three, each
    * a non-blank line of the context that contains a keyword. */
  function RelevantLines(query: string, context: string, lower: string -> string): (r: seq<string>)
    ensures |r| <= MaxRelevantLines
    ensures forall i :: 0 <= i < |r| ==>
      r[i] in Split(context, '\n') && NonBlank(r[i]) && Relevant(r[i], Keywords(query, lower), lower)
  {
    var matching := Filter(ContextLines(context), RelevantTo(Keywords(query, lower), lower));
    matching[..Min(MaxRelevantLines, |matching|)]
  }

  function RelevantAndNonBlank(keywords: seq<string>, lower: string -> string): string -> bool
  {
    line => NonBlank(line) && Relevant(line, keywords, lower)
  }

  /** No non-blank line of `lines` contains one of the keywords. */
  ghost predicate NoRelevantLine(lines: seq<string>, kw: seq<string>, lower: string -> string)
  {
    forall i :: 0 <= i < |lines| ==> !(NonBlank(lines[i]) && Relevant(lines[i], kw, lower))
  }

  /** No line comes back exactly when no non-blank line of the context contains a keyword. */
  lemma RelevantLinesEmpty(query: string, context: string, lower: string -> string)
    ensures |RelevantLines(query, context, lower)| == 0 <==>
      NoRelevantLine(Split(context, '\n'), Keywords(query, lower), lower)
  {
    var lines, kw := Split(context, '\n'), Keywords(query, lower);
    var matching := Filter(ContextLines(context), RelevantTo(kw, lower));
    assert |RelevantLines(query, context, lower)| == Min(MaxRelevantLines, |matching|);
    NoMatchingLine(lines, kw, lower);
  }

  lemma NoMatchingLine(lines: seq<string>, kw: seq<string>, lower: string -> string)
    ensures |Filter(Filter(lines, NonBlank), RelevantTo(kw, lower))| == 0 <==> NoRelevantLine(lines, kw, lower)
  {
    FilterTwiceNone(lines, NonBlank, RelevantTo(kw, lower));
  }

  /** The lines come in context order: they begin the list of all non-blank matching lines. */
  lemma RelevantInContextOrder(query: string, context: string, lower: string -> string)
    ensures var all := Filter(Split(context, '\n'), RelevantAndNonBlank(Keywords(query, lower), lower));
      var r := RelevantLines(query, context, lower);
      |r| == Min(MaxRelevantLines, |all|) && r == all[..|r|]
  {
    var kw := Keywords(query, lower);
    FilterFilter(Split(context, '\n'), NonBlank, RelevantTo(kw, lower), RelevantAndNonBlank(kw, lower));
  }

  /** A query with leading white space has the empty keyword first, which every line includes. */
  lemma LeadingSpaceMatchesEverything(query: string, line: string, lower: string -> string)
    requires |lower(query)| > 0 && IsSpace(lower(query)[0])
    ensures Relevant(line, Keywords(query, lower), lower)
  {
    assert Keywords(query, lower)[0] == "";
    assert StartsWith(lower(line), "");
  }

  /** A query with trailing white space, such as a message ending in a space, has the empty
    * keyword as its last keyword, which every line includes. */
  lemma TrailingSpaceMatchesEverything(query: string, line: string, lower: string -> string)
    requires |lower(query)| > 0 && IsSpace(lower(query)[|lower(query)| - 1])
    ensures Relevant(line, Keywords(query, lower), lower)
  {
    var kw := Keywords(query, lower);
    SplitWsTrailing(lower(query));
    assert kw[|kw| - 1] == "";
    assert StartsWith(lower(line), "");
  }

  /** `generateTemplateResponse(query, context)`: the header and the relevant lines, or the
    * fixed fallback with the first 500 characters of the context. */
  function TemplateResponse(query: string, context: string, lower: string -> string): (r: string)
    ensures |RelevantLines(query, context, lower)| > 0 ==>
      StartsWith(r, TemplateHeader) && r[|TemplateHeader|..] == Join(RelevantLines(query, context, lower), "\n\n")
    ensures |RelevantLines(query, context, lower)| == 0 ==>
      r == TemplateFallback + Prefix(context, FallbackExcerpt) + "..."
  {
    var relevant := RelevantLines(query, context, lower);
    if |relevant| > 0 then TemplateHeader + Join(relevant, "\n\n")
    else TemplateFallback + Prefix(context, FallbackExcerpt) + "..."
  }

  // ---------------------------------------------------------------------------
  // generateResponse
  // ---------------------------------------------------------------------------

  const PromptHead: string :=
    "You are an AI assistant that answers questions about Physical AI, Prompt Engineering, and Robotic Intelligence. \n" +
    "Use ONLY the textbook content provided below. If the answer is not in the context, say \"I don't have that information in the textbook.\"\n\n" +
    "TEXTBOOK CONTENT:\n"

  /** The prompt `generateResponse` hands the generation model. */
  function SystemPrompt(query: string, context: string): string
  {
    PromptHead + context + "\n\nQUESTION: " + query + "\n\nANSWER:"
  }

  /** `generateResponse(query, context)`. `model` is `None` when no generation model loaded, and
    * the model returns `None` when it throws; both fall back to the template. */
  function GenerateResponse(query: string, context: string, model: Option<string -> Option<string>>,
                            lower: string -> string): (r: string)
    ensures model.None? ==> r == TemplateResponse(query, context, lower)
    ensures model.Some? && model.value(SystemPrompt(query, context)).None? ==> r == TemplateResponse(query, context, lower)
    ensures model.Some? && model.value(SystemPrompt(query, context)).Some? ==> Trimmed(r)
  {
    if model.None? then TemplateResponse(query, context, lower)
    else match model.value(SystemPrompt(query, context))
      case None => TemplateResponse(query, context, lower)
      case Some(output) => Trim(ReplaceFirst(output, SystemPrompt(query, context), ""))
  }

  /** When the model's text begins with the prompt, the reply is what follows it, trimmed. */
  lemma GeneratedAfterPrompt(query: string, context: string, f: string -> Option<string>, lower: string -> string)
    requires f(SystemPrompt(query, context)).Some?
    requires StartsWith(f(SystemPrompt(query, context)).value, SystemPrompt(query, context))
    ensures GenerateResponse(query, context, Some(f), lower) ==
      Trim(f(SystemPrompt(query, context)).value[|SystemPrompt(query, context)|..])
  {
    var p := SystemPrompt(query, context);
    ReplaceFirstPrefix(f(p).value, p);
  }

  // ---------------------------------------------------------------------------
  // The /api/chat handler
  // ---------------------------------------------------------------------------

  /** The `message` field of the request body. */
  datatype MessageField = Absent | NotAString | Text(s: string)

  /** One entry of the response's `sources`. */
  datatype Source = Source(title: string, section: string, file: string, confidence: int)

  /** What `/api/chat` answers: 400, 500 (with the fixed apology), or a reply with its sources. */
  datatype ChatResponse = InvalidMessage | ServerError(reply: string) | Reply(reply: string, sources: seq<Source>)

  /** `!message || typeof message !== 'string'` is false: a non-empty string. */
  predicate ValidMessage(m: MessageField) {
    m.Text? && m.s != ""
  }

  function SourceOf(r: ScoredChunk, round: real -> int): Source
  {
    Source(r.item.chunk.metadata.title, r.item.chunk.metadata.section, r.item.chunk.metadata.file,
           round(r.score * 100.0))
  }

  /** `results.map(r => ({title, section, file, confidence}))`. */
  function Sources(results: seq<ScoredChunk>, round: real -> int): (r: seq<Source>)
    ensures |r| == |results|
    ensures forall i :: 0 <= i < |results| ==> r[i] == SourceOf(results[i], round)
  {
    seq(|results|, i requires 0 <= i < |results| => SourceOf(results[i], round))
  }

  /** The handler's decision, given the store cache and file that `searchByText` sees. */
  function ChatOutcome(m: MessageField, cached: Option<VectorStore>, file: Search.StoreFile,
                       lower: string -> string, sin: real -> real, sqrt: real -> real, round: real -> int,
                       model: Option<string -> Option<string>>): (r: ChatResponse)
    ensures r == InvalidMessage <==> !ValidMessage(m)
    ensures r.ServerError? <==>
      ValidMessage(m) && Search.SearchByTextOutcome(cached, file, m.s, ChatHits, lower, sin, sqrt).Failure?
    ensures r.ServerError? ==> r.reply == ErrorReply
  {
    if !ValidMessage(m) then InvalidMessage
    else match Search.SearchByTextOutcome(cached, file, m.s, ChatHits, lower, sin, sqrt)
      case Failure(_) => ServerError(ErrorReply)
      case Success(results) =>
        if |results| == 0 then Reply(NoMatchReply, [])
        else
          var context := FormatContext(results, round);
          Reply(GenerateResponse(m.s, context, model, lower), Sources(results, round))
  }

  /** A valid message whose search succeeds gets one source per hit, in hit order; there are
    * `min(4, n)` hits for a store of `n` chunks, so the fixed no-match reply with no sources
    * comes exactly when the store has no chunks, and otherwise the reply is generated from the
    * formatted hits. */
  lemma ChatReply(m: MessageField, cached: Option<VectorStore>, file: Search.StoreFile,
                  lower: string -> string, sin: real -> real, sqrt: real -> real, round: real -> int,
                  model: Option<string -> Option<string>>)
    requires ValidMessage(m)
    requires Search.SearchByTextOutcome(cached, file, m.s, ChatHits, lower, sin, sqrt).Success?
    ensures var store := Search.LoadOutcome(cached, file).value;
      var results := Search.SearchByTextOutcome(cached, file, m.s, ChatHits, lower, sin, sqrt).value;
      var r := ChatOutcome(m, cached, file, lower, sin, sqrt, round, model);
      r.Reply? &&
      |results| == (if ChatHits < |store.chunks| then ChatHits else |store.chunks|) &&
      r.sources == Sources(results, round) &&
      (|store.chunks| == 0 <==> r == Reply(NoMatchReply, [])) &&
      (|store.chunks| > 0 ==> r.reply == GenerateResponse(m.s, FormatContext(results, round), model, lower))
  {
    var store := Search.LoadOutcome(cached, file).value;
    var q := Search.QueryEmbedding(m.s, store.embeddingDimension, lower, sin, sqrt);
    Search.RankProperties(q, store.chunks, ChatHits, sqrt);
  }

  /** `POST /api/chat`: the handler runs `searchByText` against the search module's cache. */
  method HandleChat(m: MessageField, cache: Search.VectorStoreCache, file: Search.StoreFile,
                    lower: string -> string, sin: real -> real, sqrt: real -> real, round: real -> int,
                    model: Option<string -> Option<string>>)
    returns (r: ChatResponse)
    modifies cache
    ensures r == ChatOutcome(m, old(cache.cached), file, lower, sin, sqrt, round, model)
    ensures cache.cached == if ValidMessage(m) then Search.CacheAfter(old(cache.cached), file) else old(cache.cached)
  {
    if !m.Text? || m.s == "" {
      return InvalidMessage;
    }
    var results := cache.SearchByText(m.s, file, lower, sin, sqrt, ChatHits);
    if results.Failure? {
      return ServerError(ErrorReply);
    }
    if |results.value| == 0 {
      return Reply(NoMatchReply, []);
    }
    var context := FormatContext(results.value, round);
    var reply := GenerateResponse(m.s, context, model, lower);
    return Reply(reply, Sources(results.value, round));
  }
}
