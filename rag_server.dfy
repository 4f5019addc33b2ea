/**
 * server.mjs: the `/api/rag` search server over `embeddings.json`.
 */
module RagServer {
  import opened Outcomes
  import opened Seqs
  import opened JsText
  import opened Ranking
  import opened Records
  import opened Vectors
  import Search

  /** `TOP_K`: the number of hits `/api/rag` returns. */
  const TopHits: int := 3

  /** The longest echoed query and the longest excerpt before the `'...'` marker. */
  const QueryEcho: nat := 100
  const ExcerptLength: nat := 300

  // ---------------------------------------------------------------------------
  // Cosine similarity without a length check
  // ---------------------------------------------------------------------------

  /** `cosineSimilarity(vecA, vecB)` of server.mjs. The dot product runs over `vecA`'s indices, so a
    * shorter `vecB` contributes `undefined` and makes the score NaN (`None`); a longer `vecB` has
    * its extra entries counted in its magnitude only. The zero-magnitude check comes first, so it
    * still gives 0 when the lengths differ. */
  function MjsCosine(a: Vector, b: Vector, sqrt: real -> real): (r: Option<real>)
    ensures r.None? <==> |b| < |a| && Magnitude(a, sqrt) != 0.0 && Magnitude(b, sqrt) != 0.0
    ensures Magnitude(a, sqrt) == 0.0 || Magnitude(b, sqrt) == 0.0 ==> r == Some(0.0)
  {
    var ma := Magnitude(a, sqrt);
    var mb := Magnitude(b, sqrt);
    if ma == 0.0 || mb == 0.0 then Some(0.0)
    else if |b| < |a| then None
    else Some(Dot(a, b[..|a|]) / (ma * mb))
  }

  /** On vectors of equal length the two servers compute the same score. */
  lemma MjsCosineAgrees(a: Vector, b: Vector, sqrt: real -> real)
    requires |a| == |b|
    ensures MjsCosine(a, b, sqrt) == Some(Search.Cosine(a, b, sqrt).value)
  {
    assert b[..|a|] == b;
    var ma := Magnitude(a, sqrt);
    var mb := Magnitude(b, sqrt);
    if ma != 0.0 && mb != 0.0 {
      var d := Dot(a, b[..|a|]);
      assert d == Dot(a, b);
      var p := ma * mb;
      assert MjsCosine(a, b, sqrt).value == d / p;
      assert Search.Cosine(a, b, sqrt).value == d / p;
    }
  }

  // ---------------------------------------------------------------------------
  // findTopSimilar
  // ---------------------------------------------------------------------------

  /** One entry of `scores`: the record's id, text and source plus its score. */
  datatype Hit = Hit(id: nat, text: string, source: string, score: real)

  function HitScore(h: Hit): real { h.score }

  /** Every record gets a defined (non-NaN) score. */
  predicate AllScored(q: Vector, records: seq<VectorRecord>, sqrt: real -> real) {
    forall i :: 0 <= i < |records| ==> MjsCosine(q, records[i].vector, sqrt).Some?
  }

  function HitOf(q: Vector, e: VectorRecord, sqrt: real -> real): Hit
    requires MjsCosine(q, e.vector, sqrt).Some?
  {
    Hit(e.id, e.text, e.source, MjsCosine(q, e.vector, sqrt).value)
  }

  /** The `embeddings.map(...)` of `findTopSimilar`. */
  function Scores(q: Vector, records: seq<VectorRecord>, sqrt: real -> real): (r: seq<Hit>)
    requires AllScored(q, records, sqrt)
    ensures |r| == |records|
    ensures forall i :: 0 <= i < |records| ==> r[i] == HitOf(q, records[i], sqrt)
  {
    seq(|records|, i requires 0 <= i < |records| => HitOf(q, records[i], sqrt))
  }

  /** `findTopSimilar(queryVector, k)`: score, stable sort by descending score, `slice(0, k)`.
    * `None` when some score is NaN: the comparator `b.score - a.score` is then inconsistent,
    * and the order `Array.prototype.sort` produces is left to the JavaScript engine. */
  function TopSimilar(q: Vector, records: seq<VectorRecord>, k: int, sqrt: real -> real): Option<seq<Hit>>
  {
    if AllScored(q, records, sqrt) then Some(TopK(Scores(q, records, sqrt), HitScore, k)) else None
  }

  /** The order is defined exactly when no record's vector is shorter than a query of non-zero
    * magnitude (with a zero one). Then there are `min(k, |records|)` hits for `k >= 0`, sorted
    * by descending score, each one a record's id, text and source with that record's score; they
    * are drawn from the scores without repetition, and every record left out scores no higher
    * than every hit. */
  lemma TopSimilarProperties(q: Vector, records: seq<VectorRecord>, k: int, sqrt: real -> real)
    ensures TopSimilar(q, records, k, sqrt).None? <==>
      exists i :: 0 <= i < |records| && MjsCosine(q, records[i].vector, sqrt).None?
    ensures TopSimilar(q, records, k, sqrt).Some? ==>
      var hits := TopSimilar(q, records, k, sqrt).value;
      (0 <= k ==> |hits| == if k < |records| then k else |records|) &&
      SortedDesc(hits, HitScore) &&
      (forall j :: 0 <= j < |hits| ==>
        exists i :: 0 <= i < |records| && MjsCosine(q, records[i].vector, sqrt).Some? &&
          hits[j] == HitOf(q, records[i], sqrt)) &&
      multiset(hits) <= multiset(Scores(q, records, sqrt)) &&
      (forall i, j :: 0 <= i < |hits| && 0 <= j < |records| ==>
        hits[i].score >= HitOf(q, records[j], sqrt).score || HitOf(q, records[j], sqrt) in hits)
  {
    if AllScored(q, records, sqrt) {
      var s := Scores(q, records, sqrt);
      var hits := TopK(s, HitScore, k);
      TopKProperties(s, HitScore, k);
      TopSimilarDominance(q, records, k, sqrt);
      forall j | 0 <= j < |hits|
        ensures exists i :: (0 <= i < |records| && MjsCosine(q, records[i].vector, sqrt).Some? &&
          hits[j] == HitOf(q, records[i], sqrt))
      {
        assert hits[j] in multiset(s);
        var i :| 0 <= i < |s| && s[i] == hits[j];
        assert hits[j] == HitOf(q, records[i], sqrt);
      }
    }
  }

  /** Every record left out of the top k scores no higher than every hit. */
  lemma TopSimilarDominance(q: Vector, records: seq<VectorRecord>, k: int, sqrt: real -> real)
    requires AllScored(q, records, sqrt)
    ensures var hits := TopSimilar(q, records, k, sqrt).value;
      forall i, j :: 0 <= i < |hits| && 0 <= j < |records| ==>
        hits[i].score >= HitOf(q, records[j], sqrt).score || HitOf(q, records[j], sqrt) in hits
  {
    var s := Scores(q, records, sqrt);
    var sorted := SortDesc(s, HitScore);
    var m := SliceEnd(k, |s|);
    var hits := sorted[..m];
    TopKProperties(s, HitScore, k);
    SortDescPerm(s, HitScore);
    forall i, j | 0 <= i < |hits| && 0 <= j < |records|
      ensures hits[i].score >= HitOf(q, records[j], sqrt).score || HitOf(q, records[j], sqrt) in hits
    {
      assert s[j] in multiset(sorted);
      var p :| 0 <= p < |sorted| && sorted[p] == s[j];
      if p < m {
        assert hits[p] == s[j];
      } else {
        assert HitScore(hits[i]) >= HitScore(sorted[p]);
      }
    }
  }

  /** Hits of equal score keep the order of the records: for every score, the hits kept followed
    * by the ones cut off are the scores of that value, in record order. */
  lemma TopSimilarStable(q: Vector, records: seq<VectorRecord>, k: int, sqrt: real -> real, v: real)
    requires AllScored(q, records, sqrt)
    ensures var s := Scores(q, records, sqrt);
      WithScore(TopSimilar(q, records, k, sqrt).value, HitScore, v) +
      WithScore(SortDesc(s, HitScore)[SliceEnd(k, |s|)..], HitScore, v)
      == WithScore(s, HitScore, v)
  {
    TopKStable(Scores(q, records, sqrt), HitScore, k, v);
  }

  /** Every score is defined when no stored vector is shorter than the query; when all have the
    * query's length, the scores are those of search.js. */
  lemma ScoresDefined(q: Vector, records: seq<VectorRecord>, sqrt: real -> real)
    requires forall i :: 0 <= i < |records| ==> |q| <= |records[i].vector|
    ensures AllScored(q, records, sqrt)
    ensures (forall i :: 0 <= i < |records| ==> |records[i].vector| == |q|) ==>
      forall i :: 0 <= i < |records| ==>
        Scores(q, records, sqrt)[i].score == Search.Cosine(q, records[i].vector, sqrt).value
  {
    if forall i :: 0 <= i < |records| ==> |records[i].vector| == |q| {
      forall i | 0 <= i < |records|
        ensures Scores(q, records, sqrt)[i].score == Search.Cosine(q, records[i].vector, sqrt).value
      {
        MjsCosineAgrees(q, records[i].vector, sqrt);
      }
    }
  }

  // ---------------------------------------------------------------------------
  // The /api/rag handler
  // ---------------------------------------------------------------------------

  /** The `query` field of the request body. */
  datatype QueryField = Absent | NotAString | Text(s: string)

  /** What `/api/rag` answers: 400, 503, 500, or the hits (the `timestamp` is not modelled).
    * `UnspecifiedOrder` is a 200 whose hit order the JavaScript engine decides (some score is NaN). */
  datatype RagResponse =
    | BadRequest
    | Unavailable
    | SearchFailed
    | Found(query: string, results: seq<Excerpt>)
    | UnspecifiedOrder(query: string)

  /** One entry of the response's `results`. */
  datatype Excerpt = Excerpt(text: string, source: string, score: real)

  /** `!query || typeof query !== 'string' || query.trim().length === 0` is false. */
  predicate ValidQuery(q: QueryField) {
    q.Text? && Trim(q.s) != ""
  }

  /** `text.substring(0, 300) + (text.length > 300 ? '...' : '')`. */
  function ExcerptText(text: string): (r: string)
    ensures |text| <= ExcerptLength ==> r == text
    ensures |text| > ExcerptLength ==> r == text[..ExcerptLength] + "..." && |r| == ExcerptLength + 3
  {
    Prefix(text, ExcerptLength) + (if |text| > ExcerptLength then "..." else "")
  }

  /** A hit as the response shows it; `fix4` is `Number(x.toFixed(4))`. */
  function ToExcerpt(h: Hit, fix4: real -> real): Excerpt
  {
    Excerpt(ExcerptText(h.text), h.source, fix4(h.score))
  }

  /** The response's `results` for the hits, in hit order. */
  function Excerpts(hits: seq<Hit>, fix4: real -> real): (r: seq<Excerpt>)
    ensures |r| == |hits|
    ensures forall j :: 0 <= j < |hits| ==> r[j] == ToExcerpt(hits[j], fix4)
  {
    Map(hits, h => ToExcerpt(h, fix4))
  }

  /** The handler's decision, given the loaded records and the embedding model (`None` when
    * `embedQuery` throws). */
  function RagOutcome(q: QueryField, records: seq<VectorRecord>, embed: string -> Option<Vector>,
                      sqrt: real -> real, fix4: real -> real): (r: RagResponse)
    ensures r == BadRequest <==> !ValidQuery(q)
    ensures r == Unavailable <==> ValidQuery(q) && |records| == 0
    ensures r == SearchFailed <==> ValidQuery(q) && |records| > 0 && embed(q.s).None?
    ensures r.Found? || r.UnspecifiedOrder? ==> r.query == Prefix(q.s, QueryEcho)
  {
    if !ValidQuery(q) then BadRequest
    else if |records| == 0 then Unavailable
    else match embed(q.s)
      case None => SearchFailed
      case Some(v) =>
        match TopSimilar(v, records, TopHits, sqrt)
        case None => UnspecifiedOrder(Prefix(q.s, QueryEcho))
        case Some(hits) => Found(Prefix(q.s, QueryEcho), Excerpts(hits, fix4))
  }

  /** Each result is the excerpt of some record's text, with that record's source. */
  ghost predicate ExcerptsOfRecords(results: seq<Excerpt>, records: seq<VectorRecord>)
  {
    forall j :: 0 <= j < |results| ==>
      exists i :: 0 <= i < |records| &&
        results[j].text == ExcerptText(records[i].text) && results[j].source == records[i].source
  }

  /** Excerpts of hits drawn from the records are excerpts of the records. */
  lemma ExcerptsFromRecords(v: Vector, records: seq<VectorRecord>, hits: seq<Hit>, sqrt: real -> real,
                            fix4: real -> real)
    requires forall j :: 0 <= j < |hits| ==>
      exists i :: 0 <= i < |records| && MjsCosine(v, records[i].vector, sqrt).Some? &&
        hits[j] == HitOf(v, records[i], sqrt)
    ensures ExcerptsOfRecords(Excerpts(hits, fix4), records)
  {
    var e := Excerpts(hits, fix4);
    forall j | 0 <= j < |e|
      ensures exists i :: (0 <= i < |records| &&
        e[j].text == ExcerptText(records[i].text) && e[j].source == records[i].source)
    {
      var i :| 0 <= i < |records| && MjsCosine(v, records[i].vector, sqrt).Some? &&
        hits[j] == HitOf(v, records[i], sqrt);
      assert e[j] == ToExcerpt(hits[j], fix4);
    }
  }

  /** A successful answer carries `min(3, |records|)` results, in the order `TopSimilar` gives, each the
    * excerpt and source of some loaded record. */
  lemma RagFound(q: QueryField, records: seq<VectorRecord>, embed: string -> Option<Vector>,
                 sqrt: real -> real, fix4: real -> real)
    ensures var r := RagOutcome(q, records, embed, sqrt, fix4);
      r.Found? ==>
        embed(q.s).Some? && TopSimilar(embed(q.s).value, records, TopHits, sqrt).Some? &&
        r.results == Excerpts(TopSimilar(embed(q.s).value, records, TopHits, sqrt).value, fix4) &&
        |r.results| == (if TopHits < |records| then TopHits else |records|) &&
        ExcerptsOfRecords(r.results, records)
  {
    var r := RagOutcome(q, records, embed, sqrt, fix4);
    if r.Found? {
      var v := embed(q.s).value;
      var top := TopSimilar(v, records, TopHits, sqrt);
      assert top.Some?;
      var hits := top.value;
      assert r.results == Excerpts(hits, fix4);
      TopSimilarProperties(v, records, TopHits, sqrt);
      ExcerptsFromRecords(v, records, hits, sqrt, fix4);
    }
  }

  /** The body of `embeddings.json` as `loadEmbeddings` finds it. */
  datatype EmbeddingsFile = Unreadable | Malformed | Parsed(records: seq<VectorRecord>)

  /** The module-level `embeddings` of server.mjs. */
  class EmbeddingsState {
    var embeddings: seq<VectorRecord>

    constructor ()
      ensures embeddings == []
    {
      embeddings := [];
    }

    /** `loadEmbeddings()`: true iff the file parses to a non-empty list; on an error the
      * records already loaded stay. */
    method LoadEmbeddings(file: EmbeddingsFile) returns (loaded: bool)
      modifies this
      ensures loaded <==> file.Parsed? && |file.records| > 0
      ensures embeddings == if file.Parsed? then file.records else old(embeddings)
    {
      match file
      case Parsed(records) =>
        embeddings := records;
        return |embeddings| > 0;
      case _ =>
        return false;
    }

    /** `findTopSimilar(queryVector, k = TOP_K)`: fills a fresh array with the scores, sorts it in
      * place and keeps its first `k` entries. */
    method FindTopSimilar(queryVector: Vector, sqrt: real -> real, k: int := TopHits)
      returns (r: Option<seq<Hit>>)
      ensures r == TopSimilar(queryVector, embeddings, k, sqrt)
    {
      var n := |embeddings|;
      var scores := new Hit[n];
      var i := 0;
      while i < n
        invariant 0 <= i <= n
        invariant forall j :: 0 <= j < i ==> MjsCosine(queryVector, embeddings[j].vector, sqrt).Some?
        invariant forall j :: 0 <= j < i ==> scores[j] == HitOf(queryVector, embeddings[j], sqrt)
      {
        var e := embeddings[i];
        var score := MjsCosine(queryVector, e.vector, sqrt);
        if score.None? {
          return None;
        }
        scores[i] := Hit(e.id, e.text, e.source, score.value);
        i := i + 1;
      }
      assert scores[..] == Scores(queryVector, embeddings, sqrt);
      SortInPlace(scores, HitScore);
      r := Some(scores[..SliceEnd(k, n)]);
    }

    /** `POST /api/rag`. */
    method HandleRag(q: QueryField, embed: string -> Option<Vector>, sqrt: real -> real, fix4: real -> real)
      returns (r: RagResponse)
      ensures r == RagOutcome(q, embeddings, embed, sqrt, fix4)
    {
      if !q.Text? || Trim(q.s) == "" {
        return BadRequest;
      }
      if |embeddings| == 0 {
        return Unavailable;
      }
      var queryVector := embed(q.s);
      if queryVector.None? {
        return SearchFailed;
      }
      var results := FindTopSimilar(queryVector.value, sqrt, TopHits);
      if results.None? {
        return UnspecifiedOrder(Prefix(q.s, QueryEcho));
      }
      return Found(Prefix(q.s, QueryEcho), Excerpts(results.value, fix4));
    }
  }
}
