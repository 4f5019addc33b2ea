/**
 * search.js: cosine similarity, the word-hash query embedding, top-k search
 * over the vector store, and the lazily loaded store cache.
 */
module Search {
  import opened Outcomes
  import opened JsText
  import opened Ranking
  import opened Records
  import opened Vectors

  /** Why a search gives no results: the two `throw`s of search.js, and a store file JSON cannot parse. */
  datatype SearchError = StoreNotFound | StoreUnreadable | DimensionMismatch

  // ---------------------------------------------------------------------------
  // Cosine similarity
  // ---------------------------------------------------------------------------

  /** `cosineSimilarity(a, b)`: throws on a length mismatch, 0 when either magnitude is 0. */
  function Cosine(a: Vector, b: Vector, sqrt: real -> real): (r: Result<real, SearchError>)
    ensures r.Failure? <==> |a| != |b|
    ensures r.Failure? ==> r.error == DimensionMismatch
    ensures r.Success? && (Magnitude(a, sqrt) == 0.0 || Magnitude(b, sqrt) == 0.0) ==> r.value == 0.0
  {
    if |a| != |b| then Failure(DimensionMismatch)
    else
      var ma := Magnitude(a, sqrt);
      var mb := Magnitude(b, sqrt);
      if ma == 0.0 || mb == 0.0 then Success(0.0) else Success(Dot(a, b) / (ma * mb))
  }

  /** The score does not depend on the order of the two vectors. */
  lemma CosineSymmetric(a: Vector, b: Vector, sqrt: real -> real)
    ensures Cosine(a, b, sqrt) == Cosine(b, a, sqrt)
  {
    if |a| == |b| {
      DotSymmetric(a, b);
    }
  }

  /** A vector of zeros scores exactly 0 against any vector of the same length. */
  lemma CosineZeroVector(a: Vector, b: Vector, sqrt: real -> real)
    requires IsSqrt(sqrt)
    requires |a| == |b|
    requires forall i :: 0 <= i < |a| ==> a[i] == 0.0
    ensures Cosine(a, b, sqrt) == Success(0.0)
    ensures Cosine(b, a, sqrt) == Success(0.0)
  {
    ZeroVector(a);
    CosineSymmetric(a, b, sqrt);
  }

  /** Away from the zero fallback, the score is the dot product over the magnitudes' product. */
  lemma CosineFormula(a: Vector, b: Vector, sqrt: real -> real)
    requires IsSqrt(sqrt)
    requires |a| == |b|
    ensures Dot(a, a) != 0.0 && Dot(b, b) != 0.0 <==>
            Magnitude(a, sqrt) != 0.0 && Magnitude(b, sqrt) != 0.0
    ensures Dot(a, a) != 0.0 && Dot(b, b) != 0.0 ==>
            Cosine(a, b, sqrt) == Success(Dot(a, b) / (Magnitude(a, sqrt) * Magnitude(b, sqrt)))
  {
    SumSquaresNonNegative(a);
    SumSquaresNonNegative(b);
  }

  /** A vector with a non-zero magnitude has similarity 1 with itself. */
  lemma CosineSelf(a: Vector, sqrt: real -> real)
    requires IsSqrt(sqrt)
    requires Dot(a, a) != 0.0
    ensures Cosine(a, a, sqrt) == Success(1.0)
  {
    SumSquaresNonNegative(a);
    var d := Dot(a, a);
    var m := Magnitude(a, sqrt);
    assert m * m == d && m != 0.0;
    assert Cosine(a, a, sqrt).value == d / (m * m) == 1.0;
  }

  /** The score from its three accumulated parts. */
  lemma CosineOfParts(a: Vector, b: Vector, sqrt: real -> real, d: real, ma: real, mb: real)
    requires |a| == |b| && d == Dot(a, b)
    requires ma == Magnitude(a, sqrt) && mb == Magnitude(b, sqrt)
    requires ma != 0.0 && mb != 0.0
    ensures Cosine(a, b, sqrt) == Success(d / (ma * mb))
  {
    var m := ma * mb;
    assert m == Magnitude(a, sqrt) * Magnitude(b, sqrt);
    assert d / m == Dot(a, b) / (Magnitude(a, sqrt) * Magnitude(b, sqrt));
  }

  /** The accumulating loop of `cosineSimilarity`. */
  method CosineSimilarity(vecA: Vector, vecB: Vector, sqrt: real -> real) returns (r: Result<real, SearchError>)
    ensures r == Cosine(vecA, vecB, sqrt)
  {
    if |vecA| != |vecB| {
      return Failure(DimensionMismatch);
    }
    var dotProduct := 0.0;
    var magnitudeA := 0.0;
    var magnitudeB := 0.0;
    var i := 0;
    while i < |vecA|
      invariant 0 <= i <= |vecA|
      invariant dotProduct == Dot(vecA[..i], vecB[..i])
      invariant magnitudeA == Dot(vecA[..i], vecA[..i])
      invariant magnitudeB == Dot(vecB[..i], vecB[..i])
    {
      DotStep(vecA, vecB, i);
      DotStep(vecA, vecA, i);
      DotStep(vecB, vecB, i);
      dotProduct := dotProduct + vecA[i] * vecB[i];
      magnitudeA := magnitudeA + vecA[i] * vecA[i];
      magnitudeB := magnitudeB + vecB[i] * vecB[i];
      i := i + 1;
    }
    assert vecA[..i] == vecA && vecB[..i] == vecB;
    assert dotProduct == Dot(vecA, vecB);
    magnitudeA := sqrt(magnitudeA);
    magnitudeB := sqrt(magnitudeB);
    assert magnitudeA == Magnitude(vecA, sqrt) && magnitudeB == Magnitude(vecB, sqrt);
    if magnitudeA == 0.0 || magnitudeB == 0.0 {
      return Success(0.0);
    }
    CosineOfParts(vecA, vecB, sqrt, dotProduct, magnitudeA, magnitudeB);
    return Success(dotProduct / (magnitudeA * magnitudeB));
  }

  // ---------------------------------------------------------------------------
  // The 32-bit word hash
  // ---------------------------------------------------------------------------

  const TwoTo31: int := 0x8000_0000
  const TwoTo32: int := 0x1_0000_0000

  predicate IsInt32(x: int) { -TwoTo31 <= x < TwoTo31 }

  /** ECMAScript ToInt32 on an integer: the signed 32-bit value congruent to `x` modulo 2^32. */
  function ToInt32(x: int): (r: int)
    ensures IsInt32(r)
    ensures (x - r) % TwoTo32 == 0
  {
    var m := x % TwoTo32;
    if m >= TwoTo31 then m - TwoTo32 else m
  }

  /** ToInt32 depends only on its argument modulo 2^32. */
  lemma ToInt32Congruent(x: int, y: int)
    requires (x - y) % TwoTo32 == 0
    ensures ToInt32(x) == ToInt32(y)
  {
    assert x % TwoTo32 == y % TwoTo32;
  }

  lemma ToInt32Identity(x: int)
    requires IsInt32(x)
    ensures ToInt32(x) == x
  {
  }

  /** One step of the hash loop: `hash = ((hash << 5) - hash) + code; hash = hash & hash`. */
  function HashStep(h: int, c: char): (r: int)
    requires IsInt32(h)
    ensures IsInt32(r)
  {
    ToInt32(ToInt32(h * 32) - h + c as int)
  }

  /** The shift-and-subtract step is `ToInt32(31*h + code)`. */
  lemma HashStepIs31(h: int, c: char)
    requires IsInt32(h)
    ensures HashStep(h, c) == ToInt32(31 * h + c as int)
  {
    var s := ToInt32(h * 32);
    assert (h * 32 - s) % TwoTo32 == 0;
    assert (31 * h + c as int) - (s - h + c as int) == h * 32 - s;
    ToInt32Congruent(s - h + c as int, 31 * h + c as int);
  }

  /** The hash of a word, folded over its character codes from the left starting at 0. */
  function Hash(w: string): (r: int)
    ensures IsInt32(r)
    decreases |w|
  {
    if |w| == 0 then 0 else HashStep(Hash(w[..|w| - 1]), w[|w| - 1])
  }

  /** The unbounded polynomial `sum of code[i] * 31^(n-1-i)`. */
  function Polynomial(w: string): int
    decreases |w|
  {
    if |w| == 0 then 0 else 31 * Polynomial(w[..|w| - 1]) + w[|w| - 1] as int
  }

  lemma MulCongruent(d: int, k: int)
    requires d % TwoTo32 == 0
    ensures (k * d) % TwoTo32 == 0
  {
    var q := d / TwoTo32;
    assert d == TwoTo32 * q;
    assert k * d == TwoTo32 * (k * q);
  }

  /** Appending a character keeps two congruent accumulators congruent. */
  lemma StepCongruent(p: int, h: int, c: int)
    requires (p - h) % TwoTo32 == 0
    ensures ToInt32(31 * h + c) == ToInt32(31 * p + c)
  {
    MulCongruent(p - h, 31);
    assert (31 * p + c) - (31 * h + c) == 31 * (p - h);
    ToInt32Congruent(31 * h + c, 31 * p + c);
  }

  /** The word hash is the polynomial hash reduced to a signed 32-bit value (Java's `String.hashCode`). */
  lemma {:induction false} HashIsPolynomial(w: string)
    ensures Hash(w) == ToInt32(Polynomial(w))
    decreases |w|
  {
    if |w| > 0 {
      var init := w[..|w| - 1];
      var c := w[|w| - 1];
      HashIsPolynomial(init);
      var h := Hash(init);
      var p := Polynomial(init);
      HashStepIs31(h, c);
      StepCongruent(p, h, c as int);
    }
  }

  /** The hash loop of `getQueryEmbedding` for one word. */
  method WordHash(word: string) returns (hash: int)
    ensures hash == Hash(word)
    ensures IsInt32(hash)
  {
    hash := 0;
    var i := 0;
    while i < |word|
      invariant 0 <= i <= |word|
      invariant hash == Hash(word[..i])
    {
      assert word[..i + 1][..i] == word[..i];
      hash := ToInt32(ToInt32(hash * 32) - hash + word[i] as int);
      i := i + 1;
    }
    assert word[..i] == word;
  }

  // ---------------------------------------------------------------------------
  // The query embedding
  // ---------------------------------------------------------------------------

  /** What one word adds to entry `i`: `Math.sin(hash * (i + 1)) * 0.01`. */
  function Feature(hash: int, i: nat, sin: real -> real): real
  {
    sin((hash * (i + 1)) as real) * 0.01
  }

  /** Adds one word's features to every entry. */
  function AddWord(e: Vector, hash: int, sin: real -> real): (r: Vector)
    ensures |r| == |e|
    ensures forall i :: 0 <= i < |e| ==> r[i] == e[i] + Feature(hash, i, sin)
  {
    seq(|e|, i requires 0 <= i < |e| => e[i] + Feature(hash, i, sin))
  }

  /** The embedding before normalisation: zeros, plus every word's features. */
  function RawEmbedding(words: seq<string>, dim: nat, sin: real -> real): (r: Vector)
    ensures |r| == dim
    decreases |words|
  {
    if |words| == 0 then seq(dim, _ => 0.0)
    else AddWord(RawEmbedding(words[..|words| - 1], dim, sin), Hash(words[|words| - 1]), sin)
  }

  /** Divides by the magnitude when it is positive, and leaves the vector alone otherwise. */
  function Normalize(e: Vector, sqrt: real -> real): Vector
  {
    var m := Magnitude(e, sqrt);
    if m > 0.0 then Scale(e, m) else e
  }

  /** `getQueryEmbedding(query, dim)`, with `toLowerCase` and `Math.sin` as parameters. */
  function QueryEmbedding(query: string, dim: nat, lower: string -> string, sin: real -> real,
                          sqrt: real -> real): Vector
  {
    Normalize(RawEmbedding(SplitWs(lower(query)), dim, sin), sqrt)
  }

  /** The embedding has `dim` entries; it is a unit vector when the raw sums are not all zero,
    * and it is left unscaled otherwise. */
  lemma QueryEmbeddingShape(query: string, dim: nat, lower: string -> string, sin: real -> real,
                            sqrt: real -> real)
    requires IsSqrt(sqrt)
    ensures |QueryEmbedding(query, dim, lower, sin, sqrt)| == dim
    ensures var raw := RawEmbedding(SplitWs(lower(query)), dim, sin);
            Dot(raw, raw) != 0.0 ==>
              Dot(QueryEmbedding(query, dim, lower, sin, sqrt), QueryEmbedding(query, dim, lower, sin, sqrt)) == 1.0
    ensures var raw := RawEmbedding(SplitWs(lower(query)), dim, sin);
            Dot(raw, raw) == 0.0 ==> QueryEmbedding(query, dim, lower, sin, sqrt) == raw
  {
    var raw := RawEmbedding(SplitWs(lower(query)), dim, sin);
    SumSquaresNonNegative(raw);
    if Dot(raw, raw) != 0.0 {
      ScaleToUnit(raw, sqrt);
    }
  }

  /** A word with no characters hashes to 0 and adds `Math.sin(0) * 0.01` everywhere. */
  lemma EmptyWordHash()
    ensures Hash("") == 0
  {
  }

  /** The inner loop of `getQueryEmbedding`: one word's features added in place. */
  method AddWordInPlace(embedding: array<real>, hash: int, sin: real -> real)
    modifies embedding
    ensures embedding[..] == AddWord(old(embedding[..]), hash, sin)
  {
    var i := 0;
    while i < embedding.Length
      invariant 0 <= i <= embedding.Length
      invariant forall j :: 0 <= j < i ==> embedding[j] == old(embedding[j]) + Feature(hash, j, sin)
      invariant forall j :: i <= j < embedding.Length ==> embedding[j] == old(embedding[j])
    {
      embedding[i] := embedding[i] + sin((hash * (i + 1)) as real) * 0.01;
      i := i + 1;
    }
  }

  /** The sum of squares loop of `getQueryEmbedding`. */
  method SumOfSquares(embedding: array<real>) returns (sum: real)
    ensures sum == Dot(embedding[..], embedding[..])
  {
    sum := 0.0;
    var i := 0;
    while i < embedding.Length
      invariant 0 <= i <= embedding.Length
      invariant sum == Dot(embedding[..i], embedding[..i])
    {
      assert embedding[..i + 1][..i] == embedding[..i];
      sum := sum + embedding[i] * embedding[i];
      i := i + 1;
    }
    assert embedding[..i] == embedding[..];
  }

  /** The normalising loop of `getQueryEmbedding`. */
  method DivideInPlace(embedding: array<real>, magnitude: real)
    requires magnitude != 0.0
    modifies embedding
    ensures embedding[..] == Scale(old(embedding[..]), magnitude)
  {
    var i := 0;
    while i < embedding.Length
      invariant 0 <= i <= embedding.Length
      invariant forall j :: 0 <= j < i ==> embedding[j] == old(embedding[j]) / magnitude
      invariant forall j :: i <= j < embedding.Length ==> embedding[j] == old(embedding[j])
    {
      embedding[i] := embedding[i] / magnitude;
      i := i + 1;
    }
  }

  /** Array-filling form of `getQueryEmbedding`. */
  method GetQueryEmbedding(query: string, dim: nat, lower: string -> string, sin: real -> real,
                           sqrt: real -> real) returns (embedding: array<real>)
    ensures fresh(embedding)
    ensures embedding[..] == QueryEmbedding(query, dim, lower, sin, sqrt)
  {
    embedding := new real[dim](_ => 0.0);
    var words := SplitWs(lower(query));
    assert embedding[..] == RawEmbedding(words[..0], dim, sin);
    var w := 0;
    while w < |words|
      invariant 0 <= w <= |words|
      invariant embedding.Length == dim
      invariant embedding[..] == RawEmbedding(words[..w], dim, sin)
    {
      var hash := WordHash(words[w]);
      AddWordInPlace(embedding, hash, sin);
      assert words[..w + 1][..w] == words[..w];
      w := w + 1;
    }
    assert words[..w] == words;
    var sum := SumOfSquares(embedding);
    var magnitude := sqrt(sum);
    if magnitude > 0.0 {
      DivideInPlace(embedding, magnitude);
    }
  }

  // ---------------------------------------------------------------------------
  // Ranking the store
  // ---------------------------------------------------------------------------

  /** Every store chunk's embedding has the query's length, so no score throws. */
  predicate SameDimension(q: Vector, chunks: seq<EmbeddedChunk>) {
    forall i :: 0 <= i < |chunks| ==> |chunks[i].embedding| == |q|
  }

  /** `store.chunks.map(chunk => ({...chunk, score: cosineSimilarity(q, chunk.embedding)}))`. */
  function ScoreAll(q: Vector, chunks: seq<EmbeddedChunk>, sqrt: real -> real): (r: Result<seq<ScoredChunk>, SearchError>)
    ensures r.Success? <==> SameDimension(q, chunks)
    ensures r.Failure? ==> r.error == DimensionMismatch
    ensures r.Success? ==> (|r.value| == |chunks| &&
      forall i :: 0 <= i < |chunks| ==>
        r.value[i] == ScoredChunk(chunks[i], Cosine(q, chunks[i].embedding, sqrt).value))
  {
    if SameDimension(q, chunks) then
      Success(seq(|chunks|, i requires 0 <= i < |chunks| =>
        ScoredChunk(chunks[i], Cosine(q, chunks[i].embedding, sqrt).value)))
    else Failure(DimensionMismatch)
  }

  /** `search` once the store is at hand: score every chunk, sort descending (stably), keep `topK`. */
  function Rank(q: Vector, chunks: seq<EmbeddedChunk>, topK: int, sqrt: real -> real): Result<seq<ScoredChunk>, SearchError>
  {
    match ScoreAll(q, chunks, sqrt)
    case Failure(e) => Failure(e)
    case Success(scored) => Success(TopK(scored, ScoreOf, topK))
  }

  /** The search throws exactly when some stored embedding differs in length from the query. On
    * success there are `min(topK, |chunks|)` results for `topK >= 0`, in non-increasing score order,
    * each a store chunk with its own score, and no chunk left out scores above a chunk kept. */
  lemma RankProperties(q: Vector, chunks: seq<EmbeddedChunk>, topK: int, sqrt: real -> real)
    ensures Rank(q, chunks, topK, sqrt).Failure? <==> exists i :: 0 <= i < |chunks| && |chunks[i].embedding| != |q|
    ensures Rank(q, chunks, topK, sqrt).Failure? ==> Rank(q, chunks, topK, sqrt).error == DimensionMismatch
    ensures Rank(q, chunks, topK, sqrt).Success? ==>
      var r := Rank(q, chunks, topK, sqrt).value;
      (0 <= topK ==> |r| == if topK < |chunks| then topK else |chunks|) &&
      SortedDesc(r, ScoreOf) &&
      (forall j :: 0 <= j < |r| ==> r[j].item in chunks && r[j].score == Cosine(q, r[j].item.embedding, sqrt).value) &&
      (forall i, j :: 0 <= i < |r| && 0 <= j < |chunks| && r[i].item != chunks[j] ==>
         ScoreOf(r[i]) >= Cosine(q, chunks[j].embedding, sqrt).value || chunks[j] in Items(r))
  {
    var sc := ScoreAll(q, chunks, sqrt);
    if sc.Success? {
      var scored := sc.value;
      var r := TopK(scored, ScoreOf, topK);
      TopKProperties(scored, ScoreOf, topK);
      forall j | 0 <= j < |r| ensures r[j].item in chunks && r[j].score == Cosine(q, r[j].item.embedding, sqrt).value {
        assert r[j] in multiset(r);
        assert r[j] in multiset(scored);
        var k :| 0 <= k < |scored| && scored[k] == r[j];
        assert r[j].item == chunks[k];
      }
      RankDominance(q, chunks, topK, sqrt);
    }
  }

  /** The chunks that a result list carries. */
  function Items(r: seq<ScoredChunk>): (items: seq<EmbeddedChunk>)
    ensures |items| == |r|
    ensures forall i :: 0 <= i < |r| ==> items[i] == r[i].item
  {
    seq(|r|, i requires 0 <= i < |r| => r[i].item)
  }

  lemma RankDominance(q: Vector, chunks: seq<EmbeddedChunk>, topK: int, sqrt: real -> real)
    requires SameDimension(q, chunks)
    ensures var r := Rank(q, chunks, topK, sqrt).value;
      forall i, j :: 0 <= i < |r| && 0 <= j < |chunks| && r[i].item != chunks[j] ==>
         ScoreOf(r[i]) >= Cosine(q, chunks[j].embedding, sqrt).value || chunks[j] in Items(r)
  {
    var scored := ScoreAll(q, chunks, sqrt).value;
    var sorted := SortDesc(scored, ScoreOf);
    var m := SliceEnd(topK, |scored|);
    var r := sorted[..m];
    TopKProperties(scored, ScoreOf, topK);
    SortDescPerm(scored, ScoreOf);
    forall i, j | 0 <= i < |r| && 0 <= j < |chunks| && r[i].item != chunks[j]
      ensures ScoreOf(r[i]) >= Cosine(q, chunks[j].embedding, sqrt).value || chunks[j] in Items(r)
    {
      assert scored[j] in multiset(sorted);
      var k :| 0 <= k < |sorted| && sorted[k] == scored[j];
      if k < m {
        assert Items(r)[k] == chunks[j];
      } else {
        assert ScoreOf(r[i]) >= ScoreOf(sorted[k]);
      }
    }
  }

  /** Results of equal score appear in store order: for every score value, the hits kept followed
    * by the hits cut off are exactly the store's chunks of that score, in store order. */
  lemma RankStable(q: Vector, chunks: seq<EmbeddedChunk>, topK: int, sqrt: real -> real, v: real)
    requires SameDimension(q, chunks)
    ensures var scored := ScoreAll(q, chunks, sqrt).value;
      WithScore(Rank(q, chunks, topK, sqrt).value, ScoreOf, v) +
      WithScore(SortDesc(scored, ScoreOf)[SliceEnd(topK, |scored|)..], ScoreOf, v)
      == WithScore(scored, ScoreOf, v)
  {
    TopKStable(ScoreAll(q, chunks, sqrt).value, ScoreOf, topK, v);
  }

  /** The scoring `map` of `search`, one `cosineSimilarity` call per stored chunk. */
  method ScoreChunks(q: Vector, chunks: seq<EmbeddedChunk>, sqrt: real -> real)
    returns (r: Result<seq<ScoredChunk>, SearchError>)
    ensures r == ScoreAll(q, chunks, sqrt)
  {
    var scored: seq<ScoredChunk> := [];
    var i := 0;
    while i < |chunks|
      invariant 0 <= i <= |chunks|
      invariant forall j :: 0 <= j < i ==> |chunks[j].embedding| == |q|
      invariant |scored| == i
      invariant forall j :: 0 <= j < i ==>
        scored[j] == ScoredChunk(chunks[j], Cosine(q, chunks[j].embedding, sqrt).value)
    {
      var score := CosineSimilarity(q, chunks[i].embedding, sqrt);
      if score.Failure? {
        return Failure(score.error);
      }
      scored := scored + [ScoredChunk(chunks[i], score.value)];
      i := i + 1;
    }
    assert SameDimension(q, chunks);
    assert scored == ScoreAll(q, chunks, sqrt).value;
    return Success(scored);
  }

  // ---------------------------------------------------------------------------
  // The store cache and the exported searches
  // ---------------------------------------------------------------------------

  /** The store file as `loadVectorStore` finds it on disk. */
  datatype StoreFile = Missing | Unparsable | Present(store: VectorStore)

  /** What `loadVectorStore` returns, given the cache and the file. */
  function LoadOutcome(cached: Option<VectorStore>, file: StoreFile): Result<VectorStore, SearchError>
  {
    if cached.Some? then Success(cached.value)
    else match file
      case Missing => Failure(StoreNotFound)
      case Unparsable => Failure(StoreUnreadable)
      case Present(s) => Success(s)
  }

  /** The cache after `loadVectorStore`: set by the first successful read, never changed after. */
  function CacheAfter(cached: Option<VectorStore>, file: StoreFile): Option<VectorStore>
  {
    if cached.Some? then cached
    else match file
      case Present(s) => Some(s)
      case _ => None
  }

  /** Once a load has succeeded, every later load returns the same store whatever the file
    * holds by then, and the cache keeps it. */
  lemma CacheIsSticky(cached: Option<VectorStore>, f1: StoreFile, f2: StoreFile)
    requires LoadOutcome(cached, f1).Success?
    ensures CacheAfter(cached, f1) == Some(LoadOutcome(cached, f1).value)
    ensures LoadOutcome(CacheAfter(cached, f1), f2) == LoadOutcome(cached, f1)
    ensures CacheAfter(CacheAfter(cached, f1), f2) == CacheAfter(cached, f1)
  {
  }

  /** With nothing cached, a load fails exactly when the file is missing or unparsable, and a
    * failed load leaves the cache empty. */
  lemma LoadFailure(file: StoreFile)
    ensures LoadOutcome(None, file).Failure? <==> !file.Present?
    ensures LoadOutcome(None, file).Failure? ==> CacheAfter(None, file) == None
    ensures file == Missing ==> LoadOutcome(None, file) == Failure(StoreNotFound)
  {
  }

  /** `search(...)` followed by `searchByText(...)`'s embedding step, as a function of the cache, the file and the query. */
  function SearchOutcome(cached: Option<VectorStore>, file: StoreFile, q: Vector, topK: int,
                         sqrt: real -> real): Result<seq<ScoredChunk>, SearchError>
  {
    match LoadOutcome(cached, file)
    case Failure(e) => Failure(e)
    case Success(store) => Rank(q, store.chunks, topK, sqrt)
  }

  function SearchByTextOutcome(cached: Option<VectorStore>, file: StoreFile, query: string, topK: int,
                               lower: string -> string, sin: real -> real, sqrt: real -> real)
    : Result<seq<ScoredChunk>, SearchError>
  {
    match LoadOutcome(cached, file)
    case Failure(e) => Failure(e)
    case Success(store) =>
      Rank(QueryEmbedding(query, store.embeddingDimension, lower, sin, sqrt), store.chunks, topK, sqrt)
  }

  /** The module-level `vectorStore` variable of search.js. */
  class VectorStoreCache {
    var cached: Option<VectorStore>

    constructor ()
      ensures cached == None
    {
      cached := None;
    }

    /** `loadVectorStore()`: the cached store, or the file's store, which is then cached. */
    method LoadVectorStore(file: StoreFile) returns (r: Result<VectorStore, SearchError>)
      modifies this
      ensures r == LoadOutcome(old(cached), file)
      ensures cached == CacheAfter(old(cached), file)
    {
      if cached.Some? {
        return Success(cached.value);
      }
      match file
      case Missing =>
        return Failure(StoreNotFound);
      case Unparsable =>
        return Failure(StoreUnreadable);
      case Present(s) =>
        cached := Some(s);
        return Success(s);
    }

    /** `search(queryEmbedding, topK = 4)`. */
    method Search(queryEmbedding: Vector, file: StoreFile, sqrt: real -> real, topK: int := 4)
      returns (r: Result<seq<ScoredChunk>, SearchError>)
      modifies this
      ensures r == SearchOutcome(old(cached), file, queryEmbedding, topK, sqrt)
      ensures cached == CacheAfter(old(cached), file)
    {
      var store := LoadVectorStore(file);
      if store.Failure? {
        return Failure(store.error);
      }
      var scored := ScoreChunks(queryEmbedding, store.value.chunks, sqrt);
      if scored.Failure? {
        return Failure(scored.error);
      }
      return Success(TopK(scored.value, ScoreOf, topK));
    }

    /** `searchByText(query, topK = 4)`: the word-hash embedding at the store's dimension, then `search`. */
    method SearchByText(query: string, file: StoreFile, lower: string -> string, sin: real -> real,
                        sqrt: real -> real, topK: int := 4)
      returns (r: Result<seq<ScoredChunk>, SearchError>)
      modifies this
      ensures r == SearchByTextOutcome(old(cached), file, query, topK, lower, sin, sqrt)
      ensures cached == CacheAfter(old(cached), file)
    {
      var store := LoadVectorStore(file);
      if store.Failure? {
        return Failure(store.error);
      }
      var embedding := GetQueryEmbedding(query, store.value.embeddingDimension, lower, sin, sqrt);
      r := Search(embedding[..], file, sqrt, topK);
    }
  }
}
