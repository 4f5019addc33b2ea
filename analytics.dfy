/**
 * The A/B-testing log `rag/analytics.js`: an append-only list of interactions
 * and experiments, per-variant statistics, and the rule that picks a winner.
 *
 * The log is held in memory (`AnalyticsLog`); reading and writing
 * `analytics.json` is not modelled. Ids and timestamps, which the source takes
 * from `Date.now()` and `Math.random()`, are parameters. Averages are reals;
 * `toFixed(2)` followed by `parseFloat` is the parameter `fix2`, and
 * `toFixed(0)` followed by `parseInt` is the parameter `fix0`.
 */
module Analytics {
  import opened Outcomes
  import opened Seqs

  const DefaultVariant: string := "A"
  const DefaultDuration: string := "7 days"
  const Running: string := "running"
  /** Fewer samples than this in either variant and there is no winner. */
  const MinSamples: nat := 10
  /** Both variants need this many samples for a `High` confidence. */
  const HighConfidenceSamples: nat := 30
  const NotEnoughData: string := "Not enough data (need min 10 samples per variant)"
  const NoComparableMetrics: string := "No comparable metrics"

  // ---------------------------------------------------------------------
  // Records
  // ---------------------------------------------------------------------

  /** The argument of `trackInteraction`; `None` is a missing property. */
  datatype InteractionData = InteractionData(
    variant: Option<string>,
    experimentId: Option<string>,
    userMessage: string,
    botResponse: string,
    sources: Option<seq<string>>,
    responseTime: Option<real>,
    userRating: Option<real>,
    metadata: Option<map<string, string>>)

  /** One logged interaction. */
  datatype Interaction = Interaction(
    id: string,
    timestamp: string,
    variant: string,
    experimentId: Option<string>,
    userMessage: string,
    botResponse: string,
    sources: seq<string>,
    responseTime: Option<real>,
    userRating: Option<real>,
    metadata: map<string, string>)

  /** The argument of `createExperiment`. */
  datatype ExperimentConfig = ExperimentConfig(
    name: string,
    hypothesis: string,
    variantA: string,
    variantB: string,
    successMetric: string,
    expectedDuration: Option<string>)

  /** The per-variant counters an experiment starts with. */
  datatype Tally = Tally(count: nat, ratings: seq<real>, responseTimes: seq<real>)

  datatype Experiment = Experiment(
    id: string,
    createdAt: string,
    name: string,
    hypothesis: string,
    variantA: string,
    variantB: string,
    successMetric: string,
    status: string,
    expectedDuration: string,
    resultsA: Tally,
    resultsB: Tally)

  /** `x || d` for a string: the empty string is falsy. */
  function OrDefault(x: Option<string>, d: string): (r: string)
    ensures x.Some? && x.value != "" ==> r == x.value
    ensures x.None? || x.value == "" ==> r == d
  {
    if x.Some? && x.value != "" then x.value else d
  }

  /** The interaction record that `trackInteraction` in analytics.js builds. */
  function NewInteraction(data: InteractionData, id: string, timestamp: string): (r: Interaction)
    ensures r.id == id && r.timestamp == timestamp
    ensures r.variant == OrDefault(data.variant, DefaultVariant) && r.variant != ""
    ensures r.experimentId == data.experimentId && r.responseTime == data.responseTime
    ensures r.userMessage == data.userMessage && r.botResponse == data.botResponse
    ensures data.sources.None? ==> r.sources == []
    ensures data.sources.Some? ==> r.sources == data.sources.value
    ensures r.userRating.Some? <==> data.userRating.Some? && data.userRating.value != 0.0
    ensures r.userRating.Some? ==> r.userRating == data.userRating
    ensures data.metadata.None? ==> r.metadata == map[]
    ensures data.metadata.Some? ==> r.metadata == data.metadata.value
  {
    Interaction(
      id, timestamp,
      OrDefault(data.variant, DefaultVariant),
      data.experimentId, data.userMessage, data.botResponse,
      if data.sources.Some? then data.sources.value else [],
      data.responseTime,
      if data.userRating.Some? && data.userRating.value != 0.0 then data.userRating else None,
      if data.metadata.Some? then data.metadata.value else map[])
  }

  /** The experiment record that `createExperiment` in analytics.js builds. */
  function NewExperiment(config: ExperimentConfig, id: string, createdAt: string): (r: Experiment)
    ensures r.id == id && r.createdAt == createdAt && r.name == config.name
    ensures r.status == Running
    ensures r.expectedDuration == OrDefault(config.expectedDuration, DefaultDuration)
    ensures r.resultsA == Tally(0, [], []) && r.resultsB == Tally(0, [], [])
  {
    Experiment(id, createdAt, config.name, config.hypothesis, config.variantA, config.variantB,
               config.successMetric, Running, OrDefault(config.expectedDuration, DefaultDuration),
               Tally(0, [], []), Tally(0, [], []))
  }

  /** The log behind `getAnalytics` / `saveAnalytics`, kept in memory. */
  class AnalyticsLog {
    var experiments: seq<Experiment>
    var interactions: seq<Interaction>

    /** `initAnalytics`: an empty log. */
    constructor ()
      ensures experiments == [] && interactions == []
    {
      experiments := [];
      interactions := [];
    }

    /** `trackInteraction`: appends exactly one record and returns its id. */
    method TrackInteraction(data: InteractionData, id: string, timestamp: string) returns (r: string)
      modifies this
      ensures interactions == old(interactions) + [NewInteraction(data, id, timestamp)]
      ensures experiments == old(experiments)
      ensures r == id
    {
      var interaction := NewInteraction(data, id, timestamp);
      interactions := interactions + [interaction];
      r := interaction.id;
    }

    /** `createExperiment`: appends exactly one experiment and returns its id. */
    method CreateExperiment(config: ExperimentConfig, id: string, createdAt: string) returns (r: string)
      modifies this
      ensures experiments == old(experiments) + [NewExperiment(config, id, createdAt)]
      ensures interactions == old(interactions)
      ensures r == id
    {
      var experiment := NewExperiment(config, id, createdAt);
      experiments := experiments + [experiment];
      r := experiment.id;
    }
  }

  // ---------------------------------------------------------------------
  // calculateStats
  // ---------------------------------------------------------------------

  /** What `calculateStats` returns; `ratingsCount` is absent (`None`) for an empty list. */
  datatype Stats = Stats(
    variant: string,
    sampleSize: nat,
    avgRating: Option<real>,
    avgResponseTime: Option<int>,
    ratings: seq<real>,
    ratingsCount: Option<nat>)

  function Sum(xs: seq<real>): real
  {
    if |xs| == 0 then 0.0 else xs[0] + Sum(xs[1..])
  }

  lemma {:induction false} SumAppend(a: seq<real>, b: seq<real>)
    ensures Sum(a + b) == Sum(a) + Sum(b)
  {
    if |a| > 0 {
      assert (a + b)[1..] == a[1..] + b;
      SumAppend(a[1..], b);
    } else {
      assert a + b == b;
    }
  }

  function Mean(xs: seq<real>): real
    requires |xs| > 0
  {
    Sum(xs) / (|xs| as real)
  }

  /** An average lies between the smallest and the largest value averaged. */
  lemma MeanBounds(xs: seq<real>, lo: real, hi: real)
    requires |xs| > 0
    requires forall k :: 0 <= k < |xs| ==> lo <= xs[k] <= hi
    ensures lo <= Mean(xs) <= hi
  {
    SumBounds(xs, lo, hi);
    var n := |xs| as real;
    assert lo * n <= Sum(xs) <= hi * n;
    assert Mean(xs) * n == Sum(xs);
  }

  lemma {:induction false} SumBounds(xs: seq<real>, lo: real, hi: real)
    requires forall k :: 0 <= k < |xs| ==> lo <= xs[k] <= hi
    ensures lo * (|xs| as real) <= Sum(xs) <= hi * (|xs| as real)
  {
    if |xs| > 0 {
      SumBounds(xs[1..], lo, hi);
      assert lo <= xs[0] <= hi;
      assert (|xs| as real) == (|xs[1..]| as real) + 1.0;
    }
  }

  predicate Rated(i: Interaction) { i.userRating.Some? }

  function RatingOf(i: Interaction): real { if i.userRating.Some? then i.userRating.value else 0.0 }

  /** `i.responseTime || 0`. */
  function ResponseTimeOf(i: Interaction): real { if i.responseTime.Some? then i.responseTime.value else 0.0 }

  /** The non-null ratings, in interaction order. */
  function Ratings(interactions: seq<Interaction>): seq<real>
  {
    Map(Filter(interactions, Rated), RatingOf)
  }

  function CalculateStats(interactions: seq<Interaction>, variant: string, fix2: real -> real, fix0: real -> int): (r: Stats)
    ensures r.variant == variant
    ensures r.sampleSize == |interactions|
    ensures |interactions| == 0 ==> r.avgRating.None? && r.avgResponseTime.None? && r.ratings == []
    ensures |interactions| > 0 ==> r.ratings == Ratings(interactions) && r.ratingsCount == Some(|r.ratings|)
    ensures r.avgRating.Some? <==> |r.ratings| > 0
    ensures r.avgResponseTime.Some? <==> |interactions| > 0
    ensures |r.ratings| > 0 ==> r.avgRating == Some(fix2(Mean(r.ratings)))
    ensures |interactions| > 0 ==> r.avgResponseTime == Some(fix0(Mean(Map(interactions, ResponseTimeOf))))
  {
    if |interactions| == 0 then Stats(variant, 0, None, None, [], None)
    else
      var ratings := Ratings(interactions);
      var responseTimes := Map(interactions, ResponseTimeOf);
      var avgRating := if |ratings| > 0 then Some(fix2(Mean(ratings))) else None;
      var avgResponseTime := Some(fix0(Mean(responseTimes)));
      Stats(variant, |interactions|, avgRating, avgResponseTime, ratings, Some(|ratings|))
  }

  /** Ratings of concatenated logs concatenate. */
  lemma RatingsConcat(a: seq<Interaction>, b: seq<Interaction>)
    ensures Ratings(a + b) == Ratings(a) + Ratings(b)
  {
    FilterAppend(a, b, Rated);
    var fa, fb := Filter(a, Rated), Filter(b, Rated);
    assert Map(fa + fb, RatingOf) == Map(fa, RatingOf) + Map(fb, RatingOf);
  }

  /** Ratings follow interaction order: one more interaction adds its rating at
    * the end when it has one, and nothing otherwise. */
  lemma RatingsAppend(interactions: seq<Interaction>, i: Interaction)
    ensures Ratings(interactions + [i]) == Ratings(interactions) + (if Rated(i) then [i.userRating.value] else [])
  {
    RatingsConcat(interactions, [i]);
    assert Filter([i], Rated) == (if Rated(i) then [i] else []) + Filter([i][1..], Rated);
  }

  /** No kept rating is 0 when the log was written by `trackInteraction`,
    * which stores a 0 rating as null. */
  lemma RatingsNonZero(interactions: seq<Interaction>)
    requires forall k :: 0 <= k < |interactions| ==> interactions[k].userRating != Some(0.0)
    ensures forall k :: 0 <= k < |Ratings(interactions)| ==> Ratings(interactions)[k] != 0.0
  {
    var rated := Filter(interactions, Rated);
    forall k | 0 <= k < |Ratings(interactions)|
      ensures Ratings(interactions)[k] != 0.0
    {
      assert rated[k] in interactions;
      assert Ratings(interactions)[k] == RatingOf(rated[k]);
    }
  }

  /** A missing `responseTime` counts as 0 in the average. */
  lemma MissingResponseTimeIsZero(before: seq<Interaction>, i: Interaction, after: seq<Interaction>,
                                  variant: string, fix2: real -> real, fix0: real -> int)
    ensures CalculateStats(before + [i.(responseTime := None)] + after, variant, fix2, fix0)
         == CalculateStats(before + [i.(responseTime := Some(0.0))] + after, variant, fix2, fix0)
  {
    var x, y := i.(responseTime := None), i.(responseTime := Some(0.0));
    assert Filter([x], Rated) == (if Rated(x) then [x] else []) + Filter([x][1..], Rated);
    assert Filter([y], Rated) == (if Rated(y) then [y] else []) + Filter([y][1..], Rated);
    SameRatingsAround(before, x, y, after);
    SameResponseTimesAround(before, x, y, after);
    SameStats(before + [x] + after, before + [y] + after, variant, fix2, fix0);
  }

  lemma SameRatingsAround(before: seq<Interaction>, x: Interaction, y: Interaction, after: seq<Interaction>)
    requires Ratings([x]) == Ratings([y])
    ensures Ratings(before + [x] + after) == Ratings(before + [y] + after)
  {
    RatingsConcat(before, [x]);
    RatingsConcat(before + [x], after);
    RatingsConcat(before, [y]);
    RatingsConcat(before + [y], after);
  }

  lemma SameResponseTimesAround(before: seq<Interaction>, x: Interaction, y: Interaction, after: seq<Interaction>)
    requires ResponseTimeOf(x) == ResponseTimeOf(y)
    ensures Map(before + [x] + after, ResponseTimeOf) == Map(before + [y] + after, ResponseTimeOf)
  {
    var xs, ys := before + [x] + after, before + [y] + after;
    assert |xs| == |ys|;
    forall k | 0 <= k < |xs|
      ensures ResponseTimeOf(xs[k]) == ResponseTimeOf(ys[k])
    {
      if k != |before| {
        assert xs[k] == ys[k];
      }
    }
  }

  /** The statistics depend only on the count, the ratings and the response times. */
  lemma SameStats(xs: seq<Interaction>, ys: seq<Interaction>, variant: string, fix2: real -> real, fix0: real -> int)
    requires |xs| == |ys| && Ratings(xs) == Ratings(ys)
    requires Map(xs, ResponseTimeOf) == Map(ys, ResponseTimeOf)
    ensures CalculateStats(xs, variant, fix2, fix0) == CalculateStats(ys, variant, fix2, fix0)
  {
  }

  // ---------------------------------------------------------------------
  // determineWinner
  // ---------------------------------------------------------------------

  datatype Confidence = High | Medium

  datatype Winner =
    | NoWinner(reason: string)
    | ByRating(winner: string, differencePercentage: real, confidence: Confidence)
    | ByResponseTime(winner: string, difference: int, confidence: Confidence)

  function Abs(x: real): real { if x < 0.0 then -x else x }

  function AbsInt(x: int): int { if x < 0 then -x else x }

  /** Truthiness of a possibly-null number: null and 0 are falsy. */
  predicate Truthy(x: Option<real>) { x.Some? && x.value != 0.0 }

  predicate TruthyInt(x: Option<int>) { x.Some? && x.value != 0 }

  function ConfidenceOf(a: Stats, b: Stats): (c: Confidence)
    ensures c == High <==> a.sampleSize >= HighConfidenceSamples && b.sampleSize >= HighConfidenceSamples
  {
    if a.sampleSize >= HighConfidenceSamples && b.sampleSize >= HighConfidenceSamples then High else Medium
  }

  /** The rule of `determineWinner` in analytics.js, on the two variants' statistics. */
  function WinnerOf(a: Stats, b: Stats, fix2: real -> real): (w: Winner)
    ensures a.sampleSize < MinSamples || b.sampleSize < MinSamples ==> w == NoWinner(NotEnoughData)
    ensures w.ByRating? <==> a.sampleSize >= MinSamples && b.sampleSize >= MinSamples
                              && Truthy(a.avgRating) && Truthy(b.avgRating)
    ensures w.ByRating? ==> (w.winner == "A" <==> a.avgRating.value > b.avgRating.value)
    ensures w.ByResponseTime? <==> a.sampleSize >= MinSamples && b.sampleSize >= MinSamples
                                    && !(Truthy(a.avgRating) && Truthy(b.avgRating))
                                    && TruthyInt(a.avgResponseTime) && TruthyInt(b.avgResponseTime)
    ensures w.ByResponseTime? ==> (w.winner == "A" <==> a.avgResponseTime.value < b.avgResponseTime.value)
    ensures w.ByRating? || w.ByResponseTime? ==> w.winner in {"A", "B"} && w.confidence == ConfidenceOf(a, b)
    ensures w.NoWinner? && a.sampleSize >= MinSamples && b.sampleSize >= MinSamples ==> w.reason == NoComparableMetrics
  {
    if a.sampleSize < MinSamples || b.sampleSize < MinSamples then NoWinner(NotEnoughData)
    else if Truthy(a.avgRating) && Truthy(b.avgRating) then
      ByRating(if a.avgRating.value > b.avgRating.value then "A" else "B",
               fix2(Abs(a.avgRating.value - b.avgRating.value)), ConfidenceOf(a, b))
    else if TruthyInt(a.avgResponseTime) && TruthyInt(b.avgResponseTime) then
      ByResponseTime(if a.avgResponseTime.value < b.avgResponseTime.value then "A" else "B",
                     AbsInt(a.avgResponseTime.value - b.avgResponseTime.value), ConfidenceOf(a, b))
    else NoWinner(NoComparableMetrics)
  }

  /** `determineWinner`. */
  function DetermineWinner(interactionsA: seq<Interaction>, interactionsB: seq<Interaction>,
                           fix2: real -> real, fix0: real -> int): (w: Winner)
    ensures |interactionsA| < MinSamples || |interactionsB| < MinSamples ==> w == NoWinner(NotEnoughData)
    ensures w.ByRating? ==> |Ratings(interactionsA)| > 0 && |Ratings(interactionsB)| > 0
    ensures w.ByRating? || w.ByResponseTime? ==>
      (w.confidence == High <==> |interactionsA| >= HighConfidenceSamples && |interactionsB| >= HighConfidenceSamples)
  {
    WinnerOf(CalculateStats(interactionsA, "A", fix2, fix0), CalculateStats(interactionsB, "B", fix2, fix0), fix2)
  }

  /** Swapping the variants' statistics hands the win to the other side, except
    * on a tie, which goes to B in both orders. */
  lemma WinnerSwap(a: Stats, b: Stats, fix2: real -> real)
    requires a.sampleSize >= MinSamples && b.sampleSize >= MinSamples
    requires WinnerOf(a, b, fix2).ByRating? || WinnerOf(a, b, fix2).ByResponseTime?
    ensures WinnerOf(b, a, fix2).ByRating? == WinnerOf(a, b, fix2).ByRating?
    ensures WinnerOf(a, b, fix2).ByRating? && a.avgRating != b.avgRating ==>
      WinnerOf(a, b, fix2).winner != WinnerOf(b, a, fix2).winner
    ensures WinnerOf(a, b, fix2).ByRating? && a.avgRating == b.avgRating ==>
      WinnerOf(a, b, fix2).winner == "B" && WinnerOf(b, a, fix2).winner == "B"
    ensures WinnerOf(a, b, fix2).ByResponseTime? && a.avgResponseTime != b.avgResponseTime ==>
      WinnerOf(a, b, fix2).winner != WinnerOf(b, a, fix2).winner
    ensures WinnerOf(a, b, fix2).ByResponseTime? && a.avgResponseTime == b.avgResponseTime ==>
      WinnerOf(a, b, fix2).winner == "B" && WinnerOf(b, a, fix2).winner == "B"
  {
  }

  // ---------------------------------------------------------------------
  // getExperimentResults
  // ---------------------------------------------------------------------

  datatype ExperimentResults = ExperimentResults(experiment: string, variantA: Stats, variantB: Stats, winner: Winner)

  /** `experiments.find(e => e.id === experimentId)`. */
  function FindExperiment(experiments: seq<Experiment>, experimentId: string): (r: Option<Experiment>)
    ensures r.None? <==> forall k :: 0 <= k < |experiments| ==> experiments[k].id != experimentId
    ensures r.Some? ==> exists k :: 0 <= k < |experiments| && experiments[k] == r.value
                           && r.value.id == experimentId
                           && forall m :: 0 <= m < k ==> experiments[m].id != experimentId
  {
    if |experiments| == 0 then None
    else if experiments[0].id == experimentId then Some(experiments[0])
    else
      var r := FindExperiment(experiments[1..], experimentId);
      assert forall k :: 0 < k < |experiments| ==> experiments[k] == experiments[1..][k - 1];
      r
  }

  /** `i.experimentId === experimentId && i.variant === variant`. */
  function InVariant(experimentId: string, variant: string): Interaction -> bool
  {
    (i: Interaction) => i.experimentId == Some(experimentId) && i.variant == variant
  }

  function GetExperimentResults(experiments: seq<Experiment>, interactions: seq<Interaction>, experimentId: string,
                                fix2: real -> real, fix0: real -> int): (r: Option<ExperimentResults>)
    ensures r.None? <==> forall k :: 0 <= k < |experiments| ==> experiments[k].id != experimentId
    ensures r.Some? ==> r.value.experiment == FindExperiment(experiments, experimentId).value.name
  {
    match FindExperiment(experiments, experimentId)
    case None => None
    case Some(experiment) =>
      var interactionsA := Filter(interactions, InVariant(experimentId, "A"));
      var interactionsB := Filter(interactions, InVariant(experimentId, "B"));
      Some(ExperimentResults(
        experiment.name,
        CalculateStats(interactionsA, "A", fix2, fix0),
        CalculateStats(interactionsB, "B", fix2, fix0),
        DetermineWinner(interactionsA, interactionsB, fix2, fix0)))
  }

  /** Each variant's statistics count exactly the interactions of that
    * experiment and variant. */
  lemma ResultsCountMatching(experiments: seq<Experiment>, interactions: seq<Interaction>, experimentId: string,
                             fix2: real -> real, fix0: real -> int)
    requires GetExperimentResults(experiments, interactions, experimentId, fix2, fix0).Some?
    ensures GetExperimentResults(experiments, interactions, experimentId, fix2, fix0).value.variantA.sampleSize
         == |Filter(interactions, InVariant(experimentId, "A"))|
    ensures GetExperimentResults(experiments, interactions, experimentId, fix2, fix0).value.variantB.sampleSize
         == |Filter(interactions, InVariant(experimentId, "B"))|
    ensures forall k :: 0 <= k < |Filter(interactions, InVariant(experimentId, "A"))| ==>
      Filter(interactions, InVariant(experimentId, "A"))[k].experimentId == Some(experimentId)
      && Filter(interactions, InVariant(experimentId, "A"))[k].variant == "A"
    ensures forall k :: 0 <= k < |Filter(interactions, InVariant(experimentId, "B"))| ==>
      Filter(interactions, InVariant(experimentId, "B"))[k].experimentId == Some(experimentId)
      && Filter(interactions, InVariant(experimentId, "B"))[k].variant == "B"
  {
  }

  /** Logging an interaction of another experiment, or of a variant other than
    * A and B, leaves an experiment's results unchanged. */
  lemma UnrelatedInteraction(experiments: seq<Experiment>, interactions: seq<Interaction>, i: Interaction,
                             experimentId: string, fix2: real -> real, fix0: real -> int)
    requires i.experimentId != Some(experimentId) || (i.variant != "A" && i.variant != "B")
    ensures GetExperimentResults(experiments, interactions + [i], experimentId, fix2, fix0)
         == GetExperimentResults(experiments, interactions, experimentId, fix2, fix0)
  {
    var pa, pb := InVariant(experimentId, "A"), InVariant(experimentId, "B");
    FilterAppend(interactions, [i], pa);
    FilterAppend(interactions, [i], pb);
    assert Filter([i], pa) == [] && Filter([i], pb) == [];
    assert Filter(interactions + [i], pa) == Filter(interactions, pa);
    assert Filter(interactions + [i], pb) == Filter(interactions, pb);
  }
}
