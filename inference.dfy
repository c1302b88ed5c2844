/** Scoring a player's session against one model bundle: the feature vector,
    the scaler and mixture model, and the lookup of the cluster's tables. */
module Inference {
  import opened Wrappers
  import opened Text

  /** The fitted feature scaler (`scaler.transform`). It is opaque; `None`
      stands for the library rejecting a vector of the wrong shape. */
  datatype Scaler = Scaler(transform: seq<real> -> Option<seq<real>>)

  /** The fitted Gaussian mixture: `predict` gives the hard cluster label of a
      scaled vector, `predictProba` its membership probability per cluster. */
  datatype Mixture = Mixture(predict: seq<real> -> int, predictProba: seq<real> -> seq<real>)

  /** Per-cluster percentile benchmarks: target metric name to value. */
  type Percentiles = map<string, real>

  /** One deserialized model bundle, with the five fields the engine reads. */
  datatype Bundle = Bundle(
    features: seq<string>,
    scaler: Scaler,
    gmmModel: Mixture,
    percentileTargets: map<int, Percentiles>,
    clusterStats: map<string, map<string, real>>)

  /** The record `predict` returns. */
  datatype Prediction = Prediction(
    cluster: int,
    confidence: real,
    percentiles: Percentiles,
    clusterStats: map<string, real>)

  /** The exceptions `predict` can raise, each with what it names. */
  datatype Error =
    | NoModelFound(key: string)          // ValueError "No model found for {key}"
    | MissingFeature(feature: string)    // KeyError on player_data
    | ShapeRejected                      // ValueError from scaler.transform
    | NoProbabilities                    // ValueError from max() of an empty array
    | MissingPercentiles(cluster: int)   // KeyError on percentile_targets
    | MissingClusterStat(clusterKey: string)  // KeyError on an inner map of cluster_stats

  /** The raw feature vector `[player_data[feat] for feat in features]`:
      the player's value for each feature, in the bundle's order, or the first
      feature the player data lacks. */
  function FeatureVector(features: seq<string>, playerData: map<string, real>): (r: Result<seq<real>, Error>)
    ensures r.Success? <==> forall i :: 0 <= i < |features| ==> features[i] in playerData
    ensures r.Success? ==> |r.value| == |features|
                           && forall i :: 0 <= i < |features| ==> r.value[i] == playerData[features[i]]
    ensures r.Failure? ==> exists j :: 0 <= j < |features|
                             && r.error == MissingFeature(features[j])
                             && features[j] !in playerData
                             && forall i :: 0 <= i < j ==> features[i] in playerData
  {
    if |features| == 0 then Success([])
    else if features[0] !in playerData then Failure(MissingFeature(features[0]))
    else match FeatureVector(features[1..], playerData)
      case Failure(e) => Failure(e)
      case Success(rest) => Success([playerData[features[0]]] + rest)
  }

  /** Extra keys in the player data, and values of features the bundle does
      not use, have no effect on the vector. */
  lemma {:induction false} FeatureVectorReadsOnlyFeatures(features: seq<string>, pd1: map<string, real>, pd2: map<string, real>)
    requires forall i :: 0 <= i < |features| ==> (features[i] in pd1 <==> features[i] in pd2)
    requires forall i :: 0 <= i < |features| && features[i] in pd1 ==> pd1[features[i]] == pd2[features[i]]
    ensures FeatureVector(features, pd1) == FeatureVector(features, pd2)
  {
    if |features| > 0 {
      FeatureVectorReadsOnlyFeatures(features[1..], pd1, pd2);
    }
  }

  /** numpy's `max()` of a non-empty probability row: an element of the row
      that no element exceeds. */
  function Max(s: seq<real>): (m: real)
    requires |s| > 0
    ensures m in s
    ensures forall i :: 0 <= i < |s| ==> s[i] <= m
  {
    if |s| == 1 then s[0]
    else
      var rest := Max(s[1..]);
      if s[0] >= rest then s[0] else rest
  }

  /** The dict comprehension `{stat: values[str(cluster)] for stat, values in
      cluster_stats.items()}`: every statistic's value for one cluster label. */
  function ProjectStats(stats: map<string, map<string, real>>, clusterKey: string): (r: Result<map<string, real>, Error>)
    ensures r.Success? <==> forall stat :: stat in stats ==> clusterKey in stats[stat]
    ensures r.Success? ==> r.value.Keys == stats.Keys
                           && forall stat :: stat in r.value ==> r.value[stat] == stats[stat][clusterKey]
    ensures r.Failure? ==> r.error == MissingClusterStat(clusterKey)
  {
    if forall stat :: stat in stats ==> clusterKey in stats[stat] then
      Success(map stat | stat in stats :: stats[stat][clusterKey])
    else
      Failure(MissingClusterStat(clusterKey))
  }

  /** The feature vector after scaling, or the error that stops `predict`
      before the mixture model is consulted. */
  function Scaled(b: Bundle, playerData: map<string, real>): (r: Result<seq<real>, Error>)
    ensures FeatureVector(b.features, playerData).Failure? ==> r == FeatureVector(b.features, playerData)
    ensures r.Success? ==> FeatureVector(b.features, playerData).Success?
                           && b.scaler.transform(FeatureVector(b.features, playerData).value) == Some(r.value)
    ensures r == Failure(ShapeRejected) <==>
              FeatureVector(b.features, playerData).Success?
              && b.scaler.transform(FeatureVector(b.features, playerData).value).None?
  {
    match FeatureVector(b.features, playerData)
    case Failure(e) => Failure(e)
    case Success(x) =>
      match b.scaler.transform(x)
      case None => Failure(ShapeRejected)
      case Some(xs) => Success(xs)
  }

  /** The body of `predict` once the bundle is found: build and scale the
      vector, take the cluster label and the largest membership probability,
      and read the cluster's percentile targets and statistics. */
  function Infer(b: Bundle, playerData: map<string, real>): (r: Result<Prediction, Error>)
    // a missing feature or a rejected shape stops everything after it
    ensures Scaled(b, playerData).Failure? ==> r == Failure(Scaled(b, playerData).error)
    ensures r.Success? ==>
      var xs := Scaled(b, playerData).value;
      var p := r.value;
      && Scaled(b, playerData).Success?
      && p.cluster == b.gmmModel.predict(xs)
      // the confidence is the maximum of the probability row
      && p.confidence in b.gmmModel.predictProba(xs)
      && (forall q :: q in b.gmmModel.predictProba(xs) ==> q <= p.confidence)
      // the cluster indexes both tables of the bundle
      && p.cluster in b.percentileTargets
      && p.percentiles == b.percentileTargets[p.cluster]
      && p.clusterStats.Keys == b.clusterStats.Keys
      && (forall stat :: stat in b.clusterStats ==>
            IntToString(p.cluster) in b.clusterStats[stat]
            && p.clusterStats[stat] == b.clusterStats[stat][IntToString(p.cluster)])
  {
    match Scaled(b, playerData)
    case Failure(e) => Failure(e)
    case Success(xs) =>
      var cluster := b.gmmModel.predict(xs);
      var probs := b.gmmModel.predictProba(xs);
      if |probs| == 0 then Failure(NoProbabilities)
      else
        var confidence := Max(probs);
        if cluster !in b.percentileTargets then Failure(MissingPercentiles(cluster))
        else
          match ProjectStats(b.clusterStats, IntToString(cluster))
          case Failure(e) => Failure(e)
          case Success(stats) =>
            Success(Prediction(cluster, confidence, b.percentileTargets[cluster], stats))
  }

  /** `predict` succeeds exactly when every stage can go through: the player
      data covers the features, the scaler accepts the vector, the probability
      row is non-empty and both tables have an entry for the cluster; and the
      first stage that cannot go through gives the error. */
  lemma InferSucceedsIff(b: Bundle, playerData: map<string, real>)
    ensures Infer(b, playerData).Success? <==>
      && Scaled(b, playerData).Success?
      && |b.gmmModel.predictProba(Scaled(b, playerData).value)| > 0
      && b.gmmModel.predict(Scaled(b, playerData).value) in b.percentileTargets
      && forall stat :: stat in b.clusterStats ==>
           IntToString(b.gmmModel.predict(Scaled(b, playerData).value)) in b.clusterStats[stat]
    ensures Scaled(b, playerData).Success? ==>
      var xs := Scaled(b, playerData).value;
      var cluster := b.gmmModel.predict(xs);
      && (|b.gmmModel.predictProba(xs)| == 0 ==> Infer(b, playerData) == Failure(NoProbabilities))
      && (|b.gmmModel.predictProba(xs)| > 0 && cluster !in b.percentileTargets ==>
            Infer(b, playerData) == Failure(MissingPercentiles(cluster)))
      && (|b.gmmModel.predictProba(xs)| > 0 && cluster in b.percentileTargets
          && (exists stat :: stat in b.clusterStats && IntToString(cluster) !in b.clusterStats[stat]) ==>
            Infer(b, playerData) == Failure(MissingClusterStat(IntToString(cluster))))
  {
  }

  /** With a probability row of values in [0, 1], as a mixture model gives,
      the confidence lies in [0, 1]; and when the hard label is the index of a
      largest probability, the confidence is the probability of that cluster. */
  lemma ConfidenceOfCluster(b: Bundle, playerData: map<string, real>)
    requires Infer(b, playerData).Success?
    ensures var probs := b.gmmModel.predictProba(Scaled(b, playerData).value);
      (forall q :: q in probs ==> 0.0 <= q <= 1.0) ==> 0.0 <= Infer(b, playerData).value.confidence <= 1.0
    ensures var probs := b.gmmModel.predictProba(Scaled(b, playerData).value);
      var c := Infer(b, playerData).value.cluster;
      (0 <= c < |probs| && forall i :: 0 <= i < |probs| ==> probs[i] <= probs[c]) ==>
        Infer(b, playerData).value.confidence == probs[c]
  {
  }

  /** The player's values for features the bundle does not list never change
      the outcome of `predict`. */
  lemma InferReadsOnlyFeatures(b: Bundle, pd1: map<string, real>, pd2: map<string, real>)
    requires forall i :: 0 <= i < |b.features| ==> (b.features[i] in pd1 <==> b.features[i] in pd2)
    requires forall i :: 0 <= i < |b.features| && b.features[i] in pd1 ==> pd1[b.features[i]] == pd2[b.features[i]]
    ensures Infer(b, pd1) == Infer(b, pd2)
  {
    FeatureVectorReadsOnlyFeatures(b.features, pd1, pd2);
  }
}
