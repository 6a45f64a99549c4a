/**
 * Fuzzy best-match resolution (`get_best_match`, manual_certificate_renamer.py, lines 35-45).
 * The similarity score (`fuzz.ratio` from rapidfuzz) is a foreign function: it is a
 * parameter here, known only to return a value in [0, 100].
 */
module FuzzyMatcher {
  import opened Wrappers

  type Score = r: real | 0.0 <= r <= 100.0

  /** A similarity measure between the extracted name and a roster name. */
  type Scorer = (string, string) -> Score

  /** `FUZZY_THRESHOLD` (line 11), the default threshold. */
  const FuzzyThreshold: real := 90.0

  /** `k` is the first position of the highest score among `names`, and that score is positive. */
  predicate IsFirstBest(candidate: string, names: seq<string>, score: Scorer, k: nat) {
    && k < |names|
    && score(candidate, names[k]) > 0.0
    && (forall j :: 0 <= j < |names| ==> score(candidate, names[j]) <= score(candidate, names[k]))
    && (forall j :: 0 <= j < k ==> score(candidate, names[j]) < score(candidate, names[k]))
  }

  /** Reference definition of the scan's winner, computed from the back of the list:
      the earliest maximal score, provided it is positive. */
  function FirstBest(candidate: string, names: seq<string>, score: Scorer): (r: Option<nat>)
    ensures r.Some? ==> IsFirstBest(candidate, names, score, r.value)
    ensures r.None? ==> forall j :: 0 <= j < |names| ==> score(candidate, names[j]) == 0.0
  {
    if |names| == 0 then None
    else
      var first := score(candidate, names[0]);
      match FirstBest(candidate, names[1..], score)
      case None => if first > 0.0 then Some(0) else None
      case Some(k) => if first >= score(candidate, names[k + 1]) then Some(0) else Some(k + 1)
  }

  /** What `get_best_match` returns: the earliest best-scoring name when its score reaches
      the threshold, and `None` otherwise. */
  function BestMatch(candidate: string, names: seq<string>, score: Scorer, threshold: real): (r: Option<string>)
    ensures r.Some? ==>
      && r.value in names
      && score(candidate, r.value) >= threshold
      && score(candidate, r.value) > 0.0
      && (forall j :: 0 <= j < |names| ==> score(candidate, names[j]) <= score(candidate, r.value))
      && exists k :: 0 <= k < |names| && names[k] == r.value &&
           forall j :: 0 <= j < k ==> score(candidate, names[j]) < score(candidate, r.value)
    ensures r.None? <==>
      forall j :: 0 <= j < |names| ==> score(candidate, names[j]) < threshold || score(candidate, names[j]) == 0.0
  {
    match FirstBest(candidate, names, score)
    case Some(k) => if score(candidate, names[k]) >= threshold then Some(names[k]) else None
    case None => None
  }

  /** The loop of lines 36-45: keeps the best score so far and replaces it only on a strictly
      greater score, then applies the threshold. */
  method GetBestMatch(candidate: string, names: seq<string>, score: Scorer, threshold: real)
    returns (r: Option<string>)
    ensures r == BestMatch(candidate, names, score, threshold)
  {
    var bestScore: real := 0.0;
    var bestMatch: Option<string> := None;
    ghost var bestIndex: Option<nat> := None;
    for i := 0 to |names|
      invariant bestIndex.None? ==>
        bestScore == 0.0 && bestMatch.None? && forall j :: 0 <= j < i ==> score(candidate, names[j]) == 0.0
      invariant bestIndex.Some? ==>
        && IsFirstBest(candidate, names[..i], score, bestIndex.value)
        && bestMatch == Some(names[bestIndex.value])
        && bestScore == score(candidate, names[bestIndex.value])
    {
      var s := score(candidate, names[i]);
      if s > bestScore {
        bestScore := s;
        bestMatch := Some(names[i]);
        bestIndex := Some(i);
      }
    }
    assert names[..|names|] == names;
    if bestScore >= threshold {
      r := bestMatch;
    } else {
      r := None;
    }
  }
}
