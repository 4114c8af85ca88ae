/**
 * The risk scorer and the threshold policy.
 *
 * Text is scored by an external classifier when one is configured; when none is, when the
 * call fails, or when the reply cannot be stored, the deterministic keyword heuristic is
 * used instead, so scoring never fails its caller. Image scoring falls back to a placeholder
 * whose scores come from `Math.random`, given here as explicit draws.
 */
module Risk {
  import opened Wrappers
  import opened Models
  import Text

  // ---------------------------------------------------------------- keyword heuristic

  const ToxicWords: seq<string> := ["hate", "stupid", "idiot", "kill", "die"]
  const SpamWords: seq<string> := ["buy now", "click here", "free money", "urgent"]

  /** The six categories the heuristic reports a score for. */
  const HeuristicCategories: set<string> :=
    {"toxicity", "hate_speech", "harassment", "spam", "violence", "sexual_content"}

  const MockTextNote: string := "Mock analysis for development"
  const MockImageNote: string := "Mock image analysis for development"

  /** A scoring result: labels, per-category scores, the aggregate risk and the raw reply. */
  datatype Analysis = Analysis(labels: seq<string>, scores: map<string, real>, overallRisk: real, raw: RawResponse)

  /** `words.filter(w => text.includes(w)).length`. */
  function Hits(words: seq<string>, text: string): (n: nat)
    ensures n <= |words|
  {
    if words == [] then 0
    else (if Text.Contains(text, words[0]) then 1 else 0) + Hits(words[1..], text)
  }

  /** The words of the list that occur in the text. */
  function Matched(words: seq<string>, text: string): set<string> {
    set w | w in words && Text.Contains(text, w)
  }

  /**
   * With a list free of repeats, the count is the number of distinct words that occur:
   * a word counts once however often the text repeats it.
   */
  lemma {:induction false} HitsCountsDistinctWords(words: seq<string>, text: string)
    requires forall i, j :: 0 <= i < j < |words| ==> words[i] != words[j]
    ensures Hits(words, text) == |Matched(words, text)|
  {
    if words != [] {
      var tail := words[1..];
      assert words == [words[0]] + tail;
      forall i, j | 0 <= i < j < |tail|
        ensures tail[i] != tail[j]
      {
        assert tail[i] == words[i + 1] && tail[j] == words[j + 1];
      }
      HitsCountsDistinctWords(tail, text);
      var rest := Matched(tail, text);
      forall k | 0 <= k < |tail|
        ensures tail[k] != words[0]
      {
        assert tail[k] == words[k + 1];
      }
      assert words[0] !in tail;
      if Text.Contains(text, words[0]) {
        assert Matched(words, text) == rest + {words[0]};
      } else {
        assert Matched(words, text) == rest;
      }
    }
  }

  /** No hit at all exactly when no word of the list occurs. */
  lemma {:induction false} HitsZeroIff(words: seq<string>, text: string)
    ensures Hits(words, text) == 0 <==> forall w :: w in words ==> !Text.Contains(text, w)
  {
    if words != [] {
      HitsZeroIff(words[1..], text);
      assert words[0] in words;
      assert forall w :: w in words[1..] ==> w in words;
      forall w | w in words && Hits(words, text) == 0
        ensures !Text.Contains(text, w)
      {
        if w != words[0] {
          assert w in words[1..];
        }
      }
    }
  }

  function ToxicCount(text: string): (n: nat)
    ensures n <= 5
  {
    Hits(ToxicWords, Text.ToLower(text))
  }

  function SpamCount(text: string): (n: nat)
    ensures n <= 4
  {
    Hits(SpamWords, Text.ToLower(text))
  }

  function Min(a: real, b: real): (m: real)
    ensures m <= a && m <= b && (m == a || m == b)
  {
    if a <= b then a else b
  }

  /** `Math.max(...xs)` over a non-empty list. */
  function MaxOf(xs: seq<real>): (m: real)
    requires |xs| > 0
    ensures m in xs
    ensures forall i :: 0 <= i < |xs| ==> xs[i] <= m
  {
    if |xs| == 1 then xs[0]
    else
      var rest := MaxOf(xs[1..]);
      if xs[0] >= rest then xs[0] else rest
  }

  /** Toxicity: 0.3 per toxic word hit, capped at 0.9. */
  function ToxicityScore(n: nat): real {
    if n > 0 then Min(n as real * 0.3, 0.9) else 0.0
  }

  /** Spam: 0.4 per spam phrase hit, capped at 0.8. */
  function SpamScore(n: nat): real {
    if n > 0 then Min(n as real * 0.4, 0.8) else 0.0
  }

  function HeuristicLabels(toxic: nat, spam: nat): seq<string> {
    (if toxic > 0 then ["toxicity"] else []) + (if spam > 0 then ["spam"] else [])
  }

  function HeuristicScores(toxic: nat, spam: nat): map<string, real> {
    map["toxicity" := ToxicityScore(toxic), "hate_speech" := 0.0, "harassment" := 0.0,
        "spam" := SpamScore(spam), "violence" := 0.0, "sexual_content" := 0.0]
  }

  /**
   * The offline text scorer. Labels name the categories that fired, `toxicity` before
   * `spam`, each at most once; `HeuristicRisk` states what the overall risk is.
   */
  function Heuristic(text: string): (r: Analysis)
    ensures r.scores.Keys == HeuristicCategories
    ensures "toxicity" in r.labels <==> ToxicCount(text) > 0
    ensures "spam" in r.labels <==> SpamCount(text) > 0
    ensures r.labels == [] || r.labels == ["toxicity"] || r.labels == ["spam"] || r.labels == ["toxicity", "spam"]
  {
    var t, s := ToxicCount(text), SpamCount(text);
    Analysis(HeuristicLabels(t, s), HeuristicScores(t, s), MaxOf(HeuristicValues(t, s)), MockResponse(MockTextNote))
  }

  /** `Object.values` of the score table, in its key order. */
  function HeuristicValues(toxic: nat, spam: nat): seq<real> {
    [ToxicityScore(toxic), 0.0, 0.0, SpamScore(spam), 0.0, 0.0]
  }

  /**
   * The heuristic's overall risk is the largest of its six category scores, lies in
   * [0, 0.9], and is 0 exactly when no keyword matches.
   */
  lemma HeuristicRisk(text: string)
    ensures forall k :: k in Heuristic(text).scores ==> 0.0 <= Heuristic(text).scores[k] <= Heuristic(text).overallRisk
    ensures exists k :: k in Heuristic(text).scores && Heuristic(text).scores[k] == Heuristic(text).overallRisk
    ensures 0.0 <= Heuristic(text).overallRisk <= 0.9
    ensures Heuristic(text).overallRisk == 0.0 <==> ToxicCount(text) == 0 && SpamCount(text) == 0
  {
    var r := Heuristic(text);
    var t := ToxicityScore(ToxicCount(text));
    var s := SpamScore(SpamCount(text));
    HeuristicOverall(text);
    forall k | k in r.scores
      ensures 0.0 <= r.scores[k] <= r.overallRisk
    {
      assert k in HeuristicCategories;
    }
    if t >= s {
      assert r.scores["toxicity"] == r.overallRisk;
    } else {
      assert r.scores["spam"] == r.overallRisk;
    }
  }

  /** With four categories pinned at 0, the maximum is the larger of the toxicity and spam scores. */
  lemma HeuristicOverall(text: string)
    ensures Heuristic(text).overallRisk ==
      Max2(ToxicityScore(ToxicCount(text)), SpamScore(SpamCount(text)))
  {
    var r := Heuristic(text);
    var t := ToxicityScore(ToxicCount(text));
    var s := SpamScore(SpamCount(text));
    var values := HeuristicValues(ToxicCount(text), SpamCount(text));
    var m := MaxOf(values);
    assert m >= values[0] && m >= values[3];
  }

  function Max2(a: real, b: real): (m: real)
    ensures m >= a && m >= b && (m == a || m == b)
  {
    if a >= b then a else b
  }

  /** The heuristic's keyword scores: the capped weights of the toxic words and spam phrases found. */
  lemma HeuristicKeywordScores(text: string)
    ensures Heuristic(text).scores["toxicity"] == Min(ToxicCount(text) as real * 0.3, 0.9)
    ensures Heuristic(text).scores["spam"] == Min(SpamCount(text) as real * 0.4, 0.8)
  {
  }

  /** The four categories the heuristic cannot detect always score 0. */
  lemma HeuristicOtherScores(text: string)
    ensures Heuristic(text).scores["hate_speech"] == 0.0 && Heuristic(text).scores["harassment"] == 0.0
    ensures Heuristic(text).scores["violence"] == 0.0 && Heuristic(text).scores["sexual_content"] == 0.0
  {
  }

  /**
   * `getMockTextAnalysis`, built the way the service builds it: an empty label list and a
   * zeroed score table, then one push and one assignment per category that fired.
   */
  method MockTextAnalysis(text: string) returns (r: Analysis)
    ensures r == Heuristic(text)
  {
    var lower := Text.ToLower(text);
    var labels: seq<string> := [];
    var scores: map<string, real> := map["toxicity" := 0.0, "hate_speech" := 0.0, "harassment" := 0.0,
                                          "spam" := 0.0, "violence" := 0.0, "sexual_content" := 0.0];
    var toxicCount := Hits(ToxicWords, lower);
    if toxicCount > 0 {
      labels := labels + ["toxicity"];
      scores := scores["toxicity" := Min(toxicCount as real * 0.3, 0.9)];
    }
    var spamCount := Hits(SpamWords, lower);
    if spamCount > 0 {
      labels := labels + ["spam"];
      scores := scores["spam" := Min(spamCount as real * 0.4, 0.8)];
    }
    assert labels == HeuristicLabels(toxicCount, spamCount);
    assert scores == HeuristicScores(toxicCount, spamCount);
    assert CategoryValues(scores) == HeuristicValues(toxicCount, spamCount);
    var overall := MaxOf(CategoryValues(scores));
    r := Analysis(labels, scores, overall, MockResponse(MockTextNote));
  }

  /** `Object.values` of a table holding the six heuristic categories, in the order they were inserted. */
  function CategoryValues(scores: map<string, real>): seq<real>
    requires HeuristicCategories <= scores.Keys
  {
    [scores["toxicity"], scores["hate_speech"], scores["harassment"],
     scores["spam"], scores["violence"], scores["sexual_content"]]
  }

  // ---------------------------------------------------------------- threshold policy

  /** The two cut-offs, read from the environment in the service. */
  datatype Thresholds = Thresholds(autoRemove: real, flagReview: real)

  /** `AUTO_REMOVE_THRESHOLD` and `FLAG_REVIEW_THRESHOLD` when unset. */
  const DefaultThresholds: Thresholds := Thresholds(0.9, 0.6)

  /** `shouldAutoRemove`: the risk reaches the auto-remove cut-off (boundary included). */
  predicate ShouldAutoRemove(t: Thresholds, risk: real) {
    risk >= t.autoRemove
  }

  /** `shouldFlag`: the risk reaches the flag-review cut-off (boundary included). */
  predicate ShouldFlag(t: Thresholds, risk: real) {
    risk >= t.flagReview
  }

  /** Both checks are monotone in the risk, and with ordered cut-offs removal implies flagging. */
  lemma ThresholdsMonotone(t: Thresholds, r1: real, r2: real)
    requires r1 <= r2
    ensures ShouldAutoRemove(t, r1) ==> ShouldAutoRemove(t, r2)
    ensures ShouldFlag(t, r1) ==> ShouldFlag(t, r2)
    ensures t.flagReview <= t.autoRemove && ShouldAutoRemove(t, r1) ==> ShouldFlag(t, r1)
  {
  }

  /**
   * What the keyword heuristic routes to under the default cut-offs: removal takes three
   * distinct toxic words; review takes two toxic words or two spam phrases. Spam alone,
   * capped at 0.8, is never removed.
   */
  lemma {:induction false} HeuristicUnderDefaults(text: string)
    ensures ShouldAutoRemove(DefaultThresholds, Heuristic(text).overallRisk) <==> ToxicCount(text) >= 3
    ensures ShouldFlag(DefaultThresholds, Heuristic(text).overallRisk) <==> ToxicCount(text) >= 2 || SpamCount(text) >= 2
  {
    var t := ToxicCount(text);
    var s := SpamCount(text);
    HeuristicOverall(text);
    assert t == 0 || t == 1 || t == 2 || t == 3 || t == 4 || t == 5;
    assert s == 0 || s == 1 || s == 2 || s == 3 || s == 4;
  }

  // ---------------------------------------------------------------- external classifier

  /** What one classifier call gives back: a failure (no reply, bad JSON, network error) or the parsed fields. */
  datatype ProviderReply =
    | ProviderFailed
    | ProviderReplied(labels: Option<seq<string>>, scores: Option<map<string, real>>, overallRisk: Option<real>, body: string)

  /** The classifier dependency: absent (no API key) or a configured endpoint, seen as its answers. */
  datatype Classifier =
    | Unavailable
    | Configured(classifyText: string -> ProviderReply, classifyImage: string -> ProviderReply)

  /** A scoring result and the analysis record it stored, if any. */
  datatype Assessment = Assessment(result: Analysis, record: Option<AnalysisRecord>)

  /** A parsed reply with its missing fields defaulted: no labels, no scores, risk 0. */
  function FromReply(labels: Option<seq<string>>, scores: Option<map<string, real>>, risk: Option<real>, body: string): (a: Analysis)
    ensures labels.None? ==> a.labels == []
    ensures scores.None? ==> a.scores == map[]
    ensures risk.None? ==> a.overallRisk == 0.0
    ensures labels.Some? ==> a.labels == labels.value
    ensures scores.Some? ==> a.scores == scores.value
    ensures risk.Some? ==> a.overallRisk == risk.value
  {
    Analysis(labels.GetOr([]), scores.GetOr(map[]), risk.GetOr(0.0), ProviderResponse(body))
  }

  /** A reply's fields with their defaults filled in. */
  function Parsed(reply: ProviderReply): (a: Analysis)
    requires reply.ProviderReplied?
  {
    FromReply(reply.labels, reply.scores, reply.overallRisk, reply.body)
  }

  /**
   * Whether a reply is used rather than the fallback: the provider answered and, when the
   * result is to be stored, its risk passes the store's range check.
   */
  predicate Usable(reply: ProviderReply, postId: Option<Id>) {
    reply.ProviderReplied? && (postId.None? || ValidRisk(Parsed(reply).overallRisk))
  }

  /**
   * Shared by `analyzeText` and `analyzeImage`: use the provider's reply and store it when a
   * post id is given; store-time validation of the risk happens inside the same `try`, so an
   * out-of-range risk lands in the fallback too.
   */
  function UseReply(reply: ProviderReply, kind: AnalysisKind, postId: Option<Id>, fallback: Analysis): (a: Assessment)
    ensures reply.ProviderFailed? ==> a == Assessment(fallback, None)
    ensures Usable(reply, postId) ==> a.result == Parsed(reply)
    ensures !Usable(reply, postId) ==> a == Assessment(fallback, None)
    ensures a.record.Some? <==> Usable(reply, postId) && postId.Some?
    ensures a.record.Some? ==> a.record.value.postId == postId.value && a.record.value.kind == kind
    ensures a.record.Some? ==> ValidAnalysis(a.record.value)
    ensures a.record.Some? ==> a.record.value.labels == a.result.labels && a.record.value.scores == a.result.scores
                               && a.record.value.overallRisk == a.result.overallRisk
    ensures reply.ProviderReplied? && postId.None? ==> a == Assessment(Parsed(reply), None)
  {
    match reply
    case ProviderFailed => Assessment(fallback, None)
    case ProviderReplied(labels, scores, risk, body) =>
      var result := FromReply(labels, scores, risk, body);
      if postId.None? then Assessment(result, None)
      else if ValidRisk(result.overallRisk) then
        Assessment(result, Some(NewAnalysisRecord(postId.value, kind, result.raw, Some(result.labels), result.scores, result.overallRisk)))
      else Assessment(fallback, None)
  }

  /** `analyzeText`: the classifier's answer when there is one to use, else the heuristic. */
  function AnalyzeText(c: Classifier, text: string, postId: Option<Id>): (a: Assessment)
    ensures c.Unavailable? ==> a == Assessment(Heuristic(text), None)
    ensures a.record.Some? ==> c.Configured? && postId.Some? && a.record.value.postId == postId.value
    ensures a.record.Some? ==> a.record.value.kind == TextAnalysis && ValidAnalysis(a.record.value)
    ensures a.record.None? && postId.Some? ==> a.result == Heuristic(text)
    ensures c.Configured? && Usable(c.classifyText(text), postId) ==> a.result == Parsed(c.classifyText(text))
    ensures c.Configured? && Usable(c.classifyText(text), postId) && postId.Some? ==> a.record.Some?
    ensures c.Configured? && !Usable(c.classifyText(text), postId) ==> a == Assessment(Heuristic(text), None)
  {
    match c
    case Unavailable => Assessment(Heuristic(text), None)
    case Configured(classifyText, _) => UseReply(classifyText(text), TextAnalysis, postId, Heuristic(text))
  }

  // ---------------------------------------------------------------- image placeholder

  /** Four values of `Math.random()`, each in [0, 1). */
  datatype RandomDraws = RandomDraws(pick: real, nudity: real, violence: real, inappropriate: real)

  predicate ValidDraws(d: RandomDraws) {
    0.0 <= d.pick < 1.0 && 0.0 <= d.nudity < 1.0 && 0.0 <= d.violence < 1.0 && 0.0 <= d.inappropriate < 1.0
  }

  const ImageLabels: seq<string> := ["safe_content", "text_overlay", "people"]

  /**
   * `getMockImageAnalysis`: one label picked at random and three low scores
   * (nudity below 0.2, violence below 0.1, inappropriate below 0.15).
   */
  function MockImage(d: RandomDraws): (r: Analysis)
    requires ValidDraws(d)
    ensures |r.labels| == 1 && r.labels[0] in ImageLabels
    ensures r.scores.Keys == {"nudity", "violence", "inappropriate"}
    ensures forall k :: k in r.scores ==> 0.0 <= r.scores[k] <= r.overallRisk
    ensures r.overallRisk in r.scores.Values
    ensures 0.0 <= r.overallRisk < 0.2
  {
    var i := (d.pick * 3.0).Floor;
    var values := [d.nudity * 0.2, d.violence * 0.1, d.inappropriate * 0.15];
    var scores := map["nudity" := values[0], "violence" := values[1], "inappropriate" := values[2]];
    assert forall k :: k in scores ==> scores[k] in values;
    Analysis([ImageLabels[i]], scores, MaxOf(values), MockResponse(MockImageNote))
  }

  /** `analyzeImage`: the classifier's answer when there is one to use, else the placeholder. */
  function AnalyzeImage(c: Classifier, imageUrl: string, postId: Option<Id>, d: RandomDraws): (a: Assessment)
    requires ValidDraws(d)
    ensures c.Unavailable? ==> a == Assessment(MockImage(d), None)
    ensures a.record.Some? ==> c.Configured? && postId.Some? && a.record.value.postId == postId.value
    ensures a.record.Some? ==> a.record.value.kind == ImageAnalysis && ValidAnalysis(a.record.value)
    ensures a.record.None? && postId.Some? ==> a.result == MockImage(d)
    ensures c.Configured? && Usable(c.classifyImage(imageUrl), postId) ==> a.result == Parsed(c.classifyImage(imageUrl))
    ensures c.Configured? && Usable(c.classifyImage(imageUrl), postId) && postId.Some? ==> a.record.Some?
    ensures c.Configured? && !Usable(c.classifyImage(imageUrl), postId) ==> a == Assessment(MockImage(d), None)
  {
    match c
    case Unavailable => Assessment(MockImage(d), None)
    case Configured(_, classifyImage) => UseReply(classifyImage(imageUrl), ImageAnalysis, postId, MockImage(d))
  }

  /** The placeholder image score never reaches an auto-remove cut-off of 0.2 or more (the default is 0.9). */
  lemma MockImageNeverRemoves(t: Thresholds, d: RandomDraws)
    requires ValidDraws(d) && t.autoRemove >= 0.2
    ensures !ShouldAutoRemove(t, MockImage(d).overallRisk)
  {
  }
}
