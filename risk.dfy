/**
 * RiskAssessmentModel from src/models/bridge_vortex_model.py: the mapping of a
 * predicted vibration amplitude (cm) to a risk tier and a confidence score,
 * the per-sample assessment, the report on the first sample and the
 * recommendation lists. The network inference that produces the amplitudes
 * is outside this module: predictions arrive as a sequence of reals.
 */
module Risk {
  import opened Wrappers

  /** The amplitude breakpoints, in centimetres, held in `risk_thresholds`. */
  datatype Thresholds = Thresholds(low: real, medium: real, high: real)

  /** The breakpoints the constructor installs: 1 cm, 10 cm and 40 cm. */
  const Default: Thresholds := Thresholds(1.0, 10.0, 40.0)

  /** Breakpoints for which every division in the scoring rule is defined. */
  predicate Increasing(t: Thresholds) {
    0.0 < t.low < t.medium < t.high
  }

  const LowRisk: string := "低风险"
  const MediumRisk: string := "中风险"
  const HighRisk: string := "高风险"

  /** The one recommendation given for a label that is not a known tier. */
  const Fallback: string := "请咨询专业工程师"

  /** Tier label and confidence score of one amplitude. */
  datatype Grade = Grade(level: string, score: real)

  /** Python's `min` on two floats. */
  function Min(x: real, y: real): (m: real)
    ensures m <= x && m <= y && (m == x || m == y)
  {
    if y < x then y else x
  }

  /** Sign and size of a quotient by a positive divisor. */
  lemma QuotientBounds(x: real, d: real)
    requires 0.0 < d
    ensures x < d ==> x / d < 1.0
    ensures d <= x ==> 1.0 <= x / d
    ensures 0.0 <= x ==> 0.0 <= x / d
    ensures x < 0.0 ==> x / d < 0.0
  {
    var q := x / d;
    assert q * d == x;
    if q < 0.0 { assert x < 0.0; }
    if q >= 1.0 { assert q * d >= d; }
  }

  /**
   * The branch in the body of the loop of `assess_risk`. The tier depends only
   * on the low and medium breakpoints; the high breakpoint is where the score
   * reaches 1.0 and stays there.
   */
  function Classify(t: Thresholds, a: real): (g: Grade)
    requires Increasing(t)
    ensures g.level == LowRisk <==> a < t.low
    ensures g.level == MediumRisk <==> t.low <= a < t.medium
    ensures g.level == HighRisk <==> t.medium <= a
    ensures g.level == LowRisk ==> g.score < 0.4
    ensures g.level == MediumRisk ==> 0.4 <= g.score < 0.8
    ensures g.level == HighRisk ==> 0.8 <= g.score <= 1.0
    ensures 0.0 <= a ==> 0.1 <= g.score <= 1.0
    ensures a < 0.0 ==> g.score < 0.1
    ensures t.high <= a ==> g.score == 1.0
  {
    if a < t.low then
      QuotientBounds(a, t.low);
      Grade(LowRisk, 0.1 + 0.3 * (a / t.low))
    else if a < t.medium then
      var f := (a - t.low) / (t.medium - t.low);
      QuotientBounds(a - t.low, t.medium - t.low);
      Grade(MediumRisk, 0.4 + 0.4 * f)
    else
      var f := (a - t.medium) / (t.high - t.medium);
      QuotientBounds(a - t.medium, t.high - t.medium);
      Grade(HighRisk, 0.8 + 0.2 * Min(1.0, f))
  }

  /** The values `assess_risk` returns: predictions, scores and labels, index by index. */
  datatype Assessment = Assessment(amplitudePrediction: seq<real>, riskScores: seq<real>, riskLevels: seq<string>)

  /** `assess_risk`: one score and one label per prediction, in order. */
  method AssessRisk(t: Thresholds, predictions: seq<real>) returns (r: Assessment)
    requires Increasing(t)
    ensures r.amplitudePrediction == predictions
    ensures |r.riskScores| == |predictions| && |r.riskLevels| == |predictions|
    ensures forall i :: 0 <= i < |predictions| ==>
              Grade(r.riskLevels[i], r.riskScores[i]) == Classify(t, predictions[i])
  {
    var riskScores: seq<real> := [];
    var riskLevels: seq<string> := [];
    for i := 0 to |predictions|
      invariant |riskScores| == i && |riskLevels| == i
      invariant forall k :: 0 <= k < i ==> Grade(riskLevels[k], riskScores[k]) == Classify(t, predictions[k])
    {
      var g := Classify(t, predictions[i]);
      riskScores := riskScores + [g.score];
      riskLevels := riskLevels + [g.level];
    }
    r := Assessment(predictions, riskScores, riskLevels);
  }

  /** `_get_recommendations`: a fixed list per tier, a single referral otherwise. */
  function Recommendations(level: string): (r: seq<string>)
    ensures level == LowRisk ==> |r| == 3
    ensures level == MediumRisk ==> |r| == 4
    ensures level == HighRisk ==> |r| == 5
    ensures level != LowRisk && level != MediumRisk && level != HighRisk ==> r == [Fallback]
    ensures Fallback in r <==> (level != LowRisk && level != MediumRisk && level != HighRisk)
  {
    var table := map[
      LowRisk := [
        "桥梁涡振风险较低，建议定期监测",
        "可考虑在关键部位安装传感器进行长期监测",
        "建议每年进行一次结构健康检查"
      ],
      MediumRisk := [
        "桥梁存在一定涡振风险，建议加强监测",
        "考虑安装风速监测设备",
        "建议评估是否需要安装抑振措施",
        "增加检查频率至每半年一次"
      ],
      HighRisk := [
        "桥梁涡振风险较高，需要立即采取措施",
        "强烈建议安装抑振装置（如调谐质量阻尼器）",
        "建立实时监测系统",
        "考虑限制通行或降低设计风速",
        "建议每季度进行详细检查"
      ]
    ];
    if level in table then table[level] else [Fallback]
  }

  /** The report on the first sample, with the caller's bridge description. */
  datatype Report<Info> = Report(
    bridgeInfo: Info,
    predictedAmplitude: real,
    riskScore: real,
    riskLevel: string,
    recommendations: seq<string>)

  /**
   * `generate_report`: only sample 0 is reported. With no predictions the
   * source's `[0]` raises IndexError; here that outcome is None.
   */
  method GenerateReport<Info>(t: Thresholds, predictions: seq<real>, info: Info) returns (r: Option<Report<Info>>)
    requires Increasing(t)
    ensures r.None? <==> |predictions| == 0
    ensures r.Some? ==>
              && r.value.bridgeInfo == info
              && r.value.predictedAmplitude == predictions[0]
              && Grade(r.value.riskLevel, r.value.riskScore) == Classify(t, predictions[0])
              && r.value.recommendations == Recommendations(r.value.riskLevel)
    ensures r.Some? ==> 3 <= |r.value.recommendations| <= 5 && Fallback !in r.value.recommendations
  {
    var assessment := AssessRisk(t, predictions);
    if |assessment.amplitudePrediction| == 0 {
      return None;
    }
    var level := assessment.riskLevels[0];
    r := Some(Report(info, assessment.amplitudePrediction[0], assessment.riskScores[0], level, Recommendations(level)));
  }

  /** The tier is decided by the 1 cm and 10 cm breakpoints alone: moving the 40 cm one never changes it. */
  lemma TierIgnoresHighBreakpoint(t: Thresholds, high: real, a: real)
    requires Increasing(t) && Increasing(t.(high := high))
    ensures Classify(t, a).level == Classify(t.(high := high), a).level
  {
  }

  /** With the default breakpoints: 低风险 below 1, 中风险 on [1, 10), 高风险 from 10 on. */
  lemma DefaultTiers(a: real)
    ensures Classify(Default, a).level == (if a < 1.0 then LowRisk else if a < 10.0 then MediumRisk else HighRisk)
  {
  }

  /** The boundary scores of the default rule. */
  lemma DefaultBoundaryScores()
    ensures Classify(Default, 0.5) == Grade(LowRisk, 0.25)
    ensures Classify(Default, 1.0) == Grade(MediumRisk, 0.4)
    ensures Classify(Default, 10.0) == Grade(HighRisk, 0.8)
    ensures Classify(Default, 25.0) == Grade(HighRisk, 0.9)
    ensures forall a :: 40.0 <= a ==> Classify(Default, a) == Grade(HighRisk, 1.0)
  {
  }

  /**
   * The default score never decreases and grows by at most 0.3 per cm, so it
   * is continuous, in particular at the breakpoints 1 and 10.
   */
  lemma DefaultScoreMonotoneAndContinuous(a: real, b: real)
    requires a <= b
    ensures 0.0 <= Classify(Default, b).score - Classify(Default, a).score <= 0.3 * (b - a)
  {
  }

  /** A larger amplitude never gets fewer recommendations in its report. */
  lemma RecommendationsGrowWithAmplitude(t: Thresholds, a: real, b: real)
    requires Increasing(t) && a <= b
    ensures |Recommendations(Classify(t, a).level)| <= |Recommendations(Classify(t, b).level)|
  {
  }
}
