/** The response models of `llm_judge/models.py`: the value bounds that pydantic's
    `Field(ge=..., le=...)` enforces when a response is built, and
    `TACodeResponse.from_sub_agents`, which combines the three sub-agent verdicts. */
module JudgeModels {
  import opened Wrappers
  import opened Strings
  import opened Arithmetic

  /** `CodeQualityResponse`, `UnitTestingResponse` and `CICDResponse` have the same
      three fields and the same bounds; one datatype stands for all three. */
  datatype SubAgentResponse = SubAgentResponse(score: int, summary: string, confidence: int)

  type CodeQualityResponse = SubAgentResponse
  type UnitTestingResponse = SubAgentResponse
  type CICDResponse = SubAgentResponse

  datatype TACodeResponse = TACodeResponse(
    codeQuality: int,
    unitTesting: int,
    ciCd: int,
    summary: string,
    overallScore: int,
    confidence: int)

  /** `request_usage` is an opaque usage record of the agent library; it is not modelled. */
  datatype TAReportResponse = TAReportResponse(
    checklist: int,
    codingEnv: int,
    versionControl: int,
    codeRunAndExperiments: int,
    cloud: int,
    deployment: int,
    overallDiscussion: int,
    summary: string,
    overallScore: int,
    confidence: int)

  predicate Between(x: int, lo: int, hi: int)
  {
    lo <= x <= hi
  }

  /** A score on the five-point scale. */
  predicate Score5(x: int)
  {
    Between(x, 1, 5)
  }

  /** A score or confidence on the ten-point scale. */
  predicate Score10(x: int)
  {
    Between(x, 1, 10)
  }

  predicate ValidSubAgent(r: SubAgentResponse)
  {
    Score5(r.score) && Score10(r.confidence)
  }

  predicate ValidTACode(r: TACodeResponse)
  {
    && Score5(r.codeQuality) && Score5(r.unitTesting) && Score5(r.ciCd)
    && Score10(r.overallScore) && Score10(r.confidence)
  }

  predicate ValidTAReport(r: TAReportResponse)
  {
    && Between(r.checklist, 0, 52)
    && Score5(r.codingEnv) && Score5(r.versionControl) && Score5(r.codeRunAndExperiments)
    && Score5(r.cloud) && Score5(r.deployment) && Score5(r.overallDiscussion)
    && Score10(r.overallScore) && Score10(r.confidence)
  }

  /** Building a sub-agent response: pydantic raises `ValidationError` when a bound
      is violated. */
  function NewSubAgentResponse(score: int, summary: string, confidence: int): (r: Result<SubAgentResponse>)
    ensures r.Ok? <==> Score5(score) && Score10(confidence)
    ensures r.Ok? ==> r.value.score == score && r.value.summary == summary && r.value.confidence == confidence
    ensures r.Ok? ==> ValidSubAgent(r.value)
    ensures r.Err? ==> r.error == "ValidationError"
  {
    if Score5(score) && Score10(confidence) then Ok(SubAgentResponse(score, summary, confidence))
    else Err("ValidationError")
  }

  function NewTACodeResponse(codeQuality: int, unitTesting: int, ciCd: int, summary: string,
                             overallScore: int, confidence: int): (r: Result<TACodeResponse>)
    ensures r.Ok? <==> ValidTACode(TACodeResponse(codeQuality, unitTesting, ciCd, summary, overallScore, confidence))
    ensures r.Ok? ==> r.value == TACodeResponse(codeQuality, unitTesting, ciCd, summary, overallScore, confidence)
    ensures r.Err? ==> r.error == "ValidationError"
  {
    var v := TACodeResponse(codeQuality, unitTesting, ciCd, summary, overallScore, confidence);
    if ValidTACode(v) then Ok(v) else Err("ValidationError")
  }

  function NewTAReportResponse(checklist: int, codingEnv: int, versionControl: int,
                               codeRunAndExperiments: int, cloud: int, deployment: int,
                               overallDiscussion: int, summary: string,
                               overallScore: int, confidence: int): (r: Result<TAReportResponse>)
    ensures r.Ok? <==> && Between(checklist, 0, 52)
                       && Score5(codingEnv) && Score5(versionControl) && Score5(codeRunAndExperiments)
                       && Score5(cloud) && Score5(deployment) && Score5(overallDiscussion)
                       && Score10(overallScore) && Score10(confidence)
    ensures r.Ok? ==> r.value == TAReportResponse(checklist, codingEnv, versionControl, codeRunAndExperiments,
                                                  cloud, deployment, overallDiscussion, summary,
                                                  overallScore, confidence)
    ensures r.Ok? ==> ValidTAReport(r.value)
    ensures r.Err? ==> r.error == "ValidationError"
  {
    var v := TAReportResponse(checklist, codingEnv, versionControl, codeRunAndExperiments,
                              cloud, deployment, overallDiscussion, summary, overallScore, confidence);
    if ValidTAReport(v) then Ok(v) else Err("ValidationError")
  }

  /** Python's `round` of the rational `n / d` (d > 0): the nearest integer, a tie
      going to the even neighbour. */
  function Round(n: int, d: int): (r: int)
    requires d > 0
    ensures 2 * (r * d - n) <= d && 2 * (n - r * d) <= d
  {
    var q := n / d;
    var rem := n % d;
    if 2 * rem < d then q
    else if 2 * rem > d then q + 1
    else if q % 2 == 0 then q
    else q + 1
  }

  /** With an odd denominator there is no tie: the rounded value is the unique
      integer strictly closer than one half. */
  lemma RoundOdd(n: int, d: int, k: int)
    requires d > 0 && d % 2 == 1
    ensures 2 * (Round(n, d) * d - n) < d && 2 * (n - Round(n, d) * d) < d
    ensures (2 * (k * d - n) < d && 2 * (n - k * d) < d) ==> k == Round(n, d)
  {
    var r := Round(n, d);
    var above := r * d - n;
    EvenNotOdd(above, d);
    EvenNotOdd(-above, d);
    if 2 * (k * d - n) < d && 2 * (n - k * d) < d {
      var gap := k * d - r * d;
      assert gap == (k - r) * d && -gap == (r - k) * d;
      assert gap < d && -gap < d;
      if k > r {
        MulAtLeast(k - r, d);
      } else if k < r {
        MulAtLeast(r - k, d);
      }
    }
  }

  /** `max(lo, min(hi, x))`. */
  function Clamp(x: int, lo: int, hi: int): (r: int)
    requires lo <= hi
    ensures lo <= r <= hi
    ensures lo <= x <= hi ==> r == x
    ensures x < lo ==> r == lo
    ensures x > hi ==> r == hi
  {
    if x > hi then hi else if x < lo then lo else x
  }

  /** The weighted sum before rounding, in elevenths:
      `(2a + 2b + 1.5c) / 1.1 == (20a + 20b + 15c) / 11`. */
  function WeightedElevenths(codeQuality: int, unitTesting: int, ciCd: int): int
  {
    20 * codeQuality + 20 * unitTesting + 15 * ciCd
  }

  lemma WeightedIsElevenths(a: int, b: int, c: int)
    ensures (2.0 * a as real + 2.0 * b as real + 1.5 * c as real) / 1.1
            == WeightedElevenths(a, b, c) as real / 11.0
  {
  }

  function SummaryOf(codeQuality: string, unitTesting: string, ciCd: string): string
  {
    "Code Quality: " + codeQuality + "\n\nUnit Testing: " + unitTesting + "\n\nCI/CD: " + ciCd
  }

  /** `from_sub_agents`: the clamped weighted score, the rounded mean confidence,
      the three scores copied and the three summaries joined under their labels. The
      final `cls(...)` validates, so the result is an error exactly when a copied
      score or the mean confidence is out of bounds. */
  function FromSubAgents(cq: CodeQualityResponse, ut: UnitTestingResponse, ci: CICDResponse): (r: Result<TACodeResponse>)
    ensures r.Ok? <==> Score5(cq.score) && Score5(ut.score) && Score5(ci.score)
                       && Score10(Round(cq.confidence + ut.confidence + ci.confidence, 3))
    ensures r.Ok? ==> && r.value.codeQuality == cq.score
                      && r.value.unitTesting == ut.score
                      && r.value.ciCd == ci.score
                      && r.value.summary == SummaryOf(cq.summary, ut.summary, ci.summary)
                      && ValidTACode(r.value)
    ensures r.Ok? ==> r.value.overallScore == Clamp(Round(WeightedElevenths(cq.score, ut.score, ci.score), 11), 1, 10)
    ensures r.Ok? ==> r.value.confidence == Round(cq.confidence + ut.confidence + ci.confidence, 3)
    ensures r.Err? ==> r.error == "ValidationError"
  {
    var overall := Clamp(Round(WeightedElevenths(cq.score, ut.score, ci.score), 11), 1, 10);
    var confidence := Round(cq.confidence + ut.confidence + ci.confidence, 3);
    NewTACodeResponse(cq.score, ut.score, ci.score, SummaryOf(cq.summary, ut.summary, ci.summary),
                      overall, confidence)
  }

  /** Valid sub-agent responses always combine: the overall score lies in 5..10
      (the weighted value lies between 55/11 and 275/11) and the confidence in 1..10. */
  lemma FromValidSubAgents(cq: CodeQualityResponse, ut: UnitTestingResponse, ci: CICDResponse)
    requires ValidSubAgent(cq) && ValidSubAgent(ut) && ValidSubAgent(ci)
    ensures FromSubAgents(cq, ut, ci).Ok?
    ensures 5 <= FromSubAgents(cq, ut, ci).value.overallScore <= 10
    ensures Score10(FromSubAgents(cq, ut, ci).value.confidence)
  {
    var w := WeightedElevenths(cq.score, ut.score, ci.score);
    assert 55 <= w <= 275;
    var ro := Round(w, 11);
    assert 5 <= ro by {
      assert 2 * (w - ro * 11) <= 11;
    }
    var s := cq.confidence + ut.confidence + ci.confidence;
    assert 3 <= s <= 30;
    var rc := Round(s, 3);
    assert 1 <= rc <= 10 by {
      assert 2 * (rc * 3 - s) <= 3 && 2 * (s - rc * 3) <= 3;
    }
  }

  /** The overall score (before clamping) and the confidence are the nearest
      integers to the exact weighted value and the exact mean: neither can land on
      a half, since 11 and 3 are odd. */
  lemma FromSubAgentsNearest(cq: CodeQualityResponse, ut: UnitTestingResponse, ci: CICDResponse)
    requires FromSubAgents(cq, ut, ci).Ok?
    ensures var w := WeightedElevenths(cq.score, ut.score, ci.score);
            var ro := Round(w, 11);
            2 * (ro * 11 - w) < 11 && 2 * (w - ro * 11) < 11
    ensures var s := cq.confidence + ut.confidence + ci.confidence;
            var c := FromSubAgents(cq, ut, ci).value.confidence;
            2 * (c * 3 - s) < 3 && 2 * (s - c * 3) < 3
  {
    RoundOdd(WeightedElevenths(cq.score, ut.score, ci.score), 11, 0);
    RoundOdd(cq.confidence + ut.confidence + ci.confidence, 3, 0);
  }

  /** The combined summary starts with the code-quality summary under its label,
      ends with the CI/CD summary, and holds the unit-testing summary in between. */
  lemma SummaryLayout(a: string, b: string, c: string)
    ensures var s := SummaryOf(a, b, c);
            && StartsWith(s, "Code Quality: " + a + "\n\n")
            && EndsWith(s, "\n\nCI/CD: " + c)
            && s[16 + |a|..30 + |a| + |b|] == "Unit Testing: " + b
            && |s| == 39 + |a| + |b| + |c|
  {
    var s := SummaryOf(a, b, c);
    var p := "Code Quality: " + a + "\n\n";
    assert s == p + ("Unit Testing: " + b) + ("\n\nCI/CD: " + c);
    assert s[..|p|] == p;
    assert s[16 + |a|..30 + |a| + |b|] == "Unit Testing: " + b;
  }
}
