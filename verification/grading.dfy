/** The grading pipeline of lib/ai/grading.ts: a text-extraction stage and
    a scoring stage, both mock implementations, composed in sequence. The
    random draw of the scoring stage is a parameter. */
module Grading {

  import opened Wrappers

  /** Per-criterion scores the scoring stage reports alongside the score. */
  datatype Breakdown = Breakdown(accuracy: int, methodology: int, completeness: int)

  /** What the pipeline returns: a score documented as 0-100, feedback text
      and an optional breakdown. */
  datatype GradingResult = GradingResult(score: int, feedback: string, breakdown: Option<Breakdown>)

  /** What the scoring stage is told about the assignment. */
  datatype GradingConfig = GradingConfig(
    answerKey: Option<string>,
    rubric: Option<string>,
    assignmentId: string,
    assignmentTitle: string)

  /** The documented score range of a grading result. */
  predicate InDocumentedRange(score: int) { 0 <= score <= 100 }

  /** The text the mock extraction stage returns for any image. */
  const MockExtractedText: string := "Mock extracted text from image. Replace with real OCR."

  /** The fixed feedback of the mock scoring stage. The source file holds
      the check mark after "correct" mis-encoded, as the three characters
      U+00E2 U+0153 U+2026, and so does this constant. */
  const MockFeedback: string :=
    "Great work! You've shown good understanding of the concepts. Here are some areas for improvement:\n"
    + "    \n"
    + "1. Your approach to the problem was correct \U{E2}\U{153}\U{2026}\n"
    + "2. Consider showing more detailed steps\n"
    + "3. Double-check your calculations\n"
    + "\n"
    + "Keep practicing and you'll master this!"

  /** Stage 1: text extraction. The mock ignores the image. */
  function ExtractTextFromImage(imageUrl: string): (text: string)
    ensures |text| > 0
  {
    MockExtractedText
  }

  /** The mock extraction returns the same text for every image URL. */
  lemma ExtractIgnoresImage(u1: string, u2: string)
    ensures ExtractTextFromImage(u1) == ExtractTextFromImage(u2)
  {
  }

  /** `Math.floor(Math.random() * 30) + 70` for a draw `r` in [0, 1). */
  function MockScore(r: real): (score: int)
    requires 0.0 <= r < 1.0
    ensures 70 <= score <= 99
    ensures InDocumentedRange(score)
  {
    (r * 30.0).Floor + 70
  }

  /** Stage 2: scoring. The mock's score comes from the draw alone; the
      breakdown sits at fixed offsets below it; the feedback is fixed. */
  function GradeWithLLM(extractedText: string, config: GradingConfig, r: real): (g: GradingResult)
    requires 0.0 <= r < 1.0
    ensures InDocumentedRange(g.score) && 70 <= g.score <= 99
    ensures g.breakdown.Some?
    ensures var b := g.breakdown.value;
      && b.accuracy == g.score - 5 && b.methodology == g.score - 10 && b.completeness == g.score
      && 60 <= b.methodology < b.accuracy < b.completeness <= g.score
    ensures g.feedback == MockFeedback && |g.feedback| > 0
  {
    var score := MockScore(r);
    GradingResult(score, MockFeedback, Some(Breakdown(score - 5, score - 10, score)))
  }

  /** The pipeline: the extracted text is passed verbatim to scoring. */
  function GradeSubmission(imageUrl: string, config: GradingConfig, r: real): (g: GradingResult)
    requires 0.0 <= r < 1.0
    ensures g == GradeWithLLM(ExtractTextFromImage(imageUrl), config, r)
    ensures InDocumentedRange(g.score) && |g.feedback| > 0
  {
    var text := ExtractTextFromImage(imageUrl);
    GradeWithLLM(text, config, r)
  }

  /** The mock result depends on the draw only: neither the image nor the
      assignment configuration changes it, and an empty extraction still
      yields a well-formed result. */
  lemma GradeDependsOnDrawOnly(u1: string, u2: string, c1: GradingConfig, c2: GradingConfig, r: real)
    requires 0.0 <= r < 1.0
    ensures GradeSubmission(u1, c1, r) == GradeSubmission(u2, c2, r)
    ensures GradeWithLLM("", c1, r) == GradeSubmission(u1, c1, r)
  {
  }

  /** Every score in [70, 99] is reachable by some draw. */
  lemma EveryMockScoreReachable(score: int)
    requires 70 <= score <= 99
    ensures MockScore((score - 70) as real / 30.0) == score
  {
    var r := (score - 70) as real / 30.0;
    assert r * 30.0 == (score - 70) as real;
  }
}
