/** Score resolution shared by the two dashboards
    (app/dashboard/student/page.tsx and app/dashboard/teacher/page.tsx): the
    effective score, the rounded average over graded rows, and the three
    ways a row's score is displayed. */
module Scores {

  import opened Wrappers
  import opened Seqs
  import opened Records

  /** The effective score: the teacher's when present, else the AI's
      (`teacher_score ?? ai_score`). */
  function EffectiveScore(s: Submission): (r: Option<int>)
    ensures r.None? <==> s.teacherScore.None? && s.aiScore.None?
    ensures s.teacherScore.Some? ==> r == s.teacherScore
    ensures s.teacherScore.None? ==> r == s.aiScore
  {
    if s.teacherScore.Some? then s.teacherScore else s.aiScore
  }

  /** A row counted by the average: graded, with at least one score. */
  predicate Qualifies(s: Submission) {
    s.status == Graded && (s.aiScore.Some? || s.teacherScore.Some?)
  }

  /** The summand of the average: `teacher_score ?? ai_score ?? 0`. */
  function ScoreOrZero(s: Submission): int {
    EffectiveScore(s).GetOr(0)
  }

  /** On a qualifying row the `?? 0` default never applies. */
  lemma QualifyingScoreIsEffective(s: Submission)
    requires Qualifies(s)
    ensures EffectiveScore(s) == Some(ScoreOrZero(s))
  {
  }

  /** `Math.round(sum / n)`: the integer nearest to sum/n, halves rounded
      up. */
  function RoundedMean(sum: int, n: nat): (r: int)
    requires n > 0
    ensures n * (2 * r - 1) <= 2 * sum < n * (2 * r + 1)
  {
    var r := (2 * sum + n) / (2 * n);
    assert 2 * n * r <= 2 * sum + n < 2 * n * r + 2 * n;
    r
  }

  /** The rounded mean is unique: any integer within half of sum/n is it. */
  lemma RoundedMeanUnique(sum: int, n: nat, r: int)
    requires n > 0 && n * (2 * r - 1) <= 2 * sum < n * (2 * r + 1)
    ensures RoundedMean(sum, n) == r
  {
    var m := RoundedMean(sum, n);
    MulPositiveBound(n, 2 * m - 2 * r - 2);
    MulPositiveBound(n, 2 * r - 2 * m - 2);
  }

  /** A positive factor keeps a product's sign. */
  lemma MulPositiveBound(n: int, x: int)
    requires n > 0
    ensures n * x < 0 ==> x < 0
    ensures n * x <= 0 ==> x <= 0
  {
  }

  /** The average score of a dashboard: the rounded mean of the effective
      scores of the qualifying rows, and 0 when no row qualifies. */
  function AverageScore(subs: seq<Submission>): (avg: int)
    ensures Count(subs, Qualifies) == 0 ==> avg == 0
    ensures var q := Filter(subs, Qualifies);
      |q| > 0 ==> |q| * (2 * avg - 1) <= 2 * Sum(q, ScoreOrZero) < |q| * (2 * avg + 1)
  {
    var q := Filter(subs, Qualifies);
    if |q| > 0 then RoundedMean(Sum(q, ScoreOrZero), |q|) else 0
  }

  /** An integer within half of a mean of values at most `hi` is at most `hi`. */
  lemma RoundedAtMost(n: int, sum: int, avg: int, hi: int)
    requires n > 0 && sum <= n * hi
    requires n * (2 * avg - 1) <= 2 * sum
    ensures avg <= hi
  {
    var d := 2 * avg - 1 - 2 * hi;
    assert n * d == n * (2 * avg - 1) - 2 * (n * hi);
    MulPositiveBound(n, d);
  }

  /** An integer within half of a mean of values at least `lo` is at least `lo`. */
  lemma RoundedAtLeast(n: int, sum: int, avg: int, lo: int)
    requires n > 0 && n * lo <= sum
    requires 2 * sum < n * (2 * avg + 1)
    ensures lo <= avg
  {
    var d := 2 * lo - 2 * avg - 1;
    assert n * d == 2 * (n * lo) - n * (2 * avg + 1);
    MulPositiveBound(n, d);
  }

  /** An integer within half of a mean of values in [lo, hi] lies in
      [lo, hi]. */
  lemma RoundedWithin(n: int, sum: int, avg: int, lo: int, hi: int)
    requires n > 0 && n * lo <= sum <= n * hi
    requires n * (2 * avg - 1) <= 2 * sum < n * (2 * avg + 1)
    ensures lo <= avg <= hi
  {
    RoundedAtMost(n, sum, avg, hi);
    RoundedAtLeast(n, sum, avg, lo);
  }

  /** Scores all in [lo, hi] average into [lo, hi]; in particular scores in
      0..100 average into 0..100. */
  lemma AverageWithinBounds(subs: seq<Submission>, lo: int, hi: int)
    requires lo <= hi
    requires forall s :: s in subs && Qualifies(s) ==> lo <= ScoreOrZero(s) <= hi
    ensures Count(subs, Qualifies) > 0 ==> lo <= AverageScore(subs) <= hi
  {
    var q := Filter(subs, Qualifies);
    if |q| > 0 {
      forall i | 0 <= i < |q| ensures lo <= ScoreOrZero(q[i]) <= hi {
        assert q[i] in q;
      }
      SumBounds(q, ScoreOrZero, lo, hi);
      RoundedWithin(|q|, Sum(q, ScoreOrZero), AverageScore(subs), lo, hi);
    }
  }

  /** A graded row with the given scores and nothing else of interest. */
  function GradedRow(id: nat, aiScore: Option<int>, teacherScore: Option<int>): Submission {
    Submission(id, "a", "s", None, 1, Graded, aiScore, None, teacherScore, None, None, 0, None)
  }

  /** Rows (teacher 90, AI 80) and (no teacher score, AI 70) average to 80;
      an ungraded row and a graded row with no score do not count. */
  lemma AverageExample()
    ensures AverageScore([GradedRow(0, Some(80), Some(90)), GradedRow(1, Some(70), None),
                          GradedRow(2, None, None), GradedRow(3, Some(10), None).(status := Grading)]) == 80
  {
    var rows := [GradedRow(0, Some(80), Some(90)), GradedRow(1, Some(70), None),
                 GradedRow(2, None, None), GradedRow(3, Some(10), None).(status := Grading)];
    assert rows[1..][1..] == rows[2..] && rows[2..][1..] == rows[3..] && rows[3..][1..] == [];
    assert Filter(rows[3..], Qualifies) == [];
    assert Filter(rows[2..], Qualifies) == [];
    assert Filter(rows[1..], Qualifies) == [rows[1]];
    assert Filter(rows, Qualifies) == [rows[0], rows[1]];
    assert ScoreOrZero(rows[0]) == 90 && ScoreOrZero(rows[1]) == 70;
    assert [rows[0], rows[1]][1..] == [rows[1]];
    assert Sum([rows[1]], ScoreOrZero) == 70;
    assert Sum([rows[0], rows[1]], ScoreOrZero) == 160;
    RoundedMeanUnique(160, 2, 80);
  }

  // ---------------------------------------------------------------------
  // Display rules

  /** A displayed score: a number or the dash. Which one is shown is all
      that is modelled; the "%" some places print after it is not. */
  datatype Shown = Dash | Number(value: int)

  /** The assignment card's "Latest Score":
      `(ai_score ?? teacher_score) || "—"`, which prefers the AI score and
      shows a 0 as "—". */
  function CardScore(s: Submission): (d: Shown)
    ensures d.Number? ==> d.value != 0
    ensures s.aiScore.Some? && s.aiScore.value != 0 ==> d == Number(s.aiScore.value)
    ensures s.aiScore.None? && s.teacherScore.Some? && s.teacherScore.value != 0 ==> d == Number(s.teacherScore.value)
    ensures d == Dash <==> (s.aiScore.Some? && s.aiScore.value == 0) || (s.aiScore.None? && s.teacherScore.GetOr(0) == 0)
  {
    var v := if s.aiScore.Some? then s.aiScore else s.teacherScore;
    if v.None? || v.value == 0 then Dash else Number(v.value)
  }

  /** The attempt history's score: `teacher_score ?? ai_score ?? "—"`, the
      effective score, 0 included. */
  function HistoryScore(s: Submission): (d: Shown)
    ensures d == Dash <==> EffectiveScore(s).None?
    ensures d.Number? ==> Some(d.value) == EffectiveScore(s)
  {
    match EffectiveScore(s)
    case None => Dash
    case Some(v) => Number(v)
  }

  /** The two displays of one row agree exactly when the row does not carry
      two different scores and its effective score is not 0. */
  lemma DisplayRulesAgreeIff(s: Submission)
    ensures CardScore(s) == HistoryScore(s) <==>
      (s.aiScore.None? || s.teacherScore.None? || s.aiScore == s.teacherScore) && EffectiveScore(s) != Some(0)
  {
  }

  /** In particular they agree on a row with at most one score, unless that
      score is 0. */
  lemma DisplayRulesAgreeOnOneScore(s: Submission)
    requires s.aiScore.None? || s.teacherScore.None?
    requires EffectiveScore(s) != Some(0)
    ensures CardScore(s) == HistoryScore(s)
  {
    DisplayRulesAgreeIff(s);
  }

  /** The teacher table's score cell: a teacher score is shown as an
      override, with the AI score (when present) struck through beside it;
      otherwise `ai_score || "—"`. */
  datatype Cell = Override(teacher: int, struck: Option<int>) | Plain(shown: Shown)

  function TeacherCell(s: Submission): (c: Cell)
    ensures c.Override? <==> s.teacherScore.Some?
    ensures c.Override? ==> c.teacher == s.teacherScore.value && c.struck == s.aiScore
    ensures c == Plain(Dash) <==> s.teacherScore.None? && s.aiScore.GetOr(0) == 0
    ensures s.teacherScore.None? && s.aiScore.GetOr(0) != 0 ==> c == Plain(Number(s.aiScore.value))
  {
    if s.teacherScore.Some? then Override(s.teacherScore.value, s.aiScore)
    else if s.aiScore.None? || s.aiScore.value == 0 then Plain(Dash)
    else Plain(Number(s.aiScore.value))
  }

  /** The number a cell shows in the main position, if any. */
  function MainNumber(c: Cell): Option<int> {
    match c
    case Override(t, _) => Some(t)
    case Plain(Number(v)) => Some(v)
    case Plain(Dash) => None
  }

  /** The teacher cell's main number is the effective score; it is missing
      only when there is no score, or only an AI score of 0. */
  lemma TeacherCellShowsEffective(s: Submission)
    ensures MainNumber(TeacherCell(s)).Some? ==> MainNumber(TeacherCell(s)) == EffectiveScore(s)
    ensures MainNumber(TeacherCell(s)).None? <==> EffectiveScore(s).None? || (s.teacherScore.None? && s.aiScore == Some(0))
  {
  }

  /** Per-assignment summaries carry `ai_score || null`: a 0 becomes null. */
  function SummaryAiScore(s: Submission): (r: Option<int>)
    ensures r.None? <==> s.aiScore.None? || s.aiScore == Some(0)
    ensures r.Some? ==> r == s.aiScore
  {
    if s.aiScore.Some? && s.aiScore.value != 0 then s.aiScore else None
  }
}
