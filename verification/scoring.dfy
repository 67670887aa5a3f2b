/** Scoring and the server-side level classification (StudentController.php
    `passTest`, StudentGroupService.php `determineLevel`).

    PHP's float percentage is modelled as an exact `real`; the only values
    `passTest` can produce are 0 and 100, both exact in binary floating point.
 */
module Scoring {
  import opened Entities

  /** The score `passTest` records: the test's question count, whatever the
      submitted answers are (no answer key exists). */
  function Score(t: Test, answers: map<Id, string>): nat {
    |t.questions|
  }

  /** `$totalQuestions > 0 ? ($score / $totalQuestions) * 100 : 0`. */
  function Percentage(score: nat, total: nat): (p: real)
    ensures total == 0 ==> p == 0.0
    ensures total > 0 ==> p * total as real == score as real * 100.0
    ensures score <= total ==> 0.0 <= p <= 100.0
  {
    if total > 0 then (score as real / total as real) * 100.0 else 0.0
  }

  /** `passTest` scores every test at 0% when it is empty and 100% otherwise. */
  lemma PassPercentage(t: Test, answers: map<Id, string>)
    ensures Percentage(Score(t, answers), |t.questions|) == if |t.questions| == 0 then 0.0 else 100.0
  {
  }

  /** The three-tier table: at most 49 is Basic, at most 75 Intermediate,
      anything above Advanced. */
  function DetermineLevel(p: real): (l: Level)
    ensures l == Basic <==> p <= 49.0
    ensures l == Intermediate <==> 49.0 < p <= 75.0
    ensures l == Advanced <==> 75.0 < p
  {
    if p <= 49.0 then Basic
    else if p <= 75.0 then Intermediate
    else Advanced
  }

  function Rank(l: Level): nat {
    match l
    case Basic => 0
    case Intermediate => 1
    case Advanced => 2
  }

  /** A higher percentage never yields a lower level. */
  lemma DetermineLevelMonotone(p: real, q: real)
    requires p <= q
    ensures Rank(DetermineLevel(p)) <= Rank(DetermineLevel(q))
  {
  }

  /** The string stored in `student_group.level`; each string names one
      level. */
  function LevelName(l: Level): (r: string)
    ensures r == "Basic" <==> l == Basic
    ensures r == "Intermediate" <==> l == Intermediate
    ensures r == "Advanced" <==> l == Advanced
  {
    match l
    case Basic => "Basic"
    case Intermediate => "Intermediate"
    case Advanced => "Advanced"
  }
}
