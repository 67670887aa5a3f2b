/** The pure helpers of the student dashboard (PageStudent.js): the
    client-side level table, answer progress, the subject filter, merging the
    completed attempts into the test list, the local group list, submit
    enablement and the average score.

    JavaScript numbers are modelled as exact `real`s.
 */
module Dashboard {
  import opened Outcome
  import opened Collections
  import Entities
  import Scoring

  /** The four client-side tiers. */
  datatype Tier = Remedial | Beginner | Intermediate | Advanced

  /** The string `determineLevelFromScore` returns; each string names one
      tier. */
  function TierName(t: Tier): (r: string)
    ensures r == "remedial" <==> t == Remedial
    ensures r == "beginner" <==> t == Beginner
    ensures r == "intermediate" <==> t == Intermediate
    ensures r == "advanced" <==> t == Advanced
  {
    match t
    case Remedial => "remedial"
    case Beginner => "beginner"
    case Intermediate => "intermediate"
    case Advanced => "advanced"
  }

  function TierRank(t: Tier): nat {
    match t
    case Remedial => 0
    case Beginner => 1
    case Intermediate => 2
    case Advanced => 3
  }

  /** `determineLevelFromScore`: at least 80 advanced, at least 60
      intermediate, at least 40 beginner, anything else remedial. */
  function DetermineLevelFromScore(score: real): (t: Tier)
    ensures t == Advanced <==> 80.0 <= score
    ensures t == Intermediate <==> 60.0 <= score < 80.0
    ensures t == Beginner <==> 40.0 <= score < 60.0
    ensures t == Remedial <==> score < 40.0
  {
    if score >= 80.0 then Advanced
    else if score >= 60.0 then Intermediate
    else if score >= 40.0 then Beginner
    else Remedial
  }

  /** A higher score never gives a lower tier. */
  lemma DetermineLevelFromScoreMonotone(p: real, q: real)
    requires p <= q
    ensures TierRank(DetermineLevelFromScore(p)) <= TierRank(DetermineLevelFromScore(q))
  {
  }

  /** The two tables disagree: between 40 and 49 the server files a student
      as Basic, its lowest level, while the client shows beginner, the second
      of four; between 76 and 80 the server says Advanced and the client
      intermediate. */
  lemma TablesDisagree(p: real)
    ensures 40.0 <= p <= 49.0 ==> Scoring.DetermineLevel(p) == Entities.Basic && DetermineLevelFromScore(p) == Beginner
    ensures 75.0 < p < 80.0 ==> Scoring.DetermineLevel(p) == Entities.Advanced && DetermineLevelFromScore(p) == Intermediate
  {
  }

  /** `calculateProgress`: the share of questions answered, as a percentage;
      0 while the questions are not loaded or there are none. */
  function CalculateProgress(answers: map<Entities.Id, string>, questions: Option<seq<Entities.Id>>): (p: real)
    ensures questions.None? || |questions.value| == 0 ==> p == 0.0
    ensures questions.Some? && |questions.value| > 0 ==> p * |questions.value| as real == |answers| as real * 100.0
    ensures questions.Some? && |answers| <= |questions.value| ==> 0.0 <= p <= 100.0
  {
    var total := if questions.Some? then |questions.value| else 0;
    if total > 0 then (|answers| as real / total as real) * 100.0 else 0.0
  }

  /** With every question answered the bar is full, and only then. */
  lemma ProgressFullIffAllAnswered(answers: map<Entities.Id, string>, questions: seq<Entities.Id>)
    requires |questions| > 0
    ensures CalculateProgress(answers, Some(questions)) == 100.0 <==> |answers| == |questions|
  {
  }

  /** What the test list holds about one test. */
  datatype TestItem = TestItem(id: Entities.Id, subjectId: Entities.Id)

  /** The subject filter: the tests of the selected subject, in order, or all
      of them when nothing is selected. */
  function FilterBySubject(tests: seq<TestItem>, selected: Option<Entities.Id>): (r: seq<TestItem>)
    ensures selected.None? ==> r == tests
    ensures selected.Some? ==>
      && (forall i :: 0 <= i < |r| ==> r[i] in tests && r[i].subjectId == selected.value)
      && (forall i :: 0 <= i < |tests| && tests[i].subjectId == selected.value ==> tests[i] in r)
  {
    if selected.None? then tests
    else Filter(tests, (t: TestItem) => t.subjectId == selected.value)
  }

  /** When every test is of the selected subject, nothing is filtered out. */
  lemma FilterKeepsSingleSubject(tests: seq<TestItem>, subject: Entities.Id)
    requires forall i :: 0 <= i < |tests| ==> tests[i].subjectId == subject
    ensures FilterBySubject(tests, Some(subject)) == tests
  {
    FilterAll(tests, (t: TestItem) => t.subjectId == subject);
  }

  /** Filtering a list made of two parts filters each part, so the filter
      keeps the list's order. */
  lemma FilterBySubjectSplits(a: seq<TestItem>, b: seq<TestItem>, selected: Option<Entities.Id>)
    ensures FilterBySubject(a + b, selected) == FilterBySubject(a, selected) + FilterBySubject(b, selected)
  {
    if selected.Some? {
      FilterAppend(a, b, (t: TestItem) => t.subjectId == selected.value);
    }
  }

  /** One entry of the completed-tests answer. */
  datatype Completed = Completed(testId: Entities.Id, score: Option<int>)

  /** A test with its status. */
  datatype TestStatus = TestStatus(test: TestItem, passed: bool, score: Option<int>)

  /** `Array.prototype.find` on the test id: the first matching index. */
  function FindCompleted(completed: seq<Completed>, id: Entities.Id): (r: Option<nat>)
    ensures r.Some? ==> r.value < |completed| && completed[r.value].testId == id
    ensures r.Some? ==> forall j :: 0 <= j < r.value ==> completed[j].testId != id
    ensures r.None? ==> forall j :: 0 <= j < |completed| ==> completed[j].testId != id
  {
    if |completed| == 0 then None
    else if completed[0].testId == id then Some(0)
    else
      var rest := FindCompleted(completed[1..], id);
      if rest.None? then None else Some(rest.value + 1)
  }

  /** `completedTest?.score || null`: a missing, null or zero score reads as
      null. */
  function ScoreOrNull(score: Option<int>): (r: Option<int>)
    ensures r.Some? <==> score.Some? && score.value != 0
    ensures r.Some? ==> r == score
  {
    if score.Some? && score.value != 0 then score else None
  }

  /** The status merge: `passed` iff some completed entry has the test's id;
      the score comes from the first such entry. */
  function MergeStatus(tests: seq<TestItem>, completed: seq<Completed>): (r: seq<TestStatus>)
    ensures |r| == |tests|
    ensures forall i :: 0 <= i < |r| ==> r[i].test == tests[i]
    ensures forall i :: 0 <= i < |r| ==>
      (r[i].passed <==> exists j :: 0 <= j < |completed| && completed[j].testId == tests[i].id)
    ensures forall i :: 0 <= i < |r| && !r[i].passed ==> r[i].score.None?
    ensures forall i, j ::
      (0 <= i < |r| && 0 <= j < |completed| && completed[j].testId == tests[i].id
       && (forall k :: 0 <= k < j ==> completed[k].testId != tests[i].id)) ==>
      r[i].score == ScoreOrNull(completed[j].score)
  {
    seq(|tests|, i requires 0 <= i < |tests| =>
      var found := FindCompleted(completed, tests[i].id);
      TestStatus(tests[i], found.Some?, if found.Some? then ScoreOrNull(completed[found.value].score) else None))
  }

  /** An entry of the local group list. */
  datatype GroupEntry = GroupEntry(id: Entities.Id, name: string, level: string, subject: string)

  /** No two entries share an id. */
  predicate UniqueIds(groups: seq<GroupEntry>) {
    forall i, j :: 0 <= i < j < |groups| ==> groups[i].id != groups[j].id
  }

  /** Adds `g` unless an entry already has its id. */
  function AddGroupIfAbsent(groups: seq<GroupEntry>, g: GroupEntry): (r: seq<GroupEntry>)
    ensures (exists i :: 0 <= i < |groups| && groups[i].id == g.id) ==> r == groups
    ensures (forall i :: 0 <= i < |groups| ==> groups[i].id != g.id) ==> r == groups + [g]
    ensures UniqueIds(groups) ==> UniqueIds(r)
    ensures exists i :: 0 <= i < |r| && r[i].id == g.id
  {
    if exists i :: 0 <= i < |groups| && groups[i].id == g.id then groups
    else
      assert (groups + [g])[|groups|] == g;
      groups + [g]
  }

  /** Adding the same group twice is adding it once. */
  lemma AddGroupIdempotent(groups: seq<GroupEntry>, g: GroupEntry)
    ensures AddGroupIfAbsent(AddGroupIfAbsent(groups, g), g) == AddGroupIfAbsent(groups, g)
  {
  }

  /** The submit button is enabled when no submission is running and the
      answer count is not below the question count. The page renders the
      button only once the test's questions are loaded; the `None` case
      evaluates the disabled expression on its own, where the count is
      `undefined` and a comparison with it is false. */
  function SubmitEnabled(submitting: bool, answers: map<Entities.Id, string>, questions: Option<seq<Entities.Id>>): (b: bool)
    ensures b ==> !submitting
    ensures questions.None? ==> (b <==> !submitting)
    ensures questions.Some? ==> (b <==> !submitting && |answers| >= |questions.value|)
  {
    !submitting && (questions.None? || |answers| >= |questions.value|)
  }

  /** When answers are only given to the test's questions, an enabled submit
      button means a full progress bar (or a test without questions). */
  lemma SubmitEnabledMeansComplete(submitting: bool, answers: map<Entities.Id, string>, questions: seq<Entities.Id>)
    requires answers.Keys <= set q | q in questions
    requires SubmitEnabled(submitting, answers, Some(questions))
    ensures |questions| > 0 ==> CalculateProgress(answers, Some(questions)) == 100.0
    ensures |questions| == 0 ==> CalculateProgress(answers, Some(questions)) == 0.0
  {
    var qs := set q | q in questions;
    CardinalityOfElements(questions);
    assert |answers.Keys| <= |qs| by {
      SubsetCardinality(answers.Keys, qs);
    }
    assert |answers| == |questions|;
    if |questions| > 0 {
      ProgressFullIffAllAnswered(answers, questions);
    }
  }

  /** A list has at least as many entries as distinct elements. */
  lemma {:induction false} CardinalityOfElements<T>(s: seq<T>)
    ensures |set x | x in s| <= |s|
  {
    if |s| > 0 {
      var init := s[..|s| - 1];
      CardinalityOfElements(init);
      assert (set x | x in s) == (set x | x in init) + {s[|s| - 1]} by {
        assert s == init + [s[|s| - 1]];
      }
    }
  }

  lemma SubsetCardinality<T>(a: set<T>, b: set<T>)
    requires a <= b
    ensures |a| <= |b|
  {
    assert b == a + (b - a);
  }

  /** `t.score || 0`. */
  function ScoreOrZero(t: TestStatus): int {
    if t.score.Some? then t.score.value else 0
  }

  /** The passed tests' scores. */
  function PassedScores(tests: seq<TestStatus>): (r: seq<int>)
    ensures |r| <= |tests|
  {
    if |tests| == 0 then []
    else (if tests[0].passed then [ScoreOrZero(tests[0])] else []) + PassedScores(tests[1..])
  }

  function Sum(xs: seq<int>): int {
    if |xs| == 0 then 0 else xs[0] + Sum(xs[1..])
  }

  /** `averageScore`: the mean of the passed tests' scores, 0 when none is
      passed. */
  function AverageScore(tests: seq<TestStatus>): (a: real)
    ensures |PassedScores(tests)| == 0 ==> a == 0.0
    ensures |PassedScores(tests)| > 0 ==> a * |PassedScores(tests)| as real == Sum(PassedScores(tests)) as real
  {
    var xs := PassedScores(tests);
    if |xs| > 0 then Sum(xs) as real / |xs| as real else 0.0
  }

  /** A sum of values within bounds is within the scaled bounds. */
  lemma {:induction false} SumBounds(xs: seq<int>, lo: int, hi: int)
    requires forall i :: 0 <= i < |xs| ==> lo <= xs[i] <= hi
    ensures lo * |xs| <= Sum(xs) <= hi * |xs|
  {
    if |xs| > 0 {
      SumBounds(xs[1..], lo, hi);
    }
  }

  /** Every passed score lies in the scores' range. */
  lemma {:induction false} PassedScoresBounded(tests: seq<TestStatus>, lo: int, hi: int)
    requires forall i :: 0 <= i < |tests| && tests[i].passed ==> lo <= ScoreOrZero(tests[i]) <= hi
    ensures forall i :: 0 <= i < |PassedScores(tests)| ==> lo <= PassedScores(tests)[i] <= hi
  {
    if |tests| > 0 {
      PassedScoresBounded(tests[1..], lo, hi);
    }
  }

  /** The average lies between the lowest and highest passed score. */
  lemma AverageScoreBounded(tests: seq<TestStatus>, lo: int, hi: int)
    requires forall i :: 0 <= i < |tests| && tests[i].passed ==> lo <= ScoreOrZero(tests[i]) <= hi
    requires |PassedScores(tests)| > 0
    ensures lo as real <= AverageScore(tests) <= hi as real
  {
    var xs := PassedScores(tests);
    PassedScoresBounded(tests, lo, hi);
    SumBounds(xs, lo, hi);
    MeanBounded(Sum(xs), |xs|, lo, hi);
  }

  /** Scaled bounds on a total bound its mean. */
  lemma MeanBounded(total: int, n: nat, lo: int, hi: int)
    requires n > 0 && lo * n <= total <= hi * n
    ensures lo as real <= total as real / n as real <= hi as real
  {
  }
}
