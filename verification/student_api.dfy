/** The student endpoints (StudentController.php): fetch a test, pass it
    (record the attempt, then resolve the cohort), and the two dashboard
    projections, completed tests and groups.
 */
module StudentApi {
  import opened Outcome
  import opened Collections
  import opened Entities
  import opened Scoring
  import opened Membership
  import opened Cohort

  /** `getTest`'s payload; `questions` pairs each question id with its content. */
  datatype TestDetail = TestDetail(id: Id, subject: string, questions: seq<(Id, string)>)

  /** `passTest`'s payload. */
  datatype PassResult = PassResult(score: nat, percentage: real, group: Id, groupName: string, level: Level, subject: string)

  /** One entry of `completedTests`. */
  datatype CompletedRow = CompletedRow(testId: Id, subject: string, score: Option<int>)

  /** One entry of `studentGroups`. */
  datatype GroupRow = GroupRow(name: string, level: Level, subject: string, members: nat)

  /** A request's student id names an existing user (`find($studentId)`). */
  predicate KnownUser(s: Store, v: int) {
    0 <= v && v as nat in s.users
  }

  function GetTest(s: Store, testId: Id): (r: Result<TestDetail>)
    requires Wf(s)
    ensures testId !in s.tests ==> r == Err(NotFound)
    ensures testId in s.tests ==> r.Ok?
    ensures r.Ok? ==>
      && testId in s.tests
      && r.value.id == testId
      && r.value.subject == s.subjects[s.tests[testId].subject].name
      && |r.value.questions| == |s.tests[testId].questions|
      && forall i :: 0 <= i < |r.value.questions| ==>
           var q := s.tests[testId].questions[i];
           r.value.questions[i] == (q, s.questions[q].content)
  {
    if testId !in s.tests then Err(NotFound)
    else
      var t := s.tests[testId];
      Ok(TestDetail(testId, s.subjects[t.subject].name,
        seq(|t.questions|, i requires 0 <= i < |t.questions| => (t.questions[i], s.questions[t.questions[i]].content))))
  }

  /** The store after `passTest`'s first flush: one new attempt row, appended
      to the test's attempt list. */
  function RecordAttempt(s: Store, student: Id, testId: Id, score: nat): (s': Store)
    requires testId in s.tests
    ensures s'.users == s.users && s'.subjects == s.subjects && s'.questions == s.questions
    ensures s'.groups == s.groups && s'.courses == s.courses && s'.nextId == s.nextId + 1
    ensures s'.tests.Keys == s.tests.Keys
    ensures s'.tests[testId] == s.tests[testId].(studentTests := s.tests[testId].studentTests + [s.nextId])
    ensures forall t :: t in s.tests && t != testId ==> s'.tests[t] == s.tests[t]
    ensures s'.studentTests == s.studentTests[s.nextId := StudentTest(student, Some(testId), Some(score))]
  {
    var a := s.nextId;
    var t := s.tests[testId];
    s.(studentTests := s.studentTests[a := StudentTest(student, Some(testId), Some(score))],
       tests := s.tests[testId := t.(studentTests := t.studentTests + [a])],
       nextId := s.nextId + 1)
  }

  lemma RecordAttemptKeepsResolved(s: Store, student: Id, testId: Id, score: nat)
    requires Bounded(s) && Resolved(s) && student in s.users && testId in s.tests
    ensures var s1 := RecordAttempt(s, student, testId, score);
      Bounded(s1) && Resolved(s1)
  {
    var s1 := RecordAttempt(s, student, testId, score);
    assert TestsResolved(s1) by {
      forall t | t in s1.tests ensures s1.tests[t].subject in s1.subjects && s1.tests[t].tutor in s1.users {
        assert s1.tests[t].subject == s.tests[t].subject && s1.tests[t].tutor == s.tests[t].tutor;
      }
    }
  }

  lemma RecordAttemptKeepsQuestions(s: Store, student: Id, testId: Id, score: nat)
    requires QuestionsOwned(s) && testId in s.tests
    ensures QuestionsOwned(RecordAttempt(s, student, testId, score))
  {
  }

  /** The new attempt is listed by its test exactly once. */
  lemma RecordAttemptKeepsOwnership(s: Store, student: Id, testId: Id, score: nat)
    requires Bounded(s) && StudentTestsOwned(s) && testId in s.tests
    ensures StudentTestsOwned(RecordAttempt(s, student, testId, score))
  {
    var s1 := RecordAttempt(s, student, testId, score);
    var a := s.nextId;
    var old_ := s.tests[testId].studentTests;
    forall t, i | t in s1.tests && 0 <= i < |s1.tests[t].studentTests|
      ensures s1.tests[t].studentTests[i] in s1.studentTests && s1.studentTests[s1.tests[t].studentTests[i]].test == Some(t)
    {
    }
    forall a' | a' in s1.studentTests && s1.studentTests[a'].test.Some? && s1.studentTests[a'].test.value in s1.tests
      ensures a' in s1.tests[s1.studentTests[a'].test.value].studentTests
    {
      if a' != a {
        var t := s.studentTests[a'].test.value;
        var k :| 0 <= k < |s.tests[t].studentTests| && s.tests[t].studentTests[k] == a';
      }
    }
    NoDupAppend(old_, a);
  }

  /** Recording an attempt of an existing student keeps the invariant. */
  lemma RecordAttemptKeepsWf(s: Store, student: Id, testId: Id, score: nat)
    requires Wf(s) && student in s.users && testId in s.tests
    ensures Wf(RecordAttempt(s, student, testId, score))
  {
    var s1 := RecordAttempt(s, student, testId, score);
    RecordAttemptKeepsResolved(s, student, testId, score);
    RecordAttemptKeepsQuestions(s, student, testId, score);
    RecordAttemptKeepsOwnership(s, student, testId, score);
    assert Mirrored(s1);
    assert UniqueEmails(s1);
  }

  /** The part of the invariant `passTest` relies on. */
  predicate Passable(s: Store) {
    Bounded(s) && TestsResolved(s) && GroupsResolved(s) && Mirrored(s)
  }

  /** `passTest`: validate the student id, look up student and test, score
      the test, record the attempt, then assign the cohort. */
  function PassTest(s: Store, testId: Id, studentId: Option<int>, answers: map<Id, string>, now: Timestamp): (out: Step<PassResult>)
    requires Passable(s)
    ensures (studentId.None? || studentId.value == 0) ==> out == Step(Err(Invalid), s)
    ensures studentId.Some? && studentId.value != 0 && (!KnownUser(s, studentId.value) || testId !in s.tests) ==>
      out == Step(Err(NotFound), s)
    ensures out.result.Ok? <==> studentId.Some? && studentId.value != 0 && KnownUser(s, studentId.value) && testId in s.tests
    ensures out.result.Ok? ==> Passed(s, testId, studentId.value as nat, out)
  {
    if studentId.None? || studentId.value == 0 then Step(Err(Invalid), s)
    else if !KnownUser(s, studentId.value) || testId !in s.tests then Step(Err(NotFound), s)
    else PassKnown(s, testId, studentId.value as nat, answers, now)
  }

  /** What a successful `passTest` by student `u` reports and leaves behind:
      the score and level of a full pass, one new attempt row, and the
      student a member of the group named in the payload. */
  predicate Passed(s: Store, testId: Id, u: Id, out: Step<PassResult>)
    requires testId in s.tests && s.tests[testId].subject in s.subjects
  {
    var t := s.tests[testId];
    && out.result.Ok?
    && var r := out.result.value;
    var s' := out.store;
    && r.score == |t.questions|
    && r.percentage == (if |t.questions| == 0 then 0.0 else 100.0)
    && r.level == (if |t.questions| == 0 then Basic else Advanced)
    && r.subject == s.subjects[t.subject].name
    && r.groupName == GroupName(r.subject, r.level)
    && s.nextId !in s.studentTests
    && s'.studentTests == s.studentTests[s.nextId := StudentTest(u, Some(testId), Some(r.score))]
    && r.group in s'.groups
    && Matches(s'.groups[r.group], r.groupName, t.subject, r.level)
    && s'.users.Keys == s.users.Keys
    && u in s'.users && u in s'.groups[r.group].students && r.group in s'.users[u].groups
  }

  /** `passTest` once the student and the test are found. */
  function PassKnown(s: Store, testId: Id, u: Id, answers: map<Id, string>, now: Timestamp): (out: Step<PassResult>)
    requires Passable(s) && u in s.users && testId in s.tests
    ensures Passed(s, testId, u, out)
  {
    var t := s.tests[testId];
    var score := Score(t, answers);
    var percentage := Percentage(score, |t.questions|);
    PassPercentage(t, answers);
    AssignAfterAttempt(s, u, testId, score, percentage, now);
    var asg := CreateOrAssignGroup(RecordAttempt(s, u, testId, score), u, testId, percentage, now);
    var g := asg.store.groups[asg.group];
    Step(Ok(PassResult(score, percentage, asg.group, g.name, g.level, s.subjects[t.subject].name)), asg.store)
  }

  /** The cohort step after the attempt row: the row survives it, and the
      student ends up in a group with the key of the percentage. */
  lemma AssignAfterAttempt(s: Store, u: Id, testId: Id, score: nat, percentage: real, now: Timestamp)
    requires Passable(s) && u in s.users && testId in s.tests
    ensures var s1 := RecordAttempt(s, u, testId, score);
      Ready(s1, u, testId) &&
      var asg := CreateOrAssignGroup(s1, u, testId, percentage, now);
      var subject := s.tests[testId].subject;
      var level := DetermineLevel(percentage);
      && s.nextId !in s.studentTests
      && asg.store.studentTests == s.studentTests[s.nextId := StudentTest(u, Some(testId), Some(score))]
      && asg.group in asg.store.groups
      && Matches(asg.store.groups[asg.group], GroupName(s.subjects[subject].name, level), subject, level)
      && asg.store.users.Keys == s.users.Keys
      && u in asg.store.groups[asg.group].students && asg.group in asg.store.users[u].groups
  {
  }

  /** A successful pass leaves the store of the cohort step. */
  lemma PassTestStore(s: Store, testId: Id, u: Id, answers: map<Id, string>, now: Timestamp)
    requires Passable(s) && u != 0 && u in s.users && testId in s.tests
    ensures var t := s.tests[testId];
      var score := Score(t, answers);
      var s1 := RecordAttempt(s, u, testId, score);
      Ready(s1, u, testId) &&
      var asg := CreateOrAssignGroup(s1, u, testId, Percentage(score, |t.questions|), now);
      var out := PassTest(s, testId, Some(u), answers, now);
      && out.store == asg.store
      && out.result.Ok? && out.result.value.group == asg.group
  {
    PassKnownStore(s, testId, u, answers, now);
  }

  lemma PassKnownStore(s: Store, testId: Id, u: Id, answers: map<Id, string>, now: Timestamp)
    requires Passable(s) && u in s.users && testId in s.tests
    ensures var t := s.tests[testId];
      var score := Score(t, answers);
      var s1 := RecordAttempt(s, u, testId, score);
      Ready(s1, u, testId) &&
      var asg := CreateOrAssignGroup(s1, u, testId, Percentage(score, |t.questions|), now);
      var out := PassKnown(s, testId, u, answers, now);
      && out.store == asg.store
      && out.result.Ok? && out.result.value.group == asg.group
  {
  }

  /** Passing a test keeps the store invariant. */
  lemma PassTestPreservesWf(s: Store, testId: Id, studentId: Option<int>, answers: map<Id, string>, now: Timestamp)
    requires Wf(s)
    ensures Wf(PassTest(s, testId, studentId, answers, now).store)
  {
    if studentId.Some? && studentId.value != 0 && KnownUser(s, studentId.value) && testId in s.tests {
      var u := studentId.value as nat;
      var t := s.tests[testId];
      var score := Score(t, answers);
      var s1 := RecordAttempt(s, u, testId, score);
      var percentage := Percentage(score, |t.questions|);
      RecordAttemptKeepsWf(s, u, testId, score);
      CreateOrAssignPreservesWf(s1, u, testId, percentage, now);
      PassTestStore(s, testId, u, answers, now);
    }
  }

  /** The submitted answers play no part in the outcome. */
  lemma PassTestIgnoresAnswers(s: Store, testId: Id, studentId: Option<int>, a1: map<Id, string>, a2: map<Id, string>, now: Timestamp)
    requires Wf(s)
    ensures PassTest(s, testId, studentId, a1, now) == PassTest(s, testId, studentId, a2, now)
  {
  }

  /** `completedTests`: one entry per attempt row of the student. */
  function CompletedTests(s: Store, studentId: Id): (r: Result<map<Id, CompletedRow>>)
    requires Wf(s)
    ensures studentId !in s.users ==> r == Err(NotFound)
    ensures studentId in s.users ==> r.Ok?
    ensures r.Ok? ==>
      && studentId in s.users
      && (forall a :: a in r.value <==> a in s.studentTests && s.studentTests[a].student == studentId)
      && (forall a :: a in r.value ==>
            var t := s.studentTests[a].test.value;
            r.value[a] == CompletedRow(t, s.subjects[s.tests[t].subject].name, s.studentTests[a].score))
  {
    if studentId !in s.users then Err(NotFound)
    else
      Ok(map a | a in s.studentTests && s.studentTests[a].student == studentId ::
        var t := s.studentTests[a].test.value;
        CompletedRow(t, s.subjects[s.tests[t].subject].name, s.studentTests[a].score))
  }

  /** `studentGroups`: one entry per group listing the student, with the
      group's member count. */
  function StudentGroups(s: Store, studentId: Id): (r: Result<map<Id, GroupRow>>)
    requires Wf(s)
    ensures studentId !in s.users ==> r == Err(NotFound)
    ensures studentId in s.users ==> r.Ok?
    ensures r.Ok? ==>
      && studentId in s.users
      && (forall g :: g in r.value <==> g in s.groups && studentId in s.groups[g].students)
      && (forall g :: g in r.value ==>
            && s.groups[g].subject in s.subjects
            && r.value[g] == GroupRow(s.groups[g].name, s.groups[g].level, s.subjects[s.groups[g].subject].name, |s.groups[g].students|))
  {
    if studentId !in s.users then Err(NotFound)
    else
      var u := s.users[studentId];
      Ok(map g | g in u.groups ::
        GroupRow(s.groups[g].name, s.groups[g].level, s.subjects[s.groups[g].subject].name, |s.groups[g].students|))
  }

  /** After a successful pass the attempt shows up among the completed tests
      with the test id and the question count as score. */
  lemma PassThenCompleted(s: Store, testId: Id, student: Id, answers: map<Id, string>, now: Timestamp)
    requires Wf(s) && student != 0 && student in s.users && testId in s.tests
    ensures var out := PassTest(s, testId, Some(student), answers, now);
      Wf(out.store) &&
      var done := CompletedTests(out.store, student);
      done.Ok? && s.nextId in done.value
      && done.value[s.nextId].testId == testId
      && done.value[s.nextId].score == Some(|s.tests[testId].questions|)
  {
    var out := PassTest(s, testId, Some(student), answers, now);
    PassTestPreservesWf(s, testId, Some(student), answers, now);
    assert Passed(s, testId, student, out);
    var row := out.store.studentTests[s.nextId];
    assert row == StudentTest(student, Some(testId), Some(|s.tests[testId].questions|));
    var done := CompletedTests(out.store, student);
    assert s.nextId in done.value;
  }

  /** After a successful pass the assigned group is among the student's
      groups. */
  lemma PassThenGroups(s: Store, testId: Id, student: Id, answers: map<Id, string>, now: Timestamp)
    requires Wf(s) && student != 0 && student in s.users && testId in s.tests
    ensures var out := PassTest(s, testId, Some(student), answers, now);
      Wf(out.store) &&
      var groups := StudentGroups(out.store, student);
      groups.Ok? && out.result.value.group in groups.value
      && groups.value[out.result.value.group].name == out.result.value.groupName
  {
    PassTestPreservesWf(s, testId, Some(student), answers, now);
  }
}
