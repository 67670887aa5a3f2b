/** Properties that span several endpoints: how a sequence of requests to
    the student, tutor and admin APIs shapes the cohorts, and how the
    student dashboard reads the answer of `passTest`. */
module Scenarios {
  import opened Outcome
  import opened Entities
  import opened Scoring
  import opened Cohort
  import opened StudentApi
  import TutorApi
  import AdminApi
  import Dashboard

  /** The level and name of the cohort a pass of this test is sent to. */
  function PassLevel(t: Test): (l: Level)
    ensures l == DetermineLevel(Percentage(|t.questions|, |t.questions|))
  {
    PassPercentage(t, map[]);
    if |t.questions| == 0 then Basic else Advanced
  }

  /** After a pass the lookup finds the group it assigned, and the test and
      its subject are as before. */
  lemma PassLeavesGroupFindable(s: Store, testId: Id, u: Id, answers: map<Id, string>, now: Timestamp)
    requires Wf(s) && u != 0 && u in s.users && testId in s.tests
    ensures var out := PassTest(s, testId, Some(u), answers, now);
      var t := s.tests[testId];
      var r := out.result.value;
      && Wf(out.store)
      && out.store.subjects == s.subjects
      && testId in out.store.tests && out.store.tests[testId].subject == t.subject
      && out.store.tests[testId].questions == t.questions
      && r.level == PassLevel(t)
      && FindGroup(out.store, r.groupName, t.subject, r.level) == Some(r.group)
  {
    var t := s.tests[testId];
    var score := Score(t, answers);
    var percentage := Percentage(score, |t.questions|);
    var s1 := RecordAttempt(s, u, testId, score);
    PassTestStore(s, testId, u, answers, now);
    PassPercentage(t, answers);
    RecordAttemptKeepsWf(s, u, testId, score);
    FindGroupAfterAssign(s1, u, testId, percentage, now);
    PassTestPreservesWf(s, testId, Some(u), answers, now);
  }

  /** A pass goes to the group the lookup finds for its key, adding the
      student to it. */
  lemma PassJoinsFoundGroup(s: Store, testId: Id, u: Id, answers: map<Id, string>, now: Timestamp, g: Id)
    requires Wf(s) && u != 0 && u in s.users && testId in s.tests
    requires var t := s.tests[testId];
      var level := PassLevel(t);
      FindGroup(s, GroupName(s.subjects[t.subject].name, level), t.subject, level) == Some(g)
    ensures var out := PassTest(s, testId, Some(u), answers, now);
      && out.result.Ok? && out.result.value.group == g
      && g in s.groups && g in out.store.groups
      && out.store.groups[g].students == s.groups[g].students + {u}
  {
    var t := s.tests[testId];
    var score := Score(t, answers);
    var s1 := RecordAttempt(s, u, testId, score);
    var level := PassLevel(t);
    PassTestStore(s, testId, u, answers, now);
    FindGroupFrame(s, s1, GroupName(s.subjects[t.subject].name, level), t.subject, level);
  }

  /** A pass never goes to an existing group whose name is not the one the
      current subject name gives. */
  lemma PassAvoidsOtherName(s: Store, testId: Id, u: Id, answers: map<Id, string>, now: Timestamp, g: Id)
    requires Wf(s) && u != 0 && u in s.users && testId in s.tests
    requires g in s.groups && s.groups[g].name != GroupName(s.subjects[s.tests[testId].subject].name, PassLevel(s.tests[testId]))
    ensures var out := PassTest(s, testId, Some(u), answers, now);
      out.result.Ok? && out.result.value.group != g
  {
  }

  /** Two students passing the same test end up in the same cohort, which
      then holds both of them. */
  lemma SecondStudentJoinsSameGroup(s: Store, testId: Id, a: Id, b: Id,
                                    answersA: map<Id, string>, answersB: map<Id, string>, now: Timestamp, later: Timestamp)
    requires Wf(s) && a != 0 && b != 0 && a in s.users && b in s.users && testId in s.tests
    ensures var first := PassTest(s, testId, Some(a), answersA, now);
      Wf(first.store) &&
      var second := PassTest(first.store, testId, Some(b), answersB, later);
      var g := first.result.value.group;
      && second.result.Ok?
      && second.result.value.group == g
      && second.store.groups[g].students == first.store.groups[g].students + {b}
      && a in second.store.groups[g].students && b in second.store.groups[g].students
  {
    var first := PassTest(s, testId, Some(a), answersA, now);
    PassLeavesGroupFindable(s, testId, a, answersA, now);
    PassJoinsFoundGroup(first.store, testId, b, answersB, later, first.result.value.group);
  }

  /** Renaming a subject splits its cohorts: a pass after the rename is
      assigned to a group other than the one a pass before it was, with the
      same level and the new name. */
  lemma RenameSplitsCohort(s: Store, testId: Id, a: Id, b: Id, newName: string,
                           answersA: map<Id, string>, answersB: map<Id, string>, now: Timestamp, later: Timestamp)
    requires Wf(s) && a != 0 && b != 0 && a in s.users && b in s.users && testId in s.tests
    requires newName != s.subjects[s.tests[testId].subject].name
    ensures var first := PassTest(s, testId, Some(a), answersA, now);
      var subject := s.tests[testId].subject;
      var renamed := AdminApi.UpdateSubject(first.store, subject, Some(newName), None);
      Wf(renamed.store) &&
      var second := PassTest(renamed.store, testId, Some(b), answersB, later);
      && second.result.Ok?
      && second.result.value.group != first.result.value.group
      && second.result.value.level == first.result.value.level
      && second.result.value.groupName == GroupName(newName, first.result.value.level)
  {
    var first := PassTest(s, testId, Some(a), answersA, now);
    PassLeavesGroupFindable(s, testId, a, answersA, now);
    var subject := s.tests[testId].subject;
    var renamed := AdminApi.UpdateSubject(first.store, subject, Some(newName), None);
    AdminApi.UpdateSubjectPreservesWf(first.store, subject, Some(newName), None);
    var s2 := renamed.store;
    var g := first.result.value.group;
    var level := first.result.value.level;
    GroupNameInjective(s.subjects[subject].name, newName, level);
    assert s2.tests == first.store.tests && s2.groups == first.store.groups;
    PassAvoidsOtherName(s2, testId, b, answersB, later, g);
  }

  /** The tutor who owns a test sees the cohort a pass of it was assigned to. */
  lemma PassThenTutorSees(s: Store, testId: Id, u: Id, answers: map<Id, string>, now: Timestamp)
    requires Wf(s) && u != 0 && u in s.users && testId in s.tests
    ensures var out := PassTest(s, testId, Some(u), answers, now);
      var tutor := s.tests[testId].tutor;
      Wf(out.store) && tutor in out.store.users &&
      var seen := TutorApi.TutorGroups(out.store, Some(tutor));
      seen.Ok? && out.result.value.group in seen.value
      && seen.value[out.result.value.group].name == out.result.value.groupName
  {
    PassTestPreservesWf(s, testId, Some(u), answers, now);
    var out := PassTest(s, testId, Some(u), answers, now);
    PassTestStore(s, testId, u, answers, now);
    var t := s.tests[testId];
    assert out.store.tests[testId] == RecordAttempt(s, u, testId, Score(t, answers)).tests[testId];
    assert TutorApi.Teaches(out.store, t.tutor, t.subject);
  }

  /** The dashboard's level as written: it classifies `data.score`, which
      is the question count and not a percentage. */
  function ClientLevelAsWritten(r: PassResult): (t: Dashboard.Tier)
    ensures t == Dashboard.Advanced <==> 80 <= r.score
    ensures t == Dashboard.Remedial <==> r.score < 40
  {
    Dashboard.DetermineLevelFromScore(r.score as real)
  }

  /** A test with between 1 and 39 questions puts the student in the
      server's Advanced cohort while the dashboard reports "remedial". */
  lemma ClientLevelAsWrittenMisreports(s: Store, testId: Id, u: Id, answers: map<Id, string>, now: Timestamp)
    requires Wf(s) && u != 0 && u in s.users && testId in s.tests
    requires 0 < |s.tests[testId].questions| < 40
    ensures var r := PassTest(s, testId, Some(u), answers, now).result.value;
      r.level == Advanced && ClientLevelAsWritten(r) == Dashboard.Remedial
  {
  }

  /** The dashboard's level as evidently intended: classify the returned
      percentage. */
  function ClientLevel(r: PassResult): (t: Dashboard.Tier)
    ensures t == Dashboard.Advanced <==> 80.0 <= r.percentage
    ensures t == Dashboard.Remedial <==> r.percentage < 40.0
  {
    Dashboard.DetermineLevelFromScore(r.percentage)
  }

  /** Read from the percentage, the dashboard agrees with the server at both
      ends of the only range `passTest` produces: Advanced exactly when the
      server says Advanced, and remedial for Basic. */
  lemma ClientLevelAgrees(s: Store, testId: Id, u: Id, answers: map<Id, string>, now: Timestamp)
    requires Wf(s) && u != 0 && u in s.users && testId in s.tests
    ensures var r := PassTest(s, testId, Some(u), answers, now).result.value;
      && (ClientLevel(r) == Dashboard.Advanced <==> r.level == Advanced)
      && (r.level == Basic ==> ClientLevel(r) == Dashboard.Remedial)
      && r.level != Intermediate
  {
  }

  /** A created test reads back through `getTest` with the submitted
      contents, in order, under the chosen subject. */
  lemma CreateThenGetTest(s: Store, principal: Option<Id>, subjectId: Option<int>, contents: seq<string>)
    requires Wf(s)
    requires principal.Some? ==> principal.value in s.users
    requires subjectId.Some? && TutorApi.KnownSubject(s, subjectId.value) && TutorApi.Tutor(s, principal).Ok?
    ensures var out := TutorApi.CreateTest(s, principal, subjectId, contents);
      Wf(out.store) &&
      var d := GetTest(out.store, out.result.value);
      && d.Ok? && d.value.subject == s.subjects[subjectId.value as nat].name
      && |d.value.questions| == |contents|
      && forall i :: 0 <= i < |contents| ==> d.value.questions[i].1 == contents[i]
  {
    var out := TutorApi.CreateTest(s, principal, subjectId, contents);
    TutorApi.CreateTestPreservesWf(s, principal, subjectId, contents);
    TutorApi.CreatedContents(s, principal, subjectId, contents);
    ReadBack(out.store, out.result.value);
  }

  /** An updated test reads back through `getTest` with the new contents, in
      order, under the new subject. */
  lemma UpdateThenGetTest(s: Store, id: Id, subjectId: Option<int>, contents: seq<string>)
    requires Wf(s)
    requires id in s.tests && subjectId.Some? && TutorApi.KnownSubject(s, subjectId.value)
    ensures var out := TutorApi.UpdateTest(s, id, subjectId, contents);
      Wf(out.store) &&
      var d := GetTest(out.store, id);
      && d.Ok? && d.value.subject == s.subjects[subjectId.value as nat].name
      && |d.value.questions| == |contents|
      && forall i :: 0 <= i < |contents| ==> d.value.questions[i].1 == contents[i]
  {
    var out := TutorApi.UpdateTest(s, id, subjectId, contents);
    TutorApi.UpdateTestPreservesWf(s, id, subjectId, contents);
    TutorApi.UpdateThenContents(s, id, subjectId, contents);
    ReadBack(out.store, id);
  }

  /** `getTest` answers a test's contents in list order. */
  lemma ReadBack(s: Store, t: Id)
    requires Wf(s) && t in s.tests
    ensures forall i :: 0 <= i < |s.tests[t].questions| ==> s.tests[t].questions[i] in s.questions
    ensures var d := GetTest(s, t);
      d.Ok? && |d.value.questions| == |TutorApi.Contents(s, t)|
      && forall i :: 0 <= i < |d.value.questions| ==> d.value.questions[i].1 == TutorApi.Contents(s, t)[i]
  {
  }
}
