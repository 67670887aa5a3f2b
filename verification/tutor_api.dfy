/** The tutor endpoints (TutorTestController.php): create, list, replace and
    delete tests, and the groups that share a subject with the tutor's tests.

    `createTest` and `updateTest` both end by attaching freshly created
    questions to a test whose list is empty at that point (`WithQuestions`):
    a new test in the first case, a test whose old questions were removed in
    the second.
 */
module TutorApi {
  import opened Outcome
  import opened Collections
  import opened Entities

  /** One entry of `listTests`. */
  datatype TestRow = TestRow(subject: string, subjectId: Id, questions: seq<string>)

  /** One entry of `tutorGroups`. */
  datatype TutorGroupRow = TutorGroupRow(name: string, level: Level, subject: string)

  /** `getTutor`: the authenticated user, else user 1. The declared return
      type `User` is not nullable, so with neither the request fails. */
  function Tutor(s: Store, principal: Option<Id>): (r: Result<Id>)
    requires principal.Some? ==> principal.value in s.users
    ensures r.Ok? ==> r.value in s.users
    ensures principal.Some? ==> r == Ok(principal.value)
    ensures principal.None? ==> (r.Ok? <==> 1 in s.users) && (r.Ok? ==> r.value == 1)
    ensures r.Err? ==> r.error == ServerError
  {
    if principal.Some? then Ok(principal.value)
    else if 1 in s.users then Ok(1)
    else Err(ServerError)
  }

  /** A request's `subject_id` names an existing subject. */
  predicate KnownSubject(s: Store, v: int) {
    0 <= v && v as nat in s.subjects
  }

  /** The contents of a test's questions, in list order. */
  function Contents(s: Store, t: Id): (r: seq<string>)
    requires t in s.tests && forall i :: 0 <= i < |s.tests[t].questions| ==> s.tests[t].questions[i] in s.questions
    ensures |r| == |s.tests[t].questions|
    ensures forall i :: 0 <= i < |r| ==> r[i] == s.questions[s.tests[t].questions[i]].content
  {
    seq(|s.tests[t].questions|, i requires 0 <= i < |s.tests[t].questions| => s.questions[s.tests[t].questions[i]].content)
  }

  /** One question per content, with ids counted up from `nextId`, each
      pointing at `t`, and listed by `t` in that order. */
  function WithQuestions(s: Store, t: Id, contents: seq<string>): (s': Store)
    requires t in s.tests
    ensures s'.users == s.users && s'.subjects == s.subjects && s'.studentTests == s.studentTests
    ensures s'.groups == s.groups && s'.courses == s.courses
    ensures s'.nextId == s.nextId + |contents|
    ensures s'.tests == s.tests[t := s.tests[t].(questions := Range(s.nextId, |contents|))]
    ensures forall q :: q in s'.questions <==> q in s.questions || s.nextId <= q < s.nextId + |contents|
    ensures forall q :: q in s.questions && !(s.nextId <= q < s.nextId + |contents|) ==> s'.questions[q] == s.questions[q]
    ensures forall i :: 0 <= i < |contents| ==> s'.questions[s.nextId + i] == Question(contents[i], Some(t))
  {
    var first := s.nextId;
    var added := NewQuestions(first, t, contents);
    s.(tests := s.tests[t := s.tests[t].(questions := Range(first, |contents|))],
       questions := s.questions + added,
       nextId := first + |contents|)
  }

  /** The question rows `createTest` and `updateTest` persist: the i-th
      content under id `first + i`, pointing at `t`. */
  function NewQuestions(first: Id, t: Id, contents: seq<string>): (m: map<Id, Question>)
    ensures forall q :: q in m <==> first <= q < first + |contents|
    ensures forall i :: 0 <= i < |contents| ==> m[first + i] == Question(contents[i], Some(t))
  {
    map q | q in Block(first, |contents|) :: Question(contents[q - first], Some(t))
  }

  /** The question rows without those listed by test `t`. */
  function DropQuestions(s: Store, t: Id): (r: map<Id, Question>)
    requires t in s.tests
    ensures r.Keys == s.questions.Keys - set q | q in s.tests[t].questions
    ensures forall q :: q in r ==> r[q] == s.questions[q]
  {
    map q | q in s.questions && q !in s.tests[t].questions :: s.questions[q]
  }

  /** The attempt rows without those listed by test `t`. */
  function DropAttempts(s: Store, t: Id): (r: map<Id, StudentTest>)
    requires t in s.tests
    ensures r.Keys == s.studentTests.Keys - set a | a in s.tests[t].studentTests
    ensures forall a :: a in r ==> r[a] == s.studentTests[a]
  {
    map a | a in s.studentTests && a !in s.tests[t].studentTests :: s.studentTests[a]
  }

  /** What registering the test and attaching its questions does to the
      test table. */
  lemma CreateTestTests(s: Store, subject: Id, tutor: Id, contents: seq<string>)
    requires Bounded(s)
    ensures var t := s.nextId;
      var s' := WithQuestions(AddTestRow(s, subject, tutor), t, contents);
      && t !in s.tests
      && s'.tests == s.tests[t := Test(subject, tutor, s'.tests[t].questions, [])]
      && |s'.tests[t].questions| == |contents|
  {
  }

  /** The question rows `WithQuestions` adds are fresh and carry the
      contents in order; the rows already there stay as they were, and no
      other row appears. */
  lemma WithQuestionsRows(s: Store, t: Id, contents: seq<string>)
    requires t in s.tests && KeysBelow(s.questions, s.nextId)
    ensures var s' := WithQuestions(s, t, contents);
      && s'.nextId == s.nextId + |contents|
      && |s'.tests[t].questions| == |contents|
      && (forall q :: q in s'.questions <==> q in s.questions || q in s'.tests[t].questions)
      && (forall i :: 0 <= i < |contents| ==>
            var q := s'.tests[t].questions[i];
            s.nextId <= q && q in s'.questions && s'.questions[q] == Question(contents[i], Some(t)))
      && (forall q :: q in s.questions ==> q in s'.questions && s'.questions[q] == s.questions[q])
  {
    var s' := WithQuestions(s, t, contents);
    forall i | 0 <= i < |contents|
      ensures var q := s'.tests[t].questions[i];
        s.nextId <= q && q in s'.questions && s'.questions[q] == Question(contents[i], Some(t))
    {
      assert s'.tests[t].questions[i] == s.nextId + i;
    }
    forall q | q in s.questions ensures q in s'.questions && s'.questions[q] == s.questions[q] {
      assert q < s.nextId;
    }
    forall q ensures q in s'.questions <==> q in s.questions || q in s'.tests[t].questions {
      if s.nextId <= q < s.nextId + |contents| {
        assert s'.tests[t].questions[q - s.nextId] == q;
      }
    }
  }

  /** What registering the test and attaching its questions does to the
      question table: one new row per content, the old rows kept, nothing
      else added. */
  lemma CreateTestQuestions(s: Store, subject: Id, tutor: Id, contents: seq<string>)
    requires Bounded(s)
    ensures var t := s.nextId;
      var s' := WithQuestions(AddTestRow(s, subject, tutor), t, contents);
      && s'.nextId == s.nextId + 1 + |contents|
      && |s'.tests[t].questions| == |contents|
      && (forall q :: q in s'.questions <==> q in s.questions || q in s'.tests[t].questions)
      && (forall i :: 0 <= i < |contents| ==>
            var q := s'.tests[t].questions[i];
            q !in s.questions && q in s'.questions && s'.questions[q] == Question(contents[i], Some(t)))
      && (forall q :: q in s.questions ==> q in s'.questions && s'.questions[q] == s.questions[q])
  {
    var s1 := AddTestRow(s, subject, tutor);
    assert KeysBelow(s1.questions, s1.nextId);
    WithQuestionsRows(s1, s.nextId, contents);
  }

  /** Both halves together, as `createTest` uses them. */
  lemma CreateTestFacts(s: Store, subject: Id, tutor: Id, contents: seq<string>)
    requires Bounded(s)
    ensures var t := s.nextId;
      var s' := WithQuestions(AddTestRow(s, subject, tutor), t, contents);
      && t !in s.tests
      && s'.tests.Keys == s.tests.Keys + {t}
      && (forall u :: u in s.tests ==> s'.tests[u] == s.tests[u])
      && s'.tests[t] == Test(subject, tutor, s'.tests[t].questions, [])
      && s'.nextId == s.nextId + 1 + |contents|
      && |s'.tests[t].questions| == |contents|
      && (forall q :: q in s'.questions <==> q in s.questions || q in s'.tests[t].questions)
      && (forall i :: 0 <= i < |contents| ==>
            var q := s'.tests[t].questions[i];
            q !in s.questions && q in s'.questions && s'.questions[q] == Question(contents[i], Some(t)))
      && (forall q :: q in s.questions ==> q in s'.questions && s'.questions[q] == s.questions[q])
  {
    CreateTestTests(s, subject, tutor, contents);
    CreateTestQuestions(s, subject, tutor, contents);
  }

  /** `createTest`: look up the subject, resolve the tutor, then create the
      test with one question per submitted content. A missing `subject_id`
      reaches `find(null)`, which Doctrine rejects with an exception. The
      result is the new test's id. */
  function CreateTest(s: Store, principal: Option<Id>, subjectId: Option<int>, contents: seq<string>): (out: Step<Id>)
    requires Bounded(s)
    requires principal.Some? ==> principal.value in s.users
    ensures subjectId.None? ==> out == Step(Err(ServerError), s)
    ensures subjectId.Some? && !KnownSubject(s, subjectId.value) ==> out == Step(Err(NotFound), s)
    ensures subjectId.Some? && KnownSubject(s, subjectId.value) && Tutor(s, principal).Err? ==> out == Step(Err(ServerError), s)
    ensures out.result.Ok? <==> subjectId.Some? && KnownSubject(s, subjectId.value) && Tutor(s, principal).Ok?
    ensures out.result.Ok? ==>
      var t := out.result.value;
      var s' := out.store;
      && t == s.nextId && t !in s.tests
      && s'.tests.Keys == s.tests.Keys + {t}
      && (forall u :: u in s.tests ==> s'.tests[u] == s.tests[u])
      && s'.tests[t].subject == subjectId.value as nat
      && s'.tests[t].tutor == Tutor(s, principal).value
      && s'.tests[t].studentTests == []
      && s'.nextId == s.nextId + 1 + |contents|
      && |s'.tests[t].questions| == |contents|
      && (forall q :: q in s'.questions <==> q in s.questions || q in s'.tests[t].questions)
      && (forall i :: 0 <= i < |contents| ==>
            var q := s'.tests[t].questions[i];
            q !in s.questions && q in s'.questions && s'.questions[q] == Question(contents[i], Some(t)))
      && (forall q :: q in s.questions ==> q in s'.questions && s'.questions[q] == s.questions[q])
      && s'.users == s.users && s'.subjects == s.subjects && s'.studentTests == s.studentTests
      && s'.groups == s.groups && s'.courses == s.courses
  {
    if subjectId.None? then Step(Err(ServerError), s)
    else if !KnownSubject(s, subjectId.value) then Step(Err(NotFound), s)
    else match Tutor(s, principal)
      case Err(e) => Step(Err(e), s)
      case Ok(tutor) =>
        CreateTestFacts(s, subjectId.value as nat, tutor, contents);
        Step(Ok(s.nextId), WithQuestions(AddTestRow(s, subjectId.value as nat, tutor), s.nextId, contents))
  }

  /** The store with one more test, without questions or attempts. */
  function AddTestRow(s: Store, subject: Id, tutor: Id): (s': Store)
    ensures s'.tests == s.tests[s.nextId := Test(subject, tutor, [], [])]
    ensures s'.nextId == s.nextId + 1
    ensures s'.users == s.users && s'.subjects == s.subjects && s'.questions == s.questions
    ensures s'.studentTests == s.studentTests && s'.groups == s.groups && s'.courses == s.courses
  {
    s.(tests := s.tests[s.nextId := Test(subject, tutor, [], [])], nextId := s.nextId + 1)
  }

  lemma AddTestRowKeepsResolved(s: Store, subject: Id, tutor: Id)
    requires Bounded(s) && Resolved(s) && subject in s.subjects && tutor in s.users
    ensures var s1 := AddTestRow(s, subject, tutor);
      Bounded(s1) && Resolved(s1)
  {
  }

  lemma AddTestRowKeepsOwnership(s: Store, subject: Id, tutor: Id)
    requires Bounded(s) && QuestionsResolved(s) && StudentTestsResolved(s)
    requires QuestionsOwned(s) && StudentTestsOwned(s)
    ensures var s1 := AddTestRow(s, subject, tutor);
      QuestionsOwned(s1) && StudentTestsOwned(s1)
  {
  }

  /** Registering a test without questions keeps the invariant. */
  lemma NewTestKeepsWf(s: Store, subject: Id, tutor: Id)
    requires Wf(s) && subject in s.subjects && tutor in s.users
    ensures Wf(AddTestRow(s, subject, tutor))
  {
    var s1 := AddTestRow(s, subject, tutor);
    AddTestRowKeepsResolved(s, subject, tutor);
    AddTestRowKeepsOwnership(s, subject, tutor);
    assert Mirrored(s1);
    assert UniqueEmails(s1);
  }

  lemma WithQuestionsKeepsResolved(s: Store, t: Id, contents: seq<string>)
    requires Bounded(s) && Resolved(s) && t in s.tests
    ensures var s' := WithQuestions(s, t, contents);
      Bounded(s') && Resolved(s')
  {
    var s' := WithQuestions(s, t, contents);
    assert TestsResolved(s') by {
      forall u | u in s'.tests ensures s'.tests[u].subject in s'.subjects && s'.tests[u].tutor in s'.users {
        assert s'.tests[u].subject == s.tests[u].subject && s'.tests[u].tutor == s.tests[u].tutor;
      }
    }
    assert QuestionsResolved(s') by {
      forall q | q in s'.questions && s'.questions[q].test.Some? ensures s'.questions[q].test.value in s'.tests {
        if s.nextId <= q < s.nextId + |contents| {
          assert s'.questions[s.nextId + (q - s.nextId)].test == Some(t);
        }
      }
    }
  }

  lemma WithQuestionsKeepsListed(s: Store, t: Id, contents: seq<string>)
    requires Bounded(s) && QuestionsOwned(s) && t in s.tests
    ensures var s' := WithQuestions(s, t, contents);
      forall u, i :: u in s'.tests && 0 <= i < |s'.tests[u].questions| ==>
        s'.tests[u].questions[i] in s'.questions && s'.questions[s'.tests[u].questions[i]].test == Some(u)
  {
  }

  lemma WithQuestionsKeepsBackReferences(s: Store, t: Id, contents: seq<string>)
    requires Bounded(s) && QuestionsResolved(s) && QuestionsOwned(s)
    requires t in s.tests && s.tests[t].questions == []
    ensures var s' := WithQuestions(s, t, contents);
      forall q :: q in s'.questions && s'.questions[q].test.Some? && s'.questions[q].test.value in s'.tests ==>
        q in s'.tests[s'.questions[q].test.value].questions
  {
    var s' := WithQuestions(s, t, contents);
    var first := s.nextId;
    forall q | q in s'.questions && s'.questions[q].test.Some? && s'.questions[q].test.value in s'.tests
      ensures q in s'.tests[s'.questions[q].test.value].questions
    {
      if first <= q < first + |contents| {
        assert s'.questions[first + (q - first)].test == Some(t);
        assert s'.tests[t].questions[q - first] == q;
      } else {
        var u := s.questions[q].test.value;
        assert u in s.tests;
        assert q in s.tests[u].questions;
        assert u != t;
      }
    }
  }

  lemma WithQuestionsKeepsOwnership(s: Store, t: Id, contents: seq<string>)
    requires Bounded(s) && QuestionsResolved(s) && QuestionsOwned(s) && StudentTestsOwned(s)
    requires t in s.tests && s.tests[t].questions == []
    ensures var s' := WithQuestions(s, t, contents);
      QuestionsOwned(s') && StudentTestsOwned(s')
  {
    var s' := WithQuestions(s, t, contents);
    WithQuestionsKeepsListed(s, t, contents);
    WithQuestionsKeepsBackReferences(s, t, contents);
    assert forall u :: u in s'.tests ==> NoDup(s'.tests[u].questions);
    assert StudentTestsOwned(s') by {
      forall u | u in s'.tests ensures s'.tests[u].studentTests == s.tests[u].studentTests {
      }
    }
  }

  /** Attaching fresh questions to a test with an empty list keeps the
      invariant. */
  lemma WithQuestionsKeepsWf(s: Store, t: Id, contents: seq<string>)
    requires Wf(s) && t in s.tests && s.tests[t].questions == []
    ensures Wf(WithQuestions(s, t, contents))
  {
    var s' := WithQuestions(s, t, contents);
    WithQuestionsKeepsResolved(s, t, contents);
    WithQuestionsKeepsOwnership(s, t, contents);
    assert Mirrored(s');
    assert UniqueEmails(s');
  }

  /** Creating a test keeps the invariant. */
  lemma CreateTestPreservesWf(s: Store, principal: Option<Id>, subjectId: Option<int>, contents: seq<string>)
    requires Wf(s)
    requires principal.Some? ==> principal.value in s.users
    ensures Wf(CreateTest(s, principal, subjectId, contents).store)
  {
    if subjectId.Some? && KnownSubject(s, subjectId.value) && Tutor(s, principal).Ok? {
      var subject, tutor := subjectId.value as nat, Tutor(s, principal).value;
      var s1 := AddTestRow(s, subject, tutor);
      NewTestKeepsWf(s, subject, tutor);
      WithQuestionsKeepsWf(s1, s.nextId, contents);
      assert CreateTest(s, principal, subjectId, contents).store == WithQuestions(s1, s.nextId, contents);
    }
  }

  /** `listTests`: the acting tutor's tests with their question contents. */
  function ListTests(s: Store, principal: Option<Id>): (r: Result<map<Id, TestRow>>)
    requires Wf(s)
    requires principal.Some? ==> principal.value in s.users
    ensures Tutor(s, principal).Err? ==> r == Err(ServerError)
    ensures Tutor(s, principal).Ok? ==> r.Ok?
    ensures r.Ok? ==>
      var tutor := Tutor(s, principal).value;
      && (forall t :: t in r.value <==> t in s.tests && s.tests[t].tutor == tutor)
      && (forall t :: t in r.value ==>
            && r.value[t].subjectId == s.tests[t].subject
            && r.value[t].subject == s.subjects[s.tests[t].subject].name
            && r.value[t].questions == Contents(s, t))
  {
    match Tutor(s, principal)
    case Err(e) => Err(e)
    case Ok(tutor) =>
      Ok(map t | t in s.tests && s.tests[t].tutor == tutor ::
        TestRow(s.subjects[s.tests[t].subject].name, s.tests[t].subject, Contents(s, t)))
  }

  /** A listed test carries its question contents. */
  lemma ListedContents(s: Store, principal: Option<Id>, t: Id)
    requires Wf(s)
    requires principal.Some? ==> principal.value in s.users
    requires Tutor(s, principal).Ok? && t in s.tests && s.tests[t].tutor == Tutor(s, principal).value
    ensures var listed := ListTests(s, principal);
      listed.Ok? && t in listed.value && listed.value[t].questions == Contents(s, t)
  {
  }

  /** The created test lists the submitted contents, in order. */
  lemma CreatedContents(s: Store, principal: Option<Id>, subjectId: Option<int>, contents: seq<string>)
    requires Bounded(s)
    requires principal.Some? ==> principal.value in s.users
    requires subjectId.Some? && KnownSubject(s, subjectId.value) && Tutor(s, principal).Ok?
    ensures var out := CreateTest(s, principal, subjectId, contents);
      var t := out.result.value;
      && t in out.store.tests && out.store.tests[t].tutor == Tutor(s, principal).value
      && (forall i :: 0 <= i < |out.store.tests[t].questions| ==> out.store.tests[t].questions[i] in out.store.questions)
      && Contents(out.store, t) == contents
  {
  }

  /** The creating request's contents come back, in order, from the listing. */
  lemma CreateThenList(s: Store, principal: Option<Id>, subjectId: Option<int>, contents: seq<string>)
    requires Wf(s)
    requires principal.Some? ==> principal.value in s.users
    requires subjectId.Some? && KnownSubject(s, subjectId.value) && Tutor(s, principal).Ok?
    ensures var out := CreateTest(s, principal, subjectId, contents);
      Wf(out.store) &&
      var listed := ListTests(out.store, principal);
      listed.Ok? && out.result.value in listed.value && listed.value[out.result.value].questions == contents
  {
    var out := CreateTest(s, principal, subjectId, contents);
    CreateTestPreservesWf(s, principal, subjectId, contents);
    CreatedContents(s, principal, subjectId, contents);
    assert Tutor(out.store, principal) == Tutor(s, principal);
    ListedContents(out.store, principal, out.result.value);
  }

  /** `updateTest`'s removal step: the new subject, and the old questions
      deleted and no longer listed. */
  function ClearQuestions(s: Store, t: Id, subject: Id): (s': Store)
    requires t in s.tests
    ensures s'.tests == s.tests[t := s.tests[t].(subject := subject, questions := [])]
    ensures s'.questions == DropQuestions(s, t)
    ensures s'.users == s.users && s'.subjects == s.subjects && s'.studentTests == s.studentTests
    ensures s'.groups == s.groups && s'.courses == s.courses && s'.nextId == s.nextId
  {
    s.(tests := s.tests[t := s.tests[t].(subject := subject, questions := [])], questions := DropQuestions(s, t))
  }

  lemma ClearQuestionsKeepsResolved(s: Store, t: Id, subject: Id)
    requires Bounded(s) && Resolved(s) && t in s.tests && subject in s.subjects
    ensures var s1 := ClearQuestions(s, t, subject);
      Bounded(s1) && Resolved(s1)
  {
  }

  lemma ClearQuestionsKeepsOwnership(s: Store, t: Id, subject: Id)
    requires QuestionsOwned(s) && StudentTestsOwned(s) && t in s.tests
    ensures var s1 := ClearQuestions(s, t, subject);
      QuestionsOwned(s1) && StudentTestsOwned(s1)
  {
    var s1 := ClearQuestions(s, t, subject);
    forall u, i | u in s1.tests && 0 <= i < |s1.tests[u].questions|
      ensures s1.tests[u].questions[i] in s1.questions && s1.questions[s1.tests[u].questions[i]].test == Some(u)
    {
      var q := s.tests[u].questions[i];
      if u != t {
        QuestionNotListed(s, t, q);
      }
    }
    forall q | q in s1.questions && s1.questions[q].test.Some? && s1.questions[q].test.value in s1.tests
      ensures q in s1.tests[s1.questions[q].test.value].questions
    {
    }
    forall u | u in s1.tests ensures s1.tests[u].studentTests == s.tests[u].studentTests {
    }
  }

  /** What removing the old questions and attaching the new ones does to the
      question table. */
  lemma ReplaceQuestionsFacts(s: Store, id: Id, subject: Id, contents: seq<string>)
    requires Bounded(s) && QuestionsOwned(s) && id in s.tests
    ensures var s' := WithQuestions(ClearQuestions(s, id, subject), id, contents);
      var before := s.tests[id].questions;
      && s'.tests == s.tests[id := s.tests[id].(subject := subject, questions := Range(s.nextId, |contents|))]
      && s'.users == s.users && s'.subjects == s.subjects && s'.studentTests == s.studentTests
      && s'.groups == s.groups && s'.courses == s.courses
      && s'.nextId == s.nextId + |contents|
      && |s'.tests[id].questions| == |contents|
      && (forall i :: 0 <= i < |contents| ==>
            var q := s'.tests[id].questions[i];
            q !in s.questions && q in s'.questions && s'.questions[q] == Question(contents[i], Some(id)))
      && (forall i :: 0 <= i < |before| ==> before[i] !in s'.questions)
      && (forall q :: q in s.questions && q !in before ==> q in s'.questions && s'.questions[q] == s.questions[q])
      && (forall q :: q in s'.questions <==> (q in s.questions && q !in before) || q in s'.tests[id].questions)
  {
    var s1 := ClearQuestions(s, id, subject);
    var before := s.tests[id].questions;
    var s' := WithQuestions(s1, id, contents);
    WithQuestionsRows(s1, id, contents);
    assert s'.tests == s.tests[id := s.tests[id].(subject := subject, questions := Range(s.nextId, |contents|))];
    forall i | 0 <= i < |contents|
      ensures var q := s'.tests[id].questions[i];
        q !in s.questions && q in s'.questions && s'.questions[q] == Question(contents[i], Some(id))
    {
      assert s.nextId <= s'.tests[id].questions[i];
    }
    forall i | 0 <= i < |before| ensures before[i] !in s'.questions {
      assert before[i] in s.questions && before[i] !in s1.questions;
    }
    forall q | q in s.questions && q !in before ensures q in s'.questions && s'.questions[q] == s.questions[q] {
      assert q in s1.questions;
    }
    forall q ensures q in s1.questions <==> q in s.questions && q !in before {
    }
  }

  /** `updateTest`: look up the test, then the subject; set the subject and
      replace every question with the submitted contents. */
  function UpdateTest(s: Store, id: Id, subjectId: Option<int>, contents: seq<string>): (out: Step<()>)
    requires Bounded(s) && QuestionsOwned(s)
    ensures id !in s.tests ==> out == Step(Err(NotFound), s)
    ensures id in s.tests && subjectId.None? ==> out == Step(Err(ServerError), s)
    ensures id in s.tests && subjectId.Some? && !KnownSubject(s, subjectId.value) ==> out == Step(Err(NotFound), s)
    ensures out.result.Ok? <==> id in s.tests && subjectId.Some? && KnownSubject(s, subjectId.value)
    ensures out.result.Ok? ==>
      var s' := out.store;
      var before := s.tests[id].questions;
      && s'.tests.Keys == s.tests.Keys
      && (forall u :: u in s.tests && u != id ==> s'.tests[u] == s.tests[u])
      && s'.tests[id].subject == subjectId.value as nat
      && s'.tests[id].tutor == s.tests[id].tutor
      && s'.tests[id].studentTests == s.tests[id].studentTests
      && s'.nextId == s.nextId + |contents|
      && |s'.tests[id].questions| == |contents|
      && (forall i :: 0 <= i < |contents| ==>
            var q := s'.tests[id].questions[i];
            q !in s.questions && q in s'.questions && s'.questions[q] == Question(contents[i], Some(id)))
      && (forall i :: 0 <= i < |before| ==> before[i] !in s'.questions)
      && (forall q :: q in s.questions && q !in before ==> q in s'.questions && s'.questions[q] == s.questions[q])
      && (forall q :: q in s'.questions <==> (q in s.questions && q !in before) || q in s'.tests[id].questions)
      && s'.users == s.users && s'.subjects == s.subjects && s'.studentTests == s.studentTests
      && s'.groups == s.groups && s'.courses == s.courses
  {
    if id !in s.tests then Step(Err(NotFound), s)
    else if subjectId.None? then Step(Err(ServerError), s)
    else if !KnownSubject(s, subjectId.value) then Step(Err(NotFound), s)
    else
      var subject := subjectId.value as nat;
      ReplaceQuestionsFacts(s, id, subject, contents);
      var s' := WithQuestions(ClearQuestions(s, id, subject), id, contents);
      assert s'.tests.Keys == s.tests.Keys;
      Step(Ok(()), s')
  }

  /** Replacing a test's questions keeps the invariant. */
  lemma UpdateTestPreservesWf(s: Store, id: Id, subjectId: Option<int>, contents: seq<string>)
    requires Wf(s)
    ensures Wf(UpdateTest(s, id, subjectId, contents).store)
  {
    if id in s.tests && subjectId.Some? && KnownSubject(s, subjectId.value) {
      var subject := subjectId.value as nat;
      var s1 := ClearQuestions(s, id, subject);
      ClearQuestionsKeepsResolved(s, id, subject);
      ClearQuestionsKeepsOwnership(s, id, subject);
      assert Mirrored(s1) && UniqueEmails(s1);
      WithQuestionsKeepsWf(s1, id, contents);
      assert UpdateTest(s, id, subjectId, contents).store == WithQuestions(s1, id, contents);
    }
  }

  /** After a replace the test lists exactly the submitted contents. */
  lemma UpdateThenContents(s: Store, id: Id, subjectId: Option<int>, contents: seq<string>)
    requires Bounded(s) && QuestionsOwned(s)
    requires id in s.tests && subjectId.Some? && KnownSubject(s, subjectId.value)
    ensures var s' := UpdateTest(s, id, subjectId, contents).store;
      && id in s'.tests
      && (forall i :: 0 <= i < |s'.tests[id].questions| ==> s'.tests[id].questions[i] in s'.questions)
      && Contents(s', id) == contents
  {
  }

  /** `deleteTest`: the test, its questions, and (by orphan removal) its
      attempts. */
  function DeleteTest(s: Store, id: Id): (out: Step<()>)
    ensures id !in s.tests ==> out == Step(Err(NotFound), s)
    ensures out.result.Ok? <==> id in s.tests
    ensures out.result.Ok? ==>
      var s' := out.store;
      && s'.tests.Keys == s.tests.Keys - {id}
      && (forall u :: u in s'.tests ==> s'.tests[u] == s.tests[u])
      && (forall q :: q in s'.questions <==> q in s.questions && q !in s.tests[id].questions)
      && (forall q :: q in s'.questions ==> s'.questions[q] == s.questions[q])
      && (forall a :: a in s'.studentTests <==> a in s.studentTests && a !in s.tests[id].studentTests)
      && (forall a :: a in s'.studentTests ==> s'.studentTests[a] == s.studentTests[a])
      && s'.users == s.users && s'.subjects == s.subjects
      && s'.groups == s.groups && s'.courses == s.courses
  {
    if id !in s.tests then Step(Err(NotFound), s)
    else Step(Ok(()), s.(tests := s.tests - {id}, questions := DropQuestions(s, id), studentTests := DropAttempts(s, id)))
  }

  lemma DeleteTestKeepsResolved(s: Store, id: Id)
    requires Bounded(s) && Resolved(s) && QuestionsOwned(s) && StudentTestsOwned(s) && id in s.tests
    ensures var s' := DeleteTest(s, id).store;
      Bounded(s') && Resolved(s')
  {
  }

  lemma DeleteTestKeepsOwnership(s: Store, id: Id)
    requires QuestionsOwned(s) && StudentTestsOwned(s) && id in s.tests
    ensures var s' := DeleteTest(s, id).store;
      QuestionsOwned(s') && StudentTestsOwned(s')
  {
  }

  /** Deleting a test keeps the invariant: nothing outside the removed rows
      points at them. */
  lemma DeleteTestPreservesWf(s: Store, id: Id)
    requires Wf(s)
    ensures Wf(DeleteTest(s, id).store)
  {
    if id in s.tests {
      DeleteTestKeepsResolved(s, id);
      DeleteTestKeepsOwnership(s, id);
    }
  }

  /** Some test of the tutor is about the subject. */
  predicate Teaches(s: Store, tutor: Id, subject: Id) {
    exists t :: t in s.tests && s.tests[t].tutor == tutor && s.tests[t].subject == subject
  }

  /** `tutorGroups`: the distinct groups joined on subject with the acting
      tutor's tests. */
  function TutorGroups(s: Store, principal: Option<Id>): (r: Result<map<Id, TutorGroupRow>>)
    requires Wf(s)
    requires principal.Some? ==> principal.value in s.users
    ensures Tutor(s, principal).Err? ==> r == Err(ServerError)
    ensures Tutor(s, principal).Ok? ==> r.Ok?
    ensures r.Ok? ==>
      var tutor := Tutor(s, principal).value;
      && (forall g :: g in r.value <==> g in s.groups && Teaches(s, tutor, s.groups[g].subject))
      && (forall g :: g in r.value ==>
            r.value[g] == TutorGroupRow(s.groups[g].name, s.groups[g].level, s.subjects[s.groups[g].subject].name))
  {
    match Tutor(s, principal)
    case Err(e) => Err(e)
    case Ok(tutor) =>
      Ok(map g | g in s.groups && Teaches(s, tutor, s.groups[g].subject) ::
        TutorGroupRow(s.groups[g].name, s.groups[g].level, s.subjects[s.groups[g].subject].name))
  }
}
