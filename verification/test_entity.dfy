/** The Test entity's owned collections (Test.php): questions and attempts,
    each with a back-reference to the owning test.

    `addX` appends when the element is not yet contained and points its
    back-reference at this test; `removeX` removes the element when contained
    and clears the back-reference only if it still points at this test.
    Doctrine's orphan removal at flush time is not part of these methods.
 */
module TestEntity {
  import opened Outcome
  import opened Collections
  import opened Entities

  /** `new Test()` followed by `setSubject` and `setTutor`; both references are
      required (non-nullable join columns). */
  function NewTest(subject: Id, tutor: Id): (t: Test)
    ensures t.questions == [] && t.studentTests == []
    ensures t.subject == subject && t.tutor == tutor
  {
    Test(subject, tutor, [], [])
  }

  /** Every question listed by test `t` points back at `t`. */
  predicate QuestionsLinked(s: Store, t: Id)
    requires t in s.tests
  {
    forall i :: 0 <= i < |s.tests[t].questions| ==>
      s.tests[t].questions[i] in s.questions && s.questions[s.tests[t].questions[i]].test == Some(t)
  }

  /** Every attempt listed by test `t` points back at `t`. */
  predicate StudentTestsLinked(s: Store, t: Id)
    requires t in s.tests
  {
    forall i :: 0 <= i < |s.tests[t].studentTests| ==>
      s.tests[t].studentTests[i] in s.studentTests && s.studentTests[s.tests[t].studentTests[i]].test == Some(t)
  }

  /** `Test::addQuestion`. */
  function AddQuestion(s: Store, t: Id, q: Id): (s': Store)
    requires t in s.tests && q in s.questions
    ensures SameOutsideTests(s, s') && s'.studentTests == s.studentTests
    ensures s'.tests.Keys == s.tests.Keys && s'.questions.Keys == s.questions.Keys
    ensures q in s.tests[t].questions ==> s' == s
    ensures q !in s.tests[t].questions ==>
      && s'.tests[t] == s.tests[t].(questions := s.tests[t].questions + [q])
      && s'.questions[q] == s.questions[q].(test := Some(t))
    ensures QuestionsLinked(s, t) ==> s'.questions[q].test == Some(t)
    ensures NoDup(s.tests[t].questions) ==> NoDup(s'.tests[t].questions)
    ensures forall u :: u in s.tests && u != t ==> s'.tests[u] == s.tests[u]
    ensures forall p :: p in s.questions && p != q ==> s'.questions[p] == s.questions[p]
  {
    if q in s.tests[t].questions then s
    else
      s.(tests := s.tests[t := s.tests[t].(questions := s.tests[t].questions + [q])],
         questions := s.questions[q := s.questions[q].(test := Some(t))])
  }

  /** `Test::removeQuestion`. */
  function RemoveQuestion(s: Store, t: Id, q: Id): (s': Store)
    requires t in s.tests && q in s.questions
    ensures SameOutsideTests(s, s') && s'.studentTests == s.studentTests
    ensures s'.tests.Keys == s.tests.Keys && s'.questions.Keys == s.questions.Keys
    ensures q !in s.tests[t].questions ==> s' == s
    ensures q in s.tests[t].questions ==>
      && s'.tests[t] == s.tests[t].(questions := RemoveFirst(s.tests[t].questions, q))
      && s'.questions[q].test == (if s.questions[q].test == Some(t) then None else s.questions[q].test)
      && s'.questions[q].content == s.questions[q].content
    ensures NoDup(s.tests[t].questions) ==> NoDup(s'.tests[t].questions) && q !in s'.tests[t].questions
    ensures forall u :: u in s.tests && u != t ==> s'.tests[u] == s.tests[u]
    ensures forall p :: p in s.questions && p != q ==> s'.questions[p] == s.questions[p]
  {
    if q !in s.tests[t].questions then s
    else
      var back := if s.questions[q].test == Some(t) then None else s.questions[q].test;
      s.(tests := s.tests[t := s.tests[t].(questions := RemoveFirst(s.tests[t].questions, q))],
         questions := s.questions[q := s.questions[q].(test := back)])
  }

  /** `Test::addStudentTest`. */
  function AddStudentTest(s: Store, t: Id, a: Id): (s': Store)
    requires t in s.tests && a in s.studentTests
    ensures SameOutsideTests(s, s') && s'.questions == s.questions
    ensures s'.tests.Keys == s.tests.Keys && s'.studentTests.Keys == s.studentTests.Keys
    ensures a in s.tests[t].studentTests ==> s' == s
    ensures a !in s.tests[t].studentTests ==>
      && s'.tests[t] == s.tests[t].(studentTests := s.tests[t].studentTests + [a])
      && s'.studentTests[a] == s.studentTests[a].(test := Some(t))
    ensures StudentTestsLinked(s, t) ==> s'.studentTests[a].test == Some(t)
    ensures NoDup(s.tests[t].studentTests) ==> NoDup(s'.tests[t].studentTests)
    ensures forall u :: u in s.tests && u != t ==> s'.tests[u] == s.tests[u]
    ensures forall b :: b in s.studentTests && b != a ==> s'.studentTests[b] == s.studentTests[b]
  {
    if a in s.tests[t].studentTests then s
    else
      s.(tests := s.tests[t := s.tests[t].(studentTests := s.tests[t].studentTests + [a])],
         studentTests := s.studentTests[a := s.studentTests[a].(test := Some(t))])
  }

  /** `Test::removeStudentTest`. */
  function RemoveStudentTest(s: Store, t: Id, a: Id): (s': Store)
    requires t in s.tests && a in s.studentTests
    ensures SameOutsideTests(s, s') && s'.questions == s.questions
    ensures s'.tests.Keys == s.tests.Keys && s'.studentTests.Keys == s.studentTests.Keys
    ensures a !in s.tests[t].studentTests ==> s' == s
    ensures a in s.tests[t].studentTests ==>
      && s'.tests[t] == s.tests[t].(studentTests := RemoveFirst(s.tests[t].studentTests, a))
      && s'.studentTests[a].test == (if s.studentTests[a].test == Some(t) then None else s.studentTests[a].test)
      && s'.studentTests[a].student == s.studentTests[a].student
      && s'.studentTests[a].score == s.studentTests[a].score
    ensures NoDup(s.tests[t].studentTests) ==> NoDup(s'.tests[t].studentTests) && a !in s'.tests[t].studentTests
    ensures forall u :: u in s.tests && u != t ==> s'.tests[u] == s.tests[u]
    ensures forall b :: b in s.studentTests && b != a ==> s'.studentTests[b] == s.studentTests[b]
  {
    if a !in s.tests[t].studentTests then s
    else
      var back := if s.studentTests[a].test == Some(t) then None else s.studentTests[a].test;
      s.(tests := s.tests[t := s.tests[t].(studentTests := RemoveFirst(s.tests[t].studentTests, a))],
         studentTests := s.studentTests[a := s.studentTests[a].(test := back)])
  }

  /** "Every question in `questions` points at this test" survives both edits
      (removal needs the list to be duplicate-free, as `addQuestion` keeps it). */
  lemma QuestionEditsKeepLinks(s: Store, t: Id, q: Id)
    requires t in s.tests && q in s.questions
    requires QuestionsLinked(s, t) && NoDup(s.tests[t].questions)
    ensures QuestionsLinked(AddQuestion(s, t, q), t)
    ensures QuestionsLinked(RemoveQuestion(s, t, q), t)
  {
  }

  /** The same for attempts. */
  lemma StudentTestEditsKeepLinks(s: Store, t: Id, a: Id)
    requires t in s.tests && a in s.studentTests
    requires StudentTestsLinked(s, t) && NoDup(s.tests[t].studentTests)
    ensures StudentTestsLinked(AddStudentTest(s, t, a), t)
    ensures StudentTestsLinked(RemoveStudentTest(s, t, a), t)
  {
  }

  /** With a repeated entry, removing clears the back-reference of a question
      the list still holds: the link invariant depends on duplicate-freedom. */
  lemma RemoveQuestionNeedsNoDup(s: Store, t: Id, q: Id)
    requires t in s.tests && q in s.questions
    requires s.tests[t].questions == [q, q] && s.questions[q].test == Some(t)
    ensures !QuestionsLinked(RemoveQuestion(s, t, q), t)
  {
  }

  /** Adding a question that another test still lists moves its
      back-reference but leaves it in the other test's list: the in-memory
      graph then violates ownership until it is reloaded. */
  lemma AddQuestionLeavesStaleList(s: Store, t: Id, t2: Id, q: Id)
    requires t in s.tests && t2 in s.tests && t2 != t && q in s.questions
    requires QuestionsOwned(s) && s.questions[q].test == Some(t2)
    ensures q in AddQuestion(s, t, q).tests[t2].questions
    ensures AddQuestion(s, t, q).questions[q].test == Some(t)
    ensures !QuestionsOwned(AddQuestion(s, t, q))
  {
  }

  /** Removing a free question just added restores the store. */
  lemma RemoveQuestionUndoesAdd(s: Store, t: Id, q: Id)
    requires t in s.tests && q in s.questions
    requires q !in s.tests[t].questions && s.questions[q].test.None?
    ensures RemoveQuestion(AddQuestion(s, t, q), t, q) == s
  {
    var s1 := AddQuestion(s, t, q);
    var qs := s.tests[t].questions;
    RemoveFirstAppended(qs, q);
    var s2 := RemoveQuestion(s1, t, q);
    assert s2.tests[t] == s.tests[t];
    assert s2.tests == s.tests;
    assert s2.questions[q] == s.questions[q];
    assert s2.questions == s.questions;
  }

  lemma {:induction false} RemoveFirstAppended<T>(xs: seq<T>, x: T)
    requires x !in xs
    ensures RemoveFirst(xs + [x], x) == xs
  {
    if |xs| > 0 {
      assert (xs + [x])[1..] == xs[1..] + [x];
      RemoveFirstAppended(xs[1..], x);
      assert xs == [xs[0]] + xs[1..];
    }
  }
}
