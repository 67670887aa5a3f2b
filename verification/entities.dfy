/** The persisted entity graph of the e-learning backend as an abstract store.

    Every table is a map from its row id to a record. References between
    entities are ids. The inverse-side collections Doctrine loads lazily
    (`Test::$questions`, `Test::$studentTests`, `User::$studentGroups`) are
    kept explicitly and the invariant `Wf` says they agree with the owning
    side, which is what Doctrine would load back after a flush.
 */
module Entities {
  import opened Outcome
  import opened Collections

  /** Row id; the database's auto-increment keys are positive. */
  type Id = nat

  /** A point in time (`new \DateTimeImmutable()`); the model never inspects it. */
  type Timestamp = nat

  /** `password` holds the hasher's output, never the plain text. `groups` is
      the inverse side of the membership relation. */
  datatype User = User(email: string, roles: seq<string>, password: string, groups: set<Id>)

  datatype Subject = Subject(name: string, imageUrl: string)

  /** `questions` and `studentTests` are ordered, as Doctrine collections are. */
  datatype Test = Test(subject: Id, tutor: Id, questions: seq<Id>, studentTests: seq<Id>)

  /** Question.php is not part of this model; its fields are those the
      controllers use: the content and the nullable owning test. */
  datatype Question = Question(content: string, test: Option<Id>)

  /** One recorded attempt. StudentTest.php is not part of this model; its
      fields are those the controllers use. */
  datatype StudentTest = StudentTest(student: Id, test: Option<Id>, score: Option<int>)

  /** The server-side proficiency levels (stored as the strings of `LevelName`). */
  datatype Level = Basic | Intermediate | Advanced

  /** A cohort; `students` is the owning side of the membership relation. */
  datatype StudentGroup = StudentGroup(name: string, level: Level, subject: Id, students: set<Id>, createdAt: Timestamp)

  /** A piece of course material; `kind` is the source's free-form `type` tag. */
  datatype Course = Course(title: string, kind: string, filePath: string, group: Id, createdAt: Timestamp)

  /** The whole database. `nextId` stands for the auto-increment counters. */
  datatype Store = Store(
    users: map<Id, User>,
    subjects: map<Id, Subject>,
    tests: map<Id, Test>,
    questions: map<Id, Question>,
    studentTests: map<Id, StudentTest>,
    groups: map<Id, StudentGroup>,
    courses: map<Id, Course>,
    nextId: Id)

  /** An endpoint's answer together with the store it leaves behind. */
  datatype Step<T> = Step(result: Result<T>, store: Store)

  const EmptyStore := Store(map[], map[], map[], map[], map[], map[], map[], 1)

  /** Every row id was handed out by the counter. */
  predicate Bounded(s: Store) {
    && 0 < s.nextId
    && KeysBelow(s.users, s.nextId)
    && KeysBelow(s.subjects, s.nextId)
    && KeysBelow(s.tests, s.nextId)
    && KeysBelow(s.questions, s.nextId)
    && KeysBelow(s.studentTests, s.nextId)
    && KeysBelow(s.groups, s.nextId)
    && KeysBelow(s.courses, s.nextId)
  }

  /** Foreign keys of `test`: subject and tutor are required and exist. */
  predicate TestsResolved(s: Store) {
    forall t :: t in s.tests ==> s.tests[t].subject in s.subjects && s.tests[t].tutor in s.users
  }

  /** Foreign key of `question`: nullable, but when set it exists. */
  predicate QuestionsResolved(s: Store) {
    forall q :: q in s.questions && s.questions[q].test.Some? ==> s.questions[q].test.value in s.tests
  }

  /** Foreign keys of `student_test`: student and test are NOT NULL and exist. */
  predicate StudentTestsResolved(s: Store) {
    forall a :: a in s.studentTests ==>
      && s.studentTests[a].student in s.users
      && s.studentTests[a].test.Some?
      && s.studentTests[a].test.value in s.tests
  }

  /** Foreign keys of `student_group` and `student_group_members`. */
  predicate GroupsResolved(s: Store) {
    && (forall g :: g in s.groups ==> s.groups[g].subject in s.subjects && s.groups[g].students <= s.users.Keys)
    && (forall u :: u in s.users ==> s.users[u].groups <= s.groups.Keys)
  }

  /** Foreign key of `course`. */
  predicate CoursesResolved(s: Store) {
    forall c :: c in s.courses ==> s.courses[c].group in s.groups
  }

  predicate Resolved(s: Store) {
    TestsResolved(s) && QuestionsResolved(s) && StudentTestsResolved(s) && GroupsResolved(s) && CoursesResolved(s)
  }

  /** The two sides of the membership relation agree:
      g in u.studentGroups <==> u in g.students. */
  predicate Mirrored(s: Store) {
    forall u, g :: u in s.users && g in s.groups ==> (g in s.users[u].groups <==> u in s.groups[g].students)
  }

  /** A test's question list is exactly the questions whose back-reference is
      that test, without repetition. */
  predicate QuestionsOwned(s: Store) {
    && (forall t, i :: t in s.tests && 0 <= i < |s.tests[t].questions| ==>
          s.tests[t].questions[i] in s.questions && s.questions[s.tests[t].questions[i]].test == Some(t))
    && (forall q :: q in s.questions && s.questions[q].test.Some? && s.questions[q].test.value in s.tests ==>
          q in s.tests[s.questions[q].test.value].questions)
    && (forall t :: t in s.tests ==> NoDup(s.tests[t].questions))
  }

  /** The same for a test's attempts. */
  predicate StudentTestsOwned(s: Store) {
    && (forall t, i :: t in s.tests && 0 <= i < |s.tests[t].studentTests| ==>
          s.tests[t].studentTests[i] in s.studentTests && s.studentTests[s.tests[t].studentTests[i]].test == Some(t))
    && (forall a :: a in s.studentTests && s.studentTests[a].test.Some? && s.studentTests[a].test.value in s.tests ==>
          a in s.tests[s.studentTests[a].test.value].studentTests)
    && (forall t :: t in s.tests ==> NoDup(s.tests[t].studentTests))
  }

  /** The table-level unique constraint on `user.email`. */
  predicate UniqueEmails(s: Store) {
    forall u, v :: u in s.users && v in s.users && s.users[u].email == s.users[v].email ==> u == v
  }

  /** The integrity the schema maintains between requests. */
  predicate Wf(s: Store) {
    Bounded(s) && Resolved(s) && Mirrored(s) && QuestionsOwned(s) && StudentTestsOwned(s) && UniqueEmails(s)
  }

  /** Some user has this email (the `findOneBy(['email' => ...])` test). */
  predicate EmailTaken(s: Store, email: string) {
    exists u :: u in s.users && s.users[u].email == email
  }

  /** Only the membership relation may differ between the two stores. */
  predicate SameExceptMembership(s: Store, s': Store) {
    && s'.subjects == s.subjects && s'.tests == s.tests && s'.questions == s.questions
    && s'.studentTests == s.studentTests && s'.courses == s.courses && s'.nextId == s.nextId
  }

  /** Only tests, questions and attempts may differ between the two stores. */
  predicate SameOutsideTests(s: Store, s': Store) {
    && s'.users == s.users && s'.subjects == s.subjects && s'.groups == s.groups
    && s'.courses == s.courses && s'.nextId == s.nextId
  }

  /** A change confined to the membership sets: same rows, and each record
      equal to the old one up to its membership set. */
  predicate MembershipEdit(s: Store, s': Store) {
    && SameExceptMembership(s, s')
    && s'.users.Keys == s.users.Keys && s'.groups.Keys == s.groups.Keys
    && (forall u :: u in s.users ==> s'.users[u] == s.users[u].(groups := s'.users[u].groups))
    && (forall g :: g in s.groups ==> s'.groups[g] == s.groups[g].(students := s'.groups[g].students))
  }

  lemma MembershipEditKeepsResolved(s: Store, s': Store)
    requires Bounded(s) && Resolved(s) && MembershipEdit(s, s')
    requires forall g :: g in s'.groups ==> s'.groups[g].students <= s'.users.Keys
    requires forall u :: u in s'.users ==> s'.users[u].groups <= s'.groups.Keys
    ensures Bounded(s') && Resolved(s')
  {
  }

  lemma MembershipEditKeepsEmails(s: Store, s': Store)
    requires UniqueEmails(s) && MembershipEdit(s, s')
    ensures UniqueEmails(s')
  {
  }

  /** A change confined to the membership sets keeps the invariant as long as
      the new sets mirror each other and refer to existing rows. */
  lemma MembershipEditKeepsWf(s: Store, s': Store)
    requires Wf(s)
    requires SameExceptMembership(s, s')
    requires s'.users.Keys == s.users.Keys && s'.groups.Keys == s.groups.Keys
    requires forall u :: u in s.users ==> s'.users[u] == s.users[u].(groups := s'.users[u].groups)
    requires forall g :: g in s.groups ==> s'.groups[g] == s.groups[g].(students := s'.groups[g].students)
    requires forall g :: g in s'.groups ==> s'.groups[g].students <= s'.users.Keys
    requires forall u :: u in s'.users ==> s'.users[u].groups <= s'.groups.Keys
    requires Mirrored(s')
    ensures Wf(s')
  {
    MembershipEditKeepsResolved(s, s');
    MembershipEditKeepsEmails(s, s');
  }

  /** A question whose back-reference names another test is not in this
      test's list. */
  lemma QuestionNotListed(s: Store, t: Id, q: Id)
    requires QuestionsOwned(s) && t in s.tests && q in s.questions && s.questions[q].test != Some(t)
    ensures q !in s.tests[t].questions
  {
  }

  /** The same for attempts. */
  lemma AttemptNotListed(s: Store, t: Id, a: Id)
    requires StudentTestsOwned(s) && t in s.tests && a in s.studentTests && s.studentTests[a].test != Some(t)
    ensures a !in s.tests[t].studentTests
  {
  }

  /** A change confined to the course table (and a counter that only grows)
      keeps the invariant as long as every course names an existing group. */
  lemma CourseEditKeepsWf(s: Store, courses: map<Id, Course>, next: Id)
    requires Wf(s) && s.nextId <= next && KeysBelow(courses, next)
    requires forall c :: c in courses ==> courses[c].group in s.groups
    ensures Wf(s.(courses := courses, nextId := next))
  {
  }

  /** What a change confined to the user table must respect: no user
      disappears, the counter only grows, kept users keep their memberships
      and new users have none. */
  predicate UsersEdit(s: Store, users: map<Id, User>, next: Id) {
    && s.nextId <= next && KeysBelow(users, next) && s.users.Keys <= users.Keys
    && (forall u :: u in s.users ==> users[u].groups == s.users[u].groups)
    && (forall u :: u in users && u !in s.users ==> users[u].groups == {})
  }

  lemma UsersEditKeepsResolved(s: Store, users: map<Id, User>, next: Id)
    requires Bounded(s) && Resolved(s) && UsersEdit(s, users, next)
    ensures var s' := s.(users := users, nextId := next);
      Bounded(s') && Resolved(s')
  {
  }

  lemma UsersEditKeepsMirror(s: Store, users: map<Id, User>, next: Id)
    requires GroupsResolved(s) && Mirrored(s) && UsersEdit(s, users, next)
    ensures Mirrored(s.(users := users, nextId := next))
  {
  }

  /** A change confined to the user table that keeps emails unique keeps
      the invariant. */
  lemma UsersEditKeepsWf(s: Store, users: map<Id, User>, next: Id)
    requires Wf(s) && UsersEdit(s, users, next)
    requires forall u, v :: u in users && v in users && users[u].email == users[v].email ==> u == v
    ensures Wf(s.(users := users, nextId := next))
  {
    UsersEditKeepsResolved(s, users, next);
    UsersEditKeepsMirror(s, users, next);
  }

  /** Adding a user with no memberships and an unused email keeps the
      invariant. */
  lemma NewUserKeepsWf(s: Store, usr: User)
    requires Wf(s) && usr.groups == {} && !EmailTaken(s, usr.email)
    ensures Wf(s.(users := s.users[s.nextId := usr], nextId := s.nextId + 1))
  {
    var users := s.users[s.nextId := usr];
    assert s.nextId !in s.users;
    forall u, v | u in users && v in users && users[u].email == users[v].email
      ensures u == v
    {
      if u != s.nextId && v != s.nextId {
        assert users[u] == s.users[u] && users[v] == s.users[v];
      }
    }
    UsersEditKeepsWf(s, users, s.nextId + 1);
  }

  /** Replacing a user's record, keeping its memberships and choosing an
      email no other user has, keeps the invariant. */
  lemma UserEditKeepsWf(s: Store, id: Id, usr: User)
    requires Wf(s) && id in s.users && usr.groups == s.users[id].groups
    requires forall v :: v in s.users && v != id ==> s.users[v].email != usr.email
    ensures Wf(s.(users := s.users[id := usr]))
  {
    var users := s.users[id := usr];
    forall u, v | u in users && v in users && users[u].email == users[v].email
      ensures u == v
    {
      if u != id && v != id {
        assert users[u] == s.users[u] && users[v] == s.users[v];
      }
    }
    UsersEditKeepsWf(s, users, s.nextId);
    assert s.(users := users, nextId := s.nextId) == s.(users := users);
  }
}
