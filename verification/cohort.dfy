/** Cohort resolution (StudentGroupService.php `createOrAssignGroup`): find
    the group named "<subject> - <level>" for the test's subject and the
    level of the percentage, create it when it does not exist, then make the
    student a member.

    The lookup is keyed on (name, subject, level). Doctrine's `findOneBy`
    returns some matching row; the model takes the one with the lowest id.
    The lookup and the creation are separate statements with no lock or
    unique index; the model is sequential and does not cover that race.
 */
module Cohort {
  import opened Outcome
  import opened Collections
  import opened Entities
  import opened Scoring
  import opened Membership

  /** `$subject->getName() . ' - ' . $level`. */
  function GroupName(subjectName: string, level: Level): (r: string)
    ensures |r| == |subjectName| + 3 + |LevelName(level)|
    ensures r[..|subjectName|] == subjectName
    ensures r[|subjectName|..] == " - " + LevelName(level)
  {
    subjectName + (" - " + LevelName(level))
  }

  /** The `findOneBy` criteria. */
  predicate Matches(g: StudentGroup, name: string, subject: Id, level: Level) {
    g.name == name && g.subject == subject && g.level == level
  }

  /** Some group of the store has this (name, subject, level). */
  predicate KeyTaken(s: Store, name: string, subject: Id, level: Level) {
    exists h :: h in s.groups && Matches(s.groups[h], name, subject, level)
  }

  /** The repository lookup. */
  function FindGroup(s: Store, name: string, subject: Id, level: Level): (r: Option<Id>)
    requires Bounded(s)
    ensures r.Some? ==> r.value in s.groups && Matches(s.groups[r.value], name, subject, level)
    ensures r.None? <==> !KeyTaken(s, name, subject, level)
  {
    FirstKey(s.groups, (g: StudentGroup) => Matches(g, name, subject, level), 0, s.nextId)
  }

  /** For one level, two subject names give the same group name exactly
      when they are equal. */
  lemma GroupNameInjective(a: string, b: string, level: Level)
    ensures GroupName(a, level) == GroupName(b, level) <==> a == b
  {
  }

  /** The lookup sees only the groups' ids and keys: two stores that agree
      on those give the same answer, whatever their counters and
      memberships. */
  lemma FindGroupFrame(s1: Store, s2: Store, name: string, subject: Id, level: Level)
    requires Bounded(s1) && Bounded(s2) && s1.groups.Keys == s2.groups.Keys
    requires forall g :: g in s1.groups ==>
      (Matches(s1.groups[g], name, subject, level) <==> Matches(s2.groups[g], name, subject, level))
    ensures FindGroup(s1, name, subject, level) == FindGroup(s2, name, subject, level)
  {
  }

  /** At most one group per (name, subject, level). */
  predicate UniqueGroupKeys(s: Store) {
    forall g, h :: g in s.groups && h in s.groups && Matches(s.groups[g], s.groups[h].name, s.groups[h].subject, s.groups[h].level) ==> g == h
  }

  /** The group the service returns, and the store after its flush. */
  datatype Assignment = Assignment(group: Id, store: Store)

  /** What the service needs of the store: fresh ids, resolvable
      references, a mirrored membership relation. `Wf` implies it. */
  predicate Ready(s: Store, student: Id, test: Id) {
    && Bounded(s) && GroupsResolved(s) && Mirrored(s)
    && student in s.users && test in s.tests && s.tests[test].subject in s.subjects
  }

  function CreateOrAssignGroup(s: Store, student: Id, test: Id, percentage: real, now: Timestamp): (out: Assignment)
    requires Ready(s, student, test)
    ensures var subject := s.tests[test].subject;
      var level := DetermineLevel(percentage);
      var name := GroupName(s.subjects[subject].name, level);
      var g, s' := out.group, out.store;
      && g in s'.groups
      && Matches(s'.groups[g], name, subject, level)
      && s'.users.Keys == s.users.Keys
      && student in s'.groups[g].students && g in s'.users[student].groups
      && (KeyTaken(s, name, subject, level) ==>
            && g in s.groups
            && s'.groups.Keys == s.groups.Keys && s'.nextId == s.nextId
            && s'.groups[g] == s.groups[g].(students := s.groups[g].students + {student}))
      && (!KeyTaken(s, name, subject, level) ==>
            && g == s.nextId && g !in s.groups
            && s'.groups.Keys == s.groups.Keys + {g} && s'.nextId == s.nextId + 1
            && s'.groups[g] == StudentGroup(name, level, subject, {student}, now))
      && (forall h :: h in s.groups && h != g ==> s'.groups[h] == s.groups[h])
      && (forall v :: v in s.users && v != student ==> s'.users[v] == s.users[v])
      && s'.users[student] == s.users[student].(groups := s.users[student].groups + {g})
      && s'.subjects == s.subjects && s'.tests == s.tests && s'.questions == s.questions
      && s'.studentTests == s.studentTests && s'.courses == s.courses
  {
    var subject := s.tests[test].subject;
    var level := DetermineLevel(percentage);
    var name := GroupName(s.subjects[subject].name, level);
    match FindGroup(s, name, subject, level)
    case Some(g) => Assignment(g, JoinExisting(s, g, student))
    case None => Assignment(s.nextId, JoinNew(s, NewGroup(name, level, subject, now), student))
  }

  /** The found branch: `addStudent` on the existing group, skipped when the
      student is already a member. */
  function JoinExisting(s: Store, g: Id, student: Id): (s': Store)
    requires g in s.groups && student in s.users && Mirrored(s)
    ensures s'.groups.Keys == s.groups.Keys && s'.users.Keys == s.users.Keys && s'.nextId == s.nextId
    ensures s'.groups[g] == s.groups[g].(students := s.groups[g].students + {student})
    ensures s'.users[student] == s.users[student].(groups := s.users[student].groups + {g})
    ensures forall h :: h in s.groups && h != g ==> s'.groups[h] == s.groups[h]
    ensures forall v :: v in s.users && v != student ==> s'.users[v] == s.users[v]
    ensures s'.subjects == s.subjects && s'.tests == s.tests && s'.questions == s.questions
    ensures s'.studentTests == s.studentTests && s'.courses == s.courses
  {
    if student !in s.groups[g].students then AddStudent(s, g, student) else s
  }

  /** The missing branch: persist a new empty group under the next id, then
      `addStudent` on it. */
  function JoinNew(s: Store, grp: StudentGroup, student: Id): (s': Store)
    requires Bounded(s) && student in s.users && grp.students == {}
    ensures s.nextId !in s.groups
    ensures s'.groups.Keys == s.groups.Keys + {s.nextId} && s'.users.Keys == s.users.Keys
    ensures s'.nextId == s.nextId + 1
    ensures s'.groups[s.nextId] == grp.(students := {student})
    ensures s'.users[student] == s.users[student].(groups := s.users[student].groups + {s.nextId})
    ensures forall h :: h in s.groups ==> s'.groups[h] == s.groups[h]
    ensures forall v :: v in s.users && v != student ==> s'.users[v] == s.users[v]
    ensures s'.subjects == s.subjects && s'.tests == s.tests && s'.questions == s.questions
    ensures s'.studentTests == s.studentTests && s'.courses == s.courses
  {
    AddStudent(WithGroup(s, grp), s.nextId, student)
  }

  /** The member count grows by at most one. */
  lemma MembersGrowByAtMostOne(s: Store, student: Id, test: Id, percentage: real, now: Timestamp)
    requires Wf(s) && student in s.users && test in s.tests
    ensures var out := CreateOrAssignGroup(s, student, test, percentage, now);
      |out.store.groups[out.group].students| <= 1 + (if out.group in s.groups then |s.groups[out.group].students| else 0)
  {
  }

  /** The store with one more group at the next id. */
  function WithGroup(s: Store, grp: StudentGroup): (s': Store)
    ensures s'.groups == s.groups[s.nextId := grp] && s'.nextId == s.nextId + 1
    ensures s'.users == s.users && s'.subjects == s.subjects && s'.tests == s.tests
    ensures s'.questions == s.questions && s'.studentTests == s.studentTests && s'.courses == s.courses
  {
    s.(groups := s.groups[s.nextId := grp], nextId := s.nextId + 1)
  }

  lemma NewGroupKeepsResolved(s: Store, grp: StudentGroup)
    requires Bounded(s) && Resolved(s) && grp.subject in s.subjects && grp.students == {}
    ensures Bounded(WithGroup(s, grp)) && Resolved(WithGroup(s, grp))
  {
  }

  lemma NewGroupKeepsMirror(s: Store, grp: StudentGroup)
    requires Bounded(s) && GroupsResolved(s) && Mirrored(s) && grp.students == {}
    ensures Mirrored(WithGroup(s, grp))
  {
  }

  /** Registering a fresh group with no members keeps the invariant. */
  lemma NewGroupKeepsWf(s: Store, grp: StudentGroup)
    requires Wf(s) && grp.subject in s.subjects && grp.students == {}
    ensures Wf(WithGroup(s, grp))
  {
    var s1 := WithGroup(s, grp);
    NewGroupKeepsResolved(s, grp);
    NewGroupKeepsMirror(s, grp);
  }

  /** The service keeps the store invariant. */
  lemma CreateOrAssignPreservesWf(s: Store, student: Id, test: Id, percentage: real, now: Timestamp)
    requires Wf(s) && student in s.users && test in s.tests
    ensures Wf(CreateOrAssignGroup(s, student, test, percentage, now).store)
  {
    var subject := s.tests[test].subject;
    var level := DetermineLevel(percentage);
    var name := GroupName(s.subjects[subject].name, level);
    var found := FindGroup(s, name, subject, level);
    var out := CreateOrAssignGroup(s, student, test, percentage, now);
    if found.Some? {
      var g := found.value;
      ReuseKeepsWf(s, g, student);
      assert out.store == JoinExisting(s, g, student);
    } else {
      var grp := NewGroup(name, level, subject, now);
      CreateKeepsWf(s, grp, student);
      assert out.store == JoinNew(s, grp, student);
    }
  }

  lemma ReuseKeepsWf(s: Store, g: Id, student: Id)
    requires Wf(s) && g in s.groups && student in s.users
    ensures Wf(JoinExisting(s, g, student))
  {
    if student !in s.groups[g].students {
      AddStudentPreservesWf(s, g, student);
    }
  }

  lemma CreateKeepsWf(s: Store, grp: StudentGroup, student: Id)
    requires Wf(s) && grp.subject in s.subjects && grp.students == {} && student in s.users
    ensures Wf(JoinNew(s, grp, student))
  {
    var s1 := WithGroup(s, grp);
    NewGroupKeepsWf(s, grp);
    AddStudentPreservesWf(s1, s.nextId, student);
  }

  /** After the call the lookup finds the group just returned: it was the
      first match already, or it is the only one. */
  lemma FindGroupAfterAssign(s: Store, student: Id, test: Id, percentage: real, now: Timestamp)
    requires Wf(s) && student in s.users && test in s.tests
    ensures var out := CreateOrAssignGroup(s, student, test, percentage, now);
      var subject := s.tests[test].subject;
      var level := DetermineLevel(percentage);
      && Bounded(out.store)
      && FindGroup(out.store, GroupName(s.subjects[subject].name, level), subject, level) == Some(out.group)
  {
    var out := CreateOrAssignGroup(s, student, test, percentage, now);
    var subject := s.tests[test].subject;
    var level := DetermineLevel(percentage);
    var name := GroupName(s.subjects[subject].name, level);
    var found := FindGroup(s, name, subject, level);
    if found.Some? {
      FindAfterJoinExisting(s, found.value, student, name, subject, level);
      assert out.store == JoinExisting(s, found.value, student);
    } else {
      var grp := NewGroup(name, level, subject, now);
      FindAfterJoinNew(s, grp, student);
      assert out.store == JoinNew(s, grp, student);
    }
  }

  /** Joining the group found keeps it the first match. */
  lemma FindAfterJoinExisting(s: Store, g: Id, student: Id, name: string, subject: Id, level: Level)
    requires Bounded(s) && Mirrored(s) && student in s.users
    requires FindGroup(s, name, subject, level) == Some(g)
    ensures Bounded(JoinExisting(s, g, student))
    ensures FindGroup(JoinExisting(s, g, student), name, subject, level) == Some(g)
  {
  }

  /** With no match before, the new group is the first match. */
  lemma FindAfterJoinNew(s: Store, grp: StudentGroup, student: Id)
    requires Bounded(s) && student in s.users && grp.students == {}
    requires !KeyTaken(s, grp.name, grp.subject, grp.level)
    ensures Bounded(JoinNew(s, grp, student))
    ensures FindGroup(JoinNew(s, grp, student), grp.name, grp.subject, grp.level) == Some(s.nextId)
  {
    var s1 := JoinNew(s, grp, student);
    var p := (h: StudentGroup) => Matches(h, grp.name, grp.subject, grp.level);
    forall j | 0 <= j < s.nextId && j in s1.groups
      ensures !p(s1.groups[j])
    {
    }
    FirstKeyIsLeast(s1.groups, p, 0, s1.nextId, s.nextId);
  }

  /** A second call with the same student, test and percentage returns the
      same group and changes nothing. */
  lemma CreateOrAssignIdempotent(s: Store, student: Id, test: Id, percentage: real, now: Timestamp, later: Timestamp)
    requires Wf(s) && student in s.users && test in s.tests
    ensures var first := CreateOrAssignGroup(s, student, test, percentage, now);
      Wf(first.store) &&
      var second := CreateOrAssignGroup(first.store, student, test, percentage, later);
      second.group == first.group && second.store == first.store
  {
    var first := CreateOrAssignGroup(s, student, test, percentage, now);
    CreateOrAssignPreservesWf(s, student, test, percentage, now);
    FindGroupAfterAssign(s, student, test, percentage, now);
    var subject := s.tests[test].subject;
    assert first.store.tests[test].subject == subject && first.store.subjects[subject] == s.subjects[subject];
  }

  /** The service never introduces a second group with the same key. */
  lemma CreateOrAssignKeepsUniqueKeys(s: Store, student: Id, test: Id, percentage: real, now: Timestamp)
    requires Wf(s) && student in s.users && test in s.tests
    requires UniqueGroupKeys(s)
    ensures UniqueGroupKeys(CreateOrAssignGroup(s, student, test, percentage, now).store)
  {
    var subject := s.tests[test].subject;
    var level := DetermineLevel(percentage);
    var name := GroupName(s.subjects[subject].name, level);
    var found := FindGroup(s, name, subject, level);
    if found.Some? {
      var s' := JoinExisting(s, found.value, student);
      UniqueKeysFrame(s, s');
    } else {
      var s' := JoinNew(s, NewGroup(name, level, subject, now), student);
      UniqueKeysExtend(s, s', s.nextId);
    }
  }

  /** Key-preserving edits of the groups keep the keys unique. */
  lemma UniqueKeysFrame(s: Store, s': Store)
    requires s'.groups.Keys == s.groups.Keys && UniqueGroupKeys(s)
    requires forall k :: k in s.groups ==> Matches(s'.groups[k], s.groups[k].name, s.groups[k].subject, s.groups[k].level)
    ensures UniqueGroupKeys(s')
  {
  }

  /** Adding one group under a key no group had keeps the keys unique. */
  lemma UniqueKeysExtend(s: Store, s': Store, k: Id)
    requires s'.groups.Keys == s.groups.Keys + {k} && k !in s.groups && UniqueGroupKeys(s)
    requires forall j :: j in s.groups ==> s'.groups[j] == s.groups[j]
    requires !KeyTaken(s, s'.groups[k].name, s'.groups[k].subject, s'.groups[k].level)
    ensures UniqueGroupKeys(s')
  {
  }
}
